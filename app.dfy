/** The two pieces of logic of the React front end outside the heat map: the
    `formatTime` helper (App.jsx, with an identical copy in Heatmap.jsx) and the
    guard of `addLanguage` built on JavaScript's `String.prototype.trim`. */
module Format {
  import opened Common

  // ---------------------------------------------------------------------------
  // Decimal numerals, as a template literal prints an integer

  predicate IsDigit(c: char) {
    '0' <= c <= '9'
  }

  function DigitChar(d: nat): (c: char)
    requires d < 10
    ensures IsDigit(c)
  {
    "0123456789"[d]
  }

  function DigitValue(c: char): (d: nat)
    requires IsDigit(c)
    ensures d < 10 && DigitChar(d) == c
  {
    (c as int - '0' as int) as nat
  }

  /** The numeral of `n`: digits only, and no leading zero except for `0` itself. */
  function NatToString(n: nat): (s: string)
    ensures 1 <= |s|
    ensures forall i :: 0 <= i < |s| ==> IsDigit(s[i])
    ensures s[0] == '0' ==> n == 0
  {
    if n < 10 then [DigitChar(n)]
    else NatToString(n / 10) + [DigitChar(n % 10)]
  }

  /** `${i}` for an integer: a minus sign before the numeral of a negative. */
  function Decimal(i: int): string {
    if i < 0 then "-" + NatToString(-i) else NatToString(i)
  }

  /** The value of a string of digits. */
  function ParseNat(s: string): nat
    requires forall i :: 0 <= i < |s| ==> IsDigit(s[i])
  {
    if s == [] then 0
    else 10 * ParseNat(s[..|s| - 1]) + DigitValue(s[|s| - 1])
  }

  lemma {:induction false} ParseNatToString(n: nat)
    ensures ParseNat(NatToString(n)) == n
  {
    var s := NatToString(n);
    if n >= 10 {
      var front := NatToString(n / 10);
      assert s == front + [DigitChar(n % 10)];
      assert s[..|s| - 1] == front;
      assert DigitValue(s[|s| - 1]) == n % 10;
      ParseNatToString(n / 10);
    } else {
      assert DigitValue(s[0]) == n;
    }
  }

  /** The length of the run of digits `s` starts with. */
  function SpanDigits(s: string): (k: nat)
    ensures k <= |s|
    ensures forall i :: 0 <= i < k ==> IsDigit(s[i])
    ensures k < |s| ==> !IsDigit(s[k])
  {
    if s == [] || !IsDigit(s[0]) then 0 else 1 + SpanDigits(s[1..])
  }

  lemma {:induction false} SpanOfDigits(d: string, t: string)
    requires forall i :: 0 <= i < |d| ==> IsDigit(d[i])
    requires t == [] || !IsDigit(t[0])
    ensures SpanDigits(d + t) == |d|
  {
    if d != [] {
      assert (d + t)[0] == d[0];
      assert (d + t)[1..] == d[1..] + t;
      SpanOfDigits(d[1..], t);
    } else {
      assert d + t == t;
    }
  }

  // ---------------------------------------------------------------------------
  // formatTime

  /** `minutes % 60` in JavaScript, whose `%` truncates toward zero: the
      remainder takes the sign of the dividend. */
  function MinutesPastHour(minutes: int): (r: int)
    ensures -60 < r < 60
    ensures (minutes - r) % 60 == 0
    ensures minutes >= 0 ==> r >= 0
    ensures minutes <= 0 ==> r <= 0
  {
    if minutes >= 0 then minutes % 60 else -((-minutes) % 60)
  }

  /** `formatTime(minutes)`: `Math.floor(minutes / 60)` is Dafny's `/` by a
      positive divisor. */
  function FormatTime(minutes: int): (r: string)
    ensures 2 <= |r|
    ensures r[0] == '-' <==> minutes < 0
    ensures r[|r| - 1] == 'h' <==> minutes != 0 && minutes % 60 == 0
    ensures r[|r| - 1] == 'h' || r[|r| - 1] == 'm'
  {
    var hours := minutes / 60;
    var mins := MinutesPastHour(minutes);
    var lead := Decimal(if hours == 0 then mins else hours);
    assert lead[0] == '-' <==> minutes < 0;
    if hours == 0 then lead + "m"
    else if mins == 0 then lead + "h"
    else lead + ("h " + (Decimal(mins) + "m"))
  }

  /** Reads the text `formatTime` writes: `<m>m`, `<h>h` or `<h>h <m>m`. */
  function ReadTime(s: string): Option<nat> {
    var k := SpanDigits(s);
    if k == 0 then None else ReadUnit(ParseNat(s[..k]), s[k..])
  }

  /** What follows the first number: its unit, and the minutes after hours. */
  function ReadUnit(n: nat, rest: string): Option<nat> {
    if rest == ['m'] then Some(n)
    else if rest == ['h'] then Some(60 * n)
    else if |rest| >= 2 && rest[0] == 'h' && rest[1] == ' ' then
      match ReadMinutes(rest[2..])
      case Some(m) => Some(60 * n + m)
      case None => None
    else None
  }

  /** `<m>m` alone. */
  function ReadMinutes(t: string): Option<nat> {
    var j := SpanDigits(t);
    if j > 0 && |t| == j + 1 && t[j] == 'm' then Some(ParseNat(t[..j])) else None
  }

  /** A numeral followed by something that is not a digit is read whole. */
  lemma ReadNumeralThen(n: nat, t: string)
    requires t == [] || !IsDigit(t[0])
    ensures ReadTime(NatToString(n) + t) == ReadUnit(n, t)
    ensures ReadMinutes(NatToString(n) + t) == if t == "m" then Some(n) else None
  {
    var d := NatToString(n);
    var s := d + t;
    SpanOfDigits(d, t);
    assert s[..|d|] == d;
    assert s[|d|..] == t;
    ParseNatToString(n);
  }

  lemma ReadAfterHours(hours: nat, tail: string)
    ensures ReadUnit(hours, "h " + tail) ==
            match ReadMinutes(tail) case Some(m) => Some(60 * hours + m) case None => None
  {
    var rest := "h " + tail;
    assert rest[0] == 'h' && rest[1] == ' ' && rest[2..] == tail;
  }

  lemma ReadHoursAndMinutes(hours: nat, mins: nat)
    ensures ReadTime(NatToString(hours) + ("h " + (NatToString(mins) + "m"))) == Some(60 * hours + mins)
  {
    var tail := NatToString(mins) + "m";
    ReadNumeralThen(hours, "h " + tail);
    ReadNumeralThen(mins, "m");
    ReadAfterHours(hours, tail);
  }

  /** Under an hour the text is `<m>m`, with `m` the minutes themselves. */
  lemma RoundTripUnderAnHour(minutes: nat)
    requires minutes < 60
    ensures FormatTime(minutes) == NatToString(minutes) + "m"
    ensures ReadTime(FormatTime(minutes)) == Some(minutes)
  {
    assert MinutesPastHour(minutes) == minutes;
    ReadNumeralThen(minutes, "m");
  }

  /** A whole number of hours, one or more, is `<h>h`. */
  lemma RoundTripWholeHours(minutes: nat)
    requires minutes >= 60 && minutes % 60 == 0
    ensures minutes / 60 >= 1 && FormatTime(minutes) == NatToString(minutes / 60) + "h"
    ensures ReadTime(FormatTime(minutes)) == Some(minutes)
  {
    var hours := minutes / 60;
    assert hours >= 1 && MinutesPastHour(minutes) == 0;
    assert Decimal(hours) == NatToString(hours);
    ReadNumeralThen(hours, "h");
    assert 60 * hours == minutes;
  }

  /** Otherwise the text is `<h>h <m>m`, with at least one hour and the
      minutes past it between 1 and 59. */
  lemma RoundTripHoursAndMinutes(minutes: nat)
    requires minutes >= 60 && minutes % 60 != 0
    ensures minutes / 60 >= 1 && 1 <= minutes % 60 < 60
    ensures FormatTime(minutes) == NatToString(minutes / 60) + ("h " + (NatToString(minutes % 60) + "m"))
    ensures ReadTime(FormatTime(minutes)) == Some(minutes)
  {
    var hours, mins := minutes / 60, minutes % 60;
    assert MinutesPastHour(minutes) == mins;
    ReadHoursAndMinutes(hours, mins);
  }

  /** For every duration the session form accepts, the text `formatTime` shows
      reads back as that number of minutes: no two durations look alike. */
  lemma FormatTimeRoundTrip(minutes: nat)
    ensures ReadTime(FormatTime(minutes)) == Some(minutes)
  {
    if minutes < 60 {
      RoundTripUnderAnHour(minutes);
    } else if minutes % 60 == 0 {
      RoundTripWholeHours(minutes);
    } else {
      RoundTripHoursAndMinutes(minutes);
    }
  }

  lemma FormatTimeInjective(a: nat, b: nat)
    requires FormatTime(a) == FormatTime(b)
    ensures a == b
  {
    FormatTimeRoundTrip(a);
    FormatTimeRoundTrip(b);
  }

  /** The server accepts any truthy duration, and a negative one is shown with
      both parts negative: -90 minutes reads as "-2h -30m". */
  lemma NegativeDurationShown()
    ensures FormatTime(-90) == "-2h -30m"
  {
    assert -90 / 60 == -2;
    assert MinutesPastHour(-90) == -30;
    assert NatToString(2) == "2";
    assert NatToString(30) == NatToString(3) + "0";
  }

  // ---------------------------------------------------------------------------
  // addLanguage: `if (!newLanguage.trim()) return;`

  /** The characters `trim` removes: WhiteSpace and LineTerminator of
      ECMAScript. */
  predicate IsJsWhitespace(c: char) {
    || c == '\t' || c == '\n' || c == '\U{0B}' || c == '\U{0C}' || c == '\r' || c == ' '
    || c == '\U{A0}' || c == '\U{1680}' || ('\U{2000}' <= c <= '\U{200A}')
    || c == '\U{2028}' || c == '\U{2029}' || c == '\U{202F}' || c == '\U{205F}'
    || c == '\U{3000}' || c == '\U{FEFF}'
  }

  /** How many whitespace characters `s` starts with. */
  function LeadingWhitespace(s: string): (k: nat)
    ensures k <= |s|
    ensures forall i :: 0 <= i < k ==> IsJsWhitespace(s[i])
    ensures k < |s| ==> !IsJsWhitespace(s[k])
  {
    if s == [] || !IsJsWhitespace(s[0]) then 0
    else 1 + LeadingWhitespace(s[1..])
  }

  /** How many whitespace characters `s` ends with. */
  function TrailingWhitespace(s: string): (k: nat)
    ensures k <= |s|
    ensures forall i :: |s| - k <= i < |s| ==> IsJsWhitespace(s[i])
    ensures k < |s| ==> !IsJsWhitespace(s[|s| - 1 - k])
  {
    if s == [] || !IsJsWhitespace(s[|s| - 1]) then 0
    else 1 + TrailingWhitespace(s[..|s| - 1])
  }

  /** Where the text `trim` keeps starts and ends. */
  function TrimBounds(s: string): (b: (nat, nat))
    ensures b.0 <= b.1 <= |s|
    ensures forall i :: 0 <= i < b.0 ==> IsJsWhitespace(s[i])
    ensures forall i :: b.1 <= i < |s| ==> IsJsWhitespace(s[i])
    ensures b.0 < b.1 ==> !IsJsWhitespace(s[b.0]) && !IsJsWhitespace(s[b.1 - 1])
  {
    var a := LeadingWhitespace(s);
    var t := TrailingWhitespace(s[a..]);
    TrailingAfter(s, a, t);
    (a, |s| - t)
  }

  /** The trailing whitespace of what follows the leading whitespace, read in
      the whole text. */
  lemma TrailingAfter(s: string, a: nat, t: nat)
    requires a <= |s| && t == TrailingWhitespace(s[a..])
    ensures a + t <= |s|
    ensures forall i :: |s| - t <= i < |s| ==> IsJsWhitespace(s[i])
    ensures a + t < |s| ==> !IsJsWhitespace(s[|s| - t - 1])
  {
    var rest := s[a..];
    forall i | |s| - t <= i < |s|
      ensures IsJsWhitespace(s[i])
    {
      assert s[i] == rest[i - a];
    }
    if a + t < |s| {
      assert s[|s| - t - 1] == rest[|rest| - 1 - t];
    }
  }

  /** `String.prototype.trim`: the text between the leading and the trailing
      whitespace. */
  function Trim(s: string): (r: string)
    ensures exists a, b :: 0 <= a <= b <= |s| && r == s[a..b]
                           && (forall i :: 0 <= i < a ==> IsJsWhitespace(s[i]))
                           && (forall i :: b <= i < |s| ==> IsJsWhitespace(s[i]))
    ensures r != [] ==> !IsJsWhitespace(r[0]) && !IsJsWhitespace(r[|r| - 1])
  {
    var b := TrimBounds(s);
    var r := s[b.0..b.1];
    assert r != [] ==> r[0] == s[b.0] && r[|r| - 1] == s[b.1 - 1];
    r
  }

  /** Trimming twice is trimming once. */
  lemma TrimIdempotent(s: string)
    ensures Trim(Trim(s)) == Trim(s)
  {
    var r := Trim(s);
    if r != [] {
      assert LeadingWhitespace(r) == 0;
      assert TrailingWhitespace(r) == 0;
    }
  }

  /** `addLanguage` posts only when the trimmed name is not empty, that is
      exactly when the name has a character that is not whitespace. */
  predicate ShouldSubmit(name: string): (submit: bool)
    ensures submit <==> exists i :: 0 <= i < |name| && !IsJsWhitespace(name[i])
  {
    var b := TrimBounds(name);
    assert b.0 < b.1 ==> Trim(name)[0] == name[b.0];
    Trim(name) != ""
  }

  /** A name the guard lets through also passes the server's `if (!name)`
      check. */
  lemma SubmittedNamePassesServer(name: string)
    requires ShouldSubmit(name)
    ensures TruthyString(Some(name))
  {
  }

  /** The untrimmed text is what is posted, so names that differ only by
      surrounding spaces both pass the guard and are different names to the
      UNIQUE constraint. */
  lemma PaddedNamesAreDistinct()
    ensures ShouldSubmit("French") && ShouldSubmit(" French")
    ensures Trim(" French") == Trim("French") && " French" != "French"
  {
    var padded := " French";
    assert padded[0] == ' ' && padded[1] == 'F';
    assert LeadingWhitespace(padded) == 1;
    assert padded[1..] == "French";
    assert LeadingWhitespace("French") == 0;
    assert TrailingWhitespace("French") == 0;
  }
}
