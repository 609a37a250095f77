/** The calendar logic of frontend/src/components/Heatmap.jsx: the current day
    streak, the year grid of 7-day weeks, and the lookup of a cell's activity.
    Days are day numbers of module Calendar; "today" and the year on display are
    parameters instead of readings of the clock. */
module Heatmap {
  import opened Common
  import opened Calendar

  /** An element of the daily-activity data: a day and the minutes studied on it. */
  datatype DailyActivity = DailyActivity(day: int, totalMinutes: int)

  // ---------------------------------------------------------------------------
  // Streak
  // ---------------------------------------------------------------------------

  /** `day` is a key of `activityMap`: some entry has that date, and it is not
      after today. */
  predicate Active(data: seq<DailyActivity>, today: int, day: int) {
    day <= today && exists e :: e in data && e.day == day
  }

  /** The `length` days ending at `end` are all active and the day before them is
      not: a maximal run of consecutive active days ending at `end`. */
  ghost predicate IsRun(data: seq<DailyActivity>, today: int, end: int, length: nat) {
    && (forall d :: end - length < d <= end ==> Active(data, today, d))
    && !Active(data, today, end - length)
  }

  /** A run ending at a given day has one length only, so the streak is
      determined by the data. */
  lemma RunIsUnique(data: seq<DailyActivity>, today: int, end: int, k1: nat, k2: nat)
    requires IsRun(data, today, end, k1) && IsRun(data, today, end, k2)
    ensures k1 == k2
  {
  }

  /** Entries dated after today change no day's activity. */
  lemma FutureEntriesIgnored(data: seq<DailyActivity>, future: seq<DailyActivity>, today: int)
    requires forall e :: e in future ==> e.day > today
    ensures forall d :: Active(data + future, today, d) <==> Active(data, today, d)
  {
  }

  function Lowest(data: seq<DailyActivity>): (m: int)
    requires data != []
    ensures forall e :: e in data ==> m <= e.day
  {
    if |data| == 1 then data[0].day
    else
      var m := Lowest(data[1..]);
      assert forall e :: e in data ==> e == data[0] || e in data[1..];
      if data[0].day < m then data[0].day else m
  }

  /** `calculateStreak`: the streak runs back from today when today is active,
      else from yesterday when yesterday is, and is 0 otherwise. */
  method CalculateStreak(data: seq<DailyActivity>, today: int) returns (streak: nat)
    ensures Active(data, today, today) ==> IsRun(data, today, today, streak)
    ensures !Active(data, today, today) && Active(data, today, today - 1) ==>
      IsRun(data, today, today - 1, streak)
    ensures !Active(data, today, today) && !Active(data, today, today - 1) ==> streak == 0
  {
    if |data| == 0 {
      return 0;
    }
    var activityMap: set<int> := {};
    for i := 0 to |data|
      invariant forall d :: d in activityMap <==> d <= today && exists j :: 0 <= j < i && data[j].day == d
    {
      if data[i].day <= today {
        activityMap := activityMap + {data[i].day};
      }
    }
    forall d ensures d in activityMap <==> Active(data, today, d) {
      if Active(data, today, d) {
        var e :| e in data && e.day == d;
        var j :| 0 <= j < |data| && data[j] == e;
      }
    }
    streak := 0;
    var checkDate := today;
    if today !in activityMap {
      checkDate := today - 1;
      if checkDate !in activityMap {
        return 0;
      }
    }
    ghost var end, lowest := checkDate, Lowest(data);
    while checkDate in activityMap
      invariant checkDate == end - streak
      invariant forall d :: checkDate < d <= end ==> Active(data, today, d)
      invariant checkDate >= lowest - 1
      decreases checkDate - lowest + 1
    {
      streak := streak + 1;
      checkDate := checkDate - 1;
    }
  }

  // ---------------------------------------------------------------------------
  // Year grid
  // ---------------------------------------------------------------------------

  /** `n` empty cells (`null`). */
  function Blanks(n: nat): seq<Option<int>> {
    seq(n, _ => None)
  }

  /** The cells of days `from` up to but excluding `to`, one per day, in order. */
  function DayCells(from: int, to: int): seq<Option<int>>
    requires from <= to
  {
    seq(to - from, k => Some(from + k))
  }

  /** The days `from` up to but excluding `to`, in order. */
  function DayRange(from: int, to: int): seq<int>
    requires from <= to
  {
    seq(to - from, k => from + k)
  }

  /** The empty cells before 1 January: one for each weekday before its own. */
  function LeadingBlanks(year: int): nat
    requires year >= 1
  {
    Weekday(JanFirst(year))
  }

  /** The empty cells that fill the last week after 31 December. */
  function TrailingBlanks(year: int): nat
    requires year >= 1
  {
    var used := LeadingBlanks(year) + (JanFirst(year + 1) - JanFirst(year));
    (7 - used % 7) % 7
  }

  /** The grid of `year` read week by week: blanks up to the weekday of 1 January,
      every day of the year, then blanks to the end of the last week. */
  function YearCells(year: int): seq<Option<int>>
    requires year >= 1
  {
    YearLength(year);
    Blanks(LeadingBlanks(year)) + DayCells(JanFirst(year), JanFirst(year + 1)) + Blanks(TrailingBlanks(year))
  }

  /** The cells of the weeks, read one week after the other. */
  function Flatten(weeks: seq<seq<Option<int>>>): seq<Option<int>> {
    if weeks == [] then [] else Flatten(weeks[..|weeks| - 1]) + weeks[|weeks| - 1]
  }

  /** The days among the cells, in order. */
  function Days(cells: seq<Option<int>>): seq<int> {
    if cells == [] then []
    else (if cells[0].Some? then [cells[0].value] else []) + Days(cells[1..])
  }

  lemma {:induction false} DaysOfConcat(a: seq<Option<int>>, b: seq<Option<int>>)
    ensures Days(a + b) == Days(a) + Days(b)
  {
    if a != [] {
      var head := if a[0].Some? then [a[0].value] else [];
      assert (a + b)[0] == a[0];
      assert (a + b)[1..] == a[1..] + b;
      DaysOfConcat(a[1..], b);
      assert Days(a + b) == head + (Days(a[1..]) + Days(b));
      assert Days(a) == head + Days(a[1..]);
    } else {
      assert a + b == b;
    }
  }

  lemma {:induction false} DaysOfBlanks(n: nat)
    ensures Days(Blanks(n)) == []
  {
    if n > 0 {
      assert Blanks(n)[1..] == Blanks(n - 1);
      DaysOfBlanks(n - 1);
    }
  }

  lemma {:induction false} DaysOfDayCells(from: int, count: nat)
    ensures Days(DayCells(from, from + count)) == DayRange(from, from + count)
    decreases count
  {
    if count > 0 {
      assert DayCells(from, from + count)[1..] == DayCells(from + 1, (from + 1) + (count - 1));
      DaysOfDayCells(from + 1, count - 1);
      assert DayRange(from, from + count) == [from] + DayRange(from + 1, (from + 1) + (count - 1));
    }
  }

  /** Read week by week, the grid fills whole weeks, starts with as many blanks
      as the weekday of 1 January and has only blanks after 31 December. */
  lemma YearCellsLayout(year: int)
    requires year >= 1
    ensures |YearCells(year)| % 7 == 0
    ensures forall k :: 0 <= k < LeadingBlanks(year) ==> YearCells(year)[k] == None
    ensures YearCells(year)[LeadingBlanks(year)] == Some(JanFirst(year))
    ensures forall k :: LeadingBlanks(year) + (JanFirst(year + 1) - JanFirst(year)) <= k < |YearCells(year)| ==>
      YearCells(year)[k] == None
  {
    YearLength(year);
    var first, next := JanFirst(year), JanFirst(year + 1);
    ThreePartLayout(LeadingBlanks(year), first, next, TrailingBlanks(year));
    PadToWeek(LeadingBlanks(year) + (next - first));
  }

  /** Blanks, then days, then blanks: where each kind of cell lies. */
  lemma ThreePartLayout(lead: nat, first: int, next: int, trail: nat)
    requires first < next
    ensures var c := Blanks(lead) + DayCells(first, next) + Blanks(trail);
      && |c| == lead + (next - first) + trail
      && (forall k :: 0 <= k < lead ==> c[k] == None)
      && c[lead] == Some(first)
      && (forall k :: lead + (next - first) <= k < |c| ==> c[k] == None)
  {
  }

  lemma PadToWeek(used: nat)
    ensures (used + (7 - used % 7) % 7) % 7 == 0
  {
  }

  /** The days of the grid are every day of the year, each once, in order. */
  lemma YearCellsDays(year: int)
    requires year >= 1
    ensures Days(YearCells(year)) == DayRange(JanFirst(year), JanFirst(year + 1))
  {
    YearLength(year);
    var first, next := JanFirst(year), JanFirst(year + 1);
    var lead, trail := Blanks(LeadingBlanks(year)), Blanks(TrailingBlanks(year));
    DaysOfConcat(lead + DayCells(first, next), trail);
    DaysOfConcat(lead, DayCells(first, next));
    DaysOfBlanks(LeadingBlanks(year));
    DaysOfBlanks(TrailingBlanks(year));
    DaysOfDayCells(first, next - first);
    assert [] + DayRange(first, next) + [] == DayRange(first, next);
  }

  lemma FlattenAppend(weeks: seq<seq<Option<int>>>, w: seq<Option<int>>)
    ensures Flatten(weeks + [w]) == Flatten(weeks) + w
  {
    assert (weeks + [w])[..|weeks|] == weeks;
  }

  /** The cells the loop of `getYearGrid` has produced once `currentDate` reaches
      `current`, starting from the Sunday `start` on or before 1 January `first`. */
  function GridPrefix(start: int, first: int, current: int): seq<Option<int>>
    requires start <= first && start <= current
  {
    if current <= first then Blanks(current - start)
    else Blanks(first - start) + DayCells(first, current)
  }

  lemma GridPrefixStep(start: int, first: int, current: int)
    requires start <= first && start <= current
    ensures GridPrefix(start, first, current + 1) ==
      GridPrefix(start, first, current) + [if current < first then None else Some(current)]
  {
    if current < first {
      assert Blanks(current + 1 - start) == Blanks(current - start) + [None];
    } else {
      assert DayCells(first, current + 1) == DayCells(first, current) + [Some(current)];
    }
  }

  /** The blanks that complete a last week of `partial` cells are the trailing
      blanks of the year. */
  lemma PaddingCompletesWeek(year: int, fullWeeks: nat, partial: nat)
    requires year >= 1 && partial < 7
    requires 7 * fullWeeks + partial == LeadingBlanks(year) + (JanFirst(year + 1) - JanFirst(year))
    ensures TrailingBlanks(year) == if partial == 0 then 0 else 7 - partial
  {
    WeekRemainder(LeadingBlanks(year) + (JanFirst(year + 1) - JanFirst(year)), fullWeeks, partial);
  }

  lemma WeekRemainder(used: int, fullWeeks: nat, partial: nat)
    requires partial < 7 && used == 7 * fullWeeks + partial
    ensures (7 - used % 7) % 7 == if partial == 0 then 0 else 7 - partial
  {
    assert used % 7 == partial;
  }

  /** Once every day of the year is placed, filling the last, partial week with
      blanks completes the grid. */
  lemma LastWeekCompletesGrid(year: int, weeks: seq<seq<Option<int>>>, tail: seq<Option<int>>)
    requires year >= 1
    requires |Flatten(weeks)| == 7 * |weeks| && |tail| < 7
    requires Flatten(weeks) + tail == Blanks(LeadingBlanks(year)) + DayCells(JanFirst(year), JanFirst(year + 1))
    ensures |tail| == 0 ==> Flatten(weeks) == YearCells(year)
    ensures |tail| > 0 ==> Flatten(weeks + [tail + Blanks(7 - |tail|)]) == YearCells(year)
  {
    YearLength(year);
    var filled := Blanks(LeadingBlanks(year)) + DayCells(JanFirst(year), JanFirst(year + 1));
    PaddingCompletesWeek(year, |weeks|, |tail|);
    assert YearCells(year) == filled + Blanks(TrailingBlanks(year));
    if |tail| == 0 {
      assert Flatten(weeks) == filled;
      assert filled + Blanks(0) == filled;
    } else {
      FlattenAppend(weeks, tail + Blanks(7 - |tail|));
      calc {
        Flatten(weeks + [tail + Blanks(7 - |tail|)]);
        Flatten(weeks) + (tail + Blanks(TrailingBlanks(year)));
        (Flatten(weeks) + tail) + Blanks(TrailingBlanks(year));
        filled + Blanks(TrailingBlanks(year));
      }
    }
  }

  /** `while (currentWeek.length < 7) currentWeek.push(null)`. */
  method FillWeek(week: seq<Option<int>>) returns (full: seq<Option<int>>)
    requires |week| <= 7
    ensures full == week + Blanks(7 - |week|)
  {
    full := week;
    while |full| < 7
      invariant |week| <= |full| <= 7
      invariant full == week + Blanks(|full| - |week|)
      decreases 7 - |full|
    {
      assert Blanks(|full| + 1 - |week|) == Blanks(|full| - |week|) + [None];
      full := full + [None];
    }
  }

  /** `currentWeek.push(cell)`, then a full week moves to `weeks`. */
  method PlaceCell(weeks: seq<seq<Option<int>>>, currentWeek: seq<Option<int>>, cell: Option<int>)
    returns (weeks': seq<seq<Option<int>>>, currentWeek': seq<Option<int>>)
    requires forall w :: w in weeks ==> |w| == 7
    requires |Flatten(weeks)| == 7 * |weeks| && |currentWeek| < 7
    ensures forall w :: w in weeks' ==> |w| == 7
    ensures |Flatten(weeks')| == 7 * |weeks'| && |currentWeek'| < 7
    ensures Flatten(weeks') + currentWeek' == Flatten(weeks) + currentWeek + [cell]
  {
    weeks', currentWeek' := weeks, currentWeek + [cell];
    if |currentWeek'| == 7 {
      FlattenAppend(weeks', currentWeek');
      weeks' := weeks' + [currentWeek'];
      currentWeek' := [];
    }
  }

  /** `getYearGrid` for the year on display: a list of weeks of 7 cells, each
      empty or a day. */
  method YearGrid(year: int) returns (weeks: seq<seq<Option<int>>>)
    requires year >= 1
    ensures forall w :: w in weeks ==> |w| == 7
    ensures Flatten(weeks) == YearCells(year)
  {
    YearLength(year);
    var firstDay, lastDay := JanFirst(year), JanFirst(year + 1) - 1;
    var startDay := firstDay - Weekday(firstDay);
    weeks := [];
    var currentWeek: seq<Option<int>> := [];
    var currentDate := startDay;
    // `currentDate.getFullYear() <= year`
    while currentDate <= lastDay
      invariant startDay <= currentDate <= lastDay + 1
      invariant forall w :: w in weeks ==> |w| == 7
      invariant |Flatten(weeks)| == 7 * |weeks|
      invariant |currentWeek| < 7
      invariant Flatten(weeks) + currentWeek == GridPrefix(startDay, firstDay, currentDate)
      decreases lastDay - currentDate
    {
      GridPrefixStep(startDay, firstDay, currentDate);
      var cell: Option<int>;
      if firstDay <= currentDate <= lastDay {
        cell := Some(currentDate);
      } else if currentDate < firstDay {
        cell := None;
      } else {
        // currentDate > lastDay
        break;
      }
      weeks, currentWeek := PlaceCell(weeks, currentWeek, cell);
      currentDate := currentDate + 1;
    }
    assert currentDate == lastDay + 1 && firstDay - startDay == LeadingBlanks(year);
    assert Flatten(weeks) + currentWeek ==
      Blanks(LeadingBlanks(year)) + DayCells(JanFirst(year), JanFirst(year + 1));
    LastWeekCompletesGrid(year, weeks, currentWeek);
    if |currentWeek| > 0 {
      currentWeek := FillWeek(currentWeek);
      weeks := weeks + [currentWeek];
    }
  }

  // ---------------------------------------------------------------------------
  // Cells
  // ---------------------------------------------------------------------------

  /** `dailyActivity.find(d => d.date === dateStr)`: the first entry of the day. */
  function FindDay(data: seq<DailyActivity>, day: int): (r: Option<DailyActivity>)
    ensures r.None? <==> forall e :: e in data ==> e.day != day
    ensures r.Some? ==> exists i :: 0 <= i < |data| && data[i] == r.value && r.value.day == day &&
                                    forall j :: 0 <= j < i ==> data[j].day != day
  {
    if data == [] then None
    else if data[0].day == day then Some(data[0])
    else
      var r := FindDay(data[1..], day);
      assert forall e :: e in data ==> e == data[0] || e in data[1..];
      if r.Some? then
        var i :| 0 <= i < |data[1..]| && data[1..][i] == r.value && r.value.day == day &&
                 forall j :: 0 <= j < i ==> data[1..][j].day != day;
        assert data[i + 1] == r.value;
        r
      else r
  }

  /** `getActivityForDate`: nothing for an empty cell, else the day's first entry. */
  function ActivityForDate(data: seq<DailyActivity>, cell: Option<int>): (r: Option<DailyActivity>)
    ensures cell.None? ==> r.None?
    ensures cell.Some? ==> r == FindDay(data, cell.value)
  {
    match cell
    case None => None
    case Some(day) => FindDay(data, day)
  }

  /** `activity && activity.total_minutes > 0`: the cell is drawn active. */
  predicate IsActiveCell(data: seq<DailyActivity>, cell: Option<int>): (active: bool)
    ensures active <==>
      && cell.Some?
      && (exists i :: 0 <= i < |data| && data[i].day == cell.value && data[i].totalMinutes > 0 &&
                      forall j :: 0 <= j < i ==> data[j].day != cell.value)
  {
    var activity := ActivityForDate(data, cell);
    FirstEntryOnlyOne(data, cell);
    activity.Some? && activity.value.totalMinutes > 0
  }

  /** The entry `FindDay` returns is the one at the first index holding that day. */
  lemma FirstEntryOnlyOne(data: seq<DailyActivity>, cell: Option<int>)
    ensures forall i ::
      (0 <= i < |data| && cell.Some? && data[i].day == cell.value &&
       forall j :: 0 <= j < i ==> data[j].day != cell.value) ==>
      FindDay(data, cell.value) == Some(data[i])
  {
    if cell.Some? {
      var day := cell.value;
      forall i | 0 <= i < |data| && data[i].day == day && (forall j :: 0 <= j < i ==> data[j].day != day)
        ensures FindDay(data, day) == Some(data[i])
      {
        assert data[i] in data;
        var k :| 0 <= k < |data| && data[k] == FindDay(data, day).value && data[k].day == day &&
                 forall j :: 0 <= j < k ==> data[j].day != day;
        assert !(k < i) && !(i < k);
      }
    }
  }

  /** A cell drawn active, on or before today, is a day the streak counts. */
  lemma ActiveCellCountsForStreak(data: seq<DailyActivity>, today: int, day: int)
    requires IsActiveCell(data, Some(day)) && day <= today
    ensures Active(data, today, day)
  {
    var e := FindDay(data, day).value;
    var i :| 0 <= i < |data| && data[i] == e && e.day == day && forall j :: 0 <= j < i ==> data[j].day != day;
    assert data[i] in data;
  }

  /** The streak does not look at the minutes: a day whose only entry has no
      minutes counts for the streak but is not drawn active. */
  lemma StreakIgnoresMinutes()
    ensures var data := [DailyActivity(0, 0)];
      Active(data, 0, 0) && !IsActiveCell(data, Some(0))
  {
    var data := [DailyActivity(0, 0)];
    assert data[0] in data;
  }
}
