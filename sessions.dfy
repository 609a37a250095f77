/** The handlers of backend/routes/sessions.js: the joined listing, the listing of
    one language, the per-language statistics, create and delete. */
module SessionRoutes {
  import opened Common
  import opened Seqs
  import opened Schema

  // ---------------------------------------------------------------------------
  // Listings
  // ---------------------------------------------------------------------------

  /** A row of `SELECT s.*, l.name AS language_name`. */
  datatype SessionRow = SessionRow(session: Session, languageName: string)

  /** The rows `JOIN languages l ON s.language_id = l.id` makes of one session:
      one per matching language. */
  function JoinOne(languages: seq<Language>, s: Session): (r: seq<SessionRow>)
    ensures forall row :: row in r ==>
      row.session == s &&
      exists l :: l in languages && l.id == s.languageId && l.name == row.languageName
  {
    if languages == [] then []
    else
      var rest := JoinOne(languages[1..], s);
      assert forall l :: l in languages[1..] ==> l in languages;
      (if languages[0].id == s.languageId then [SessionRow(s, languages[0].name)] else []) + rest
  }

  /** `FROM study_sessions s JOIN languages l ON s.language_id = l.id`, before ordering. */
  function Join(languages: seq<Language>, sessions: seq<Session>): (r: seq<SessionRow>)
    ensures forall row :: row in r ==>
      row.session in sessions &&
      exists l :: l in languages && l.id == row.session.languageId && l.name == row.languageName
  {
    if sessions == [] then []
    else JoinOne(languages, sessions[0]) + Join(languages, sessions[1..])
  }

  lemma {:induction false} JoinOneWithoutMatch(languages: seq<Language>, s: Session)
    requires forall i :: 0 <= i < |languages| ==> languages[i].id != s.languageId
    ensures JoinOne(languages, s) == []
  {
    if languages != [] {
      JoinOneWithoutMatch(languages[1..], s);
    }
  }

  lemma {:induction false} JoinOneFindsTheLanguage(languages: seq<Language>, s: Session)
    requires KeysDistinct(languages, LanguageKey)
    requires HasLanguage(languages, s.languageId)
    ensures |JoinOne(languages, s)| == 1
  {
    if languages[0].id == s.languageId {
      forall i | 0 <= i < |languages[1..]| ensures languages[1..][i].id != s.languageId {
        assert LanguageKey(languages[0]) != LanguageKey(languages[i + 1]);
      }
      JoinOneWithoutMatch(languages[1..], s);
    } else {
      var l :| l in languages && l.id == s.languageId;
      assert l in languages[1..];
      assert KeysDistinct(languages[1..], LanguageKey);
      JoinOneFindsTheLanguage(languages[1..], s);
    }
  }

  /** Under the foreign key, the inner join keeps every session exactly once. */
  lemma {:induction false} JoinKeepsEverySession(languages: seq<Language>, sessions: seq<Session>)
    requires KeysDistinct(languages, LanguageKey)
    requires ReferencesResolve(languages, sessions)
    ensures |Join(languages, sessions)| == |sessions|
    ensures forall i :: 0 <= i < |sessions| ==> Join(languages, sessions)[i].session == sessions[i]
  {
    if sessions != [] {
      var first, others := sessions[0], sessions[1..];
      assert first in sessions;
      assert forall s :: s in others ==> s in sessions;
      JoinOneFindsTheLanguage(languages, first);
      JoinKeepsEverySession(languages, others);
      var one, rest := JoinOne(languages, first), Join(languages, others);
      assert one[0] in one;
      var r := Join(languages, sessions);
      assert r == one + rest;
      forall i | 0 <= i < |sessions| ensures r[i].session == sessions[i] {
        if i > 0 {
          assert r[i] == rest[i - 1] && sessions[i] == others[i - 1];
        }
      }
    }
  }

  /** `a < b` under SQLite's BINARY collation: character by character (UTF-8
      byte order is code point order), a proper prefix first. */
  predicate TextBelow(a: string, b: string) {
    if b == [] then false
    else if a == [] then true
    else a[0] < b[0] || (a[0] == b[0] && TextBelow(a[1..], b[1..]))
  }

  lemma {:induction false} TextBelowTransitive(a: string, b: string, c: string)
    requires TextBelow(a, b) && TextBelow(b, c)
    ensures TextBelow(a, c)
  {
    if a != [] && a[0] == b[0] && b[0] == c[0] {
      TextBelowTransitive(a[1..], b[1..], c[1..]);
    }
  }

  lemma {:induction false} TextBelowTotal(a: string, b: string)
    requires a != b
    ensures TextBelow(a, b) || TextBelow(b, a)
  {
    if a != [] && b != [] && a[0] == b[0] {
      assert a == [a[0]] + a[1..] && b == [b[0]] + b[1..];
      TextBelowTotal(a[1..], b[1..]);
    }
  }

  /** `ORDER BY s.date DESC, s.created_at DESC`. */
  function LaterFirst(a: SessionRow, b: SessionRow): bool {
    || TextBelow(b.session.date, a.session.date)
    || (a.session.date == b.session.date && a.session.createdAt >= b.session.createdAt)
  }

  lemma LaterFirstIsTotalPreorder()
    ensures TotalPreorder(LaterFirst)
  {
    forall a: SessionRow, b: SessionRow ensures LaterFirst(a, b) || LaterFirst(b, a) {
      if a.session.date != b.session.date {
        TextBelowTotal(a.session.date, b.session.date);
      }
    }
    forall a: SessionRow, b: SessionRow, c: SessionRow | LaterFirst(a, b) && LaterFirst(b, c)
      ensures LaterFirst(a, c)
    {
      if TextBelow(b.session.date, a.session.date) && TextBelow(c.session.date, b.session.date) {
        TextBelowTransitive(c.session.date, b.session.date, a.session.date);
      }
    }
  }

  /** GET /: every session with its language's name, latest date first, and on
      one date the latest created first. */
  function List(languages: seq<Language>, sessions: seq<Session>): (r: seq<SessionRow>)
    ensures multiset(r) == multiset(Join(languages, sessions))
    ensures forall i, j :: 0 <= i < j < |r| ==> LaterFirst(r[i], r[j])
  {
    LaterFirstIsTotalPreorder();
    SortByIsSorted(Join(languages, sessions), LaterFirst);
    SortByPermutes(Join(languages, sessions), LaterFirst);
    SortBy(Join(languages, sessions), LaterFirst)
  }

  /** In a valid database the listing shows each session exactly once. */
  lemma ListShowsEverySession(languages: seq<Language>, sessions: seq<Session>)
    requires KeysDistinct(languages, LanguageKey)
    requires ReferencesResolve(languages, sessions)
    ensures |List(languages, sessions)| == |sessions|
    ensures forall s :: s in sessions <==> exists row :: row in List(languages, sessions) && row.session == s
  {
    var joined := Join(languages, sessions);
    var r := List(languages, sessions);
    JoinKeepsEverySession(languages, sessions);
    forall s | s in sessions ensures exists row :: row in r && row.session == s {
      var i :| 0 <= i < |sessions| && sessions[i] == s;
      assert joined[i] in multiset(joined);
      assert joined[i] in r;
    }
    forall row | row in r ensures row.session in sessions {
      assert row in multiset(r);
      assert row in joined;
    }
  }

  function RowOfLanguage(languageId: int): SessionRow -> bool {
    (row: SessionRow) => row.session.languageId == languageId
  }

  /** GET /language/:languageId: the same query with `WHERE s.language_id = ?`. */
  function ListByLanguage(languages: seq<Language>, sessions: seq<Session>, languageId: int)
    : (r: seq<SessionRow>)
    ensures forall row :: row in r <==>
      row in Join(languages, sessions) && row.session.languageId == languageId
    ensures forall i, j :: 0 <= i < j < |r| ==> LaterFirst(r[i], r[j])
  {
    var rows := Filter(Join(languages, sessions), RowOfLanguage(languageId));
    LaterFirstIsTotalPreorder();
    SortByIsSorted(rows, LaterFirst);
    SortByMembers(rows, LaterFirst);
    SortBy(rows, LaterFirst)
  }

  /** The listing of one language is the full listing with the other languages'
      rows taken out, in the same order. */
  lemma ListByLanguageIsSliceOfList(languages: seq<Language>, sessions: seq<Session>, languageId: int)
    ensures ListByLanguage(languages, sessions, languageId) ==
            Filter(List(languages, sessions), RowOfLanguage(languageId))
  {
    LaterFirstIsTotalPreorder();
    FilterSortBy(Join(languages, sessions), LaterFirst, RowOfLanguage(languageId));
  }

  // ---------------------------------------------------------------------------
  // Statistics of one language
  // ---------------------------------------------------------------------------

  /** A row of `SELECT category, SUM(duration_minutes) AS total_minutes,
      COUNT(*) AS session_count ... GROUP BY category`. */
  datatype CategoryTotal = CategoryTotal(category: string, totalMinutes: int, sessionCount: nat)

  /** The body of GET /stats/:languageId. */
  datatype Stats = Stats(totalMinutes: int, byCategory: seq<CategoryTotal>)

  function SessionOf(languageId: int): Session -> bool {
    (s: Session) => s.languageId == languageId
  }

  function CategoryKey(e: CategoryTotal): string { e.category }

  /** `SUM(duration_minutes)`; SQL gives NULL over no rows, which `|| 0` turns into 0. */
  function TotalMinutes(rows: seq<Session>): int {
    if rows == [] then 0 else rows[0].durationMinutes + TotalMinutes(rows[1..])
  }

  function CategoryMinutes(rows: seq<Session>, c: string): int {
    if rows == [] then 0
    else (if rows[0].category == c then rows[0].durationMinutes else 0) + CategoryMinutes(rows[1..], c)
  }

  function CategoryCount(rows: seq<Session>, c: string): nat {
    if rows == [] then 0
    else (if rows[0].category == c then 1 else 0) + CategoryCount(rows[1..], c)
  }

  function SumMinutes(g: seq<CategoryTotal>): int {
    if g == [] then 0 else g[0].totalMinutes + SumMinutes(g[1..])
  }

  function SumCounts(g: seq<CategoryTotal>): int {
    if g == [] then 0 else g[0].sessionCount + SumCounts(g[1..])
  }

  /** Each entry holds its category's sum and count over `rows`, and the count
      is not zero. */
  ghost predicate EntriesMatch(rows: seq<Session>, g: seq<CategoryTotal>) {
    forall i :: 0 <= i < |g| ==>
      && g[i].totalMinutes == CategoryMinutes(rows, g[i].category)
      && g[i].sessionCount == CategoryCount(rows, g[i].category)
      && g[i].sessionCount > 0
  }

  /** Every category present in `rows` has an entry. */
  ghost predicate CoversRows(rows: seq<Session>, g: seq<CategoryTotal>) {
    forall s :: s in rows ==> exists i :: 0 <= i < |g| && g[i].category == s.category
  }

  /** `g` is a GROUP BY category of `rows`: one entry per category present and
      none for an absent one, each holding its category's sum and count, the
      entries adding up to the whole. */
  ghost predicate Groups(rows: seq<Session>, g: seq<CategoryTotal>) {
    && KeysDistinct(g, CategoryKey)
    && EntriesMatch(rows, g)
    && CoversRows(rows, g)
    && SumMinutes(g) == TotalMinutes(rows)
    && SumCounts(g) == |rows|
  }

  function FindCategory(g: seq<CategoryTotal>, c: string): (k: int)
    ensures -1 <= k < |g|
    ensures k >= 0 ==> g[k].category == c
    ensures k < 0 ==> forall i :: 0 <= i < |g| ==> g[i].category != c
  {
    if g == [] then -1
    else if g[0].category == c then 0
    else
      var k := FindCategory(g[1..], c);
      if k < 0 then -1 else k + 1
  }

  /** Folds one row into the groups. */
  function AddToGroups(g: seq<CategoryTotal>, s: Session): seq<CategoryTotal> {
    var k := FindCategory(g, s.category);
    if k < 0 then g + [CategoryTotal(s.category, s.durationMinutes, 1)]
    else g[k := CategoryTotal(s.category, g[k].totalMinutes + s.durationMinutes, g[k].sessionCount + 1)]
  }

  lemma {:induction false} SumAppend(g: seq<CategoryTotal>, x: CategoryTotal)
    ensures SumMinutes(g + [x]) == SumMinutes(g) + x.totalMinutes
    ensures SumCounts(g + [x]) == SumCounts(g) + x.sessionCount
  {
    if g != [] {
      assert (g + [x])[1..] == g[1..] + [x];
      SumAppend(g[1..], x);
    }
  }

  lemma {:induction false} SumUpdate(g: seq<CategoryTotal>, k: nat, x: CategoryTotal)
    requires k < |g|
    ensures SumMinutes(g[k := x]) == SumMinutes(g) - g[k].totalMinutes + x.totalMinutes
    ensures SumCounts(g[k := x]) == SumCounts(g) - g[k].sessionCount + x.sessionCount
  {
    if k == 0 {
      assert g[k := x][1..] == g[1..];
    } else {
      assert g[k := x][1..] == g[1..][k - 1 := x];
      SumUpdate(g[1..], k - 1, x);
    }
  }

  lemma {:induction false} AbsentCategory(rows: seq<Session>, c: string)
    requires forall s :: s in rows ==> s.category != c
    ensures CategoryMinutes(rows, c) == 0 && CategoryCount(rows, c) == 0
  {
    if rows != [] {
      assert rows[0] in rows;
      assert forall s :: s in rows[1..] ==> s in rows;
      AbsentCategory(rows[1..], c);
    }
  }

  lemma NewCategoryEntries(rows: seq<Session>, g: seq<CategoryTotal>)
    requires rows != [] && EntriesMatch(rows[1..], g)
    requires forall i :: 0 <= i < |g| ==> g[i].category != rows[0].category
    requires CategoryMinutes(rows[1..], rows[0].category) == 0
    requires CategoryCount(rows[1..], rows[0].category) == 0
    ensures EntriesMatch(rows, g + [CategoryTotal(rows[0].category, rows[0].durationMinutes, 1)])
  {
    var g' := g + [CategoryTotal(rows[0].category, rows[0].durationMinutes, 1)];
    forall i | 0 <= i < |g'|
      ensures g'[i].totalMinutes == CategoryMinutes(rows, g'[i].category)
      ensures g'[i].sessionCount == CategoryCount(rows, g'[i].category)
      ensures g'[i].sessionCount > 0
    {
      if i < |g| {
        assert g'[i] == g[i];
      }
    }
  }

  lemma NewCategoryShape(rows: seq<Session>, g: seq<CategoryTotal>)
    requires rows != [] && KeysDistinct(g, CategoryKey) && CoversRows(rows[1..], g)
    requires forall i :: 0 <= i < |g| ==> g[i].category != rows[0].category
    ensures KeysDistinct(g + [CategoryTotal(rows[0].category, rows[0].durationMinutes, 1)], CategoryKey)
    ensures CoversRows(rows, g + [CategoryTotal(rows[0].category, rows[0].durationMinutes, 1)])
  {
    var g' := g + [CategoryTotal(rows[0].category, rows[0].durationMinutes, 1)];
    forall i, j | 0 <= i < j < |g'| ensures CategoryKey(g'[i]) != CategoryKey(g'[j]) {
      if j < |g| {
        assert g'[i] == g[i] && g'[j] == g[j];
      }
    }
    forall t | t in rows ensures exists i :: 0 <= i < |g'| && g'[i].category == t.category {
      if t == rows[0] {
        assert g'[|g|].category == t.category;
      } else {
        assert t in rows[1..];
        var i :| 0 <= i < |g| && g[i].category == t.category;
        assert g'[i] == g[i];
      }
    }
  }

  /** Folding in a row of a category not seen yet appends its entry. */
  lemma AddNewCategory(rows: seq<Session>, g: seq<CategoryTotal>)
    requires rows != [] && Groups(rows[1..], g)
    requires FindCategory(g, rows[0].category) < 0
    ensures Groups(rows, g + [CategoryTotal(rows[0].category, rows[0].durationMinutes, 1)])
  {
    var c := rows[0].category;
    forall t | t in rows[1..] ensures t.category != c {
      var i :| 0 <= i < |g| && g[i].category == t.category;
    }
    AbsentCategory(rows[1..], c);
    SumAppend(g, CategoryTotal(c, rows[0].durationMinutes, 1));
    NewCategoryEntries(rows, g);
    NewCategoryShape(rows, g);
  }

  lemma ExistingCategoryEntries(rows: seq<Session>, g: seq<CategoryTotal>, k: nat)
    requires rows != [] && k < |g| && g[k].category == rows[0].category
    requires KeysDistinct(g, CategoryKey) && EntriesMatch(rows[1..], g)
    ensures EntriesMatch(rows, g[k := CategoryTotal(rows[0].category,
      g[k].totalMinutes + rows[0].durationMinutes, g[k].sessionCount + 1)])
  {
    var g' := g[k := CategoryTotal(rows[0].category,
      g[k].totalMinutes + rows[0].durationMinutes, g[k].sessionCount + 1)];
    forall i | 0 <= i < |g'|
      ensures g'[i].totalMinutes == CategoryMinutes(rows, g'[i].category)
      ensures g'[i].sessionCount == CategoryCount(rows, g'[i].category)
      ensures g'[i].sessionCount > 0
    {
      if i != k {
        assert g'[i] == g[i];
        assert CategoryKey(g[i]) != CategoryKey(g[k]);
      }
    }
  }

  lemma ExistingCategoryShape(rows: seq<Session>, g: seq<CategoryTotal>, k: nat, x: CategoryTotal)
    requires rows != [] && k < |g| && g[k].category == rows[0].category && x.category == g[k].category
    requires KeysDistinct(g, CategoryKey) && CoversRows(rows[1..], g)
    ensures KeysDistinct(g[k := x], CategoryKey) && CoversRows(rows, g[k := x])
  {
    var g' := g[k := x];
    forall i, j | 0 <= i < j < |g'| ensures CategoryKey(g'[i]) != CategoryKey(g'[j]) {
      assert CategoryKey(g'[i]) == CategoryKey(g[i]) && CategoryKey(g'[j]) == CategoryKey(g[j]);
    }
    forall t | t in rows ensures exists i :: 0 <= i < |g'| && g'[i].category == t.category {
      if t == rows[0] {
        assert g'[k].category == t.category;
      } else {
        assert t in rows[1..];
        var i :| 0 <= i < |g| && g[i].category == t.category;
        assert g'[i].category == g[i].category;
      }
    }
  }

  /** Folding in a row of a category already present updates that entry only. */
  lemma AddExistingCategory(rows: seq<Session>, g: seq<CategoryTotal>, k: nat)
    requires rows != [] && Groups(rows[1..], g)
    requires k == FindCategory(g, rows[0].category)
    ensures Groups(rows, g[k := CategoryTotal(rows[0].category,
      g[k].totalMinutes + rows[0].durationMinutes, g[k].sessionCount + 1)])
  {
    var x := CategoryTotal(rows[0].category, g[k].totalMinutes + rows[0].durationMinutes, g[k].sessionCount + 1);
    SumUpdate(g, k, x);
    ExistingCategoryEntries(rows, g, k);
    ExistingCategoryShape(rows, g, k, x);
  }

  lemma AddToGroupsKeepsGroups(rows: seq<Session>, g: seq<CategoryTotal>)
    requires rows != [] && Groups(rows[1..], g)
    ensures Groups(rows, AddToGroups(g, rows[0]))
  {
    var k := FindCategory(g, rows[0].category);
    if k < 0 {
      AddNewCategory(rows, g);
    } else {
      AddExistingCategory(rows, g, k);
    }
  }

  /** GROUP BY category, before ordering. */
  function GroupByCategory(rows: seq<Session>): (g: seq<CategoryTotal>)
    ensures Groups(rows, g)
  {
    if rows == [] then []
    else
      var g := GroupByCategory(rows[1..]);
      AddToGroupsKeepsGroups(rows, g);
      AddToGroups(g, rows[0])
  }

  /** `ORDER BY total_minutes DESC`. */
  function MoreMinutes(a: CategoryTotal, b: CategoryTotal): bool {
    a.totalMinutes >= b.totalMinutes
  }

  lemma MoreMinutesIsTotalPreorder()
    ensures TotalPreorder(MoreMinutes)
  {
  }

  lemma {:induction false} SumInsert(x: CategoryTotal, g: seq<CategoryTotal>)
    ensures SumMinutes(Insert(x, g, MoreMinutes)) == x.totalMinutes + SumMinutes(g)
    ensures SumCounts(Insert(x, g, MoreMinutes)) == x.sessionCount + SumCounts(g)
  {
    if g != [] && !MoreMinutes(x, g[0]) {
      SumInsert(x, g[1..]);
      assert ([g[0]] + Insert(x, g[1..], MoreMinutes))[1..] == Insert(x, g[1..], MoreMinutes);
    }
  }

  lemma {:induction false} SumSortBy(g: seq<CategoryTotal>)
    ensures SumMinutes(SortBy(g, MoreMinutes)) == SumMinutes(g)
    ensures SumCounts(SortBy(g, MoreMinutes)) == SumCounts(g)
  {
    if g != [] {
      SumSortBy(g[1..]);
      SumInsert(g[0], SortBy(g[1..], MoreMinutes));
    }
  }

  /** Reordering the groups keeps them a GROUP BY of the same rows. */
  lemma SortedGroupsStillGroups(rows: seq<Session>, g: seq<CategoryTotal>)
    requires Groups(rows, g)
    ensures Groups(rows, SortBy(g, MoreMinutes))
  {
    var r := SortBy(g, MoreMinutes);
    SortByPermutes(g, MoreMinutes);
    SortByKeepsKeysDistinct(g, MoreMinutes, CategoryKey);
    SumSortBy(g);
    forall i | 0 <= i < |r|
      ensures r[i].totalMinutes == CategoryMinutes(rows, r[i].category)
      ensures r[i].sessionCount == CategoryCount(rows, r[i].category)
      ensures r[i].sessionCount > 0
    {
      assert r[i] in multiset(g);
      var j :| 0 <= j < |g| && g[j] == r[i];
    }
    forall s | s in rows ensures exists i :: 0 <= i < |r| && r[i].category == s.category {
      var j :| 0 <= j < |g| && g[j].category == s.category;
      assert g[j] in multiset(r);
      var i :| 0 <= i < |r| && r[i] == g[j];
    }
  }

  /** GET /stats/:languageId. */
  function GetStats(sessions: seq<Session>, languageId: int): (r: Stats)
    ensures r.totalMinutes == TotalMinutes(Filter(sessions, SessionOf(languageId)))
    ensures Groups(Filter(sessions, SessionOf(languageId)), r.byCategory)
    ensures forall i, j :: 0 <= i < j < |r.byCategory| ==>
      r.byCategory[i].totalMinutes >= r.byCategory[j].totalMinutes
  {
    var rows := Filter(sessions, SessionOf(languageId));
    var groups := GroupByCategory(rows);
    SortedGroupsStillGroups(rows, groups);
    MoreMinutesIsTotalPreorder();
    SortByIsSorted(groups, MoreMinutes);
    Stats(TotalMinutes(rows), SortBy(groups, MoreMinutes))
  }

  /** Entries that each count at least one row number at most the rows. */
  lemma {:induction false} SumCountsBoundsLength(g: seq<CategoryTotal>)
    requires forall i :: 0 <= i < |g| ==> g[i].sessionCount > 0
    ensures SumCounts(g) >= |g|
  {
    if g != [] {
      SumCountsBoundsLength(g[1..]);
    }
  }

  /** A language without sessions (or an id naming no language) has total 0 and
      no category entries: absent categories are omitted, not zero-filled. */
  lemma StatsWithoutSessions(sessions: seq<Session>, languageId: int)
    requires forall s :: s in sessions ==> s.languageId != languageId
    ensures GetStats(sessions, languageId) == Stats(0, [])
  {
    FilterNone(sessions, SessionOf(languageId));
    var r := GetStats(sessions, languageId);
    SumCountsBoundsLength(r.byCategory);
  }

  /** The first session logged for a language makes the whole of its statistics. */
  lemma StatsAfterFirstSession(sessions: seq<Session>, s: Session)
    requires forall t :: t in sessions ==> t.languageId != s.languageId
    ensures GetStats(sessions + [s], s.languageId) ==
            Stats(s.durationMinutes, [CategoryTotal(s.category, s.durationMinutes, 1)])
  {
    var p := SessionOf(s.languageId);
    FilterConcat(sessions, [s], p);
    FilterNone(sessions, p);
    FilterCons(s, [], p);
    assert Filter(sessions + [s], p) == [s];
    var r := GetStats(sessions + [s], s.languageId);
    var g := r.byCategory;
    SumCountsBoundsLength(g);
    assert s in [s];
    var i :| 0 <= i < |g| && g[i].category == s.category;
    assert |g| == 1 && i == 0;
  }

  // ---------------------------------------------------------------------------
  // Writes
  // ---------------------------------------------------------------------------

  /** The body of POST /: every field may be missing. */
  datatype SessionForm = SessionForm(
    languageId: Option<int>,
    category: Option<string>,
    durationMinutes: Option<int>,
    date: Option<string>,
    notes: Option<string>)

  /** `language_id && category && duration_minutes && date`: a duration of 0 is
      missing, a negative one is not. */
  predicate HasRequiredFields(form: SessionForm): (ok: bool)
    ensures ok <==> form.languageId.Some? && form.category.Some? &&
                    form.durationMinutes.Some? && form.date.Some? &&
                    form.languageId.value != 0 && form.durationMinutes.value != 0 &&
                    form.category.value != "" && form.date.value != ""
  {
    && TruthyInt(form.languageId)
    && TruthyString(form.category)
    && TruthyInt(form.durationMinutes)
    && TruthyString(form.date)
  }

  /** `notes || null`. */
  function StoredNotes(notes: Option<string>): (r: Option<string>)
    ensures r.None? <==> !TruthyString(notes)
    ensures r.Some? ==> r == notes && r.value != ""
  {
    if TruthyString(notes) then notes else None
  }

  /** The body of a successful POST: `{ id }`. */
  datatype NewSession = NewSession(id: nat)

  /** POST /. A `language_id` naming no language fails the foreign key, which
      the `catch` answers with 500. */
  method Post(db: Database, form: SessionForm, now: nat) returns (response: Response<NewSession>)
    requires db.Valid()
    modifies db
    ensures db.Valid()
    ensures !HasRequiredFields(form) ==>
      response == ErrorReply(400, "Missing required fields") && db.State() == old(db.State())
    ensures HasRequiredFields(form) && !HasLanguage(old(db.languages), form.languageId.value) ==>
      response == ErrorReply(500, "Failed to add session") && db.State() == old(db.State())
    ensures HasRequiredFields(form) && HasLanguage(old(db.languages), form.languageId.value) ==>
      && response == Reply(201, NewSession(old(db.lastSessionId) + 1))
      && old(db.lastSessionId) + 1 !in old(db.issuedSessionIds)
      && db.sessions == old(db.sessions) + [Session(old(db.lastSessionId) + 1,
           form.languageId.value, form.category.value, form.durationMinutes.value,
           form.date.value, StoredNotes(form.notes), now)]
      && db.lastSessionId == old(db.lastSessionId) + 1
      && db.issuedSessionIds == old(db.issuedSessionIds) + {old(db.lastSessionId) + 1}
      && db.languages == old(db.languages)
      && db.lastLanguageId == old(db.lastLanguageId)
      && db.issuedLanguageIds == old(db.issuedLanguageIds)
  {
    if !HasRequiredFields(form) {
      return ErrorReply(400, "Missing required fields");
    }
    var result := db.InsertSession(form.languageId.value, form.category.value,
      form.durationMinutes.value, form.date.value, StoredNotes(form.notes), now);
    match result
    case Done(id) =>
      response := Reply(201, NewSession(id));
    case Failed(_) =>
      response := ErrorReply(500, "Failed to add session");
  }

  /** DELETE /:id. */
  method Delete(db: Database, id: int) returns (response: Response<string>)
    requires db.Valid()
    modifies db
    ensures db.Valid()
    ensures !HasSession(old(db.sessions), id) ==>
      response == ErrorReply(404, "Session not found") && db.State() == old(db.State())
    ensures HasSession(old(db.sessions), id) ==>
      && response == Reply(200, "Session deleted")
      && db.sessions == Filter(old(db.sessions), SessionOtherThan(id))
      && |db.sessions| == |old(db.sessions)| - 1
      && db.languages == old(db.languages)
      && db.lastLanguageId == old(db.lastLanguageId)
      && db.lastSessionId == old(db.lastSessionId)
      && db.issuedLanguageIds == old(db.issuedLanguageIds)
      && db.issuedSessionIds == old(db.issuedSessionIds)
  {
    ghost var before := db.sessions;
    if !HasSession(db.sessions, id) {
      FilterKeepsAll(db.sessions, SessionOtherThan(id));
    } else {
      OneRowPerId(db.sessions, id);
    }
    var changes := db.DeleteSession(id);
    if changes == 0 {
      return ErrorReply(404, "Session not found");
    }
    response := Reply(200, "Session deleted");
  }

  /** DELETE /:id followed by POST /: AUTOINCREMENT never hands the deleted
      id to the new session. */
  method DeleteThenPost(db: Database, id: int, form: SessionForm, now: nat)
    returns (deleted: Response<string>, posted: Response<NewSession>)
    requires db.Valid()
    modifies db
    ensures db.Valid()
    ensures deleted.Reply? && posted.Reply? ==> posted.body.id != id
    ensures posted.Reply? ==> posted.body.id !in old(db.issuedSessionIds)
  {
    deleted := Delete(db, id);
    posted := Post(db, form, now);
  }

  /** With unique ids, deleting by id removes exactly one row. */
  lemma {:induction false} OneRowPerId(sessions: seq<Session>, id: int)
    requires KeysDistinct(sessions, SessionKey)
    requires HasSession(sessions, id)
    ensures |Filter(sessions, SessionOtherThan(id))| == |sessions| - 1
  {
    var p := SessionOtherThan(id);
    assert sessions == [sessions[0]] + sessions[1..];
    FilterCons(sessions[0], sessions[1..], p);
    if sessions[0].id == id {
      forall x | x in sessions[1..] ensures p(x) {
        var k :| 0 <= k < |sessions[1..]| && sessions[1..][k] == x;
        assert SessionKey(sessions[0]) != SessionKey(sessions[k + 1]);
      }
      FilterKeepsAll(sessions[1..], p);
    } else {
      var t :| t in sessions && t.id == id;
      assert t in sessions[1..];
      OneRowPerId(sessions[1..], id);
    }
  }
}
