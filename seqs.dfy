/** Sequence utilities behind the SQL the routes run: `WHERE` (Filter) and
    `ORDER BY` (SortBy, a stable insertion sort under a total preorder). */
module Seqs {

  /** The rows of `s` that satisfy `p`, in their original order. */
  function Filter<T(!new)>(s: seq<T>, p: T -> bool): (r: seq<T>)
    ensures |r| <= |s|
    ensures forall i :: 0 <= i < |r| ==> p(r[i])
    ensures forall x {:trigger x in r} :: x in r <==> x in s && p(x)
  {
    if s == [] then []
    else
      assert s == [s[0]] + s[1..];
      (if p(s[0]) then [s[0]] else []) + Filter(s[1..], p)
  }

  /** `before(a, b)` says that `a` may be listed ahead of `b`: every two rows are
      comparable, and the relation is transitive. */
  ghost predicate TotalPreorder<T(!new)>(before: (T, T) -> bool) {
    && (forall x, y :: before(x, y) || before(y, x))
    && (forall x, y, z :: before(x, y) && before(y, z) ==> before(x, z))
  }

  ghost predicate Sorted<T>(s: seq<T>, before: (T, T) -> bool) {
    forall i, j :: 0 <= i < j < |s| ==> before(s[i], s[j])
  }

  /** Places `x` ahead of the first row it may precede. */
  function Insert<T>(x: T, s: seq<T>, before: (T, T) -> bool): (r: seq<T>)
    ensures |r| == |s| + 1
  {
    if s == [] || before(x, s[0]) then [x] + s
    else
      assert s == [s[0]] + s[1..];
      [s[0]] + Insert(x, s[1..], before)
  }

  /** Stable insertion sort: rows that tie keep their original order. */
  function SortBy<T>(s: seq<T>, before: (T, T) -> bool): (r: seq<T>)
    ensures |r| == |s|
  {
    if s == [] then []
    else
      assert s == [s[0]] + s[1..];
      Insert(s[0], SortBy(s[1..], before), before)
  }

  lemma {:induction false} InsertPermutes<T>(x: T, s: seq<T>, before: (T, T) -> bool)
    ensures multiset(Insert(x, s, before)) == multiset(s) + multiset{x}
  {
    if s != [] && !before(x, s[0]) {
      InsertPermutes(x, s[1..], before);
      assert s == [s[0]] + s[1..];
      assert Insert(x, s, before) == [s[0]] + Insert(x, s[1..], before);
    }
  }

  /** Sorting neither adds, drops nor duplicates a row. */
  lemma {:induction false} SortByPermutes<T>(s: seq<T>, before: (T, T) -> bool)
    ensures multiset(SortBy(s, before)) == multiset(s)
  {
    if s != [] {
      SortByPermutes(s[1..], before);
      InsertPermutes(s[0], SortBy(s[1..], before), before);
      assert s == [s[0]] + s[1..];
    }
  }

  lemma {:induction false} InsertKeepsSorted<T(!new)>(x: T, s: seq<T>, before: (T, T) -> bool)
    requires TotalPreorder(before) && Sorted(s, before)
    ensures Sorted(Insert(x, s, before), before)
  {
    if s == [] || before(x, s[0]) {
      var r := Insert(x, s, before);
      forall i, j | 0 <= i < j < |r| ensures before(r[i], r[j]) {
        if i == 0 && j > 1 {
          assert before(s[0], s[j - 1]);
        }
      }
    } else {
      var t := Insert(x, s[1..], before);
      InsertKeepsSorted(x, s[1..], before);
      InsertPermutes(x, s[1..], before);
      assert before(s[0], x);
      forall j | 0 <= j < |t| ensures before(s[0], t[j]) {
        assert t[j] in multiset(t);
        if t[j] != x {
          assert t[j] in multiset(s[1..]);
          var k :| 0 <= k < |s[1..]| && s[1..][k] == t[j];
          assert s[k + 1] == t[j];
        }
      }
      var r := Insert(x, s, before);
      assert r == [s[0]] + t;
      forall i, j | 0 <= i < j < |r| ensures before(r[i], r[j]) {
        if i > 0 {
          assert r[i] == t[i - 1] && r[j] == t[j - 1];
        } else {
          assert r[j] == t[j - 1];
        }
      }
    }
  }

  lemma {:induction false} SortByIsSorted<T(!new)>(s: seq<T>, before: (T, T) -> bool)
    requires TotalPreorder(before)
    ensures Sorted(SortBy(s, before), before)
  {
    if s != [] {
      SortByIsSorted(s[1..], before);
      InsertKeepsSorted(s[0], SortBy(s[1..], before), before);
    }
  }

  lemma {:induction false} FilterCons<T(!new)>(x: T, s: seq<T>, p: T -> bool)
    ensures Filter([x] + s, p) == (if p(x) then [x] else []) + Filter(s, p)
  {
    assert ([x] + s)[0] == x && ([x] + s)[1..] == s;
  }

  /** The case of FilterInsert where `x` lands in front of `s`. */
  lemma {:induction false} FilterInsertFront<T(!new)>(x: T, s: seq<T>, before: (T, T) -> bool, p: T -> bool)
    requires forall y :: y in s ==> before(x, y)
    ensures Filter(Insert(x, s, before), p) ==
            if p(x) then Insert(x, Filter(s, p), before) else Filter(s, p)
  {
    assert Insert(x, s, before) == [x] + s;
    FilterCons(x, s, p);
    var f := Filter(s, p);
    if p(x) && f != [] {
      assert f[0] in f && f[0] in s;
    }
  }

  /** The case of FilterInsert where `x` goes past the head of `s`. */
  lemma {:induction false} FilterInsertLater<T(!new)>(x: T, s: seq<T>, before: (T, T) -> bool, p: T -> bool)
    requires s != [] && !before(x, s[0])
    requires Filter(Insert(x, s[1..], before), p) ==
             if p(x) then Insert(x, Filter(s[1..], p), before) else Filter(s[1..], p)
    ensures Filter(Insert(x, s, before), p) ==
            if p(x) then Insert(x, Filter(s, p), before) else Filter(s, p)
  {
    var t := Insert(x, s[1..], before);
    var f := Filter(s[1..], p);
    assert Insert(x, s, before) == [s[0]] + t;
    FilterCons(s[0], t, p);
    assert s == [s[0]] + s[1..];
    FilterCons(s[0], s[1..], p);
    if !p(x) {
      assert Filter(t, p) == f;
    } else if p(s[0]) {
      assert Filter(t, p) == Insert(x, f, before);
      assert Filter(s, p) == [s[0]] + f;
      assert ([s[0]] + f)[0] == s[0] && ([s[0]] + f)[1..] == f;
      assert Insert(x, [s[0]] + f, before) == [s[0]] + Insert(x, f, before);
    } else {
      assert Filter(t, p) == Insert(x, f, before);
      assert Filter(s, p) == f;
    }
  }

  /** Inserting into a sorted sequence commutes with filtering. */
  lemma {:induction false} FilterInsert<T(!new)>(x: T, s: seq<T>, before: (T, T) -> bool, p: T -> bool)
    requires TotalPreorder(before) && Sorted(s, before)
    ensures Filter(Insert(x, s, before), p) ==
            if p(x) then Insert(x, Filter(s, p), before) else Filter(s, p)
  {
    if s == [] || before(x, s[0]) {
      forall y | y in s ensures before(x, y) {
        var k :| 0 <= k < |s| && s[k] == y;
        assert k == 0 || before(s[0], s[k]);
      }
      FilterInsertFront(x, s, before, p);
    } else {
      FilterInsert(x, s[1..], before, p);
      FilterInsertLater(x, s, before, p);
    }
  }

  /** Filtering a sorted listing gives the sorted listing of the filtered rows. */
  lemma {:induction false} FilterSortBy<T(!new)>(s: seq<T>, before: (T, T) -> bool, p: T -> bool)
    requires TotalPreorder(before)
    ensures Filter(SortBy(s, before), p) == SortBy(Filter(s, p), before)
  {
    if s != [] {
      var f := Filter(s[1..], p);
      FilterSortBy(s[1..], before, p);
      SortByIsSorted(s[1..], before);
      FilterInsert(s[0], SortBy(s[1..], before), before, p);
      assert s == [s[0]] + s[1..];
      FilterCons(s[0], s[1..], p);
      if p(s[0]) {
        assert Filter(s, p) == [s[0]] + f;
        assert ([s[0]] + f)[0] == s[0] && ([s[0]] + f)[1..] == f;
        assert SortBy([s[0]] + f, before) == Insert(s[0], SortBy(f, before), before);
      } else {
        assert Filter(s, p) == f;
      }
    }
  }

  /** No two positions of `s` carry the same key (a UNIQUE column). */
  ghost predicate KeysDistinct<T, K>(s: seq<T>, key: T -> K) {
    forall i, j :: 0 <= i < j < |s| ==> key(s[i]) != key(s[j])
  }

  lemma {:induction false} FilterKeepsKeysDistinct<T(!new), K>(s: seq<T>, p: T -> bool, key: T -> K)
    requires KeysDistinct(s, key)
    ensures KeysDistinct(Filter(s, p), key)
  {
    if s != [] {
      FilterKeepsKeysDistinct(s[1..], p, key);
      var f := Filter(s[1..], p);
      assert s == [s[0]] + s[1..];
      FilterCons(s[0], s[1..], p);
      if p(s[0]) {
        forall j | 0 <= j < |f| ensures key(s[0]) != key(f[j]) {
          assert f[j] in f && f[j] in s[1..];
          var k :| 0 <= k < |s[1..]| && s[1..][k] == f[j];
          assert s[k + 1] == f[j];
        }
        var r := [s[0]] + f;
        forall i, j | 0 <= i < j < |r| ensures key(r[i]) != key(r[j]) {
          assert r[j] == f[j - 1];
          if i > 0 { assert r[i] == f[i - 1]; }
        }
      }
    }
  }

  lemma {:induction false} InsertKeepsKeysDistinct<T, K>(x: T, s: seq<T>, before: (T, T) -> bool, key: T -> K)
    requires KeysDistinct(s, key)
    requires forall i :: 0 <= i < |s| ==> key(s[i]) != key(x)
    ensures KeysDistinct(Insert(x, s, before), key)
  {
    if s != [] && !before(x, s[0]) {
      var t := Insert(x, s[1..], before);
      InsertKeepsKeysDistinct(x, s[1..], before, key);
      InsertPermutes(x, s[1..], before);
      forall j | 0 <= j < |t| ensures key(s[0]) != key(t[j]) {
        assert t[j] in multiset(t);
        if t[j] != x {
          assert t[j] in multiset(s[1..]);
          var k :| 0 <= k < |s[1..]| && s[1..][k] == t[j];
          assert s[k + 1] == t[j];
        }
      }
      var r := [s[0]] + t;
      forall i, j | 0 <= i < j < |r| ensures key(r[i]) != key(r[j]) {
        assert r[j] == t[j - 1];
        if i > 0 { assert r[i] == t[i - 1]; }
      }
    } else {
      var r := [x] + s;
      forall i, j | 0 <= i < j < |r| ensures key(r[i]) != key(r[j]) {
        assert r[j] == s[j - 1];
        if i > 0 { assert r[i] == s[i - 1]; }
      }
    }
  }

  /** Sorting keeps a UNIQUE key unique. */
  lemma {:induction false} SortByKeepsKeysDistinct<T, K>(s: seq<T>, before: (T, T) -> bool, key: T -> K)
    requires KeysDistinct(s, key)
    ensures KeysDistinct(SortBy(s, before), key)
  {
    if s != [] {
      var t := SortBy(s[1..], before);
      SortByKeepsKeysDistinct(s[1..], before, key);
      SortByPermutes(s[1..], before);
      forall i | 0 <= i < |t| ensures key(t[i]) != key(s[0]) {
        assert t[i] in multiset(s[1..]);
        var k :| 0 <= k < |s[1..]| && s[1..][k] == t[i];
        assert s[k + 1] == t[i];
      }
      InsertKeepsKeysDistinct(s[0], t, before, key);
    }
  }

  /** A filter that every row passes changes nothing. */
  lemma {:induction false} FilterKeepsAll<T(!new)>(s: seq<T>, p: T -> bool)
    requires forall x :: x in s ==> p(x)
    ensures Filter(s, p) == s
  {
    if s != [] {
      FilterKeepsAll(s[1..], p);
      assert s == [s[0]] + s[1..];
      FilterCons(s[0], s[1..], p);
    }
  }

  /** A filter that no row passes leaves nothing. */
  lemma {:induction false} FilterNone<T(!new)>(s: seq<T>, p: T -> bool)
    requires forall x :: x in s ==> !p(x)
    ensures Filter(s, p) == []
  {
    if s != [] {
      assert s[0] in s;
      assert forall x :: x in s[1..] ==> x in s;
      FilterNone(s[1..], p);
    }
  }

  /** Sorting keeps exactly the elements it was given. */
  lemma SortByMembers<T>(s: seq<T>, before: (T, T) -> bool)
    ensures forall x :: x in SortBy(s, before) <==> x in s
  {
    SortByPermutes(s, before);
    assert forall x :: x in SortBy(s, before) <==> x in multiset(SortBy(s, before));
    assert forall x :: x in s <==> x in multiset(s);
  }

  lemma {:induction false} FilterConcat<T(!new)>(a: seq<T>, b: seq<T>, p: T -> bool)
    ensures Filter(a + b, p) == Filter(a, p) + Filter(b, p)
  {
    if a == [] {
      assert a + b == b;
    } else {
      var pre := if p(a[0]) then [a[0]] else [];
      FilterConcat(a[1..], b, p);
      assert (a + b)[0] == a[0] && (a + b)[1..] == a[1..] + b;
      calc {
        Filter(a + b, p);
        pre + Filter(a[1..] + b, p);
        pre + (Filter(a[1..], p) + Filter(b, p));
        (pre + Filter(a[1..], p)) + Filter(b, p);
        Filter(a, p) + Filter(b, p);
      }
    }
  }
}
