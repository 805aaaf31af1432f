/**
 * Sequences of intervals, as the multi-interval container and its merge
 * policies hold them: the values they cover, the two canonical forms the
 * policies produce, and the filter and the sort `extend` applies to new
 * intervals before merging them.
 */
module IntervalSeqs {
  import opened Wrappers
  import opened Bounds
  import opened Intervals
  import opened IntervalProperties
  import LeftMostIter

  /** Some interval of `s` contains `v`. */
  predicate InAny(s: seq<Interval>, v: int)
    decreases |s|
  {
    s != [] && (s[0].Contains(v) || InAny(s[1..], v))
  }

  lemma {:induction false} InAnyConcat(a: seq<Interval>, b: seq<Interval>, v: int)
    ensures InAny(a + b, v) <==> InAny(a, v) || InAny(b, v)
    decreases |a|
  {
    if a == [] {
      assert a + b == b;
    } else {
      assert (a + b)[0] == a[0];
      assert (a + b)[1..] == a[1..] + b;
      InAnyConcat(a[1..], b, v);
    }
  }

  lemma {:induction false} InAnyMeaning(s: seq<Interval>, v: int)
    ensures InAny(s, v) <==> exists k :: 0 <= k < |s| && s[k].Contains(v)
    decreases |s|
  {
    if s != [] {
      InAnyMeaning(s[1..], v);
      if InAny(s[1..], v) {
        var k :| 0 <= k < |s| - 1 && s[1..][k].Contains(v);
        assert s[k + 1].Contains(v);
      }
      if exists k :: 0 <= k < |s| && s[k].Contains(v) {
        var k :| 0 <= k < |s| && s[k].Contains(v);
        if k > 0 { assert s[1..][k - 1].Contains(v); }
      }
    }
  }

  /** The values covered depend only on the multiset of intervals. */
  lemma {:induction false} InAnyPermutation(a: seq<Interval>, b: seq<Interval>, v: int)
    requires multiset(a) == multiset(b)
    ensures InAny(a, v) <==> InAny(b, v)
  {
    InAnyMeaning(a, v);
    InAnyMeaning(b, v);
    if InAny(a, v) {
      var k :| 0 <= k < |a| && a[k].Contains(v);
      assert a[k] in multiset(b);
      var m :| 0 <= m < |b| && b[m] == a[k];
      assert b[m].Contains(v);
    }
    if InAny(b, v) {
      var k :| 0 <= k < |b| && b[k].Contains(v);
      assert b[k] in multiset(a);
      var m :| 0 <= m < |a| && a[m] == b[k];
      assert a[m].Contains(v);
    }
  }

  predicate AllNonEmpty(s: seq<Interval>) {
    forall k :: 0 <= k < |s| ==> !s[k].IsEmpty()
  }

  /** The form the joining policy keeps: non-empty, in order, neither overlapping nor touching. */
  predicate Joined(s: seq<Interval>) {
    AllNonEmpty(s) && forall k :: 0 < k < |s| ==> s[k - 1].StrictlyLeftNotContiguous(s[k])
  }

  /** The form `check_invariants` asks for: non-empty, each strictly left of the next. */
  predicate Separated(s: seq<Interval>) {
    AllNonEmpty(s) && forall k :: 0 < k < |s| ==> s[k - 1].StrictlyLeftOfInterval(s[k])
  }

  /** `<=` on intervals as `LeftMostIter` uses it: `partial_cmp` as written. */
  predicate AsWrittenLe(a: Interval, b: Interval) {
    IntervalCompare(a, b) != Greater
  }

  /** Ordered by `<=`, each interval no greater than the next. */
  predicate SortedIntervals(s: seq<Interval>) {
    LeftMostIter.Sorted(s, IntervalLe)
  }

  lemma JoinedIsSeparated(s: seq<Interval>)
    requires Joined(s)
    ensures Separated(s)
  {
  }

  /** A separated sequence is sorted, its lower bounds strictly increasing. */
  lemma SeparatedIsSorted(s: seq<Interval>)
    requires Separated(s)
    ensures SortedIntervals(s)
    ensures forall k :: 0 < k < |s| ==> Lt(s[k - 1].lower, s[k].lower)
  {
    forall k | 0 < k < |s| ensures IntervalLe(s[k - 1], s[k]) && Lt(s[k - 1].lower, s[k].lower) {
      LeTransitive(s[k - 1].lower, s[k - 1].upper, s[k].lower);
    }
  }

  /**
   * What "a sorted list of non-overlapping intervals" means for values:
   * every value of an earlier interval is below every value of a later one.
   */
  lemma {:induction false} SeparatedValuesOrdered(s: seq<Interval>, i: nat, j: nat, v: int, w: int)
    requires Separated(s) && i < j < |s|
    requires s[i].Contains(v) && s[j].Contains(w)
    ensures v < w
    decreases j - i
  {
    StrictlyLeftOfIntervalMeaning(s[j - 1], s[j]);
    if i < j - 1 {
      var u := SomeValue(s[j - 1]);
      SeparatedValuesOrdered(s, i, j - 1, v, u);
    }
  }

  /** On non-empty intervals the as-written `<=` is the corrected one. */
  lemma AsWrittenAgrees(a: Interval, b: Interval)
    requires !a.IsEmpty() && !b.IsEmpty()
    ensures AsWrittenLe(a, b) <==> IntervalLe(a, b)
  {
  }

  lemma SortedAsWritten(s: seq<Interval>)
    requires AllNonEmpty(s) && SortedIntervals(s)
    ensures LeftMostIter.Sorted(s, AsWrittenLe)
  {
    forall k | 0 < k < |s| ensures AsWrittenLe(s[k - 1], s[k]) {
      AsWrittenAgrees(s[k - 1], s[k]);
    }
  }

  // The filter and the sort `extend` applies to its input.

  /** `filter(|intv| !intv.is_empty())`. */
  function NonEmptyOnly(s: seq<Interval>): seq<Interval>
    decreases |s|
  {
    if s == [] then []
    else if s[0].IsEmpty() then NonEmptyOnly(s[1..])
    else [s[0]] + NonEmptyOnly(s[1..])
  }

  /**
   * The filter keeps exactly the non-empty intervals: none of its output is
   * empty, it adds no interval, it loses no value, and it is empty exactly
   * when every input interval is.
   */
  lemma {:induction false} NonEmptyOnlyFacts(s: seq<Interval>)
    ensures AllNonEmpty(NonEmptyOnly(s))
    ensures multiset(NonEmptyOnly(s)) <= multiset(s)
    ensures forall v :: InAny(NonEmptyOnly(s), v) <==> InAny(s, v)
    ensures NonEmptyOnly(s) == [] <==> forall k :: 0 <= k < |s| ==> s[k].IsEmpty()
    decreases |s|
  {
    if s != [] {
      NonEmptyOnlyFacts(s[1..]);
      assert s == [s[0]] + s[1..];
      EmptyIffNoValue(s[0]);
      var r := NonEmptyOnly(s);
      if !s[0].IsEmpty() {
        assert r[1..] == NonEmptyOnly(s[1..]);
      }
      forall k | 0 <= k < |s| && !s[k].IsEmpty() ensures r != [] {
        if k > 0 {
          assert !s[1..][k - 1].IsEmpty();
        }
      }
    }
  }

  /** The filter keeps a sequence without empty intervals as it is. */
  lemma {:induction false} NonEmptyOnlyKeeps(s: seq<Interval>)
    requires AllNonEmpty(s)
    ensures NonEmptyOnly(s) == s
    decreases |s|
  {
    if s != [] {
      NonEmptyOnlyKeeps(s[1..]);
      assert s == [s[0]] + s[1..];
    }
  }

  /** Stable insertion of `x` after every element it is not below. */
  function Insert(x: Interval, s: seq<Interval>): seq<Interval>
    decreases |s|
  {
    if s == [] then [x]
    else if !IntervalLe(s[0], x) then [x] + s
    else [s[0]] + Insert(x, s[1..])
  }

  /**
   * `sort`: a stable sort by `<=` (the library's intervals are non-empty by
   * then, where `cmp` is the corrected comparison).
   */
  function Sort(s: seq<Interval>): seq<Interval>
    decreases |s|
  {
    if s == [] then [] else Insert(s[|s| - 1], Sort(s[..|s| - 1]))
  }

  lemma {:induction false} InsertFacts(x: Interval, s: seq<Interval>)
    requires SortedIntervals(s)
    ensures SortedIntervals(Insert(x, s))
    ensures multiset(Insert(x, s)) == multiset(s) + multiset{x}
    ensures Insert(x, s)[0] == x || (s != [] && Insert(x, s)[0] == s[0])
    decreases |s|
  {
    InsertMultiset(x, s);
    if s != [] {
      IntervalLeTotal(x, s[0]);
      if IntervalLe(s[0], x) {
        var tail := s[1..];
        InsertFacts(x, tail);
        var t := Insert(x, tail);
        assert IntervalLe(s[0], t[0]) by {
          if t[0] != x {
            assert tail[0] == s[1];
          }
        }
        InsertSortedCons(s[0], t);
      } else {
        InsertSortedCons(x, s);
      }
    }
  }

  /** Inserting adds exactly the one interval, at the front or after the head. */
  lemma {:induction false} InsertMultiset(x: Interval, s: seq<Interval>)
    ensures multiset(Insert(x, s)) == multiset(s) + multiset{x}
    ensures Insert(x, s)[0] == x || (s != [] && Insert(x, s)[0] == s[0])
    decreases |s|
  {
    if s != [] && IntervalLe(s[0], x) {
      InsertMultiset(x, s[1..]);
      assert s == [s[0]] + s[1..];
    }
  }

  /** An interval no greater than the head of a sorted sequence can go in front of it. */
  lemma InsertSortedCons(x: Interval, t: seq<Interval>)
    requires SortedIntervals(t) && t != [] && IntervalLe(x, t[0])
    ensures SortedIntervals([x] + t)
  {
    var u := [x] + t;
    forall k | 0 < k < |u| ensures IntervalLe(u[k - 1], u[k]) {
      if k > 1 {
        assert u[k - 1] == t[k - 2] && u[k] == t[k - 1];
      }
    }
  }

  lemma {:induction false} InsertLength(x: Interval, s: seq<Interval>)
    ensures |Insert(x, s)| == |s| + 1
    decreases |s|
  {
    if s != [] && IntervalLe(s[0], x) {
      InsertLength(x, s[1..]);
    }
  }

  /** An interval no smaller than all the others is inserted last. */
  lemma {:induction false} InsertLast(x: Interval, s: seq<Interval>)
    requires forall k :: 0 <= k < |s| ==> IntervalLe(s[k], x)
    ensures Insert(x, s) == s + [x]
    decreases |s|
  {
    if s != [] {
      InsertLast(x, s[1..]);
      assert s == [s[0]] + s[1..];
    }
  }

  /** The sort leaves a sorted sequence as it is. */
  lemma {:induction false} SortKeepsSorted(s: seq<Interval>)
    requires SortedIntervals(s)
    ensures Sort(s) == s
    decreases |s|
  {
    if s != [] {
      var p, x := s[..|s| - 1], s[|s| - 1];
      assert SortedIntervals(p);
      SortKeepsSorted(p);
      forall k | 0 <= k < |p| ensures IntervalLe(p[k], x) {
        SortedPairwise(s, k, |s| - 1);
      }
      InsertLast(x, p);
      assert p + [x] == s;
    }
  }

  lemma {:induction false} SortedPairwise(s: seq<Interval>, i: nat, j: nat)
    requires SortedIntervals(s) && i <= j < |s|
    ensures IntervalLe(s[i], s[j])
    decreases j - i
  {
    if i < j {
      SortedPairwise(s, i + 1, j);
      IntervalLeTransitive(s[i], s[i + 1], s[j]);
    } else {
      IntervalLeTotal(s[i], s[i]);
    }
  }

  /** The sort yields a sorted permutation of its input. */
  lemma {:induction false} SortFacts(s: seq<Interval>)
    ensures SortedIntervals(Sort(s))
    ensures multiset(Sort(s)) == multiset(s)
    ensures |Sort(s)| == |s|
    decreases |s|
  {
    if s != [] {
      var p, x := s[..|s| - 1], s[|s| - 1];
      SortFacts(p);
      var t := Sort(p);
      assert Sort(s) == Insert(x, t);
      InsertFacts(x, t);
      InsertLength(x, t);
      assert s == p + [x];
      assert multiset(s) == multiset(p) + multiset{x};
    }
  }

  /** The lower bounds never decrease along the sequence. */
  predicate LowersSorted(s: seq<Interval>) {
    forall i, j :: 0 <= i < j < |s| ==> Le(s[i].lower, s[j].lower)
  }

  lemma {:induction false} SortedLowers(s: seq<Interval>)
    requires AllNonEmpty(s) && SortedIntervals(s)
    ensures LowersSorted(s)
    decreases |s|
  {
    if s != [] {
      var t := s[1..];
      assert AllNonEmpty(t) && SortedIntervals(t);
      SortedLowers(t);
      forall j | 0 < j < |s| ensures Le(s[0].lower, s[j].lower) {
        if j > 1 {
          assert Le(t[0].lower, t[j - 1].lower);
        }
        IntervalLeLower(s[0], s[1]);
      }
    }
  }

  lemma LowersSortedHead(acc: Interval, rest: seq<Interval>)
    requires rest != [] && LowersSorted([acc] + rest)
    ensures Le(acc.lower, rest[0].lower)
  {
    var s := [acc] + rest;
    assert s[0] == acc && s[1] == rest[0];
    assert Le(s[0].lower, s[1].lower);
  }

  lemma LowersSortedTail(s: seq<Interval>)
    requires s != [] && LowersSorted(s)
    ensures LowersSorted(s[1..])
  {
    forall i, j | 0 <= i < j < |s| - 1 ensures Le(s[1..][i].lower, s[1..][j].lower) {
      assert Le(s[i + 1].lower, s[j + 1].lower);
    }
  }

  /** Replacing the first two intervals by one starting no higher keeps the order. */
  lemma LowersSortedNewHead(acc: Interval, u: Interval, rest: seq<Interval>)
    requires rest != [] && LowersSorted([acc] + rest) && Le(u.lower, acc.lower)
    ensures LowersSorted([u] + rest[1..])
  {
    var s, t := [acc] + rest, [u] + rest[1..];
    forall i, j | 0 <= i < j < |t| ensures Le(t[i].lower, t[j].lower) {
      assert t[j] == s[j + 1];
      if i == 0 {
        assert Le(s[0].lower, s[j + 1].lower);
      } else {
        assert t[i] == s[i + 1];
        assert Le(s[i + 1].lower, s[j + 1].lower);
      }
    }
  }

  /** Two joined sequences side by side are joined when the seam is. */
  lemma JoinedConcat(a: seq<Interval>, b: seq<Interval>)
    requires Joined(a) && Joined(b)
    requires a == [] || b == [] || a[|a| - 1].StrictlyLeftNotContiguous(b[0])
    ensures Joined(a + b)
  {
    forall k | 0 < k < |a + b| ensures (a + b)[k - 1].StrictlyLeftNotContiguous((a + b)[k]) {
      if k > |a| {
        assert (a + b)[k - 1] == b[k - 1 - |a|];
      }
    }
  }

  lemma SeparatedConcat(a: seq<Interval>, b: seq<Interval>)
    requires Separated(a) && Separated(b)
    requires a == [] || b == [] || a[|a| - 1].StrictlyLeftOfInterval(b[0])
    ensures Separated(a + b)
  {
    forall k | 0 < k < |a + b| ensures (a + b)[k - 1].StrictlyLeftOfInterval((a + b)[k]) {
      if k > |a| {
        assert (a + b)[k - 1] == b[k - 1 - |a|];
      }
    }
  }

  // A joined sequence is determined, up to `==` of its intervals, by the values it covers.

  /** `==` on interval sequences: same length, and the intervals pairwise `==`. */
  predicate SameIntervals(a: seq<Interval>, b: seq<Interval>) {
    |a| == |b| && forall k :: 0 <= k < |a| ==> a[k].Equivalent(b[k])
  }

  lemma {:induction false} SameIntervalsCover(a: seq<Interval>, b: seq<Interval>, v: int)
    requires SameIntervals(a, b)
    ensures InAny(a, v) <==> InAny(b, v)
    decreases |a|
  {
    if a != [] {
      EquivalentIsSameValues(a[0], b[0]);
      SameIntervalsCover(a[1..], b[1..], v);
    }
  }

  /** Every value strictly between two consecutive intervals of a joined sequence is covered by none. */
  lemma GapBetweenJoined(b: seq<Interval>, i: nat, j: nat) returns (g: int)
    requires Joined(b) && j == i + 1 && j < |b|
    ensures !InAny(b, g)
    ensures forall u :: b[i].Contains(u) ==> u < g
    ensures forall u :: b[j].Contains(u) ==> g < u
  {
    assert b[i].StrictlyLeftNotContiguous(b[j]);
    g := Separator(b[i].upper, b[j].lower);
    GapNotCovered(b, i, j, g);
  }

  lemma GapNotCovered(b: seq<Interval>, i: nat, j: nat, g: int)
    requires Joined(b) && j == i + 1 && j < |b|
    requires forall u :: b[i].Contains(u) ==> u < g
    requires forall u :: b[j].Contains(u) ==> g < u
    ensures !InAny(b, g)
  {
    JoinedIsSeparated(b);
    InAnyMeaning(b, g);
    forall m | 0 <= m < |b| ensures !b[m].Contains(g) {
      if b[m].Contains(g) && m < i {
        SeparatedValuesOrdered(b, m, i, g, SomeValue(b[i]));
      } else if b[m].Contains(g) && m > j {
        SeparatedValuesOrdered(b, j, m, SomeValue(b[j]), g);
      }
    }
  }

  /** The first intervals of two joined sequences covering the same values hold the same values. */
  lemma JoinedFirstIncluded(a: seq<Interval>, b: seq<Interval>, v: int)
    requires Joined(a) && Joined(b) && a != [] && b != []
    requires forall x :: InAny(a, x) <==> InAny(b, x)
    requires a[0].Contains(v)
    ensures b[0].Contains(v)
  {
    JoinedIsSeparated(a);
    JoinedIsSeparated(b);
    InAnyMeaning(a, v);
    InAnyMeaning(b, v);
    var j :| 0 <= j < |b| && b[j].Contains(v);
    if j > 0 {
      var w := SomeValue(b[0]);
      SeparatedValuesOrdered(b, 0, j, w, v);
      assert w < v;
      FirstHolds(a, b, w, v);
      var g := GapBetweenJoined(b, j - 1, j);
      assert w < g < v by {
        if j > 1 {
          SeparatedValuesOrdered(b, 0, j - 1, w, SomeValue(b[j - 1]));
        }
      }
      ContainsBetween(a[0], w, g, v);
      InAnyMeaning(a, g);
      assert false;
    }
  }

  /** A value of the second sequence below one of the first interval of the first lies in that interval too. */
  lemma FirstHolds(a: seq<Interval>, b: seq<Interval>, w: int, v: int)
    requires Separated(a) && a != [] && AllNonEmpty(b) && b != []
    requires forall x :: InAny(a, x) <==> InAny(b, x)
    requires a[0].Contains(v) && b[0].Contains(w) && w < v
    ensures a[0].Contains(w)
  {
    InAnyMeaning(b, w);
    InAnyMeaning(a, w);
    var i :| 0 <= i < |a| && a[i].Contains(w);
    if i > 0 {
      SeparatedValuesOrdered(a, 0, i, v, w);
    }
  }

  /** An interval holds every value between two it holds. */
  lemma ContainsBetween(i: Interval, w: int, g: int, v: int)
    requires i.Contains(w) && i.Contains(v) && w <= g <= v
    ensures i.Contains(g)
  {
  }

  lemma CoversSomething(s: seq<Interval>)
    requires s != [] && AllNonEmpty(s)
    ensures exists v :: InAny(s, v)
  {
    assert InAny(s, SomeValue(s[0]));
  }

  /** What the intervals after the first of a joined sequence cover. */
  lemma JoinedTailCovers(a: seq<Interval>, v: int)
    requires Joined(a) && a != []
    ensures InAny(a[1..], v) <==> InAny(a, v) && !a[0].Contains(v)
  {
    JoinedIsSeparated(a);
    InAnyMeaning(a[1..], v);
    if InAny(a[1..], v) && a[0].Contains(v) {
      var k :| 0 <= k < |a| - 1 && a[1..][k].Contains(v);
      SeparatedValuesOrdered(a, 0, k + 1, v, v);
    }
  }

  /** Two joined sequences covering the same values are `==`, interval by interval. */
  lemma {:induction false} JoinedUnique(a: seq<Interval>, b: seq<Interval>)
    requires Joined(a) && Joined(b)
    requires forall v :: InAny(a, v) <==> InAny(b, v)
    ensures SameIntervals(a, b)
    decreases |a|
  {
    if a == [] && b != [] {
      CoversSomething(b);
      assert false;
    } else if a != [] && b == [] {
      CoversSomething(a);
      assert false;
    } else if a != [] {
      forall v ensures a[0].Contains(v) <==> b[0].Contains(v) {
        if a[0].Contains(v) { JoinedFirstIncluded(a, b, v); }
        if b[0].Contains(v) { JoinedFirstIncluded(b, a, v); }
      }
      EquivalentIsSameValues(a[0], b[0]);
      forall v ensures InAny(a[1..], v) <==> InAny(b[1..], v) {
        JoinedTailCovers(a, v);
        JoinedTailCovers(b, v);
      }
      assert Joined(a[1..]) && Joined(b[1..]);
      JoinedUnique(a[1..], b[1..]);
    }
  }

  /** The two sequences cover the same values. */
  ghost predicate SameValues(a: seq<Interval>, b: seq<Interval>) {
    forall v :: InAny(a, v) <==> InAny(b, v)
  }

  /** Between joined sequences, `==` is having the same values. */
  lemma JoinedSameIffSameValues(a: seq<Interval>, b: seq<Interval>)
    ensures Joined(a) && Joined(b) ==> (SameIntervals(a, b) <==> SameValues(a, b))
  {
    if SameIntervals(a, b) {
      forall v ensures InAny(a, v) <==> InAny(b, v) {
        SameIntervalsCover(a, b, v);
      }
    } else if Joined(a) && Joined(b) && SameValues(a, b) {
      JoinedUnique(a, b);
    }
  }
}
