/**
 * The joining policy: intervals are joined when they overlap or touch.
 * `do_merge` reads sorted intervals and keeps one pending interval, which
 * absorbs each next one while their union is an interval and is pushed
 * otherwise.  `merge` appends to the vector when the new intervals all lie
 * beyond its last one, and rebuilds it through `LeftMostIter` otherwise.
 */
module Joining {
  import opened Wrappers
  import opened Bounds
  import opened Intervals
  import opened IntervalProperties
  import opened IntervalSeqs
  import LMI = LeftMostIter

  /** What `do_merge` pushes, given the pending interval and what is left to read. */
  function JoinAll(acc: Interval, rest: seq<Interval>): (r: seq<Interval>)
    ensures r != []
    decreases |rest|
  {
    if rest == [] then [acc]
    else match Union(acc, rest[0])
      case None => [acc] + JoinAll(rest[0], rest[1..])
      case Some(u) => JoinAll(u, rest[1..])
  }

  /** What `do_merge` pushes for the whole input: nothing for an empty one. */
  function Join(s: seq<Interval>): seq<Interval> {
    if s == [] then [] else JoinAll(s[0], s[1..])
  }

  /** The vector after `merge(vec, elements)`. */
  function AfterMerge(vec: seq<Interval>, elements: seq<Interval>): seq<Interval> {
    if elements == [] then vec
    else if vec == [] || vec[|vec| - 1].StrictlyLeftNotContiguous(elements[0]) then vec + Join(elements)
    else Join(LMI.Merged(vec, elements, AsWrittenLe))
  }

  /** `do_merge`: appends the joined input to the vector. */
  method DoMerge(vec: seq<Interval>, iter: seq<Interval>) returns (r: seq<Interval>)
    ensures r == vec + Join(iter)
  {
    r := vec;
    var toInsert: Option<Interval> := None;
    for k := 0 to |iter|
      invariant toInsert.None? ==> k == 0 && r == vec
      invariant toInsert.Some? ==> r + JoinAll(toInsert.value, iter[k..]) == vec + Join(iter)
    {
      var e := iter[k];
      assert iter[k..] == [e] + iter[k + 1..];
      match toInsert {
        case None =>
          toInsert := Some(e);
        case Some(ins) =>
          match Union(ins, e) {
            case None =>
              r := r + [ins];
              toInsert := Some(e);
            case Some(u) =>
              toInsert := Some(u);
          }
      }
    }
    if toInsert.Some? {
      r := r + [toInsert.value];
    }
  }

  /**
   * `merge`: the vector and the new intervals joined.  For a joined vector
   * and sorted, non-empty new intervals the result is joined again and
   * covers exactly the values of both.
   */
  method Merge(vec: seq<Interval>, elements: seq<Interval>) returns (r: seq<Interval>)
    ensures r == AfterMerge(vec, elements)
    ensures elements == [] ==> r == vec
    ensures Joined(vec) && AllNonEmpty(elements) && SortedIntervals(elements) ==>
      Joined(r) && forall v :: InAny(r, v) <==> InAny(vec, v) || InAny(elements, v)
  {
    if elements == [] {
      r := vec;
    } else if vec == [] || vec[|vec| - 1].StrictlyLeftNotContiguous(elements[0]) {
      r := DoMerge(vec, elements);
    } else {
      var it := new LMI.LeftMostIter(vec, elements, AsWrittenLe);
      var all := it.Drain();
      r := DoMerge([], all);
      assert r == AfterMerge(vec, elements);
    }
    if Joined(vec) && AllNonEmpty(elements) && SortedIntervals(elements) {
      AfterMergeFacts(vec, elements);
    }
  }

  // What the joined sequence covers, and why it is joined.

  lemma {:induction false} JoinAllCovers(acc: Interval, rest: seq<Interval>, v: int)
    ensures InAny(JoinAll(acc, rest), v) <==> acc.Contains(v) || InAny(rest, v)
    decreases |rest|
  {
    if rest != [] {
      assert InAny(rest, v) <==> rest[0].Contains(v) || InAny(rest[1..], v);
      match Union(acc, rest[0])
      case None =>
        JoinAllCovers(rest[0], rest[1..], v);
        assert ([acc] + JoinAll(rest[0], rest[1..]))[1..] == JoinAll(rest[0], rest[1..]);
      case Some(u) =>
        UnionSomeMeaning(acc, rest[0]);
        JoinAllCovers(u, rest[1..], v);
    }
  }

  /** Joining loses and adds no value. */
  lemma JoinCovers(s: seq<Interval>, v: int)
    ensures InAny(Join(s), v) <==> InAny(s, v)
  {
    if s != [] {
      JoinAllCovers(s[0], s[1..], v);
    }
  }

  /** A pending interval is strictly left of, and apart from, a non-empty one starting below it. */
  lemma ApartWhenNotUnited(acc: Interval, e: Interval)
    requires !acc.IsEmpty() && !e.IsEmpty() && Le(acc.lower, e.lower)
    requires Union(acc, e).None?
    ensures acc.StrictlyLeftNotContiguous(e)
  {
  }

  /** The hull of a non-empty interval with one starting no lower is non-empty and starts with it. */
  lemma HullStartsLow(acc: Interval, e: Interval)
    requires !acc.IsEmpty() && !e.IsEmpty() && Le(acc.lower, e.lower)
    ensures !ConvexHull(acc, e).IsEmpty() && Eq(ConvexHull(acc, e).lower, acc.lower)
  {
  }

  /** Being strictly left of and apart from a non-empty interval depends only on its lower bound. */
  lemma ApartByLower(p: Interval, x: Interval, y: Interval)
    requires !x.IsEmpty() && !y.IsEmpty() && Eq(x.lower, y.lower)
    requires p.StrictlyLeftNotContiguous(x)
    ensures p.StrictlyLeftNotContiguous(y)
  {
  }

  /**
   * Intervals read in order of their lower bounds come out joined, and the
   * first one pushed starts where the pending interval does.
   */
  lemma {:induction false} JoinAllJoined(acc: Interval, rest: seq<Interval>)
    requires !acc.IsEmpty() && AllNonEmpty(rest) && LowersSorted([acc] + rest)
    ensures Joined(JoinAll(acc, rest))
    ensures Eq(JoinAll(acc, rest)[0].lower, acc.lower)
    decreases |rest|
  {
    if rest != [] {
      var e, tail := rest[0], rest[1..];
      LowersSortedHead(acc, rest);
      match Union(acc, e)
      case None =>
        ApartWhenNotUnited(acc, e);
        LowersSortedTail([acc] + rest);
        assert ([acc] + rest)[1..] == [e] + tail;
        JoinAllJoined(e, tail);
        var j := JoinAll(e, tail);
        ApartByLower(acc, e, j[0]);
        JoinedConcat([acc], j);
      case Some(u) =>
        HullStartsLow(acc, e);
        LowersSortedNewHead(acc, u, rest);
        JoinAllJoined(u, tail);
    }
  }

  lemma JoinJoined(s: seq<Interval>)
    requires AllNonEmpty(s) && LowersSorted(s)
    ensures Joined(Join(s))
    ensures s != [] ==> Eq(Join(s)[0].lower, s[0].lower)
  {
    if s != [] {
      assert [s[0]] + s[1..] == s;
      JoinAllJoined(s[0], s[1..]);
    }
  }

  /** The sequence `LeftMostIter` yields when `merge` rebuilds the vector. */
  lemma RebuildFacts(vec: seq<Interval>, elements: seq<Interval>)
    requires Separated(vec) && AllNonEmpty(elements) && SortedIntervals(elements)
    ensures AllNonEmpty(LMI.Merged(vec, elements, AsWrittenLe))
    ensures LowersSorted(LMI.Merged(vec, elements, AsWrittenLe))
    ensures forall v :: InAny(LMI.Merged(vec, elements, AsWrittenLe), v) <==> InAny(vec, v) || InAny(elements, v)
  {
    var m := LMI.Merged(vec, elements, AsWrittenLe);
    LMI.MergedIsPermutation(vec, elements, AsWrittenLe);
    assert multiset(m) == multiset(vec + elements);
    forall k | 0 <= k < |m| ensures !m[k].IsEmpty() {
      assert m[k] in multiset(vec + elements);
      assert m[k] in vec + elements;
    }
    forall v ensures InAny(m, v) <==> InAny(vec, v) || InAny(elements, v) {
      InAnyPermutation(m, vec + elements, v);
      InAnyConcat(vec, elements, v);
    }
    SeparatedIsSorted(vec);
    SortedAsWritten(vec);
    SortedAsWritten(elements);
    forall x, y | x in vec && y in elements ensures AsWrittenLe(x, y) || AsWrittenLe(y, x) {
      IntervalLeTotal(x, y);
      AsWrittenAgrees(x, y);
      AsWrittenAgrees(y, x);
    }
    LMI.MergedSorted(vec, elements, AsWrittenLe);
    forall k | 0 < k < |m| ensures IntervalLe(m[k - 1], m[k]) {
      AsWrittenAgrees(m[k - 1], m[k]);
    }
    SortedLowers(m);
  }

  /**
   * `merge` keeps the vector joined and covers exactly the old and the new
   * values; on the fast path the old vector is kept as a prefix.
   */
  lemma AfterMergeFacts(vec: seq<Interval>, elements: seq<Interval>)
    requires Joined(vec) && AllNonEmpty(elements) && SortedIntervals(elements)
    ensures Joined(AfterMerge(vec, elements))
    ensures forall v :: InAny(AfterMerge(vec, elements), v) <==> InAny(vec, v) || InAny(elements, v)
    ensures elements == [] || vec == [] || vec[|vec| - 1].StrictlyLeftNotContiguous(elements[0]) ==>
      AfterMerge(vec, elements)[..|vec|] == vec
  {
    var r := AfterMerge(vec, elements);
    SortedLowers(elements);
    if elements == [] {
    } else if vec == [] || vec[|vec| - 1].StrictlyLeftNotContiguous(elements[0]) {
      JoinJoined(elements);
      var j := Join(elements);
      if vec != [] {
        ApartByLower(vec[|vec| - 1], elements[0], j[0]);
      }
      JoinedConcat(vec, j);
      forall v ensures InAny(r, v) <==> InAny(vec, v) || InAny(elements, v) {
        InAnyConcat(vec, j, v);
        JoinCovers(elements, v);
      }
    } else {
      JoinedIsSeparated(vec);
      RebuildFacts(vec, elements);
      var m := LMI.Merged(vec, elements, AsWrittenLe);
      JoinJoined(m);
      forall v ensures InAny(r, v) <==> InAny(vec, v) || InAny(elements, v) {
        JoinCovers(m, v);
      }
    }
  }

  /** The joining example: `[1,3) + [2,4) + [4,5)` is `[1,5)`. */
  lemma JoinExample()
    ensures Join([ClosedOpen(1, 3), ClosedOpen(2, 4), ClosedOpen(4, 5)]) == [ClosedOpen(1, 5)]
  {
  }
}
