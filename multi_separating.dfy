/**
 * The separating policy: intervals are joined when they overlap, but not
 * when they only touch.  `do_merge` pushes the pending interval when it is
 * strictly left of the next one, and replaces it by their convex hull
 * otherwise; `merge` has the same fast path and rebuild as the joining one.
 */
module Separating {
  import opened Wrappers
  import opened Bounds
  import opened Intervals
  import opened IntervalProperties
  import opened IntervalSeqs
  import LMI = LeftMostIter
  import Joining

  /** What `do_merge` pushes, given the pending interval and what is left to read. */
  function SepAll(acc: Interval, rest: seq<Interval>): (r: seq<Interval>)
    ensures r != []
    decreases |rest|
  {
    if rest == [] then [acc]
    else if acc.StrictlyLeftOfInterval(rest[0]) then [acc] + SepAll(rest[0], rest[1..])
    else SepAll(ConvexHull(acc, rest[0]), rest[1..])
  }

  /** What `do_merge` pushes for the whole input: nothing for an empty one. */
  function Sep(s: seq<Interval>): seq<Interval> {
    if s == [] then [] else SepAll(s[0], s[1..])
  }

  /** The vector after `merge(vec, elements)`. */
  function AfterMerge(vec: seq<Interval>, elements: seq<Interval>): seq<Interval> {
    if elements == [] then vec
    else if vec == [] || vec[|vec| - 1].StrictlyLeftOfInterval(elements[0]) then vec + Sep(elements)
    else Sep(LMI.Merged(vec, elements, AsWrittenLe))
  }

  /** `do_merge`: appends the separated input to the vector. */
  method DoMerge(vec: seq<Interval>, iter: seq<Interval>) returns (r: seq<Interval>)
    ensures r == vec + Sep(iter)
  {
    r := vec;
    var toInsert: Option<Interval> := None;
    for k := 0 to |iter|
      invariant toInsert.None? ==> k == 0 && r == vec
      invariant toInsert.Some? ==> r + SepAll(toInsert.value, iter[k..]) == vec + Sep(iter)
    {
      var e := iter[k];
      assert iter[k..] == [e] + iter[k + 1..];
      match toInsert {
        case None =>
          toInsert := Some(e);
        case Some(ins) =>
          if ins.StrictlyLeftOfInterval(e) {
            r := r + [ins];
            toInsert := Some(e);
          } else {
            toInsert := Some(ConvexHull(ins, e));
          }
      }
    }
    if toInsert.Some? {
      r := r + [toInsert.value];
    }
  }

  /**
   * `merge`: the vector and the new intervals merged.  For a separated
   * vector and sorted, non-empty new intervals the result is separated
   * again and covers exactly the values of both.
   */
  method Merge(vec: seq<Interval>, elements: seq<Interval>) returns (r: seq<Interval>)
    ensures r == AfterMerge(vec, elements)
    ensures elements == [] ==> r == vec
    ensures Separated(vec) && AllNonEmpty(elements) && SortedIntervals(elements) ==>
      Separated(r) && forall v :: InAny(r, v) <==> InAny(vec, v) || InAny(elements, v)
  {
    if elements == [] {
      r := vec;
    } else if vec == [] || vec[|vec| - 1].StrictlyLeftOfInterval(elements[0]) {
      r := DoMerge(vec, elements);
    } else {
      var it := new LMI.LeftMostIter(vec, elements, AsWrittenLe);
      var all := it.Drain();
      r := DoMerge([], all);
      assert r == AfterMerge(vec, elements);
    }
    if Separated(vec) && AllNonEmpty(elements) && SortedIntervals(elements) {
      AfterMergeFacts(vec, elements);
    }
  }

  /** Two non-empty intervals in order of lower bound that are not strictly apart overlap. */
  lemma OverlapWhenNotLeft(acc: Interval, e: Interval)
    requires !acc.IsEmpty() && !e.IsEmpty() && Le(acc.lower, e.lower)
    requires !acc.StrictlyLeftOfInterval(e)
    ensures acc.Intersects(e)
    ensures !ConvexHull(acc, e).IsEmpty() && Eq(ConvexHull(acc, e).lower, acc.lower)
    ensures forall v :: ConvexHull(acc, e).Contains(v) <==> acc.Contains(v) || e.Contains(v)
  {
    ContiguousMeaning(acc, e);
  }

  /** Being strictly left of a non-empty interval depends only on its lower bound. */
  lemma LeftByLower(p: Interval, x: Interval, y: Interval)
    requires !x.IsEmpty() && !y.IsEmpty() && Eq(x.lower, y.lower)
    requires p.StrictlyLeftOfInterval(x)
    ensures p.StrictlyLeftOfInterval(y)
  {
  }

  /**
   * Intervals read in order of their lower bounds come out separated,
   * covering the same values, and the first one pushed starts where the
   * pending interval does.
   */
  lemma {:induction false} SepAllFacts(acc: Interval, rest: seq<Interval>)
    requires !acc.IsEmpty() && AllNonEmpty(rest) && LowersSorted([acc] + rest)
    ensures Separated(SepAll(acc, rest))
    ensures Eq(SepAll(acc, rest)[0].lower, acc.lower)
    ensures forall v :: InAny(SepAll(acc, rest), v) <==> acc.Contains(v) || InAny(rest, v)
    decreases |rest|
  {
    if rest != [] {
      var e, tail := rest[0], rest[1..];
      LowersSortedHead(acc, rest);
      assert forall v :: InAny(rest, v) <==> e.Contains(v) || InAny(tail, v);
      if acc.StrictlyLeftOfInterval(e) {
        LowersSortedTail([acc] + rest);
        assert ([acc] + rest)[1..] == [e] + tail;
        SepAllFacts(e, tail);
        var j := SepAll(e, tail);
        LeftByLower(acc, e, j[0]);
        SeparatedConcat([acc], j);
        assert ([acc] + j)[1..] == j;
      } else {
        var u := ConvexHull(acc, e);
        OverlapWhenNotLeft(acc, e);
        LowersSortedNewHead(acc, u, rest);
        SepAllFacts(u, tail);
      }
    }
  }

  lemma SepFacts(s: seq<Interval>)
    requires AllNonEmpty(s) && LowersSorted(s)
    ensures Separated(Sep(s))
    ensures s != [] ==> Eq(Sep(s)[0].lower, s[0].lower)
    ensures forall v :: InAny(Sep(s), v) <==> InAny(s, v)
  {
    if s != [] {
      assert [s[0]] + s[1..] == s;
      SepAllFacts(s[0], s[1..]);
    }
  }

  /**
   * `merge` keeps the vector separated and covers exactly the old and the
   * new values; on the fast path the old vector is kept as a prefix.
   */
  lemma AfterMergeFacts(vec: seq<Interval>, elements: seq<Interval>)
    requires Separated(vec) && AllNonEmpty(elements) && SortedIntervals(elements)
    ensures Separated(AfterMerge(vec, elements))
    ensures forall v :: InAny(AfterMerge(vec, elements), v) <==> InAny(vec, v) || InAny(elements, v)
    ensures elements == [] || vec == [] || vec[|vec| - 1].StrictlyLeftOfInterval(elements[0]) ==>
      AfterMerge(vec, elements)[..|vec|] == vec
  {
    var r := AfterMerge(vec, elements);
    SortedLowers(elements);
    if elements == [] {
    } else if vec == [] || vec[|vec| - 1].StrictlyLeftOfInterval(elements[0]) {
      SepFacts(elements);
      var j := Sep(elements);
      if vec != [] {
        LeftByLower(vec[|vec| - 1], elements[0], j[0]);
      }
      SeparatedConcat(vec, j);
      forall v ensures InAny(r, v) <==> InAny(vec, v) || InAny(elements, v) {
        InAnyConcat(vec, j, v);
      }
    } else {
      Joining.RebuildFacts(vec, elements);
      var m := LMI.Merged(vec, elements, AsWrittenLe);
      SepFacts(m);
    }
  }

  /** The separating example: `[1,3) + [2,4) + [4,5)` is `[1,4) [4,5)`. */
  lemma SepExample()
    ensures Sep([ClosedOpen(1, 3), ClosedOpen(2, 4), ClosedOpen(4, 5)]) == [ClosedOpen(1, 4), ClosedOpen(4, 5)]
  {
  }
}
