/**
 * `MultiInterval`: a sorted vector of non-empty intervals that neither
 * overlap nor touch.  `extend` drops the empty intervals it is given, sorts
 * the rest, and merges them in with the joining rule: at the end of the
 * vector when they all lie beyond its last interval, through a rebuild of
 * the whole vector otherwise.
 */
module Multi {
  import opened Wrappers
  import opened Intervals
  import opened IntervalProperties
  import opened IntervalSeqs
  import LMI = LeftMostIter
  import Joining

  /** The intervals after `extend(iter)`. */
  function AfterExtend(items: seq<Interval>, iter: seq<Interval>): seq<Interval> {
    Joining.AfterMerge(items, Sort(NonEmptyOnly(iter)))
  }

  class MultiInterval {
    var items: seq<Interval>

    /** "A sorted list of non-overlapping intervals", none of them empty. */
    ghost predicate Valid()
      reads this
    {
      Joined(items)
    }

    /** `MultiInterval::default()`. */
    constructor()
      ensures items == [] && Valid()
    {
      items := [];
    }

    /** `len`: the number of intervals. */
    function Len(): nat
      reads this
    {
      |items|
    }

    /** `is_empty`: no value is in the set. */
    function IsEmpty(): (r: bool)
      reads this
      ensures r <==> Len() == 0
      ensures Valid() ==> (r <==> forall v :: !InAny(items, v))
    {
      if items != [] && Joined(items) then CoversSomething(items); false
      else items == []
    }

    /** `extend_internal`: appends the joined intervals, which must be at least one. */
    method ExtendInternal(iter: seq<Interval>)
      requires iter != []
      modifies this
      ensures items == old(items) + Joining.Join(iter)
    {
      var toInsert: Option<Interval> := None;
      ghost var start := items;
      for k := 0 to |iter|
        invariant toInsert.None? ==> k == 0 && items == start
        invariant toInsert.Some? ==> items + Joining.JoinAll(toInsert.value, iter[k..]) == start + Joining.Join(iter)
      {
        var e := iter[k];
        assert iter[k..] == [e] + iter[k + 1..];
        match toInsert {
          case None =>
            toInsert := Some(e);
          case Some(ins) =>
            match Union(ins, e) {
              case None =>
                items := items + [ins];
                toInsert := Some(e);
              case Some(u) =>
                toInsert := Some(u);
            }
        }
      }
      items := items + [toInsert.value];
    }

    /**
     * `extend`: afterwards the set is still sorted, non-overlapping and
     * non-touching, and holds exactly its old values and those of `iter`.
     */
    method Extend(iter: seq<Interval>)
      modifies this
      ensures items == AfterExtend(old(items), iter)
      ensures old(Valid()) ==> Valid()
      ensures old(Valid()) ==> forall v :: InAny(items, v) <==> old(InAny(items, v)) || InAny(iter, v)
    {
      ghost var start := items;
      var elements := NonEmptyOnly(iter);
      NonEmptyOnlyFacts(iter);
      if elements == [] {
        assert Sort(elements) == [];
      } else {
        SortFacts(elements);
        elements := Sort(elements);
        if items == [] || items[|items| - 1].StrictlyLeftNotContiguous(elements[0]) {
          ExtendInternal(elements);
        } else {
          var previous := items;
          items := [];
          var it := new LMI.LeftMostIter(previous, elements, AsWrittenLe);
          var all := it.Drain();
          LMI.MergedIsPermutation(previous, elements, AsWrittenLe);
          ExtendInternal(all);
        }
      }
      if Joined(start) {
        AfterExtendFacts(start, iter);
      }
    }

    /** `add`: extends the set by one interval. */
    method Add(intv: Interval)
      modifies this
      ensures items == AfterExtend(old(items), [intv])
      ensures old(Valid()) ==> Valid()
      ensures old(Valid()) ==> forall v :: InAny(items, v) <==> old(InAny(items, v)) || intv.Contains(v)
    {
      Extend([intv]);
      forall v ensures InAny([intv], v) <==> intv.Contains(v) {
      }
    }

    /**
     * `check_invariants`: that no interval is empty and each is strictly left
     * of the next, reported as a result rather than by a failed assertion.
     */
    method CheckInvariants() returns (ok: bool)
      ensures ok <==> Separated(items)
      ensures Valid() ==> ok
    {
      if items == [] {
        return true;
      }
      if items[0].IsEmpty() {
        return false;
      }
      for k := 1 to |items|
        invariant forall m :: 0 <= m < k ==> !items[m].IsEmpty()
        invariant forall m :: 0 < m < k ==> items[m - 1].StrictlyLeftOfInterval(items[m])
      {
        if items[k].IsEmpty() || !items[k - 1].StrictlyLeftOfInterval(items[k]) {
          return false;
        }
      }
      if Valid() {
        JoinedIsSeparated(items);
      }
      return true;
    }

    /**
     * `==`: same length and the intervals pairwise `==`; between two valid
     * sets, that is holding the same values.
     */
    function Eq(other: MultiInterval): (r: bool)
      reads this, other
      ensures r <==> SameIntervals(items, other.items)
      ensures Valid() && other.Valid() ==> (r <==> SameValues(items, other.items))
    {
      JoinedSameIffSameValues(items, other.items);
      Len() == other.Len() && forall k :: 0 <= k < Len() ==> items[k].Equivalent(other.items[k])
    }
  }

  /** What `extend` keeps, for any vector that was valid before. */
  lemma AfterExtendFacts(items: seq<Interval>, iter: seq<Interval>)
    requires Joined(items)
    ensures Joined(AfterExtend(items, iter))
    ensures forall v :: InAny(AfterExtend(items, iter), v) <==> InAny(items, v) || InAny(iter, v)
  {
    var f := NonEmptyOnly(iter);
    NonEmptyOnlyFacts(iter);
    var elements := Sort(f);
    SortFacts(f);
    forall k | 0 <= k < |elements| ensures !elements[k].IsEmpty() {
      assert elements[k] in multiset(f);
      assert elements[k] in f;
    }
    Joining.AfterMergeFacts(items, elements);
    forall v ensures InAny(elements, v) <==> InAny(iter, v) {
      InAnyPermutation(elements, f, v);
    }
  }

  /** Empty intervals are dropped: extending with only those changes nothing. */
  lemma ExtendWithEmpties(items: seq<Interval>, iter: seq<Interval>)
    requires forall k :: 0 <= k < |iter| ==> iter[k].IsEmpty()
    ensures AfterExtend(items, iter) == items
  {
    NonEmptyOnlyFacts(iter);
  }

  /** Adding an interval already inside one of the set's intervals leaves it `==` to what it was. */
  lemma AddContainedUnchanged(items: seq<Interval>, k: nat, x: Interval)
    requires Joined(items) && k < |items| && items[k].ContainsInterval(x)
    ensures SameIntervals(AfterExtend(items, [x]), items)
  {
    AfterExtendFacts(items, [x]);
    ContainsIntervalIsSubset(items[k], x);
    forall v ensures InAny(AfterExtend(items, [x]), v) <==> InAny(items, v) {
      InAnyMeaning(items, v);
      assert InAny([x], v) <==> x.Contains(v);
    }
    JoinedUnique(AfterExtend(items, [x]), items);
  }

  /** A sorted input without empty intervals reaches the merge as it is. */
  lemma ExtendKeepsSortedInput(items: seq<Interval>, iter: seq<Interval>)
    requires AllNonEmpty(iter) && SortedIntervals(iter)
    ensures AfterExtend(items, iter) == Joining.AfterMerge(items, iter)
  {
    NonEmptyOnlyKeeps(iter);
    SortKeepsSorted(iter);
  }

  /** The joining example: overlapping and touching intervals become one. */
  lemma JoiningExample()
    ensures AfterExtend([], [ClosedOpen(1, 3), ClosedOpen(2, 4), ClosedOpen(4, 5)]) == [ClosedOpen(1, 5)]
  {
    var a, b, c := ClosedOpen(1, 3), ClosedOpen(2, 4), ClosedOpen(4, 5);
    var s := [a, b, c];
    assert AllNonEmpty(s);
    assert SortedIntervals(s) by {
      assert IntervalLe(a, b) && IntervalLe(b, c);
    }
    ExtendKeepsSortedInput([], s);
    assert [] + Joining.Join(s) == Joining.Join(s);
    Joining.JoinExample();
  }

  /** The same intervals given in the opposite order. */
  lemma JoiningUnsortedExample()
    ensures AfterExtend([], [ClosedOpen(4, 5), ClosedOpen(2, 4), ClosedOpen(1, 3)]) == [ClosedOpen(1, 5)]
  {
    SortedBeforeMerge();
    JoiningExample();
  }

  /** Given in the opposite order, the joining example reaches the merge sorted. */
  lemma SortedBeforeMerge()
    ensures AfterExtend([], [ClosedOpen(4, 5), ClosedOpen(2, 4), ClosedOpen(1, 3)]) ==
            AfterExtend([], [ClosedOpen(1, 3), ClosedOpen(2, 4), ClosedOpen(4, 5)])
  {
    var a, b, c := ClosedOpen(1, 3), ClosedOpen(2, 4), ClosedOpen(4, 5);
    assert AllNonEmpty([c, b, a]);
    NonEmptyOnlyKeeps([c, b, a]);
    ReversedSortExample();
    assert AllNonEmpty([a, b, c]);
    NonEmptyOnlyKeeps([a, b, c]);
    assert SortedIntervals([a, b, c]) by {
      assert IntervalLe(a, b) && IntervalLe(b, c);
    }
    SortKeepsSorted([a, b, c]);
  }

  /** The sort puts the three intervals of the joining example back in order. */
  lemma ReversedSortExample()
    ensures Sort([ClosedOpen(4, 5), ClosedOpen(2, 4), ClosedOpen(1, 3)]) ==
            [ClosedOpen(1, 3), ClosedOpen(2, 4), ClosedOpen(4, 5)]
  {
    var a, b, c := ClosedOpen(1, 3), ClosedOpen(2, 4), ClosedOpen(4, 5);
    var s := [c, b, a];
    assert Sort([c]) == [c];
    assert s[..2] == [c, b] && s[..2][..1] == [c];
    assert Sort([c, b]) == [b, c] by {
      assert Insert(b, [c]) == [b, c];
    }
    assert Insert(a, [b, c]) == [a, b, c];
  }

  /** Adding to an empty set. */
  lemma AddFirstExample()
    ensures AfterExtend([], [ClosedOpen(1, 4)]) == [ClosedOpen(1, 4)]
  {
    ExtendKeepsSortedInput([], [ClosedOpen(1, 4)]);
  }

  /** Adding an interval already present changes nothing. */
  lemma AddSameExample()
    ensures AfterExtend([ClosedOpen(1, 4)], [ClosedOpen(1, 4)]) == [ClosedOpen(1, 4)]
  {
    var x := ClosedOpen(1, 4);
    ExtendKeepsSortedInput([x], [x]);
    assert LMI.Merged([x], [x], AsWrittenLe) == [x, x];
    assert Joining.JoinAll(x, [x]) == [x];
  }

  /** Adding an interval that starts at the same place extends it. */
  lemma AddLongerExample()
    ensures AfterExtend([ClosedOpen(1, 4)], [ClosedOpen(1, 6)]) == [ClosedOpen(1, 6)]
  {
    var x, y := ClosedOpen(1, 4), ClosedOpen(1, 6);
    ExtendKeepsSortedInput([x], [y]);
    assert LMI.Merged([x], [y], AsWrittenLe) == [x, y];
    assert Joining.JoinAll(x, [y]) == [y];
  }

  /** Adding a disjoint interval beyond the last one appends it. */
  lemma AddDisjointExample()
    ensures AfterExtend([ClosedOpen(1, 6)], [ClosedOpen(8, 10)]) == [ClosedOpen(1, 6), ClosedOpen(8, 10)]
  {
    ExtendKeepsSortedInput([ClosedOpen(1, 6)], [ClosedOpen(8, 10)]);
  }

  /** Adding a subset of the last interval changes nothing. */
  lemma AddSubsetExample()
    ensures AfterExtend([ClosedOpen(1, 6), ClosedOpen(8, 10)], [ClosedOpen(9, 10)]) ==
            [ClosedOpen(1, 6), ClosedOpen(8, 10)]
  {
    var x, y, z := ClosedOpen(1, 6), ClosedOpen(8, 10), ClosedOpen(9, 10);
    ExtendKeepsSortedInput([x, y], [z]);
    assert LMI.Merged([y], [z], AsWrittenLe) == [y, z];
    assert LMI.Merged([x, y], [z], AsWrittenLe) == [x, y, z];
    assert Joining.JoinAll(y, [z]) == [y];
    assert Joining.JoinAll(x, [y, z]) == [x] + Joining.JoinAll(y, [z]);
  }

  /** Adding `[4,8]` bridges `[1,6)` and `[8,10)` into `[1,10)`. */
  lemma AddBridgeExample()
    ensures AfterExtend([ClosedOpen(1, 6), ClosedOpen(8, 10)], [ClosedClosed(4, 8)]) == [ClosedOpen(1, 10)]
  {
    var x, y, z := ClosedOpen(1, 6), ClosedOpen(8, 10), ClosedClosed(4, 8);
    ExtendKeepsSortedInput([x, y], [z]);
    BridgeRebuild();
    BridgeJoin();
  }

  lemma BridgeJoin()
    ensures Joining.Join([ClosedOpen(1, 6), ClosedClosed(4, 8), ClosedOpen(8, 10)]) == [ClosedOpen(1, 10)]
  {
    var x, y, z := ClosedOpen(1, 6), ClosedOpen(8, 10), ClosedClosed(4, 8);
    assert Union(x, z) == Some(ClosedClosed(1, 8));
    assert Union(ClosedClosed(1, 8), y) == Some(ClosedOpen(1, 10));
    assert Joining.JoinAll(ClosedOpen(1, 10), []) == [ClosedOpen(1, 10)];
    assert [x, z, y][1..] == [z, y] && [z, y][1..] == [y];
  }

  /** `[4,8]` is not beyond `[8,10)`, so the set is rebuilt, `[4,8]` read second. */
  lemma BridgeRebuild()
    ensures Joining.AfterMerge([ClosedOpen(1, 6), ClosedOpen(8, 10)], [ClosedClosed(4, 8)]) ==
            Joining.Join([ClosedOpen(1, 6), ClosedClosed(4, 8), ClosedOpen(8, 10)])
  {
    var x, y, z := ClosedOpen(1, 6), ClosedOpen(8, 10), ClosedClosed(4, 8);
    assert !y.StrictlyLeftNotContiguous(z);
    assert !AsWrittenLe(z, x) && AsWrittenLe(z, y);
    assert [x, y][1..] == [y] && [z][1..] == [];
    assert LMI.Merged([y], [], AsWrittenLe) == [y];
    assert LMI.Merged([y], [z], AsWrittenLe) == [z, y];
    assert LMI.Merged([x, y], [z], AsWrittenLe) == [x] + LMI.Merged([y], [z], AsWrittenLe);
  }

  /** Two batches, each beyond what is already there, give four intervals. */
  lemma BatchesExample()
    ensures AfterExtend([ClosedOpen(1, 3), ClosedOpen(4, 5)], [ClosedOpen(6, 7), ClosedOpen(8, 9)]) ==
            [ClosedOpen(1, 3), ClosedOpen(4, 5), ClosedOpen(6, 7), ClosedOpen(8, 9)]
  {
    var x, y := ClosedOpen(1, 3), ClosedOpen(4, 5);
    var s := [ClosedOpen(6, 7), ClosedOpen(8, 9)];
    ExtendKeepsSortedInput([x, y], s);
    assert y.StrictlyLeftNotContiguous(s[0]);
    assert Joining.AfterMerge([x, y], s) == [x, y] + Joining.Join(s);
    assert Joining.Join(s) == s by {
      assert Union(s[0], s[1]).None?;
    }
    assert [x, y] + s == [x, y, ClosedOpen(6, 7), ClosedOpen(8, 9)];
  }

  /** The first batch of the two. */
  lemma FirstBatchExample()
    ensures AfterExtend([], [ClosedOpen(1, 3), ClosedOpen(4, 5)]) == [ClosedOpen(1, 3), ClosedOpen(4, 5)]
  {
    var s := [ClosedOpen(1, 3), ClosedOpen(4, 5)];
    ExtendKeepsSortedInput([], s);
    assert Joining.Join(s) == s;
  }
}
