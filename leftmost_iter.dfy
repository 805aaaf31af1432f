/**
 * `LeftMostIter`: a stable merge of two sequences that yields, at each
 * step, the smaller head, preferring the second sequence on a tie.  The two
 * peekable input iterators are sequences with a cursor each; `le` is the
 * element type's `<=`, which need not be total.
 */
module LeftMostIter {
  import opened Wrappers

  /** Everything the merge still has to yield, given what is left of each input. */
  function Merged<T>(a: seq<T>, b: seq<T>, le: (T, T) -> bool): seq<T>
    decreases |a| + |b|
  {
    if a == [] then b
    else if b == [] then a
    else if le(b[0], a[0]) then [b[0]] + Merged(a, b[1..], le)
    else [a[0]] + Merged(a[1..], b, le)
  }

  /** Which input each step of the merge takes from: `true` for the second one. */
  function Picks<T>(a: seq<T>, b: seq<T>, le: (T, T) -> bool): seq<bool>
    decreases |a| + |b|
  {
    if a == [] then seq(|b|, _ => true)
    else if b == [] then seq(|a|, _ => false)
    else if le(b[0], a[0]) then [true] + Picks(a, b[1..], le)
    else [false] + Picks(a[1..], b, le)
  }

  /** The sequence that takes the next element of `b` where `p` says `true`, of `a` otherwise. */
  function Interleave<T>(a: seq<T>, b: seq<T>, p: seq<bool>): seq<T>
    decreases p
  {
    if p == [] then []
    else if p[0] && b != [] then [b[0]] + Interleave(a, b[1..], p[1..])
    else if !p[0] && a != [] then [a[0]] + Interleave(a[1..], b, p[1..])
    else []
  }

  function Count(p: seq<bool>, x: bool): nat {
    if p == [] then 0 else (if p[0] == x then 1 else 0) + Count(p[1..], x)
  }

  predicate Sorted<T>(s: seq<T>, le: (T, T) -> bool) {
    forall k :: 0 < k < |s| ==> le(s[k - 1], s[k])
  }

  /** No element is lost or duplicated. */
  lemma {:induction false} MergedIsPermutation<T>(a: seq<T>, b: seq<T>, le: (T, T) -> bool)
    ensures |Merged(a, b, le)| == |a| + |b|
    ensures multiset(Merged(a, b, le)) == multiset(a) + multiset(b)
    decreases |a| + |b|
  {
    if a != [] && b != [] {
      if le(b[0], a[0]) {
        MergedIsPermutation(a, b[1..], le);
        assert b == [b[0]] + b[1..];
      } else {
        MergedIsPermutation(a[1..], b, le);
        assert a == [a[0]] + a[1..];
      }
    }
  }

  lemma {:induction false} InterleaveRest<T>(a: seq<T>, n: nat, x: bool)
    requires n == |a|
    ensures Interleave(if x then [] else a, if x then a else [], seq(n, _ => x)) == a
    ensures Count(seq(n, _ => x), x) == n && Count(seq(n, _ => x), !x) == 0
    decreases n
  {
    if n > 0 {
      assert seq(n, _ => x)[1..] == seq(n - 1, _ => x);
      InterleaveRest(a[1..], n - 1, x);
    }
  }

  /**
   * The merge keeps the relative order of each input: it is the
   * interleaving that takes the elements of `a` and of `b` front to back,
   * `|b|` times from `b` and `|a|` times from `a`.
   */
  lemma {:induction false} MergedIsInterleaving<T>(a: seq<T>, b: seq<T>, le: (T, T) -> bool)
    ensures Merged(a, b, le) == Interleave(a, b, Picks(a, b, le))
    ensures Count(Picks(a, b, le), true) == |b| && Count(Picks(a, b, le), false) == |a|
    decreases |a| + |b|
  {
    if a == [] {
      InterleaveRest(b, |b|, true);
    } else if b == [] {
      InterleaveRest(a, |a|, false);
    } else if le(b[0], a[0]) {
      MergedIsInterleaving(a, b[1..], le);
    } else {
      MergedIsInterleaving(a[1..], b, le);
    }
  }

  /** The first element yielded is the head of one of the inputs. */
  lemma MergedHead<T>(a: seq<T>, b: seq<T>, le: (T, T) -> bool)
    requires a != [] || b != []
    ensures Merged(a, b, le) != []
    ensures Merged(a, b, le)[0] == (if a == [] || (b != [] && le(b[0], a[0])) then b[0] else a[0])
  {
  }

  /**
   * Merging two sorted inputs gives a sorted output, provided every element
   * of one input is comparable with every element of the other.
   */
  lemma {:induction false} MergedSorted<T>(a: seq<T>, b: seq<T>, le: (T, T) -> bool)
    requires Sorted(a, le) && Sorted(b, le)
    requires forall x, y :: x in a && y in b ==> le(x, y) || le(y, x)
    ensures Sorted(Merged(a, b, le), le)
    decreases |a| + |b|
  {
    if a != [] && b != [] {
      if le(b[0], a[0]) {
        var b' := b[1..];
        assert forall y :: y in b' ==> y in b;
        MergedSorted(a, b', le);
        var m := Merged(a, b', le);
        MergedHead(a, b', le);
        assert le(b[0], m[0]) by {
          if b' != [] { assert b'[0] == b[1]; }
        }
        assert Merged(a, b, le) == [b[0]] + m;
      } else {
        var a' := a[1..];
        assert forall x :: x in a' ==> x in a;
        MergedSorted(a', b, le);
        var m := Merged(a', b, le);
        MergedHead(a', b, le);
        assert a[0] in a && b[0] in b;
        assert le(a[0], m[0]) by {
          if a' != [] && (b == [] || !le(b[0], a'[0])) { assert a'[0] == a[1]; }
        }
        assert Merged(a, b, le) == [a[0]] + m;
      }
    }
  }

  /** The example in the type's documentation. */
  lemma MergedExample()
    ensures Merged([1, 3, 4, 8], [2, 3, 7], (x: int, y: int) => x <= y) == [1, 2, 3, 3, 4, 7, 8]
  {
  }

  class LeftMostIter<T> {
    const first: seq<T>
    const second: seq<T>
    const le: (T, T) -> bool
    /** How many elements have been taken from each input. */
    var i: nat
    var j: nat

    ghost predicate Valid()
      reads this
    {
      i <= |first| && j <= |second|
    }

    /** What the iterator has still to yield. */
    ghost function Rest(): seq<T>
      reads this
      requires Valid()
    {
      Merged(first[i..], second[j..], le)
    }

    /** `LeftMostIter::new`. */
    constructor(iter1: seq<T>, iter2: seq<T>, le: (T, T) -> bool)
      ensures Valid() && first == iter1 && second == iter2 && this.le == le
      ensures Rest() == Merged(iter1, iter2, le)
    {
      first, second, this.le := iter1, iter2, le;
      i, j := 0, 0;
    }

    /** `next`: the head of the remaining merge, and None once both inputs are exhausted. */
    method Next() returns (r: Option<T>)
      requires Valid()
      modifies this
      ensures Valid()
      ensures r.None? <==> old(i == |first| && j == |second|)
      ensures r.None? ==> i == old(i) && j == old(j)
      ensures r.Some? ==> old(i) <= i && old(j) <= j && i + j == old(i) + old(j) + 1
      ensures old(Rest()) == (if r.None? then [] else [r.value] + Rest())
    {
      if i == |first| && j == |second| {
        r := None;
      } else if i == |first| {
        r := Some(second[j]);
        assert second[j..] == [second[j]] + second[j + 1..];
        j := j + 1;
      } else if j == |second| {
        r := Some(first[i]);
        assert first[i..] == [first[i]] + first[i + 1..];
        i := i + 1;
      } else if le(second[j], first[i]) {
        r := Some(second[j]);
        assert second[j..][1..] == second[j + 1..];
        j := j + 1;
      } else {
        r := Some(first[i]);
        assert first[i..][1..] == first[i + 1..];
        i := i + 1;
      }
    }

    /** Collecting the iterator: everything it yields, in order, until the first None. */
    method Drain() returns (out: seq<T>)
      requires Valid()
      modifies this
      ensures Valid() && i == |first| && j == |second|
      ensures out == old(Rest())
    {
      out := [];
      while true
        invariant Valid()
        invariant out + Rest() == old(Rest())
        decreases |first| - i + |second| - j
      {
        var r := Next();
        if r.None? {
          return;
        }
        out := out + [r.value];
      }
    }
  }
}
