/**
 * The serialisation tags of an interval: one variant per constructor shape
 * plus `Empty`.  Only the mapping between intervals and tags is modelled;
 * the serialisation framework that writes a tag as text is not.
 */
module Serde {
  import opened Bounds
  import I = Intervals

  datatype SerdeInterval =
    | ClosedClosed(lo: int, up: int)
    | ClosedOpen(lo: int, up: int)
    | ClosedUnbounded(lo: int)
    | DoublyUnbounded
    | Empty
    | OpenClosed(lo: int, up: int)
    | OpenOpen(lo: int, up: int)
    | OpenUnbounded(lo: int)
    | UnboundedClosed(up: int)
    | UnboundedOpen(up: int)

  /** `serialize`: an empty interval is written `Empty`, any other one by the shape of its bounds. */
  function Serialize(i: I.Interval): (t: SerdeInterval)
    ensures t.Empty? <==> i.IsEmpty()
  {
    if i.IsEmpty() then Empty
    else match (i.lower, i.upper)
      case (LeftOf(lo), LeftOf(up)) => ClosedOpen(lo, up)
      case (LeftOf(lo), RightOf(up)) => ClosedClosed(lo, up)
      case (LeftOf(lo), RightUnbounded) => ClosedUnbounded(lo)
      case (LeftUnbounded, RightUnbounded) => DoublyUnbounded
      case (LeftUnbounded, LeftOf(up)) => UnboundedOpen(up)
      case (LeftUnbounded, RightOf(up)) => UnboundedClosed(up)
      case (RightOf(lo), LeftOf(up)) => OpenOpen(lo, up)
      case (RightOf(lo), RightOf(up)) => OpenClosed(lo, up)
      case (RightOf(lo), RightUnbounded) => OpenUnbounded(lo)
      case (_, LeftUnbounded) => assert false; Empty
      case (RightUnbounded, _) => assert false; Empty
  }

  /** `deserialize`: every tag goes through the constructor of the same name. */
  function Deserialize(t: SerdeInterval): I.Interval {
    match t
    case Empty => I.Empty()
    case ClosedOpen(lo, up) => I.ClosedOpen(lo, up)
    case ClosedClosed(lo, up) => I.ClosedClosed(lo, up)
    case OpenClosed(lo, up) => I.OpenClosed(lo, up)
    case OpenOpen(lo, up) => I.OpenOpen(lo, up)
    case OpenUnbounded(lo) => I.OpenUnbounded(lo)
    case ClosedUnbounded(lo) => I.ClosedUnbounded(lo)
    case UnboundedOpen(up) => I.UnboundedOpen(up)
    case UnboundedClosed(up) => I.UnboundedClosed(up)
    case DoublyUnbounded => I.DoublyUnbounded()
  }

  /**
   * Writing a tag and reading it back gives an equivalent interval: the same
   * one when it is not empty, the canonical empty interval when it is.
   */
  lemma RoundTrip(i: I.Interval)
    ensures Deserialize(Serialize(i)).Equivalent(i)
    ensures !i.IsEmpty() ==> Deserialize(Serialize(i)) == i
    ensures i.IsEmpty() ==> Deserialize(Serialize(i)) == I.Empty()
  {
  }

  /**
   * Reading a tag and writing it back gives the same tag, unless the tag
   * describes no value at all (such as `ClosedOpen(2, 1)`), which is written `Empty`.
   */
  lemma TagRoundTrip(t: SerdeInterval)
    ensures Deserialize(t).IsEmpty() ==> Serialize(Deserialize(t)) == Empty
    ensures !Deserialize(t).IsEmpty() ==> Serialize(Deserialize(t)) == t
  {
  }

  /** The library's serialisation tests over integers. */
  lemma SerdeExamples()
    ensures Serialize(I.ClosedOpen(1, 2)) == ClosedOpen(1, 2)
    ensures Serialize(I.ClosedClosed(1, 2)) == ClosedClosed(1, 2)
    ensures Serialize(I.OpenOpen(1, 3)) == OpenOpen(1, 3)
    ensures Serialize(I.OpenClosed(1, 2)) == OpenClosed(1, 2)
    ensures Serialize(I.ClosedUnbounded(1)) == ClosedUnbounded(1)
    ensures Serialize(I.OpenUnbounded(1)) == OpenUnbounded(1)
    ensures Serialize(I.UnboundedClosed(1)) == UnboundedClosed(1)
    ensures Serialize(I.UnboundedOpen(1)) == UnboundedOpen(1)
    ensures Serialize(I.Empty()) == Empty
    ensures Serialize(I.DoublyUnbounded()) == DoublyUnbounded
    ensures Serialize(I.ClosedOpen(2, 1)) == Empty
  {
  }
}
