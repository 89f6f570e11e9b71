/** One end of an interval (endpoint_range.hpp), over the reals. */
module Endpoints {
  import opened Options

  datatype Side = Left | Right

  /** An infinite endpoint is always open and lies at the end its side names. */
  datatype Endpoint =
    | Infinite(side: Side)
    | Finite(bound: real, open: bool, side: Side)
  {
    predicate IsOpen() {
      Infinite? || open
    }

    function Value(): Option<real> {
      if Infinite? then None else Some(bound)
    }

    /** The one-sided constraint that the endpoint puts on a value. */
    predicate Admits(x: real) {
      match this
      case Infinite(_) => true
      case Finite(v, o, Right) => if x < v then true else if x > v then false else !o
      case Finite(v, o, Left) => if x < v then false else if x > v then true else !o
    }

    /** The order of the endpoints along the axis, branch by branch. */
    predicate Less(other: Endpoint) {
      if this == other then
        false
      else if Infinite? && other.Infinite? then
        side == Left && other.side == Right
      else if Finite? && other.Finite? then
        if bound != other.bound then
          bound < other.bound
        else if side == other.side then
          if side == Left then !open else open
        else
          side == Right
      else if side == other.side then
        if side == Left then Infinite? else Finite?
      else
        side == Left
    }

    predicate AtMost(other: Endpoint) {
      Less(other) || this == other
    }

    /** Same value, complementary openness, other side. An infinite endpoint stays
        infinite, so it turns into the infinity at the other end of the axis. */
    function Adjacent(): Endpoint {
      var newSide := if side == Left then Right else Left;
      match this
      case Infinite(_) => Infinite(newSide)
      case Finite(v, o, _) => Finite(v, !o, newSide)
    }
  }

  /** The constructor: without a value the endpoint is infinite, whatever isOpen says. */
  function MakeEndpoint(value: Option<real>, isOpen: bool, side: Side): Endpoint {
    match value
    case None => Infinite(side)
    case Some(v) => Finite(v, isOpen, side)
  }

  /** The order is a strict total order, as std::set needs. */
  lemma LessIsStrictTotalOrder(a: Endpoint, b: Endpoint, c: Endpoint)
    ensures !a.Less(a)
    ensures a.Less(b) || b.Less(a) || a == b
    ensures !(a.Less(b) && b.Less(a))
    ensures a.Less(b) && b.Less(c) ==> a.Less(c)
  {
  }
}
