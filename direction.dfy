/**
 * The `Direction` enumeration: the alphabet of path tokens and the fixed
 * order in which neighbours are listed.
 */
module Directions {

  datatype Direction = Up | Left | Down | Right

  /** The enum member's `.value` string. */
  function Value(d: Direction): string
  {
    match d
    case Up => "up"
    case Left => "left"
    case Down => "down"
    case Right => "right"
  }

  /** `list(Direction)`: the members in declaration order. */
  const Members: seq<Direction> := [Up, Left, Down, Right]

  /** Position of a member in declaration order. */
  function Index(d: Direction): (i: nat)
    ensures i < |Members| && Members[i] == d
  {
    match d
    case Up => 0
    case Left => 1
    case Down => 2
    case Right => 3
  }

  /** The member pointing the other way. */
  function Opposite(d: Direction): (r: Direction)
    ensures r != d
  {
    match d
    case Up => Down
    case Left => Right
    case Down => Up
    case Right => Left
  }

  /** There are exactly four members, listed once each in declaration order. */
  lemma MembersExactlyFour()
    ensures |Members| == 4
    ensures forall d: Direction :: d in Members
    ensures forall i, j :: 0 <= i < j < |Members| ==> Members[i] != Members[j]
  {
    forall d: Direction ensures d in Members {
      assert Members[Index(d)] == d;
    }
  }

  /** `Opposite` is an involution. */
  lemma OppositeInvolution(d: Direction)
    ensures Opposite(Opposite(d)) == d
  {
  }

  /** The string values are pairwise distinct, so `.value` is injective. */
  lemma ValueInjective(a: Direction, b: Direction)
    ensures Value(a) == Value(b) <==> a == b
  {
    if a != b {
      assert Value(a)[0] != Value(b)[0] || |Value(a)| != |Value(b)|;
    }
  }
}
