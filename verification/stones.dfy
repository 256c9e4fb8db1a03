/** The occupancy of an intersection: a closed three-valued enumeration. */
module Stones {

  datatype Stone = White | Black | Neutral

  /** True of the stones that belong to a player (White or Black). */
  predicate IsPlayer(s: Stone) {
    s.White? || s.Black?
  }

  /** The other player's stone. */
  function Opponent(s: Stone): (r: Stone)
    requires IsPlayer(s)
    ensures IsPlayer(r) && r != s
  {
    if s.White? then Black else White
  }

  /** Next to a player's stone, "different and not a player's" means empty. */
  lemma EmptyIsOtherThanPlayer(s: Stone, t: Stone)
    requires IsPlayer(t)
    ensures (s != t && !IsPlayer(s)) <==> s == Neutral
  {
  }

  /** Next to an empty intersection, "different" means a player's stone. */
  lemma PlayerIsOtherThanEmpty(s: Stone)
    ensures s != Neutral <==> IsPlayer(s)
  {
  }
}
