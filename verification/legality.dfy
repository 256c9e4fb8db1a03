/** Whether a player may put a stone on an intersection: the target must be an
    empty intersection of the board, the stone's chain must keep a liberty once
    captures are resolved, and the result must not repeat the remembered board
    (simple ko). */
module Legality {
  import opened Intersections
  import opened Stones
  import opened Goban
  import opened Chains
  import opened Capture

  /** `eh_jogada_legal`: the move of `p` on `i` is simulated on a copy of `g`; it is
      legal when the stone's chain has a liberty afterwards and the result differs
      from `l`. */
  function IsLegal(g: Board, i: Intersection, p: Stone, l: Board): (r: bool)
    requires ValidBoard(g) && IsPlayer(p)
    ensures r ==> InBounds(g, i) && Get(g, i) == Neutral
    ensures r ==> Play(g, i, p) != l
  {
    if !InBounds(g, i) || IsPlayer(Get(g, i)) then false
    else
      var sim := Play(Copy(g), i, p);
      SameCellsSameBoard(Copy(g), g);
      HasLiberty(sim, i) && !BoardsEqual(sim, l)
  }

  /** The three rules, both ways: a move is legal exactly when its target is an
      empty intersection of the board, the result differs from `l`, and after
      captures some stone of the new chain touches an empty intersection. */
  lemma LegalityRules(g: Board, i: Intersection, p: Stone, l: Board)
    requires ValidBoard(g) && IsPlayer(p)
    ensures IsLegal(g, i, p, l) <==>
      && InBounds(g, i)
      && Get(g, i) == Neutral
      && Play(g, i, p) != l
      && exists x, y :: x in Chain(Play(g, i, p), i) && InBounds(g, y) && Adj(x, y)
                        && Get(Play(g, i, p), y) == Neutral
  {
    if InBounds(g, i) && Get(g, i) == Neutral {
      SameCellsSameBoard(Copy(g), g);
      PlayOutcome(g, i, p);
      HasLibertyIff(Play(g, i, p), i);
    }
  }

  /** A stone put next to an empty intersection always keeps a liberty, so such a
      move is legal unless it recreates `l`. */
  lemma EmptyNeighbourLegal(g: Board, i: Intersection, p: Stone, l: Board, y: Intersection)
    requires ValidBoard(g) && IsPlayer(p) && InBounds(g, i) && Get(g, i) == Neutral
    requires y in Neighbours(g, i) && Get(g, y) == Neutral
    ensures IsLegal(g, i, p, l) <==> Play(g, i, p) != l
  {
    PlayOutcome(g, i, p);
    LegalityRules(g, i, p, l);
    var r := Play(g, i, p);
    assert Get(r, y) == Neutral;
    assert i in Chain(r, i) && Adj(i, y);
  }

  /** A move that captures is never suicide: the emptied stone next to `i` becomes a
      liberty of the new chain. */
  lemma CaptureGivesLiberty(g: Board, i: Intersection, p: Stone, a: Intersection)
    requires ValidBoard(g) && IsPlayer(p) && InBounds(g, i) && Get(g, i) == Neutral
    requires a in Neighbours(g, i) && Get(g, a) == Opponent(p)
    requires !HasLiberty(Place(g, i, p), a)
    ensures HasLiberty(Play(g, i, p), i)
  {
    PlayOutcome(g, i, p);
    var r := Play(g, i, p);
    assert a in Chain(Place(g, i, p), a);
    assert Get(r, a) == Neutral;
    assert i in Chain(r, i) && Adj(i, a);
    HasLibertyIff(r, i);
  }
}
