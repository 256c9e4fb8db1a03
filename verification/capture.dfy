/** Placing a stone and removing the opposing chains it leaves without liberties
    (`jogada`). */
module Capture {
  import opened Intersections
  import opened Stones
  import opened Goban
  import opened Chains

  /** The members of `ns` holding the stone of the player other than `p`. */
  function OpposingAmong(g: Board, p: Stone, ns: seq<Intersection>): (r: seq<Intersection>)
    requires ValidBoard(g) && IsPlayer(p) && forall y :: y in ns ==> InBounds(g, y)
    ensures forall a :: a in r <==> a in ns && Get(g, a) == Opponent(p)
  {
    if |ns| == 0 then []
    else
      assert forall z :: z in ns <==> z == ns[0] || z in ns[1..] by {
        assert ns == [ns[0]] + ns[1..];
      }
      var a := ns[0];
      var stone := Get(g, a);
      (if IsPlayer(stone) && stone != p then [a] else []) + OpposingAmong(g, p, ns[1..])
  }

  /** The neighbours of `i` holding an opposing stone, in the order below, left,
      right, above. */
  function Opposing(g: Board, i: Intersection, p: Stone): (r: seq<Intersection>)
    requires ValidBoard(g) && InBounds(g, i) && IsPlayer(p)
    ensures forall a :: a in r <==> a in Neighbours(g, i) && Get(g, a) == Opponent(p)
  {
    OpposingAmong(g, p, Neighbours(g, i))
  }

  /** One turn of the capture loop: removes the chain through `a` when it has no
      liberty. */
  function CaptureStep(g: Board, a: Intersection): (r: Board)
    requires ValidBoard(g) && InBounds(g, a)
    ensures ValidBoard(r) && |r| == |g|
  {
    if !HasLiberty(g, a) then ClearAll(g, Chain(g, a)) else g
  }

  /** The capture loop: for each listed intersection in turn, on the board as left
      by the previous steps, removes its chain when that chain has no liberty. */
  function RemoveDead(g: Board, advs: seq<Intersection>): (r: Board)
    requires ValidBoard(g) && forall a :: a in advs ==> InBounds(g, a)
    ensures ValidBoard(r) && |r| == |g|
    decreases |advs|
  {
    if |advs| == 0 then g
    else
      var a := advs[0];
      var g' := CaptureStep(g, a);
      assert forall x :: x in advs[1..] ==> InBounds(g', x) by {
        forall x | x in advs[1..] ensures InBounds(g', x) { assert x in advs; }
      }
      RemoveDead(g', advs[1..])
  }

  /** `jogada`: puts `p` on `i`, then removes every opposing chain next to `i` that
      is left without a liberty. */
  function Play(g: Board, i: Intersection, p: Stone): (r: Board)
    requires ValidBoard(g) && InBounds(g, i) && IsPlayer(p)
    ensures ValidBoard(r) && |r| == |g|
  {
    var placed := Place(g, i, p);
    RemoveDead(placed, Opposing(placed, i, p))
  }

  // ----- What the capture loop computes -----

  /** `c` lies in the chain of some listed intersection whose chain has no liberty on `g0`. */
  ghost predicate Captured(g0: Board, advs: seq<Intersection>, c: Intersection)
    requires ValidBoard(g0)
  {
    exists a :: a in advs && InBounds(g0, a) && !HasLiberty(g0, a) && c in Chain(g0, a)
  }

  /** `g` is `g0` with exactly the captured intersections emptied. */
  ghost predicate ClearedExactly(g0: Board, advs: seq<Intersection>, g: Board) {
    && ValidBoard(g0) && ValidBoard(g) && |g| == |g0|
    && forall c :: InBounds(g0, c) ==> Get(g, c) == if Captured(g0, advs, c) then Neutral else Get(g0, c)
  }

  /** Some member of `s + [a]` satisfies `P` exactly when some member of `s` does or `a` does. */
  lemma ExistsAppend<T>(s: seq<T>, a: T, P: T -> bool)
    ensures (exists d :: d in s + [a] && P(d)) <==> (exists d :: d in s && P(d)) || P(a)
  {
    if exists d :: d in s + [a] && P(d) {
      var d :| d in s + [a] && P(d);
      if d != a {
        assert d in s;
      }
    }
    if exists d :: d in s && P(d) {
      var d :| d in s && P(d);
      assert d in s + [a];
    }
    assert a in s + [a];
  }

  /** Adding an intersection to the list adds exactly its chain, when that chain
      has no liberty, to the captured intersections. */
  lemma CapturedAppend(g0: Board, done: seq<Intersection>, a: Intersection, c: Intersection)
    requires ValidBoard(g0)
    ensures Captured(g0, done + [a], c) <==>
      Captured(g0, done, c) || (InBounds(g0, a) && !HasLiberty(g0, a) && c in Chain(g0, a))
  {
    ExistsAppend(done, a, d => InBounds(g0, d) && !HasLiberty(g0, d) && c in Chain(g0, d));
  }

  /** Members of one chain are captured together or not at all. */
  lemma CapturedChain(g0: Board, done: seq<Intersection>, a: Intersection, x: Intersection)
    requires ValidBoard(g0) && InBounds(g0, a) && x in Chain(g0, a)
    ensures Captured(g0, done, x) <==> Captured(g0, done, a)
  {
    SameChain(g0, a, x);
    if Captured(g0, done, x) {
      var d :| d in done && InBounds(g0, d) && !HasLiberty(g0, d) && x in Chain(g0, d);
      SameChain(g0, d, x);
    }
    if Captured(g0, done, a) {
      var d :| d in done && InBounds(g0, d) && !HasLiberty(g0, d) && a in Chain(g0, d);
      SameChain(g0, d, a);
    }
  }

  /** On an empty intersection the loop step changes nothing: an empty region has
      no liberty, and emptying it again leaves every cell as it was. */
  lemma StepOnEmpty(g: Board, a: Intersection)
    requires ValidBoard(g) && InBounds(g, a) && Get(g, a) == Neutral
    ensures forall c :: InBounds(g, c) ==> Get(CaptureStep(g, a), c) == Get(g, c)
  {
    HasLibertyIff(g, a);
  }

  /** The listed intersection is already captured: its cell is empty, so the loop
      step leaves the board as it is, and nothing new becomes captured. */
  lemma StepOnCaptured(g0: Board, done: seq<Intersection>, a: Intersection, g: Board)
    requires ClearedExactly(g0, done, g) && InBounds(g0, a) && Captured(g0, done, a)
    ensures ClearedExactly(g0, done + [a], CaptureStep(g, a))
  {
    StepOnEmpty(g, a);
    var g' := CaptureStep(g, a);
    forall c | InBounds(g0, c)
      ensures Captured(g0, done + [a], c) == Captured(g0, done, c)
    {
      CapturedAppend(g0, done, a, c);
      if c in Chain(g0, a) {
        CapturedChain(g0, done, a, c);
      }
    }
  }

  /** Off the captured cells, `g` agrees with `g0` on the chain through a live `a`
      and on every neighbour of that chain. */
  lemma LiveChainUntouched(g0: Board, q: Stone, done: seq<Intersection>, a: Intersection, g: Board)
    requires ClearedExactly(g0, done, g) && InBounds(g0, a) && !Captured(g0, done, a)
    requires forall d :: d in done ==> InBounds(g0, d) && Get(g0, d) == q
    requires Get(g0, a) == q
    ensures forall x :: x in Chain(g0, a) ==> Get(g, x) == Get(g0, x)
    ensures forall x, y :: x in Chain(g0, a) && y in Neighbours(g0, x) ==> Get(g, y) == Get(g0, y)
  {
    var c := Chain(g0, a);
    forall x | x in c ensures Get(g, x) == Get(g0, x) {
      CapturedChain(g0, done, a, x);
    }
    forall x, y | x in c && y in Neighbours(g0, x) ensures Get(g, y) == Get(g0, y) {
      if Captured(g0, done, y) {
        var d :| d in done && InBounds(g0, d) && !HasLiberty(g0, d) && y in Chain(g0, d);
        assert Get(g0, y) == q;
        assert y in c;
        CapturedChain(g0, done, a, y);
      }
    }
  }

  /** One cell after a step on a chain whose liberty and extent are as on `g0`. */
  lemma LiveStepCell(g0: Board, done: seq<Intersection>, a: Intersection, g: Board, x: Intersection)
    requires ClearedExactly(g0, done, g) && InBounds(g0, a) && InBounds(g0, x)
    requires Chain(g, a) == Chain(g0, a) && HasLiberty(g, a) == HasLiberty(g0, a)
    ensures Get(CaptureStep(g, a), x) == if Captured(g0, done + [a], x) then Neutral else Get(g0, x)
  {
    CapturedAppend(g0, done, a, x);
    assert Get(g, x) == if Captured(g0, done, x) then Neutral else Get(g0, x);
  }

  /** The listed intersection is not captured yet: its chain and the chain's
      surroundings are as on `g0`, so the step removes it exactly when it has no
      liberty on `g0`. */
  lemma StepOnLive(g0: Board, q: Stone, done: seq<Intersection>, a: Intersection, g: Board)
    requires ClearedExactly(g0, done, g) && InBounds(g0, a) && !Captured(g0, done, a)
    requires forall d :: d in done ==> InBounds(g0, d) && Get(g0, d) == q
    requires Get(g0, a) == q
    ensures ClearedExactly(g0, done + [a], CaptureStep(g, a))
  {
    LiveChainUntouched(g0, q, done, a, g);
    LibertyFrame(g0, g, a);
    forall x | InBounds(g0, x)
      ensures Get(CaptureStep(g, a), x) == if Captured(g0, done + [a], x) then Neutral else Get(g0, x)
    {
      LiveStepCell(g0, done, a, g, x);
    }
  }

  /** Moving the first element of `b` to the end of `a` keeps the concatenation. */
  lemma MoveHead<T>(a: seq<T>, b: seq<T>)
    requires |b| > 0
    ensures a + b == (a + [b[0]]) + b[1..]
  {
    assert b == [b[0]] + b[1..];
  }

  /** One step of the capture loop keeps the board equal to the start board with
      the captured intersections emptied. */
  lemma StepClears(g0: Board, q: Stone, done: seq<Intersection>, a: Intersection, g: Board)
    requires ClearedExactly(g0, done, g) && InBounds(g0, a) && Get(g0, a) == q
    requires forall d :: d in done ==> InBounds(g0, d) && Get(g0, d) == q
    ensures ClearedExactly(g0, done + [a], CaptureStep(g, a))
  {
    if Captured(g0, done, a) {
      StepOnCaptured(g0, done, a, g);
    } else {
      StepOnLive(g0, q, done, a, g);
    }
  }

  /** A property of every member of `s` and of `a` holds of every member of `s + [a]`. */
  lemma AllAppend<T>(s: seq<T>, a: T, P: T -> bool)
    requires forall d :: d in s ==> P(d)
    requires P(a)
    ensures forall d :: d in s + [a] ==> P(d)
  {
  }

  /** A property of every member of `s` holds of every member of its tail. */
  lemma AllTail<T>(s: seq<T>, P: T -> bool)
    requires |s| > 0 && forall d :: d in s ==> P(d)
    ensures forall d :: d in s[1..] ==> P(d)
  {
    assert forall d :: d in s[1..] ==> d in s;
  }

  /** The capture loop empties exactly the chains, among those of the listed
      intersections, that have no liberty on the board it started from: removing
      one captured chain never gives a liberty to another, whatever the order. */
  lemma {:induction false} RemoveDeadClears(g0: Board, q: Stone, done: seq<Intersection>, rest: seq<Intersection>, g: Board)
    requires ClearedExactly(g0, done, g)
    requires forall a :: a in done ==> InBounds(g0, a) && Get(g0, a) == q
    requires forall a :: a in rest ==> InBounds(g0, a) && Get(g0, a) == q
    ensures forall a :: a in rest ==> InBounds(g, a)
    ensures ClearedExactly(g0, done + rest, RemoveDead(g, rest))
    decreases |rest|
  {
    if |rest| == 0 {
      assert done + rest == done;
    } else {
      var a := rest[0];
      assert a in rest;
      var g' := CaptureStep(g, a);
      StepClears(g0, q, done, a, g);
      var holds := d => InBounds(g0, d) && Get(g0, d) == q;
      AllAppend(done, a, holds);
      AllTail(rest, holds);
      RemoveDeadClears(g0, q, done + [a], rest[1..], g');
      MoveHead(done, rest);
      assert RemoveDead(g, rest) == RemoveDead(g', rest[1..]);
    }
  }

  /** The result of `jogada`: the board after placement, with exactly the opposing
      chains next to `i` that have no liberty there emptied. */
  lemma PlayClears(g: Board, i: Intersection, p: Stone)
    requires ValidBoard(g) && InBounds(g, i) && IsPlayer(p)
    ensures ClearedExactly(Place(g, i, p), Opposing(Place(g, i, p), i, p), Play(g, i, p))
  {
    var g0 := Place(g, i, p);
    var advs := Opposing(g0, i, p);
    assert ClearedExactly(g0, [], g0);
    assert [] + advs == advs;
    RemoveDeadClears(g0, Opponent(p), [], advs, g0);
  }

  /** `c` belongs to an opposing chain next to `i` that has no liberty once `p` is
      placed on `i`: the intersections a move of `p` on `i` captures. */
  ghost predicate CapturedBy(g: Board, i: Intersection, p: Stone, c: Intersection)
    requires ValidBoard(g) && InBounds(g, i) && IsPlayer(p)
  {
    exists a :: a in Neighbours(g, i) && Get(g, a) == Opponent(p)
                && !HasLiberty(Place(g, i, p), a) && c in Chain(Place(g, i, p), a)
  }

  /** What the capture loop of a move captures is `CapturedBy`, and an opposing
      stone, never the placed one. */
  lemma CapturedIsCapturedBy(g: Board, i: Intersection, p: Stone, c: Intersection)
    requires ValidBoard(g) && InBounds(g, i) && IsPlayer(p) && InBounds(g, c)
    requires Captured(Place(g, i, p), Opposing(Place(g, i, p), i, p), c)
    ensures CapturedBy(g, i, p, c) && c != i && Get(g, c) == Opponent(p)
  {
    var g0 := Place(g, i, p);
    var a :| a in Opposing(g0, i, p) && InBounds(g0, a) && !HasLiberty(g0, a) && c in Chain(g0, a);
    assert a in Neighbours(g0, i) && Get(g0, a) == Opponent(p);
    assert a != i && InBounds(g, a);
    assert Get(g, a) == Get(g0, a);
    assert Get(g0, c) == Opponent(p);
    assert Neighbours(g0, i) == Neighbours(g, i);
  }

  /** Everything `CapturedBy` names is captured by the loop of the move. */
  lemma CapturedByIsCaptured(g: Board, i: Intersection, p: Stone, c: Intersection)
    requires ValidBoard(g) && InBounds(g, i) && IsPlayer(p) && InBounds(g, c)
    requires CapturedBy(g, i, p, c)
    ensures Captured(Place(g, i, p), Opposing(Place(g, i, p), i, p), c)
  {
    var g0 := Place(g, i, p);
    var a :| a in Neighbours(g, i) && Get(g, a) == Opponent(p) && !HasLiberty(g0, a) && c in Chain(g0, a);
    assert a != i;
    assert Neighbours(g0, i) == Neighbours(g, i);
    assert Get(g0, a) == Opponent(p);
    assert a in Opposing(g0, i, p);
  }

  /** The capture loop of a move captures exactly `CapturedBy`, and only opposing
      stones, never the placed one. */
  lemma CapturedByMove(g: Board, i: Intersection, p: Stone, c: Intersection)
    requires ValidBoard(g) && InBounds(g, i) && IsPlayer(p) && InBounds(g, c)
    ensures Captured(Place(g, i, p), Opposing(Place(g, i, p), i, p), c) <==> CapturedBy(g, i, p, c)
    ensures CapturedBy(g, i, p, c) ==> c != i && Get(g, c) == Opponent(p)
  {
    if Captured(Place(g, i, p), Opposing(Place(g, i, p), i, p), c) {
      CapturedIsCapturedBy(g, i, p, c);
    }
    if CapturedBy(g, i, p, c) {
      CapturedByIsCaptured(g, i, p, c);
      CapturedIsCapturedBy(g, i, p, c);
    }
  }

  /** One intersection after a move: `i` holds `p`, a captured intersection is
      empty, and every other intersection is as before. */
  lemma PlayCell(g: Board, i: Intersection, p: Stone, c: Intersection)
    requires ValidBoard(g) && InBounds(g, i) && IsPlayer(p) && InBounds(g, c)
    ensures Get(Play(g, i, p), c) ==
      if c == i then p else if CapturedBy(g, i, p, c) then Neutral else Get(g, c)
  {
    PlayClears(g, i, p);
    CapturedByMove(g, i, p, c);
    CapturedByMove(g, i, p, i);
  }

  /** What a move changes: `i` holds `p`; no stone of `p` is removed; and any other
      intersection changes exactly when it is captured, that is, when it belongs to
      an opposing chain next to `i` left without a liberty by the placement; a
      captured intersection held an opposing stone and is now empty. */
  lemma PlayOutcome(g: Board, i: Intersection, p: Stone)
    requires ValidBoard(g) && InBounds(g, i) && IsPlayer(p)
    ensures Get(Play(g, i, p), i) == p
    ensures forall c :: InBounds(g, c) && Get(g, c) == p ==> Get(Play(g, i, p), c) == p
    ensures forall c :: InBounds(g, c) && c != i ==>
      (Get(Play(g, i, p), c) != Get(g, c) <==> CapturedBy(g, i, p, c))
    ensures forall c :: InBounds(g, c) && CapturedBy(g, i, p, c) ==>
      Get(g, c) == Opponent(p) && Get(Play(g, i, p), c) == Neutral
  {
    PlayCell(g, i, p, i);
    forall c | InBounds(g, c)
      ensures Get(Play(g, i, p), c) ==
        if c == i then p else if CapturedBy(g, i, p, c) then Neutral else Get(g, c)
      ensures CapturedBy(g, i, p, c) ==> c != i && Get(g, c) == Opponent(p)
    {
      PlayCell(g, i, p, c);
      CapturedByMove(g, i, p, c);
    }
  }

  /** Whether a chain is captured depends only on which intersections are listed. */
  lemma CapturedSameMembers(g0: Board, advs1: seq<Intersection>, advs2: seq<Intersection>, c: Intersection)
    requires ValidBoard(g0)
    requires forall a :: a in advs1 <==> a in advs2
    ensures Captured(g0, advs1, c) <==> Captured(g0, advs2, c)
  {
    if Captured(g0, advs1, c) {
      var a :| a in advs1 && InBounds(g0, a) && !HasLiberty(g0, a) && c in Chain(g0, a);
      assert a in advs2;
    }
    if Captured(g0, advs2, c) {
      var a :| a in advs2 && InBounds(g0, a) && !HasLiberty(g0, a) && c in Chain(g0, a);
      assert a in advs1;
    }
  }

  /** Captures commute: running the capture loop over the same opposing
      intersections in any order gives the same board. */
  lemma CaptureOrderIrrelevant(g0: Board, q: Stone, advs1: seq<Intersection>, advs2: seq<Intersection>)
    requires ValidBoard(g0)
    requires forall a :: a in advs1 ==> InBounds(g0, a) && Get(g0, a) == q
    requires forall a :: a in advs1 <==> a in advs2
    ensures RemoveDead(g0, advs1) == RemoveDead(g0, advs2)
  {
    assert ClearedExactly(g0, [], g0);
    assert [] + advs1 == advs1 && [] + advs2 == advs2;
    RemoveDeadClears(g0, q, [], advs1, g0);
    RemoveDeadClears(g0, q, [], advs2, g0);
    var r1 := RemoveDead(g0, advs1);
    var r2 := RemoveDead(g0, advs2);
    forall c | InBounds(r1, c) ensures Get(r1, c) == Get(r2, c) {
      CapturedSameMembers(g0, advs1, advs2, c);
    }
    SameCellsSameBoard(r1, r2);
  }
}
