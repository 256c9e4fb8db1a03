/** Chains: the maximal groups of connected intersections holding the same stone,
    found by flood fill, and their boundaries (liberties of stone groups, bordering
    stones of empty regions). */
module Chains {
  import opened Intersections
  import opened Stones
  import opened Sorting
  import opened Goban

  // ----- Connectivity, stated independently of the flood fill -----

  /** A walk over the board through orthogonal steps, every cell holding the
      stone of its first cell. */
  ghost predicate IsPath(g: Board, p: seq<Intersection>) {
    && ValidBoard(g)
    && |p| > 0
    && InBounds(g, p[0])
    && (forall k :: 0 <= k < |p| ==> InBounds(g, p[k]) && Get(g, p[k]) == Get(g, p[0]))
    && (forall k :: 0 <= k < |p| - 1 ==> Adj(p[k], p[k + 1]))
  }

  /** `p` is a same-stone path from `a` to `b`. */
  ghost predicate Connects(g: Board, p: seq<Intersection>, a: Intersection, b: Intersection) {
    IsPath(g, p) && p[0] == a && p[|p| - 1] == b
  }

  /** `b` can be reached from `a` without leaving stones equal to `a`'s. */
  ghost predicate Reachable(g: Board, a: Intersection, b: Intersection) {
    exists p :: Connects(g, p, a, b)
  }

  /** Every same-stone neighbour of `x` is already in `r`. */
  ghost predicate ClosedAt(g: Board, s: Stone, x: Intersection, r: seq<Intersection>)
    requires ValidBoard(g)
  {
    InBounds(g, x) && forall y :: y in Neighbours(g, x) && Get(g, y) == s ==> y in r
  }

  /** Every intersection reaches itself. */
  lemma ReachableReflexive(g: Board, a: Intersection)
    requires ValidBoard(g) && InBounds(g, a)
    ensures Reachable(g, a, a)
  {
    assert Connects(g, [a], a, a);
  }

  /** A reachable intersection extends its reach to a same-stone neighbour. */
  lemma ReachableStep(g: Board, a: Intersection, b: Intersection, c: Intersection)
    requires Reachable(g, a, b) && InBounds(g, c) && Adj(b, c)
    requires ValidBoard(g) && InBounds(g, b) && Get(g, c) == Get(g, b)
    ensures Reachable(g, a, c)
  {
    var p :| Connects(g, p, a, b);
    var q := p + [c];
    assert Get(g, b) == Get(g, p[0]);
    assert forall k :: 0 <= k < |q| - 1 ==> q[k] == p[k];
    assert Connects(g, q, a, c);
  }

  /** Reachability runs both ways: a path reversed is a path. */
  lemma ReachableSymmetric(g: Board, a: Intersection, b: Intersection)
    requires Reachable(g, a, b)
    ensures Reachable(g, b, a)
  {
    var p :| Connects(g, p, a, b);
    var n := |p|;
    var q := seq(n, k requires 0 <= k < n => p[n - 1 - k]);
    forall k | 0 <= k < n ensures InBounds(g, q[k]) && Get(g, q[k]) == Get(g, q[0]) {
      assert q[k] == p[n - 1 - k];
    }
    forall k | 0 <= k < n - 1 ensures Adj(q[k], q[k + 1]) {
      assert q[k] == p[n - 1 - k] && q[k + 1] == p[n - 2 - k];
      assert Adj(p[n - 2 - k], p[n - 1 - k]);
    }
    assert Connects(g, q, b, a);
  }

  /** A set that holds `a` and every same-stone neighbour of its members holds
      everything reachable from `a`. */
  lemma ClosedHoldsReachable(g: Board, a: Intersection, r: seq<Intersection>, b: Intersection)
    requires ValidBoard(g) && InBounds(g, a) && a in r
    requires forall x :: x in r ==> ClosedAt(g, Get(g, a), x, r)
    requires Reachable(g, a, b)
    ensures b in r
  {
    var p :| Connects(g, p, a, b);
    var k := 0;
    while k < |p| - 1
      invariant 0 <= k < |p| && p[k] in r
    {
      assert ClosedAt(g, Get(g, a), p[k], r);
      assert p[k + 1] in Neighbours(g, p[k]);
      k := k + 1;
    }
  }

  // ----- The flood fill -----

  /** Every cell of an n-by-n board. */
  ghost function Cells(n: int): set<Intersection> {
    set c, r | 0 <= c < n && 1 <= r <= n :: Intersection(c, r)
  }

  /** Every intersection of the board is one of its cells. */
  lemma CellsHoldsBoard(n: int, y: Intersection)
    requires OnBoard(y, n)
    ensures y in Cells(n)
  {
    var c, r := y.col, y.row;
    assert 0 <= c < n && 1 <= r <= n && y == Intersection(c, r);
  }

  /** The members of `ns` holding stone `s` that `acc` does not contain yet. */
  function Unvisited(g: Board, s: Stone, ns: seq<Intersection>, acc: seq<Intersection>): (r: seq<Intersection>)
    requires ValidBoard(g) && forall y :: y in ns ==> InBounds(g, y)
    ensures forall y :: y in r <==> y in ns && Get(g, y) == s && y !in acc
    ensures Distinct(ns) ==> Distinct(r)
  {
    if |ns| == 0 then []
    else
      assert forall y :: y in ns <==> y == ns[0] || y in ns[1..] by {
        assert ns == [ns[0]] + ns[1..];
      }
      var rest := Unvisited(g, s, ns[1..], acc);
      assert Distinct(ns) ==> Distinct(ns[1..]) && ns[0] !in ns[1..];
      (if Get(g, ns[0]) == s && ns[0] !in acc then [ns[0]] else []) + rest
  }

  /** What the flood fill keeps true of its visited list `acc` and its work list. */
  ghost predicate FillInvariant(g: Board, s: Stone, work: seq<Intersection>, acc: seq<Intersection>) {
    && ValidBoard(g)
    && (forall x :: x in acc ==> InBounds(g, x) && Get(g, x) == s)
    && (forall x :: x in work ==> x in acc)
    && Distinct(acc)
    && (forall x :: x in acc && x !in work ==> ClosedAt(g, s, x, acc))
  }

  /** After a step, every visited intersection off the work list has all its
      same-stone neighbours visited. */
  lemma FillStepClosed(g: Board, s: Stone, work: seq<Intersection>, acc: seq<Intersection>)
    requires FillInvariant(g, s, work, acc) && |work| > 0
    ensures (var found := Unvisited(g, s, Neighbours(g, work[0]), acc);
      forall v :: v in acc + found && v !in work[1..] + found ==> ClosedAt(g, s, v, acc + found))
  {
    var x := work[0];
    assert x in acc;
    var found := Unvisited(g, s, Neighbours(g, x), acc);
    var acc' := acc + found;
    var work' := work[1..] + found;
    forall v | v in acc' && v !in work' ensures ClosedAt(g, s, v, acc') {
      assert v in acc;
      if v == x {
        forall y | y in Neighbours(g, x) && Get(g, y) == s ensures y in acc' {
          if y !in acc {
            assert y in found;
          }
        }
      } else {
        assert v !in work by {
          if v in work {
            InTail(work, v);
          }
        }
        assert ClosedAt(g, s, v, acc);
      }
    }
  }

  /** Visiting new on-board intersections strictly shrinks the set of unvisited
      cells. */
  lemma FillStepShrinks(g: Board, acc: seq<Intersection>, found: seq<Intersection>)
    requires ValidBoard(g)
    requires forall y :: y in found ==> InBounds(g, y) && y !in acc
    ensures (Cells(|g|) - set x | x in acc + found) <= (Cells(|g|) - set x | x in acc)
    ensures |found| > 0 ==> (Cells(|g|) - set x | x in acc + found) != (Cells(|g|) - set x | x in acc)
  {
    if |found| > 0 {
      var y := found[0];
      assert y in found && InBounds(g, y);
      CellsHoldsBoard(|g|, y);
      assert y in (Cells(|g|) - set x | x in acc);
      assert y !in (Cells(|g|) - set x | x in acc + found);
    }
  }

  /** One step of the flood fill keeps the invariant, and either visits a new cell
      or shortens the work list. */
  lemma FillStep(g: Board, s: Stone, work: seq<Intersection>, acc: seq<Intersection>)
    requires FillInvariant(g, s, work, acc) && |work| > 0
    ensures (var found := Unvisited(g, s, Neighbours(g, work[0]), acc);
      && FillInvariant(g, s, work[1..] + found, acc + found)
      && (Cells(|g|) - set x | x in acc + found) <= (Cells(|g|) - set x | x in acc)
      && (|found| > 0 ==> (Cells(|g|) - set x | x in acc + found) != (Cells(|g|) - set x | x in acc))
      && (|found| == 0 ==> acc + found == acc))
  {
    var x := work[0];
    assert x in acc;
    var ns := Neighbours(g, x);
    var found := Unvisited(g, s, ns, acc);
    assert Distinct(ns) by {
      forall j, k | 0 <= j < k < |ns| ensures ns[j] != ns[k] {
        AscendingIsDistinct(ns, j, k);
      }
    }
    DistinctConcat(acc, found);
    FillStepClosed(g, s, work, acc);
    FillStepShrinks(g, acc, found);
    assert forall y :: y in work[1..] ==> y in work;
  }

  /** The flood fill: pops an intersection off the work list and visits its
      neighbours holding stone `s` that were not visited before. */
  function Fill(g: Board, s: Stone, work: seq<Intersection>, acc: seq<Intersection>): (r: seq<Intersection>)
    requires FillInvariant(g, s, work, acc)
    ensures forall x :: x in acc ==> x in r
    ensures forall x :: x in r ==> InBounds(g, x) && Get(g, x) == s
    ensures Distinct(r)
    ensures forall x :: x in r ==> ClosedAt(g, s, x, r)
    decreases Cells(|g|) - set x | x in acc, |work|
  {
    if |work| == 0 then acc
    else
      var found := Unvisited(g, s, Neighbours(g, work[0]), acc);
      FillStep(g, s, work, acc);
      Fill(g, s, work[1..] + found, acc + found)
  }

  /** Everything the flood fill visits is reachable from the seed. */
  lemma {:induction false} FillReachable(g: Board, s: Stone, work: seq<Intersection>, acc: seq<Intersection>, seed: Intersection)
    requires FillInvariant(g, s, work, acc)
    requires forall x :: x in acc ==> Reachable(g, seed, x)
    ensures forall x :: x in Fill(g, s, work, acc) ==> Reachable(g, seed, x)
    decreases Cells(|g|) - set x | x in acc, |work|
  {
    if |work| > 0 {
      var x := work[0];
      assert x in acc;
      var found := Unvisited(g, s, Neighbours(g, x), acc);
      FillStep(g, s, work, acc);
      forall y | y in acc + found ensures Reachable(g, seed, y) {
        if y !in acc {
          ReachableStep(g, seed, x, y);
        }
      }
      FillReachable(g, s, work[1..] + found, acc + found, seed);
    }
  }

  /** `obtem_cadeia`: the chain through `i`, in reading order. From a stone it is the
      group of that stone; from an empty intersection it is the empty region. */
  function Chain(g: Board, i: Intersection): (r: seq<Intersection>)
    requires ValidBoard(g) && InBounds(g, i)
    ensures i in r
    ensures forall x :: x in r ==> InBounds(g, x) && Get(g, x) == Get(g, i)
    ensures forall x, y :: x in r && y in Neighbours(g, x) && Get(g, y) == Get(g, i) ==> y in r
    ensures Ascending(r)
  {
    var visited := Fill(g, Get(g, i), [i], [i]);
    var r := SortIntersections(visited);
    assert forall x :: x in r ==> ClosedAt(g, Get(g, i), x, visited);
    r
  }

  /** The chain through `i` is exactly the set of cells reachable from `i`. */
  lemma ChainIsComponent(g: Board, i: Intersection)
    requires ValidBoard(g) && InBounds(g, i)
    ensures forall x :: x in Chain(g, i) <==> InBounds(g, x) && Reachable(g, i, x)
  {
    ReachableReflexive(g, i);
    FillReachable(g, Get(g, i), [i], [i], i);
    var r := Chain(g, i);
    forall x | InBounds(g, x) && Reachable(g, i, x) ensures x in r {
      ClosedHoldsReachable(g, i, r, x);
    }
  }

  /** Chains partition the board: the chain through any member of a chain is
      that same chain. */
  lemma SameChain(g: Board, a: Intersection, b: Intersection)
    requires ValidBoard(g) && InBounds(g, a) && b in Chain(g, a)
    ensures Chain(g, b) == Chain(g, a)
  {
    var ca := Chain(g, a);
    ChainIsComponent(g, a);
    ChainIsComponent(g, b);
    ReachableSymmetric(g, a, b);
    var cb := Chain(g, b);
    assert a in cb;
    forall x ensures x in ca <==> x in cb {
      if x in ca {
        ClosedHoldsReachable(g, a, cb, x);
      }
      if x in cb {
        ClosedHoldsReachable(g, b, ca, x);
      }
    }
    AscendingUnique(ca, cb);
  }

  /** The closure clause of `Chain`, in the form the flood fill uses. */
  lemma ChainClosed(g: Board, i: Intersection)
    requires ValidBoard(g) && InBounds(g, i)
    ensures forall x :: x in Chain(g, i) ==> ClosedAt(g, Get(g, i), x, Chain(g, i))
  {
  }

  /** Boards of one size have the same neighbourhoods. */
  lemma SameNeighbours(g: Board, h: Board, x: Intersection)
    requires ValidBoard(g) && ValidBoard(h) && |g| == |h| && InBounds(g, x)
    ensures Neighbours(g, x) == Neighbours(h, x)
  {
  }

  /** A sequence closed under same-stone adjacency on `g` stays closed on a board
      that agrees with `g` on every neighbour of its members. */
  lemma ClosedUnderAgreement(g: Board, h: Board, s: Stone, c: seq<Intersection>)
    requires ValidBoard(g) && ValidBoard(h) && |g| == |h|
    requires forall x :: x in c ==> InBounds(g, x) && ClosedAt(g, s, x, c)
    requires forall x, y :: x in c && y in Neighbours(g, x) ==> Get(h, y) == Get(g, y)
    ensures forall x :: x in c ==> ClosedAt(h, s, x, c)
  {
    forall x | x in c ensures ClosedAt(h, s, x, c) {
      SameNeighbours(g, h, x);
      assert ClosedAt(g, s, x, c);
    }
  }

  /** The chain through `a` depends only on the stones of the chain and of its
      neighbours: a board that agrees there has the same chain. */
  lemma ChainFrame(g: Board, h: Board, a: Intersection)
    requires ValidBoard(g) && ValidBoard(h) && |g| == |h| && InBounds(g, a)
    requires forall x :: x in Chain(g, a) ==> Get(h, x) == Get(g, x)
    requires forall x, y :: x in Chain(g, a) && y in Neighbours(g, x) ==> Get(h, y) == Get(g, y)
    ensures Chain(h, a) == Chain(g, a)
  {
    var cg := Chain(g, a);
    var ch := Chain(h, a);
    var s := Get(g, a);
    assert Get(h, a) == s;
    ChainClosed(g, a);
    ChainClosed(h, a);
    ChainIsComponent(h, a);
    ClosedUnderAgreement(g, h, s, cg);
    forall x | x in ch ensures x in cg {
      ClosedHoldsReachable(h, a, cg, x);
    }
    ClosedUnderAgreement(h, g, s, ch) by {
      forall x, y | x in ch && y in Neighbours(h, x) ensures Get(g, y) == Get(h, y) {
        SameNeighbours(g, h, x);
      }
    }
    ChainIsComponent(g, a);
    forall x | x in cg ensures x in ch {
      ClosedHoldsReachable(g, a, ch, x);
    }
    AscendingUnique(cg, ch);
  }

  // ----- Boundaries and liberties -----

  /** The neighbour `y` of `x` counts on the boundary: it holds a different stone,
      and an empty one when `x` holds a player's stone. */
  predicate Differs(g: Board, x: Intersection, y: Intersection)
    requires ValidBoard(g) && InBounds(g, x) && InBounds(g, y)
  {
    Get(g, y) != Get(g, x) && (IsPlayer(Get(g, x)) ==> !IsPlayer(Get(g, y)))
  }

  /** `y` is a neighbour of some member `x` of `t` and differs from it. */
  ghost predicate OnBoundary(g: Board, t: seq<Intersection>, y: Intersection)
    requires ValidBoard(g) && forall x :: x in t ==> InBounds(g, x)
  {
    exists x :: x in t && y in Neighbours(g, x) && Differs(g, x, y)
  }

  /** Appends to `acc` the members of `ns` that differ from `x` and are not in it. */
  function AddDiffering(g: Board, x: Intersection, ns: seq<Intersection>, acc: seq<Intersection>): (r: seq<Intersection>)
    requires ValidBoard(g) && InBounds(g, x) && forall y :: y in ns ==> InBounds(g, y)
    requires Distinct(acc)
    ensures forall y :: y in r <==> y in acc || (y in ns && Differs(g, x, y))
    ensures Distinct(r)
  {
    if |ns| == 0 then acc
    else
      var y := ns[0];
      assert forall z :: z in ns <==> z == y || z in ns[1..] by {
        assert ns == [y] + ns[1..];
      }
      var acc' := if Differs(g, x, y) && y !in acc then acc + [y] else acc;
      AddDiffering(g, x, ns[1..], acc')
  }

  /** The loop over `t` of `obtem_adjacentes_diferentes`, before sorting. */
  function CollectBoundary(g: Board, t: seq<Intersection>, acc: seq<Intersection>): (r: seq<Intersection>)
    requires ValidBoard(g) && forall x :: x in t ==> InBounds(g, x)
    requires Distinct(acc)
    ensures forall y :: y in r <==> y in acc || (InBounds(g, y) && OnBoundary(g, t, y))
    ensures Distinct(r)
  {
    if |t| == 0 then acc
    else
      var x := t[0];
      assert forall z :: z in t <==> z == x || z in t[1..] by {
        assert t == [x] + t[1..];
      }
      var acc' := AddDiffering(g, x, Neighbours(g, x), acc);
      var r := CollectBoundary(g, t[1..], acc');
      assert forall y :: InBounds(g, y) && OnBoundary(g, t, y) ==> y in r by {
        forall y | InBounds(g, y) && OnBoundary(g, t, y) ensures y in r {
          var z :| z in t && y in Neighbours(g, z) && Differs(g, z, y);
          if z != x {
            assert OnBoundary(g, t[1..], y);
          }
        }
      }
      assert forall y :: y in r ==> y in acc || (InBounds(g, y) && OnBoundary(g, t, y)) by {
        forall y | y in r ensures y in acc || (InBounds(g, y) && OnBoundary(g, t, y)) {
          if y !in acc {
            if y in acc' {
              assert y in Neighbours(g, x) && Differs(g, x, y);
            } else {
              var z :| z in t[1..] && y in Neighbours(g, z) && Differs(g, z, y);
            }
          }
        }
      }
      r
  }

  /** `obtem_adjacentes_diferentes`: the boundary of `t` in reading order. For a
      chain of stones it is its liberties; for an empty region, its bordering stones. */
  function Boundary(g: Board, t: seq<Intersection>): (r: seq<Intersection>)
    requires ValidBoard(g) && forall x :: x in t ==> InBounds(g, x)
    ensures forall y :: y in r ==> InBounds(g, y)
    ensures forall y :: y in r <==> InBounds(g, y) && OnBoundary(g, t, y)
    ensures Ascending(r)
  {
    SortIntersections(CollectBoundary(g, t, []))
  }

  /** `tem_liberdades`: some boundary intersection of the chain through `i` is empty. */
  function HasLiberty(g: Board, i: Intersection): bool
    requires ValidBoard(g) && InBounds(g, i)
  {
    exists y :: y in Boundary(g, Chain(g, i)) && !IsPlayer(Get(g, y))
  }

  /** `y` is one step away from some member of `t`. */
  predicate Touches(t: seq<Intersection>, y: Intersection) {
    exists x :: x in t && Adj(x, y)
  }

  /** Membership in the boundary of a chain, one intersection at a time. */
  lemma ChainBoundaryMember(g: Board, i: Intersection, y: Intersection)
    requires ValidBoard(g) && InBounds(g, i) && InBounds(g, y)
    ensures y in Boundary(g, Chain(g, i)) <==>
      Touches(Chain(g, i), y) &&
      Get(g, y) != Get(g, i) && (IsPlayer(Get(g, i)) ==> !IsPlayer(Get(g, y)))
  {
    var c := Chain(g, i);
    if y in Boundary(g, c) {
      var x :| x in c && y in Neighbours(g, x) && Differs(g, x, y);
    }
    if Touches(c, y) && Get(g, y) != Get(g, i) && (IsPlayer(Get(g, i)) ==> !IsPlayer(Get(g, y))) {
      var x :| x in c && Adj(x, y);
      assert y in Neighbours(g, x) && Differs(g, x, y);
      assert OnBoundary(g, c, y);
    }
  }

  /** The boundary of a group of stones is exactly the set of empty intersections
      next to the group. */
  lemma LibertiesOfGroup(g: Board, i: Intersection, y: Intersection)
    requires ValidBoard(g) && InBounds(g, i) && IsPlayer(Get(g, i))
    ensures y in Boundary(g, Chain(g, i)) <==>
      InBounds(g, y) && Get(g, y) == Neutral && Touches(Chain(g, i), y)
  {
    if InBounds(g, y) {
      ChainBoundaryMember(g, i, y);
      EmptyIsOtherThanPlayer(Get(g, y), Get(g, i));
    } else {
      assert y !in Boundary(g, Chain(g, i));
    }
  }

  /** The boundary of an empty region is exactly the set of stones next to it. */
  lemma BorderOfRegion(g: Board, i: Intersection, y: Intersection)
    requires ValidBoard(g) && InBounds(g, i) && Get(g, i) == Neutral
    ensures y in Boundary(g, Chain(g, i)) <==>
      InBounds(g, y) && IsPlayer(Get(g, y)) && Touches(Chain(g, i), y)
  {
    if InBounds(g, y) {
      ChainBoundaryMember(g, i, y);
      PlayerIsOtherThanEmpty(Get(g, y));
    } else {
      assert y !in Boundary(g, Chain(g, i));
    }
  }

  /** A chain has a liberty exactly when it is a group of stones with an empty
      intersection next to one of its members; an empty region never has one. */
  lemma HasLibertyIff(g: Board, i: Intersection)
    requires ValidBoard(g) && InBounds(g, i)
    ensures HasLiberty(g, i) <==>
      IsPlayer(Get(g, i)) &&
      exists x, y :: x in Chain(g, i) && InBounds(g, y) && Adj(x, y) && Get(g, y) == Neutral
  {
    var c := Chain(g, i);
    if IsPlayer(Get(g, i)) {
      if HasLiberty(g, i) {
        var y :| y in Boundary(g, c) && !IsPlayer(Get(g, y));
        LibertiesOfGroup(g, i, y);
        var x :| x in c && Adj(x, y);
      }
      if exists x, y :: x in c && InBounds(g, y) && Adj(x, y) && Get(g, y) == Neutral {
        var x, y :| x in c && InBounds(g, y) && Adj(x, y) && Get(g, y) == Neutral;
        LibertiesOfGroup(g, i, y);
        assert y in Boundary(g, c);
      }
    } else {
      forall y | y in Boundary(g, c) ensures IsPlayer(Get(g, y)) {
        BorderOfRegion(g, i, y);
      }
    }
  }

  /** Whether the chain through `a` has a liberty depends only on the stones of the
      chain and of its neighbours. */
  lemma LibertyFrame(g: Board, h: Board, a: Intersection)
    requires ValidBoard(g) && ValidBoard(h) && |g| == |h| && InBounds(g, a)
    requires forall x :: x in Chain(g, a) ==> Get(h, x) == Get(g, x)
    requires forall x, y :: x in Chain(g, a) && y in Neighbours(g, x) ==> Get(h, y) == Get(g, y)
    ensures Chain(h, a) == Chain(g, a)
    ensures HasLiberty(h, a) == HasLiberty(g, a)
  {
    ChainFrame(g, h, a);
    var c := Chain(g, a);
    forall y ensures y in Boundary(h, c) <==> y in Boundary(g, c) {
      if InBounds(g, y) {
        forall x | x in c && y in Neighbours(g, x) ensures Differs(h, x, y) == Differs(g, x, y) {
        }
        assert forall x :: x in c ==> Neighbours(g, x) == Neighbours(h, x);
        assert OnBoundary(h, c, y) == OnBoundary(g, c, y);
      }
    }
    AscendingUnique(Boundary(h, c), Boundary(g, c));
    forall y | y in Boundary(g, c) ensures Get(h, y) == Get(g, y) {
      var x :| x in c && y in Neighbours(g, x) && Differs(g, x, y);
    }
  }
}
