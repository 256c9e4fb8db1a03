/** Counting: the stones of each player, the empty regions (territories) of the
    board, and the area score that adds to each player's stones the regions
    bordered only by that player's stones. */
module Scoring {
  import opened Intersections
  import opened Stones
  import opened Sorting
  import opened Goban
  import opened Chains

  // ----- Scanning the board -----

  /** Column `c` from row 1 up to row `n`. */
  function Column(c: int, n: nat): (r: seq<Intersection>)
    ensures forall x :: x in r <==> x.col == c && 1 <= x.row <= n
    ensures Distinct(r)
  {
    var r := seq(n, k requires 0 <= k < n => Intersection(c, k + 1));
    assert forall x: Intersection :: x.col == c && 1 <= x.row <= n ==> x == r[x.row - 1];
    r
  }

  /** The first `c` columns, one after another. */
  function Columns(n: nat, c: nat): (r: seq<Intersection>)
    requires c <= n
    ensures forall x :: x in r <==> 0 <= x.col < c && 1 <= x.row <= n
    ensures Distinct(r)
  {
    if c == 0 then []
    else
      var front := Columns(n, c - 1);
      var last := Column(c - 1, n);
      DistinctConcat(front, last);
      front + last
  }

  /** Every intersection of an n-by-n board, each once. */
  function AllCells(n: nat): (r: seq<Intersection>)
    ensures forall x :: x in r <==> OnBoard(x, n)
    ensures Distinct(r)
  {
    Columns(n, n)
  }

  /** How many members of `cells` hold stone `s`. */
  function CountOf(g: Board, cells: seq<Intersection>, s: Stone): (r: nat)
    requires ValidBoard(g) && forall x :: x in cells ==> InBounds(g, x)
    ensures r <= |cells|
  {
    if |cells| == 0 then 0
    else
      assert forall x :: x in cells[1..] ==> x in cells;
      (if Get(g, cells[0]) == s then 1 else 0) + CountOf(g, cells[1..], s)
  }

  /** The intersections of `cells` holding `s`, as a set. */
  ghost function HoldingAmong(g: Board, cells: seq<Intersection>, s: Stone): set<Intersection>
    requires ValidBoard(g) && forall x :: x in cells ==> InBounds(g, x)
  {
    set x | x in cells && Get(g, x) == s
  }

  /** Without repeats, the count is the size of the set of matching members. */
  lemma {:induction false} CountIsCard(g: Board, cells: seq<Intersection>, s: Stone)
    requires ValidBoard(g) && forall x :: x in cells ==> InBounds(g, x)
    requires Distinct(cells)
    ensures CountOf(g, cells, s) == |HoldingAmong(g, cells, s)|
  {
    if |cells| > 0 {
      var tail := cells[1..];
      assert forall x :: x in tail ==> x in cells;
      DistinctTail(cells);
      CountIsCard(g, tail, s);
      HoldingAmongStep(g, cells, s);
    }
  }

  /** Peeling off the first intersection of `cells` peels it off the matching set. */
  lemma HoldingAmongStep(g: Board, cells: seq<Intersection>, s: Stone)
    requires ValidBoard(g) && (forall x :: x in cells ==> InBounds(g, x)) && |cells| > 0
    ensures forall x :: x in cells[1..] ==> x in cells
    ensures HoldingAmong(g, cells, s) ==
      (if Get(g, cells[0]) == s then {cells[0]} else {}) + HoldingAmong(g, cells[1..], s)
  {
    var tail := cells[1..];
    assert forall x :: x in cells <==> x == cells[0] || x in tail by {
      assert cells == [cells[0]] + tail;
    }
  }

  /** A count reaches the length exactly when every member holds the stone. */
  lemma {:induction false} CountAll(g: Board, cells: seq<Intersection>, s: Stone)
    requires ValidBoard(g) && forall x :: x in cells ==> InBounds(g, x)
    ensures CountOf(g, cells, s) == |cells| <==> forall x :: x in cells ==> Get(g, x) == s
  {
    if |cells| > 0 {
      var tail := cells[1..];
      assert forall x :: x in tail ==> x in cells;
      CountAll(g, tail, s);
      assert forall x :: x in cells <==> x == cells[0] || x in tail by {
        assert cells == [cells[0]] + tail;
      }
    }
  }

  /** Every intersection of the board holding `s`. */
  ghost function Holding(g: Board, s: Stone): set<Intersection>
    requires ValidBoard(g)
  {
    HoldingAmong(g, AllCells(|g|), s)
  }

  /** `obtem_pedras_jogadores`: the numbers of White and of Black stones on the
      board. */
  function StoneCounts(g: Board): (r: (nat, nat))
    requires ValidBoard(g)
    ensures r.0 == |Holding(g, White)| && r.1 == |Holding(g, Black)|
  {
    var cells := AllCells(|g|);
    CountIsCard(g, cells, White);
    CountIsCard(g, cells, Black);
    (CountOf(g, cells, White), CountOf(g, cells, Black))
  }

  // ----- Territories -----

  /** `x` is an empty intersection of the board. */
  predicate EmptyAt(g: Board, x: Intersection) {
    InBounds(g, x) && ValidBoard(g) && Get(g, x) == Neutral
  }

  /** Some recorded region already holds `x`. */
  predicate Claimed(x: Intersection, rs: seq<seq<Intersection>>) {
    exists k | 0 <= k < |rs| :: x in rs[k]
  }

  /** Every recorded region is a non-empty empty-intersection chain given by its
      first member, and two recorded regions never share an intersection. */
  ghost predicate Regions(g: Board, rs: seq<seq<Intersection>>) {
    && ValidBoard(g)
    && (forall k :: 0 <= k < |rs| ==> IsRegion(g, rs[k]))
    && Apart(rs)
  }

  /** A non-empty chain of empty intersections, given by its first member. */
  ghost predicate IsRegion(g: Board, t: seq<Intersection>)
    requires ValidBoard(g)
  {
    |t| > 0 && InBounds(g, t[0]) && Get(g, t[0]) == Neutral && t == Chain(g, t[0])
  }

  /** No intersection lies in two of the sequences. */
  ghost predicate Apart(rs: seq<seq<Intersection>>) {
    forall j, k, x :: 0 <= j < k < |rs| && x in rs[j] ==> x !in rs[k]
  }

  /** Apart, in either order of the indices. */
  lemma ApartAt(rs: seq<seq<Intersection>>, j: int, k: int, x: Intersection)
    requires Apart(rs) && 0 <= j < |rs| && 0 <= k < |rs| && j != k && x in rs[j]
    ensures x !in rs[k]
  {
  }

  /** Non-empty sequences that are apart are pairwise different. */
  lemma ApartDistinct(rs: seq<seq<Intersection>>)
    requires Apart(rs) && forall k :: 0 <= k < |rs| ==> |rs[k]| > 0
    ensures Distinct(rs)
  {
    forall j, k | 0 <= j < k < |rs| ensures rs[j] != rs[k] {
      assert rs[j][0] in rs[j];
    }
  }

  /** Recording the chain of an unclaimed empty intersection keeps the regions
      apart. */
  lemma AddRegion(g: Board, rs: seq<seq<Intersection>>, c: Intersection)
    requires Regions(g, rs) && InBounds(g, c) && Get(g, c) == Neutral && !Claimed(c, rs)
    ensures Regions(g, rs + [Chain(g, c)])
  {
    ChainIsRegion(g, c);
    AppendRegion(g, rs, Chain(g, c));
    NewRegionApart(g, rs, c);
  }

  /** The chain of an empty intersection is a region. */
  lemma ChainIsRegion(g: Board, c: Intersection)
    requires ValidBoard(g) && InBounds(g, c) && Get(g, c) == Neutral
    ensures IsRegion(g, Chain(g, c))
  {
    var t := Chain(g, c);
    SameChain(g, c, t[0]);
  }

  /** Appending a region to a list of regions gives a list of regions. */
  lemma AppendRegion(g: Board, rs: seq<seq<Intersection>>, t: seq<Intersection>)
    requires ValidBoard(g) && (forall k :: 0 <= k < |rs| ==> IsRegion(g, rs[k])) && IsRegion(g, t)
    ensures forall k :: 0 <= k < |rs + [t]| ==> IsRegion(g, (rs + [t])[k])
  {
    var rs' := rs + [t];
    forall k | 0 <= k < |rs'| ensures IsRegion(g, rs'[k]) {
      if k < |rs| {
        assert rs'[k] == rs[k];
      }
    }
  }

  /** The chain of an unclaimed empty intersection shares nothing with the
      recorded regions. */
  lemma NewRegionApart(g: Board, rs: seq<seq<Intersection>>, c: Intersection)
    requires Regions(g, rs) && InBounds(g, c) && !Claimed(c, rs)
    ensures Apart(rs + [Chain(g, c)])
  {
    var t := Chain(g, c);
    forall j, x | 0 <= j < |rs| && x in rs[j] ensures x !in t {
      OutsideNewRegion(g, rs, c, j, x);
    }
    AppendApart(rs, t);
  }

  /** An intersection of a recorded region is not in the chain of an unclaimed one. */
  lemma OutsideNewRegion(g: Board, rs: seq<seq<Intersection>>, c: Intersection, j: int, x: Intersection)
    requires Regions(g, rs) && InBounds(g, c) && !Claimed(c, rs)
    requires 0 <= j < |rs| && x in rs[j]
    ensures x !in Chain(g, c)
  {
    var t := rs[j];
    assert t == Chain(g, t[0]) && InBounds(g, t[0]);
    if x in Chain(g, c) {
      SameChain(g, t[0], x);
      SameChain(g, c, x);
    }
  }

  /** Appending a sequence that shares nothing with the others keeps them apart. */
  lemma AppendApart(rs: seq<seq<Intersection>>, t: seq<Intersection>)
    requires Apart(rs)
    requires forall j, x :: 0 <= j < |rs| && x in rs[j] ==> x !in t
    ensures Apart(rs + [t])
  {
    var rs' := rs + [t];
    forall j, k, x | 0 <= j < k < |rs'| && x in rs'[j] ensures x !in rs'[k] {
      if k == |rs| {
        assert rs'[j] == rs[j] && rs'[k] == t;
      } else {
        assert rs'[j] == rs[j] && rs'[k] == rs[k];
      }
    }
  }

  /** Growing the list of regions never unclaims an intersection. */
  lemma ClaimedPrefix(rs: seq<seq<Intersection>>, r: seq<seq<Intersection>>)
    requires |rs| <= |r| && r[..|rs|] == rs
    ensures forall x :: Claimed(x, rs) ==> Claimed(x, r)
  {
    forall x | Claimed(x, rs) ensures Claimed(x, r) {
      var k :| 0 <= k < |rs| && x in rs[k];
      assert r[k] == rs[k];
    }
  }

  /** The scan of `obtem_territorios`: each empty intersection not yet in a
      recorded region starts a new region, its chain. */
  function ScanRegions(g: Board, cells: seq<Intersection>, rs: seq<seq<Intersection>>): (r: seq<seq<Intersection>>)
    requires Regions(g, rs) && forall x :: x in cells ==> InBounds(g, x)
    ensures Regions(g, r)
    decreases |cells|
  {
    if |cells| == 0 then rs
    else
      var c := cells[0];
      assert forall x :: x in cells[1..] ==> x in cells;
      if !Claimed(c, rs) && !IsPlayer(Get(g, c)) then
        AddRegion(g, rs, c);
        ScanRegions(g, cells[1..], rs + [Chain(g, c)])
      else
        ScanRegions(g, cells[1..], rs)
  }

  /** After the scan, every scanned empty intersection lies in a recorded region. */
  lemma ScanCovers(g: Board, cells: seq<Intersection>, rs: seq<seq<Intersection>>)
    requires Regions(g, rs) && forall x :: x in cells ==> InBounds(g, x)
    ensures forall x :: Claimed(x, rs) ==> Claimed(x, ScanRegions(g, cells, rs))
    ensures forall x :: x in cells && EmptyAt(g, x) ==> Claimed(x, ScanRegions(g, cells, rs))
  {
    ScanKeeps(g, cells, rs);
    ScanClaims(g, cells, rs);
  }

  /** One step of the scan: the regions after the first cell keep what was
      claimed, and claim that cell when it is empty. */
  lemma ScanStep(g: Board, cells: seq<Intersection>, rs: seq<seq<Intersection>>) returns (rs': seq<seq<Intersection>>)
    requires Regions(g, rs) && (forall x :: x in cells ==> InBounds(g, x)) && |cells| > 0
    ensures forall x :: x in cells[1..] ==> x in cells
    ensures Regions(g, rs')
    ensures ScanRegions(g, cells, rs) == ScanRegions(g, cells[1..], rs')
    ensures forall x :: Claimed(x, rs) ==> Claimed(x, rs')
    ensures EmptyAt(g, cells[0]) ==> Claimed(cells[0], rs')
  {
    var c := cells[0];
    assert forall x :: x in cells[1..] ==> x in cells;
    if !Claimed(c, rs) && !IsPlayer(Get(g, c)) {
      AddRegion(g, rs, c);
      rs' := rs + [Chain(g, c)];
      assert c in rs'[|rs|];
      ClaimedPrefix(rs, rs');
    } else {
      rs' := rs;
    }
  }

  /** The scan only ever adds regions, so what was claimed stays claimed. */
  lemma {:induction false} ScanKeeps(g: Board, cells: seq<Intersection>, rs: seq<seq<Intersection>>)
    requires Regions(g, rs) && forall x :: x in cells ==> InBounds(g, x)
    ensures forall x :: Claimed(x, rs) ==> Claimed(x, ScanRegions(g, cells, rs))
    decreases |cells|
  {
    if |cells| > 0 {
      var rs' := ScanStep(g, cells, rs);
      ScanKeeps(g, cells[1..], rs');
    }
  }

  /** Every empty intersection the scan visits ends up claimed. */
  lemma {:induction false} ScanClaims(g: Board, cells: seq<Intersection>, rs: seq<seq<Intersection>>)
    requires Regions(g, rs) && forall x :: x in cells ==> InBounds(g, x)
    ensures forall x :: x in cells && EmptyAt(g, x) ==> Claimed(x, ScanRegions(g, cells, rs))
    decreases |cells|
  {
    if |cells| > 0 {
      var rs' := ScanStep(g, cells, rs);
      var tail := cells[1..];
      ScanKeeps(g, tail, rs');
      ScanClaims(g, tail, rs');
      forall x | x in cells && EmptyAt(g, x) ensures Claimed(x, ScanRegions(g, cells, rs)) {
        if x != cells[0] {
          InTail(cells, x);
        }
      }
    }
  }

  /** The key regions are sorted by: their first intersection. */
  function FirstOf(t: seq<Intersection>): Intersection {
    if |t| > 0 then t[0] else Intersection(0, 0)
  }

  /** Two distinct intersections are ordered one way or the other. */
  lemma BeforeTotal(a: Intersection, b: Intersection)
    requires a != b && !Before(b, a)
    ensures Before(a, b)
  {
  }

  /** Every region after sorting is one recorded before. */
  lemma SortedFrom(rs: seq<seq<Intersection>>, k: int) returns (m: int)
    requires 0 <= k < |SortBy(rs, FirstOf)|
    ensures 0 <= m < |rs| && SortBy(rs, FirstOf)[k] == rs[m]
  {
    var r := SortBy(rs, FirstOf);
    assert r[k] in r;
    m :| 0 <= m < |rs| && r[k] == rs[m];
  }

  /** Sorting keeps each region a non-empty empty-intersection chain. */
  lemma SortedAreChains(g: Board, rs: seq<seq<Intersection>>, r: seq<seq<Intersection>>)
    requires Regions(g, rs)
    requires r == SortBy(rs, FirstOf)
    ensures
      forall k :: 0 <= k < |r| ==>
        |r[k]| > 0 && InBounds(g, r[k][0]) && Get(g, r[k][0]) == Neutral && r[k] == Chain(g, r[k][0])
    ensures forall k, x :: 0 <= k < |r| && x in r[k] ==> InBounds(g, x) && Get(g, x) == Neutral
  {
    forall k | 0 <= k < |r|
      ensures |r[k]| > 0 && InBounds(g, r[k][0]) && Get(g, r[k][0]) == Neutral && r[k] == Chain(g, r[k][0])
    {
      var m := SortedFrom(rs, k);
    }
    forall k, x | 0 <= k < |r| && x in r[k] ensures InBounds(g, x) && Get(g, x) == Neutral {
      assert r[k] == Chain(g, r[k][0]);
    }
  }

  /** Sorting keeps the regions apart. */
  lemma SortedApart(rs: seq<seq<Intersection>>, r: seq<seq<Intersection>>)
    requires Apart(rs) && forall k :: 0 <= k < |rs| ==> |rs[k]| > 0
    requires r == SortBy(rs, FirstOf)
    ensures
      forall j, k, x :: 0 <= j < |r| && 0 <= k < |r| && j != k && x in r[j] ==> x !in r[k]
  {
    ApartDistinct(rs);
    forall j, k, x | 0 <= j < |r| && 0 <= k < |r| && j != k && x in r[j] ensures x !in r[k] {
      var mj := SortedFrom(rs, j);
      var mk := SortedFrom(rs, k);
      assert r[j] != r[k];
      ApartAt(rs, mj, mk, x);
    }
  }

  /** Sorting loses no region. */
  lemma SortedCovers(g: Board, rs: seq<seq<Intersection>>, r: seq<seq<Intersection>>)
    requires ValidBoard(g)
    requires forall x :: EmptyAt(g, x) ==> Claimed(x, rs)
    requires r == SortBy(rs, FirstOf)
    ensures
      forall x :: EmptyAt(g, x) ==> exists k :: 0 <= k < |r| && x in r[k]
  {
    forall x | EmptyAt(g, x) ensures exists k :: 0 <= k < |r| && x in r[k] {
      var m :| 0 <= m < |rs| && x in rs[m];
      assert rs[m] in rs;
      assert rs[m] in r;
      var k :| 0 <= k < |r| && r[k] == rs[m];
      assert x in r[k];
    }
  }

  /** After sorting, first intersections strictly increase in reading order. */
  lemma SortedIncreasing(rs: seq<seq<Intersection>>, r: seq<seq<Intersection>>)
    requires forall k :: 0 <= k < |rs| ==> |rs[k]| > 0
    requires Apart(rs)
    requires r == SortBy(rs, FirstOf)
    ensures forall k :: 0 <= k < |r| ==> |r[k]| > 0
    ensures forall j, k :: 0 <= j < k < |r| ==> Before(r[j][0], r[k][0])
  {
    SortedApart(rs, r);
    forall k | 0 <= k < |r| ensures |r[k]| > 0 {
      var m := SortedFrom(rs, k);
    }
    forall j, k | 0 <= j < k < |r| ensures Before(r[j][0], r[k][0]) {
      assert r[j][0] in r[j] && r[k][0] in r[k];
      assert FirstOf(r[j]) == r[j][0] && FirstOf(r[k]) == r[k][0];
      BeforeTotal(r[j][0], r[k][0]);
    }
  }

  /** `ts` partitions the empty intersections of `g` into its empty regions: each
      member is the chain of its first intersection, which is empty; no member
      holds a stone; every empty intersection lies in some member and in no
      other; and first intersections strictly increase in reading order. */
  ghost predicate EmptyRegions(g: Board, ts: seq<seq<Intersection>>)
    requires ValidBoard(g)
  {
    && (forall k :: 0 <= k < |ts| ==>
          |ts[k]| > 0 && InBounds(g, ts[k][0]) && Get(g, ts[k][0]) == Neutral && ts[k] == Chain(g, ts[k][0]))
    && (forall k, x :: 0 <= k < |ts| && x in ts[k] ==> InBounds(g, x) && Get(g, x) == Neutral)
    && (forall x :: EmptyAt(g, x) ==> exists k :: 0 <= k < |ts| && x in ts[k])
    && (forall j, k, x :: 0 <= j < |ts| && 0 <= k < |ts| && j != k && x in ts[j] ==> x !in ts[k])
    && (forall j, k :: 0 <= j < k < |ts| ==> Before(ts[j][0], ts[k][0]))
  }

  /** The recorded regions of a complete scan, once sorted, are the empty regions. */
  lemma SortedRegions(g: Board, rs: seq<seq<Intersection>>, r: seq<seq<Intersection>>)
    requires Regions(g, rs)
    requires forall x :: EmptyAt(g, x) ==> Claimed(x, rs)
    requires r == SortBy(rs, FirstOf)
    ensures EmptyRegions(g, r)
  {
    SortedAreChains(g, rs, r);
    SortedApart(rs, r);
    SortedCovers(g, rs, r);
    SortedIncreasing(rs, r);
  }

  /** `obtem_territorios`: the empty regions of the board, each in reading order,
      sorted by their first intersection. */
  function Territories(g: Board): (r: seq<seq<Intersection>>)
    requires ValidBoard(g)
    ensures EmptyRegions(g, r)
  {
    var cells := AllCells(|g|);
    var rs := ScanRegions(g, cells, []);
    ScanCovers(g, cells, []);
    assert forall x :: EmptyAt(g, x) ==> Claimed(x, rs) by {
      forall x | EmptyAt(g, x) ensures Claimed(x, rs) {
        assert x in cells && EmptyAt(g, x);
      }
    }
    var r := SortBy(rs, FirstOf);
    SortedRegions(g, rs, r);
    r
  }

  // ----- Area scoring -----

  /** The members of `ns` outside `t` and not yet in `acc`, appended to `acc`. */
  function AddOutside(t: seq<Intersection>, ns: seq<Intersection>, acc: seq<Intersection>): (r: seq<Intersection>)
    requires Distinct(acc)
    ensures forall y :: y in r <==> y in acc || (y in ns && y !in t)
    ensures Distinct(r)
  {
    if |ns| == 0 then acc
    else
      var y := ns[0];
      assert forall z :: z in ns <==> z == y || z in ns[1..] by {
        assert ns == [y] + ns[1..];
      }
      if y !in t && y !in acc then
        DistinctConcat(acc, [y]);
        AddOutside(t, ns[1..], acc + [y])
      else
        AddOutside(t, ns[1..], acc)
  }

  /** The loop of `obtem_adjacentes_cadeia` over the members `rest` of `t`. */
  function FrontierOf(g: Board, t: seq<Intersection>, rest: seq<Intersection>, acc: seq<Intersection>): (r: seq<Intersection>)
    requires ValidBoard(g) && (forall x :: x in rest ==> InBounds(g, x)) && Distinct(acc)
    ensures forall y :: y in r <==> y in acc || (y !in t && exists x :: x in rest && y in Neighbours(g, x))
    ensures Distinct(r)
    decreases |rest|
  {
    if |rest| == 0 then acc
    else
      var x := rest[0];
      assert forall z :: z in rest <==> z == x || z in rest[1..] by {
        assert rest == [x] + rest[1..];
      }
      FrontierOf(g, t, rest[1..], AddOutside(t, Neighbours(g, x), acc))
  }

  /** `obtem_adjacentes_cadeia`: every intersection next to a member of `t` and
      outside `t`, each once. */
  function Frontier(g: Board, t: seq<Intersection>): (r: seq<Intersection>)
    requires ValidBoard(g) && forall x :: x in t ==> InBounds(g, x)
    ensures forall y :: y in r <==> y !in t && exists x :: x in t && y in Neighbours(g, x)
    ensures forall y :: y in r ==> InBounds(g, y)
    ensures Distinct(r)
  {
    FrontierOf(g, t, t, [])
  }

  /** Who a region counts for in `calcula_pontos`: White when every frontier
      intersection holds White, otherwise Black when every one holds Black,
      otherwise nobody. */
  function Owner(g: Board, t: seq<Intersection>): Stone
    requires ValidBoard(g) && forall x :: x in t ==> InBounds(g, x)
  {
    var f := Frontier(g, t);
    if CountOf(g, f, White) == |f| then White
    else if CountOf(g, f, Black) == |f| then Black
    else Neutral
  }

  /** A region without frontier counts for White, since no frontier intersection
      fails the White test. Among empty regions, only the one covering the all-empty
      board has no frontier, and the score sets that board aside first. */
  lemma OwnerOfNoFrontier(g: Board, t: seq<Intersection>)
    requires ValidBoard(g) && (forall x :: x in t ==> InBounds(g, x))
    requires |Frontier(g, t)| == 0
    ensures Owner(g, t) == White
  {
  }

  /** The territory loop of `calcula_pontos`: the sizes of the regions counting
      for White and for Black. */
  function Areas(g: Board, ts: seq<seq<Intersection>>): (nat, nat)
    requires ValidBoard(g) && forall t, x :: t in ts && x in t ==> InBounds(g, x)
  {
    if |ts| == 0 then (0, 0)
    else
      assert forall t :: t in ts[1..] ==> t in ts;
      var rest := Areas(g, ts[1..]);
      var owner := Owner(g, ts[0]);
      (rest.0 + (if owner == White then |ts[0]| else 0),
       rest.1 + (if owner == Black then |ts[0]| else 0))
  }

  /** `calcula_pontos`: each player's stones plus the regions counting for the
      player; the all-empty board scores nothing. */
  function Score(g: Board): (nat, nat)
    requires ValidBoard(g)
  {
    var stones := StoneCounts(g);
    if g == Blank(|g|) then (0, 0)
    else
      var areas := TerritoryAreas(g);
      (stones.0 + areas.0, stones.1 + areas.1)
  }

  /** The territory loop of `calcula_pontos` over the board's own territories. */
  function TerritoryAreas(g: Board): (nat, nat)
    requires ValidBoard(g)
  {
    var ts := Territories(g);
    RegionsOnBoard(g, ts);
    Areas(g, ts)
  }

  // ----- What the score counts -----

  /** `x` is empty and its empty region borders at least one stone, all of them
      `p`'s. */
  ghost predicate SurroundedBy(g: Board, x: Intersection, p: Stone)
    requires ValidBoard(g) && InBounds(g, x)
  {
    && Get(g, x) == Neutral
    && (exists c, y :: c in Chain(g, x) && InBounds(g, y) && Adj(c, y) && IsPlayer(Get(g, y)))
    && (forall c, y :: c in Chain(g, x) && InBounds(g, y) && Adj(c, y) && IsPlayer(Get(g, y)) ==> Get(g, y) == p)
  }

  /** Every empty intersection whose region is bordered only by `p`'s stones. */
  ghost function Surrounded(g: Board, p: Stone): set<Intersection>
    requires ValidBoard(g)
  {
    set x | x in AllCells(|g|) && SurroundedBy(g, x, p)
  }

  /** Membership in what `p` surrounds, intersection by intersection. */
  lemma SurroundedMember(g: Board, p: Stone, x: Intersection)
    requires ValidBoard(g)
    ensures x in Surrounded(g, p) <==> InBounds(g, x) && SurroundedBy(g, x, p)
  {
    if InBounds(g, x) {
      assert x in AllCells(|g|);
    }
  }

  /** A board other than the empty one holds a stone somewhere. */
  lemma StoneSomewhere(g: Board)
    requires ValidBoard(g) && g != Blank(|g|)
    ensures exists b :: InBounds(g, b) && IsPlayer(Get(g, b))
  {
    if forall c :: InBounds(g, c) ==> Get(g, c) == Neutral {
      SameCellsSameBoard(g, Blank(|g|));
    }
  }

  /** Taxicab distance between two intersections. */
  function Distance(a: Intersection, b: Intersection): nat {
    (if a.col < b.col then b.col - a.col else a.col - b.col)
    + (if a.row < b.row then b.row - a.row else a.row - b.row)
  }

  /** Walking from inside `t` to an intersection outside it, some step leaves `t`:
      the board grid is connected. */
  lemma {:induction false} ExitRegion(g: Board, t: seq<Intersection>, a: Intersection, b: Intersection)
    requires ValidBoard(g) && a in t && InBounds(g, a) && InBounds(g, b) && b !in t
    ensures exists c, d :: c in t && InBounds(g, d) && d !in t && Adj(c, d)
    decreases Distance(a, b)
  {
    var next :=
      if a.col < b.col then Intersection(a.col + 1, a.row)
      else if a.col > b.col then Intersection(a.col - 1, a.row)
      else if a.row < b.row then Intersection(a.col, a.row + 1)
      else Intersection(a.col, a.row - 1);
    assert Adj(a, next) && InBounds(g, next);
    if next in t {
      ExitRegion(g, t, next, b);
    } else {
      assert a in t && InBounds(g, next) && next !in t && Adj(a, next);
    }
  }

  /** On a board holding a stone, every empty region borders a stone. */
  lemma RegionTouchesStone(g: Board, x: Intersection, b: Intersection)
    requires ValidBoard(g) && InBounds(g, x) && Get(g, x) == Neutral
    requires InBounds(g, b) && IsPlayer(Get(g, b))
    ensures exists c, y :: c in Chain(g, x) && InBounds(g, y) && Adj(c, y) && IsPlayer(Get(g, y))
  {
    var t := Chain(g, x);
    assert b !in t;
    ExitRegion(g, t, x, b);
    var c, d :| c in t && InBounds(g, d) && d !in t && Adj(c, d);
    assert d in Neighbours(g, c);
  }

  /** The frontier of an empty region is exactly the set of stones next to it,
      one intersection at a time. */
  lemma FrontierMember(g: Board, x: Intersection, y: Intersection)
    requires ValidBoard(g) && InBounds(g, x) && Get(g, x) == Neutral
    ensures y in Frontier(g, Chain(g, x)) <==>
      InBounds(g, y) && IsPlayer(Get(g, y)) && exists c :: c in Chain(g, x) && Adj(c, y)
  {
    if y in Frontier(g, Chain(g, x)) {
      FrontierIsStone(g, x, y);
    }
    if InBounds(g, y) && IsPlayer(Get(g, y)) && exists c :: c in Chain(g, x) && Adj(c, y) {
      var c :| c in Chain(g, x) && Adj(c, y);
      StoneIsFrontier(g, x, y, c);
    }
  }

  /** A frontier intersection of an empty region is a stone next to the region. */
  lemma FrontierIsStone(g: Board, x: Intersection, y: Intersection)
    requires ValidBoard(g) && InBounds(g, x) && Get(g, x) == Neutral
    requires y in Frontier(g, Chain(g, x))
    ensures InBounds(g, y) && IsPlayer(Get(g, y)) && exists c :: c in Chain(g, x) && Adj(c, y)
  {
    var t := Chain(g, x);
    var c :| c in t && y in Neighbours(g, c);
    assert InBounds(g, y) && Adj(c, y);
    assert Get(g, y) != Neutral;
    PlayerIsOtherThanEmpty(Get(g, y));
  }

  /** A stone next to a member of an empty region is on its frontier. */
  lemma StoneIsFrontier(g: Board, x: Intersection, y: Intersection, c: Intersection)
    requires ValidBoard(g) && InBounds(g, x) && Get(g, x) == Neutral
    requires InBounds(g, y) && IsPlayer(Get(g, y)) && c in Chain(g, x) && Adj(c, y)
    ensures y in Frontier(g, Chain(g, x))
  {
    var t := Chain(g, x);
    assert y in Neighbours(g, c) && y !in t;
  }

  /** Being surrounded by `p`, read off the frontier: the frontier is non-empty
      and all `p`'s. */
  lemma SurroundedByFrontier(g: Board, x: Intersection, p: Stone)
    requires ValidBoard(g) && InBounds(g, x) && Get(g, x) == Neutral
    ensures SurroundedBy(g, x, p) <==>
      |Frontier(g, Chain(g, x))| > 0 && forall z :: z in Frontier(g, Chain(g, x)) ==> Get(g, z) == p
  {
    if SurroundedBy(g, x, p) {
      SurroundedFrontier(g, x, p);
    }
    var f := Frontier(g, Chain(g, x));
    if |f| > 0 && forall z :: z in f ==> Get(g, z) == p {
      FrontierSurrounded(g, x, p);
    }
  }

  /** A region surrounded by `p` has a non-empty frontier held entirely by `p`. */
  lemma SurroundedFrontier(g: Board, x: Intersection, p: Stone)
    requires ValidBoard(g) && InBounds(g, x) && SurroundedBy(g, x, p)
    ensures |Frontier(g, Chain(g, x))| > 0
    ensures forall z :: z in Frontier(g, Chain(g, x)) ==> Get(g, z) == p
  {
    var t := Chain(g, x);
    var f := Frontier(g, t);
    var c, y :| c in t && InBounds(g, y) && Adj(c, y) && IsPlayer(Get(g, y));
    FrontierMember(g, x, y);
    assert y in f;
    forall z | z in f ensures Get(g, z) == p {
      FrontierMember(g, x, z);
      var c' :| c' in t && Adj(c', z);
    }
  }

  /** A non-empty frontier held entirely by `p` makes the region surrounded by `p`. */
  lemma FrontierSurrounded(g: Board, x: Intersection, p: Stone)
    requires ValidBoard(g) && InBounds(g, x) && Get(g, x) == Neutral
    requires |Frontier(g, Chain(g, x))| > 0
    requires forall z :: z in Frontier(g, Chain(g, x)) ==> Get(g, z) == p
    ensures SurroundedBy(g, x, p)
  {
    var t := Chain(g, x);
    var f := Frontier(g, t);
    assert f[0] in f;
    FrontierMember(g, x, f[0]);
    forall c, y | c in t && InBounds(g, y) && Adj(c, y) && IsPlayer(Get(g, y)) ensures Get(g, y) == p {
      FrontierMember(g, x, y);
    }
  }

  /** On a board holding a stone, a region counts for `p` exactly when it is
      surrounded by `p`. */
  lemma OwnerMeaning(g: Board, x: Intersection, b: Intersection, p: Stone)
    requires ValidBoard(g) && InBounds(g, x) && Get(g, x) == Neutral
    requires InBounds(g, b) && IsPlayer(Get(g, b)) && IsPlayer(p)
    ensures Owner(g, Chain(g, x)) == p <==> SurroundedBy(g, x, p)
  {
    var t := Chain(g, x);
    RegionTouchesStone(g, x, b);
    var c, y :| c in t && InBounds(g, y) && Adj(c, y) && IsPlayer(Get(g, y));
    FrontierMember(g, x, y);
    assert y in Frontier(g, t);
    OwnerOfFrontier(g, t, p);
    SurroundedByFrontier(g, x, p);
  }

  /** A region with a non-empty frontier counts for a player exactly when its
      whole frontier is that player's. */
  lemma OwnerOfFrontier(g: Board, t: seq<Intersection>, p: Stone)
    requires ValidBoard(g) && (forall x :: x in t ==> InBounds(g, x)) && IsPlayer(p)
    requires |Frontier(g, t)| > 0
    ensures Owner(g, t) == p <==> forall z :: z in Frontier(g, t) ==> Get(g, z) == p
  {
    var f := Frontier(g, t);
    CountAll(g, f, White);
    CountAll(g, f, Black);
    assert f[0] in f;
  }

  /** Every member of every region of a list of empty regions is on the board. */
  lemma RegionsOnBoard(g: Board, ts: seq<seq<Intersection>>)
    requires ValidBoard(g) && EmptyRegions(g, ts)
    ensures forall t, x :: t in ts && x in t ==> InBounds(g, x)
  {
    forall t, x | t in ts && x in t ensures InBounds(g, x) {
      var k :| 0 <= k < |ts| && ts[k] == t;
    }
  }

  // ----- The score, stated cell by cell -----

  /** The intersections of the regions in `ts` that count for `p`. */
  ghost function Owned(g: Board, ts: seq<seq<Intersection>>, p: Stone): set<Intersection>
    requires ValidBoard(g) && forall t, x :: t in ts && x in t ==> InBounds(g, x)
  {
    if |ts| == 0 then {}
    else
      assert forall t :: t in ts[1..] ==> t in ts;
      (if Owner(g, ts[0]) == p then set x | x in ts[0] else {}) + Owned(g, ts[1..], p)
  }

  /** Membership in what `p` owns: lying in some region that counts for `p`. */
  lemma {:induction false} OwnedHas(g: Board, ts: seq<seq<Intersection>>, p: Stone, x: Intersection)
    requires ValidBoard(g) && forall t, y :: t in ts && y in t ==> InBounds(g, y)
    ensures x in Owned(g, ts, p) <==> exists t :: t in ts && x in t && Owner(g, t) == p
  {
    if |ts| > 0 {
      var tail := ts[1..];
      assert forall t :: t in ts <==> t == ts[0] || t in tail by {
        assert ts == [ts[0]] + tail;
      }
      OwnedHas(g, tail, p, x);
    }
  }

  /** The same membership, by position in the list. */
  lemma OwnedMember(g: Board, ts: seq<seq<Intersection>>, p: Stone, x: Intersection)
    requires ValidBoard(g) && forall t, y :: t in ts && y in t ==> InBounds(g, y)
    ensures x in Owned(g, ts, p) <==> exists k :: 0 <= k < |ts| && x in ts[k] && Owner(g, ts[k]) == p
  {
    OwnedHas(g, ts, p, x);
    if x in Owned(g, ts, p) {
      var t :| t in ts && x in t && Owner(g, t) == p;
      var k :| 0 <= k < |ts| && ts[k] == t;
    }
  }

  /** A sequence without repeats has as many elements as its set. */
  lemma {:induction false} DistinctCard<T>(t: seq<T>)
    requires Distinct(t)
    ensures |set x | x in t| == |t|
  {
    if |t| > 0 {
      var tail := t[1..];
      DistinctTail(t);
      DistinctCard(tail);
      assert (set x | x in t) == (set x | x in tail) + {t[0]} by {
        assert t == [t[0]] + tail;
      }
    }
  }

  /** The later regions stay separate, on the board and free of repeats. */
  lemma ApartTail(ts: seq<seq<Intersection>>)
    requires Apart(ts) && |ts| > 0
    ensures Apart(ts[1..])
    ensures forall t :: t in ts[1..] ==> t in ts
    ensures (forall k :: 0 <= k < |ts| ==> Distinct(ts[k])) ==>
      forall k :: 0 <= k < |ts[1..]| ==> Distinct(ts[1..][k])
  {
    var tail := ts[1..];
    assert forall t :: t in tail ==> t in ts;
    assert forall k :: 0 <= k < |tail| ==> tail[k] == ts[k + 1];
    forall j, k, x | 0 <= j < k < |tail| && x in tail[j] ensures x !in tail[k] {
      assert tail[j] == ts[j + 1] && tail[k] == ts[k + 1];
    }
  }

  /** Peeling off the first region removes its size from what `p` owns when it
      counts for `p`, and nothing otherwise. */
  lemma OwnedStep(g: Board, ts: seq<seq<Intersection>>, p: Stone)
    requires ValidBoard(g) && forall t, x :: t in ts && x in t ==> InBounds(g, x)
    requires |ts| > 0 && Distinct(ts[0]) && Apart(ts)
    ensures forall t :: t in ts[1..] ==> t in ts
    ensures |Owned(g, ts, p)| == |Owned(g, ts[1..], p)| + (if Owner(g, ts[0]) == p then |ts[0]| else 0)
  {
    HeadApart(g, ts, p);
    DistinctCard(ts[0]);
  }

  /** The territory loop adds up the sizes of the regions counting for each
      player, which, for separate regions without repeats, is the number of
      intersections they cover. */
  lemma {:induction false} AreasCount(g: Board, ts: seq<seq<Intersection>>)
    requires ValidBoard(g) && forall t, x :: t in ts && x in t ==> InBounds(g, x)
    requires forall k :: 0 <= k < |ts| ==> Distinct(ts[k])
    requires Apart(ts)
    ensures Areas(g, ts).0 == |Owned(g, ts, White)|
    ensures Areas(g, ts).1 == |Owned(g, ts, Black)|
  {
    if |ts| > 0 {
      var tail := ts[1..];
      ApartTail(ts);
      AreasCount(g, tail);
      OwnedStep(g, ts, White);
      OwnedStep(g, ts, Black);
    }
  }

  /** The first region shares nothing with what the later ones cover. */
  lemma HeadApart(g: Board, ts: seq<seq<Intersection>>, p: Stone)
    requires ValidBoard(g) && forall t, x :: t in ts && x in t ==> InBounds(g, x)
    requires Apart(ts) && |ts| > 0
    ensures forall t :: t in ts[1..] ==> t in ts
    ensures (set x | x in ts[0]) !! Owned(g, ts[1..], p)
  {
    var tail := ts[1..];
    assert forall t :: t in tail ==> t in ts;
    forall x | x in ts[0] ensures x !in Owned(g, tail, p) {
      OwnedMember(g, tail, p, x);
      forall k | 0 <= k < |tail| ensures x !in tail[k] {
        assert tail[k] == ts[k + 1];
      }
    }
  }

  /** On a board holding a stone, the regions of `ts` counting for `p` cover
      exactly the intersections surrounded by `p`. */
  lemma OwnedIsSurrounded(g: Board, ts: seq<seq<Intersection>>, p: Stone, b: Intersection)
    requires ValidBoard(g) && EmptyRegions(g, ts) && forall t, x :: t in ts && x in t ==> InBounds(g, x)
    requires InBounds(g, b) && IsPlayer(Get(g, b)) && IsPlayer(p)
    ensures Owned(g, ts, p) == Surrounded(g, p)
  {
    forall x ensures x in Owned(g, ts, p) <==> x in Surrounded(g, p) {
      OwnedSurroundedAt(g, ts, p, b, x);
    }
  }

  /** One intersection is owned by `p` exactly when it is surrounded by `p`. */
  lemma OwnedSurroundedAt(g: Board, ts: seq<seq<Intersection>>, p: Stone, b: Intersection, x: Intersection)
    requires ValidBoard(g) && EmptyRegions(g, ts) && forall t, y :: t in ts && y in t ==> InBounds(g, y)
    requires InBounds(g, b) && IsPlayer(Get(g, b)) && IsPlayer(p)
    ensures x in Owned(g, ts, p) <==> x in Surrounded(g, p)
  {
    if x in Owned(g, ts, p) {
      OwnedSurrounds(g, ts, p, b, x);
    }
    if x in Surrounded(g, p) {
      SurroundedOwned(g, ts, p, b, x);
      OwnedMember(g, ts, p, x);
    }
  }

  /** An intersection of a region of the list counting for `p` is surrounded by `p`. */
  lemma OwnedSurrounds(g: Board, ts: seq<seq<Intersection>>, p: Stone, b: Intersection, x: Intersection)
    requires ValidBoard(g) && EmptyRegions(g, ts) && forall t, y :: t in ts && y in t ==> InBounds(g, y)
    requires InBounds(g, b) && IsPlayer(Get(g, b)) && IsPlayer(p)
    requires x in Owned(g, ts, p)
    ensures x in Surrounded(g, p)
  {
    OwnedMember(g, ts, p, x);
    var k :| 0 <= k < |ts| && x in ts[k] && Owner(g, ts[k]) == p;
    RegionOwner(g, ts, k, x, b, p);
    SurroundedMember(g, p, x);
  }

  /** An intersection surrounded by `p` lies in a region of the list counting for `p`. */
  lemma SurroundedOwned(g: Board, ts: seq<seq<Intersection>>, p: Stone, b: Intersection, x: Intersection)
    requires ValidBoard(g) && EmptyRegions(g, ts) && forall t, y :: t in ts && y in t ==> InBounds(g, y)
    requires InBounds(g, b) && IsPlayer(Get(g, b)) && IsPlayer(p)
    requires x in Surrounded(g, p)
    ensures exists k :: 0 <= k < |ts| && x in ts[k] && Owner(g, ts[k]) == p
  {
    assert EmptyAt(g, x);
    var k :| 0 <= k < |ts| && x in ts[k];
    RegionOwner(g, ts, k, x, b, p);
  }

  /** A region of the list counts for `p` exactly when each of its members is
      surrounded by `p`. */
  lemma RegionOwner(g: Board, ts: seq<seq<Intersection>>, k: int, x: Intersection, b: Intersection, p: Stone)
    requires ValidBoard(g) && EmptyRegions(g, ts) && forall t, y :: t in ts && y in t ==> InBounds(g, y)
    requires 0 <= k < |ts| && x in ts[k]
    requires InBounds(g, b) && IsPlayer(Get(g, b)) && IsPlayer(p)
    ensures InBounds(g, x) && (Owner(g, ts[k]) == p <==> SurroundedBy(g, x, p))
  {
    var t := ts[k];
    assert t == Chain(g, t[0]) && InBounds(g, t[0]);
    SameChain(g, t[0], x);
    OwnerMeaning(g, x, b, p);
  }

  /** `calcula_pontos`, cell by cell: the empty board scores (0, 0); on any other
      board each player scores its stones plus the empty intersections whose
      region is bordered only by its stones. A region touching both colours
      counts for nobody. */
  lemma ScoreIsArea(g: Board)
    requires ValidBoard(g)
    ensures (forall c :: InBounds(g, c) ==> Get(g, c) == Neutral) ==> Score(g) == (0, 0)
    ensures (exists c :: InBounds(g, c) && IsPlayer(Get(g, c))) ==>
      && Score(g).0 == |Holding(g, White)| + |Surrounded(g, White)|
      && Score(g).1 == |Holding(g, Black)| + |Surrounded(g, Black)|
  {
    if forall c :: InBounds(g, c) ==> Get(g, c) == Neutral {
      SameCellsSameBoard(g, Blank(|g|));
    }
    if exists c :: InBounds(g, c) && IsPlayer(Get(g, c)) {
      var b :| InBounds(g, b) && IsPlayer(Get(g, b));
      ScoreWithStone(g, b);
    }
  }

  /** The score of a board holding the stone at `b`, cell by cell. */
  lemma ScoreWithStone(g: Board, b: Intersection)
    requires ValidBoard(g) && InBounds(g, b) && IsPlayer(Get(g, b))
    ensures Score(g).0 == |Holding(g, White)| + |Surrounded(g, White)|
    ensures Score(g).1 == |Holding(g, Black)| + |Surrounded(g, Black)|
  {
    assert g != Blank(|g|);
    var ts := Territories(g);
    var areas := AreasOfTerritories(g, b);
    ScoreParts(g, ts);
  }

  /** Away from the empty board, the score adds the stone counts and the areas. */
  lemma ScoreParts(g: Board, ts: seq<seq<Intersection>>)
    requires ValidBoard(g) && g != Blank(|g|)
    requires ts == Territories(g)
    requires forall t, x :: t in ts && x in t ==> InBounds(g, x)
    ensures Score(g).0 == StoneCounts(g).0 + Areas(g, ts).0
    ensures Score(g).1 == StoneCounts(g).1 + Areas(g, ts).1
  {
  }

  /** On a board holding a stone, the territory loop counts the surrounded
      intersections of each player. */
  lemma AreasOfTerritories(g: Board, b: Intersection) returns (areas: (nat, nat))
    requires ValidBoard(g) && InBounds(g, b) && IsPlayer(Get(g, b))
    ensures forall t, x :: t in Territories(g) && x in t ==> InBounds(g, x)
    ensures areas == Areas(g, Territories(g))
    ensures areas == (|Surrounded(g, White)|, |Surrounded(g, Black)|)
  {
    var ts := Territories(g);
    RegionsOnBoard(g, ts);
    assert forall k :: 0 <= k < |ts| ==> Distinct(ts[k]) by {
      forall k | 0 <= k < |ts| ensures Distinct(ts[k]) {
        ChainDistinct(g, ts[k][0]);
      }
    }
    AreasCount(g, ts);
    OwnedIsSurrounded(g, ts, White, b);
    OwnedIsSurrounded(g, ts, Black, b);
    areas := Areas(g, ts);
  }

  /** A chain lists no intersection twice. */
  lemma ChainDistinct(g: Board, i: Intersection)
    requires ValidBoard(g) && InBounds(g, i)
    ensures Distinct(Chain(g, i))
  {
    var c := Chain(g, i);
    forall j, k | 0 <= j < k < |c| ensures c[j] != c[k] {
      AscendingIsDistinct(c, j, k);
    }
  }
}
