/** The board ("goban"): a list of columns, each a list of stones, indexed
    `g[col][row - 1]`. */
module Goban {
  import opened Errors
  import opened Intersections
  import opened Stones
  import opened Sorting

  type Board = seq<seq<Stone>>

  /** The board sizes the engine accepts. */
  predicate ValidSize(n: int) {
    n == 9 || n == 13 || n == 19
  }

  /** A square board of an accepted size. */
  predicate ValidBoard(g: Board) {
    ValidSize(|g|) && forall c :: 0 <= c < |g| ==> |g[c]| == |g|
  }

  /** `eh_intersecao_valida`: both coordinates fall inside the board. */
  predicate InBounds(g: Board, i: Intersection) {
    OnBoard(i, |g|)
  }

  /** `obtem_ultima_intersecao`: the top-right corner. */
  function LastIntersection(g: Board): (r: Intersection)
    requires ValidBoard(g)
    ensures IsCorner(r) && InBounds(g, r)
    ensures forall i :: InBounds(g, i) ==> i.col <= r.col && i.row <= r.row
  {
    Intersection(|g| - 1, |g|)
  }

  /** `eh_intersecao_valida` as the source computes it: the board's size is read
      off the row of its last intersection, and both the column (counted from 1)
      and the row must lie between 1 and that size. */
  lemma InBoundsLast(g: Board, i: Intersection)
    requires ValidBoard(g)
    ensures InBounds(g, i) <==>
      1 <= i.col + 1 <= LastIntersection(g).row && 1 <= i.row <= LastIntersection(g).row
  {
  }

  /** `obtem_pedra`: the stone at an intersection of the board. */
  function Get(g: Board, i: Intersection): Stone
    requires ValidBoard(g) && InBounds(g, i)
  {
    g[i.col][i.row - 1]
  }

  /** The neighbours of an intersection on this board. */
  function Neighbours(g: Board, i: Intersection): (r: seq<Intersection>)
    requires ValidBoard(g) && InBounds(g, i)
    ensures forall y :: y in r <==> InBounds(g, y) && Adj(i, y)
    ensures Ascending(r)
  {
    Adjacent(i, LastIntersection(g))
  }

  /** `coloca_pedra`: the board with `s` at `i` and every other cell unchanged. */
  function Place(g: Board, i: Intersection, s: Stone): (r: Board)
    requires ValidBoard(g) && InBounds(g, i)
    ensures ValidBoard(r) && |r| == |g|
    ensures Get(r, i) == s
    ensures forall c :: InBounds(g, c) && c != i ==> Get(r, c) == Get(g, c)
  {
    g[i.col := g[i.col][i.row - 1 := s]]
  }

  /** `remove_pedra`: the board with `i` emptied. */
  function Clear(g: Board, i: Intersection): (r: Board)
    requires ValidBoard(g) && InBounds(g, i)
    ensures ValidBoard(r) && |r| == |g|
    ensures Get(r, i) == Neutral
    ensures forall c :: InBounds(g, c) && c != i ==> Get(r, c) == Get(g, c)
  {
    Place(g, i, Neutral)
  }

  /** `remove_cadeia`: the board with every intersection of `t` emptied. */
  function ClearAll(g: Board, t: seq<Intersection>): (r: Board)
    requires ValidBoard(g) && forall x :: x in t ==> InBounds(g, x)
    ensures ValidBoard(r) && |r| == |g|
    ensures forall c :: InBounds(g, c) ==> Get(r, c) == if c in t then Neutral else Get(g, c)
    decreases |t|
  {
    if |t| == 0 then g
    else
      var g' := Clear(g, t[0]);
      assert forall x :: x in t[1..] ==> InBounds(g', x) by {
        forall x | x in t[1..] ensures InBounds(g', x) { assert x in t; }
      }
      ClearAll(g', t[1..])
  }

  /** Puts stone `s` on every intersection of `t`. */
  function PlaceAll(g: Board, t: seq<Intersection>, s: Stone): (r: Board)
    requires ValidBoard(g) && forall x :: x in t ==> InBounds(g, x)
    ensures ValidBoard(r) && |r| == |g|
    ensures forall c :: InBounds(g, c) ==> Get(r, c) == if c in t then s else Get(g, c)
    decreases |t|
  {
    if |t| == 0 then g
    else
      var g' := Place(g, t[0], s);
      assert forall x :: x in t[1..] ==> InBounds(g', x) by {
        forall x | x in t[1..] ensures InBounds(g', x) { assert x in t; }
      }
      PlaceAll(g', t[1..], s)
  }

  /** The all-empty n-by-n board. */
  function Blank(n: nat): Board {
    seq(n, _ => seq(n, _ => Neutral))
  }

  /** `cria_goban_vazio`: an empty board of one of the accepted sizes. */
  function EmptyBoard(n: int): (r: Result<Board>)
    ensures r.Ok? <==> ValidSize(n)
    ensures r.Err? ==> r.error == InvalidBoardSize
    ensures r.Ok? ==> ValidBoard(r.value) && |r.value| == n
    ensures r.Ok? ==> forall c :: InBounds(r.value, c) ==> Get(r.value, c) == Neutral
  {
    if !ValidSize(n) then Err(InvalidBoardSize) else Ok(Blank(n))
  }

  /** Some intersection appears in both sequences. */
  function Shared(a: seq<Intersection>, b: seq<Intersection>): (r: bool)
    ensures r <==> exists x :: x in a && x in b
  {
    if |a| == 0 then false
    else if a[0] in b then true
    else
      assert forall x :: x in a <==> x == a[0] || x in a[1..] by {
        assert a == [a[0]] + a[1..];
      }
      Shared(a[1..], b)
  }

  /** Some intersection appears twice, as found by comparing every pair of positions. */
  function Repeats(s: seq<Intersection>): (r: bool)
    ensures r <==> !Distinct(s)
  {
    if |s| == 0 then false
    else if s[0] in s[1..] then
      var k :| 0 <= k < |s[1..]| && s[1..][k] == s[0];
      assert s[0] == s[k + 1];
      true
    else
      var rest := Repeats(s[1..]);
      assert !Distinct(s[1..]) ==> !Distinct(s) by {
        if !Distinct(s[1..]) {
          var j, k :| 0 <= j < k < |s[1..]| && s[1..][j] == s[1..][k];
          assert s[j + 1] == s[k + 1];
        }
      }
      assert Distinct(s[1..]) ==> Distinct(s) by {
        if Distinct(s[1..]) {
          forall j, k | 0 <= j < k < |s| ensures s[j] != s[k] {
            if j == 0 {
              assert s[k] == s[1..][k - 1];
            } else {
              assert s[j] == s[1..][j - 1] && s[k] == s[1..][k - 1];
            }
          }
        }
      }
      rest
  }

  /** `cria_goban`: an n-by-n board with White stones on `ib` and Black stones on
      `ip`. It fails on a bad size, on an intersection listed for both players,
      on an intersection outside the board and on a repeated intersection. */
  function BuildBoard(n: int, ib: seq<Intersection>, ip: seq<Intersection>): (r: Result<Board>)
    ensures r.Err? <==>
      || !ValidSize(n)
      || (exists x :: x in ib && x in ip)
      || (exists x :: x in ib && !OnBoard(x, n))
      || (exists x :: x in ip && !OnBoard(x, n))
      || !Distinct(ib)
      || !Distinct(ip)
    ensures r.Err? ==> r.error == InvalidGobanConstruction
    ensures r.Ok? ==> ValidBoard(r.value) && |r.value| == n
    ensures r.Ok? ==> forall c :: InBounds(r.value, c) ==>
      Get(r.value, c) == if c in ib then White else if c in ip then Black else Neutral
  {
    if !ValidSize(n) || Shared(ib, ip) then Err(InvalidGobanConstruction)
    else if (exists x :: x in ib && !OnBoard(x, n)) || Repeats(ib) then Err(InvalidGobanConstruction)
    else if (exists x :: x in ip && !OnBoard(x, n)) || Repeats(ip) then Err(InvalidGobanConstruction)
    else Ok(Populate(n, ib, ip))
  }

  /** The n-by-n board holding White on `ib`, Black on `ip` and nothing elsewhere. */
  function Populate(n: int, ib: seq<Intersection>, ip: seq<Intersection>): (r: Board)
    requires ValidSize(n) && forall x :: x in ib ==> x !in ip
    requires (forall x :: x in ib ==> OnBoard(x, n)) && (forall x :: x in ip ==> OnBoard(x, n))
    ensures ValidBoard(r) && |r| == n
    ensures forall c :: InBounds(r, c) ==>
      Get(r, c) == if c in ib then White else if c in ip then Black else Neutral
  {
    var w := PlaceAll(Blank(n), ib, White);
    var r := PlaceAll(w, ip, Black);
    forall c | InBounds(r, c)
      ensures Get(r, c) == if c in ib then White else if c in ip then Black else Neutral
    {
      PopulateCell(n, ib, ip, c);
    }
    r
  }

  /** One intersection of the populated board. */
  lemma PopulateCell(n: int, ib: seq<Intersection>, ip: seq<Intersection>, c: Intersection)
    requires ValidSize(n) && forall x :: x in ib ==> x !in ip
    requires (forall x :: x in ib ==> OnBoard(x, n)) && (forall x :: x in ip ==> OnBoard(x, n))
    requires OnBoard(c, n)
    ensures ValidBoard(PlaceAll(Blank(n), ib, White))
    ensures forall x :: x in ip ==> InBounds(PlaceAll(Blank(n), ib, White), x)
    ensures Get(PlaceAll(PlaceAll(Blank(n), ib, White), ip, Black), c) ==
      if c in ib then White else if c in ip then Black else Neutral
  {
    var blank := Blank(n);
    assert InBounds(blank, c) && Get(blank, c) == Neutral;
    var w := PlaceAll(blank, ib, White);
    assert InBounds(w, c);
  }

  /** `cria_copia_goban`: an independent copy holds the same stone on every cell. */
  function Copy(g: Board): (r: Board)
    requires ValidBoard(g)
    ensures ValidBoard(r) && |r| == |g|
    ensures forall c :: InBounds(g, c) ==> Get(r, c) == Get(g, c)
  {
    seq(|g|, k requires 0 <= k < |g| => g[k][..])
  }

  /** Two boards of the same size holding the same stone on every cell are equal. */
  lemma SameCellsSameBoard(g: Board, h: Board)
    requires ValidBoard(g) && ValidBoard(h) && |g| == |h|
    requires forall c :: InBounds(g, c) ==> Get(g, c) == Get(h, c)
    ensures g == h
  {
    forall k | 0 <= k < |g| ensures g[k] == h[k] {
      forall m | 0 <= m < |g| ensures g[k][m] == h[k][m] {
        assert InBounds(g, Intersection(k, m + 1));
      }
    }
  }

  /** `gobans_iguais`: both arguments are boards, of the same size, holding equal
      stones on every intersection. */
  function BoardsEqual(g1: Board, g2: Board): (r: bool)
    ensures r <==> ValidBoard(g1) && g1 == g2
  {
    if !ValidBoard(g1) || !ValidBoard(g2) || |g1| != |g2| then false
    else
      var same := forall col, row | 0 <= col < |g1| && 1 <= row <= |g1| ::
        Get(g1, Intersection(col, row)) == Get(g2, Intersection(col, row));
      if same then SameCellsSameBoard(g1, g2); true else false
  }

  /** The neighbour count of the source's adjacency enumeration: two at a corner,
      three elsewhere on an edge, four inside. */
  lemma NeighbourCount(g: Board, i: Intersection)
    requires ValidBoard(g) && InBounds(g, i)
    ensures var edges := (if i.col == 0 || i.col == |g| - 1 then 1 else 0)
                       + (if i.row == 1 || i.row == |g| then 1 else 0);
            |Neighbours(g, i)| == 4 - edges
  {
  }
}
