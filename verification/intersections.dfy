/** Intersections (board coordinates), their construction and their neighbours. */
module Intersections {
  import opened Errors

  /** The largest supported board: columns 'A'..'S' and rows 1..19. */
  const MaxSize: int := 19

  /** A point of a board. `col` is the index of the column letter ('A' is 0) and
      `row` the 1-based row number. */
  datatype Intersection = Intersection(col: int, row: int)

  /** True of the coordinates that exist on some board, whatever its size. */
  predicate IsIntersection(i: Intersection) {
    0 <= i.col < MaxSize && 1 <= i.row <= MaxSize
  }

  /** True of the coordinates that lie on an n-by-n board. */
  predicate OnBoard(i: Intersection, n: int) {
    0 <= i.col < n && 1 <= i.row <= n
  }

  /** The column letter of an intersection. */
  function ColumnLetter(i: Intersection): (c: char)
    requires IsIntersection(i)
    ensures 'A' <= c <= 'S'
  {
    ('A' as int + i.col) as char
  }

  /** Builds an intersection from a column letter and a row number; only the
      letters 'A'..'S' and the rows 1..19 are accepted. */
  function MakeIntersection(col: char, row: int): (r: Result<Intersection>)
    ensures r.Ok? <==> 'A' <= col <= 'S' && 1 <= row <= MaxSize
    ensures r.Err? ==> r.error == InvalidIntersection
    ensures r.Ok? ==> IsIntersection(r.value) && ColumnLetter(r.value) == col && r.value.row == row
  {
    if !('A' <= col <= 'S') then Err(InvalidIntersection)
    else if !(1 <= row <= MaxSize) then Err(InvalidIntersection)
    else Ok(Intersection(col as int - 'A' as int, row))
  }

  /** Reading order: by ascending row, then by ascending column. */
  predicate Before(a: Intersection, b: Intersection) {
    a.row < b.row || (a.row == b.row && a.col < b.col)
  }

  /** A sequence strictly increasing in reading order (hence without repeats). */
  predicate Ascending(s: seq<Intersection>) {
    forall j, k :: 0 <= j < k < |s| ==> Before(s[j], s[k])
  }

  /** Two intersections one step apart along a row or a column. */
  predicate Adj(a: Intersection, b: Intersection) {
    (a.col == b.col && (a.row == b.row + 1 || b.row == a.row + 1)) ||
    (a.row == b.row && (a.col == b.col + 1 || b.col == a.col + 1))
  }

  /** True of the top-right corner of a square board whose rows fit the letters. */
  predicate IsCorner(last: Intersection) {
    IsIntersection(last) && last.col == last.row - 1
  }

  /** The neighbours of `i` on the board whose top-right corner is `last`, in the
      order below, left, right, above. */
  function Adjacent(i: Intersection, last: Intersection): (r: seq<Intersection>)
    requires IsCorner(last) && OnBoard(i, last.row)
    ensures forall y :: y in r <==> OnBoard(y, last.row) && Adj(i, y)
    ensures Ascending(r)
  {
    (if i.row > 1 then [Intersection(i.col, i.row - 1)] else [])
    + (if i.col != 0 then [Intersection(i.col - 1, i.row)] else [])
    + (if i.col != last.col then [Intersection(i.col + 1, i.row)] else [])
    + (if i.row < last.row then [Intersection(i.col, i.row + 1)] else [])
  }

  /** A reading-order-ascending sequence has no repeated element. */
  lemma AscendingIsDistinct(s: seq<Intersection>, j: int, k: int)
    requires Ascending(s) && 0 <= j < |s| && 0 <= k < |s| && j != k
    ensures s[j] != s[k]
  {
  }

  /** Two ascending sequences with the same elements are the same sequence. */
  lemma {:induction false} AscendingUnique(a: seq<Intersection>, b: seq<Intersection>)
    requires Ascending(a) && Ascending(b)
    requires forall x :: x in a <==> x in b
    ensures a == b
  {
    assert |a| > 0 ==> a[0] in b;
    assert |b| > 0 ==> b[0] in a;
    if |a| > 0 && |b| > 0 {
      assert a[0] == b[0] by {
        assert a[0] in b;
        assert b[0] in a;
        var k :| 0 <= k < |b| && b[k] == a[0];
        var m :| 0 <= m < |a| && a[m] == b[0];
        assert !Before(a[m], a[0]);
        assert !Before(b[k], b[0]);
      }
      forall x ensures x in a[1..] <==> x in b[1..] {
        if x in a[1..] {
          var j :| 1 <= j < |a| && a[j] == x;
          assert x in b && x != b[0];
          var k :| 0 <= k < |b| && b[k] == x;
          assert x == b[1..][k - 1];
        }
        if x in b[1..] {
          var j :| 1 <= j < |b| && b[j] == x;
          assert x in a && x != a[0];
          var k :| 0 <= k < |a| && a[k] == x;
          assert x == a[1..][k - 1];
        }
      }
      AscendingUnique(a[1..], b[1..]);
      assert a == [a[0]] + a[1..];
      assert b == [b[0]] + b[1..];
    }
  }
}
