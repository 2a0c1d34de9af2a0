/**
 * Row, column and box helpers (`box_util` in src/constraint.rs).
 *
 * Rows and columns are numbered 1..9; a coordinate is a (row, column) pair.
 */
module BoxUtil {

  /** A (row, column) pair, 1-based. */
  type Coord = (int, int)

  predicate InRange(i: int)
  {
    1 <= i <= 9
  }

  predicate OnGrid(x: Coord)
  {
    InRange(x.0) && InRange(x.1)
  }

  /** Every listed coordinate is on the grid. */
  predicate AllOnGrid(xs: seq<Coord>)
  {
    forall k :: 0 <= k < |xs| ==> OnGrid(xs[k])
  }

  /** `index_to_box`: the band (1..3) of a row or column; panics outside 1..9. */
  function IndexToBox(i: int): (b: int)
    requires InRange(i)
    ensures 1 <= b <= 3
    ensures 3 * (b - 1) < i <= 3 * b
  {
    if i <= 3 then 1
    else if i <= 6 then 2
    else 3
  }

  /**
   * `box9`: the nine cells of the box holding (row, column), row-major:
   * entry k is row offset + k / 3 + 1, column offset + k % 3 + 1.
   */
  function Box9(row: int, column: int): (r: seq<Coord>)
    requires InRange(row) && InRange(column)
    ensures |r| == 9 && AllOnGrid(r)
  {
    BoxFrom((IndexToBox(row) - 1) * 3, (IndexToBox(column) - 1) * 3)
  }

  /** The nine cells below and to the right of (rowOffset, columnOffset), row-major. */
  function BoxFrom(rowOffset: int, columnOffset: int): seq<Coord>
  {
    [(1 + rowOffset, 1 + columnOffset), (1 + rowOffset, 2 + columnOffset), (1 + rowOffset, 3 + columnOffset),
     (2 + rowOffset, 1 + columnOffset), (2 + rowOffset, 2 + columnOffset), (2 + rowOffset, 3 + columnOffset),
     (3 + rowOffset, 1 + columnOffset), (3 + rowOffset, 2 + columnOffset), (3 + rowOffset, 3 + columnOffset)]
  }

  /** Keeps the entries of `s` other than `x`, in order (the source's `filter`). */
  function Remove(s: seq<Coord>, x: Coord): (r: seq<Coord>)
    ensures forall y :: y in r <==> y in s && y != x
    ensures |r| <= |s|
    ensures AllOnGrid(s) ==> AllOnGrid(r)
  {
    if |s| == 0 then []
    else Remove(s[..|s| - 1], x) + (if s[|s| - 1] == x then [] else [s[|s| - 1]])
  }

  /** `box8`: `box9` without (row, column) itself. */
  function Box8(row: int, column: int): seq<Coord>
    requires InRange(row) && InRange(column)
  {
    Remove(Box9(row, column), (row, column))
  }

  /** The nine cells of row `row`, by column. */
  function RowCells(row: int): (r: seq<Coord>)
    ensures |r| == 9
    ensures InRange(row) ==> AllOnGrid(r)
  {
    [(row, 1), (row, 2), (row, 3), (row, 4), (row, 5), (row, 6), (row, 7), (row, 8), (row, 9)]
  }

  /** The nine cells of column `column`, by row. */
  function ColumnCells(column: int): (r: seq<Coord>)
    ensures |r| == 9
    ensures InRange(column) ==> AllOnGrid(r)
  {
    [(1, column), (2, column), (3, column), (4, column), (5, column), (6, column), (7, column), (8, column), (9, column)]
  }

  /** The two coordinates lie in the same box. */
  predicate SameBox(x: Coord, y: Coord)
    requires OnGrid(x) && OnGrid(y)
  {
    IndexToBox(x.0) == IndexToBox(y.0) && IndexToBox(x.1) == IndexToBox(y.1)
  }

  // ---------------------------------------------------------------------
  // Properties.
  // ---------------------------------------------------------------------

  /** `index_to_box` maps 1-3 to 1, 4-6 to 2 and 7-9 to 3. */
  lemma IndexToBoxValues()
    ensures IndexToBox(1) == 1 && IndexToBox(2) == 1 && IndexToBox(3) == 1
    ensures IndexToBox(4) == 2 && IndexToBox(5) == 2 && IndexToBox(6) == 2
    ensures IndexToBox(7) == 3 && IndexToBox(8) == 3 && IndexToBox(9) == 3
  {
  }

  /** `box9` lists its cells in row-major order: strictly increasing by row, then by column. */
  lemma Box9RowMajor(row: int, column: int)
    requires InRange(row) && InRange(column)
    ensures forall i, j :: 0 <= i < j < 9 ==> RowMajorBefore(Box9(row, column)[i], Box9(row, column)[j])
  {
  }

  /** `x` comes strictly before `y` in row-major order. */
  predicate RowMajorBefore(x: Coord, y: Coord)
  {
    x.0 < y.0 || (x.0 == y.0 && x.1 < y.1)
  }

  /** Row `row` holds exactly the cells whose row is `row`. */
  lemma RowCellsMember(row: int, x: Coord)
    requires OnGrid(x)
    ensures x in RowCells(row) <==> x.0 == row
  {
    if x.0 == row {
      assert RowCells(row)[x.1 - 1] == x;
    }
  }

  /** `box9` holds exactly the cells of the box of (row, column), that cell included. */
  lemma Box9Cells(row: int, column: int)
    requires InRange(row) && InRange(column)
    ensures forall x :: x in Box9(row, column) <==> OnGrid(x) && SameBox(x, (row, column))
    ensures (row, column) in Box9(row, column)
  {
    Box9InBox(row, column);
    var ro, co := 3 * (IndexToBox(row) - 1), 3 * (IndexToBox(column) - 1);
    var b := BoxFrom(ro, co);
    assert Box9(row, column) == b;
    forall x | OnGrid(x) && SameBox(x, (row, column)) ensures x in b {
      assert IndexToBox(x.0) == IndexToBox(row) && IndexToBox(x.1) == IndexToBox(column);
      assert ro < x.0 <= ro + 3 && co < x.1 <= co + 3;
      BoxMember(b, ro, co, x);
    }
  }

  lemma Box9InBox(row: int, column: int)
    requires InRange(row) && InRange(column)
    ensures forall x :: x in Box9(row, column) ==> OnGrid(x) && SameBox(x, (row, column))
  {
    var b := Box9(row, column);
    var ro, co := 3 * (IndexToBox(row) - 1), 3 * (IndexToBox(column) - 1);
    forall x | x in b ensures OnGrid(x) && SameBox(x, (row, column)) {
      var k :| 0 <= k < 9 && b[k] == x;
      assert ro < x.0 <= ro + 3 && co < x.1 <= co + 3;
    }
  }

  lemma BoxMember(b: seq<Coord>, ro: int, co: int, x: Coord)
    requires b == BoxFrom(ro, co)
    requires ro < x.0 <= ro + 3 && co < x.1 <= co + 3
    ensures x in b
  {
    if x.0 == ro + 1 {
      assert x == b[0] || x == b[1] || x == b[2];
    } else if x.0 == ro + 2 {
      assert x == b[3] || x == b[4] || x == b[5];
    } else {
      assert x == b[6] || x == b[7] || x == b[8];
    }
  }

  /** Every cell of the same box gets the same list. */
  lemma Box9SameForBox(r1: int, c1: int, r2: int, c2: int)
    requires InRange(r1) && InRange(c1) && InRange(r2) && InRange(c2)
    requires SameBox((r1, c1), (r2, c2))
    ensures Box9(r1, c1) == Box9(r2, c2)
  {
    assert IndexToBox(r1) == IndexToBox(r2) && IndexToBox(c1) == IndexToBox(c2);
  }

  /** `box8` has 8 entries: `box9` with (row, column) cut out, the rest in order. */
  lemma Box8Cells(row: int, column: int)
    requires InRange(row) && InRange(column)
    ensures |Box8(row, column)| == 8
    ensures exists k :: (0 <= k < 9 && Box9(row, column)[k] == (row, column)
      && Box8(row, column) == Box9(row, column)[..k] + Box9(row, column)[k + 1..])
    ensures forall x :: x in Box8(row, column) <==> OnGrid(x) && SameBox(x, (row, column)) && x != (row, column)
  {
    var b := Box9(row, column);
    Box9Cells(row, column);
    var k :| 0 <= k < 9 && b[k] == (row, column);
    Box9Distinct(row, column);
    RemoveSingle(b, k);
  }

  /** The nine cells of a box are pairwise different. */
  lemma Box9Distinct(row: int, column: int)
    requires InRange(row) && InRange(column)
    ensures forall i, j :: 0 <= i < j < 9 ==> Box9(row, column)[i] != Box9(row, column)[j]
  {
    Box9RowMajor(row, column);
  }

  /** Removing an entry that occurs once at index `k` cuts out exactly that index. */
  lemma {:induction false} RemoveSingle(s: seq<Coord>, k: int)
    requires 0 <= k < |s|
    requires forall i, j :: 0 <= i < j < |s| ==> s[i] != s[j]
    ensures Remove(s, s[k]) == s[..k] + s[k + 1..]
    decreases |s|
  {
    var x := s[k];
    var init := s[..|s| - 1];
    if k == |s| - 1 {
      RemoveAbsent(init, x);
      assert s[..k] + s[k + 1..] == init;
    } else {
      assert init[k] == x;
      RemoveSingle(init, k);
      assert s[..k] + s[k + 1..] == init[..k] + init[k + 1..] + [s[|s| - 1]];
    }
  }

  /** Removing an absent entry changes nothing. */
  lemma {:induction false} RemoveAbsent(s: seq<Coord>, x: Coord)
    requires x !in s
    ensures Remove(s, x) == s
    decreases |s|
  {
    if |s| > 0 {
      RemoveAbsent(s[..|s| - 1], x);
      assert s[..|s| - 1] + [s[|s| - 1]] == s;
    }
  }
}
