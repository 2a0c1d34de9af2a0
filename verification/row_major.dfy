/**
 * The visiting order of the source's nested `for i in 1..=9 { for j in 1..=9 }`
 * loops (src/solver.rs, src/guess_ordering.rs): row by row, each row by
 * column. A loop standing at (i, j) has visited the cells before (i, j)
 * in that order; the cells it collects are those passing its test.
 */
module RowMajor {
  import opened Squares
  import opened BoxUtil
  import opened Puzzle

  /** Strictly increasing in row-major order (so without repeats). */
  predicate Sorted(xs: seq<Coord>)
  {
    forall i, j :: 0 <= i < j < |xs| ==> RowMajorBefore(xs[i], xs[j])
  }

  // ---------------------------------------------------------------------
  // Collecting the cells that pass a test.
  // ---------------------------------------------------------------------

  /** The tests the source's loops apply to a cell. */
  datatype CellTest =
    | HasCount(count: nat)  // `count_remaining() == degree` (guess_list)
    | IsSingle              // `has_single_value()` (seeding the queue)
    | IsDirtyCell           // `is_dirty()` (re-enqueueing)

  predicate Passes(c: Square, t: CellTest)
  {
    match t
    case HasCount(n) => c.CountRemaining() == n
    case IsSingle => c.HasSingleValue()
    case IsDirtyCell => c.IsDirty()
  }

  /** A test's verdict on every cell: row `r`, column `c` at `[r - 1][c - 1]`. */
  type Marks = seq<seq<bool>>

  predicate IsMarks(m: Marks)
  {
    |m| == 9 && forall r :: 0 <= r < 9 ==> |m[r]| == 9
  }

  function Marked(m: Marks, x: Coord): bool
    requires IsMarks(m) && OnGrid(x)
  {
    m[x.0 - 1][x.1 - 1]
  }

  /** The test applied to every cell of the grid. */
  function MarksOf(g: Grid, t: CellTest): (m: Marks)
    requires IsGrid(g)
    ensures IsMarks(m)
  {
    seq(9, r requires 0 <= r < 9 => seq(9, c requires 0 <= c < 9 => Passes(g[r][c], t)))
  }

  /** The verdict on a cell is the test applied to it. */
  lemma MarkedAt(g: Grid, t: CellTest, x: Coord)
    requires IsGrid(g) && OnGrid(x)
    ensures Marked(MarksOf(g, t), x) == Passes(Cell(g, x), t)
  {
  }

  /**
   * The marked cells before (i, j) in row-major order (rows above `i`, then
   * row `i` left of column `j`), in that order. Column 10 stands for the end
   * of a row.
   */
  function Collected(m: Marks, i: int, j: int): (r: seq<Coord>)
    requires IsMarks(m) && InRange(i) && 1 <= j <= 10
    ensures AllOnGrid(r)
    decreases m, i, j
  {
    if j == 1 then
      if i == 1 then [] else Collected(m, i - 1, 10)
    else
      var x := (i, j - 1);
      Collected(m, i, j - 1) + (if Marked(m, x) then [x] else [])
  }

  /** All cells passing the test, row-major: what a full pass of the loops collects. */
  function CellsWhere(g: Grid, t: CellTest): (r: seq<Coord>)
    requires IsGrid(g)
    ensures AllOnGrid(r)
  {
    Collected(MarksOf(g, t), 9, 10)
  }

  /** One more column: the cell there joins the collected cells when it passes the test. */
  lemma CollectedNext(g: Grid, t: CellTest, i: int, j: int)
    requires IsGrid(g) && InRange(i) && InRange(j)
    ensures Passes(Cell(g, (i, j)), t) ==> Collected(MarksOf(g, t), i, j + 1) == Collected(MarksOf(g, t), i, j) + [(i, j)]
    ensures !Passes(Cell(g, (i, j)), t) ==> Collected(MarksOf(g, t), i, j + 1) == Collected(MarksOf(g, t), i, j)
  {
    var m := MarksOf(g, t);
    assert Marked(m, (i, j)) == Passes(Cell(g, (i, j)), t);
    assert Collected(m, i, j) + [] == Collected(m, i, j);
  }

  /** The marked cells of the first `n` rows, in row-major order. */
  function CollectedRows(m: Marks, n: int): (r: seq<Coord>)
    requires IsMarks(m) && 0 <= n <= 9
    ensures AllOnGrid(r)
  {
    if n == 0 then [] else Collected(m, n, 10)
  }

  /** Row `i` starts where the first `i - 1` rows end and ends where the first `i` rows end. */
  lemma CollectedRowBounds(m: Marks, i: int)
    requires IsMarks(m) && InRange(i)
    ensures Collected(m, i, 1) == CollectedRows(m, i - 1)
    ensures CollectedRows(m, i) == Collected(m, i, 10)
  {
  }

  /** The prefix holds exactly the marked cells before (i, j). */
  lemma {:induction false} CollectedMembers(m: Marks, i: int, j: int)
    requires IsMarks(m) && InRange(i) && 1 <= j <= 10
    ensures forall y :: y in Collected(m, i, j) <==> OnGrid(y) && RowMajorBefore(y, (i, j)) && Marked(m, y)
    decreases i, j
  {
    if j == 1 {
      if i > 1 {
        CollectedMembers(m, i - 1, 10);
      }
    } else {
      CollectedMembers(m, i, j - 1);
    }
  }

  /** The prefix is in row-major order. */
  lemma {:induction false} CollectedSorted(m: Marks, i: int, j: int)
    requires IsMarks(m) && InRange(i) && 1 <= j <= 10
    ensures Sorted(Collected(m, i, j))
    decreases i, j
  {
    if j == 1 {
      if i > 1 {
        CollectedSorted(m, i - 1, 10);
      }
    } else {
      CollectedSorted(m, i, j - 1);
      CollectedMembers(m, i, j - 1);
      var a, last := Collected(m, i, j - 1), (i, j - 1);
      if Marked(m, last) {
        forall p, q | 0 <= p < q < |a + [last]| ensures RowMajorBefore((a + [last])[p], (a + [last])[q]) {
          if q == |a| {
            assert a[p] in a;
          }
        }
      }
    }
  }

  /** A full pass collects exactly the passing cells, in row-major order. */
  lemma CellsWhereSpec(g: Grid, t: CellTest)
    requires IsGrid(g)
    ensures forall y :: y in CellsWhere(g, t) <==> OnGrid(y) && Passes(Cell(g, y), t)
    ensures Sorted(CellsWhere(g, t))
  {
    var m := MarksOf(g, t);
    CollectedMembers(m, 9, 10);
    CollectedSorted(m, 9, 10);
    forall y ensures y in CellsWhere(g, t) <==> OnGrid(y) && Passes(Cell(g, y), t) {
      if OnGrid(y) {
        MarkedAt(g, t, y);
      }
    }
  }

  /** Grids on which the test agrees everywhere have the same verdicts. */
  lemma MarksSame(g: Grid, h: Grid, t: CellTest)
    requires IsGrid(g) && IsGrid(h)
    requires forall x :: OnGrid(x) ==> Passes(Cell(g, x), t) == Passes(Cell(h, x), t)
    ensures MarksOf(g, t) == MarksOf(h, t)
  {
    var a, b := MarksOf(g, t), MarksOf(h, t);
    forall r | 0 <= r < 9 ensures a[r] == b[r] {
      forall c | 0 <= c < 9 ensures a[r][c] == b[r][c] {
        MarkedAt(g, t, (r + 1, c + 1));
        MarkedAt(h, t, (r + 1, c + 1));
      }
    }
  }
}
