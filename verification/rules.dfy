/**
 * What the propagation rules are judged against: a completed sudoku (each
 * row, column and box holds every digit exactly once), whether a grid still
 * admits such a solution, and the "only shrinks" order between two grids.
 */
module Rules {
  import opened Squares
  import opened BoxUtil
  import opened Puzzle

  /** A completed board, 9 rows of 9 digits. */
  type Solution = seq<seq<Digit>>

  predicate IsBoard(s: Solution)
  {
    |s| == 9 && forall i :: 0 <= i < 9 ==> |s[i]| == 9
  }

  /** The digit of the board at (row, column), 1-based. */
  function Sol(s: Solution, x: Coord): Digit
    requires IsBoard(s) && OnGrid(x)
  {
    s[x.0 - 1][x.1 - 1]
  }

  /** Two different cells that share a row, a column or a box. */
  predicate ArePeers(x: Coord, y: Coord)
    requires OnGrid(x) && OnGrid(y)
  {
    x != y && (x.0 == y.0 || x.1 == y.1 || SameBox(x, y))
  }

  /** The digits of the board along a list of cells. */
  function DigitsAlong(s: Solution, xs: seq<Coord>): (r: seq<Digit>)
    requires IsBoard(s) && AllOnGrid(xs)
    ensures |r| == |xs| && forall k :: 0 <= k < |xs| ==> r[k] == Sol(s, xs[k])
  {
    seq(|xs|, k requires 0 <= k < |xs| => Sol(s, xs[k]))
  }

  /** Every digit occurs somewhere along the cells. */
  predicate Covers(s: Solution, xs: seq<Coord>)
    requires IsBoard(s) && AllOnGrid(xs)
  {
    forall d: Digit :: d in DigitsAlong(s, xs)
  }

  /**
   * A solved sudoku: every row, column and box holds every digit, and no two
   * peers hold the same digit.
   */
  ghost predicate IsSolution(s: Solution)
  {
    IsBoard(s)
    && (forall x {:trigger Covers(s, RowCells(x.0))} :: OnGrid(x) ==> Covers(s, RowCells(x.0)))
    && (forall x {:trigger Covers(s, ColumnCells(x.1))} :: OnGrid(x) ==> Covers(s, ColumnCells(x.1)))
    && (forall x {:trigger Covers(s, Box9(x.0, x.1))} :: OnGrid(x) ==> Covers(s, Box9(x.0, x.1)))
    && (forall x, y {:trigger ArePeers(x, y)} :: OnGrid(x) && OnGrid(y) && ArePeers(x, y) ==> Sol(s, x) != Sol(s, y))
  }

  /** Every cell of the grid still allows the board's digit there. */
  ghost predicate Consistent(g: Grid, s: Solution)
    requires IsGrid(g) && IsBoard(s)
  {
    forall x {:trigger Cell(g, x).IsPossible(Sol(s, x))} :: OnGrid(x) ==> Cell(g, x).IsPossible(Sol(s, x))
  }

  /**
   * `h` only narrows `g`: clues stay the same clues, open cells stay open,
   * and no cell gains a candidate.
   */
  ghost predicate Refines(h: Grid, g: Grid)
    requires IsGrid(h) && IsGrid(g)
  {
    forall x {:trigger CellRefines(Cell(h, x), Cell(g, x))} :: OnGrid(x) ==> CellRefines(Cell(h, x), Cell(g, x))
  }

  predicate CellRefines(a: Square, b: Square)
  {
    (b.Initial? ==> a == b)
    && (b.Derived? ==> a.Derived? && a.singleValue == b.singleValue && forall d: Digit :: a.IsPossible(d) ==> b.IsPossible(d))
  }

  /**
   * `h` narrows `g` as `Refines` says, except that memos may have been
   * recorded on the way (by `get_single_value`).
   */
  ghost predicate Narrows(h: Grid, g: Grid)
    requires IsGrid(h) && IsGrid(g)
  {
    forall x {:trigger CellNarrows(Cell(h, x), Cell(g, x))} :: OnGrid(x) ==> CellNarrows(Cell(h, x), Cell(g, x))
  }

  predicate CellNarrows(a: Square, b: Square)
  {
    (b.Initial? ==> a == b)
    && (b.Derived? ==> a.Derived? && forall d: Digit :: a.IsPossible(d) ==> b.IsPossible(d))
  }

  /** Every cell keeps its kind and its mask: only memos and dirty flags differ. */
  ghost predicate SameMasks(h: Grid, g: Grid)
    requires IsGrid(h) && IsGrid(g)
  {
    forall x {:trigger Cell(h, x), Cell(g, x)} :: OnGrid(x) ==>
      Cell(h, x).Initial? == Cell(g, x).Initial? && Cell(h, x).GetBitmap() == Cell(g, x).GetBitmap()
  }

  /** Every cell's memoized single value agrees with its mask. */
  ghost predicate AllValid(g: Grid)
    requires IsGrid(g)
  {
    forall x {:trigger Cell(g, x).Valid()} :: OnGrid(x) ==> Cell(g, x).Valid()
  }

  /** A grid read from the puzzle strings has no memo yet, so every memo is consistent. */
  lemma FreshGridValid(strings: seq<string>)
    requires ValidStrings(strings)
    ensures AllValid(GridOf(strings))
  {
    forall x | OnGrid(x)
      ensures Cell(GridOf(strings), x).Valid()
    {
      GridOfCells(strings, x);
    }
  }

  /** A cloned grid keeps every memo consistent with its mask. */
  lemma CloneGridValid(g: Grid)
    requires IsGrid(g)
    ensures AllValid(CloneGrid(g))
  {
    forall x | OnGrid(x)
      ensures Cell(CloneGrid(g), x).Valid()
    {
      CloneGridCells(g, x);
    }
  }

  /** Narrowing keeps every memo consistent with its mask. */
  lemma RefinesValid(h: Grid, g: Grid)
    requires IsGrid(h) && IsGrid(g)
    requires Refines(h, g) && AllValid(g)
    ensures AllValid(h)
  {
    forall x | OnGrid(x) ensures Cell(h, x).Valid() {
      assert CellRefines(Cell(h, x), Cell(g, x)) && Cell(g, x).Valid();
      var a, b := Cell(h, x), Cell(g, x);
      if a.Derived? && a.singleValue.Some? {
        forall d: Digit | HasDigit(a.bitmap, d) ensures d == a.singleValue.value {
          assert a.IsPossible(d);
        }
      }
    }
  }

  /** Refining is transitive. */
  lemma RefinesTrans(k: Grid, h: Grid, g: Grid)
    requires IsGrid(k) && IsGrid(h) && IsGrid(g)
    requires Refines(k, h) && Refines(h, g)
    ensures Refines(k, g)
  {
    forall x | OnGrid(x) ensures CellRefines(Cell(k, x), Cell(g, x)) {
      assert CellRefines(Cell(k, x), Cell(h, x)) && CellRefines(Cell(h, x), Cell(g, x));
    }
  }

  /** A narrower grid admits only boards the wider one admits. */
  lemma RefinesConsistent(h: Grid, g: Grid, s: Solution)
    requires IsGrid(h) && IsGrid(g) && IsBoard(s)
    requires Refines(h, g) && Consistent(h, s)
    ensures Consistent(g, s)
  {
    forall x | OnGrid(x) ensures Cell(g, x).IsPossible(Sol(s, x)) {
      assert CellRefines(Cell(h, x), Cell(g, x));
      assert Cell(h, x).IsPossible(Sol(s, x));
    }
  }

  /**
   * A solution holds every digit in every region: along any of the three
   * regions through `x`, some cell carries `d`.
   */
  lemma SolutionHasDigit(s: Solution, x: Coord, xs: seq<Coord>, d: Digit)
    requires IsSolution(s) && OnGrid(x)
    requires xs == RowCells(x.0) || xs == ColumnCells(x.1) || xs == Box9(x.0, x.1)
    ensures AllOnGrid(xs)
    ensures exists k :: 0 <= k < |xs| && Sol(s, xs[k]) == d
  {
    assert Covers(s, RowCells(x.0)) && Covers(s, ColumnCells(x.1)) && Covers(s, Box9(x.0, x.1));
    assert Covers(s, xs);
    assert d in DigitsAlong(s, xs);
    var k :| 0 <= k < |xs| && DigitsAlong(s, xs)[k] == d;
  }

  /** Refining is narrowing. */
  lemma RefinesNarrows(h: Grid, g: Grid)
    requires IsGrid(h) && IsGrid(g) && Refines(h, g)
    ensures Narrows(h, g)
  {
    forall x | OnGrid(x) ensures CellNarrows(Cell(h, x), Cell(g, x)) {
      assert CellRefines(Cell(h, x), Cell(g, x));
    }
  }

  /** Every grid narrows itself. */
  lemma NarrowsSelf(g: Grid)
    requires IsGrid(g)
    ensures Narrows(g, g)
  {
  }

  /** Narrowing is transitive. */
  lemma NarrowsTrans(k: Grid, h: Grid, g: Grid)
    requires IsGrid(k) && IsGrid(h) && IsGrid(g)
    requires Narrows(k, h) && Narrows(h, g)
    ensures Narrows(k, g)
  {
    forall x | OnGrid(x) ensures CellNarrows(Cell(k, x), Cell(g, x)) {
      assert CellNarrows(Cell(k, x), Cell(h, x)) && CellNarrows(Cell(h, x), Cell(g, x));
    }
  }

  /** A narrower grid admits only boards the wider one admits. */
  lemma NarrowsConsistent(h: Grid, g: Grid, s: Solution)
    requires IsGrid(h) && IsGrid(g) && IsBoard(s)
    requires Narrows(h, g) && Consistent(h, s)
    ensures Consistent(g, s)
  {
    forall x | OnGrid(x) ensures Cell(g, x).IsPossible(Sol(s, x)) {
      assert CellNarrows(Cell(h, x), Cell(g, x));
      assert Cell(h, x).IsPossible(Sol(s, x));
    }
  }

  /**
   * Grids with the same masks narrow each other, admit the same boards and
   * have the same solved cells.
   */
  lemma SameMasksAgree(h: Grid, g: Grid)
    requires IsGrid(h) && IsGrid(g) && SameMasks(h, g)
    ensures Narrows(h, g)
    ensures forall s :: IsBoard(s) ==> (Consistent(h, s) <==> Consistent(g, s))
    ensures forall x :: OnGrid(x) ==> Cell(h, x).HasSingleValue() == Cell(g, x).HasSingleValue()
  {
    forall x | OnGrid(x) ensures CellNarrows(Cell(h, x), Cell(g, x)) && Cell(h, x).HasSingleValue() == Cell(g, x).HasSingleValue() {
      var a, b := Cell(h, x), Cell(g, x);
      assert a.Initial? == b.Initial? && a.GetBitmap() == b.GetBitmap();
      if b.Initial? {
        assert forall d: Digit :: HasDigit(a.GetBitmap(), d) <==> d == a.value;
        assert HasDigit(b.GetBitmap(), b.value);
      }
    }
    forall s | IsBoard(s) ensures Consistent(h, s) <==> Consistent(g, s) {
      if Consistent(h, s) {
        forall x | OnGrid(x) ensures Cell(g, x).IsPossible(Sol(s, x)) {
          assert Cell(h, x).IsPossible(Sol(s, x));
          assert Cell(h, x).GetBitmap() == Cell(g, x).GetBitmap();
        }
      }
      if Consistent(g, s) {
        forall x | OnGrid(x) ensures Cell(h, x).IsPossible(Sol(s, x)) {
          assert Cell(g, x).IsPossible(Sol(s, x));
          assert Cell(h, x).GetBitmap() == Cell(g, x).GetBitmap();
        }
      }
    }
  }
}
