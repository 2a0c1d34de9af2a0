/**
 * The grid (src/sudoku_puzzle.rs): nine rows of nine cells, built from nine
 * strings of nine characters, addressed 1-based and deep-cloned for every
 * search branch.
 */
module Puzzle {
  import opened Squares
  import opened BoxUtil

  /** Rows of cells; a well-formed grid is 9 by 9. */
  type Grid = seq<seq<Square>>

  predicate IsGrid(g: Grid)
  {
    |g| == 9 && forall i :: 0 <= i < 9 ==> |g[i]| == 9
  }

  /** The cell at (row, column), both 1-based. */
  function Cell(g: Grid, x: Coord): Square
    requires IsGrid(g) && OnGrid(x)
  {
    g[x.0 - 1][x.1 - 1]
  }

  /** `g` with the cell at `x` replaced by `s`; every other cell is kept. */
  function SetCell(g: Grid, x: Coord, s: Square): (r: Grid)
    requires IsGrid(g) && OnGrid(x)
    ensures IsGrid(r)
    ensures Cell(r, x) == s
    ensures forall y :: OnGrid(y) && y != x ==> Cell(r, y) == Cell(g, y)
  {
    g[x.0 - 1 := g[x.0 - 1][x.1 - 1 := s]]
  }

  /** A character the source accepts: a space or a digit 1..9. */
  predicate IsCellChar(ch: char)
  {
    ch == ' ' || '1' <= ch <= '9'
  }

  /** Nine strings of nine accepted characters. */
  predicate ValidStrings(strings: seq<string>)
  {
    |strings| == 9 && forall i :: 0 <= i < 9 ==> |strings[i]| == 9 && forall j :: 0 <= j < 9 ==> IsCellChar(strings[i][j])
  }

  /** A space is an open cell; a digit is a clue with that digit. */
  function SquareOf(ch: char): (s: Square)
    requires IsCellChar(ch)
  {
    if ch == ' ' then NewDerived() else NewInitial(ch as int - '0' as int)
  }

  /** The grid the strings describe, one cell per character. */
  function GridOf(strings: seq<string>): (g: Grid)
    requires ValidStrings(strings)
    ensures IsGrid(g)
  {
    seq(9, i requires 0 <= i < 9 => seq(9, j requires 0 <= j < 9 => SquareOf(strings[i][j])))
  }

  /** Every cell replaced by its clone. */
  function CloneGrid(g: Grid): (r: Grid)
    requires IsGrid(g)
    ensures IsGrid(r)
  {
    seq(9, i requires 0 <= i < 9 => seq(9, j requires 0 <= j < 9 => g[i][j].Clone()))
  }

  /** The nine cells of a region, in order. */
  function CellsAt(g: Grid, xs: seq<Coord>): (r: seq<Square>)
    requires IsGrid(g) && forall k :: 0 <= k < |xs| ==> OnGrid(xs[k])
    ensures |r| == |xs| && forall k :: 0 <= k < |xs| ==> r[k] == Cell(g, xs[k])
  {
    seq(|xs|, k requires 0 <= k < |xs| => Cell(g, xs[k]))
  }

  /**
   * `SudokuPuzzle`: the initial strings and the rows of cells. The rows are
   * updated in place by the constraint rules and the solver.
   */
  class SudokuPuzzle {
    var initialStrings: seq<string>
    var rows: Grid

    predicate Valid()
      reads this
    {
      IsGrid(rows) && |initialStrings| == 9
    }

    /** `SudokuPuzzle::new`: asserts nine strings of nine characters and builds the rows. */
    constructor (initial: seq<string>)
      requires ValidStrings(initial)
      ensures Valid()
      ensures initialStrings == initial && rows == GridOf(initial)
    {
      var built := SudokuPuzzle.CalculateRowsFromInitialStrings(initial);
      initialStrings := initial;
      rows := built;
    }

    /** Builds the rows by pushing one cell per character, row by row. */
    static method CalculateRowsFromInitialStrings(strings: seq<string>) returns (result: Grid)
      requires ValidStrings(strings)
      ensures result == GridOf(strings)
    {
      result := [];
      var i := 0;
      while i < 9
        invariant 0 <= i <= 9
        invariant |result| == i
        invariant forall a :: 0 <= a < i ==> result[a] == GridOf(strings)[a]
      {
        var row: seq<Square> := [];
        var j := 0;
        while j < 9
          invariant 0 <= j <= 9
          invariant |row| == j
          invariant forall b :: 0 <= b < j ==> row[b] == SquareOf(strings[i][b])
        {
          row := row + [SquareOf(strings[i][j])];
          j := j + 1;
        }
        result := result + [row];
        i := i + 1;
      }
    }

    /** `SudokuPuzzle::clone_from`: copies the strings and clones every cell. */
    constructor CloneFrom(from: SudokuPuzzle)
      requires from.Valid()
      ensures Valid()
      ensures initialStrings == from.initialStrings
      ensures rows == CloneGrid(from.rows)
    {
      var strings: seq<string> := [];
      var k := 0;
      while k < 9
        invariant 0 <= k <= 9
        invariant strings == from.initialStrings[..k]
      {
        strings := strings + [from.initialStrings[k]];
        k := k + 1;
      }
      var result: Grid := [];
      var i := 0;
      while i < 9
        invariant 0 <= i <= 9
        invariant |result| == i
        invariant forall a :: 0 <= a < i ==> result[a] == CloneGrid(from.rows)[a]
      {
        var row: seq<Square> := [];
        var j := 0;
        while j < 9
          invariant 0 <= j <= 9
          invariant |row| == j
          invariant forall b :: 0 <= b < j ==> row[b] == from.rows[i][b].Clone()
        {
          row := row + [from.rows[i][j].Clone()];
          j := j + 1;
        }
        result := result + [row];
        i := i + 1;
      }
      initialStrings := strings;
      rows := result;
    }

    /** `get_square`: the cell at (row, column), 1-based. */
    function GetSquare(row: int, column: int): (s: Square)
      reads this
      requires Valid() && InRange(row) && InRange(column)
      ensures s == rows[row - 1][column - 1]
    {
      Cell(rows, (row, column))
    }

    /** Writes back a cell obtained from `get_square` after updating it in place. */
    method SetSquare(row: int, column: int, s: Square)
      requires Valid() && InRange(row) && InRange(column)
      modifies this
      ensures Valid()
      ensures rows == SetCell(old(rows), (row, column), s)
      ensures initialStrings == old(initialStrings)
    {
      rows := SetCell(rows, (row, column), s);
    }
  }

  // ---------------------------------------------------------------------
  // Properties.
  // ---------------------------------------------------------------------

  /**
   * A space becomes an open cell with all nine candidates, clean; a digit
   * becomes a clue holding that digit.
   */
  lemma GridOfCells(strings: seq<string>, x: Coord)
    requires ValidStrings(strings) && OnGrid(x)
    ensures var ch := strings[x.0 - 1][x.1 - 1]; var s := Cell(GridOf(strings), x);
      (ch == ' ' ==> s.Derived? && s.CountRemaining() == 9 && !s.IsDirty())
      && (ch != ' ' ==> s.Initial? && s.value == ch as int - '0' as int)
  {
  }

  /** Two grids holding the same cell everywhere are equal. */
  lemma GridExt(a: Grid, b: Grid)
    requires IsGrid(a) && IsGrid(b)
    requires forall x :: OnGrid(x) ==> Cell(a, x) == Cell(b, x)
    ensures a == b
  {
    forall i | 0 <= i < 9 ensures a[i] == b[i] {
      forall j | 0 <= j < 9 ensures a[i][j] == b[i][j] {
        assert Cell(a, (i + 1, j + 1)) == Cell(b, (i + 1, j + 1));
      }
    }
  }

  /** Writing back the cell a grid already holds changes nothing. */
  lemma SetCellSame(g: Grid, x: Coord)
    requires IsGrid(g) && OnGrid(x)
    ensures SetCell(g, x, Cell(g, x)) == g
  {
    GridExt(SetCell(g, x, Cell(g, x)), g);
  }

  /** Cloning keeps the kind and the mask of every cell, leaves every cell clean, and keeps them valid. */
  lemma CloneGridCells(g: Grid, x: Coord)
    requires IsGrid(g) && OnGrid(x)
    ensures Cell(CloneGrid(g), x).Initial? == Cell(g, x).Initial?
    ensures Cell(CloneGrid(g), x).GetBitmap() == Cell(g, x).GetBitmap()
    ensures Cell(CloneGrid(g), x).CountRemaining() == Cell(g, x).CountRemaining()
    ensures !Cell(CloneGrid(g), x).IsDirty() && Cell(CloneGrid(g), x).Valid()
  {
  }

  /**
   * The clone test of src/sudoku_puzzle.rs: narrowing a cell of a fresh clone
   * leaves the original grid as it was.
   */
  method CloneThenSelect(p: SudokuPuzzle, x: Coord, v: Digit) returns (q: SudokuPuzzle)
    requires p.Valid() && OnGrid(x)
    requires Cell(p.rows, x).Derived? ==> Cell(p.rows, x).IsPossible(v)
    ensures fresh(q) && q.Valid()
    ensures p.rows == old(p.rows)
    ensures q.rows == SetCell(CloneGrid(p.rows), x, Cell(CloneGrid(p.rows), x).Select(v))
  {
    q := new SudokuPuzzle.CloneFrom(p);
    CloneGridCells(p.rows, x);
    var s := q.GetSquare(x.0, x.1);
    q.SetSquare(x.0, x.1, s.Select(v));
  }
}
