/**
 * What `validate_solution` and `done_yet` (src/solver.rs) decide about a
 * grid, and what they leave in it. Validation counts, in every row, column
 * and box, how many solved cells answer each digit; every count must be 1.
 * Reading a solved cell's answer goes through `get_single_value`, which
 * memoizes it in a derived cell: the rows it scans are left "touched".
 */
module Validation {
  import opened Squares
  import opened BoxUtil
  import opened Puzzle
  import opened Rules
  import opened Constraints

  const RowsMessage := "rows must contain all values once"
  const ColumnsMessage := "columns must contain all values once"
  const BoxesMessage := "boxes must contain all values once"

  /** Every cell has a single value. */
  ghost predicate AllSingle(g: Grid)
    requires IsGrid(g)
  {
    forall x {:trigger Cell(g, x).HasSingleValue()} :: OnGrid(x) ==> Cell(g, x).HasSingleValue()
  }

  /** A cell after `has_single_value` and, when it holds, `get_single_value`. */
  function Touch(c: Square): (r: Square)
    ensures r.GetBitmap() == c.GetBitmap() && r.Initial? == c.Initial? && r.IsDirty() == c.IsDirty()
    ensures r.HasSingleValue() == c.HasSingleValue()
    ensures c.HasSingleValue() ==> r.Answer() == c.Answer()
    ensures c.Valid() ==> r.Valid()
  {
    if c.HasSingleValue() then c.Memoized() else c
  }

  /** The grid with its first `n` rows touched. */
  function TouchRows(g: Grid, n: int): (r: Grid)
    requires IsGrid(g)
    ensures IsGrid(r)
  {
    seq(9, i requires 0 <= i < 9 => if i < n then seq(9, j requires 0 <= j < 9 => Touch(g[i][j])) else g[i])
  }

  lemma TouchRowsCell(g: Grid, n: int, x: Coord)
    requires IsGrid(g) && OnGrid(x)
    ensures Cell(TouchRows(g, n), x) == if x.0 <= n then Touch(Cell(g, x)) else Cell(g, x)
  {
  }

  /** The cell at `x` is solved and `get_single_value` answers `d` there. */
  predicate Answers(g: Grid, x: Coord, d: Digit)
    requires IsGrid(g) && OnGrid(x)
  {
    Cell(g, x).HasSingleValue() && Cell(g, x).Answer() == d
  }

  /** How many of the listed cells answer `d`: the `seen` counter of `d`. */
  function SeenCount(g: Grid, cells: seq<Coord>, d: Digit): nat
    requires IsGrid(g) && AllOnGrid(cells)
  {
    if |cells| == 0 then 0
    else SeenCount(g, cells[..|cells| - 1], d) + if Answers(g, cells[|cells| - 1], d) then 1 else 0
  }

  /** One more cell adds one to the count of the digit it answers. */
  lemma SeenCountNext(g: Grid, cells: seq<Coord>, k: int, d: Digit)
    requires IsGrid(g) && AllOnGrid(cells) && 0 <= k < |cells|
    ensures SeenCount(g, cells[..k + 1], d) == SeenCount(g, cells[..k], d) + if Answers(g, cells[k], d) then 1 else 0
  {
    assert cells[..k + 1][..k] == cells[..k];
  }

  /** Every digit is answered exactly once along the cells. */
  ghost predicate AllOnce(g: Grid, cells: seq<Coord>)
    requires IsGrid(g) && AllOnGrid(cells)
  {
    forall d: Digit :: SeenCount(g, cells, d) == 1
  }

  /** The boxes validation walks, by their top-left cells. */
  function BoxAnchors(): seq<Coord>
  {
    [(1, 1), (1, 4), (1, 7), (4, 1), (4, 4), (4, 7), (7, 1), (7, 4), (7, 7)]
  }

  ghost predicate RowsOk(g: Grid, n: int)
    requires IsGrid(g)
  {
    forall r :: 1 <= r <= n && r <= 9 ==> AllOnce(g, RowCells(r))
  }

  ghost predicate ColumnsOk(g: Grid)
    requires IsGrid(g)
  {
    forall c :: 1 <= c <= 9 ==> AllOnce(g, ColumnCells(c))
  }

  ghost predicate BoxOk(g: Grid, k: int)
    requires IsGrid(g) && 0 <= k < 9
  {
    AllOnce(g, Box9(BoxAnchors()[k].0, BoxAnchors()[k].1))
  }

  ghost predicate BoxesOk(g: Grid)
    requires IsGrid(g)
  {
    forall k :: 0 <= k < 9 ==> BoxOk(g, k)
  }

  /** The first `k` boxes pass. */
  ghost predicate BoxesOkBefore(g: Grid, k: int)
    requires IsGrid(g) && 0 <= k <= 9
  {
    forall q :: 0 <= q < k ==> BoxOk(g, q)
  }

  /** One more box passes when it does and the ones before it do. */
  lemma BoxesOkNext(g: Grid, k: int)
    requires IsGrid(g) && 0 <= k < 9
    ensures BoxesOkBefore(g, k + 1) == (BoxesOkBefore(g, k) && BoxOk(g, k))
  {
  }

  /** The first row from `r` on that fails its count, or 10 when none does. */
  ghost function FirstBadRow(g: Grid, r: int): (b: int)
    requires IsGrid(g) && 1 <= r <= 10
    ensures r <= b <= 10
    ensures b <= 9 ==> !AllOnce(g, RowCells(b))
    ensures forall q :: r <= q < b ==> AllOnce(g, RowCells(q))
    decreases g, 10 - r
  {
    if r == 10 then 10
    else if !AllOnce(g, RowCells(r)) then r
    else FirstBadRow(g, r + 1)
  }

  /** The verdict of `validate_solution`: rows first, then columns, then boxes. */
  ghost function ValidateResult(g: Grid): Outcome
    requires IsGrid(g)
  {
    if !RowsOk(g, 9) then Violation(RowsMessage)
    else if !ColumnsOk(g) then Violation(ColumnsMessage)
    else if !BoxesOk(g) then Violation(BoxesMessage)
    else Ok
  }

  /**
   * The grid `validate_solution` leaves: the rows up to the first failing one
   * (all nine when none fails) touched. Columns and boxes are read only
   * after every row was touched, so they change nothing more.
   */
  ghost function ValidateGrid(g: Grid): (r: Grid)
    requires IsGrid(g)
    ensures IsGrid(r)
  {
    var b := FirstBadRow(g, 1);
    TouchRows(g, if b == 10 then 9 else b)
  }

  /** The verdict of `done_yet`: unfinished while some cell is open, else validation's. */
  datatype Verdict = NotDone | Done | Invalid(msg: string)

  ghost function DoneYetResult(g: Grid): Verdict
    requires IsGrid(g)
  {
    if !AllSingle(g) then NotDone
    else match ValidateResult(g)
      case Ok => Done
      case Violation(msg) => Invalid(msg)
  }

  /** The grid `done_yet` leaves: validation runs only once every cell is solved. */
  ghost function DoneYetGrid(g: Grid): (r: Grid)
    requires IsGrid(g)
    ensures IsGrid(r)
  {
    if AllSingle(g) then ValidateGrid(g) else g
  }

  /** The solved board a fully solved grid spells out, by the answers of its cells. */
  ghost function BoardOf(g: Grid): (s: Solution)
    requires IsGrid(g) && AllSingle(g)
    ensures IsBoard(s)
  {
    seq(9, i requires 0 <= i < 9 => seq(9, j requires 0 <= j < 9 => Cell(g, (i + 1, j + 1)).Answer()))
  }

  /** The board's digit at a cell is the cell's answer. */
  lemma BoardOfSol(g: Grid, x: Coord)
    requires IsGrid(g) && AllSingle(g) && OnGrid(x)
    ensures Answers(g, x, Sol(BoardOf(g), x))
    ensures forall d: Digit :: Answers(g, x, d) <==> d == Sol(BoardOf(g), x)
  {
    assert Cell(g, x).HasSingleValue();
  }

  // ---------------------------------------------------------------------
  // Counting.
  // ---------------------------------------------------------------------

  lemma {:induction false} SeenCountZero(g: Grid, cells: seq<Coord>, d: Digit)
    requires IsGrid(g) && AllOnGrid(cells)
    requires forall k :: 0 <= k < |cells| ==> !Answers(g, cells[k], d)
    ensures SeenCount(g, cells, d) == 0
  {
    if |cells| > 0 {
      SeenCountZero(g, cells[..|cells| - 1], d);
    }
  }

  /** A cell counted for `d`, by its index. */
  lemma {:induction false} SeenCountPositive(g: Grid, cells: seq<Coord>, d: Digit) returns (k: int)
    requires IsGrid(g) && AllOnGrid(cells) && SeenCount(g, cells, d) > 0
    ensures 0 <= k < |cells| && Answers(g, cells[k], d)
  {
    if Answers(g, cells[|cells| - 1], d) {
      k := |cells| - 1;
    } else {
      k := SeenCountPositive(g, cells[..|cells| - 1], d);
    }
  }

  lemma {:induction false} SeenCountAtLeastOne(g: Grid, cells: seq<Coord>, d: Digit, i: int)
    requires IsGrid(g) && AllOnGrid(cells) && 0 <= i < |cells| && Answers(g, cells[i], d)
    ensures SeenCount(g, cells, d) >= 1
  {
    if i < |cells| - 1 {
      SeenCountAtLeastOne(g, cells[..|cells| - 1], d, i);
    }
  }

  lemma {:induction false} SeenCountOne(g: Grid, cells: seq<Coord>, d: Digit, i: int)
    requires IsGrid(g) && AllOnGrid(cells) && 0 <= i < |cells| && Answers(g, cells[i], d)
    requires forall k :: 0 <= k < |cells| && k != i ==> !Answers(g, cells[k], d)
    ensures SeenCount(g, cells, d) == 1
  {
    var init := cells[..|cells| - 1];
    if i == |cells| - 1 {
      SeenCountZero(g, init, d);
    } else {
      SeenCountOne(g, init, d, i);
    }
  }

  lemma {:induction false} SeenCountTwo(g: Grid, cells: seq<Coord>, d: Digit, i: int, j: int)
    requires IsGrid(g) && AllOnGrid(cells) && 0 <= i < j < |cells|
    requires Answers(g, cells[i], d) && Answers(g, cells[j], d)
    ensures SeenCount(g, cells, d) >= 2
  {
    var init := cells[..|cells| - 1];
    if j == |cells| - 1 {
      SeenCountAtLeastOne(g, init, d, i);
    } else {
      SeenCountTwo(g, init, d, i, j);
    }
  }

  /** On a solved grid, a region that passes holds every digit of the board it spells, each once. */
  lemma AllOnceToBoard(g: Grid, cells: seq<Coord>)
    requires IsGrid(g) && AllSingle(g) && AllOnGrid(cells) && AllOnce(g, cells)
    ensures Covers(BoardOf(g), cells)
    ensures forall i, j :: 0 <= i < j < |cells| ==> Sol(BoardOf(g), cells[i]) != Sol(BoardOf(g), cells[j])
  {
    var b := BoardOf(g);
    var along := DigitsAlong(b, cells);
    forall d: Digit ensures d in along {
      assert SeenCount(g, cells, d) == 1;
      var k := SeenCountPositive(g, cells, d);
      BoardOfSol(g, cells[k]);
      assert along[k] == d;
    }
    forall i, j | 0 <= i < j < |cells| ensures Sol(b, cells[i]) != Sol(b, cells[j]) {
      var d := Sol(b, cells[i]);
      assert SeenCount(g, cells, d) == 1;
      BoardOfSol(g, cells[i]);
      BoardOfSol(g, cells[j]);
      if Sol(b, cells[j]) == d {
        SeenCountTwo(g, cells, d, i, j);
      }
    }
  }

  /** On a solved grid, a region along which the board holds every digit once passes. */
  lemma BoardToAllOnce(g: Grid, cells: seq<Coord>)
    requires IsGrid(g) && AllSingle(g) && AllOnGrid(cells)
    requires Covers(BoardOf(g), cells)
    requires forall i, j :: 0 <= i < j < |cells| ==> Sol(BoardOf(g), cells[i]) != Sol(BoardOf(g), cells[j])
    ensures AllOnce(g, cells)
  {
    var b := BoardOf(g);
    var along := DigitsAlong(b, cells);
    forall d: Digit ensures SeenCount(g, cells, d) == 1 {
      assert d in along;
      var i :| 0 <= i < |cells| && along[i] == d;
      forall k | 0 <= k < |cells| && k != i ensures !Answers(g, cells[k], d) {
        BoardOfSol(g, cells[k]);
        assert k < i ==> Sol(b, cells[k]) != Sol(b, cells[i]);
        assert i < k ==> Sol(b, cells[i]) != Sol(b, cells[k]);
      }
      BoardOfSol(g, cells[i]);
      SeenCountOne(g, cells, d, i);
    }
  }

  // ---------------------------------------------------------------------
  // Validation decides exactly whether the grid spells a solution.
  // ---------------------------------------------------------------------

  /** The anchor validation uses for the box of `x`. */
  lemma AnchorOf(x: Coord) returns (k: int)
    requires OnGrid(x)
    ensures 0 <= k < 9 && OnGrid(BoxAnchors()[k]) && SameBox(x, BoxAnchors()[k])
    ensures Box9(x.0, x.1) == Box9(BoxAnchors()[k].0, BoxAnchors()[k].1)
  {
    IndexToBoxValues();
    k := 3 * (IndexToBox(x.0) - 1) + (IndexToBox(x.1) - 1);
    var a := BoxAnchors()[k];
    assert a == (3 * (IndexToBox(x.0) - 1) + 1, 3 * (IndexToBox(x.1) - 1) + 1);
    Box9SameForBox(x.0, x.1, a.0, a.1);
  }

  /** Along a row, a column or a box, a solution holds every digit, each at one cell. */
  lemma SolutionRegion(s: Solution, x: Coord, cells: seq<Coord>)
    requires IsSolution(s) && OnGrid(x)
    requires cells == RowCells(x.0) || cells == ColumnCells(x.1) || cells == Box9(x.0, x.1)
    ensures AllOnGrid(cells) && Covers(s, cells)
    ensures forall i, j :: 0 <= i < j < |cells| ==> Sol(s, cells[i]) != Sol(s, cells[j])
  {
    assert Covers(s, RowCells(x.0)) && Covers(s, ColumnCells(x.1)) && Covers(s, Box9(x.0, x.1));
    forall i, j | 0 <= i < j < |cells| ensures Sol(s, cells[i]) != Sol(s, cells[j]) {
      RegionPeers(x, cells, i, j);
    }
  }

  /** Two different entries of a row, a column or a box are peers. */
  lemma RegionPeers(x: Coord, cells: seq<Coord>, i: int, j: int)
    requires OnGrid(x)
    requires cells == RowCells(x.0) || cells == ColumnCells(x.1) || cells == Box9(x.0, x.1)
    requires 0 <= i < j < |cells|
    ensures OnGrid(cells[i]) && OnGrid(cells[j]) && ArePeers(cells[i], cells[j])
  {
    Box9Distinct(x.0, x.1);
    Box9InBox(x.0, x.1);
    assert cells[i] != cells[j];
  }

  /** Two different cells along which a board's digits are pairwise distinct hold different digits. */
  lemma DistinctAlong(b: Solution, cells: seq<Coord>, x: Coord, y: Coord)
    requires IsBoard(b) && AllOnGrid(cells)
    requires forall i, j :: 0 <= i < j < |cells| ==> Sol(b, cells[i]) != Sol(b, cells[j])
    requires x in cells && y in cells && x != y
    ensures OnGrid(x) && OnGrid(y) && Sol(b, x) != Sol(b, y)
  {
    var i :| 0 <= i < |cells| && cells[i] == x;
    var j :| 0 <= j < |cells| && cells[j] == y;
    if i < j {
      assert Sol(b, cells[i]) != Sol(b, cells[j]);
    } else {
      assert Sol(b, cells[j]) != Sol(b, cells[i]);
    }
  }

  /** Two different cells of a passing region answer different digits. */
  lemma DistinctIn(g: Grid, cells: seq<Coord>, x: Coord, y: Coord)
    requires IsGrid(g) && AllSingle(g) && AllOnGrid(cells) && AllOnce(g, cells)
    requires x in cells && y in cells && x != y
    ensures OnGrid(x) && OnGrid(y) && Sol(BoardOf(g), x) != Sol(BoardOf(g), y)
  {
    AllOnceToBoard(g, cells);
    DistinctAlong(BoardOf(g), cells, x, y);
  }

  /** A grid that passes validation has no two peers with the same answer. */
  lemma PassesPeers(g: Grid, x: Coord, y: Coord)
    requires IsGrid(g) && AllSingle(g) && ValidateResult(g) == Ok
    requires OnGrid(x) && OnGrid(y) && ArePeers(x, y)
    ensures Sol(BoardOf(g), x) != Sol(BoardOf(g), y)
  {
    if x.0 == y.0 {
      assert y in RowPeers(x) && x in RowPeers(y);
      assert AllOnce(g, RowCells(x.0));
      DistinctIn(g, RowCells(x.0), x, y);
    } else if x.1 == y.1 {
      assert y in ColumnPeers(x) && x in ColumnPeers(y);
      assert AllOnce(g, ColumnCells(x.1));
      DistinctIn(g, ColumnCells(x.1), x, y);
    } else {
      var k := AnchorOf(x);
      var a := BoxAnchors()[k];
      assert BoxOk(g, k);
      Box9Cells(a.0, a.1);
      assert SameBox(y, a);
      DistinctIn(g, Box9(a.0, a.1), x, y);
    }
  }

  /** A grid that passes validation spells a solution. */
  lemma PassesIsSolution(g: Grid)
    requires IsGrid(g) && AllSingle(g) && ValidateResult(g) == Ok
    ensures IsSolution(BoardOf(g))
  {
    var b := BoardOf(g);
    forall x | OnGrid(x) ensures Covers(b, RowCells(x.0)) && Covers(b, ColumnCells(x.1)) && Covers(b, Box9(x.0, x.1)) {
      AllOnceToBoard(g, RowCells(x.0));
      AllOnceToBoard(g, ColumnCells(x.1));
      var k := AnchorOf(x);
      assert BoxOk(g, k);
      AllOnceToBoard(g, Box9(BoxAnchors()[k].0, BoxAnchors()[k].1));
    }
    forall x, y | OnGrid(x) && OnGrid(y) && ArePeers(x, y) ensures Sol(b, x) != Sol(b, y) {
      PassesPeers(g, x, y);
    }
  }

  /** A grid that spells a solution passes validation. */
  lemma SolutionPasses(g: Grid)
    requires IsGrid(g) && AllSingle(g) && IsSolution(BoardOf(g))
    ensures ValidateResult(g) == Ok
  {
    forall r | 1 <= r <= 9 ensures AllOnce(g, RowCells(r)) {
      RegionOnce(g, (r, 1), RowCells(r));
    }
    forall c | 1 <= c <= 9 ensures AllOnce(g, ColumnCells(c)) {
      RegionOnce(g, (1, c), ColumnCells(c));
    }
    forall k | 0 <= k < 9 ensures BoxOk(g, k) {
      var a := BoxAnchors()[k];
      assert OnGrid(a);
      RegionOnce(g, a, Box9(a.0, a.1));
    }
  }

  /** On a grid that spells a solution, each row, column and box holds every digit once. */
  lemma RegionOnce(g: Grid, x: Coord, cells: seq<Coord>)
    requires IsGrid(g) && AllSingle(g) && IsSolution(BoardOf(g)) && OnGrid(x)
    requires cells == RowCells(x.0) || cells == ColumnCells(x.1) || cells == Box9(x.0, x.1)
    ensures AllOnGrid(cells) && AllOnce(g, cells)
  {
    SolutionRegion(BoardOf(g), x, cells);
    BoardToAllOnce(g, cells);
  }

  /**
   * On a grid whose every cell is solved, `validate_solution` succeeds
   * exactly when the answers form a solved sudoku.
   */
  lemma ValidateIffSolution(g: Grid)
    requires IsGrid(g) && AllSingle(g)
    ensures ValidateResult(g) == Ok <==> IsSolution(BoardOf(g))
  {
    if ValidateResult(g) == Ok {
      PassesIsSolution(g);
    }
    if IsSolution(BoardOf(g)) {
      SolutionPasses(g);
    }
  }

  /**
   * On a solved grid whose memos are valid, `validate_solution` succeeds on
   * every solution the grid admits.
   */
  lemma ValidateComplete(g: Grid, s: Solution)
    requires IsGrid(g) && AllSingle(g) && AllValid(g) && IsSolution(s) && Consistent(g, s)
    ensures ValidateResult(g) == Ok
  {
    SolvedBoard(g, s);
    SolutionPasses(g);
  }

  /** A solved grid with valid memos spells the one board it admits. */
  lemma SolvedBoard(g: Grid, s: Solution)
    requires IsGrid(g) && AllSingle(g) && AllValid(g) && IsBoard(s) && Consistent(g, s)
    ensures BoardOf(g) == s
  {
    var b := BoardOf(g);
    forall x | OnGrid(x) ensures Sol(b, x) == Sol(s, x) {
      assert Cell(g, x).HasSingleValue() && Cell(g, x).Valid() && Cell(g, x).IsPossible(Sol(s, x));
      SolvedCell(Cell(g, x), Sol(s, x));
      BoardOfAnswer(g, x);
    }
    BoardsEqual(b, s);
  }

  /** The board's digit at a cell is the cell's answer. */
  lemma BoardOfAnswer(g: Grid, x: Coord)
    requires IsGrid(g) && AllSingle(g) && OnGrid(x)
    ensures Sol(BoardOf(g), x) == Cell(g, x).Answer()
  {
  }

  /** Two boards with the same digit at every cell are equal. */
  lemma BoardsEqual(b: Solution, s: Solution)
    requires IsBoard(b) && IsBoard(s)
    requires forall x :: OnGrid(x) ==> Sol(b, x) == Sol(s, x)
    ensures b == s
  {
    forall i | 0 <= i < 9 ensures b[i] == s[i] {
      forall j | 0 <= j < 9 ensures b[i][j] == s[i][j] {
        assert Sol(b, (i + 1, j + 1)) == Sol(s, (i + 1, j + 1));
      }
    }
  }

  /** A solved cell with a valid memo answers the one digit it allows. */
  lemma SolvedCell(c: Square, d: Digit)
    requires c.HasSingleValue() && c.Valid() && c.IsPossible(d)
    ensures c.Answer() == d
  {
  }

  /** A solved grid with valid memos admits the board it spells. */
  lemma SolvedConsistent(g: Grid)
    requires IsGrid(g) && AllSingle(g) && AllValid(g)
    ensures Consistent(g, BoardOf(g))
  {
    forall x | OnGrid(x) ensures Cell(g, x).IsPossible(Sol(BoardOf(g), x)) {
      assert Cell(g, x).HasSingleValue() && Cell(g, x).Valid();
    }
  }

  // ---------------------------------------------------------------------
  // What touching changes.
  // ---------------------------------------------------------------------

  /** Every solved cell of `g` is solved in `h` with the same answer. */
  ghost predicate SameAnswers(h: Grid, g: Grid)
    requires IsGrid(h) && IsGrid(g)
  {
    forall x {:trigger Cell(h, x), Cell(g, x)} :: OnGrid(x) && Cell(g, x).HasSingleValue() ==>
      Cell(h, x).HasSingleValue() && Cell(h, x).Answer() == Cell(g, x).Answer()
  }

  /** Touching twice is touching once. */
  lemma TouchTwice(c: Square)
    ensures Touch(Touch(c)) == Touch(c)
  {
  }

  /** The grid after touching the listed cells in turn: one region's scan. */
  function TouchCells(g: Grid, cells: seq<Coord>): (r: Grid)
    requires IsGrid(g) && AllOnGrid(cells)
    ensures IsGrid(r)
  {
    if |cells| == 0 then g
    else
      var h := TouchCells(g, cells[..|cells| - 1]);
      var x := cells[|cells| - 1];
      SetCell(h, x, Touch(Cell(h, x)))
  }

  /** A scanned cell is touched, any other cell is as it was. */
  lemma {:induction false} TouchCellsCell(g: Grid, cells: seq<Coord>, x: Coord)
    requires IsGrid(g) && AllOnGrid(cells) && OnGrid(x)
    ensures Cell(TouchCells(g, cells), x) == if x in cells then Touch(Cell(g, x)) else Cell(g, x)
  {
    if |cells| > 0 {
      var init := cells[..|cells| - 1];
      TouchCellsCell(g, init, x);
      TouchTwice(Cell(g, x));
      assert cells == init + [cells[|cells| - 1]];
    }
  }

  lemma TouchRowsStepCell(g: Grid, r: int, x: Coord)
    requires IsGrid(g) && 1 <= r <= 9 && OnGrid(x)
    ensures Cell(TouchCells(TouchRows(g, r - 1), RowCells(r)), x) == Cell(TouchRows(g, r), x)
  {
    var h := TouchRows(g, r - 1);
    TouchCellsCell(h, RowCells(r), x);
    RowCellsMember(r, x);
    TouchRowsCell(g, r - 1, x);
    TouchRowsCell(g, r, x);
    TouchTwice(Cell(g, x));
  }

  /** Scanning row `r` after the rows above it leaves the rows up to `r` touched. */
  lemma TouchRowsStep(g: Grid, r: int)
    requires IsGrid(g) && 1 <= r <= 9
    ensures TouchCells(TouchRows(g, r - 1), RowCells(r)) == TouchRows(g, r)
  {
    forall x | OnGrid(x) ensures Cell(TouchCells(TouchRows(g, r - 1), RowCells(r)), x) == Cell(TouchRows(g, r), x) {
      TouchRowsStepCell(g, r, x);
    }
    GridExt(TouchCells(TouchRows(g, r - 1), RowCells(r)), TouchRows(g, r));
  }

  /** Once every row is touched, scanning any region changes nothing. */
  lemma TouchAllStable(g: Grid, cells: seq<Coord>)
    requires IsGrid(g) && AllOnGrid(cells)
    ensures TouchCells(TouchRows(g, 9), cells) == TouchRows(g, 9)
  {
    var h := TouchRows(g, 9);
    forall x | OnGrid(x) ensures Cell(TouchCells(h, cells), x) == Cell(h, x) {
      TouchCellsCell(h, cells, x);
      TouchRowsCell(g, 9, x);
      TouchTwice(Cell(g, x));
    }
    GridExt(TouchCells(h, cells), h);
  }

  lemma {:induction false} SeenCountSame(h: Grid, g: Grid, cells: seq<Coord>, d: Digit)
    requires IsGrid(h) && IsGrid(g) && AllOnGrid(cells) && SameMasks(h, g) && SameAnswers(h, g)
    ensures SeenCount(h, cells, d) == SeenCount(g, cells, d)
  {
    if |cells| > 0 {
      SameMasksAgree(h, g);
      var x := cells[|cells| - 1];
      assert Cell(h, x).HasSingleValue() == Cell(g, x).HasSingleValue();
      SeenCountSame(h, g, cells[..|cells| - 1], d);
    }
  }

  /** Grids with the same masks and answers agree on whether a region answers every digit once. */
  lemma AllOnceSame(h: Grid, g: Grid, cells: seq<Coord>)
    requires IsGrid(h) && IsGrid(g) && AllOnGrid(cells) && SameMasks(h, g) && SameAnswers(h, g)
    ensures AllOnce(h, cells) == AllOnce(g, cells)
  {
    forall d: Digit ensures SeenCount(h, cells, d) == SeenCount(g, cells, d) {
      SeenCountSame(h, g, cells, d);
    }
  }

  /** Touching rows changes no region's verdict. */
  lemma TouchRowsVerdict(g: Grid, n: int, cells: seq<Coord>)
    requires IsGrid(g) && AllOnGrid(cells)
    ensures AllOnce(TouchRows(g, n), cells) == AllOnce(g, cells)
  {
    TouchRowsAgree(g, n);
    AllOnceSame(TouchRows(g, n), g, cells);
  }

  /** The box anchors are nine cells of the grid. */
  lemma BoxAnchorsOnGrid()
    ensures |BoxAnchors()| == 9 && forall k :: 0 <= k < 9 ==> OnGrid(BoxAnchors()[k])
  {
  }

  /** Grids with the same masks and answers get the same verdicts from `validate_solution` and `done_yet`. */
  lemma VerdictsSame(h: Grid, g: Grid)
    requires IsGrid(h) && IsGrid(g) && SameMasks(h, g) && SameAnswers(h, g)
    ensures forall cells :: AllOnGrid(cells) ==> (AllOnce(h, cells) <==> AllOnce(g, cells))
    ensures ValidateResult(h) == ValidateResult(g)
    ensures AllSingle(h) == AllSingle(g)
    ensures DoneYetResult(h) == DoneYetResult(g)
  {
    forall cells | AllOnGrid(cells) ensures AllOnce(h, cells) <==> AllOnce(g, cells) {
      forall d: Digit ensures SeenCount(h, cells, d) == SeenCount(g, cells, d) {
        SeenCountSame(h, g, cells, d);
      }
    }
    SameMasksAgree(h, g);
    assert RowsOk(h, 9) == RowsOk(g, 9);
    assert ColumnsOk(h) == ColumnsOk(g);
    assert forall k :: 0 <= k < 9 ==> BoxOk(h, k) == BoxOk(g, k);
    assert AllSingle(h) == AllSingle(g);
  }

  /** Touching rows keeps every mask and answer and keeps memos valid. */
  lemma TouchRowsAgree(g: Grid, n: int)
    requires IsGrid(g)
    ensures SameMasks(TouchRows(g, n), g) && SameAnswers(TouchRows(g, n), g)
    ensures AllValid(g) ==> AllValid(TouchRows(g, n))
  {
    var h := TouchRows(g, n);
    forall x | OnGrid(x) ensures Cell(h, x).Initial? == Cell(g, x).Initial? && Cell(h, x).GetBitmap() == Cell(g, x).GetBitmap() {
      TouchRowsCell(g, n, x);
    }
    forall x | OnGrid(x) && Cell(g, x).HasSingleValue()
      ensures Cell(h, x).HasSingleValue() && Cell(h, x).Answer() == Cell(g, x).Answer()
    {
      TouchRowsCell(g, n, x);
    }
    if AllValid(g) {
      forall x | OnGrid(x) ensures Cell(h, x).Valid() {
        TouchRowsCell(g, n, x);
        assert Cell(g, x).Valid();
      }
    }
  }

  /**
   * `validate_solution` and `done_yet` only record memos: they keep every
   * mask, answer and verdict, and keep memos valid.
   */
  lemma DoneYetGridAgree(g: Grid)
    requires IsGrid(g)
    ensures SameMasks(DoneYetGrid(g), g) && SameAnswers(DoneYetGrid(g), g)
    ensures AllValid(g) ==> AllValid(DoneYetGrid(g))
    ensures DoneYetResult(DoneYetGrid(g)) == DoneYetResult(g)
    ensures ValidateResult(DoneYetGrid(g)) == ValidateResult(g)
    ensures SameMasks(ValidateGrid(g), g) && SameAnswers(ValidateGrid(g), g)
    ensures AllValid(g) ==> AllValid(ValidateGrid(g))
    ensures ValidateResult(ValidateGrid(g)) == ValidateResult(g)
  {
    var b := FirstBadRow(g, 1);
    TouchRowsAgree(g, if b == 10 then 9 else b);
    VerdictsSame(ValidateGrid(g), g);
    if !AllSingle(g) {
      forall x | OnGrid(x) ensures Cell(g, x).Initial? == Cell(g, x).Initial? {
      }
      forall x | OnGrid(x) && Cell(g, x).HasSingleValue() ensures Cell(g, x).Answer() == Cell(g, x).Answer() {
      }
    }
    VerdictsSame(DoneYetGrid(g), g);
  }
}
