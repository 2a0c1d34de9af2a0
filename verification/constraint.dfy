/**
 * The propagation rules of src/constraint.rs other than process of
 * elimination: the three no-duplicates rules, the three "double double"
 * (naked pair) rules and the empty-cell check. Each takes the cell that
 * changed and updates the grid in place; each is proved against a function
 * on grids, and those functions are shown to only narrow the grid and to
 * keep every solution the grid still admits.
 */
module Constraints {
  import opened Squares
  import opened BoxUtil
  import opened Puzzle
  import opened Rules

  /** `QueueItem`: the cell whose change is being propagated (src/solver.rs). */
  datatype QueueItem = QueueItem(row: int, column: int)
  {
    function At(): Coord
    {
      (row, column)
    }
  }

  /** `Result<(), ConstraintViolation>`. */
  datatype Outcome = Ok | Violation(msg: string)

  /** The rest of the row of `x`: columns 1..9 of that row without `x`. */
  function RowPeers(x: Coord): (r: seq<Coord>)
    requires OnGrid(x)
    ensures AllOnGrid(r)
    ensures forall y :: y in r <==> OnGrid(y) && y.0 == x.0 && y != x
  {
    Remove(RowCells(x.0), x)
  }

  /** The rest of the column of `x`: rows 1..9 of that column without `x`. */
  function ColumnPeers(x: Coord): (r: seq<Coord>)
    requires OnGrid(x)
    ensures AllOnGrid(r)
    ensures forall y :: y in r <==> OnGrid(y) && y.1 == x.1 && y != x
  {
    Remove(ColumnCells(x.1), x)
  }

  /** The rest of the box of `x` (`box8`). */
  function BoxPeers(x: Coord): (r: seq<Coord>)
    requires OnGrid(x)
    ensures AllOnGrid(r)
    ensures forall y :: y in r <==> OnGrid(y) && SameBox(y, x) && y != x
  {
    Box9InBox(x.0, x.1);
    Box9Cells(x.0, x.1);
    Box8(x.0, x.1)
  }

  // ---------------------------------------------------------------------
  // Eliminating a mask from a list of cells.
  // ---------------------------------------------------------------------

  /** `bitmap_elimination(m)` applied to each listed cell in turn. */
  function EliminateAt(g: Grid, xs: seq<Coord>, m: bv9): (r: Grid)
    requires IsGrid(g) && AllOnGrid(xs)
    ensures IsGrid(r)
    decreases |xs|
  {
    if |xs| == 0 then g
    else
      var h := EliminateAt(g, xs[..|xs| - 1], m);
      var y := xs[|xs| - 1];
      SetCell(h, y, Cell(h, y).BitmapElimination(m))
  }

  /** A listed cell has the mask eliminated (once, however often it is listed); any other cell is untouched. */
  lemma {:induction false} EliminateAtCell(g: Grid, xs: seq<Coord>, m: bv9, y: Coord)
    requires IsGrid(g) && AllOnGrid(xs) && OnGrid(y)
    ensures Cell(EliminateAt(g, xs, m), y) == if y in xs then Cell(g, y).BitmapElimination(m) else Cell(g, y)
    decreases |xs|
  {
    if |xs| > 0 {
      var init, last := xs[..|xs| - 1], xs[|xs| - 1];
      EliminateAtCell(g, init, m, y);
      assert xs == init + [last];
      assert y in xs <==> y in init || y == last;
      if y == last && y in init {
        BitmapEliminationTwice(Cell(g, y), m);
      }
    }
  }

  /** Eliminating only narrows the grid. */
  lemma EliminateAtRefines(g: Grid, xs: seq<Coord>, m: bv9)
    requires IsGrid(g) && AllOnGrid(xs)
    ensures Refines(EliminateAt(g, xs, m), g)
  {
    var r := EliminateAt(g, xs, m);
    forall y | OnGrid(y) ensures CellRefines(Cell(r, y), Cell(g, y)) {
      EliminateAtCell(g, xs, m, y);
      if y in xs && Cell(g, y).Derived? {
        BitmapEliminationPossible(Cell(g, y), m);
      }
    }
  }

  /**
   * Eliminating `m` keeps a board consistent when no listed cell carries, on
   * that board, a digit of `m`.
   */
  lemma EliminateAtSound(g: Grid, xs: seq<Coord>, m: bv9, s: Solution)
    requires IsGrid(g) && AllOnGrid(xs) && IsBoard(s) && Consistent(g, s)
    requires forall k :: 0 <= k < |xs| ==> !HasDigit(m, Sol(s, xs[k]))
    ensures Consistent(EliminateAt(g, xs, m), s)
  {
    var r := EliminateAt(g, xs, m);
    forall y | OnGrid(y) ensures Cell(r, y).IsPossible(Sol(s, y)) {
      EliminateAtCell(g, xs, m, y);
      assert Cell(g, y).IsPossible(Sol(s, y));
      if y in xs && Cell(g, y).Derived? {
        BitmapEliminationPossible(Cell(g, y), m);
      }
    }
  }

  /** The loop behind every `for_each(... bitmap_elimination(bitmap))`. */
  method EliminateFromCells(p: SudokuPuzzle, xs: seq<Coord>, m: bv9)
    requires p.Valid() && AllOnGrid(xs)
    modifies p
    ensures p.Valid() && p.initialStrings == old(p.initialStrings)
    ensures p.rows == EliminateAt(old(p.rows), xs, m)
  {
    var i := 0;
    while i < |xs|
      invariant 0 <= i <= |xs|
      invariant p.Valid() && p.initialStrings == old(p.initialStrings)
      invariant p.rows == EliminateAt(old(p.rows), xs[..i], m)
    {
      assert xs[..i + 1][..i] == xs[..i];
      var s := p.GetSquare(xs[i].0, xs[i].1);
      p.SetSquare(xs[i].0, xs[i].1, s.BitmapElimination(m));
      i := i + 1;
    }
    assert xs[..|xs|] == xs;
  }

  // ---------------------------------------------------------------------
  // NoRowDuplicates, NoColumnDuplicates, NoBoxDuplicates.
  // ---------------------------------------------------------------------

  /** A solved cell's digit is removed from every other cell of the region. */
  function NoDuplicates(g: Grid, x: Coord, peers: seq<Coord>): (r: Grid)
    requires IsGrid(g) && OnGrid(x) && AllOnGrid(peers)
    ensures IsGrid(r)
  {
    if Cell(g, x).HasSingleValue() then EliminateAt(g, peers, Cell(g, x).GetBitmap()) else g
  }

  /**
   * When the trigger is solved with `v`, each open cell of the region loses
   * exactly `v`; clues and cells outside the region are left alone.
   */
  lemma NoDuplicatesCell(g: Grid, x: Coord, peers: seq<Coord>, y: Coord)
    requires IsGrid(g) && OnGrid(x) && AllOnGrid(peers) && OnGrid(y)
    requires Cell(g, x).HasSingleValue()
    ensures var v := Cell(g, x).SingleValue(); var a, b := Cell(g, y), Cell(NoDuplicates(g, x, peers), y);
      y in peers && a.Derived? ==> b.Derived? && forall d: Digit :: b.IsPossible(d) <==> a.IsPossible(d) && d != v
    ensures y !in peers || Cell(g, y).Initial? ==> Cell(NoDuplicates(g, x, peers), y) == Cell(g, y)
  {
    var m := Cell(g, x).GetBitmap();
    EliminateAtCell(g, peers, m, y);
    if y in peers && Cell(g, y).Derived? {
      BitmapEliminationPossible(Cell(g, y), m);
      SingleValueMask(Cell(g, x));
    }
  }

  /** The rule only narrows the grid. */
  lemma NoDuplicatesRefines(g: Grid, x: Coord, peers: seq<Coord>)
    requires IsGrid(g) && OnGrid(x) && AllOnGrid(peers)
    ensures Refines(NoDuplicates(g, x, peers), g)
  {
    if Cell(g, x).HasSingleValue() {
      EliminateAtRefines(g, peers, Cell(g, x).GetBitmap());
    }
  }

  /**
   * The rule keeps every board the grid admits, as long as the board's digits
   * along the region differ from the trigger's.
   */
  lemma NoDuplicatesSound(g: Grid, x: Coord, peers: seq<Coord>, s: Solution)
    requires IsGrid(g) && OnGrid(x) && AllOnGrid(peers) && IsBoard(s) && Consistent(g, s)
    requires forall k :: 0 <= k < |peers| ==> Sol(s, peers[k]) != Sol(s, x)
    ensures Consistent(NoDuplicates(g, x, peers), s)
  {
    if Cell(g, x).HasSingleValue() {
      var m := Cell(g, x).GetBitmap();
      assert Cell(g, x).IsPossible(Sol(s, x));
      SingleValueMask(Cell(g, x));
      EliminateAtSound(g, peers, m, s);
    }
  }

  /** The shared body of the three no-duplicates rules. */
  method NoDuplicatesIn(x: Coord, p: SudokuPuzzle, peers: seq<Coord>) returns (r: Outcome)
    requires p.Valid() && OnGrid(x) && AllOnGrid(peers)
    modifies p
    ensures r == Ok && p.Valid() && p.initialStrings == old(p.initialStrings)
    ensures p.rows == NoDuplicates(old(p.rows), x, peers)
  {
    var s := p.GetSquare(x.0, x.1);
    if s.HasSingleValue() {
      var bitmap := s.GetBitmap();
      EliminateFromCells(p, peers, bitmap);
    }
    r := Ok;
  }

  /** `NoRowDuplicates::process`. */
  method NoRowDuplicates(item: QueueItem, p: SudokuPuzzle) returns (r: Outcome)
    requires p.Valid() && OnGrid(item.At())
    modifies p
    ensures r == Ok && p.Valid() && p.initialStrings == old(p.initialStrings)
    ensures p.rows == NoDuplicates(old(p.rows), item.At(), RowPeers(item.At()))
  {
    r := NoDuplicatesIn(item.At(), p, RowPeers(item.At()));
  }

  /** `NoColumnDuplicates::process`. */
  method NoColumnDuplicates(item: QueueItem, p: SudokuPuzzle) returns (r: Outcome)
    requires p.Valid() && OnGrid(item.At())
    modifies p
    ensures r == Ok && p.Valid() && p.initialStrings == old(p.initialStrings)
    ensures p.rows == NoDuplicates(old(p.rows), item.At(), ColumnPeers(item.At()))
  {
    r := NoDuplicatesIn(item.At(), p, ColumnPeers(item.At()));
  }

  /** `NoBoxDuplicates::process`. */
  method NoBoxDuplicates(item: QueueItem, p: SudokuPuzzle) returns (r: Outcome)
    requires p.Valid() && OnGrid(item.At())
    modifies p
    ensures r == Ok && p.Valid() && p.initialStrings == old(p.initialStrings)
    ensures p.rows == NoDuplicates(old(p.rows), item.At(), BoxPeers(item.At()))
  {
    r := NoDuplicatesIn(item.At(), p, BoxPeers(item.At()));
  }

  // ---------------------------------------------------------------------
  // DoubleDoubleRow, DoubleDoubleColumn, DoubleDoubleBox.
  // ---------------------------------------------------------------------

  /**
   * The first `n` steps of the pair scan: a peer whose current mask equals
   * the trigger's two-digit mask `bm` removes `bm` from every other peer.
   */
  function DoubleDoubleUpTo(g: Grid, peers: seq<Coord>, bm: bv9, n: nat): (r: Grid)
    requires IsGrid(g) && AllOnGrid(peers) && n <= |peers|
    ensures IsGrid(r)
    decreases n
  {
    if n == 0 then g
    else
      var h := DoubleDoubleUpTo(g, peers, bm, n - 1);
      var y := peers[n - 1];
      if Cell(h, y).GetBitmap() == bm then EliminateAt(h, Remove(peers, y), bm) else h
  }

  /** A trigger with exactly two candidates runs the pair scan over the region; any other leaves the grid alone. */
  function DoubleDouble(g: Grid, x: Coord, peers: seq<Coord>): (r: Grid)
    requires IsGrid(g) && OnGrid(x) && AllOnGrid(peers)
    ensures IsGrid(r)
  {
    if Cell(g, x).CountRemaining() == 2 then DoubleDoubleUpTo(g, peers, Cell(g, x).GetBitmap(), |peers|) else g
  }

  /** Cells outside the region, the trigger among them, are never touched. */
  lemma {:induction false} DoubleDoubleOutside(g: Grid, peers: seq<Coord>, bm: bv9, n: nat, y: Coord)
    requires IsGrid(g) && AllOnGrid(peers) && n <= |peers| && OnGrid(y) && y !in peers
    ensures Cell(DoubleDoubleUpTo(g, peers, bm, n), y) == Cell(g, y)
    decreases n
  {
    if n > 0 {
      DoubleDoubleOutside(g, peers, bm, n - 1, y);
      var h := DoubleDoubleUpTo(g, peers, bm, n - 1);
      EliminateAtCell(h, Remove(peers, peers[n - 1]), bm, y);
    }
  }

  /** The pair scan only narrows the grid. */
  lemma {:induction false} DoubleDoubleRefines(g: Grid, peers: seq<Coord>, bm: bv9, n: nat)
    requires IsGrid(g) && AllOnGrid(peers) && n <= |peers|
    ensures Refines(DoubleDoubleUpTo(g, peers, bm, n), g)
    decreases n
  {
    if n == 0 {
      forall y | OnGrid(y) ensures CellRefines(Cell(g, y), Cell(g, y)) {
      }
    } else {
      DoubleDoubleRefines(g, peers, bm, n - 1);
      var h := DoubleDoubleUpTo(g, peers, bm, n - 1);
      if Cell(h, peers[n - 1]).GetBitmap() == bm {
        EliminateAtRefines(h, Remove(peers, peers[n - 1]), bm);
        RefinesTrans(EliminateAt(h, Remove(peers, peers[n - 1]), bm), h, g);
      }
    }
  }

  /** Two distinct candidates of a two-candidate cell are all of its candidates. */
  lemma TwoCandidates(c: Square, a: Digit, b: Digit)
    requires c.CountRemaining() == 2 && c.IsPossible(a) && c.IsPossible(b) && a != b
    ensures forall d: Digit :: c.IsPossible(d) ==> d == a || d == b
  {
    var r := c.ValuesRemaining();
    CountIsLength(c);
    assert a in r && b in r;
    assert forall d: Digit :: d in r ==> d == r[0] || d == r[1];
  }

  /** Board digits along a region through `x`: different from `x`'s and from each other. */
  ghost predicate RegionDistinct(s: Solution, x: Coord, peers: seq<Coord>)
    requires IsBoard(s) && OnGrid(x) && AllOnGrid(peers)
  {
    (forall k :: 0 <= k < |peers| ==> Sol(s, peers[k]) != Sol(s, x))
    && (forall i, j :: 0 <= i < |peers| && 0 <= j < |peers| && peers[i] != peers[j] ==> Sol(s, peers[i]) != Sol(s, peers[j]))
  }

  /**
   * When the peer `y` shows the trigger's two-digit mask, on a consistent
   * board the two digits of the mask are the board's digits at `x` and `y`.
   */
  lemma PairDigits(cx: Square, cy: Square, a: Digit, b: Digit)
    requires cx.CountRemaining() == 2 && cy.GetBitmap() == cx.GetBitmap()
    requires cx.IsPossible(a) && cy.IsPossible(b) && a != b
    ensures forall d: Digit :: HasDigit(cx.GetBitmap(), d) ==> d == a || d == b
  {
    assert HasDigit(cy.GetBitmap(), b);
    TwoCandidates(cx, a, b);
    forall d: Digit | HasDigit(cx.GetBitmap(), d) ensures d == a || d == b {
      assert cx.IsPossible(d);
    }
  }

  /** The board digits along `Remove(peers, y)` avoid the digits at `x` and at `y`. */
  lemma RestAvoidsPair(s: Solution, x: Coord, peers: seq<Coord>, y: Coord)
    requires IsBoard(s) && OnGrid(x) && AllOnGrid(peers) && y in peers && RegionDistinct(s, x, peers)
    ensures forall k :: 0 <= k < |Remove(peers, y)| ==>
      Sol(s, Remove(peers, y)[k]) != Sol(s, x) && Sol(s, Remove(peers, y)[k]) != Sol(s, y)
  {
    var rest := Remove(peers, y);
    var j :| 0 <= j < |peers| && peers[j] == y;
    forall k | 0 <= k < |rest| ensures Sol(s, rest[k]) != Sol(s, x) && Sol(s, rest[k]) != Sol(s, y) {
      assert rest[k] in peers && rest[k] != y;
      var i :| 0 <= i < |peers| && peers[i] == rest[k];
    }
  }

  /**
   * A matching peer `y` removes the pair from the rest of the region; on a
   * board the grid admits, the rest of the region holds neither digit.
   */
  lemma PairStepSound(h: Grid, x: Coord, peers: seq<Coord>, y: Coord, s: Solution)
    requires IsGrid(h) && OnGrid(x) && AllOnGrid(peers) && y in peers
    requires IsBoard(s) && RegionDistinct(s, x, peers) && Consistent(h, s)
    requires Cell(h, x).CountRemaining() == 2 && Cell(h, y).GetBitmap() == Cell(h, x).GetBitmap()
    ensures Consistent(EliminateAt(h, Remove(peers, y), Cell(h, x).GetBitmap()), s)
  {
    var a, b := Sol(s, x), Sol(s, y);
    var j :| 0 <= j < |peers| && peers[j] == y;
    assert Cell(h, x).IsPossible(a) && Cell(h, y).IsPossible(b);
    PairDigits(Cell(h, x), Cell(h, y), a, b);
    RestAvoidsPair(s, x, peers, y);
    EliminateAtSound(h, Remove(peers, y), Cell(h, x).GetBitmap(), s);
  }

  /** The pair scan keeps every board the grid admits whose region digits differ. */
  lemma {:induction false} DoubleDoubleUpToSound(g: Grid, x: Coord, peers: seq<Coord>, n: nat, s: Solution)
    requires IsGrid(g) && OnGrid(x) && AllOnGrid(peers) && x !in peers && n <= |peers|
    requires IsBoard(s) && RegionDistinct(s, x, peers) && Consistent(g, s)
    requires Cell(g, x).CountRemaining() == 2
    ensures Consistent(DoubleDoubleUpTo(g, peers, Cell(g, x).GetBitmap(), n), s)
    decreases n
  {
    var bm := Cell(g, x).GetBitmap();
    if n == 0 {
      assert DoubleDoubleUpTo(g, peers, bm, 0) == g;
    } else {
      DoubleDoubleUpToSound(g, x, peers, n - 1, s);
      var h := DoubleDoubleUpTo(g, peers, bm, n - 1);
      DoubleDoubleOutside(g, peers, bm, n - 1, x);
      assert Cell(h, x) == Cell(g, x);
      if Cell(h, peers[n - 1]).GetBitmap() == bm {
        PairStepSound(h, x, peers, peers[n - 1], s);
      } else {
        assert DoubleDoubleUpTo(g, peers, bm, n) == h;
      }
    }
  }

  /** The rule keeps every board the grid admits whose digits along the region differ. */
  lemma DoubleDoubleSound(g: Grid, x: Coord, peers: seq<Coord>, s: Solution)
    requires IsGrid(g) && OnGrid(x) && AllOnGrid(peers) && x !in peers
    requires IsBoard(s) && RegionDistinct(s, x, peers) && Consistent(g, s)
    ensures Consistent(DoubleDouble(g, x, peers), s)
  {
    if Cell(g, x).CountRemaining() == 2 {
      DoubleDoubleUpToSound(g, x, peers, |peers|, s);
    }
  }

  /** The rule only narrows the grid. */
  lemma DoubleDoubleNarrows(g: Grid, x: Coord, peers: seq<Coord>)
    requires IsGrid(g) && OnGrid(x) && AllOnGrid(peers)
    ensures Refines(DoubleDouble(g, x, peers), g)
  {
    if Cell(g, x).CountRemaining() == 2 {
      DoubleDoubleRefines(g, peers, Cell(g, x).GetBitmap(), |peers|);
    } else {
      forall y | OnGrid(y) ensures CellRefines(Cell(g, y), Cell(g, y)) {
      }
    }
  }

  /** While only the `k`-th peer matches the pair, the scan is a single elimination from the other peers. */
  lemma {:induction false} NakedPairUpTo(g: Grid, peers: seq<Coord>, bm: bv9, k: nat, n: nat)
    requires IsGrid(g) && AllOnGrid(peers) && k < |peers| && n <= |peers| && bm != 0
    requires forall i, j :: 0 <= i < j < |peers| ==> peers[i] != peers[j]
    requires forall i :: 0 <= i < |peers| ==> (Cell(g, peers[i]).GetBitmap() == bm <==> i == k)
    ensures DoubleDoubleUpTo(g, peers, bm, n) == if n <= k then g else EliminateAt(g, Remove(peers, peers[k]), bm)
    decreases n
  {
    if n > 0 {
      NakedPairUpTo(g, peers, bm, k, n - 1);
      var h := DoubleDoubleUpTo(g, peers, bm, n - 1);
      var y := peers[n - 1];
      var rest := Remove(peers, peers[k]);
      DoubleDoubleUpToNext(g, peers, bm, n);
      assert (Cell(g, y).GetBitmap() == bm) == (n - 1 == k);
      if n - 1 < k {
        assert h == g;
      } else if n - 1 == k {
        assert h == g;
      } else {
        assert h == EliminateAt(g, rest, bm);
        assert peers[n - 1] != peers[k];
        assert y in rest;
        EliminatedNoMatch(g, rest, bm, y);
      }
    }
  }

  /** One more peer of the pair scan. */
  lemma DoubleDoubleUpToNext(g: Grid, peers: seq<Coord>, bm: bv9, n: nat)
    requires IsGrid(g) && AllOnGrid(peers) && 0 < n <= |peers|
    ensures var h := DoubleDoubleUpTo(g, peers, bm, n - 1);
      DoubleDoubleUpTo(g, peers, bm, n)
      == if Cell(h, peers[n - 1]).GetBitmap() == bm then EliminateAt(h, Remove(peers, peers[n - 1]), bm) else h
  {
  }

  /** After the pair is eliminated from a listed cell that did not match it, the cell still does not match. */
  lemma EliminatedNoMatch(g: Grid, xs: seq<Coord>, bm: bv9, y: Coord)
    requires IsGrid(g) && AllOnGrid(xs) && OnGrid(y) && y in xs && bm != 0
    requires Cell(g, y).GetBitmap() != bm
    ensures Cell(EliminateAt(g, xs, bm), y).GetBitmap() != bm
  {
    var h := EliminateAt(g, xs, bm);
    EliminateAtCell(g, xs, bm, y);
    if Cell(g, y).Derived? {
      BitmapEliminationDigits(Cell(g, y), bm);
      var d := SomeDigit(bm);
      assert !HasDigit(Cell(h, y).GetBitmap(), d);
    }
  }

  /**
   * The naked pair: when the trigger has two candidates and exactly one other
   * cell of the region has the same mask, the rule removes those two
   * candidates from every other cell of the region and from nowhere else.
   */
  lemma DoubleDoubleNakedPair(g: Grid, x: Coord, peers: seq<Coord>, k: nat)
    requires IsGrid(g) && OnGrid(x) && AllOnGrid(peers) && k < |peers|
    requires forall i, j :: 0 <= i < j < |peers| ==> peers[i] != peers[j]
    requires Cell(g, x).CountRemaining() == 2
    requires forall i :: 0 <= i < |peers| ==> (Cell(g, peers[i]).GetBitmap() == Cell(g, x).GetBitmap() <==> i == k)
    ensures DoubleDouble(g, x, peers) == EliminateAt(g, Remove(peers, peers[k]), Cell(g, x).GetBitmap())
  {
    var bm := Cell(g, x).GetBitmap();
    assert Cell(g, x).Derived? && NumberOfBits(bm) == 2;
    assert NumberOfBits(0) == 0;
    NakedPairUpTo(g, peers, bm, k, |peers|);
  }

  /** The shared body of the three pair rules. */
  method DoubleDoubleIn(x: Coord, p: SudokuPuzzle, peers: seq<Coord>) returns (r: Outcome)
    requires p.Valid() && OnGrid(x) && AllOnGrid(peers)
    modifies p
    ensures r == Ok && p.Valid() && p.initialStrings == old(p.initialStrings)
    ensures p.rows == DoubleDouble(old(p.rows), x, peers)
  {
    var s := p.GetSquare(x.0, x.1);
    if s.CountRemaining() == 2 {
      var bitmap := s.GetBitmap();
      var i := 0;
      while i < |peers|
        invariant 0 <= i <= |peers|
        invariant p.Valid() && p.initialStrings == old(p.initialStrings)
        invariant p.rows == DoubleDoubleUpTo(old(p.rows), peers, bitmap, i)
      {
        var y := peers[i];
        if p.GetSquare(y.0, y.1).GetBitmap() == bitmap {
          EliminateFromCells(p, Remove(peers, y), bitmap);
        }
        i := i + 1;
      }
    }
    r := Ok;
  }

  /** `DoubleDoubleRow::process`. */
  method DoubleDoubleRow(item: QueueItem, p: SudokuPuzzle) returns (r: Outcome)
    requires p.Valid() && OnGrid(item.At())
    modifies p
    ensures r == Ok && p.Valid() && p.initialStrings == old(p.initialStrings)
    ensures p.rows == DoubleDouble(old(p.rows), item.At(), RowPeers(item.At()))
  {
    r := DoubleDoubleIn(item.At(), p, RowPeers(item.At()));
  }

  /** `DoubleDoubleColumn::process`. */
  method DoubleDoubleColumn(item: QueueItem, p: SudokuPuzzle) returns (r: Outcome)
    requires p.Valid() && OnGrid(item.At())
    modifies p
    ensures r == Ok && p.Valid() && p.initialStrings == old(p.initialStrings)
    ensures p.rows == DoubleDouble(old(p.rows), item.At(), ColumnPeers(item.At()))
  {
    r := DoubleDoubleIn(item.At(), p, ColumnPeers(item.At()));
  }

  /** `DoubleDoubleBox::process`. */
  method DoubleDoubleBox(item: QueueItem, p: SudokuPuzzle) returns (r: Outcome)
    requires p.Valid() && OnGrid(item.At())
    modifies p
    ensures r == Ok && p.Valid() && p.initialStrings == old(p.initialStrings)
    ensures p.rows == DoubleDouble(old(p.rows), item.At(), BoxPeers(item.At()))
  {
    r := DoubleDoubleIn(item.At(), p, BoxPeers(item.At()));
  }

  // ---------------------------------------------------------------------
  // AllCannotBeEliminated.
  // ---------------------------------------------------------------------

  /** `AllCannotBeEliminated::process`: a violation exactly when the trigger has no candidate left. */
  method AllCannotBeEliminated(item: QueueItem, p: SudokuPuzzle) returns (r: Outcome)
    requires p.Valid() && OnGrid(item.At())
    ensures r.Violation? <==> forall d: Digit :: !Cell(p.rows, item.At()).IsPossible(d)
    ensures r.Violation? ==> r.msg == "Contradiction"
  {
    var s := p.GetSquare(item.row, item.column);
    CountIsLength(s);
    if s.CountRemaining() == 0 {
      r := Violation("Contradiction");
    } else {
      var vs := s.ValuesRemaining();
      assert s.IsPossible(vs[0]);
      r := Ok;
    }
  }

  // ---------------------------------------------------------------------
  // The regions of a solved board.
  // ---------------------------------------------------------------------

  /** A solution's digits differ along the row, the column and the box of any cell. */
  lemma SolutionRegionsDistinct(s: Solution, x: Coord)
    requires IsSolution(s) && OnGrid(x)
    ensures RegionDistinct(s, x, RowPeers(x))
    ensures RegionDistinct(s, x, ColumnPeers(x))
    ensures RegionDistinct(s, x, BoxPeers(x))
  {
    var rp, cp, bp := RowPeers(x), ColumnPeers(x), BoxPeers(x);
    forall i, j | 0 <= i < |rp| && 0 <= j < |rp| && rp[i] != rp[j] ensures Sol(s, rp[i]) != Sol(s, rp[j]) {
      assert rp[i] in rp && rp[j] in rp && ArePeers(rp[i], rp[j]);
    }
    forall k | 0 <= k < |rp| ensures Sol(s, rp[k]) != Sol(s, x) {
      assert rp[k] in rp && ArePeers(rp[k], x);
    }
    forall i, j | 0 <= i < |cp| && 0 <= j < |cp| && cp[i] != cp[j] ensures Sol(s, cp[i]) != Sol(s, cp[j]) {
      assert cp[i] in cp && cp[j] in cp && ArePeers(cp[i], cp[j]);
    }
    forall k | 0 <= k < |cp| ensures Sol(s, cp[k]) != Sol(s, x) {
      assert cp[k] in cp && ArePeers(cp[k], x);
    }
    forall i, j | 0 <= i < |bp| && 0 <= j < |bp| && bp[i] != bp[j] ensures Sol(s, bp[i]) != Sol(s, bp[j]) {
      assert bp[i] in bp && bp[j] in bp && ArePeers(bp[i], bp[j]);
    }
    forall k | 0 <= k < |bp| ensures Sol(s, bp[k]) != Sol(s, x) {
      assert bp[k] in bp && ArePeers(bp[k], x);
    }
  }
}
