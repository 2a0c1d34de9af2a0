/**
 * The values and grid-level specifications behind `Solver` (src/solver.rs):
 * its progress records, what cleaning and copying a solution do to a grid,
 * and the facts the search relies on.
 */
module SolverSpec {
  import opened Wrappers
  import opened Squares
  import opened BoxUtil
  import opened Puzzle
  import opened Rules
  import opened Constraints
  import opened Pipeline
  import opened RowMajor
  import opened GuessOrdering
  import opened Validation

  // ---------------------------------------------------------------------
  // Progress and results.
  // ---------------------------------------------------------------------

  /** `Progress`: one level of the search. `clone` is a copy of the value. */
  datatype Progress = Progress(depth: nat, totalGuesses: nat, maxDepthReached: nat)

  /** `Progress::new`: no guesses yet, and the deepest level reached is this one. */
  function NewProgress(depth: nat): Progress
  {
    Progress(depth, 0, depth)
  }

  /** Entry `k` of a progress list records level `k`. */
  predicate ChainOk(list: seq<Progress>)
  {
    forall k :: 0 <= k < |list| ==> list[k].depth == k
  }

  /**
   * `now` grew from `before`: the same levels, the outer levels untouched,
   * and the current level's counters never decrease.
   */
  predicate Grew(now: seq<Progress>, before: seq<Progress>)
  {
    && |now| == |before| > 0
    && now[..|now| - 1] == before[..|before| - 1]
    && now[|now| - 1].depth == before[|before| - 1].depth
    && now[|now| - 1].totalGuesses >= before[|before| - 1].totalGuesses
    && now[|now| - 1].maxDepthReached >= before[|before| - 1].maxDepthReached
  }

  /** The constants of src/config.rs the solver and its rules read. */
  datatype Config = Config(poeEnabled: bool, randomizeGuessList: bool, maxSearchDepth: nat)

  /**
   * What `solve` returns: `Ok(())`, an `Err` with its message, or a panic
   * (which in the source unwinds the whole search).
   */
  datatype SolveResult = Solved | Failed(msg: string) | Panicked(msg: string)

  /** How a run through the queue ended: emptied it, finished the puzzle, or hit a violation. */
  datatype QueueRun = Drained | Finished | Stopped(msg: string)

  /** The queue items for a list of cells, in order. */
  function ItemsOf(cells: seq<Coord>): (r: seq<QueueItem>)
    ensures |r| == |cells|
  {
    if |cells| == 0 then []
    else
      var x := cells[|cells| - 1];
      ItemsOf(cells[..|cells| - 1]) + [QueueItem(x.0, x.1)]
  }

  /** Item `k` stands for cell `k`. */
  lemma {:induction false} ItemsOfAt(cells: seq<Coord>)
    ensures forall k :: 0 <= k < |cells| ==> ItemsOf(cells)[k].At() == cells[k]
  {
    if |cells| > 0 {
      ItemsOfAt(cells[..|cells| - 1]);
    }
  }

  /** Enqueueing one more cell extends the items by that cell's item. */
  lemma QueueSnoc(q0: seq<QueueItem>, cells: seq<Coord>, x: Coord)
    ensures (q0 + ItemsOf(cells)) + [QueueItem(x.0, x.1)] == q0 + ItemsOf(cells + [x])
  {
    assert (cells + [x])[..|cells|] == cells;
  }

  // ---------------------------------------------------------------------
  // Cleaning.
  // ---------------------------------------------------------------------

  /** Every cell cleaned. */
  function CleanGrid(g: Grid): (r: Grid)
    requires IsGrid(g)
    ensures IsGrid(r)
  {
    seq(9, i requires 0 <= i < 9 => seq(9, j requires 0 <= j < 9 => g[i][j].Clean()))
  }

  /**
   * `now` is `g` with every cell from row `from` on and before `x` in
   * row-major order cleaned, and every other cell kept.
   */
  ghost predicate CleanedUpTo(now: Grid, g: Grid, from: int, x: Coord)
    requires IsGrid(now) && IsGrid(g)
  {
    forall y {:trigger Cell(now, y)} :: OnGrid(y) ==>
      Cell(now, y) == if from <= y.0 && RowMajorBefore(y, x) then Cell(g, y).Clean() else Cell(g, y)
  }

  /** Before the first cell of row `from`, nothing is cleaned. */
  lemma NothingCleaned(g: Grid, from: int)
    requires IsGrid(g)
    ensures CleanedUpTo(g, g, from, (from, 1))
  {
  }

  /** A grid with nothing cleaned yet is the grid itself. */
  lemma NothingCleanedSame(now: Grid, g: Grid, from: int)
    requires IsGrid(now) && IsGrid(g) && CleanedUpTo(now, g, from, (from, 1))
    ensures now == g
  {
    GridExt(now, g);
  }

  /** Cleaning the cell at `x` moves the boundary one column on. */
  lemma CleanedStep(now: Grid, g: Grid, from: int, x: Coord)
    requires IsGrid(now) && IsGrid(g) && OnGrid(x) && from <= x.0 && CleanedUpTo(now, g, from, x)
    ensures Cell(now, x) == Cell(g, x)
    ensures CleanedUpTo(SetCell(now, x, Cell(now, x).Clean()), g, from, (x.0, x.1 + 1))
  {
    assert Cell(now, x) == Cell(g, x);
    var next := SetCell(now, x, Cell(now, x).Clean());
    forall y | OnGrid(y)
      ensures Cell(next, y) == if from <= y.0 && RowMajorBefore(y, (x.0, x.1 + 1)) then Cell(g, y).Clean() else Cell(g, y)
    {
      if y != x {
        assert Cell(next, y) == Cell(now, y);
      }
    }
  }

  /** The end of row `i` is the start of row `i + 1`. */
  lemma CleanedRowEnd(now: Grid, g: Grid, from: int, i: int)
    requires IsGrid(now) && IsGrid(g) && CleanedUpTo(now, g, from, (i, 10))
    ensures CleanedUpTo(now, g, from, (i + 1, 1))
  {
    forall y | OnGrid(y) ensures RowMajorBefore(y, (i, 10)) == RowMajorBefore(y, (i + 1, 1)) {
    }
  }

  /** Cleaning every row from the first is `CleanGrid`. */
  lemma CleanedAll(now: Grid, g: Grid)
    requires IsGrid(now) && IsGrid(g) && CleanedUpTo(now, g, 1, (10, 1))
    ensures now == CleanGrid(g)
  {
    GridExt(now, CleanGrid(g));
  }

  /**
   * Cleaning every cell leaves no cell dirty and changes nothing else that
   * matters: kinds, masks and answers stay, and memos stay valid.
   */
  lemma CleanGridSpec(g: Grid)
    requires IsGrid(g)
    ensures forall y :: OnGrid(y) ==> !Cell(CleanGrid(g), y).IsDirty()
    ensures SameMasks(CleanGrid(g), g) && SameAnswers(CleanGrid(g), g)
    ensures forall y :: OnGrid(y) && !Cell(g, y).IsDirty() ==> Cell(CleanGrid(g), y) == Cell(g, y)
    ensures AllValid(g) ==> AllValid(CleanGrid(g))
  {
    var h := CleanGrid(g);
    forall y | OnGrid(y) ensures Cell(h, y) == Cell(g, y).Clean() {
    }
    if AllValid(g) {
      forall y | OnGrid(y) ensures Cell(h, y).Valid() {
        assert Cell(g, y).Valid();
      }
    }
  }

  // ---------------------------------------------------------------------
  // Copying a solution.
  // ---------------------------------------------------------------------

  /** The cell `b` after selecting the answer of `from`, when `from` is solved and its answer is possible in `b`. */
  function CopyCell(b: Square, from: Square): Square
  {
    if from.HasSingleValue() && (b.Derived? ==> b.IsPossible(from.Answer())) then b.Select(from.Answer()) else b
  }

  /** `a` is `b` after selecting the answer of the solved cell `from`. */
  predicate CopiedCell(a: Square, b: Square, from: Square)
  {
    from.HasSingleValue() && (b.Derived? ==> b.IsPossible(from.Answer())) && a == CopyCell(b, from)
  }

  /** The cells before `x` hold `g`'s cells with `h`'s answers selected; the rest are `g`'s. */
  ghost predicate CopiedBefore(now: Grid, g: Grid, h: Grid, x: Coord)
    requires IsGrid(now) && IsGrid(g) && IsGrid(h)
  {
    forall y {:trigger Cell(now, y)} :: OnGrid(y) ==>
      if RowMajorBefore(y, x) then CopiedCell(Cell(now, y), Cell(g, y), Cell(h, y)) else Cell(now, y) == Cell(g, y)
  }

  /** Every cell of `h` is solved and its answer is possible in `g`. */
  ghost predicate CanCopy(g: Grid, h: Grid)
    requires IsGrid(g) && IsGrid(h)
  {
    forall y {:trigger Cell(h, y)} :: OnGrid(y) ==>
      Cell(h, y).HasSingleValue() && (Cell(g, y).Derived? ==> Cell(g, y).IsPossible(Cell(h, y).Answer()))
  }

  /** `g` with the answer of every cell of `h` selected. */
  ghost function CopyGrid(g: Grid, h: Grid): (r: Grid)
    requires IsGrid(g) && IsGrid(h) && CanCopy(g, h)
    ensures IsGrid(r)
  {
    seq(9, i requires 0 <= i < 9 => seq(9, j requires 0 <= j < 9 => CopyCell(g[i][j], h[i][j])))
  }

  lemma CopiedStart(g: Grid, h: Grid)
    requires IsGrid(g) && IsGrid(h)
    ensures CopiedBefore(g, g, h, (1, 1))
  {
  }

  /**
   * Reading a cell with `get_single_value` keeps a grid's masks and answers
   * those of `h0`; whether the cell is solved, and its answer, are `h0`'s.
   */
  lemma TouchCellSame(h: Grid, h0: Grid, x: Coord)
    requires IsGrid(h) && IsGrid(h0) && OnGrid(x) && SameMasks(h, h0) && SameAnswers(h, h0)
    ensures Cell(h, x).HasSingleValue() == Cell(h0, x).HasSingleValue()
    ensures Cell(h, x).HasSingleValue() ==>
      && Cell(h, x).Answer() == Cell(h0, x).Answer()
      && SameMasks(SetCell(h, x, Touch(Cell(h, x))), h0)
      && SameAnswers(SetCell(h, x, Touch(Cell(h, x))), h0)
  {
    SameMasksAgree(h, h0);
    if Cell(h, x).HasSingleValue() {
      var next := SetCell(h, x, Touch(Cell(h, x)));
      forall y | OnGrid(y) ensures Cell(next, y).Initial? == Cell(h0, y).Initial? && Cell(next, y).GetBitmap() == Cell(h0, y).GetBitmap() {
        assert Cell(h, y).Initial? == Cell(h0, y).Initial? && Cell(h, y).GetBitmap() == Cell(h0, y).GetBitmap();
      }
      forall y | OnGrid(y) && Cell(h0, y).HasSingleValue()
        ensures Cell(next, y).HasSingleValue() && Cell(next, y).Answer() == Cell(h0, y).Answer()
      {
        assert Cell(h, y).HasSingleValue() && Cell(h, y).Answer() == Cell(h0, y).Answer();
      }
    }
  }

  /** Copying the cell at `x` moves the boundary one column on. */
  lemma CopiedStep(now: Grid, g: Grid, h: Grid, x: Coord, c: Square)
    requires IsGrid(now) && IsGrid(g) && IsGrid(h) && OnGrid(x)
    requires CopiedBefore(now, g, h, x) && CopiedCell(c, Cell(g, x), Cell(h, x))
    ensures CopiedBefore(SetCell(now, x, c), g, h, (x.0, x.1 + 1))
  {
    var next := SetCell(now, x, c);
    forall y | OnGrid(y)
      ensures if RowMajorBefore(y, (x.0, x.1 + 1)) then CopiedCell(Cell(next, y), Cell(g, y), Cell(h, y)) else Cell(next, y) == Cell(g, y)
    {
      if y != x {
        assert Cell(next, y) == Cell(now, y);
      }
    }
  }

  lemma CopiedRowEnd(now: Grid, g: Grid, h: Grid, i: int)
    requires IsGrid(now) && IsGrid(g) && IsGrid(h)
    requires CopiedBefore(now, g, h, (i, 10))
    ensures CopiedBefore(now, g, h, (i + 1, 1))
  {
    forall y | OnGrid(y) ensures RowMajorBefore(y, (i, 10)) == RowMajorBefore(y, (i + 1, 1)) {
    }
  }

  lemma CopyGridCell(g: Grid, h: Grid, y: Coord)
    requires IsGrid(g) && IsGrid(h) && CanCopy(g, h) && OnGrid(y)
    ensures Cell(CopyGrid(g, h), y) == CopyCell(Cell(g, y), Cell(h, y))
  {
  }

  /** Once every cell is copied, the grid is the copy. */
  lemma CopiedAll(now: Grid, g: Grid, h: Grid)
    requires IsGrid(now) && IsGrid(g) && IsGrid(h)
    requires CopiedBefore(now, g, h, (10, 1))
    ensures CanCopy(g, h) && now == CopyGrid(g, h)
  {
    forall y | OnGrid(y) ensures CopiedCell(Cell(now, y), Cell(g, y), Cell(h, y)) {
      assert RowMajorBefore(y, (10, 1));
    }
    forall y | OnGrid(y) ensures Cell(now, y) == Cell(CopyGrid(g, h), y) {
      CopyGridCell(g, h, y);
    }
    GridExt(now, CopyGrid(g, h));
  }

  /** Selecting a possible digit narrows a cell to it, solving the cell and keeping its memo valid. */
  lemma CopiedCellNarrows(a: Square, b: Square, from: Square)
    requires CopiedCell(a, b, from)
    ensures CellNarrows(a, b)
    ensures b.Valid() ==> a.Valid()
    ensures a.HasSingleValue()
    ensures b.Derived? && b.Valid() ==> a.Answer() == from.Answer()
  {
    var v := from.Answer();
    if b.Derived? {
      assert a.bitmap == BitmapValue(v);
      DigitBitCount(v);
      assert a.IsPossible(v);
    }
  }

  /** A partly copied grid only narrows the original, keeping memos valid. */
  lemma CopiedNarrows(now: Grid, g: Grid, h: Grid, x: Coord)
    requires IsGrid(now) && IsGrid(g) && IsGrid(h) && CopiedBefore(now, g, h, x)
    ensures Narrows(now, g)
    ensures AllValid(g) ==> AllValid(now)
  {
    forall y | OnGrid(y) ensures CellNarrows(Cell(now, y), Cell(g, y)) && (Cell(g, y).Valid() ==> Cell(now, y).Valid()) {
      if RowMajorBefore(y, x) {
        CopiedCellNarrows(Cell(now, y), Cell(g, y), Cell(h, y));
      }
    }
  }

  /**
   * The copy only narrows the original, solves every cell, keeps memos
   * valid, and (with valid memos) holds the answers of `h` in every cell
   * that was not a clue.
   */
  lemma CopyGridSpec(g: Grid, h: Grid)
    requires IsGrid(g) && IsGrid(h) && CanCopy(g, h)
    ensures Narrows(CopyGrid(g, h), g) && AllSingle(CopyGrid(g, h))
    ensures AllValid(g) ==> AllValid(CopyGrid(g, h))
    ensures AllValid(g) ==> forall y :: OnGrid(y) && Cell(g, y).Derived? ==>
      Cell(CopyGrid(g, h), y).HasSingleValue() && Cell(CopyGrid(g, h), y).Answer() == Cell(h, y).Answer()
  {
    var c := CopyGrid(g, h);
    forall y | OnGrid(y)
      ensures CellNarrows(Cell(c, y), Cell(g, y)) && Cell(c, y).HasSingleValue()
      ensures Cell(g, y).Valid() ==> Cell(c, y).Valid()
      ensures Cell(g, y).Derived? && Cell(g, y).Valid() ==> Cell(c, y).Answer() == Cell(h, y).Answer()
    {
      assert CopiedCell(Cell(c, y), Cell(g, y), Cell(h, y));
      CopiedCellNarrows(Cell(c, y), Cell(g, y), Cell(h, y));
    }
  }

  // ---------------------------------------------------------------------
  // Facts the search relies on.
  // ---------------------------------------------------------------------

  /** Some solution fits the grid. */
  ghost predicate Admits(g: Grid)
    requires IsGrid(g)
  {
    exists s :: IsSolution(s) && Consistent(g, s)
  }

  /** A grid that tracks a solution admits one. */
  lemma TracksAdmits(g: Grid, s: Solution)
    requires IsGrid(g) && Tracks(g, Some(s))
    ensures Admits(g) && AllValid(g)
  {
  }

  /** Every count an open cell can have appears in the ordering. */
  predicate CoversCounts(ordering: seq<nat>)
  {
    forall n :: 2 <= n <= 9 ==> n in ordering
  }

  /** `target` (when there is one) is a solution the grid admits, and the grid's memos are valid. */
  ghost predicate Tracks(g: Grid, target: Option<Solution>)
    requires IsGrid(g)
  {
    target.Some? ==> IsSolution(target.value) && Consistent(g, target.value) && AllValid(g)
  }

  /** A cell that still allows some digit has a candidate left. */
  lemma PossibleCounts(c: Square, d: Digit)
    requires c.IsPossible(d)
    ensures c.CountRemaining() >= 1
  {
    CountIsLength(c);
    assert d in c.ValuesRemaining();
  }

  /**
   * On a grid that admits a solution and is not solved, some cell has a
   * count the ordering lists, so the guess list has a cell to guess at.
   */
  lemma OpenCellQualifies(g: Grid, ordering: seq<nat>, s: Solution)
    requires IsGrid(g) && IsBoard(s) && Consistent(g, s) && !AllSingle(g) && CoversCounts(ordering)
    ensures |QualifyingNodes(g, ordering)| > 0
  {
    var y :| OnGrid(y) && !Cell(g, y).HasSingleValue();
    PossibleCounts(Cell(g, y), Sol(s, y));
    CountIsLength(Cell(g, y));
    var n := Cell(g, y).CountRemaining();
    assert n in ordering;
    var u :| 0 <= u < |ordering| && ordering[u] == n;
    var d := QualifyingFromSpec(g, ordering, 0);
    assert !NoneFrom(g, ordering, 0);
  }

  /** Guessing the solution's digit: the clone with it selected still admits the solution, with valid memos. */
  lemma ChildTracks(g: Grid, x: Coord, v: Digit, s: Solution)
    requires IsGrid(g) && OnGrid(x) && Tracks(g, Some(s)) && v == Sol(s, x)
    ensures Cell(CloneGrid(g), x).Derived? ==> Cell(CloneGrid(g), x).IsPossible(v)
    ensures var c := CloneGrid(g);
      Tracks(SetCell(c, x, Cell(c, x).Select(v)), Some(s))
  {
    var c := CloneGrid(g);
    forall y | OnGrid(y) ensures Cell(c, y).IsPossible(Sol(s, y)) && Cell(c, y).Valid() {
      assert Cell(g, y).IsPossible(Sol(s, y));
      CloneGridCells(g, y);
    }
    var child := SetCell(c, x, Cell(c, x).Select(v));
    forall y | OnGrid(y) ensures Cell(child, y).IsPossible(Sol(s, y)) && Cell(child, y).Valid() {
      if y == x {
        assert Cell(c, x).IsPossible(v);
      }
    }
  }

  /**
   * Eliminating a digit from one cell only narrows the grid, keeps memos
   * valid, and keeps every solution that does not put that digit there.
   */
  lemma EliminateStep(g: Grid, x: Coord, v: Digit, target: Option<Solution>)
    requires IsGrid(g) && OnGrid(x)
    requires Tracks(g, target) && (target.Some? ==> v != Sol(target.value, x))
    ensures Narrows(SetCell(g, x, Cell(g, x).Eliminate(v)), g)
    ensures AllValid(g) ==> AllValid(SetCell(g, x, Cell(g, x).Eliminate(v)))
    ensures Tracks(SetCell(g, x, Cell(g, x).Eliminate(v)), target)
  {
    var c := Cell(g, x);
    var h := SetCell(g, x, c.Eliminate(v));
    if c.Derived? {
      EliminateDigits(c, v);
      if c.Valid() {
        BitmapEliminationValid(c, BitmapValue(v));
      }
    }
    assert CellNarrows(Cell(h, x), c);
    if AllValid(g) {
      assert Cell(h, x).Valid();
    }
    if target.Some? {
      assert Cell(h, x).IsPossible(Sol(target.value, x));
    }
  }

  /** One pass of the rule pipeline: narrows, keeps memos valid, and keeps a tracked solution. */
  lemma PipelineStep(ks: seq<ConstraintKind>, st: Stage, memoEnabled: bool, poeEnabled: bool, x: Coord, target: Option<Solution>)
    requires IsGrid(st.grid) && OnGrid(x) && st.outcome == Ok
    ensures var e := RunFrom(ks, 0, st, memoEnabled, poeEnabled, x);
      && Narrows(e.grid, st.grid)
      && (AllValid(st.grid) ==> AllValid(e.grid))
      && (Tracks(st.grid, target) ==> Tracks(e.grid, target))
      && (target.Some? && Tracks(st.grid, target) ==> e.outcome == Ok)
  {
    var e := RunFrom(ks, 0, st, memoEnabled, poeEnabled, x);
    var s := if target.Some? then target.value else [];
    RunFromSound(ks, 0, st, memoEnabled, poeEnabled, x, s);
    RefinesNarrows(e.grid, st.grid);
    if AllValid(st.grid) {
      RefinesValid(e.grid, st.grid);
    }
    if target.Some? && Tracks(st.grid, target) {
      assert e.outcome == Ok && Consistent(e.grid, s);
      assert AllValid(e.grid);
      assert Tracks(e.grid, target);
    }
    assert Narrows(e.grid, st.grid);
    assert AllValid(st.grid) ==> AllValid(e.grid);

  }

  /** `done_yet` narrows, keeps memos valid and keeps a tracked solution. */
  lemma DoneYetKeeps(g: Grid, target: Option<Solution>)
    requires IsGrid(g)
    ensures Narrows(DoneYetGrid(g), g)
    ensures AllValid(g) ==> AllValid(DoneYetGrid(g))
    ensures Tracks(g, target) ==> Tracks(DoneYetGrid(g), target)
  {
    DoneYetGridAgree(g);
    SameMasksAgree(DoneYetGrid(g), g);
  }

  /** On a tracked solution `done_yet` never reports an invalid grid; its verdicts describe the grid it leaves. */
  lemma DoneYetVerdict(g: Grid, target: Option<Solution>)
    requires IsGrid(g)
    ensures target.Some? && Tracks(g, target) ==> !DoneYetResult(g).Invalid?
    ensures DoneYetResult(g) == Done ==> AllSingle(DoneYetGrid(g)) && ValidateResult(DoneYetGrid(g)) == Ok
    ensures DoneYetResult(g) == NotDone ==> DoneYetGrid(g) == g && !AllSingle(g)
  {
    DoneYetGridAgree(g);
    if AllSingle(g) {
      SameMasksAgree(DoneYetGrid(g), g);
      if target.Some? && Tracks(g, target) {
        ValidateComplete(g, target.value);
      }
    }
  }

  /**
   * The partner of `solve`: a fully solved, validated grid that only narrowed
   * the puzzle spells a solved sudoku that fits the puzzle as given.
   */
  lemma SolvedIsSolution(h: Grid, g: Grid)
    requires IsGrid(h) && IsGrid(g) && Narrows(h, g)
    requires AllSingle(h) && AllValid(h) && ValidateResult(h) == Ok
    ensures IsSolution(BoardOf(h)) && Consistent(g, BoardOf(h))
  {
    ValidateIffSolution(h);
    SolvedConsistent(h);
    NarrowsConsistent(h, g, BoardOf(h));
  }
}
