/**
 * `Solver` (src/solver.rs): a queue of changed cells run through the rule
 * pipeline, and, when the queue runs dry, a depth-first search that solves
 * a clone of the puzzle with one guess applied and copies the solution
 * back. Each solver owns its puzzle, a guess ordering and the process of
 * elimination rule (the only rule with state); the configuration constants
 * are a field.
 */
module Solving {
  import opened Wrappers
  import opened Squares
  import opened BoxUtil
  import opened Puzzle
  import opened Rules
  import opened Constraints
  import opened Elimination
  import opened RowMajor
  import opened GuessOrdering
  import opened Pipeline
  import opened Validation
  import opened SolverSpec

  /** The `max_runs` bound of `solve` on passes through the queue. */
  const MaxRuns := 30

  /** `seen[d - 1]` counts the cells answering `d`, as the `seen` array of `validate_solution` does. */
  ghost predicate Counted(seen: seq<nat>, g: Grid, cells: seq<Coord>)
    requires IsGrid(g) && AllOnGrid(cells)
  {
    |seen| == 9 && forall d: Digit :: seen[d - 1] == SeenCount(g, cells, d)
  }

  /**
   * One region of `validate_solution`: reads every solved cell's answer
   * through `get_single_value` (recording its memo), counts the answers per
   * digit, and reports whether every digit was seen exactly once.
   */
  method ScanRegion(p: SudokuPuzzle, cells: seq<Coord>) returns (ok: bool)
    requires p.Valid() && AllOnGrid(cells)
    modifies p
    ensures p.Valid() && p.initialStrings == old(p.initialStrings)
    ensures p.rows == TouchCells(old(p.rows), cells)
    ensures ok == AllOnce(old(p.rows), cells)
  {
    ghost var g0 := p.rows;
    var seen: seq<nat> := [0, 0, 0, 0, 0, 0, 0, 0, 0];
    for k := 0 to |cells|
      invariant p.Valid() && p.initialStrings == old(p.initialStrings)
      invariant p.rows == TouchCells(g0, cells[..k])
      invariant Counted(seen, g0, cells[..k])
    {
      seen := ScanCell(p, cells, k, seen, g0);
    }
    assert cells[..|cells|] == cells;
    var i := 0;
    while i < 9
      invariant 0 <= i <= 9
      invariant forall k :: 0 <= k < i ==> seen[k] == 1
    {
      if seen[i] != 1 {
        assert SeenCount(g0, cells, i + 1) != 1;
        return false;
      }
      i := i + 1;
    }
    return true;
  }

  /** The cell `cells[k]` of a region scan: a solved cell's answer is counted. */
  method ScanCell(p: SudokuPuzzle, cells: seq<Coord>, k: int, seen: seq<nat>, ghost g0: Grid) returns (next: seq<nat>)
    requires p.Valid() && AllOnGrid(cells) && 0 <= k < |cells| && IsGrid(g0)
    requires p.rows == TouchCells(g0, cells[..k])
    requires Counted(seen, g0, cells[..k])
    modifies p
    ensures p.Valid() && p.initialStrings == old(p.initialStrings)
    ensures p.rows == TouchCells(g0, cells[..k + 1])
    ensures Counted(next, g0, cells[..k + 1])
  {
    var x := cells[k];
    TouchCellsNext(g0, cells, k);
    var square := p.GetSquare(x.0, x.1);
    CountedNext(seen, g0, cells, k, square);
    if square.HasSingleValue() {
      var value, touched := GetSingleValue(square);
      p.SetSquare(x.0, x.1, touched);
      next := seen[value - 1 := seen[value - 1] + 1];
    } else {
      SetCellSame(p.rows, x);
      next := seen;
    }
  }

  /** Scanning one more cell touches it in the grid scanned so far. */
  lemma TouchCellsNext(g0: Grid, cells: seq<Coord>, k: int)
    requires IsGrid(g0) && AllOnGrid(cells) && 0 <= k < |cells|
    ensures var h := TouchCells(g0, cells[..k]);
      TouchCells(g0, cells[..k + 1]) == SetCell(h, cells[k], Touch(Cell(h, cells[k])))
  {
    assert cells[..k + 1][..k] == cells[..k];
  }

  /**
   * Counting the cell `cells[k]`, read from the grid scanned so far as
   * `square`: its answer, if any, is the one `g0` gives.
   */
  lemma CountedNext(seen: seq<nat>, g0: Grid, cells: seq<Coord>, k: int, square: Square)
    requires IsGrid(g0) && AllOnGrid(cells) && 0 <= k < |cells|
    requires Counted(seen, g0, cells[..k])
    requires square == Cell(TouchCells(g0, cells[..k]), cells[k])
    ensures square.HasSingleValue() ==> Counted(seen[square.Answer() - 1 := seen[square.Answer() - 1] + 1], g0, cells[..k + 1])
    ensures !square.HasSingleValue() ==> Counted(seen, g0, cells[..k + 1])
  {
    var x := cells[k];
    TouchCellsCell(g0, cells[..k], x);
    var next := if square.HasSingleValue() then seen[square.Answer() - 1 := seen[square.Answer() - 1] + 1] else seen;
    var prefix := cells[..k + 1];
    forall d: Digit ensures next[d - 1] == SeenCount(g0, prefix, d) {
      SeenCountNext(g0, cells, k, d);
    }
  }

  /**
   * `get_single_value` on the cell at (i, j) of `p`, which panics when the
   * cell is open (`single` false). The masks and answers stay those of `h0`.
   */
  method ReadAnswer(p: SudokuPuzzle, i: int, j: int, ghost h0: Grid) returns (single: bool, v: Digit)
    requires p.Valid() && InRange(i) && InRange(j) && IsGrid(h0)
    requires SameMasks(p.rows, h0) && SameAnswers(p.rows, h0)
    modifies p
    ensures p.Valid() && SameMasks(p.rows, h0) && SameAnswers(p.rows, h0)
    ensures single == Cell(h0, (i, j)).HasSingleValue()
    ensures single ==> v == Cell(h0, (i, j)).Answer()
  {
    TouchCellSame(p.rows, h0, (i, j));
    var square := p.GetSquare(i, j);
    if !square.HasSingleValue() {
      return false, 1;
    }
    var touched;
    v, touched := GetSingleValue(square);
    p.SetSquare(i, j, touched);
    single := true;
  }

  /**
   * A progress list: entry `k` records level `k`, and the deepest level
   * reached from the last is no shallower than it and within `maxDepth`.
   */
  predicate ProgressOk(list: seq<Progress>, maxDepth: nat)
  {
    && |list| > 0 && ChainOk(list)
    && list[|list| - 1].depth <= list[|list| - 1].maxDepthReached <= maxDepth
  }

  /** Every queued cell is on the grid. */
  predicate QueueOk(queue: seq<QueueItem>)
  {
    forall k :: 0 <= k < |queue| ==> OnGrid(queue[k].At())
  }

  predicate GuessOk(guess: Option<Coord>)
  {
    guess.Some? ==> OnGrid(guess.value)
  }

  /** A grid with no solved cell has an open cell. */
  lemma NoneSolved(g: Grid)
    requires IsGrid(g) && |ItemsOf(CellsWhere(g, IsSingle))| == 0
    ensures !AllSingle(g)
  {
    CellsWhereSpec(g, IsSingle);
    assert (1, 1) !in CellsWhere(g, IsSingle);
    assert !Cell(g, (1, 1)).HasSingleValue();
  }

  /** Appending the items of cells on the grid keeps every queued cell on the grid. */
  lemma QueueOkAppend(q0: seq<QueueItem>, cells: seq<Coord>)
    requires QueueOk(q0) && AllOnGrid(cells)
    ensures QueueOk(q0 + ItemsOf(cells))
  {
    ItemsOfAt(cells);
  }

  /**
   * The bookkeeping after a guess: the current level adds the child's
   * guesses and raises its deepest level to the child's when that is deeper.
   */
  function Merged(list: seq<Progress>, total: nat, deepest: nat): (r: seq<Progress>)
    requires |list| > 0
    ensures Grew(r, list)
    ensures r[|r| - 1].totalGuesses == list[|list| - 1].totalGuesses + total
    ensures r[|r| - 1].maxDepthReached >= deepest
    ensures r[|r| - 1].maxDepthReached == deepest || r[|r| - 1].maxDepthReached == list[|list| - 1].maxDepthReached
    ensures ChainOk(list) ==> ChainOk(r)
  {
    var last := list[|list| - 1];
    list[|list| - 1 := last.(totalGuesses := last.totalGuesses + total,
                             maxDepthReached := if deepest > last.maxDepthReached then deepest else last.maxDepthReached)]
  }

  /** `format!("{}", n)` for an unsigned integer: its decimal digits, most significant first. */
  function DecimalString(n: nat): (s: string)
    ensures 0 < |s| && (n < 10 <==> |s| == 1)
    ensures forall k :: 0 <= k < |s| ==> '0' <= s[k] <= '9'
  {
    if n < 10 then [('0' as int + n) as char]
    else DecimalString(n / 10) + [('0' as int + n % 10) as char]
  }

  /** The error of a wrong guess that leaves its cell `(i, j)` no candidate, at level `depth`. */
  function EliminatedMessage(i: nat, j: nat, depth: nat): string
  {
    "all values eliminated for a square, (" + DecimalString(i) + "," + DecimalString(j) + "), depth=" + DecimalString(depth)
  }

  class Solver {
    const puzzle: SudokuPuzzle
    const guessOrdering: SimpleGuessOrderingByTuple
    /** The process of elimination rule of `constraint_queue`, whose memo persists between items. */
    const poe: ProcessOfElimination
    const constraintQueue: seq<ConstraintKind>
    const config: Config
    var progressList: seq<Progress>
    var queue: seq<QueueItem>
    /** During search, only the guessed cell is enqueued. */
    var guess: Option<Coord>

    /**
     * The puzzle is well formed, entry `k` of the progress list records
     * level `k` and the current level is within the search depth bound, and
     * every queued or guessed cell is on the grid.
     */
    ghost predicate Valid()
      reads this, puzzle
    {
      puzzle.Valid() && ProgressOk(progressList, config.maxSearchDepth) && GuessOk(guess)
    }

    /** `target`, when there is one, is a solution the puzzle admits and every open cell's count is in the ordering. */
    ghost predicate Aim(target: Option<Solution>)
      reads this, puzzle, guessOrdering
      requires puzzle.Valid()
    {
      Tracks(puzzle.rows, target) && (target.Some? ==> CoversCounts(guessOrdering.orderingVector))
    }

    /** `new`: the eight rules in order, one progress entry at depth 0, an empty queue and no guess. */
    constructor (puzzle: SudokuPuzzle, guessOrdering: SimpleGuessOrderingByTuple, config: Config)
      requires puzzle.Valid()
      ensures Valid()
      ensures this.puzzle == puzzle && this.guessOrdering == guessOrdering && this.config == config
      ensures fresh(poe) && poe.memo == {} && poe.isMemoizationEnabled
      ensures constraintQueue == ConstraintOrder()
      ensures progressList == [NewProgress(0)] && queue == [] && guess == None
    {
      this.puzzle := puzzle;
      this.guessOrdering := guessOrdering;
      this.config := config;
      poe := new ProcessOfElimination();
      constraintQueue := [RowDuplicates, ColumnDuplicates, BoxDuplicates, PoeElimination,
                          CannotBeEliminated, DoubleRow, DoubleColumn, DoubleBox];
      progressList := [NewProgress(0)];
      queue := [];
      guess := None;
    }

    // -------------------------------------------------------------------
    // Getters.
    // -------------------------------------------------------------------

    /** `get_progress_list`: one entry per level, entry `k` for level `k`, the last for this solver. */
    function GetProgressList(): (list: seq<Progress>)
      reads this, puzzle
      requires Valid()
      ensures |list| == GetDepth() + 1
      ensures forall k :: 0 <= k < |list| ==> list[k].depth == k
    {
      progressList
    }

    /** `get_depth`: the level of this solver, one less than the number of progress entries. */
    function GetDepth(): (d: nat)
      reads this, puzzle
      requires Valid()
      ensures d == |progressList| - 1
    {
      progressList[|progressList| - 1].depth
    }

    /** `get_total_guesses`: the guesses counted at this solver's level. */
    function GetTotalGuesses(): nat
      reads this
      requires |progressList| > 0
    {
      progressList[|progressList| - 1].totalGuesses
    }

    /** `get_max_depth_reached`: never below this level, never beyond the depth bound. */
    function GetMaxDepthReached(): (m: nat)
      reads this, puzzle
      requires Valid()
      ensures GetDepth() <= m <= config.maxSearchDepth
    {
      progressList[|progressList| - 1].maxDepthReached
    }

    // -------------------------------------------------------------------
    // Setting up a solver.
    // -------------------------------------------------------------------

    /** `with_guess`: only the guessed cell will be enqueued. */
    method WithGuess(row: int, column: int)
      requires Valid() && OnGrid((row, column))
      modifies this
      ensures Valid()
      ensures guess == Some((row, column)) && progressList == old(progressList) && queue == old(queue)
    {
      guess := Some((row, column));
    }

    /**
     * `with_progress`: a copy of the parent's progress list with a fresh
     * entry for the new level appended. When the new level would exceed the
     * depth bound the source panics (`ok` false) and nothing is set.
     */
    method WithProgress(list: seq<Progress>) returns (ok: bool)
      requires Valid() && ChainOk(list)
      modifies this
      ensures Valid()
      ensures ok == (|list| <= config.maxSearchDepth)
      ensures ok ==> progressList == list + [NewProgress(|list|)] && GetDepth() == |list|
      ensures !ok ==> progressList == old(progressList)
      ensures queue == old(queue) && guess == old(guess)
    {
      var cloned: seq<Progress> := [];
      for k := 0 to |list|
        invariant cloned == list[..k]
      {
        cloned := cloned + [list[k]];
      }
      var depth := |list|;
      if depth > config.maxSearchDepth {
        return false;
      }
      cloned := cloned + [NewProgress(depth)];
      assert cloned == list + [NewProgress(depth)];
      progressList := cloned;
      ok := true;
    }

    /** `enqueue`: appends to the back of the queue. */
    method Enqueue(item: QueueItem)
      requires Valid()
      modifies this
      ensures Valid()
      ensures queue == old(queue) + [item]
      ensures progressList == old(progressList) && guess == old(guess)
    {
      queue := queue + [item];
    }

    /**
     * The start of `solve`: the guessed cell when there is one, otherwise
     * every solved cell in row-major order.
     */
    method SeedQueue()
      requires Valid()
      modifies this
      ensures Valid()
      ensures progressList == old(progressList) && guess == old(guess)
      ensures guess.Some? ==> queue == old(queue) + [QueueItem(guess.value.0, guess.value.1)]
      ensures guess.None? ==> queue == old(queue) + ItemsOf(CellsWhere(puzzle.rows, IsSingle))
      ensures QueueOk(old(queue)) ==> QueueOk(queue)
    {
      match guess
      case Some(x) =>
        Enqueue(QueueItem(x.0, x.1));
      case None =>
        ghost var q0 := queue;
        ghost var marks := MarksOf(puzzle.rows, IsSingle);
        var i := 1;
        while i <= 9
          invariant 1 <= i <= 10 && Valid() && progressList == old(progressList) && guess == old(guess)
          invariant puzzle.rows == old(puzzle.rows)
          invariant queue == q0 + ItemsOf(CollectedRows(marks, i - 1))
        {
          CollectedRowBounds(marks, i);
          SeedRow(i, q0, old(progressList), old(guess));
          i := i + 1;
        }
        if QueueOk(q0) {
          QueueOkAppend(q0, CellsWhere(puzzle.rows, IsSingle));
        }
    }

    /**
     * Midway through seeding the queue: the solved cells before `(i, j)` were
     * appended to `q0`, and nothing else changed.
     */
    ghost predicate Seeding(q0: seq<QueueItem>, list0: seq<Progress>, guess0: Option<Coord>, i: int, j: int)
      reads this, puzzle
    {
      && Valid() && progressList == list0 && guess == guess0
      && InRange(i) && 1 <= j <= 10
      && queue == q0 + ItemsOf(Collected(MarksOf(puzzle.rows, IsSingle), i, j))
    }

    /** One row of the seeding loop: its solved cells, left to right. */
    method SeedRow(i: int, ghost q0: seq<QueueItem>, ghost list0: seq<Progress>, ghost guess0: Option<Coord>)
      requires Seeding(q0, list0, guess0, i, 1)
      modifies this
      ensures Seeding(q0, list0, guess0, i, 10)
    {
      var j := 1;
      while j <= 9
        invariant 1 <= j <= 10
        invariant Seeding(q0, list0, guess0, i, j)
      {
        SeedSquare(i, j, q0, list0, guess0);
        j := j + 1;
      }
    }

    /** One cell of the seeding loop: enqueued when it has a single value. */
    method SeedSquare(i: int, j: int, ghost q0: seq<QueueItem>, ghost list0: seq<Progress>, ghost guess0: Option<Coord>)
      requires Seeding(q0, list0, guess0, i, j) && j <= 9
      modifies this
      ensures Seeding(q0, list0, guess0, i, j + 1)
    {
      ghost var before := Collected(MarksOf(puzzle.rows, IsSingle), i, j);
      CollectedNext(puzzle.rows, IsSingle, i, j);
      if puzzle.GetSquare(i, j).HasSingleValue() {
        QueueSnoc(q0, before, (i, j));
        Enqueue(QueueItem(i, j));
      }
    }

    /**
     * `clean_all`: cleans the cells of the rows `1..=0`. That range is empty,
     * so nothing is cleaned.
     */
    method CleanAll()
      requires Valid()
      modifies puzzle
      ensures Valid()
      ensures puzzle.rows == old(puzzle.rows)
    {
      CleanRows(1, 0);
      NothingCleanedSame(puzzle.rows, old(puzzle.rows), 1);
    }

    /** The loops of `clean_all` over the rows `from..=to`: each of their cells is cleaned. */
    method CleanRows(from: int, to: int)
      requires Valid() && 1 <= from <= to + 1 && to <= 9
      modifies puzzle
      ensures Valid()
      ensures CleanedUpTo(puzzle.rows, old(puzzle.rows), from, (to + 1, 1))
    {
      ghost var g0 := puzzle.rows;
      NothingCleaned(g0, from);
      var r := from;
      while r <= to
        invariant from <= r <= to + 1 && Valid()
        invariant CleanedUpTo(puzzle.rows, g0, from, (r, 1))
      {
        var c := 1;
        while c <= 9
          invariant 1 <= c <= 10 && Valid()
          invariant CleanedUpTo(puzzle.rows, g0, from, (r, c))
        {
          CleanedStep(puzzle.rows, g0, from, (r, c));
          var square := puzzle.GetSquare(r, c);
          puzzle.SetSquare(r, c, square.Clean());
          c := c + 1;
        }
        CleanedRowEnd(puzzle.rows, g0, from, r);
        r := r + 1;
      }
    }

    /**
     * `enqueue_all_dirty_and_mark_clean`: every dirty cell, in row-major
     * order, is enqueued and cleaned.
     */
    method EnqueueAllDirtyAndMarkClean()
      requires Valid()
      modifies this, puzzle
      ensures Valid()
      ensures queue == old(queue) + ItemsOf(CellsWhere(old(puzzle.rows), IsDirtyCell))
      ensures puzzle.rows == CleanGrid(old(puzzle.rows))
      ensures progressList == old(progressList) && guess == old(guess)
      ensures QueueOk(old(queue)) ==> QueueOk(queue)
    {
      ghost var g0 := puzzle.rows;
      ghost var q0 := queue;
      ghost var marks := MarksOf(g0, IsDirtyCell);
      NothingCleaned(g0, 1);
      ghost var list0, guess0 := progressList, guess;
      var i := 1;
      while i <= 9
        invariant 1 <= i <= 10 && Valid() && progressList == list0 && guess == guess0
        invariant queue == q0 + ItemsOf(CollectedRows(marks, i - 1))
        invariant CleanedUpTo(puzzle.rows, g0, 1, (i, 1))
      {
        CollectedRowBounds(marks, i);
        EnqueueDirtyRow(i, g0, q0, list0, guess0);
        CleanedRowEnd(puzzle.rows, g0, 1, i);
        i := i + 1;
      }
      CleanedAll(puzzle.rows, g0);
      if QueueOk(q0) {
        QueueOkAppend(q0, CellsWhere(g0, IsDirtyCell));
      }
    }

    /**
     * Midway through `enqueue_all_dirty_and_mark_clean` on the grid `g0`: the
     * dirty cells before `(i, j)` were appended to `q0` and cleaned, and
     * nothing else changed.
     */
    ghost predicate Draining(g0: Grid, q0: seq<QueueItem>, list0: seq<Progress>, guess0: Option<Coord>, i: int, j: int)
      reads this, puzzle
    {
      && Valid() && progressList == list0 && guess == guess0
      && IsGrid(g0) && InRange(i) && 1 <= j <= 10
      && queue == q0 + ItemsOf(Collected(MarksOf(g0, IsDirtyCell), i, j))
      && CleanedUpTo(puzzle.rows, g0, 1, (i, j))
    }

    /** One row of `enqueue_all_dirty_and_mark_clean`. */
    method EnqueueDirtyRow(i: int, ghost g0: Grid, ghost q0: seq<QueueItem>, ghost list0: seq<Progress>, ghost guess0: Option<Coord>)
      requires Draining(g0, q0, list0, guess0, i, 1)
      modifies this, puzzle
      ensures Draining(g0, q0, list0, guess0, i, 10)
    {
      var j := 1;
      while j <= 9
        invariant 1 <= j <= 10
        invariant Draining(g0, q0, list0, guess0, i, j)
      {
        EnqueueDirtySquare(i, j, g0, q0, list0, guess0);
        j := j + 1;
      }
    }

    /** One cell of `enqueue_all_dirty_and_mark_clean`: a dirty cell is enqueued and cleaned. */
    method EnqueueDirtySquare(i: int, j: int, ghost g0: Grid, ghost q0: seq<QueueItem>, ghost list0: seq<Progress>, ghost guess0: Option<Coord>)
      requires Draining(g0, q0, list0, guess0, i, j) && j <= 9
      modifies this, puzzle
      ensures Draining(g0, q0, list0, guess0, i, j + 1)
    {
      ghost var before := Collected(MarksOf(g0, IsDirtyCell), i, j);
      CollectedNext(g0, IsDirtyCell, i, j);
      CleanedStep(puzzle.rows, g0, 1, (i, j));
      var square := puzzle.GetSquare(i, j);
      if square.IsDirty() {
        QueueSnoc(q0, before, (i, j));
        Enqueue(QueueItem(i, j));
        puzzle.SetSquare(i, j, square.Clean());
      } else {
        assert square.Clean() == square;
        SetCellSame(puzzle.rows, (i, j));
      }
    }

    // -------------------------------------------------------------------
    // Propagation.
    // -------------------------------------------------------------------

    /** One rule's `process`, dispatched on its kind. */
    method ApplyConstraint(k: ConstraintKind, item: QueueItem) returns (r: Outcome)
      requires Valid() && OnGrid(item.At())
      modifies puzzle, poe
      ensures Valid() && poe.isMemoizationEnabled == old(poe.isMemoizationEnabled)
      ensures Stage(puzzle.rows, poe.memo, r)
        == Apply(k, Stage(old(puzzle.rows), old(poe.memo), Ok), poe.isMemoizationEnabled, config.poeEnabled, item.At())
    {
      match k
      case RowDuplicates => r := NoRowDuplicates(item, puzzle);
      case ColumnDuplicates => r := NoColumnDuplicates(item, puzzle);
      case BoxDuplicates => r := NoBoxDuplicates(item, puzzle);
      case PoeElimination => r := poe.Process(item, puzzle, config.poeEnabled);
      case CannotBeEliminated => r := AllCannotBeEliminated(item, puzzle);
      case DoubleRow => r := DoubleDoubleRow(item, puzzle);
      case DoubleColumn => r := DoubleDoubleColumn(item, puzzle);
      case DoubleBox => r := DoubleDoubleBox(item, puzzle);
    }

    /** `process`: the rules in order on the item, stopping at the first violation. */
    method Process(item: QueueItem) returns (r: Outcome)
      requires Valid() && OnGrid(item.At())
      modifies puzzle, poe
      ensures Valid() && poe.isMemoizationEnabled == old(poe.isMemoizationEnabled)
      ensures var st := RunFrom(constraintQueue, 0, Stage(old(puzzle.rows), old(poe.memo), Ok),
                                poe.isMemoizationEnabled, config.poeEnabled, item.At());
        puzzle.rows == st.grid && poe.memo == st.memo && r == st.outcome
    {
      ghost var start := Stage(puzzle.rows, poe.memo, Ok);
      var i := 0;
      while i < |constraintQueue|
        invariant 0 <= i <= |constraintQueue| && Valid()
        invariant poe.isMemoizationEnabled == old(poe.isMemoizationEnabled)
        invariant RunFrom(constraintQueue, i, Stage(puzzle.rows, poe.memo, Ok), poe.isMemoizationEnabled, config.poeEnabled, item.At())
          == RunFrom(constraintQueue, 0, start, poe.isMemoizationEnabled, config.poeEnabled, item.At())
      {
        r := ProcessStep(i, item);
        if r.Violation? {
          return;
        }
        i := i + 1;
      }
      r := Ok;
    }

    /** One rule of `process`: the rest of the run from rule `i` is the rest from `i + 1`, or ends here on a violation. */
    method ProcessStep(i: nat, item: QueueItem) returns (r: Outcome)
      requires Valid() && OnGrid(item.At()) && i < |constraintQueue|
      modifies puzzle, poe
      ensures Valid() && poe.isMemoizationEnabled == old(poe.isMemoizationEnabled)
      ensures var rest := RunFrom(constraintQueue, i, Stage(old(puzzle.rows), old(poe.memo), Ok),
                                  poe.isMemoizationEnabled, config.poeEnabled, item.At());
        if r.Violation? then puzzle.rows == rest.grid && poe.memo == rest.memo && r == rest.outcome
        else r == Ok && rest == RunFrom(constraintQueue, i + 1, Stage(puzzle.rows, poe.memo, Ok), poe.isMemoizationEnabled, config.poeEnabled, item.At())
    {
      RunFromStep(constraintQueue, i, Stage(puzzle.rows, poe.memo, Ok), poe.isMemoizationEnabled, config.poeEnabled, item.At());
      r := ApplyConstraint(constraintQueue[i], item);
      if r.Violation? {
        RunFromStop(constraintQueue, i + 1, Stage(puzzle.rows, poe.memo, r), poe.isMemoizationEnabled, config.poeEnabled, item.At());
      }
    }

    /**
     * The inner loop of `solve`: takes items off the front of the queue
     * and runs the rules on each, stopping at a violation (`Stopped`), or
     * when `done_yet` finds the puzzle solved (`Finished`) or invalid
     * (`Stopped`); otherwise it runs until the queue is empty (`Drained`).
     * The grid only narrows, and a solution `target` it admits stays
     * admitted and is never stopped on.
     */
    method RunQueue(ghost target: Option<Solution>) returns (r: QueueRun)
      requires Valid() && QueueOk(queue) && |queue| > 0 && Aim(target)
      modifies this, puzzle, poe
      ensures Valid() && progressList == old(progressList) && guess == old(guess)
      ensures Narrows(puzzle.rows, old(puzzle.rows))
      ensures AllValid(old(puzzle.rows)) ==> AllValid(puzzle.rows)
      ensures Aim(target)
      ensures target.Some? ==> !r.Stopped?
      ensures r.Drained? ==> queue == [] && !AllSingle(puzzle.rows)
      ensures r.Finished? ==> AllSingle(puzzle.rows) && ValidateResult(puzzle.rows) == Ok
    {
      ghost var g0 := puzzle.rows;
      ghost var list0, guess0 := progressList, guess;
      ghost var first := true;
      NarrowsSelf(g0);
      while |queue| > 0
        invariant Running(list0, guess0, g0, target)
        invariant first ==> |queue| > 0
        invariant !first ==> !AllSingle(puzzle.rows)
        decreases |queue|
      {
        var stop;
        stop, r := RunItem(list0, guess0, g0, target);
        if stop {
          return;
        }
        first := false;
      }
      r := Drained;
    }

    /**
     * Midway through the inner loop of `solve`: counters and guess as they
     * were, the grid narrowed from `g0` (with valid memos if those were), the
     * target still admitted, and the queue well formed.
     */
    ghost predicate Running(list0: seq<Progress>, guess0: Option<Coord>, g0: Grid, target: Option<Solution>)
      reads this, puzzle, guessOrdering
    {
      && Valid() && progressList == list0 && guess == guess0
      && IsGrid(g0) && Narrows(puzzle.rows, g0) && (AllValid(g0) ==> AllValid(puzzle.rows))
      && Aim(target) && QueueOk(queue)
    }

    /** One item of the inner loop of `solve`: pop it, run the rules on it, then `done_yet`. */
    method RunItem(ghost list0: seq<Progress>, ghost guess0: Option<Coord>, ghost g0: Grid, ghost target: Option<Solution>) returns (stop: bool, r: QueueRun)
      requires Running(list0, guess0, g0, target) && |queue| > 0
      modifies this, puzzle, poe
      ensures Running(list0, guess0, g0, target) && |queue| < old(|queue|)
      ensures stop ==> !r.Drained?
      ensures stop && target.Some? ==> !r.Stopped?
      ensures stop && r.Finished? ==> AllSingle(puzzle.rows) && ValidateResult(puzzle.rows) == Ok
      ensures !stop ==> !AllSingle(puzzle.rows)
    {
      var item := queue[0];
      queue := queue[1..];
      ghost var before := puzzle.rows;
      PipelineStep(constraintQueue, Stage(puzzle.rows, poe.memo, Ok), poe.isMemoizationEnabled, config.poeEnabled, item.At(), target);
      var result := Process(item);
      NarrowsTrans(puzzle.rows, before, g0);
      if result.Violation? {
        return true, Stopped(result.msg);
      }
      ghost var processed := puzzle.rows;
      DoneYetKeeps(processed, target);
      DoneYetVerdict(processed, target);
      var verdict := DoneYet();
      NarrowsTrans(puzzle.rows, processed, g0);
      match verdict
      case Done => return true, Finished;
      case Invalid(msg) => return true, Stopped(msg);
      case NotDone => return false, Drained;
    }

    // -------------------------------------------------------------------
    // Checking for a solution.
    // -------------------------------------------------------------------

    /**
     * `validate_solution`: every row, then every column, then every box must
     * answer each digit exactly once; the first failing row or column ends
     * the check, while the boxes are all scanned.
     */
    method ValidateSolution() returns (r: Outcome)
      requires Valid()
      modifies puzzle
      ensures Valid()
      ensures r == ValidateResult(old(puzzle.rows)) && puzzle.rows == ValidateGrid(old(puzzle.rows))
    {
      ghost var g0 := puzzle.rows;
      var ok := ValidateRows();
      if !ok {
        return Violation(RowsMessage);
      }
      ok := ValidateColumns(g0);
      if !ok {
        return Violation(ColumnsMessage);
      }
      ok := ValidateBoxes(g0);
      r := if ok then Ok else Violation(BoxesMessage);
    }

    /** The rows of `validate_solution`, up to the first failing one. */
    method ValidateRows() returns (ok: bool)
      requires Valid()
      modifies puzzle
      ensures Valid()
      ensures ok == RowsOk(old(puzzle.rows), 9) && puzzle.rows == ValidateGrid(old(puzzle.rows))
    {
      ghost var g0 := puzzle.rows;
      GridExt(TouchRows(g0, 0), g0);
      var row := 1;
      while row <= 9
        invariant 1 <= row <= 10 && Valid()
        invariant puzzle.rows == TouchRows(g0, row - 1)
        invariant forall q :: 1 <= q < row ==> AllOnce(g0, RowCells(q))
      {
        TouchRowsVerdict(g0, row - 1, RowCells(row));
        ok := ScanRegion(puzzle, RowCells(row));
        TouchRowsStep(g0, row);
        if !ok {
          assert FirstBadRow(g0, 1) == row;
          return;
        }
        row := row + 1;
      }
      assert FirstBadRow(g0, 1) == 10;
      ok := true;
    }

    /** The columns of `validate_solution`, once every row is touched, up to the first failing one. */
    method ValidateColumns(ghost g0: Grid) returns (ok: bool)
      requires Valid() && IsGrid(g0) && puzzle.rows == TouchRows(g0, 9)
      modifies puzzle
      ensures Valid() && puzzle.rows == old(puzzle.rows)
      ensures ok == ColumnsOk(g0)
    {
      var column := 1;
      while column <= 9
        invariant 1 <= column <= 10 && Valid()
        invariant puzzle.rows == TouchRows(g0, 9)
        invariant forall c :: 1 <= c < column ==> AllOnce(g0, ColumnCells(c))
      {
        TouchRowsVerdict(g0, 9, ColumnCells(column));
        ok := ScanRegion(puzzle, ColumnCells(column));
        TouchAllStable(g0, ColumnCells(column));
        if !ok {
          return;
        }
        column := column + 1;
      }
      ok := true;
    }

    /** The boxes of `validate_solution`, once every row is touched: all nine are scanned. */
    method ValidateBoxes(ghost g0: Grid) returns (ok: bool)
      requires Valid() && IsGrid(g0) && puzzle.rows == TouchRows(g0, 9)
      modifies puzzle
      ensures Valid() && puzzle.rows == old(puzzle.rows)
      ensures ok == BoxesOk(g0)
    {
      var anchors := BoxAnchors();
      BoxAnchorsOnGrid();
      var errorSeen := false;
      for k := 0 to 9
        invariant Valid() && puzzle.rows == TouchRows(g0, 9)
        invariant errorSeen == !BoxesOkBefore(g0, k)
      {
        var cells := Box9(anchors[k].0, anchors[k].1);
        TouchRowsVerdict(g0, 9, cells);
        var seenOnce := ScanRegion(puzzle, cells);
        TouchAllStable(g0, cells);
        assert seenOnce == BoxOk(g0, k);
        BoxesOkNext(g0, k);
        if !seenOnce {
          errorSeen := true;
        }
      }
      ok := !errorSeen;
    }

    /** `done_yet`: not done while some cell is open; otherwise the verdict of `validate_solution`. */
    method DoneYet() returns (r: Verdict)
      requires Valid()
      modifies puzzle
      ensures Valid()
      ensures r == DoneYetResult(old(puzzle.rows)) && puzzle.rows == DoneYetGrid(old(puzzle.rows))
    {
      var i := 1;
      while i <= 9
        invariant 1 <= i <= 10
        invariant forall y :: OnGrid(y) && y.0 < i ==> Cell(puzzle.rows, y).HasSingleValue()
      {
        var j := 1;
        while j <= 9
          invariant 1 <= j <= 10
          invariant forall y :: OnGrid(y) && RowMajorBefore(y, (i, j)) ==> Cell(puzzle.rows, y).HasSingleValue()
        {
          if !puzzle.GetSquare(i, j).HasSingleValue() {
            assert !Cell(puzzle.rows, (i, j)).HasSingleValue();
            return NotDone;
          }
          j := j + 1;
        }
        i := i + 1;
      }
      assert AllSingle(puzzle.rows);
      var v := ValidateSolution();
      r := if v.Ok? then Done else Invalid(v.msg);
    }

    /**
     * `copy_from_solution`: selects in every cell the answer of the solved
     * puzzle `other`, then validates. Reading an open cell of `other`,
     * selecting an impossible digit, or failing validation panics.
     */
    method CopyFromSolution(other: SudokuPuzzle) returns (r: SolveResult)
      requires Valid() && other.Valid() && other != puzzle
      modifies puzzle, other
      ensures Valid() && other.Valid()
      ensures !r.Failed?
      ensures Narrows(puzzle.rows, old(puzzle.rows))
      ensures AllValid(old(puzzle.rows)) ==> AllValid(puzzle.rows)
      ensures r.Solved? ==>
        && CanCopy(old(puzzle.rows), old(other.rows))
        && ValidateResult(CopyGrid(old(puzzle.rows), old(other.rows))) == Ok
        && puzzle.rows == ValidateGrid(CopyGrid(old(puzzle.rows), old(other.rows)))
      ensures r.Solved? ==> AllSingle(puzzle.rows) && ValidateResult(puzzle.rows) == Ok
      ensures r.Solved? <==>
        CanCopy(old(puzzle.rows), old(other.rows)) && ValidateResult(CopyGrid(old(puzzle.rows), old(other.rows))) == Ok
    {
      ghost var g0, h0 := puzzle.rows, other.rows;
      CopiedStart(g0, h0);
      var i := 1;
      while i <= 9
        invariant 1 <= i <= 10 && Valid() && other.Valid()
        invariant SameMasks(other.rows, h0) && SameAnswers(other.rows, h0)
        invariant CopiedBefore(puzzle.rows, g0, h0, (i, 1))
      {
        var j := 1;
        while j <= 9
          invariant 1 <= j <= 10 && Valid() && other.Valid()
          invariant SameMasks(other.rows, h0) && SameAnswers(other.rows, h0)
          invariant CopiedBefore(puzzle.rows, g0, h0, (i, j))
        {
          r := CopyCellFrom(other, i, j, g0, h0);
          if r.Panicked? {
            CopiedNarrows(puzzle.rows, g0, h0, (i, j));
            assert !CanCopy(g0, h0) by {
              assert OnGrid((i, j));
            }
            return;
          }
          j := j + 1;
        }
        CopiedRowEnd(puzzle.rows, g0, h0, i);
        i := i + 1;
      }
      CopiedAll(puzzle.rows, g0, h0);
      ghost var c := puzzle.rows;
      CopyGridSpec(g0, h0);
      var v := ValidateSolution();
      DoneYetGridAgree(c);
      SameMasksAgree(ValidateGrid(c), c);
      VerdictsSame(ValidateGrid(c), c);
      NarrowsTrans(puzzle.rows, c, g0);
      if v.Violation? {
        return Panicked("did not expect the possible solution to fail validation! (e=" + v.msg + ")");
      }
      r := Solved;
    }

    /** One cell of `copy_from_solution`: `get_single_value` on `other`, then `select` here. */
    method CopyCellFrom(other: SudokuPuzzle, i: int, j: int, ghost g0: Grid, ghost h0: Grid) returns (r: SolveResult)
      requires Valid() && other.Valid() && other != puzzle && InRange(i) && InRange(j)
      requires IsGrid(g0) && IsGrid(h0)
      requires SameMasks(other.rows, h0) && SameAnswers(other.rows, h0)
      requires CopiedBefore(puzzle.rows, g0, h0, (i, j))
      modifies puzzle, other
      ensures Valid() && other.Valid()
      ensures SameMasks(other.rows, h0) && SameAnswers(other.rows, h0)
      ensures r.Panicked? || r.Solved?
      ensures r.Panicked? <==>
        || !Cell(h0, (i, j)).HasSingleValue()
        || (Cell(g0, (i, j)).Derived? && !Cell(g0, (i, j)).IsPossible(Cell(h0, (i, j)).Answer()))
      ensures r.Panicked? ==> puzzle.rows == old(puzzle.rows)
      ensures r.Solved? ==> CopiedBefore(puzzle.rows, g0, h0, (i, j + 1))
    {
      var single, correct := ReadAnswer(other, i, j, h0);
      assert puzzle.rows == old(puzzle.rows);
      if !single {
        return Panicked("do not call get_single_value if no single value!");
      }
      var mine := puzzle.GetSquare(i, j);
      ghost var now := puzzle.rows;
      assert mine == Cell(g0, (i, j)) by {
        assert Cell(now, (i, j)) == Cell(g0, (i, j));
      }
      if mine.Derived? && !mine.IsPossible(correct) {
        return Panicked("cannot select");
      }
      CopiedStep(now, g0, h0, (i, j), mine.Select(correct));
      ghost var after := other.rows;
      puzzle.SetSquare(i, j, mine.Select(correct));
      assert other.rows == after;
      r := Solved;
    }
  
    // -------------------------------------------------------------------
    // solve
    // -------------------------------------------------------------------

    /** The bookkeeping of `solve` after a child solver returns. */
    method MergeProgress(total: nat, deepest: nat)
      requires Valid() && deepest <= config.maxSearchDepth
      modifies this
      ensures Valid()
      ensures progressList == Merged(old(progressList), total, deepest)
      ensures queue == old(queue) && guess == old(guess)
    {
      var last := progressList[|progressList| - 1];
      var deeper := if deepest > last.maxDepthReached then deepest else last.maxDepthReached;
      progressList := progressList[|progressList| - 1 := last.(totalGuesses := last.totalGuesses + total, maxDepthReached := deeper)];
    }

    /**
     * `solve`: enqueue the guessed cell or every solved cell, clear the dirty
     * flags, then up to `MaxRuns` times either run the queue through the
     * rules and re-enqueue the cells they changed, or, with nothing queued,
     * search. Past the last run it reports success whatever the grid holds.
     */
    method Solve() returns (r: SolveResult)
      requires Valid() && QueueOk(queue)
      modifies this, puzzle, poe
      decreases config.maxSearchDepth + 1 - |progressList|, 4
      ensures Valid() && Grew(progressList, old(progressList)) && guess == old(guess)
      ensures Narrows(puzzle.rows, old(puzzle.rows))
      ensures AllValid(old(puzzle.rows)) ==> AllValid(puzzle.rows)
      ensures r.Solved? && AllSingle(puzzle.rows) ==> ValidateResult(puzzle.rows) == Ok
      ensures Admits(old(puzzle.rows)) && AllValid(old(puzzle.rows)) && CoversCounts(guessOrdering.orderingVector) ==> !r.Failed?
    {
      ghost var g0 := puzzle.rows;
      ghost var target: Option<Solution> := None;
      if Admits(g0) && AllValid(g0) && CoversCounts(guessOrdering.orderingVector) {
        ghost var s :| IsSolution(s) && Consistent(g0, s);
        target := Some(s);
      }
      Seed();
      var run := 0;
      while run < MaxRuns
        invariant 0 <= run <= MaxRuns
        invariant Kept(old(progressList), old(guess), g0, target) && QueueOk(queue)
        invariant (run > 0 || |queue| == 0) ==> !AllSingle(puzzle.rows)
      {
        var stop;
        stop, r := SolveRun(old(progressList), old(guess), g0, target);
        if stop {
          return;
        }
        run := run + 1;
      }
      r := Solved;
    }

    /**
     * One pass of the loop of `solve`: with items queued, run them; a
     * drained queue is refilled from the dirty cells and the loop goes on.
     * With nothing queued, search.
     */
    method SolveRun(ghost list0: seq<Progress>, ghost guess0: Option<Coord>, ghost g0: Grid, ghost target: Option<Solution>) returns (stop: bool, r: SolveResult)
      requires Kept(list0, guess0, g0, target) && QueueOk(queue)
      requires |queue| == 0 ==> !AllSingle(puzzle.rows)
      modifies this, puzzle, poe
      decreases config.maxSearchDepth + 1 - |progressList|, 3
      ensures Reached(list0, guess0, g0)
      ensures !stop ==> Aim(target) && QueueOk(queue) && !AllSingle(puzzle.rows)
      ensures stop && r.Solved? && AllSingle(puzzle.rows) ==> ValidateResult(puzzle.rows) == Ok
      ensures stop && target.Some? ==> !r.Failed?
    {
      ghost var before := puzzle.rows;
      if |queue| > 0 {
        var outcome := RunQueue(target);
        match outcome
        case Stopped(msg) =>
          NarrowsTrans(puzzle.rows, before, g0);
          return true, Failed(msg);
        case Finished =>
          NarrowsTrans(puzzle.rows, before, g0);
          return true, Solved;
        case Drained =>
          ghost var drained := puzzle.rows;
          NarrowsTrans(drained, before, g0);
          Requeue(target);
          NarrowsTrans(puzzle.rows, drained, g0);
          return false, Solved;
      } else {
        r := Search(target);
        NarrowsTrans(puzzle.rows, before, g0);
        return true, r;
      }
    }
  
    /**
     * The start of `solve`: seed the queue, then `clean_all`. An empty queue
     * means no guess and no solved cell, so the grid is open.
     */
    method Seed()
      requires Valid()
      modifies this, puzzle
      ensures Valid() && progressList == old(progressList) && guess == old(guess)
      ensures puzzle.rows == old(puzzle.rows)
      ensures QueueOk(old(queue)) ==> QueueOk(queue)
      ensures |queue| == 0 ==> !AllSingle(puzzle.rows)
    {
      SeedQueue();
      if |queue| == 0 {
        NoneSolved(puzzle.rows);
      }
      CleanAll();
    }

    /**
     * After a drained queue: `enqueue_all_dirty_and_mark_clean`, which keeps
     * the masks, so the grid is still open and still admits the target.
     */
    method Requeue(ghost target: Option<Solution>)
      requires Valid() && Aim(target) && !AllSingle(puzzle.rows)
      modifies this, puzzle
      ensures Valid() && progressList == old(progressList) && guess == old(guess)
      ensures Narrows(puzzle.rows, old(puzzle.rows))
      ensures AllValid(old(puzzle.rows)) ==> AllValid(puzzle.rows)
      ensures Aim(target) && !AllSingle(puzzle.rows)
      ensures QueueOk(old(queue)) ==> QueueOk(queue)
    {
      ghost var drained := puzzle.rows;
      EnqueueAllDirtyAndMarkClean();
      CleanGridSpec(drained);
      SameMasksAgree(puzzle.rows, drained);
    }

    /**
     * What a step of the search keeps: a well-formed solver whose current
     * level only grew, the same guess, a grid that only narrowed from `g0`
     * with valid memos if those were, and the target still admitted.
     */
    ghost predicate Kept(list0: seq<Progress>, guess0: Option<Coord>, g0: Grid, target: Option<Solution>)
      reads this, puzzle, guessOrdering
    {
      Reached(list0, guess0, g0) && Aim(target)
    }

    /** Since `list0`, `guess0` and `g0`: the counters only grew, the guess stayed, and the grid only narrowed. */
    ghost predicate Reached(list0: seq<Progress>, guess0: Option<Coord>, g0: Grid)
      reads this, puzzle
    {
      && Valid() && Grew(progressList, list0) && guess == guess0
      && IsGrid(g0) && Narrows(puzzle.rows, g0) && (AllValid(g0) ==> AllValid(puzzle.rows))
    }

    /**
     * The search branch of `solve`: guesses for one cell, each tried on a
     * child solver; a wrong one is eliminated here, and a cell left with no
     * candidate, or a list run out, is an error.
     */
    method Search(ghost target: Option<Solution>) returns (r: SolveResult)
      requires Valid() && Aim(target)
      modifies this, puzzle, poe
      decreases config.maxSearchDepth + 1 - |progressList|, 2
      ensures Valid() && Grew(progressList, old(progressList)) && guess == old(guess)
      ensures Narrows(puzzle.rows, old(puzzle.rows))
      ensures AllValid(old(puzzle.rows)) ==> AllValid(puzzle.rows)
      ensures r.Solved? ==> AllSingle(puzzle.rows) && ValidateResult(puzzle.rows) == Ok
      ensures target.Some? && !AllSingle(old(puzzle.rows)) ==> !r.Failed?
    {
      ghost var g0 := puzzle.rows;
      var guesses, chosen, answer := GuessesFor(target);
      ghost var values := ValuesOf(guesses);
      ghost var hyp := target.Some? && !AllSingle(g0);
      for index := 0 to |guesses|
        invariant Kept(old(progressList), old(guess), g0, target)
        invariant |guesses| > 0 ==> OnGrid(chosen) && guesses == GuessesAt(chosen, values)
        invariant hyp ==> OnGrid(chosen) && answer == Sol(target.value, chosen)
        invariant hyp ==> answer in values && answer !in values[..index]
      {
        var (i, j, value) := guesses[index];
        assert (i, j) == chosen && value == values[index];
        ghost var before := puzzle.rows;
        var stop;
        ghost var childList;
        r, stop, childList := GuessOnce((i, j), value, target);
        NarrowsTrans(puzzle.rows, before, g0);
        if stop {
          return;
        }
        assert values[..index + 1] == values[..index] + [value];
      }
      assert values[..|guesses|] == values;
      r := Failed("no correct guesses");
    }

    /**
     * `self.guess_ordering.clone().guess_list(puzzle)`: the guesses for one
     * cell. When the grid admits `target` and is not solved, the list is for
     * an open cell and includes the target's digit there.
     */
    method GuessesFor(ghost target: Option<Solution>) returns (guesses: seq<Guess>, ghost chosen: Coord, ghost answer: int)
      requires Valid() && Aim(target)
      ensures |guesses| > 0 ==> OnGrid(chosen) && guesses == GuessesAt(chosen, ValuesOf(guesses))
      ensures target.Some? && !AllSingle(puzzle.rows) ==>
        OnGrid(chosen) && answer == Sol(target.value, chosen) && answer in ValuesOf(guesses)
    {
      var ordering := guessOrdering.Clone();
      guesses, chosen := ordering.GuessList(puzzle, config.randomizeGuessList);
      answer := 0;
      if target.Some? && !AllSingle(puzzle.rows) {
        OpenCellQualifies(puzzle.rows, guessOrdering.orderingVector, target.value);
        GuessedValues(puzzle.rows, chosen, guesses);
        answer := Sol(target.value, chosen);
        assert Cell(puzzle.rows, chosen).IsPossible(answer);
      }
    }

    /**
     * One pass of the search loop: try the guess; keep a solution, stop on a
     * panic, and otherwise eliminate the value from the cell, stopping with
     * an error when that leaves the cell no candidate.
     */
    method GuessOnce(x: Coord, value: Digit, ghost target: Option<Solution>) returns (r: SolveResult, stop: bool, ghost childList: seq<Progress>)
      requires Valid() && OnGrid(x) && Aim(target)
      modifies this, puzzle, poe
      decreases config.maxSearchDepth + 1 - |progressList|, 1
      ensures Valid() && Grew(progressList, old(progressList)) && guess == old(guess)
      ensures Narrows(puzzle.rows, old(puzzle.rows))
      ensures AllValid(old(puzzle.rows)) ==> AllValid(puzzle.rows)
      ensures !stop ==> r.Failed? && Aim(target)
      ensures !stop && target.Some? ==> value != Sol(target.value, x)
      ensures r.Solved? ==> stop && AllSingle(puzzle.rows) && ValidateResult(puzzle.rows) == Ok
      ensures stop && target.Some? ==> !r.Failed?
      ensures r.Failed? ==> puzzle.rows == SetCell(old(puzzle.rows), x, Cell(old(puzzle.rows), x).Eliminate(value))
      ensures r.Failed? ==> (stop <==> Cell(puzzle.rows, x).CountRemaining() == 0)
      ensures r.Failed? && stop ==> r == Failed(EliminatedMessage(x.0, x.1, |progressList| - 1))
      ensures !r.Panicked? ==>
        && |childList| == |progressList| + 1
        && childList[..|progressList|] == Merged(old(progressList), 1, 0)
        && progressList == Merged(Merged(old(progressList), 1, 0),
                                  childList[|childList| - 1].totalGuesses, childList[|childList| - 1].maxDepthReached)
    {
      var total, deepest;
      r, total, deepest, childList := TryGuess(x, value, target);
      if r.Panicked? {
        return r, true, childList;
      }
      if r.Solved? {
        MergeProgress(total, deepest);
        return r, true, childList;
      }
      EliminateGuess(x, value, target);
      MergeProgress(total, deepest);
      if puzzle.GetSquare(x.0, x.1).CountRemaining() == 0 {
        return Failed(EliminatedMessage(x.0, x.1, GetDepth())), true, childList;
      }
      stop := false;
    }

    /** A wrong guess is eliminated from its cell; the target's digit stays possible there. */
    method EliminateGuess(x: Coord, value: Digit, ghost target: Option<Solution>)
      requires Valid() && OnGrid(x) && Aim(target)
      requires target.Some? ==> value != Sol(target.value, x)
      modifies puzzle
      ensures Valid() && Aim(target)
      ensures puzzle.rows == SetCell(old(puzzle.rows), x, Cell(old(puzzle.rows), x).Eliminate(value))
      ensures Narrows(puzzle.rows, old(puzzle.rows))
      ensures AllValid(old(puzzle.rows)) ==> AllValid(puzzle.rows)
      ensures target.Some? ==> Cell(puzzle.rows, x).CountRemaining() >= 1
    {
      var square := puzzle.GetSquare(x.0, x.1);
      EliminateStep(puzzle.rows, x, value, target);
      puzzle.SetSquare(x.0, x.1, square.Eliminate(value));
      if target.Some? {
        assert Cell(puzzle.rows, x).IsPossible(Sol(target.value, x));
        PossibleCounts(Cell(puzzle.rows, x), Sol(target.value, x));
      }
    }

    /**
     * One guess of the search: select `value` at `x` on a clone of the
     * puzzle, count the guess, and solve the clone one level deeper; a
     * solution is copied back. Returns the child's guess count and deepest
     * level for the bookkeeping.
     */
    method TryGuess(x: Coord, value: Digit, ghost target: Option<Solution>) returns (r: SolveResult, total: nat, deepest: nat, ghost childList: seq<Progress>)
      requires Valid() && OnGrid(x) && Aim(target)
      modifies this, puzzle, poe
      decreases config.maxSearchDepth + 1 - |progressList|, 0
      ensures Valid() && Grew(progressList, old(progressList)) && guess == old(guess)
      ensures !r.Panicked? ==> progressList[|progressList| - 1].totalGuesses == old(progressList[|progressList| - 1].totalGuesses) + 1
      ensures deepest <= config.maxSearchDepth
      ensures !r.Panicked? ==>
        && progressList == Merged(old(progressList), 1, 0)
        && |childList| == |progressList| + 1 && childList[..|progressList|] == progressList
        && total == childList[|childList| - 1].totalGuesses
        && deepest == childList[|childList| - 1].maxDepthReached
      ensures Narrows(puzzle.rows, old(puzzle.rows))
      ensures AllValid(old(puzzle.rows)) ==> AllValid(puzzle.rows)
      ensures r.Failed? ==> puzzle.rows == old(puzzle.rows)
      ensures r.Solved? ==> AllSingle(puzzle.rows) && ValidateResult(puzzle.rows) == Ok
      ensures target.Some? && value == Sol(target.value, x) ==> !r.Failed?
    {
      ghost var g0 := puzzle.rows;
      var child;
      child, r := NewChild(x, value, target);
      if child == null {
        NarrowsSelf(g0);
        return r, 0, 0, [];
      }
      ghost var startList := child.progressList;
      r := child.Solve();
      total, deepest := child.GetTotalGuesses(), child.GetMaxDepthReached();
      childList := child.progressList;
      assert childList[..|progressList|] == startList[..|progressList|] == progressList;
      if r.Solved? {
        r := CopyFromSolution(child.puzzle);
      } else {
        NarrowsSelf(g0);
      }
    }

    /**
     * The set-up of one guess: a clone of the puzzle with `value` selected
     * at `x`, the guess counted here, and a child solver one level deeper
     * that enqueues only `x`. `null` with the panic when the clone cannot
     * select the value or the depth bound is passed.
     */
    method NewChild(x: Coord, value: Digit, ghost target: Option<Solution>) returns (child: Solver?, r: SolveResult)
      requires Valid() && OnGrid(x) && Aim(target)
      modifies this
      ensures Valid() && Grew(progressList, old(progressList)) && guess == old(guess)
      ensures child == null <==> r.Panicked?
      ensures child == null <==>
        || (Cell(CloneGrid(old(puzzle.rows)), x).Derived? && !Cell(CloneGrid(old(puzzle.rows)), x).IsPossible(value))
        || |old(progressList)| > config.maxSearchDepth
      ensures child != null ==>
        && child.guess == Some(x)
        && child.puzzle.rows == SetCell(CloneGrid(old(puzzle.rows)), x, Cell(CloneGrid(old(puzzle.rows)), x).Select(value))
        && child.poe.memo == {} && child.poe.isMemoizationEnabled
      ensures child != null ==>
        && progressList == Merged(old(progressList), 1, 0)
        && fresh(child) && fresh(child.puzzle) && fresh(child.poe)
        && child.Valid() && child.queue == [] && child.config == config
        && child.progressList == progressList + [NewProgress(|progressList|)]
        && child.guessOrdering.orderingVector == guessOrdering.orderingVector
      ensures child != null && target.Some? && value == Sol(target.value, x) ==>
        Admits(child.puzzle.rows) && AllValid(child.puzzle.rows)
    {
      ghost var aimed := target.Some? && value == Sol(target.value, x);
      var clone := SelectedClone(x, value, target);
      if clone == null {
        return null, Panicked("cannot select");
      }
      progressList := Merged(progressList, 1, 0);
      var ordering := guessOrdering.Clone();
      child := new Solver(clone, ordering, config);
      var ok := child.WithProgress(progressList);
      if !ok {
        return null, Panicked("max depth reached");
      }
      child.WithGuess(x.0, x.1);
      if aimed {
        TracksAdmits(child.puzzle.rows, target.value);
      }
      r := Solved;
    }

    /**
     * A clone of the puzzle with `value` selected at `x`, or `null` when the
     * clone's cell there is open and no longer allows `value`.
     */
    method SelectedClone(x: Coord, value: Digit, ghost target: Option<Solution>) returns (clone: SudokuPuzzle?)
      requires Valid() && OnGrid(x) && Aim(target)
      ensures clone == null <==> Cell(CloneGrid(puzzle.rows), x).Derived? && !Cell(CloneGrid(puzzle.rows), x).IsPossible(value)
      ensures clone != null ==>
        && fresh(clone) && clone.Valid()
        && clone.rows == SetCell(CloneGrid(puzzle.rows), x, Cell(CloneGrid(puzzle.rows), x).Select(value))
      ensures clone != null && target.Some? && value == Sol(target.value, x) ==> Tracks(clone.rows, target)
    {
      clone := new SudokuPuzzle.CloneFrom(puzzle);
      var square := clone.GetSquare(x.0, x.1);
      if target.Some? && value == Sol(target.value, x) {
        ChildTracks(puzzle.rows, x, value, target.value);
      }
      if square.Derived? && !square.IsPossible(value) {
        return null;
      }
      clone.SetSquare(x.0, x.1, square.Select(value));
    }
  }
}
