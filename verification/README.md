# Sudoku solver engine, modelled in Dafny

This project models the solving engine of the Rust program `sudoku_solver`. That engine is the 9×9 grid of candidate cells, the eight constraint rules, the queue-driven scheduler with backtracking search, and the guess ordering. The project proves the engine's properties with the Dafny verifier.

Files and what each models:

- `squares.dfy`: `src/squares.rs`.
  - A cell (`Square`) is either a clue (`Initial`) or an open cell (`Derived`). An open cell holds a 9-bit candidate mask (`bv9`), a memoized single value and a dirty flag.
  - The cell updates are functions that return the updated cell.
  - The loops and the memoizing read are methods: `eliminate_list`, `calculate_single_value` and `get_single_value`.
- `sudoku_puzzle.dfy`: `src/sudoku_puzzle.rs`. The puzzle is a class whose `rows` field is a sequence of nine rows of nine cells. `get_square` followed by an in-place update of the cell becomes `SetSquare`.
- `box_util.dfy`: the `box_util` helpers of `src/constraint.rs`.
- `constraint.dfy`: the rules of `src/constraint.rs` other than process of elimination. These are the three no-duplicates rules, the three pair ("double double") rules and `AllCannotBeEliminated`. Each rule is a method that changes the puzzle, proved equal to a function on grids. The properties are lemmas about those functions.
- `poe.dfy`: `ProcessOfElimination`.
  - It models the bitmap accumulators, the `already_selected` flags, the digit scan, and the memo set keyed by (region key, nine masks).
  - It models the `function_list_index` that stays behind after a memo hit.
  - The methods are proved against the functions `RegionStep` and `Poe`.
- `pipeline.dfy`: the fixed rule order and `Solver::process` as a function, with soundness lemmas.
- `validation.dfy`: `validate_solution` and `done_yet` as functions, and their relation to a solved sudoku.
- `row_major.dfy`: the row-major cell traversals shared by seeding, re-enqueueing and `guess_list`.
- `guess_ordering.dfy`: `src/guess_ordering.rs`.
- `rules.dfy`: what a solved sudoku is, and when one grid narrows another.
- `solver_spec.dfy`: the progress chain, cleaning, copying a solution, and the search invariants.
- `solver.dfy`: `src/solver.rs`. `Solver` is a class with the puzzle, the guess ordering, the progress list, the FIFO queue (a `seq` used front to back), the guess and the configuration.
- `wrappers.dfy`: `Option`.

The configuration constants live in src/config.rs, which is not part of this model. `Config` takes their place as a parameter: whether process of elimination runs, whether guess lists are randomized, and the maximum search depth. The memo switch is the `isMemoizationEnabled` field of `ProcessOfElimination`, which is on as in the source.

Main results:

- **Soundness of the rules.** Every rule only narrows the grid: clues stay, open cells stay open and no cell gains a candidate. On a solved sudoku that the grid admits, no rule reports a contradiction, and the grid still admits that sudoku afterwards (`Pipeline.RunFromSound`).
- **Validation.** On a grid with every cell solved, validation succeeds exactly when the answers form a solved sudoku (`Validation.ValidateIffSolution`).
- **Completeness of the search.** When the puzzle admits a solution and the guess ordering lists every candidate count, `solve` never fails. The contract also asks that every memo be consistent with its mask; `Rules.FreshGridValid` proves this for a grid read from the puzzle strings. A `Solved` result with every cell solved is validated, and it spells a solution of the puzzle as given (`Solving.Solver.Solve`, `SolverSpec.SolvedIsSolution`).
- **Progress chain.** Entry `k` of the chain records level `k`, and the search depth stays within the configured bound (`Solving.Solver.Valid`).

The following behaviours of the source are reproduced as written:

- `clean_all` walks the rows `1..=0`, so it cleans nothing.
- `eliminate_list` combines the digits with XOR, so a digit listed twice stays possible.
- After a memo hit, process of elimination keys the later regions with the stale `function_list_index`.
- `solve` returns `Ok` once its 30 passes run out, even when the grid is unsolved.
- Running out of guesses is always an error.

## Model

| member | source | states |
|---|---|---|
| Squares.BitmapValue | src/squares.rs:1-4 | entry 0 of the bitmap table is the full mask; entry v (1..9) holds digit v and no other |
| Squares.NumberOfBitsIsBitCount | src/squares.rs:42-47 | the recursive `number_of_bits` (clear the lowest bit until zero) equals the number of digits in the mask |
| Squares.CalculateSingleValue | src/squares.rs:48-57 | on a non-empty mask (an empty one panics) returns the highest digit the mask holds |
| Squares.Square.GetBitmap | src/squares.rs:182 | a clue's mask holds exactly its own digit |
| Squares.Square.IsPossible | src/squares.rs:140-142 | digit v is possible exactly when its bit is in the mask; for an open cell, v = 0 asks whether the mask is non-empty |
| Squares.Square.ValuesRemaining | src/squares.rs:143-149 | the possible digits, strictly ascending, each digit listed iff possible |
| Squares.CountIsLength | src/squares.rs:63-65 | `count_remaining` equals the length of `values_remaining`, at most 9 |
| Squares.DigitList | src/squares.rs:143-149 | the ascending digit list of a mask is strictly increasing, holds exactly the mask's digits, and is as long as its popcount |
| Squares.GetSingleValueNomut | src/squares.rs:69-74 | panics unless one candidate is left (a requires); returns that candidate |
| Squares.GetSingleValue | src/squares.rs:76-88 | panics unless one candidate is left; returns the memo if there is one, otherwise computes and stores it; with a valid memo the answer is the one candidate, and later calls return the same value |
| Squares.Square.Answer | src/squares.rs:80-87 | with a valid memo, the answer `get_single_value` gives is the one remaining candidate |
| Squares.Square.Memoized | src/squares.rs:80-87 | after the call, mask and dirty flag are unchanged, an open cell's memo holds the answer, and a valid memo stays valid |
| Squares.Square.BitmapElimination | src/squares.rs:112-119 | a clue is unchanged; an open cell keeps its memo and turns dirty iff it was dirty or its mask changed |
| Squares.BitmapEliminationDigits | src/squares.rs:112-119 | the new mask holds exactly the old digits not in `m`, so bits are only removed |
| Squares.BitmapEliminationPossible | src/squares.rs:112-119 | after eliminating `m`, a digit is possible iff it was possible and is not in `m` |
| Squares.BitmapEliminationTwice | src/squares.rs:112-119 | eliminating the same mask twice is eliminating it once |
| Squares.Square.Eliminate | src/squares.rs:89-95 | panics on an open cell unless 1 ≤ v ≤ 9; is `bitmap_elimination` of v's table entry; a clue is unchanged (src/squares.rs:172) |
| Squares.EliminateDigits | src/squares.rs:89-95 | `eliminate(v)` removes exactly v and marks the cell dirty iff it was dirty or v was possible |
| Squares.EliminateList | src/squares.rs:96-111 | an open cell eliminates the XOR of the listed table entries; a clue ignores the list (src/squares.rs:173) |
| Squares.XorOfValuesParity | src/squares.rs:97-100 | a digit is in the XOR-accumulated mask iff it and 0 together occur an odd number of times in the list |
| Squares.EliminateListDistinct | src/squares.rs:96-101 | listing distinct digits removes every listed digit and nothing else |
| Squares.EliminateListRepeated | src/squares.rs:96-101 | a digit listed twice cancels out: the mask is unchanged |
| Squares.Square.Select | src/squares.rs:120-135 | on an open cell, panics unless v is possible; a no-op (dirty untouched) when the mask already is v's entry; otherwise the mask becomes {v} and the cell turns dirty; a clue is unchanged (src/squares.rs:175) |
| Squares.Square.Clean | src/squares.rs:137-139 | the cell is no longer dirty; kind and mask are kept |
| Squares.Square.Clone | src/squares.rs:60-62 | same kind and same mask, clean and with a valid memo; a clue clones to itself (src/squares.rs:165-167) |
| Squares.NewDerived | src/squares.rs:36-41 | an open cell with all nine candidates, not dirty |
| Squares.CopyDerived | src/squares.rs:30-35 | an open cell with the given mask, not dirty, no memo |
| Squares.NewInitial | src/squares.rs:157-162 | requires a digit 1..9 (the source asserts it); a clue with that single value, never dirty |
| Squares.SingleValueMask | src/squares.rs:66-68 | the mask of a cell with a single value holds that value and nothing else |
| Puzzle.SudokuPuzzle.constructor | src/sudoku_puzzle.rs:13-23 | requires nine strings of nine accepted characters (the source asserts the lengths); stores the strings and the grid they describe |
| Puzzle.GridOfCells | src/sudoku_puzzle.rs:90-109 | a space becomes an open cell with nine candidates, clean; a digit becomes a clue of that digit |
| Puzzle.SudokuPuzzle.CloneFrom | src/sudoku_puzzle.rs:24-56 | copies the strings unchanged and clones every cell |
| Rules.FreshGridValid | src/sudoku_puzzle.rs:13-23 | a grid read from the puzzle strings has every memo consistent with its mask (none is set), which is the memo hypothesis of `solve`'s completeness |
| Rules.CloneGridValid | src/sudoku_puzzle.rs:24-56 | a cloned grid has every memo consistent with its mask |
| Puzzle.CloneGridCells | src/sudoku_puzzle.rs:24-56 | every cell of the clone has the same kind, mask and count as the original, and is clean with a valid memo |
| Puzzle.SudokuPuzzle.GetSquare | src/sudoku_puzzle.rs:57-59 | (row, column) addresses `rows[row - 1][column - 1]` |
| Puzzle.SudokuPuzzle.SetSquare | src/sudoku_puzzle.rs:57-59 | writing back the cell obtained from `get_square` changes that cell only |
| Puzzle.CloneThenSelect | src/sudoku_puzzle.rs:145-173 | selecting in a fresh clone leaves the original grid unchanged and changes only that cell of the clone |
| BoxUtil.IndexToBox | src/constraint.rs:582-593 | panics outside 1..9; the band b satisfies 3(b - 1) < i ≤ 3b |
| BoxUtil.IndexToBoxValues | src/constraint.rs:582-593 | 1-3 map to 1, 4-6 to 2, 7-9 to 3 |
| BoxUtil.Box9 | src/constraint.rs:566-581 | nine cells, all on the grid |
| BoxUtil.Box9Cells | src/constraint.rs:566-581 | holds exactly the cells of the box of (row, column), that cell included |
| BoxUtil.Box9RowMajor | src/constraint.rs:566-581 | the cells come in strictly increasing row-major order |
| BoxUtil.Box9Distinct | src/constraint.rs:566-581 | the nine cells are pairwise different |
| BoxUtil.Box9SameForBox | src/constraint.rs:566-581 | every cell of the same box gets the same list |
| BoxUtil.Remove | src/constraint.rs:560-565 | the `filter` keeps exactly the entries other than x |
| BoxUtil.Box8Cells | src/constraint.rs:560-565 | eight entries, `box9` with (row, column) cut out and the order kept, holding exactly the other cells of the box |
| Constraints.EliminateFromCells | src/constraint.rs:515-518 | the `for_each(bitmap_elimination)` loop equals eliminating the mask along the listed cells |
| Constraints.EliminateAtCell | src/constraint.rs:515-518 | a listed cell has the mask eliminated (once, however often it is listed); every other cell is untouched |
| Constraints.NoRowDuplicates | src/constraint.rs:509-521 | always Ok; the grid becomes the no-duplicates elimination along the rest of the row |
| Constraints.NoColumnDuplicates | src/constraint.rs:544-556 | always Ok; the same along the rest of the column |
| Constraints.NoBoxDuplicates | src/constraint.rs:656-667 | always Ok; the same along `box8` |
| Constraints.NoDuplicatesCell | src/constraint.rs:509-521 | when the trigger is solved with v, each open cell of the region loses exactly v; clues and cells outside the region are unchanged |
| Constraints.NoDuplicatesRefines | src/constraint.rs:509-521 | the rule only narrows the grid |
| Constraints.NoDuplicatesSound | src/constraint.rs:509-521 | the rule keeps every board the grid admits whose region digits differ from the trigger's |
| Constraints.DoubleDoubleRow | src/constraint.rs:142-158 | always Ok; the grid becomes the pair scan along the rest of the row |
| Constraints.DoubleDoubleColumn | src/constraint.rs:103-119 | always Ok; the same along the column |
| Constraints.DoubleDoubleBox | src/constraint.rs:62-80 | always Ok; the same along `box8` |
| Constraints.DoubleDoubleNakedPair | src/constraint.rs:142-158 | with two candidates at the trigger and exactly one other region cell showing the same mask, the pair is removed from every other region cell and from nowhere else |
| Constraints.DoubleDoubleOutside | src/constraint.rs:142-158 | cells outside the region, the trigger among them, are never touched |
| Constraints.DoubleDoubleNarrows | src/constraint.rs:142-158 | the pair rules only narrow the grid |
| Constraints.DoubleDoubleSound | src/constraint.rs:142-158 | the pair rules keep every board the grid admits whose region digits differ |
| Constraints.AllCannotBeEliminated | src/constraint.rs:181-190 | Err("Contradiction") iff the trigger has no candidate left; the puzzle is not modified |
| Elimination.ProcessOfElimination.constructor | src/constraint.rs:200-211 | an empty memo, with memoization on |
| Elimination.CollectMasks | src/constraint.rs:332-335 | `bitmaps` are the masks of the region's cells, in order |
| Elimination.AlreadySelected | src/constraint.rs:339-356 | the flags after the loop over the one-bit masks |
| Elimination.SelectedMeaning | src/constraint.rs:339-356 | `already_selected[d - 1]` holds iff some mask of the region is exactly d's bit |
| Elimination.OneBitDigit | src/constraint.rs:344-355 | the match maps each one-bit mask to the digit whose bit it is |
| Elimination.Accumulators | src/constraint.rs:388-396 | the loop computes `set_ever`, `set_odd` and `set_two_plus_times` over the masks |
| Elimination.AccumulatorCounts | src/constraint.rs:388-396 | digit by digit: `set_ever` iff some mask holds it, `set_odd` iff an odd number do, `set_two_plus_times` iff at least two do |
| Elimination.OnceCounts | src/constraint.rs:404 | `set_exactly_once` holds a digit iff exactly one mask holds it |
| Elimination.EverCounts | src/constraint.rs:398-402 | `set_ever` is 511 iff every digit is held by some mask (otherwise the region is a contradiction) |
| Elimination.ScanDigit | src/constraint.rs:421-432 | the scan loop selects the digit in every cell where it is still possible and computes `found` / `found_two_plus` |
| Elimination.ScanCells | src/constraint.rs:421-432 | a scanned cell that allowed v is narrowed to v; every other cell is kept |
| Elimination.ScanFound | src/constraint.rs:421-432 | `found` iff some scanned cell allowed v |
| Elimination.ScanFoundTwice | src/constraint.rs:421-432 | `found_two_plus` iff two scanned cells allowed v |
| Elimination.ScanSound | src/constraint.rs:421-440 | when the board puts v at one cell and no other cell allows it, the scan keeps the board, finds v and never twice |
| Elimination.SelectDigits | src/constraint.rs:409-444 | the digit loop over the exactly-once, not-already-selected digits |
| Elimination.DigitsRefines | src/constraint.rs:409-444 | the digit loop only narrows the grid |
| Elimination.DigitsSound | src/constraint.rs:409-444 | on a board the grid admits, no digit fails and the board is kept |
| Elimination.ProcessOfElimination.RegionKey | src/constraint.rs:300-384 | the region's cells, their masks, the memo key built from `unique_key` at the current index, and whether the memo holds it |
| Elimination.ProcessOfElimination.ProcessRegion | src/constraint.rs:278-454 | one region of the `try_fold` equals `RegionStep` on the puzzle, the memo and the index |
| Elimination.ProcessOfElimination.CheckRegion | src/constraint.rs:388-454 | the coverage check then the digit loop equal `RegionCheck` |
| Elimination.ProcessOfElimination.DigitLoop | src/constraint.rs:409-454 | the digit loop and, on success, the memo entry and index advance equal `RegionDigits` |
| Elimination.RegionMemo | src/constraint.rs:370-454 | a recorded key skips the region unchanged; a key is recorded only by a region that succeeds, which also advances the index; a violation leaves memo and index alone |
| Elimination.RegionRefines | src/constraint.rs:278-454 | a region only narrows the grid |
| Elimination.RegionSound | src/constraint.rs:278-454 | on a solution the grid admits, a region reports no contradiction and keeps the solution |
| Elimination.StaleColumnKey | src/constraint.rs:300-385 | when the row's key is already recorded, the row is skipped without advancing the index, so the column is keyed by the row number instead of `10 + column` |
| Elimination.RegionsFromMemoGrows | src/constraint.rs:452 | the memo only grows |
| Elimination.ProcessOfElimination.Process | src/constraint.rs:232-467 | with the rule switched off nothing happens; otherwise row, column and box in turn, stopping at the first violation; equals `Poe` on grid, memo and outcome |
| Elimination.PoeSound | src/constraint.rs:232-467 | the rule only narrows the grid, and on a solution the grid admits it reports no contradiction and keeps that solution |
| Pipeline.Apply | src/solver.rs:250-257 | only process of elimination touches the memo |
| Pipeline.ApplyRefines | src/solver.rs:250-257 | every rule only narrows the grid |
| Pipeline.ApplyKeeps | src/solver.rs:250-257 | on a solution the grid admits, every rule is Ok and keeps the solution |
| Pipeline.RunFromSound | src/solver.rs:250-257 | the rules in order only narrow the grid; on an admitted solution they end Ok and keep it |
| Solving.Solver.constructor | src/solver.rs:100-133 | the eight rules in the order row, column, box, elimination, all-cannot-be-eliminated, pair row, pair column, pair box; one progress entry at depth 0; empty queue; no guess |
| Solving.Solver.GetProgressList | src/solver.rs:62-64 | one entry per level, entry k for level k |
| Solving.Solver.GetDepth | src/solver.rs:65-67 | the level of this solver, one less than the number of entries |
| Solving.Solver.GetMaxDepthReached | src/solver.rs:76-79 | never below this level and never beyond the depth bound |
| Solving.Solver.WithGuess | src/solver.rs:134-136 | the guess is set; progress and queue are kept |
| Solving.Solver.WithProgress | src/solver.rs:137-152 | panics (false, nothing changed) when the parent chain is longer than the depth bound; otherwise the chain is the parent's, unchanged, plus `Progress::new(len)` (src/solver.rs:33-39) |
| Solving.Solver.Enqueue | src/solver.rs:157-159 | appends to the back of the queue |
| Solving.Solver.CleanAll | src/solver.rs:160-162 | the empty row range cleans nothing: the grid is unchanged |
| Solving.Solver.SeedQueue | src/solver.rs:268-280 | a set guess enqueues only the guessed cell; otherwise every solved cell, in row-major order |
| RowMajor.CellsWhereSpec | src/solver.rs:274-278 | a full row-major pass collects exactly the cells passing the test, in strictly row-major order |
| Solving.Solver.EnqueueAllDirtyAndMarkClean | src/solver.rs:242-249 | appends exactly the dirty cells, row-major, and cleans every cell |
| SolverSpec.CleanGridSpec | src/solver.rs:242-249 | after cleaning no cell is dirty; kinds, masks and answers stay, and memos stay valid |
| Solving.ScanRegion | src/solver.rs:178-190 | one region's count loop reports whether every digit is answered exactly once, and records the memos it reads |
| Solving.Solver.ValidateSolution | src/solver.rs:176-230 | rows, then columns, then all nine boxes; the first failing row or column ends it; equals `ValidateResult` |
| Validation.ValidateIffSolution | src/solver.rs:176-230 | on a fully solved grid, validation is Ok iff the answers form a solved sudoku |
| Validation.ValidateComplete | src/solver.rs:176-230 | on a solved grid with valid memos, validation passes for every solution the grid admits |
| Validation.SolvedBoard | src/solver.rs:176-230 | a solved grid with valid memos spells the one board it admits |
| Validation.DoneYetGridAgree | src/solver.rs:176-241 | validation and `done_yet` only record memos: masks, answers and verdicts are kept |
| Solving.Solver.DoneYet | src/solver.rs:231-241 | not done while any cell is open; otherwise the verdict of validation |
| SolverSpec.DoneYetVerdict | src/solver.rs:231-241 | on a tracked solution `done_yet` never reports invalid; Done means a solved, validated grid; NotDone means an open cell and no change |
| Solving.Solver.Process | src/solver.rs:250-257 | the rules in order on the item, stopping at the first violation; equals `RunFrom` |
| SolverSpec.PipelineStep | src/solver.rs:289-297 | one item's pass narrows, keeps memos valid, keeps a tracked solution and is then Ok |
| Solving.Solver.RunQueue | src/solver.rs:289-309 | drains the queue front first; with a target solution never stops on a violation; Finished means solved and validated; Drained means empty queue and an open grid |
| Solving.Solver.Solve | src/solver.rs:258-423 | narrows the grid, keeps memos valid, and only grows the progress chain; a Solved result with every cell solved is validated; when the puzzle admits a solution and the ordering lists every count, it never fails |
| SolverSpec.SolvedIsSolution | src/solver.rs:258-423 | a solved, validated grid that only narrowed the puzzle spells a solved sudoku that fits the puzzle as given |
| Solving.Solver.Search | src/solver.rs:313-417 | with a target solution and an open grid it never fails; Solved means solved and validated |
| Solving.Solver.GuessesFor | src/solver.rs:314 | the list is for one cell; with a target and an open grid, that cell's target digit is among the guesses |
| SolverSpec.OpenCellQualifies | src/guess_ordering.rs:48-61 | an open grid that admits a solution has a cell whose count the ordering lists |
| Solving.Solver.GuessOnce | src/solver.rs:321-411 | success stops with a validated grid; a failed child leaves the grid with `value` eliminated at the cell, and the loop stops exactly when that leaves the cell no candidate, with the error naming the cell and the depth; the current level adds the child's guesses and takes the larger deepest level |
| Solving.Solver.TryGuess | src/solver.rs:328-386 | the guess is counted at this level; the returned total and deepest level are the child's, whose chain extends this one by one level; a failed child leaves the grid unchanged; guessing the target digit never fails |
| Solving.Solver.NewChild | src/solver.rs:328-336 | panics (null) exactly when the clone's cell is open and no longer allows the value, or the chain is longer than the depth bound; otherwise a fresh child whose grid is the clone with the value selected at the cell, whose guess is that cell, whose memo is empty with memoization on, whose chain is this one plus a new level, with an empty queue and a copied ordering; the guess is counted |
| Solving.Solver.SelectedClone | src/solver.rs:329-331 | null (the `select` panic) iff the clone's cell is open and no longer allows the value; otherwise the clone with the value selected there |
| SolverSpec.ChildTracks | src/solver.rs:329-331 | selecting the solution's digit in the clone keeps the solution admitted, with valid memos |
| Solving.Solver.EliminateGuess | src/solver.rs:376 | the wrong value is eliminated from the parent's cell; the target digit stays possible there |
| SolverSpec.EliminateStep | src/solver.rs:376 | eliminating one digit narrows, keeps memos valid and keeps every solution that does not put that digit there |
| Solving.Solver.MergeProgress | src/solver.rs:347-353 | the chain after the child's bookkeeping: equals `Merged` |
| Solving.Merged | src/solver.rs:347-353 | the current level adds the child's guesses; its deepest level becomes the larger of its own and the child's; the outer levels are unchanged |
| Solving.Solver.CopyFromSolution | src/solver.rs:163-175 | never an ordinary failure; Solved exactly when every cell of the child is solved, its answer is possible here, and the copied grid passes validation; the result is then a solved, validated grid |
| SolverSpec.CopyGridSpec | src/solver.rs:165-170 | the copy narrows the original, solves every cell, keeps memos valid and carries the child's answers |
| GuessOrdering.SimpleGuessOrderingByTuple.constructor | src/guess_ordering.rs:12-26 | the eight tuple entries, in order |
| GuessOrdering.SimpleGuessOrderingByTuple.Clone | src/guess_ordering.rs:27-37 | a fresh ordering with the same vector |
| GuessOrdering.CellsOfCount | src/guess_ordering.rs:49-56 | the nested loops collect the cells with that many candidates, row-major |
| GuessOrdering.QualifyingFromSpec | src/guess_ordering.rs:48-61 | the qualifying cells are exactly the cells with the first listed count that some cell has, row-major; empty iff no cell has a listed count |
| GuessOrdering.FirstGuessesSpec | src/guess_ordering.rs:63-91 | without randomization: the first qualifying cell, one triple per candidate, ascending; empty iff no cell's count is listed |
| GuessOrdering.SimpleGuessOrderingByTuple.GuessList | src/guess_ordering.rs:42-96 | reads the puzzle only; empty iff nothing qualifies; otherwise one qualifying cell with its candidates as a permutation; without randomization equals `FirstGuesses` |
| GuessOrdering.GuessedValues | src/guess_ordering.rs:74-91 | in either mode each value is guessed iff it is possible at the chosen cell, and no value is guessed twice |
| GuessOrdering.PushGuesses | src/guess_ordering.rs:88-90 | one (row, column, value) triple per value, in order |
| GuessOrdering.RandomizeValues | src/guess_ordering.rs:98-111 | a permutation of the input: same length and same elements |

## Left out

- Timing: src/stopwatch.rs is not part of this model. The stopwatch calls, `constraint_times`, `get_constraint_times_map` and `elapsed_sub_millis` are wall-clock bookkeeping with no logical content.
- Console output: `print_puzzle`, `debug_print_puzzle`, `debug::debug` and the rule `name`s. src/main.rs, src/sample_puzzles.rs and src/test.rs are not part of this model.
- The unused `_process_deprecated`, `_guess_list_deprecated` and `_box_to_range`, and the Rust experiments `test_break_loop` and `test_try_fold`.
- `rand::thread_rng`: the random index of `guess_list` and `randomize_values` is a nondeterministic choice. No distribution is modelled.
- Panics:
  - A panic on an argument a caller controls becomes a `requires`: a digit outside 1..9, reading the single value of an open cell, malformed input strings, or a coordinate off the grid.
  - A panic that can happen inside `solve` becomes the `Panicked` result: the depth bound in `with_progress`, an impossible `select`, reading an open cell of the child in the copy (a child can return `Ok` unsolved after its 30 passes), and a copy that fails validation.
  - The `Panicked` messages are placeholders and no contract states them.
- Integer widths: masks are `bv9`, and counters are unbounded naturals. `usize` overflow of the guess counters is not modelled.
- `Solving.Solver.Solve`: a `Solved` result does not imply a solved grid, because the source returns `Ok` once its 30 passes run out. Only `Solved` with every cell solved is proved validated.
- `Solving.Solver.Search`: the contract does not state that an exhausted guess list gives `Failed("no correct guesses")`. The body does so, and only the never-fails direction is proved.
- Memoization transparency is not proved: that a solve ends in the same grid with the memo on or off. `Elimination.RegionMemo` proves only that a memo hit changes nothing.
- Idempotence of a drained scheduler is not proved.
- Independence from the rule order is not proved.
- The early contradiction on two equal clues in one region is not proved as a separate lemma.
- The queue holds `QueueItem`s that the model keeps on the grid as an invariant (`QueueOk`). The source does not check this.
