/**
 * The rule pipeline of `Solver::process` (src/solver.rs): the eight rules
 * `Solver::new` installs, applied in that order to the cell taken off the
 * queue, stopping at the first violation. Only process of elimination keeps
 * state between calls (its memo), so a stage carries the grid, the memo and
 * the outcome so far.
 */
module Pipeline {
  import opened Squares
  import opened BoxUtil
  import opened Puzzle
  import opened Rules
  import opened Constraints
  import opened Elimination

  /** The eight rule objects of `constraint_queue`. */
  datatype ConstraintKind =
    | RowDuplicates
    | ColumnDuplicates
    | BoxDuplicates
    | PoeElimination
    | CannotBeEliminated
    | DoubleRow
    | DoubleColumn
    | DoubleBox

  /** The order `Solver::new` pushes the rules in. */
  function ConstraintOrder(): seq<ConstraintKind>
  {
    [RowDuplicates, ColumnDuplicates, BoxDuplicates, PoeElimination,
     CannotBeEliminated, DoubleRow, DoubleColumn, DoubleBox]
  }

  /** The grid, the elimination memo and the outcome between two rules. */
  datatype Stage = Stage(grid: Grid, memo: set<MemoKey>, outcome: Outcome)

  /** One rule's `process` on the changed cell `x`. */
  ghost function Apply(k: ConstraintKind, st: Stage, memoEnabled: bool, poeEnabled: bool, x: Coord): (r: Stage)
    requires IsGrid(st.grid) && OnGrid(x)
    ensures IsGrid(r.grid)
    ensures k != PoeElimination ==> r.memo == st.memo
  {
    var g := st.grid;
    match k
    case RowDuplicates => Stage(NoDuplicates(g, x, RowPeers(x)), st.memo, Ok)
    case ColumnDuplicates => Stage(NoDuplicates(g, x, ColumnPeers(x)), st.memo, Ok)
    case BoxDuplicates => Stage(NoDuplicates(g, x, BoxPeers(x)), st.memo, Ok)
    case PoeElimination =>
      var p := Poe(g, st.memo, memoEnabled, poeEnabled, x);
      Stage(p.grid, p.memo, p.outcome)
    case CannotBeEliminated =>
      Stage(g, st.memo, if forall d: Digit :: !Cell(g, x).IsPossible(d) then Violation("Contradiction") else Ok)
    case DoubleRow => Stage(DoubleDouble(g, x, RowPeers(x)), st.memo, Ok)
    case DoubleColumn => Stage(DoubleDouble(g, x, ColumnPeers(x)), st.memo, Ok)
    case DoubleBox => Stage(DoubleDouble(g, x, BoxPeers(x)), st.memo, Ok)
  }

  /** The rules `ks[i..]` in turn; a violation stops the run (the `?` of `process`). */
  ghost function RunFrom(ks: seq<ConstraintKind>, i: nat, st: Stage, memoEnabled: bool, poeEnabled: bool, x: Coord): (r: Stage)
    requires IsGrid(st.grid) && OnGrid(x) && i <= |ks|
    ensures IsGrid(r.grid)
    decreases |ks| - i
  {
    if i == |ks| || st.outcome.Violation? then st
    else RunFrom(ks, i + 1, Apply(ks[i], st, memoEnabled, poeEnabled, x), memoEnabled, poeEnabled, x)
  }

  /** A run without a violation so far applies the next rule and goes on. */
  lemma RunFromStep(ks: seq<ConstraintKind>, i: nat, st: Stage, memoEnabled: bool, poeEnabled: bool, x: Coord)
    requires IsGrid(st.grid) && OnGrid(x) && i < |ks| && st.outcome == Ok
    ensures RunFrom(ks, i, st, memoEnabled, poeEnabled, x)
      == RunFrom(ks, i + 1, Apply(ks[i], st, memoEnabled, poeEnabled, x), memoEnabled, poeEnabled, x)
  {
  }

  /** A violation ends the run where it is. */
  lemma RunFromStop(ks: seq<ConstraintKind>, i: nat, st: Stage, memoEnabled: bool, poeEnabled: bool, x: Coord)
    requires IsGrid(st.grid) && OnGrid(x) && i <= |ks| && st.outcome.Violation?
    ensures RunFrom(ks, i, st, memoEnabled, poeEnabled, x) == st
  {
  }

  // ---------------------------------------------------------------------
  // Properties.
  // ---------------------------------------------------------------------

  /** Every rule only narrows the grid. */
  lemma ApplyRefines(k: ConstraintKind, st: Stage, memoEnabled: bool, poeEnabled: bool, x: Coord)
    requires IsGrid(st.grid) && OnGrid(x)
    ensures Refines(Apply(k, st, memoEnabled, poeEnabled, x).grid, st.grid)
  {
    var g := st.grid;
    match k
    case RowDuplicates => NoDuplicatesRefines(g, x, RowPeers(x));
    case ColumnDuplicates => NoDuplicatesRefines(g, x, ColumnPeers(x));
    case BoxDuplicates => NoDuplicatesRefines(g, x, BoxPeers(x));
    case PoeElimination => PoeSound(g, st.memo, memoEnabled, poeEnabled, x, []);
    case CannotBeEliminated => RefinesSelf(g);
    case DoubleRow => DoubleDoubleNarrows(g, x, RowPeers(x));
    case DoubleColumn => DoubleDoubleNarrows(g, x, ColumnPeers(x));
    case DoubleBox => DoubleDoubleNarrows(g, x, BoxPeers(x));
  }

  /**
   * On a solution the grid admits, every rule reports no violation and keeps
   * that solution admitted.
   */
  lemma ApplyKeeps(k: ConstraintKind, st: Stage, memoEnabled: bool, poeEnabled: bool, x: Coord, s: Solution)
    requires IsGrid(st.grid) && OnGrid(x)
    requires IsSolution(s) && Consistent(st.grid, s)
    ensures Apply(k, st, memoEnabled, poeEnabled, x).outcome == Ok
    ensures Consistent(Apply(k, st, memoEnabled, poeEnabled, x).grid, s)
  {
    var g := st.grid;
    SolutionRegionsDistinct(s, x);
    match k
    case RowDuplicates => NoDuplicatesSound(g, x, RowPeers(x), s);
    case ColumnDuplicates => NoDuplicatesSound(g, x, ColumnPeers(x), s);
    case BoxDuplicates => NoDuplicatesSound(g, x, BoxPeers(x), s);
    case PoeElimination => PoeSound(g, st.memo, memoEnabled, poeEnabled, x, s);
    case CannotBeEliminated => assert Cell(g, x).IsPossible(Sol(s, x));
    case DoubleRow => DoubleDoubleSound(g, x, RowPeers(x), s);
    case DoubleColumn => DoubleDoubleSound(g, x, ColumnPeers(x), s);
    case DoubleBox => DoubleDoubleSound(g, x, BoxPeers(x), s);
  }

  /** The pipeline only narrows the grid. */
  lemma {:induction false} RunFromRefines(ks: seq<ConstraintKind>, i: nat, st: Stage, memoEnabled: bool, poeEnabled: bool, x: Coord)
    requires IsGrid(st.grid) && OnGrid(x) && i <= |ks|
    ensures Refines(RunFrom(ks, i, st, memoEnabled, poeEnabled, x).grid, st.grid)
    decreases |ks| - i
  {
    if i == |ks| || st.outcome.Violation? {
      RefinesSelf(st.grid);
    } else {
      RunFromStep(ks, i, st, memoEnabled, poeEnabled, x);
      var next := Apply(ks[i], st, memoEnabled, poeEnabled, x);
      ApplyRefines(ks[i], st, memoEnabled, poeEnabled, x);
      RunFromRefines(ks, i + 1, next, memoEnabled, poeEnabled, x);
      RefinesTrans(RunFrom(ks, i + 1, next, memoEnabled, poeEnabled, x).grid, next.grid, st.grid);
    }
  }

  /**
   * On a solution the grid admits, a run that starts without a violation
   * ends without one and keeps the solution admitted.
   */
  lemma {:induction false} RunFromKeeps(ks: seq<ConstraintKind>, i: nat, st: Stage, memoEnabled: bool, poeEnabled: bool, x: Coord, s: Solution)
    requires IsGrid(st.grid) && OnGrid(x) && i <= |ks|
    requires IsSolution(s) && Consistent(st.grid, s) && st.outcome == Ok
    ensures RunFrom(ks, i, st, memoEnabled, poeEnabled, x).outcome == Ok
    ensures Consistent(RunFrom(ks, i, st, memoEnabled, poeEnabled, x).grid, s)
    decreases |ks| - i
  {
    if i < |ks| {
      RunFromStep(ks, i, st, memoEnabled, poeEnabled, x);
      var next := Apply(ks[i], st, memoEnabled, poeEnabled, x);
      ApplyKeeps(ks[i], st, memoEnabled, poeEnabled, x, s);
      RunFromKeeps(ks, i + 1, next, memoEnabled, poeEnabled, x, s);
    }
  }

  /**
   * The pipeline only narrows the grid; on a solution the grid admits, a run
   * that starts without a violation ends without one and keeps the solution.
   */
  lemma RunFromSound(ks: seq<ConstraintKind>, i: nat, st: Stage, memoEnabled: bool, poeEnabled: bool, x: Coord, s: Solution)
    requires IsGrid(st.grid) && OnGrid(x) && i <= |ks|
    ensures Refines(RunFrom(ks, i, st, memoEnabled, poeEnabled, x).grid, st.grid)
    ensures IsSolution(s) && Consistent(st.grid, s) && st.outcome == Ok ==>
      RunFrom(ks, i, st, memoEnabled, poeEnabled, x).outcome == Ok && Consistent(RunFrom(ks, i, st, memoEnabled, poeEnabled, x).grid, s)
  {
    RunFromRefines(ks, i, st, memoEnabled, poeEnabled, x);
    if IsSolution(s) && Consistent(st.grid, s) && st.outcome == Ok {
      RunFromKeeps(ks, i, st, memoEnabled, poeEnabled, x, s);
    }
  }
}
