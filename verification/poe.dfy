/**
 * `ProcessOfElimination` (src/constraint.rs): in the row, the column and
 * the box of the changed cell, a digit that only one cell's mask still holds
 * must go in that cell. Three bitwise accumulators find those digits; every
 * region that succeeds is remembered, by a key and its nine masks, so that
 * it is skipped while its masks stay the same.
 */
module Elimination {
  import opened Squares
  import opened BoxUtil
  import opened Puzzle
  import opened Rules
  import opened Constraints

  // ---------------------------------------------------------------------
  // Regions, keys and masks.
  // ---------------------------------------------------------------------

  /** Entry `k` of the function list: 0 the row, 1 the column, 2 the box of `x`. */
  function RegionCells(k: int, x: Coord): (r: seq<Coord>)
    requires 0 <= k < 3 && OnGrid(x)
    ensures |r| == 9 && AllOnGrid(r)
  {
    if k == 0 then RowCells(x.0) else if k == 1 then ColumnCells(x.1) else Box9(x.0, x.1)
  }

  /** `unique_key`, chosen by `function_list_index` (which can lag behind the region). */
  function UniqueKey(index: int, x: Coord): int
    requires 0 <= index < 3 && OnGrid(x)
  {
    if index == 0 then x.0
    else if index == 1 then 10 + x.1
    else 100 + 10 * IndexToBox(x.0) + IndexToBox(x.1)
  }

  /** The memo key: the unique key and the region's nine masks. */
  datatype MemoKey = MemoKey(unique: int, masks: seq<bv9>)

  /** The masks of the listed cells, in order. */
  function Masks(g: Grid, cells: seq<Coord>): (ms: seq<bv9>)
    requires IsGrid(g) && AllOnGrid(cells)
    ensures |ms| == |cells|
    decreases |cells|
  {
    if |cells| == 0 then [] else Masks(g, cells[..|cells| - 1]) + [Cell(g, cells[|cells| - 1]).GetBitmap()]
  }

  /** Entry `i` of the masks is the mask of cell `i`. */
  lemma {:induction false} MasksAt(g: Grid, cells: seq<Coord>, i: int)
    requires IsGrid(g) && AllOnGrid(cells) && 0 <= i < |cells|
    ensures Masks(g, cells)[i] == Cell(g, cells[i]).GetBitmap()
    decreases |cells|
  {
    if i < |cells| - 1 {
      MasksAt(g, cells[..|cells| - 1], i);
    }
  }

  /** How many of the masks share a bit with `m`. */
  function CountWith(ms: seq<bv9>, m: bv9): nat
    decreases |ms|
  {
    if |ms| == 0 then 0
    else CountWith(ms[..|ms| - 1], m) + (if ms[|ms| - 1] & m != 0 then 1 else 0)
  }

  /** How many of the masks hold digit `d`. */
  function CountHolding(ms: seq<bv9>, d: Digit): nat
  {
    CountWith(ms, DigitBit(d))
  }

  /** A mask with exactly one bit set. */
  predicate OneBit(m: bv9)
  {
    m != 0 && m & (m - 1) == 0
  }

  /** A digit's bit is a single bit. */
  lemma DigitBitOne(d: Digit)
    ensures OneBit(DigitBit(d))
  {
  }

  // ---------------------------------------------------------------------
  // The accumulators set_ever, set_odd, set_two_plus_times.
  // ---------------------------------------------------------------------

  /** `set_ever` after the masks: their union. */
  function Ever(ms: seq<bv9>): bv9
    decreases |ms|
  {
    if |ms| == 0 then 0 else Ever(ms[..|ms| - 1]) | ms[|ms| - 1]
  }

  /** `set_odd` after the masks: their exclusive or. */
  function Odd(ms: seq<bv9>): bv9
    decreases |ms|
  {
    if |ms| == 0 then 0 else Odd(ms[..|ms| - 1]) ^ ms[|ms| - 1]
  }

  /**
   * `set_two_plus_times` after the masks: after each mask it gains the digits
   * seen so far whose parity is even.
   */
  function TwoPlus(ms: seq<bv9>): bv9
    decreases |ms|
  {
    if |ms| == 0 then 0 else TwoPlus(ms[..|ms| - 1]) | (Ever(ms) & (!Odd(ms) & FullMask))
  }

  /** `set_exactly_once`. */
  function Once(ms: seq<bv9>): bv9
  {
    Odd(ms) & (FullMask & !TwoPlus(ms))
  }

  lemma EverStep(ms: seq<bv9>)
    requires |ms| > 0
    ensures Ever(ms) == Ever(ms[..|ms| - 1]) | ms[|ms| - 1]
  {
  }

  lemma OddStep(ms: seq<bv9>)
    requires |ms| > 0
    ensures Odd(ms) == Odd(ms[..|ms| - 1]) ^ ms[|ms| - 1]
  {
  }

  lemma TwoPlusStep(ms: seq<bv9>)
    requires |ms| > 0
    ensures TwoPlus(ms) == TwoPlus(ms[..|ms| - 1]) | (Ever(ms) & (!Odd(ms) & FullMask))
  {
  }

  /** The accumulators after one more mask of `ms`. */
  lemma EverPrefix(ms: seq<bv9>, i: int)
    requires 0 <= i < |ms|
    ensures Ever(ms[..i + 1]) == Ever(ms[..i]) | ms[i]
  {
    assert ms[..i + 1][..i] == ms[..i];
  }

  lemma OddPrefix(ms: seq<bv9>, i: int)
    requires 0 <= i < |ms|
    ensures Odd(ms[..i + 1]) == Odd(ms[..i]) ^ ms[i]
  {
    assert ms[..i + 1][..i] == ms[..i];
  }

  lemma TwoPlusPrefix(ms: seq<bv9>, i: int)
    requires 0 <= i < |ms|
    ensures TwoPlus(ms[..i + 1]) == TwoPlus(ms[..i]) | (Ever(ms[..i + 1]) & (!Odd(ms[..i + 1]) & FullMask))
  {
    assert ms[..i + 1][..i] == ms[..i];
  }

  /** One step of the accumulators, stated on a single bit `m`. */
  lemma AccumulatorStepBits(e: bv9, o: bv9, t: bv9, b: bv9, m: bv9)
    requires OneBit(m)
    ensures (e | b) & m != 0 <==> e & m != 0 || b & m != 0
    ensures (o ^ b) & m != 0 <==> (o & m != 0 <==> b & m == 0)
    ensures (t | ((e | b) & (!(o ^ b) & FullMask))) & m != 0
      <==> (t & m != 0 || ((e & m != 0 || b & m != 0) && !((o & m != 0) <==> (b & m == 0))))
  {
  }

  /** The accumulator invariant, stated on a single bit `m`. */
  lemma {:induction false} AccumulatorBits(ms: seq<bv9>, m: bv9)
    requires OneBit(m)
    ensures Ever(ms) & m != 0 <==> CountWith(ms, m) >= 1
    ensures Odd(ms) & m != 0 <==> CountWith(ms, m) % 2 == 1
    ensures TwoPlus(ms) & m != 0 <==> CountWith(ms, m) >= 2
    decreases |ms|
  {
    if |ms| > 0 {
      var init, b := ms[..|ms| - 1], ms[|ms| - 1];
      EverStep(ms);
      OddStep(ms);
      TwoPlusStep(ms);
      AccumulatorBits(init, m);
      AccumulatorStepBits(Ever(init), Odd(init), TwoPlus(init), b, m);
    }
  }

  /**
   * Digit by digit, `set_ever` says some mask holds it, `set_odd` says an odd
   * number of masks do, and `set_two_plus_times` says at least two do.
   */
  lemma AccumulatorCounts(ms: seq<bv9>, d: Digit)
    ensures HasDigit(Ever(ms), d) <==> CountHolding(ms, d) >= 1
    ensures HasDigit(Odd(ms), d) <==> CountHolding(ms, d) % 2 == 1
    ensures HasDigit(TwoPlus(ms), d) <==> CountHolding(ms, d) >= 2
  {
    DigitBitOne(d);
    AccumulatorBits(ms, DigitBit(d));
  }

  lemma OnceBit(o: bv9, t: bv9, m: bv9)
    requires OneBit(m)
    ensures (o & (FullMask & !t)) & m != 0 <==> o & m != 0 && t & m == 0
  {
  }

  /** `set_exactly_once` holds a digit exactly when one mask holds it. */
  lemma OnceCounts(ms: seq<bv9>, d: Digit)
    ensures HasDigit(Once(ms), d) <==> CountHolding(ms, d) == 1
  {
    var m := DigitBit(d);
    DigitBitOne(d);
    AccumulatorBits(ms, m);
    OnceBit(Odd(ms), TwoPlus(ms), m);
  }

  /** `set_ever` is full exactly when every digit is held by some mask. */
  lemma EverCounts(ms: seq<bv9>)
    ensures Ever(ms) == FullMask <==> forall d: Digit :: CountHolding(ms, d) >= 1
  {
    var ever := Ever(ms);
    forall d: Digit ensures HasDigit(ever, d) <==> CountHolding(ms, d) >= 1 {
      AccumulatorCounts(ms, d);
    }
    FullHasAll();
    if forall d: Digit :: CountHolding(ms, d) >= 1 {
      HasDetermine(ever, FullMask);
    }
  }

  /** Two different masks sharing a bit with `m` make the count at least two. */
  lemma {:induction false} CountWithTwo(ms: seq<bv9>, m: bv9, i: int, j: int)
    requires 0 <= i < j < |ms| && ms[i] & m != 0 && ms[j] & m != 0
    ensures CountWith(ms, m) >= 2
    decreases |ms|
  {
    var init := ms[..|ms| - 1];
    assert init[i] == ms[i];
    if j < |ms| - 1 {
      assert init[j] == ms[j];
      CountWithTwo(init, m, i, j);
    } else {
      CountWithOne(init, m, i);
    }
  }

  /** A mask sharing a bit with `m` makes the count at least one. */
  lemma {:induction false} CountWithOne(ms: seq<bv9>, m: bv9, i: int)
    requires 0 <= i < |ms| && ms[i] & m != 0
    ensures CountWith(ms, m) >= 1
    decreases |ms|
  {
    if i < |ms| - 1 {
      assert ms[..|ms| - 1][i] == ms[i];
      CountWithOne(ms[..|ms| - 1], m, i);
    }
  }

  /** No mask sharing a bit with `m` makes the count zero. */
  lemma {:induction false} CountWithNone(ms: seq<bv9>, m: bv9)
    requires forall i :: 0 <= i < |ms| ==> ms[i] & m == 0
    ensures CountWith(ms, m) == 0
    decreases |ms|
  {
    if |ms| > 0 {
      CountWithNone(ms[..|ms| - 1], m);
    }
  }

  // ---------------------------------------------------------------------
  // already_selected.
  // ---------------------------------------------------------------------

  /** A mask with one bit is one of the nine digit bits. */
  lemma OneBitValues(b: bv9)
    requires NumberOfBits(b) == 1
    ensures b == 1 || b == 2 || b == 4 || b == 8 || b == 16 || b == 32 || b == 64 || b == 128 || b == 256
  {
    NumberOfBitsIsBitCount(b);
  }

  /** The match of the source: the digit whose bit a one-bit mask is. */
  function OneBitDigit(b: bv9): (d: Digit)
    requires NumberOfBits(b) == 1
    ensures DigitBit(d) == b
  {
    OneBitValues(b);
    if b == 1 then 1 else if b == 2 then 2 else if b == 4 then 3 else if b == 8 then 4
    else if b == 16 then 5 else if b == 32 then 6 else if b == 64 then 7 else if b == 128 then 8
    else 9
  }

  /** `already_selected` after the first `n` masks: entry `d - 1` marks a mask equal to `d`'s bit. */
  function SelectedUpTo(ms: seq<bv9>, n: nat): (r: seq<bool>)
    requires n <= |ms|
    ensures |r| == 9
    decreases n
  {
    if n == 0 then [false, false, false, false, false, false, false, false, false]
    else
      var s := SelectedUpTo(ms, n - 1);
      var b := ms[n - 1];
      if NumberOfBits(b) == 1 then s[OneBitDigit(b) - 1 := true] else s
  }

  /** A digit's own bit has one bit set. */
  lemma DigitBitCount(d: Digit)
    ensures NumberOfBits(DigitBit(d)) == 1
  {
    NumberOfBitsIsBitCount(DigitBit(d));
  }

  /** `already_selected[d - 1]` holds exactly when some mask of the region is `d` alone. */
  lemma {:induction false} SelectedMeaning(ms: seq<bv9>, n: nat, d: Digit)
    requires n <= |ms|
    ensures SelectedUpTo(ms, n)[d - 1] <==> DigitBit(d) in ms[..n]
    decreases n
  {
    if n > 0 {
      SelectedMeaning(ms, n - 1, d);
      assert ms[..n] == ms[..n - 1] + [ms[n - 1]];
      DigitBitCount(d);
      if NumberOfBits(ms[n - 1]) == 1 {
        var e := OneBitDigit(ms[n - 1]);
        OwnBit(e, d);
        OwnBit(d, d);
      }
    }
  }

  /** A cell's single-bit mask gives back the digit it was built from. */
  lemma OneBitDigitOf(d: Digit)
    ensures NumberOfBits(DigitBit(d)) == 1 && OneBitDigit(DigitBit(d)) == d
  {
    DigitBitCount(d);
    var e := OneBitDigit(DigitBit(d));
    OwnBit(e, d);
    OwnBit(d, d);
  }

  // ---------------------------------------------------------------------
  // Selecting one digit along the region.
  // ---------------------------------------------------------------------

  /** The grid and the `found` / `found_two_plus` flags while one digit is looked for. */
  datatype Scan = Scan(grid: Grid, found: bool, foundTwoPlus: bool)

  /**
   * The first `n` cells scanned for `v`: every cell where `v` is still
   * possible is narrowed to `v`; `found_two_plus` takes the old `found`.
   */
  function ScanUpTo(g: Grid, cells: seq<Coord>, v: Digit, n: nat): (r: Scan)
    requires IsGrid(g) && AllOnGrid(cells) && n <= |cells|
    ensures IsGrid(r.grid)
    decreases n
  {
    if n == 0 then Scan(g, false, false)
    else
      var st := ScanUpTo(g, cells, v, n - 1);
      var c := Cell(st.grid, cells[n - 1]);
      if c.IsPossible(v) then Scan(SetCell(st.grid, cells[n - 1], c.Select(v)), true, st.found)
      else st
  }

  /** The grid and whether some digit failed (the source's `iterator_error` is set). */
  datatype Pass = Pass(grid: Grid, failed: bool)

  /**
   * Digits 1..n in turn: a digit that is set exactly once and is not already
   * selected is scanned for; it fails when it is found nowhere or more than once.
   */
  function DigitsUpTo(g: Grid, cells: seq<Coord>, selected: seq<bool>, once: bv9, n: nat): (r: Pass)
    requires IsGrid(g) && AllOnGrid(cells) && |selected| == 9 && n <= 9
    ensures IsGrid(r.grid)
    decreases n
  {
    if n == 0 then Pass(g, false)
    else
      var p := DigitsUpTo(g, cells, selected, once, n - 1);
      if !selected[n - 1] && DigitBit(n) & once != 0 then
        var sc := ScanUpTo(p.grid, cells, n, |cells|);
        Pass(sc.grid, p.failed || !sc.found || sc.foundTwoPlus)
      else p
  }

  // ---------------------------------------------------------------------
  // One region, and the three regions of a call.
  // ---------------------------------------------------------------------

  /** The grid, the memo, `function_list_index` and the outcome so far. */
  datatype PoeState = PoeState(grid: Grid, memo: set<MemoKey>, index: int, outcome: Outcome)

  /**
   * Region `k` (0 row, 1 column, 2 box) of `x`: skipped on a memo hit,
   * a contradiction when some digit is in no mask, otherwise the digit pass;
   * only a region that succeeds advances the index and is recorded.
   */
  function RegionStep(st: PoeState, memoEnabled: bool, x: Coord, k: int): (r: PoeState)
    requires IsGrid(st.grid) && OnGrid(x) && 0 <= st.index <= k < 3
    ensures IsGrid(r.grid) && (r.index == st.index || r.index == st.index + 1)
  {
    var cells := RegionCells(k, x);
    var ms := Masks(st.grid, cells);
    var key := MemoKey(UniqueKey(st.index, x), ms);
    if memoEnabled && key in st.memo then st else RegionCheck(st, cells, ms, key)
  }

  /**
   * A region the memo does not hold: a digit missing from every bitmap is a
   * contradiction; otherwise the digit loop runs and, when it succeeds, the
   * key is recorded and the index advances.
   */
  function RegionCheck(st: PoeState, cells: seq<Coord>, ms: seq<bv9>, key: MemoKey): (r: PoeState)
    requires IsGrid(st.grid) && AllOnGrid(cells)
    ensures IsGrid(r.grid) && (r.index == st.index || r.index == st.index + 1)
  {
    if Ever(ms) != FullMask then st.(outcome := Violation("Contradiction"))
    else RegionDigits(st, cells, ms, key)
  }

  /**
   * The digit loop of a covered region; when no digit fails, the key is
   * recorded and the index advances.
   */
  function RegionDigits(st: PoeState, cells: seq<Coord>, ms: seq<bv9>, key: MemoKey): (r: PoeState)
    requires IsGrid(st.grid) && AllOnGrid(cells)
    ensures IsGrid(r.grid) && (r.index == st.index || r.index == st.index + 1)
  {
    var pass := DigitsUpTo(st.grid, cells, SelectedUpTo(ms, |ms|), Once(ms), 9);
    if pass.failed then st.(grid := pass.grid, outcome := Violation("Contradiction"))
    else PoeState(pass.grid, st.memo + {key}, st.index + 1, Ok)
  }

  /**
   * Regions `k`..2 (row, column, box) from state `st`, stopping at the first
   * violation (the source's `try_fold`).
   */
  function RegionsFrom(st: PoeState, memoEnabled: bool, x: Coord, k: int): (r: PoeState)
    requires IsGrid(st.grid) && OnGrid(x) && 0 <= st.index <= k <= 3
    ensures IsGrid(r.grid)
    decreases 3 - k
  {
    if k == 3 || st.outcome.Violation? then st
    else RegionsFrom(RegionStep(st, memoEnabled, x, k), memoEnabled, x, k + 1)
  }

  /** `ProcessOfElimination::process`; with the rule switched off it does nothing. */
  function Poe(g: Grid, memo: set<MemoKey>, memoEnabled: bool, poeEnabled: bool, x: Coord): (r: PoeState)
    requires IsGrid(g) && OnGrid(x)
    ensures IsGrid(r.grid)
  {
    if !poeEnabled then PoeState(g, memo, 0, Ok) else RegionsFrom(PoeState(g, memo, 0, Ok), memoEnabled, x, 0)
  }

  // ---------------------------------------------------------------------
  // Properties of the scan.
  // ---------------------------------------------------------------------

  /** Narrowing a cell to one of its candidates only narrows it. */
  lemma SelectRefines(c: Square, v: Digit)
    requires c.IsPossible(v)
    ensures CellRefines(c.Select(v), c)
  {
  }

  /** Replacing one cell by a narrower one narrows the grid. */
  lemma SetCellRefines(g: Grid, y: Coord, a: Square)
    requires IsGrid(g) && OnGrid(y) && CellRefines(a, Cell(g, y))
    ensures Refines(SetCell(g, y, a), g)
  {
    forall z | OnGrid(z) ensures CellRefines(Cell(SetCell(g, y, a), z), Cell(g, z)) {
    }
  }

  /** Replacing one cell by one that still allows the board's digit keeps the board. */
  lemma SetCellConsistent(g: Grid, y: Coord, a: Square, s: Solution)
    requires IsGrid(g) && OnGrid(y) && IsBoard(s) && Consistent(g, s) && a.IsPossible(Sol(s, y))
    ensures Consistent(SetCell(g, y, a), s)
  {
    forall z | OnGrid(z) ensures Cell(SetCell(g, y, a), z).IsPossible(Sol(s, z)) {
      if z != y {
        assert Cell(g, z).IsPossible(Sol(s, z));
      }
    }
  }

  /** Every grid refines itself. */
  lemma RefinesSelf(g: Grid)
    requires IsGrid(g)
    ensures Refines(g, g)
  {
    forall y | OnGrid(y) ensures CellRefines(Cell(g, y), Cell(g, y)) {
    }
  }

  /** The scan only narrows the grid. */
  lemma {:induction false} ScanRefines(g: Grid, cells: seq<Coord>, v: Digit, n: nat)
    requires IsGrid(g) && AllOnGrid(cells) && n <= |cells|
    ensures Refines(ScanUpTo(g, cells, v, n).grid, g)
    decreases n
  {
    if n == 0 {
      RefinesSelf(g);
    } else {
      ScanRefines(g, cells, v, n - 1);
      var st := ScanUpTo(g, cells, v, n - 1);
      var c := Cell(st.grid, cells[n - 1]);
      if c.IsPossible(v) {
        SelectRefines(c, v);
        SetCellRefines(st.grid, cells[n - 1], c.Select(v));
        RefinesTrans(SetCell(st.grid, cells[n - 1], c.Select(v)), st.grid, g);
      }
    }
  }

  /**
   * The scan on cells that are pairwise different: a scanned cell where `v`
   * was possible is narrowed to `v`; every other cell is kept.
   */
  lemma {:induction false} ScanCells(g: Grid, cells: seq<Coord>, v: Digit, n: nat, y: Coord)
    requires IsGrid(g) && AllOnGrid(cells) && n <= |cells| && OnGrid(y)
    requires forall i, j :: 0 <= i < j < |cells| ==> cells[i] != cells[j]
    ensures Cell(ScanUpTo(g, cells, v, n).grid, y)
      == if y in cells[..n] && Cell(g, y).IsPossible(v) then Cell(g, y).Select(v) else Cell(g, y)
    decreases n
  {
    if n > 0 {
      var last := cells[n - 1];
      ScanCells(g, cells, v, n - 1, y);
      ScanCells(g, cells, v, n - 1, last);
      ScanUpToNext(g, cells, v, n);
      assert cells[..n] == cells[..n - 1] + [last];
      assert last !in cells[..n - 1];
    }
  }

  /** On cells that are pairwise different, `found` says some scanned cell allowed `v`. */
  lemma {:induction false} ScanFound(g: Grid, cells: seq<Coord>, v: Digit, n: nat)
    requires IsGrid(g) && AllOnGrid(cells) && n <= |cells|
    requires forall i, j :: 0 <= i < j < |cells| ==> cells[i] != cells[j]
    ensures ScanUpTo(g, cells, v, n).found <==> exists i :: 0 <= i < n && Cell(g, cells[i]).IsPossible(v)
    decreases n
  {
    if n > 0 {
      ScanFound(g, cells, v, n - 1);
      ScanFlagsNext(g, cells, v, n);
      if Cell(g, cells[n - 1]).IsPossible(v) {
        assert 0 <= n - 1 < n && Cell(g, cells[n - 1]).IsPossible(v);
      } else {
        forall i | 0 <= i < n && Cell(g, cells[i]).IsPossible(v) ensures i < n - 1 {
        }
      }
    }
  }

  /** One more entry of the scan on pairwise different cells: the flags follow the cell's verdict at the start. */
  lemma ScanFlagsNext(g: Grid, cells: seq<Coord>, v: Digit, n: nat)
    requires IsGrid(g) && AllOnGrid(cells) && 0 < n <= |cells|
    requires forall i, j :: 0 <= i < j < |cells| ==> cells[i] != cells[j]
    ensures var st := ScanUpTo(g, cells, v, n - 1);
      var p := Cell(g, cells[n - 1]).IsPossible(v);
      && ScanUpTo(g, cells, v, n).found == (st.found || p)
      && ScanUpTo(g, cells, v, n).foundTwoPlus == (if p then st.found else st.foundTwoPlus)
  {
    ScanCells(g, cells, v, n - 1, cells[n - 1]);
    assert cells[n - 1] !in cells[..n - 1];
    ScanUpToNext(g, cells, v, n);
  }

  /** On cells that are pairwise different, `found_two_plus` says two scanned cells allowed `v`. */
  lemma {:induction false} ScanFoundTwice(g: Grid, cells: seq<Coord>, v: Digit, n: nat)
    requires IsGrid(g) && AllOnGrid(cells) && n <= |cells|
    requires forall i, j :: 0 <= i < j < |cells| ==> cells[i] != cells[j]
    ensures ScanUpTo(g, cells, v, n).foundTwoPlus
      <==> exists i, j :: 0 <= i < j < n && Cell(g, cells[i]).IsPossible(v) && Cell(g, cells[j]).IsPossible(v)
    decreases n
  {
    if n > 0 {
      ScanFoundTwice(g, cells, v, n - 1);
      ScanFound(g, cells, v, n - 1);
      ScanFlagsNext(g, cells, v, n);
      var last := Cell(g, cells[n - 1]).IsPossible(v);
      if last {
        if ScanUpTo(g, cells, v, n - 1).found {
          var i :| 0 <= i < n - 1 && Cell(g, cells[i]).IsPossible(v);
          assert 0 <= i < n - 1 < n && Cell(g, cells[i]).IsPossible(v) && Cell(g, cells[n - 1]).IsPossible(v);
        }
      } else {
        forall i, j | 0 <= i < j < n && Cell(g, cells[i]).IsPossible(v) && Cell(g, cells[j]).IsPossible(v)
          ensures j < n - 1
        {
        }
      }
    }
  }

  /**
   * When the board puts `v` at entry `k0` and no other entry allows `v`, the
   * scan keeps the board, finds `v` once it has passed `k0`, and never twice.
   */
  lemma {:induction false} ScanKeeps(g: Grid, cells: seq<Coord>, v: Digit, n: nat, s: Solution, k0: int)
    requires IsGrid(g) && AllOnGrid(cells) && n <= |cells| && IsBoard(s) && Consistent(g, s)
    requires 0 <= k0 < |cells| && Sol(s, cells[k0]) == v
    requires forall k :: 0 <= k < |cells| && k != k0 ==> !Cell(g, cells[k]).IsPossible(v)
    ensures Consistent(ScanUpTo(g, cells, v, n).grid, s)
    decreases n
  {
    if n > 0 {
      ScanKeeps(g, cells, v, n - 1, s, k0);
      if n - 1 == k0 {
        ScanSelectKeeps(g, cells, v, n, s);
      } else {
        ScanSkips(g, cells, v, n);
      }
    }
  }

  /** Selecting `v` where the board has it keeps the board. */
  lemma ScanSelectKeeps(g: Grid, cells: seq<Coord>, v: Digit, n: nat, s: Solution)
    requires IsGrid(g) && AllOnGrid(cells) && 0 < n <= |cells| && IsBoard(s)
    requires Consistent(ScanUpTo(g, cells, v, n - 1).grid, s) && Sol(s, cells[n - 1]) == v
    ensures Consistent(ScanUpTo(g, cells, v, n).grid, s)
  {
    var st := ScanUpTo(g, cells, v, n - 1);
    var y := cells[n - 1];
    var c := Cell(st.grid, y);
    ScanUpToNext(g, cells, v, n);
    assert c.IsPossible(Sol(s, y));
    SetCellConsistent(st.grid, y, c.Select(v), s);
  }

  /** An entry whose cell did not allow `v` at the start leaves the scan's grid alone. */
  lemma ScanSkips(g: Grid, cells: seq<Coord>, v: Digit, n: nat)
    requires IsGrid(g) && AllOnGrid(cells) && 0 < n <= |cells|
    requires !Cell(g, cells[n - 1]).IsPossible(v)
    ensures ScanUpTo(g, cells, v, n).grid == ScanUpTo(g, cells, v, n - 1).grid
  {
    var st := ScanUpTo(g, cells, v, n - 1);
    var y := cells[n - 1];
    ScanUpToNext(g, cells, v, n);
    ScanRefines(g, cells, v, n - 1);
    assert CellRefines(Cell(st.grid, y), Cell(g, y));
  }

  /** One more entry of the scan: a cell that allows `v` gets it selected and counts as found. */
  lemma ScanUpToNext(g: Grid, cells: seq<Coord>, v: Digit, n: nat)
    requires IsGrid(g) && AllOnGrid(cells) && 0 < n <= |cells|
    ensures var st := ScanUpTo(g, cells, v, n - 1);
      var c := Cell(st.grid, cells[n - 1]);
      ScanUpTo(g, cells, v, n) == if c.IsPossible(v) then Scan(SetCell(st.grid, cells[n - 1], c.Select(v)), true, st.found) else st
  {
  }

  lemma {:induction false} ScanSound(g: Grid, cells: seq<Coord>, v: Digit, n: nat, s: Solution, k0: int)
    requires IsGrid(g) && AllOnGrid(cells) && n <= |cells| && IsBoard(s) && Consistent(g, s)
    requires 0 <= k0 < |cells| && Sol(s, cells[k0]) == v
    requires forall k :: 0 <= k < |cells| && k != k0 ==> !Cell(g, cells[k]).IsPossible(v)
    ensures Consistent(ScanUpTo(g, cells, v, n).grid, s)
    ensures ScanUpTo(g, cells, v, n).found <==> k0 < n
    ensures !ScanUpTo(g, cells, v, n).foundTwoPlus
    decreases n
  {
    ScanKeeps(g, cells, v, n, s, k0);
    if n > 0 {
      ScanSound(g, cells, v, n - 1, s, k0);
      ScanRefines(g, cells, v, n - 1);
      var st := ScanUpTo(g, cells, v, n - 1);
      var y := cells[n - 1];
      var c := Cell(st.grid, y);
      assert CellRefines(c, Cell(g, y));
      if n - 1 == k0 {
        assert c.IsPossible(Sol(s, y));
      } else {
        assert !Cell(g, y).IsPossible(v);
      }
    }
  }

  // ---------------------------------------------------------------------
  // Properties of the digit pass.
  // ---------------------------------------------------------------------

  /** The digit pass only narrows the grid. */
  lemma {:induction false} DigitsRefines(g: Grid, cells: seq<Coord>, selected: seq<bool>, once: bv9, n: nat)
    requires IsGrid(g) && AllOnGrid(cells) && |selected| == 9 && n <= 9
    ensures Refines(DigitsUpTo(g, cells, selected, once, n).grid, g)
    decreases n
  {
    if n == 0 {
      RefinesSelf(g);
    } else {
      DigitsRefines(g, cells, selected, once, n - 1);
      var p := DigitsUpTo(g, cells, selected, once, n - 1);
      if !selected[n - 1] && DigitBit(n) & once != 0 {
        ScanRefines(p.grid, cells, n, |cells|);
        RefinesTrans(ScanUpTo(p.grid, cells, n, |cells|).grid, p.grid, g);
      }
    }
  }

  /** Two different entries sharing a bit with `m` make the count at least two. */
  lemma CountWithPair(ms: seq<bv9>, m: bv9, i: int, j: int)
    requires 0 <= i < j < |ms|
    ensures ms[i] & m != 0 && ms[j] & m != 0 ==> CountWith(ms, m) >= 2
  {
    if ms[i] & m != 0 && ms[j] & m != 0 {
      CountWithTwo(ms, m, i, j);
    }
  }

  /** When the count is one and entry `k0` shares a bit with `m`, no other entry does. */
  lemma OnlyHolder(ms: seq<bv9>, m: bv9, k0: int)
    requires 0 <= k0 < |ms| && ms[k0] & m != 0 && CountWith(ms, m) == 1
    ensures forall k :: 0 <= k < |ms| && k != k0 ==> ms[k] & m == 0
  {
    forall k | 0 <= k < |ms| && k != k0 ensures ms[k] & m == 0 {
      if k < k0 {
        CountWithPair(ms, m, k, k0);
      } else {
        CountWithPair(ms, m, k0, k);
      }
    }
  }

  /** When exactly one mask holds `v` and entry `k0` allows it, no other entry allows it. */
  lemma UniqueHolder(g: Grid, cells: seq<Coord>, v: Digit, k0: int)
    requires IsGrid(g) && AllOnGrid(cells) && 0 <= k0 < |cells|
    requires Cell(g, cells[k0]).IsPossible(v) && CountHolding(Masks(g, cells), v) == 1
    ensures forall k :: 0 <= k < |cells| && k != k0 ==> !Cell(g, cells[k]).IsPossible(v)
  {
    MasksAt(g, cells, k0);
    OnlyHolder(Masks(g, cells), DigitBit(v), k0);
    forall k | 0 <= k < |cells| && k != k0 ensures !Cell(g, cells[k]).IsPossible(v) {
      MasksAt(g, cells, k);
    }
  }

  /** A digit no listed cell of `g` allows is allowed by none of a narrower grid `h`. */
  lemma NoneAfterRefines(g: Grid, h: Grid, cells: seq<Coord>, v: Digit, k0: int)
    requires IsGrid(g) && IsGrid(h) && AllOnGrid(cells) && Refines(h, g)
    requires forall k :: 0 <= k < |cells| && k != k0 ==> !Cell(g, cells[k]).IsPossible(v)
    ensures forall k :: 0 <= k < |cells| && k != k0 ==> !Cell(h, cells[k]).IsPossible(v)
  {
    forall k | 0 <= k < |cells| && k != k0 ensures !Cell(h, cells[k]).IsPossible(v) {
      assert CellRefines(Cell(h, cells[k]), Cell(g, cells[k]));
    }
  }

  /**
   * On a board the grid admits, where every scanned digit is held by exactly
   * one mask of the region, no digit fails and the board is kept.
   */
  lemma {:induction false} DigitsSound(g: Grid, cells: seq<Coord>, selected: seq<bool>, once: bv9, n: nat, s: Solution)
    requires IsGrid(g) && AllOnGrid(cells) && |selected| == 9 && n <= 9
    requires IsBoard(s) && Consistent(g, s) && Covers(s, cells)
    requires forall d: Digit :: HasDigit(once, d) ==> CountHolding(Masks(g, cells), d) == 1
    ensures !DigitsUpTo(g, cells, selected, once, n).failed
    ensures Consistent(DigitsUpTo(g, cells, selected, once, n).grid, s)
    decreases n
  {
    if n > 0 {
      DigitsSound(g, cells, selected, once, n - 1, s);
      DigitsRefines(g, cells, selected, once, n - 1);
      var p := DigitsUpTo(g, cells, selected, once, n - 1);
      var v: Digit := n;
      if !selected[n - 1] && DigitBit(v) & once != 0 {
        assert v in DigitsAlong(s, cells);
        var k0 :| 0 <= k0 < |cells| && DigitsAlong(s, cells)[k0] == v;
        assert Cell(g, cells[k0]).IsPossible(v);
        UniqueHolder(g, cells, v, k0);
        NoneAfterRefines(g, p.grid, cells, v, k0);
        ScanSound(p.grid, cells, v, |cells|, s, k0);
      }
    }
  }

  // ---------------------------------------------------------------------
  // Properties of a region and of the whole rule.
  // ---------------------------------------------------------------------

  /** A region only narrows the grid. */
  lemma RegionRefines(st: PoeState, memoEnabled: bool, x: Coord, k: int)
    requires IsGrid(st.grid) && OnGrid(x) && 0 <= st.index <= k < 3
    ensures Refines(RegionStep(st, memoEnabled, x, k).grid, st.grid)
  {
    var cells := RegionCells(k, x);
    var ms := Masks(st.grid, cells);
    RefinesSelf(st.grid);
    DigitsRefines(st.grid, cells, SelectedUpTo(ms, |ms|), Once(ms), 9);
  }

  /**
   * The memo: a recorded key skips the region and changes nothing; a key is
   * recorded only by a region that succeeds, which also advances the index;
   * a violation leaves the memo and the index alone.
   */
  lemma RegionMemo(st: PoeState, memoEnabled: bool, x: Coord, k: int)
    requires IsGrid(st.grid) && OnGrid(x) && 0 <= st.index <= k < 3
    ensures var key := MemoKey(UniqueKey(st.index, x), Masks(st.grid, RegionCells(k, x)));
      var r := RegionStep(st, memoEnabled, x, k);
      (memoEnabled && key in st.memo ==> r == st)
      && (r.memo == st.memo || (r.outcome == Ok && r.memo == st.memo + {key} && r.index == st.index + 1))
      && (r.outcome.Violation? ==> r.memo == st.memo && r.index == st.index)
  {
  }

  /**
   * On a solution the grid admits, a region never reports a contradiction
   * and keeps the solution admitted.
   */
  lemma RegionSound(st: PoeState, memoEnabled: bool, x: Coord, k: int, s: Solution)
    requires IsGrid(st.grid) && OnGrid(x) && 0 <= st.index <= k < 3 && st.outcome == Ok
    requires IsSolution(s) && Consistent(st.grid, s)
    ensures RegionStep(st, memoEnabled, x, k).outcome == Ok
    ensures Consistent(RegionStep(st, memoEnabled, x, k).grid, s)
  {
    var g := st.grid;
    var cells := RegionCells(k, x);
    var ms := Masks(g, cells);
    assert Covers(s, RowCells(x.0)) && Covers(s, ColumnCells(x.1)) && Covers(s, Box9(x.0, x.1));
    assert Covers(s, cells);
    forall d: Digit ensures CountHolding(ms, d) >= 1 {
      assert d in DigitsAlong(s, cells);
      var i :| 0 <= i < |cells| && DigitsAlong(s, cells)[i] == d;
      assert Cell(g, cells[i]).IsPossible(d);
      MasksAt(g, cells, i);
      CountWithOne(ms, DigitBit(d), i);
    }
    EverCounts(ms);
    forall d: Digit | HasDigit(Once(ms), d) ensures CountHolding(ms, d) == 1 {
      OnceCounts(ms, d);
    }
    DigitsSound(g, cells, SelectedUpTo(ms, |ms|), Once(ms), 9, s);
  }

  /** The remaining regions only narrow the grid. */
  lemma {:induction false} RegionsFromRefines(st: PoeState, memoEnabled: bool, x: Coord, k: int)
    requires IsGrid(st.grid) && OnGrid(x) && 0 <= st.index <= k <= 3
    ensures Refines(RegionsFrom(st, memoEnabled, x, k).grid, st.grid)
    decreases 3 - k
  {
    if k == 3 || st.outcome.Violation? {
      RefinesSelf(st.grid);
    } else {
      var next := RegionStep(st, memoEnabled, x, k);
      RegionRefines(st, memoEnabled, x, k);
      RegionsFromRefines(next, memoEnabled, x, k + 1);
      RefinesTrans(RegionsFrom(next, memoEnabled, x, k + 1).grid, next.grid, st.grid);
    }
  }

  /** On a solution the grid admits, the remaining regions succeed and keep it. */
  lemma {:induction false} RegionsFromSound(st: PoeState, memoEnabled: bool, x: Coord, k: int, s: Solution)
    requires IsGrid(st.grid) && OnGrid(x) && 0 <= st.index <= k <= 3 && st.outcome == Ok
    requires IsSolution(s) && Consistent(st.grid, s)
    ensures RegionsFrom(st, memoEnabled, x, k).outcome == Ok
    ensures Consistent(RegionsFrom(st, memoEnabled, x, k).grid, s)
    decreases 3 - k
  {
    if k < 3 {
      RegionSound(st, memoEnabled, x, k, s);
      RegionsFromSound(RegionStep(st, memoEnabled, x, k), memoEnabled, x, k + 1, s);
    }
  }

  /**
   * Process of elimination only narrows the grid, and on a solution the grid
   * admits it reports no contradiction and keeps that solution admitted.
   */
  lemma PoeSound(g: Grid, memo: set<MemoKey>, memoEnabled: bool, poeEnabled: bool, x: Coord, s: Solution)
    requires IsGrid(g) && OnGrid(x)
    ensures Refines(Poe(g, memo, memoEnabled, poeEnabled, x).grid, g)
    ensures IsSolution(s) && Consistent(g, s) ==>
      Poe(g, memo, memoEnabled, poeEnabled, x).outcome == Ok && Consistent(Poe(g, memo, memoEnabled, poeEnabled, x).grid, s)
  {
    var st := PoeState(g, memo, 0, Ok);
    RefinesSelf(g);
    RegionsFromRefines(st, memoEnabled, x, 0);
    if IsSolution(s) && Consistent(g, s) {
      RegionsFromSound(st, memoEnabled, x, 0, s);
    }
  }

  /** The memo only grows. */
  lemma {:induction false} RegionsFromMemoGrows(st: PoeState, memoEnabled: bool, x: Coord, k: int)
    requires IsGrid(st.grid) && OnGrid(x) && 0 <= st.index <= k <= 3
    ensures st.memo <= RegionsFrom(st, memoEnabled, x, k).memo
    decreases 3 - k
  {
    if k < 3 && st.outcome.Ok? {
      RegionMemo(st, memoEnabled, x, k);
      RegionsFromMemoGrows(RegionStep(st, memoEnabled, x, k), memoEnabled, x, k + 1);
    }
  }

  /**
   * The stale index: when the row's key is already recorded, the row is
   * skipped without advancing `function_list_index`, so the column is then
   * keyed by the row number rather than by `10 + column`.
   */
  lemma StaleColumnKey(g: Grid, memo: set<MemoKey>, x: Coord)
    requires IsGrid(g) && OnGrid(x)
    requires MemoKey(x.0, Masks(g, RowCells(x.0))) in memo
    ensures RegionStep(PoeState(g, memo, 0, Ok), true, x, 0) == PoeState(g, memo, 0, Ok)
    ensures UniqueKey(RegionStep(PoeState(g, memo, 0, Ok), true, x, 0).index, x) == x.0 != UniqueKey(1, x)
  {
  }

  // ---------------------------------------------------------------------
  // The loops of the source.
  // ---------------------------------------------------------------------

  /** `bitmaps`: the masks of the region's cells, read one by one. */
  method CollectMasks(p: SudokuPuzzle, cells: seq<Coord>) returns (ms: seq<bv9>)
    requires p.Valid() && AllOnGrid(cells)
    ensures ms == Masks(p.rows, cells)
  {
    ms := [];
    var i := 0;
    while i < |cells|
      invariant 0 <= i <= |cells| && ms == Masks(p.rows, cells[..i])
    {
      assert cells[..i + 1][..i] == cells[..i];
      ms := ms + [p.GetSquare(cells[i].0, cells[i].1).GetBitmap()];
      i := i + 1;
    }
    assert cells[..|cells|] == cells;
  }

  /** `already_selected`: flags the digit of every one-bit mask. */
  method AlreadySelected(ms: seq<bv9>) returns (selected: seq<bool>)
    ensures selected == SelectedUpTo(ms, |ms|)
  {
    selected := [false, false, false, false, false, false, false, false, false];
    var i := 0;
    while i < |ms|
      invariant 0 <= i <= |ms| && selected == SelectedUpTo(ms, i)
    {
      if NumberOfBits(ms[i]) == 1 {
        selected := selected[OneBitDigit(ms[i]) - 1 := true];
      }
      i := i + 1;
    }
  }

  /** The accumulator loop over the masks. */
  method Accumulators(ms: seq<bv9>) returns (ever: bv9, odd: bv9, twoPlus: bv9)
    ensures ever == Ever(ms) && odd == Odd(ms) && twoPlus == TwoPlus(ms)
  {
    ever, odd, twoPlus := 0, 0, 0;
    var i := 0;
    while i < |ms|
      invariant 0 <= i <= |ms|
      invariant ever == Ever(ms[..i]) && odd == Odd(ms[..i]) && twoPlus == TwoPlus(ms[..i])
    {
      EverPrefix(ms, i);
      OddPrefix(ms, i);
      TwoPlusPrefix(ms, i);
      ever := ever | ms[i];
      odd := odd ^ ms[i];
      twoPlus := twoPlus | (ever & (!odd & FullMask));
      i := i + 1;
    }
    assert ms[..|ms|] == ms;
  }

  /** Scans the region for `v`, selecting it in every cell where it is still possible. */
  method ScanDigit(p: SudokuPuzzle, cells: seq<Coord>, v: Digit) returns (found: bool, foundTwoPlus: bool)
    requires p.Valid() && AllOnGrid(cells)
    modifies p
    ensures p.Valid() && p.initialStrings == old(p.initialStrings)
    ensures ScanUpTo(old(p.rows), cells, v, |cells|) == Scan(p.rows, found, foundTwoPlus)
  {
    found, foundTwoPlus := false, false;
    var i := 0;
    while i < |cells|
      invariant 0 <= i <= |cells| && p.Valid() && p.initialStrings == old(p.initialStrings)
      invariant ScanUpTo(old(p.rows), cells, v, i) == Scan(p.rows, found, foundTwoPlus)
    {
      var c := cells[i];
      var sq := p.GetSquare(c.0, c.1);
      if sq.IsPossible(v) {
        foundTwoPlus := found;
        found := true;
        p.SetSquare(c.0, c.1, sq.Select(v));
      }
      i := i + 1;
    }
  }

  /** The digit loop: each exactly-once digit not already selected is scanned for. */
  method SelectDigits(p: SudokuPuzzle, cells: seq<Coord>, selected: seq<bool>, once: bv9) returns (failed: bool)
    requires p.Valid() && AllOnGrid(cells) && |selected| == 9
    modifies p
    ensures p.Valid() && p.initialStrings == old(p.initialStrings)
    ensures DigitsUpTo(old(p.rows), cells, selected, once, 9) == Pass(p.rows, failed)
  {
    failed := false;
    var v := 1;
    while v <= 9
      invariant 1 <= v <= 10 && p.Valid() && p.initialStrings == old(p.initialStrings)
      invariant DigitsUpTo(old(p.rows), cells, selected, once, v - 1) == Pass(p.rows, failed)
    {
      if !selected[v - 1] && DigitBit(v) & once != 0 {
        var found, foundTwoPlus := ScanDigit(p, cells, v);
        if !found {
          failed := true;
        }
        if foundTwoPlus {
          failed := true;
        }
      }
      v := v + 1;
    }
  }

  /**
   * `ProcessOfElimination`: the memo of processed regions (the source's
   * `map`, whose values are always `true`) and whether it is consulted.
   */
  class ProcessOfElimination {
    var memo: set<MemoKey>
    var isMemoizationEnabled: bool

    /** An empty memo, consulted. */
    constructor ()
      ensures memo == {} && isMemoizationEnabled
    {
      memo := {};
      isMemoizationEnabled := true;
    }

    /**
     * The first half of a region: its cells, their bitmaps before any
     * selection, the memo key and whether the memo already holds it.
     */
    method RegionKey(p: SudokuPuzzle, x: Coord, k: int, index: int) returns (cells: seq<Coord>, bitmaps: seq<bv9>, key: MemoKey, hit: bool)
      requires p.Valid() && OnGrid(x) && 0 <= index <= k < 3
      ensures cells == RegionCells(k, x) && bitmaps == Masks(p.rows, cells)
      ensures key == MemoKey(UniqueKey(index, x), bitmaps)
      ensures hit == (isMemoizationEnabled && key in memo)
    {
      cells := RegionCells(k, x);
      var uniqueKey := UniqueKey(index, x);
      bitmaps := CollectMasks(p, cells);
      key := MemoKey(uniqueKey, bitmaps);
      hit := isMemoizationEnabled && key in memo;
    }

    /** One region of `process`: the memo check, then the rest of the region. */
    method ProcessRegion(p: SudokuPuzzle, x: Coord, k: int, index: int) returns (r: Outcome, next: int)
      requires p.Valid() && OnGrid(x) && 0 <= index <= k < 3
      modifies this, p
      ensures p.Valid() && p.initialStrings == old(p.initialStrings)
      ensures isMemoizationEnabled == old(isMemoizationEnabled)
      ensures RegionStep(PoeState(old(p.rows), old(memo), index, Ok), isMemoizationEnabled, x, k)
        == PoeState(p.rows, memo, next, r)
    {
      var cells, bitmaps, key, hit := RegionKey(p, x, k, index);
      if hit {
        return Ok, index;
      }
      r, next := CheckRegion(p, cells, bitmaps, key, index);
    }

    /** The coverage check of a region the memo does not hold, then its digit loop. */
    method CheckRegion(p: SudokuPuzzle, cells: seq<Coord>, bitmaps: seq<bv9>, key: MemoKey, index: int) returns (r: Outcome, next: int)
      requires p.Valid() && AllOnGrid(cells)
      modifies this, p
      ensures p.Valid() && p.initialStrings == old(p.initialStrings)
      ensures isMemoizationEnabled == old(isMemoizationEnabled)
      ensures RegionCheck(PoeState(old(p.rows), old(memo), index, Ok), cells, bitmaps, key)
        == PoeState(p.rows, memo, next, r)
    {
      var ever, odd, twoPlus := Accumulators(bitmaps);
      if ever != FullMask {
        return Violation("Contradiction"), index;
      }
      r, next := DigitLoop(p, cells, bitmaps, odd & (FullMask & !twoPlus), key, index);
    }

    /** The digit loop of a covered region, and on success the memo entry. */
    method DigitLoop(p: SudokuPuzzle, cells: seq<Coord>, bitmaps: seq<bv9>, once: bv9, key: MemoKey, index: int)
      returns (r: Outcome, next: int)
      requires p.Valid() && AllOnGrid(cells) && once == Once(bitmaps)
      modifies this, p
      ensures p.Valid() && p.initialStrings == old(p.initialStrings)
      ensures isMemoizationEnabled == old(isMemoizationEnabled)
      ensures RegionDigits(PoeState(old(p.rows), old(memo), index, Ok), cells, bitmaps, key)
        == PoeState(p.rows, memo, next, r)
    {
      var selected := AlreadySelected(bitmaps);
      var failed := SelectDigits(p, cells, selected, once);
      if failed {
        return Violation("Contradiction"), index;
      }
      memo := memo + {key};
      return Ok, index + 1;
    }

    /**
     * `process`: the row, the column and the box of the changed cell in
     * turn, stopping at the first violation.
     */
    method Process(item: QueueItem, p: SudokuPuzzle, poeEnabled: bool) returns (r: Outcome)
      requires p.Valid() && OnGrid(item.At())
      modifies this, p
      ensures p.Valid() && p.initialStrings == old(p.initialStrings)
      ensures isMemoizationEnabled == old(isMemoizationEnabled)
      ensures var st := Poe(old(p.rows), old(memo), isMemoizationEnabled, poeEnabled, item.At());
        p.rows == st.grid && memo == st.memo && r == st.outcome
    {
      if !poeEnabled {
        return Ok;
      }
      var x := item.At();
      ghost var start := PoeState(p.rows, memo, 0, Ok);
      var index := 0;
      r := Ok;
      var k := 0;
      while k < 3 && r.Ok?
        invariant 0 <= index <= k <= 3 && p.Valid() && p.initialStrings == old(p.initialStrings)
        invariant isMemoizationEnabled == old(isMemoizationEnabled)
        invariant RegionsFrom(PoeState(p.rows, memo, index, r), isMemoizationEnabled, x, k)
          == RegionsFrom(start, isMemoizationEnabled, x, 0)
        decreases 3 - k
      {
        r, index := ProcessRegion(p, x, k, index);
        k := k + 1;
      }
    }
  }
}
