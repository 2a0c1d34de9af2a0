/**
 * Candidate cells of the grid (src/squares.rs).
 *
 * A cell keeps a 9-bit candidate mask: bit k set means digit k+1 is still
 * possible. A `Derived` cell starts with every digit possible and only loses
 * bits; an `Initial` cell is a clue of the puzzle: it always holds its one
 * digit, it is never dirty and its mutators do nothing. The source's cells
 * are boxed trait objects mutated through `&mut self`; here a cell is a
 * value and every mutator returns the updated cell.
 */
module Squares {
  import opened Wrappers

  /** A Sudoku digit. */
  type Digit = d: int | 1 <= d <= 9 witness 1

  /** Entry 0 of the source's bitmap table: every digit possible. */
  const FullMask: bv9 := 511

  /** The single bit of digit `d` (bit d-1): entry `d` of the bitmap table. */
  function DigitBit(d: Digit): bv9
  {
    match d
    case 1 => 1
    case 2 => 2
    case 3 => 4
    case 4 => 8
    case 5 => 16
    case 6 => 32
    case 7 => 64
    case 8 => 128
    case 9 => 256
  }

  /** Entry `v` of the bitmap table `[511, 1, 2, 4, ..., 256]`. */
  function BitmapValue(v: nat): (b: bv9)
    requires v <= 9
    ensures v == 0 ==> b == FullMask
    ensures v != 0 ==> forall d: Digit :: HasDigit(b, d) <==> d == v
  {
    if v == 0 then FullMask
    else
      BitOfDigit(v);
      DigitBit(v)
  }

  /** Digit `d` is set in `mask`. */
  predicate HasDigit(mask: bv9, d: Digit)
  {
    mask & DigitBit(d) != 0
  }

  /** The bits of the digits below `k`. */
  function LowMask(k: int): bv9
    requires 1 <= k <= 10
  {
    match k
    case 1 => 0
    case 2 => 1
    case 3 => 3
    case 4 => 7
    case 5 => 15
    case 6 => 31
    case 7 => 63
    case 8 => 127
    case 9 => 255
    case 10 => 511
  }

  // ---------------------------------------------------------------------
  // Bit facts. Each is stated on the bit expressions themselves, so the
  // solver decides it directly; the per-digit lemmas below lift them to
  // `HasDigit`.
  // ---------------------------------------------------------------------

  lemma AndBit(a: bv9, b: bv9, d: Digit)
    ensures (a & b) & DigitBit(d) != 0 <==> a & DigitBit(d) != 0 && b & DigitBit(d) != 0
  {
  }

  lemma OrBit(a: bv9, b: bv9, d: Digit)
    ensures (a | b) & DigitBit(d) != 0 <==> a & DigitBit(d) != 0 || b & DigitBit(d) != 0
  {
  }

  lemma XorBit(a: bv9, b: bv9, d: Digit)
    ensures (a ^ b) & DigitBit(d) != 0 <==> (a & DigitBit(d) != 0 <==> b & DigitBit(d) == 0)
  {
  }

  lemma ComplementBit(a: bv9, d: Digit)
    ensures (FullMask ^ a) & DigitBit(d) != 0 <==> a & DigitBit(d) == 0
  {
  }

  lemma NotBit(a: bv9, d: Digit)
    ensures (FullMask & !a) & DigitBit(d) != 0 <==> a & DigitBit(d) == 0
  {
  }

  lemma OwnBit(k: Digit, d: Digit)
    ensures DigitBit(k) & DigitBit(d) != 0 <==> d == k
  {
  }

  lemma FullBit(d: Digit)
    ensures FullMask & DigitBit(d) != 0
  {
  }

  lemma NoBitsIsZero(c: bv9)
    requires c & 1 == 0 && c & 2 == 0 && c & 4 == 0 && c & 8 == 0 && c & 16 == 0
    requires c & 32 == 0 && c & 64 == 0 && c & 128 == 0 && c & 256 == 0
    ensures c == 0
  {
  }

  /** The digits of the single bit of `k` are exactly `k`. */
  lemma BitOfDigit(k: Digit)
    ensures forall d: Digit :: HasDigit(DigitBit(k), d) <==> d == k
  {
    forall d: Digit ensures HasDigit(DigitBit(k), d) <==> d == k {
      OwnBit(k, d);
    }
  }

  /** Every digit is set in the full mask. */
  lemma FullHasAll()
    ensures forall d: Digit :: HasDigit(FullMask, d)
  {
    forall d: Digit ensures HasDigit(FullMask, d) {
      FullBit(d);
    }
  }

  /** `a & b` keeps the digits common to both masks. */
  lemma HasAnd(a: bv9, b: bv9)
    ensures forall d: Digit :: HasDigit(a & b, d) <==> HasDigit(a, d) && HasDigit(b, d)
  {
    forall d: Digit ensures HasDigit(a & b, d) <==> HasDigit(a, d) && HasDigit(b, d) {
      AndBit(a, b, d);
    }
  }

  /** `a | b` holds the digits of either mask. */
  lemma HasOr(a: bv9, b: bv9)
    ensures forall d: Digit :: HasDigit(a | b, d) <==> HasDigit(a, d) || HasDigit(b, d)
  {
    forall d: Digit ensures HasDigit(a | b, d) <==> HasDigit(a, d) || HasDigit(b, d) {
      OrBit(a, b, d);
    }
  }

  /** `a ^ b` holds the digits of exactly one of the masks. */
  lemma HasXor(a: bv9, b: bv9)
    ensures forall d: Digit :: HasDigit(a ^ b, d) <==> (HasDigit(a, d) <==> !HasDigit(b, d))
  {
    forall d: Digit ensures HasDigit(a ^ b, d) <==> (HasDigit(a, d) <==> !HasDigit(b, d)) {
      XorBit(a, b, d);
    }
  }

  /** `511 ^ a` holds the digits missing from `a`. */
  lemma HasComplement(a: bv9)
    ensures forall d: Digit :: HasDigit(FullMask ^ a, d) <==> !HasDigit(a, d)
  {
    forall d: Digit ensures HasDigit(FullMask ^ a, d) <==> !HasDigit(a, d) {
      ComplementBit(a, d);
    }
  }

  /** `511 & !a` holds the digits missing from `a`. */
  lemma HasNot(a: bv9)
    ensures forall d: Digit :: HasDigit(FullMask & !a, d) <==> !HasDigit(a, d)
  {
    forall d: Digit ensures HasDigit(FullMask & !a, d) <==> !HasDigit(a, d) {
      NotBit(a, d);
    }
  }

  /** A mask is determined by its digits. */
  lemma HasDetermine(a: bv9, b: bv9)
    requires forall d: Digit :: HasDigit(a, d) <==> HasDigit(b, d)
    ensures a == b
  {
    var c := a ^ b;
    forall d: Digit ensures !HasDigit(c, d) {
      assert HasDigit(a, d) <==> HasDigit(b, d);
      XorBit(a, b, d);
    }
    assert !HasDigit(c, 1) && !HasDigit(c, 2) && !HasDigit(c, 3) && !HasDigit(c, 4) && !HasDigit(c, 5);
    assert !HasDigit(c, 6) && !HasDigit(c, 7) && !HasDigit(c, 8) && !HasDigit(c, 9);
    NoBitsIsZero(c);
  }

  /** A mask without any digit is the empty mask. */
  lemma NoDigitIsZero(a: bv9)
    requires forall d: Digit :: !HasDigit(a, d)
    ensures a == 0
  {
    forall d: Digit ensures HasDigit(a, d) <==> HasDigit(0, d) {
    }
    HasDetermine(a, 0);
  }

  // ---------------------------------------------------------------------
  // Population count and the ascending list of digits.
  // ---------------------------------------------------------------------

  /** Population count: clears the lowest set bit until none is left. */
  function NumberOfBits(bitmap: bv9): nat
    decreases bitmap
  {
    if bitmap == 0 then 0 else 1 + NumberOfBits(bitmap & (bitmap - 1))
  }

  /** 1 if bit `m` is set in `b`, else 0. */
  function Bit(b: bv9, m: bv9): nat
  {
    if b & m != 0 then 1 else 0
  }

  /** The number of digits of `b`, one term per bit. */
  function BitCount(b: bv9): nat
  {
    Bit(b, 1) + Bit(b, 2) + Bit(b, 4) + Bit(b, 8) + Bit(b, 16) + Bit(b, 32) + Bit(b, 64) + Bit(b, 128) + Bit(b, 256)
  }

  /** Clearing the lowest set bit removes exactly one digit. */
  lemma ClearLowestCount(b: bv9)
    requires b != 0
    ensures BitCount(b & (b - 1)) + 1 == BitCount(b)
  {
  }

  /** 1 if digit `d` is set in `b`, else 0. */
  function Indicator(b: bv9, d: Digit): nat
  {
    if HasDigit(b, d) then 1 else 0
  }

  /** The number of digits from `k` to 9 set in `b`. */
  function CountFrom(b: bv9, k: int): nat
    requires 1 <= k <= 10
    decreases 10 - k
  {
    if k == 10 then 0 else Indicator(b, k) + CountFrom(b, k + 1)
  }

  lemma IndicatorBit(b: bv9, d: Digit)
    ensures Indicator(b, d) == Bit(b, DigitBit(d))
  {
  }

  /** `CountFrom` spelled out, one indicator per digit. */
  lemma CountSum(b: bv9)
    ensures CountFrom(b, 1) == Indicator(b, 1) + Indicator(b, 2) + Indicator(b, 3) + Indicator(b, 4) + Indicator(b, 5) + Indicator(b, 6) + Indicator(b, 7) + Indicator(b, 8) + Indicator(b, 9)
  {
    assert CountFrom(b, 9) == Indicator(b, 9) + CountFrom(b, 10);
    assert CountFrom(b, 8) == Indicator(b, 8) + CountFrom(b, 9);
    assert CountFrom(b, 7) == Indicator(b, 7) + CountFrom(b, 8);
    assert CountFrom(b, 6) == Indicator(b, 6) + CountFrom(b, 7);
    assert CountFrom(b, 5) == Indicator(b, 5) + CountFrom(b, 6);
    assert CountFrom(b, 4) == Indicator(b, 4) + CountFrom(b, 5);
    assert CountFrom(b, 3) == Indicator(b, 3) + CountFrom(b, 4);
    assert CountFrom(b, 2) == Indicator(b, 2) + CountFrom(b, 3);
    assert CountFrom(b, 1) == Indicator(b, 1) + CountFrom(b, 2);
  }

  /** `BitCount` spelled out, one indicator per digit. */
  lemma SumBits(b: bv9)
    ensures BitCount(b) == Indicator(b, 1) + Indicator(b, 2) + Indicator(b, 3) + Indicator(b, 4) + Indicator(b, 5) + Indicator(b, 6) + Indicator(b, 7) + Indicator(b, 8) + Indicator(b, 9)
  {
    IndicatorBit(b, 1);
    IndicatorBit(b, 2);
    IndicatorBit(b, 3);
    IndicatorBit(b, 4);
    IndicatorBit(b, 5);
    IndicatorBit(b, 6);
    IndicatorBit(b, 7);
    IndicatorBit(b, 8);
    IndicatorBit(b, 9);
  }

  lemma CountFromIsBitCount(b: bv9)
    ensures CountFrom(b, 1) == BitCount(b)
  {
    CountSum(b);
    SumBits(b);
  }

  lemma {:induction false} NumberOfBitsIsBitCount(b: bv9)
    ensures NumberOfBits(b) == BitCount(b)
    decreases b
  {
    if b != 0 {
      ClearLowestCount(b);
      NumberOfBitsIsBitCount(b & (b - 1));
    }
  }

  /** The digits from `k` to 9 that are set in `mask`, in ascending order. */
  function DigitsFrom(mask: bv9, k: int): seq<Digit>
    requires 1 <= k <= 10
    decreases 10 - k
  {
    if k == 10 then []
    else (if HasDigit(mask, k) then [k] else []) + DigitsFrom(mask, k + 1)
  }

  lemma {:induction false} DigitsFromBound(mask: bv9, k: int)
    requires 1 <= k <= 10
    ensures forall i :: 0 <= i < |DigitsFrom(mask, k)| ==> k <= DigitsFrom(mask, k)[i]
    decreases 10 - k
  {
    if k < 10 {
      DigitsFromBound(mask, k + 1);
    }
  }

  lemma {:induction false} DigitsFromAscending(mask: bv9, k: int)
    requires 1 <= k <= 10
    ensures forall i, j :: 0 <= i < j < |DigitsFrom(mask, k)| ==> DigitsFrom(mask, k)[i] < DigitsFrom(mask, k)[j]
    decreases 10 - k
  {
    if k < 10 {
      DigitsFromAscending(mask, k + 1);
      DigitsFromBound(mask, k + 1);
    }
  }

  lemma {:induction false} DigitsFromMembers(mask: bv9, k: int)
    requires 1 <= k <= 10
    ensures forall d: Digit :: k <= d ==> (d in DigitsFrom(mask, k) <==> HasDigit(mask, d))
    decreases 10 - k
  {
    if k < 10 {
      DigitsFromMembers(mask, k + 1);
      DigitsFromBound(mask, k + 1);
    }
  }

  lemma {:induction false} DigitsFromCount(b: bv9, k: int)
    requires 1 <= k <= 10
    ensures |DigitsFrom(b, k)| == CountFrom(b, k)
    decreases 10 - k
  {
    if k < 10 {
      DigitsFromCount(b, k + 1);
    }
  }

  /**
   * The ascending digit list of a mask: strictly increasing, holding exactly
   * the digits of the mask, as long as the mask's popcount.
   */
  lemma DigitList(mask: bv9)
    ensures forall i, j :: 0 <= i < j < |DigitsFrom(mask, 1)| ==> DigitsFrom(mask, 1)[i] < DigitsFrom(mask, 1)[j]
    ensures forall d: Digit :: d in DigitsFrom(mask, 1) <==> HasDigit(mask, d)
    ensures |DigitsFrom(mask, 1)| == NumberOfBits(mask) <= 9
  {
    DigitsFromAscending(mask, 1);
    DigitsFromMembers(mask, 1);
    DigitsFromCount(mask, 1);
    CountFromIsBitCount(mask);
    NumberOfBitsIsBitCount(mask);
  }

  // ---------------------------------------------------------------------
  // Cells.
  // ---------------------------------------------------------------------

  /**
   * A cell: a clue of the puzzle, or a derived cell with its candidate mask,
   * its memoized single value and its dirty flag.
   */
  datatype Square =
    | Initial(value: Digit)
    | Derived(bitmap: bv9, singleValue: Option<Digit>, dirty: bool)
  {
    /** A memoized single value is the only digit the mask may still hold. */
    predicate Valid()
    {
      Derived? && singleValue.Some? ==> forall d: Digit :: HasDigit(bitmap, d) ==> d == singleValue.value
    }

    /** The candidate mask; a clue has the bit of its digit. */
    function GetBitmap(): (b: bv9)
      ensures Initial? ==> forall d: Digit :: HasDigit(b, d) <==> d == value
    {
      if Initial? then BitmapValue(value) else bitmap
    }

    /** Whether `v` is possible; for a derived cell `v == 0` asks for a non-empty mask. */
    function IsPossible(v: nat): (r: bool)
      requires Derived? ==> v <= 9
      ensures 1 <= v <= 9 ==> (r <==> HasDigit(GetBitmap(), v))
      ensures Derived? && v == 0 ==> (r <==> bitmap != 0)
    {
      if Initial? then v == value
      else
        assert v == 0 ==> BitmapValue(v) == FullMask;
        bitmap & BitmapValue(v) != 0
    }

    /** The possible digits, in ascending order. */
    function ValuesRemaining(): (r: seq<Digit>)
      ensures forall i, j :: 0 <= i < j < |r| ==> r[i] < r[j]
      ensures forall d: Digit :: d in r <==> IsPossible(d)
    {
      if Initial? then [value]
      else
        DigitList(bitmap);
        DigitsFrom(bitmap, 1)
    }

    /** The number of possible digits: the popcount of the mask. */
    function CountRemaining(): nat
    {
      if Initial? then 1 else NumberOfBits(bitmap)
    }

    /** Exactly one digit is still possible. */
    predicate HasSingleValue()
    {
      CountRemaining() == 1
    }

    /** The one possible digit of a cell that has a single value. */
    function SingleValue(): (v: Digit)
      requires HasSingleValue()
      ensures IsPossible(v)
      ensures forall d: Digit :: IsPossible(d) <==> d == v
    {
      CountIsLength(this);
      var r := ValuesRemaining();
      assert forall d: Digit :: d in r <==> d == r[0];
      r[0]
    }

    /** What `get_single_value` answers: the memo when there is one, else the single value. */
    function Answer(): (v: Digit)
      requires HasSingleValue()
      ensures Valid() ==> v == SingleValue()
    {
      if Derived? && singleValue.Some? then
        assert IsPossible(SingleValue());
        singleValue.value
      else SingleValue()
    }

    /** The cell after `get_single_value`: a derived cell holds its answer as memo. */
    function Memoized(): (r: Square)
      requires HasSingleValue()
      ensures r.GetBitmap() == GetBitmap() && r.IsDirty() == IsDirty() && r.HasSingleValue()
      ensures r.Derived? ==> r.singleValue == Some(Answer())
      ensures Valid() ==> r.Valid()
    {
      if Derived? then
        assert forall d: Digit :: HasDigit(bitmap, d) ==> IsPossible(d);
        this.(singleValue := Some(Answer()))
      else this
    }

    function IsDirty(): bool
    {
      Derived? && dirty
    }

    /**
     * Removes the digits of `m` from the mask; the cell turns dirty when the
     * mask changed. A clue is left alone.
     */
    function BitmapElimination(m: bv9): (r: Square)
      ensures Initial? ==> r == this
      ensures Derived? ==> r.Derived? && r.singleValue == singleValue
      ensures Derived? ==> (r.dirty <==> dirty || r.bitmap != bitmap)
    {
      if Initial? then this
      else
        var b := bitmap & (FullMask ^ m);
        Derived(b, singleValue, dirty || b != bitmap)
    }

    /** Removes digit `v`; panics on a derived cell unless 1 <= v <= 9. */
    function Eliminate(v: nat): (r: Square)
      requires Derived? ==> 1 <= v <= 9
      ensures Initial? ==> r == this
      ensures Derived? ==> r == BitmapElimination(BitmapValue(v))
    {
      if Initial? then this else BitmapElimination(BitmapValue(v))
    }

    /**
     * Narrows the cell to `v`. Panics on a derived cell when `v` is not
     * possible; does nothing when the mask already equals `v`'s entry of the
     * bitmap table; otherwise sets the mask to it and marks the cell dirty.
     */
    function Select(v: nat): (r: Square)
      requires Derived? ==> v <= 9 && IsPossible(v)
      ensures Initial? ==> r == this
      ensures Derived? && bitmap == BitmapValue(v) ==> r == this
      ensures Derived? && bitmap != BitmapValue(v) ==> r == Derived(BitmapValue(v), singleValue, true)
      ensures Derived? && v != 0 ==> forall d: Digit :: r.IsPossible(d) <==> d == v
      ensures Valid() && v != 0 ==> r.Valid()
    {
      if Initial? then this
      else if BitmapValue(v) == bitmap then this
      else Derived(BitmapValue(v), singleValue, true)
    }

    /** Clears the dirty flag of a derived cell. */
    function Clean(): (r: Square)
      ensures !r.IsDirty()
      ensures r.GetBitmap() == GetBitmap() && r.Initial? == Initial?
      ensures Valid() ==> r.Valid()
    {
      if Initial? then this else this.(dirty := false)
    }

    /** A fresh copy of the same kind and mask: clean, without a memo. */
    function Clone(): (r: Square)
      ensures r.Initial? == Initial? && r.GetBitmap() == GetBitmap()
      ensures Initial? ==> r == this
      ensures !r.IsDirty() && r.Valid()
    {
      if Initial? then Initial(value) else CopyDerived(bitmap)
    }
  }

  /** The bitmap table entry of a digit has exactly one bit. */
  lemma DigitBitCount(v: Digit)
    ensures NumberOfBits(BitmapValue(v)) == 1
  {
    NumberOfBitsIsBitCount(BitmapValue(v));
  }

  /** The count is the number of possible digits. */
  lemma CountIsLength(s: Square)
    ensures s.CountRemaining() == |s.ValuesRemaining()| <= 9
  {
    if s.Derived? {
      DigitList(s.bitmap);
    }
  }

  /** A derived cell with every digit possible. */
  function NewDerived(): (s: Square)
    ensures s.Derived? && !s.IsDirty() && s.Valid()
    ensures s.CountRemaining() == 9
    ensures forall d: Digit :: s.IsPossible(d)
  {
    FullHasAll();
    NumberOfBitsIsBitCount(FullMask);
    Derived(FullMask, None, false)
  }

  /** A derived cell with the given mask, clean and without a memo. */
  function CopyDerived(m: bv9): (s: Square)
    ensures s.Derived? && !s.IsDirty() && s.Valid()
    ensures s.GetBitmap() == m
  {
    Derived(m, None, false)
  }

  /** A clue; the source asserts that it is a digit. */
  function NewInitial(v: nat): (s: Square)
    requires 1 <= v <= 9
    ensures s.Initial? && s.HasSingleValue() && s.SingleValue() == v
    ensures !s.IsDirty() && s.Valid()
  {
    Initial(v)
  }

  /** Eliminating a mask removes exactly its digits and keeps the memo valid. */
  lemma BitmapEliminationDigits(s: Square, m: bv9)
    requires s.Derived?
    ensures forall d: Digit :: HasDigit(s.BitmapElimination(m).bitmap, d) <==> HasDigit(s.bitmap, d) && !HasDigit(m, d)
  {
    HasAnd(s.bitmap, FullMask ^ m);
    HasComplement(m);
  }

  /** Eliminating a mask keeps a valid memo valid. */
  lemma BitmapEliminationValid(s: Square, m: bv9)
    requires s.Valid()
    ensures s.BitmapElimination(m).Valid()
  {
    if s.Derived? {
      BitmapEliminationDigits(s, m);
    }
  }

  /** Eliminating a mask leaves possible exactly the digits that were possible and are not in the mask. */
  lemma BitmapEliminationPossible(s: Square, m: bv9)
    requires s.Derived?
    ensures forall d: Digit :: s.BitmapElimination(m).IsPossible(d) <==> s.IsPossible(d) && !HasDigit(m, d)
  {
    BitmapEliminationDigits(s, m);
  }

  /** The mask of a cell with a single value holds that value and nothing else. */
  lemma SingleValueMask(s: Square)
    requires s.HasSingleValue()
    ensures forall d: Digit :: HasDigit(s.GetBitmap(), d) <==> d == s.SingleValue()
  {
    forall d: Digit ensures HasDigit(s.GetBitmap(), d) <==> d == s.SingleValue() {
      assert s.IsPossible(d) <==> HasDigit(s.GetBitmap(), d);
    }
  }

  /** A non-empty mask holds some digit: the lowest one set. */
  lemma SomeDigit(a: bv9) returns (d: Digit)
    requires a != 0
    ensures HasDigit(a, d)
  {
    d := if a & 1 != 0 then 1 else if a & 2 != 0 then 2 else if a & 4 != 0 then 3
      else if a & 8 != 0 then 4 else if a & 16 != 0 then 5 else if a & 32 != 0 then 6
      else if a & 64 != 0 then 7 else if a & 128 != 0 then 8 else 9;
  }

  /** Eliminating the same mask twice is eliminating it once. */
  lemma BitmapEliminationTwice(s: Square, m: bv9)
    ensures s.BitmapElimination(m).BitmapElimination(m) == s.BitmapElimination(m)
  {
  }

  /** `eliminate(v)` removes exactly `v`, and marks the cell dirty exactly when `v` was possible. */
  lemma EliminateDigits(s: Square, v: nat)
    requires s.Derived? && 1 <= v <= 9
    ensures forall d: Digit :: s.Eliminate(v).IsPossible(d) <==> s.IsPossible(d) && d != v
    ensures s.Eliminate(v).dirty <==> s.dirty || s.IsPossible(v)
  {
    var r := s.Eliminate(v);
    BitmapEliminationDigits(s, BitmapValue(v));
    if s.IsPossible(v) {
      assert !HasDigit(r.bitmap, v);
    } else {
      HasDetermine(r.bitmap, s.bitmap);
    }
  }

  // ---------------------------------------------------------------------
  // eliminate_list: XOR-accumulation of the listed digits' table entries.
  // ---------------------------------------------------------------------

  /** The XOR of the bitmap-table entries of `arg`, folded from the left. */
  function XorOfValues(arg: seq<nat>): bv9
    requires forall i :: 0 <= i < |arg| ==> arg[i] <= 9
  {
    if |arg| == 0 then 0 else XorOfValues(arg[..|arg| - 1]) ^ BitmapValue(arg[|arg| - 1])
  }

  /**
   * Digit `d` survives in the accumulated mask exactly when `d` and `0`
   * (whose entry is the full mask) occur an odd number of times together.
   */
  lemma {:induction false} XorOfValuesParity(arg: seq<nat>, d: Digit)
    requires forall i :: 0 <= i < |arg| ==> arg[i] <= 9
    ensures HasDigit(XorOfValues(arg), d) <==> (multiset(arg)[d] + multiset(arg)[0]) % 2 == 1
    decreases |arg|
  {
    if |arg| == 0 {
      assert !HasDigit(0, d);
    } else {
      var init := arg[..|arg| - 1];
      var last := arg[|arg| - 1];
      XorOfValuesParity(init, d);
      OccurrencesStep(arg, d);
      XorEntry(XorOfValues(init), last, d);
    }
  }

  /** Appending `last` adds one occurrence of `d` or `0` exactly when `last` is one of them. */
  lemma OccurrencesStep(arg: seq<nat>, d: Digit)
    requires |arg| > 0
    ensures var init, last := arg[..|arg| - 1], arg[|arg| - 1];
      multiset(arg)[d] + multiset(arg)[0]
      == multiset(init)[d] + multiset(init)[0] + (if last == 0 || last == d then 1 else 0)
  {
    var init, last := arg[..|arg| - 1], arg[|arg| - 1];
    assert arg == init + [last];
    assert multiset(arg) == multiset(init) + multiset{last};
  }

  /** XOR-ing in a table entry flips digit `d` when the entry is `d`'s or the full mask. */
  lemma XorEntry(acc: bv9, v: nat, d: Digit)
    requires v <= 9
    ensures HasDigit(acc ^ BitmapValue(v), d) <==> (HasDigit(acc, d) <==> !(v == 0 || v == d))
  {
    if v == 0 {
      XorFullBit(acc, d);
    } else {
      XorOwnBit(acc, v, d);
    }
  }

  lemma XorFullBit(acc: bv9, d: Digit)
    ensures (acc ^ FullMask) & DigitBit(d) != 0 <==> acc & DigitBit(d) == 0
  {
  }

  lemma XorOwnBit(acc: bv9, v: Digit, d: Digit)
    ensures (acc ^ DigitBit(v)) & DigitBit(d) != 0 <==> (acc & DigitBit(d) != 0 <==> v != d)
  {
  }

  /**
   * `eliminate_list`: a derived cell XORs the table entries of the listed
   * values and eliminates the result; a clue ignores the list.
   */
  method EliminateList(s: Square, arg: seq<nat>) returns (r: Square)
    requires s.Derived? ==> forall i :: 0 <= i < |arg| ==> arg[i] <= 9
    ensures s.Initial? ==> r == s
    ensures s.Derived? ==> r == s.BitmapElimination(XorOfValues(arg))
  {
    if s.Initial? {
      return s;
    }
    var cumulative: bv9 := 0;
    var n := 0;
    while n < |arg|
      invariant 0 <= n <= |arg|
      invariant cumulative == XorOfValues(arg[..n])
    {
      assert arg[..n + 1][..n] == arg[..n];
      cumulative := cumulative ^ BitmapValue(arg[n]);
      n := n + 1;
    }
    assert arg[..n] == arg;
    r := s.BitmapElimination(cumulative);
  }

  /** Listing distinct digits (and no 0) removes every one of them and nothing else. */
  lemma EliminateListDistinct(s: Square, arg: seq<nat>)
    requires s.Derived?
    requires forall i :: 0 <= i < |arg| ==> 1 <= arg[i] <= 9
    requires forall i, j :: 0 <= i < j < |arg| ==> arg[i] != arg[j]
    ensures forall d: Digit ::
      HasDigit(s.BitmapElimination(XorOfValues(arg)).bitmap, d) <==> HasDigit(s.bitmap, d) && d !in arg
  {
    BitmapEliminationDigits(s, XorOfValues(arg));
    forall d: Digit ensures HasDigit(XorOfValues(arg), d) <==> d in arg {
      XorOfValuesParity(arg, d);
      assert multiset(arg)[0] == 0;
      DistinctCount(arg, d);
    }
  }

  /** In a list without repeats a value occurs once or not at all. */
  lemma {:induction false} DistinctCount(arg: seq<nat>, x: nat)
    requires forall i, j :: 0 <= i < j < |arg| ==> arg[i] != arg[j]
    ensures multiset(arg)[x] == if x in arg then 1 else 0
    decreases |arg|
  {
    if |arg| > 0 {
      var init := arg[..|arg| - 1];
      assert arg == init + [arg[|arg| - 1]];
      DistinctCount(init, x);
      assert x == arg[|arg| - 1] ==> x !in init;
    }
  }

  /** A digit listed twice cancels out and stays possible. */
  lemma EliminateListRepeated(s: Square, d: Digit)
    requires s.Derived?
    ensures s.BitmapElimination(XorOfValues([d, d])).bitmap == s.bitmap
  {
    var x := XorOfValues([d, d]);
    assert [d, d][..1] == [d];
    assert XorOfValues([d]) == DigitBit(d) by {
      assert [d][..0] == [];
    }
    assert x == 0 by {
      XorSelf(DigitBit(d));
    }
    BitmapEliminationDigits(s, 0);
    forall e: Digit ensures !HasDigit(0, e) {
    }
    HasDetermine(s.BitmapElimination(0).bitmap, s.bitmap);
  }

  lemma XorSelf(b: bv9)
    ensures b ^ b == 0
  {
  }

  // ---------------------------------------------------------------------
  // Single values.
  // ---------------------------------------------------------------------

  /** `calculate_single_value`: the last possible digit; panics on an empty mask. */
  method CalculateSingleValue(bitmap: bv9) returns (r: Digit)
    requires bitmap != 0
    ensures HasDigit(bitmap, r)
    ensures forall d: Digit :: r < d ==> !HasDigit(bitmap, d)
  {
    var ret := 0;
    var i := 1;
    while i <= 9
      invariant 1 <= i <= 10
      invariant 0 <= ret < i
      invariant ret != 0 ==> HasDigit(bitmap, ret)
      invariant forall d: Digit :: ret < d < i ==> !HasDigit(bitmap, d)
    {
      if bitmap & BitmapValue(i) != 0 {
        ret := i;
      }
      i := i + 1;
    }
    if ret == 0 {
      NoDigitIsZero(bitmap);
      assert false;
    }
    r := ret;
  }

  /** `get_single_value_nomut`: the single value; panics when none is left alone. */
  method GetSingleValueNomut(s: Square) returns (v: Digit)
    requires s.HasSingleValue()
    ensures v == s.SingleValue()
  {
    ghost var single := s.SingleValue();
    if s.Initial? {
      assert s.IsPossible(s.value);
      return s.value;
    }
    assert s.bitmap != 0 by {
      assert s.IsPossible(single);
    }
    v := CalculateSingleValue(s.bitmap);
    assert s.GetBitmap() == s.bitmap;
    assert s.IsPossible(v);
  }

  /**
   * `get_single_value`: as `GetSingleValueNomut`, but a derived cell
   * memoizes the value on first use and answers later calls from the memo.
   */
  method GetSingleValue(s: Square) returns (v: Digit, r: Square)
    requires s.HasSingleValue()
    ensures v == s.Answer() && r == s.Memoized()
    ensures s.Valid() ==> v == s.SingleValue() && r.Valid() && r.SingleValue() == v
  {
    if s.Initial? {
      return s.value, s;
    }
    match s.singleValue
    case Some(i) =>
      v := i;
      r := s;
    case None =>
      v := GetSingleValueNomut(s);
      r := s.(singleValue := Some(v));
  }
}
