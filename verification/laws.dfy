/**
  What the bit-field operations promise, as relations between calls.

  Reads after writes: a range reads back what was written into it, a range
  disjoint from the one written reads back unchanged, and after two
  overlapping writes the first range reads back intact exactly when the
  writes agree on the bits they share. Repeated writes: writing twice is
  writing once and the last write wins. The single-bit operations are range
  writes of width one. The numbers: `get_range` is `(x >> start) mod
  2^(end - start)`, and the "value too big" check is `value < 2^(end - start)`.
 */
module BitFieldLaws {
  import opened Arith
  import opened Words
  import opened Values
  import opened BitFields

  // ---------------------------------------------------------------------
  // Reading
  // ---------------------------------------------------------------------

  /** `get_bit(bit)` is the binary digit of weight `2^bit` of the field. */
  lemma GetBitValue(f: BitField, bit: nat)
    requires bit < WIDTH
    ensures GetBit(f, bit) <==> (Val(f.bits) / Pow2(bit)) % 2 == 1
  {
    WordBit(f.bits, bit);
  }

  /** The range as a digit string: the field's bits `start` to `end - 1`
      followed by zeros. */
  lemma GetRangeSlices(f: BitField, start: nat, end: nat)
    requires ValidRange(start, end)
    ensures GetRange(f, start, end) == f.bits[start..end] + seq(WIDTH - (end - start), _ => false)
  {
  }

  /** `get_range` is `(x / 2^start) mod 2^(end - start)`. */
  lemma GetRangeValue(f: BitField, start: nat, end: nat)
    requires ValidRange(start, end)
    ensures Val(GetRange(f, start, end)) == (Val(f.bits) / Pow2(start)) % Pow2(end - start)
  {
    var x := f.bits;
    RangeDigits(f, start, end);
    var above := x[start..];
    assert x[start..end] == above[..end - start];
    SplitAt(above, end - start);
    SplitAt(x, start);
  }

  /** The same, with the shift of the field written as Rust's `>>`:
      `get_range` is `(x >> start) mod 2^(end - start)`. */
  lemma GetRangeShr(f: BitField, start: nat, end: nat)
    requires ValidRange(start, end)
    ensures Val(GetRange(f, start, end)) == Val(Shr(f.bits, start)) % Pow2(end - start)
  {
    GetRangeValue(f, start, end);
    ShrValue(f.bits, start);
  }

  /** The range read denotes the number its bits in the field spell. */
  lemma RangeDigits(f: BitField, start: nat, end: nat)
    requires ValidRange(start, end)
    ensures Val(GetRange(f, start, end)) == Val(f.bits[start..end])
  {
    GetRangeSlices(f, start, end);
    ValPadded(f.bits[start..end], WIDTH - (end - start));
  }

  /** A field read back is a value `set_range` accepts for that range. */
  lemma GetRangeFits(f: BitField, start: nat, end: nat)
    requires ValidRange(start, end)
    ensures ValueFits(start, end, GetRange(f, start, end))
  {
    ValueFitsIff(start, end, GetRange(f, start, end));
  }

  /** A word fits in `w` bits exactly when it denotes a number below `2^w`. */
  lemma FitsInValue(x: Word, w: nat)
    requires w <= WIDTH
    ensures FitsIn(x, w) <==> Val(x) < Pow2(w)
  {
    var lo, hi := x[..w], x[w..];
    assert x == lo + hi;
    ValConcat(lo, hi);
    ValBound(lo);
    ValZeroIff(hi);
    assert FitsIn(x, w) <==> forall i :: 0 <= i < |hi| ==> !hi[i] by {
      assert forall i :: 0 <= i < |hi| ==> hi[i] == x[w + i];
    }
    if Val(hi) > 0 {
      MulAtLeast(Pow2(w), Val(hi));
    }
  }

  /** The "value too big" check accepts exactly the values below
      `2^(end - start)`. */
  lemma ValueFitsValue(start: nat, end: nat, value: Word)
    requires ValidRange(start, end)
    ensures ValueFits(start, end, value) <==> Val(value) < Pow2(end - start)
  {
    ValueFitsIff(start, end, value);
    FitsInValue(value, end - start);
  }

  // ---------------------------------------------------------------------
  // Reading after writing
  // ---------------------------------------------------------------------

  /** A range reads back the value written into it. */
  lemma RoundTrip(f: BitField, start: nat, end: nat, value: Word)
    requires ValidRange(start, end)
    requires ValueFits(start, end, value)
    ensures GetRange(SetRange(f, start, end, value), start, end) == value
  {
    ValueFitsIff(start, end, value);
    var r := GetRange(SetRange(f, start, end, value), start, end);
    assert forall i :: 0 <= i < WIDTH ==> r[i] == value[i];
  }

  /** Writing a range does not disturb a range disjoint from it. */
  lemma DisjointRead(f: BitField, start: nat, end: nat, value: Word, start': nat, end': nat)
    requires ValidRange(start, end)
    requires ValueFits(start, end, value)
    requires ValidRange(start', end')
    requires end <= start' || end' <= start
    ensures GetRange(SetRange(f, start, end, value), start', end') == GetRange(f, start', end')
  {
    var r, r' := GetRange(SetRange(f, start, end, value), start', end'), GetRange(f, start', end');
    assert forall i :: 0 <= i < WIDTH ==> r[i] == r'[i];
  }

  /** The second write `value'` into `[start', end')` agrees with `value`
      written into `[start, end)` on every bit the two ranges share. */
  predicate AgreeOnOverlap(start: nat, end: nat, value: Word, start': nat, end': nat, value': Word)
    requires ValidRange(start, end) && ValidRange(start', end')
  {
    forall j :: 0 <= j < end - start && start' <= start + j < end' ==> value'[start + j - start'] == value[j]
  }

  /** After writing `value` into `[start, end)` and then `value'` into a
      possibly overlapping `[start', end')`, the first range still reads
      back `value` exactly when the two values agree on every bit the
      ranges share. */
  lemma OverlappingWrites(f: BitField, start: nat, end: nat, value: Word,
                          start': nat, end': nat, value': Word)
    requires ValidRange(start, end)
    requires ValueFits(start, end, value)
    requires ValidRange(start', end')
    requires ValueFits(start', end', value')
    ensures GetRange(SetRange(SetRange(f, start, end, value), start', end', value'), start, end) == value
        <==> AgreeOnOverlap(start, end, value, start', end', value')
  {
    var r := GetRange(SetRange(SetRange(f, start, end, value), start', end', value'), start, end);
    if AgreeOnOverlap(start, end, value, start', end', value') {
      OverlapAgreeing(f, start, end, value, start', end', value');
    } else {
      var j :| 0 <= j < end - start && start' <= start + j < end' && value'[start + j - start'] != value[j];
      assert r[j] != value[j];
    }
  }

  lemma OverlapAgreeing(f: BitField, start: nat, end: nat, value: Word,
                        start': nat, end': nat, value': Word)
    requires ValidRange(start, end)
    requires ValueFits(start, end, value)
    requires ValidRange(start', end')
    requires ValueFits(start', end', value')
    requires AgreeOnOverlap(start, end, value, start', end', value')
    ensures GetRange(SetRange(SetRange(f, start, end, value), start', end', value'), start, end) == value
  {
    ValueFitsIff(start, end, value);
    var r := GetRange(SetRange(SetRange(f, start, end, value), start', end', value'), start, end);
    assert forall j :: 0 <= j < WIDTH ==> r[j] == value[j];
  }

  /** `get_bit` after `set_bit`: the bit written reads true, every other bit
      reads as before. */
  lemma GetAfterSetBit(f: BitField, bit: nat, other: nat)
    requires bit < WIDTH && other < WIDTH
    ensures GetBit(SetBit(f, bit), other) == (other == bit || GetBit(f, other))
  {
  }

  /** `get_bit` after `reset_bit`: the bit written reads false, every other
      bit reads as before. */
  lemma GetAfterResetBit(f: BitField, bit: nat, other: nat)
    requires bit < WIDTH && other < WIDTH
    ensures GetBit(ResetBit(f, bit), other) == (other != bit && GetBit(f, other))
  {
  }

  // ---------------------------------------------------------------------
  // Writing
  // ---------------------------------------------------------------------

  /** `set_bit` is a width-one `set_range` of `1`. */
  lemma SetBitIsSetRange(f: BitField, bit: nat)
    requires bit < WIDTH
    ensures ValidRange(bit, bit + 1) && ValueFits(bit, bit + 1, One())
    ensures SetBit(f, bit) == SetRange(f, bit, bit + 1, One())
  {
    ValueFitsIff(bit, bit + 1, One());
    var g, h := SetBit(f, bit), SetRange(f, bit, bit + 1, One());
    assert forall i :: 0 <= i < WIDTH ==> g.bits[i] == h.bits[i];
  }

  /** `reset_bit` is a width-one `set_range` of `0`. */
  lemma ResetBitIsSetRange(f: BitField, bit: nat)
    requires bit < WIDTH
    ensures ValidRange(bit, bit + 1) && ValueFits(bit, bit + 1, Zero())
    ensures ResetBit(f, bit) == SetRange(f, bit, bit + 1, Zero())
  {
    ValueFitsIff(bit, bit + 1, Zero());
    var g, h := ResetBit(f, bit), SetRange(f, bit, bit + 1, Zero());
    assert forall i :: 0 <= i < WIDTH ==> g.bits[i] == h.bits[i];
  }

  /** Setting a bit twice is setting it once. */
  lemma SetBitIdempotent(f: BitField, bit: nat)
    requires bit < WIDTH
    ensures SetBit(SetBit(f, bit), bit) == SetBit(f, bit)
  {
    var g, h := SetBit(SetBit(f, bit), bit), SetBit(f, bit);
    assert forall i :: 0 <= i < WIDTH ==> g.bits[i] == h.bits[i];
  }

  /** Clearing a bit twice is clearing it once. */
  lemma ResetBitIdempotent(f: BitField, bit: nat)
    requires bit < WIDTH
    ensures ResetBit(ResetBit(f, bit), bit) == ResetBit(f, bit)
  {
    var g, h := ResetBit(ResetBit(f, bit), bit), ResetBit(f, bit);
    assert forall i :: 0 <= i < WIDTH ==> g.bits[i] == h.bits[i];
  }

  /** Of two writes to the same bit, the last one decides it. */
  lemma SetThenResetBit(f: BitField, bit: nat)
    requires bit < WIDTH
    ensures ResetBit(SetBit(f, bit), bit) == ResetBit(f, bit)
    ensures SetBit(ResetBit(f, bit), bit) == SetBit(f, bit)
  {
    var g, h := ResetBit(SetBit(f, bit), bit), ResetBit(f, bit);
    assert forall i :: 0 <= i < WIDTH ==> g.bits[i] == h.bits[i];
    var g', h' := SetBit(ResetBit(f, bit), bit), SetBit(f, bit);
    assert forall i :: 0 <= i < WIDTH ==> g'.bits[i] == h'.bits[i];
  }

  /** Of two writes to the same range, the last one decides it; in
      particular writing the same value twice is writing it once. */
  lemma SetRangeLastWins(f: BitField, start: nat, end: nat, value: Word, value': Word)
    requires ValidRange(start, end)
    requires ValueFits(start, end, value)
    requires ValueFits(start, end, value')
    ensures SetRange(SetRange(f, start, end, value), start, end, value') == SetRange(f, start, end, value')
  {
    var g, h := SetRange(SetRange(f, start, end, value), start, end, value'), SetRange(f, start, end, value');
    assert forall i :: 0 <= i < WIDTH ==> g.bits[i] == h.bits[i];
  }

  lemma SetRangeIdempotent(f: BitField, start: nat, end: nat, value: Word)
    requires ValidRange(start, end)
    requires ValueFits(start, end, value)
    ensures SetRange(SetRange(f, start, end, value), start, end, value) == SetRange(f, start, end, value)
  {
    SetRangeLastWins(f, start, end, value, value);
  }

  /** Writing back what a range reads changes nothing. */
  lemma WriteBackRead(f: BitField, start: nat, end: nat)
    requires ValidRange(start, end)
    ensures ValueFits(start, end, GetRange(f, start, end))
    ensures SetRange(f, start, end, GetRange(f, start, end)) == f
  {
    GetRangeFits(f, start, end);
    var g := SetRange(f, start, end, GetRange(f, start, end));
    assert forall i :: 0 <= i < WIDTH ==> g.bits[i] == f.bits[i];
  }

  /** Writes to disjoint ranges commute. */
  lemma DisjointWritesCommute(f: BitField, start: nat, end: nat, value: Word,
                              start': nat, end': nat, value': Word)
    requires ValidRange(start, end)
    requires ValueFits(start, end, value)
    requires ValidRange(start', end')
    requires ValueFits(start', end', value')
    requires end <= start' || end' <= start
    ensures SetRange(SetRange(f, start, end, value), start', end', value')
         == SetRange(SetRange(f, start', end', value'), start, end, value)
  {
    var g := SetRange(SetRange(f, start, end, value), start', end', value');
    var h := SetRange(SetRange(f, start', end', value'), start, end, value);
    assert forall i :: 0 <= i < WIDTH ==> g.bits[i] == h.bits[i];
  }

  // ---------------------------------------------------------------------
  // Writing, in numbers
  // ---------------------------------------------------------------------

  /** `set_range` replaces the `2^start`-weighted field: the new number plus
      the old field's weight equals the old number plus the new field's
      weight. */
  lemma SetRangeValue(f: BitField, start: nat, end: nat, value: Word)
    requires ValidRange(start, end)
    requires ValueFits(start, end, value)
    ensures Val(SetRange(f, start, end, value).bits) + Pow2(start) * Val(GetRange(f, start, end))
         == Val(f.bits) + Pow2(start) * Val(value)
  {
    var x, y := f.bits, SetRange(f, start, end, value).bits;
    SetRangeParts(f, start, end, value);
    RangeDigits(f, start, end);
    SplitThree(x, start, end);
    ReplaceDigits(x[..start], x[start..end], y[start..end], x[end..]);
  }

  /** `set_range` keeps the bits below and above the range and puts the
      digits of `value` in between. */
  lemma SetRangeParts(f: BitField, start: nat, end: nat, value: Word)
    requires ValidRange(start, end)
    requires ValueFits(start, end, value)
    ensures var y := SetRange(f, start, end, value).bits;
      y == f.bits[..start] + (y[start..end] + f.bits[end..]) && Val(y[start..end]) == Val(value)
  {
    var x, y := f.bits, SetRange(f, start, end, value).bits;
    assert y == x[..start] + (y[start..end] + x[end..]);
    assert y[start..end] == value[..end - start];
    ValueFitsIff(start, end, value);
    FitsLowDigits(value, end - start);
  }

  /** The final `|` of `set_range` adds: the masked field and the shifted
      value have no set bit in common, so the new number is their sum. */
  lemma SetRangeSum(f: BitField, start: nat, end: nat, value: Word)
    requires ValidRange(start, end)
    requires ValueFits(start, end, value)
    ensures Val(SetRange(f, start, end, value).bits)
         == Val(And(f.bits, RangeMask(start, end))) + Val(Shl(value, start))
  {
    ValueFitsIff(start, end, value);
    var kept, shifted := And(f.bits, RangeMask(start, end)), Shl(value, start);
    var y := SetRange(f, start, end, value).bits;
    assert forall i :: 0 <= i < WIDTH ==> !(kept[i] && shifted[i]);
    assert forall i :: 0 <= i < WIDTH ==> y[i] == (kept[i] || shifted[i]);
    DisjointOrValue(kept, shifted, y);
  }

  /** A width-one range reads `1` when its bit is set and `0` otherwise. */
  lemma SingleBitRead(f: BitField, bit: nat)
    requires bit < WIDTH
    ensures Val(GetRange(f, bit, bit + 1)) == if f.bits[bit] then 1 else 0
  {
    var r := GetRange(f, bit, bit + 1);
    if f.bits[bit] {
      OneIff(r);
      OneValue();
    } else {
      ValZeroIff(r);
    }
  }

  /** `set_bit` adds `2^bit` to the field, unless that bit was already set. */
  lemma SetBitValue(f: BitField, bit: nat)
    requires bit < WIDTH
    ensures Val(SetBit(f, bit).bits) == if f.bits[bit] then Val(f.bits) else Val(f.bits) + Pow2(bit)
  {
    var g := SetBit(f, bit);
    SetBitIsSetRange(f, bit);
    SetRangeValue(f, bit, bit + 1, One());
    OneValue();
    SingleBitRead(f, bit);
    var p, old_ := Pow2(bit), Val(GetRange(f, bit, bit + 1));
    var h := SetRange(f, bit, bit + 1, One());
    assert Val(h.bits) + p * old_ == Val(f.bits) + p * Val(One());
    assert g == h;
    assert Val(g.bits) + p * old_ == Val(f.bits) + p * 1;
    if f.bits[bit] {
      assert old_ == 1;
    } else {
      assert old_ == 0;
      MulZero(p);
    }
  }

  /** `reset_bit` subtracts `2^bit` from the field, unless that bit was
      already clear. */
  lemma ResetBitValue(f: BitField, bit: nat)
    requires bit < WIDTH
    ensures Val(ResetBit(f, bit).bits) == if f.bits[bit] then Val(f.bits) - Pow2(bit) else Val(f.bits)
  {
    var g := ResetBit(f, bit);
    ResetBitIsSetRange(f, bit);
    SetRangeValue(f, bit, bit + 1, Zero());
    ZeroValue();
    SingleBitRead(f, bit);
    var p, old_ := Pow2(bit), Val(GetRange(f, bit, bit + 1));
    var h := SetRange(f, bit, bit + 1, Zero());
    assert Val(h.bits) + p * old_ == Val(f.bits) + p * Val(Zero());
    assert g == h;
    assert Val(g.bits) + p * old_ == Val(f.bits) + p * 0;
    MulZero(p);
    if f.bits[bit] {
      assert old_ == 1;
    } else {
      assert old_ == 0;
    }
  }
}
