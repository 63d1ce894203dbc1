/**
  The `BitField` type of src/lib.rs: a `u32` whose bits are read and written
  one at a time or as a half-open range `[start, end)`, bit 0 being the least
  significant.

  Each function is the Rust method of the same name, computed with the same
  shifts and masks. The methods that take `&mut self` return the new field
  instead. A Rust `assert!` that would panic is a `requires` here. Each
  contract states what the shifts and masks achieve, bit by bit.
 */
module BitFields {
  import opened Words

  /** `pub struct BitField(u32)`. */
  datatype BitField = BitField(bits: Word)

  /** The three checks `get_range` and `set_range` make of a range before
      touching the field. */
  predicate ValidRange(start: nat, end: nat) {
    start < WIDTH && end <= WIDTH && start < end
  }

  /** The "value too big" check of `set_range`: shifting `value` up by
      `32 - (end - start)` bits and back down loses nothing. */
  predicate ValueFits(start: nat, end: nat, value: Word)
    requires ValidRange(start, end)
  {
    var w := WIDTH - (end - start);
    Shr(Shl(value, w), w) == value
  }

  /** The check means that `value` has no bit set at position
      `end - start` or above. */
  lemma ValueFitsIff(start: nat, end: nat, value: Word)
    requires ValidRange(start, end)
    ensures ValueFits(start, end, value) <==> FitsIn(value, end - start)
  {
    var w := WIDTH - (end - start);
    if ValueFits(start, end, value) {
      forall i | end - start <= i < WIDTH
        ensures !value[i]
      {
        assert value[i] == Shr(Shl(value, w), w)[i];
      }
    }
  }

  /** `get_range`: bit `i` of the result is bit `start + i` of the field for
      every `i` below the width `end - start`, and every bit from the width
      upwards is clear. */
  function GetRange(f: BitField, start: nat, end: nat): (r: Word)
    requires ValidRange(start, end)
    ensures forall i :: 0 <= i < WIDTH ==> r[i] == (i < end - start && f.bits[start + i])
  {
    // shift away the bits above the range, then the bits below it
    var bits := Shr(Shl(f.bits, WIDTH - end), WIDTH - end);
    Shr(bits, start)
  }

  /** A word whose only possible set bit is bit 0 is the literal `1` exactly
      when that bit is set. */
  lemma OneIff(r: Word)
    requires forall i :: 0 < i < WIDTH ==> !r[i]
    ensures r == One() <==> r[0]
  {
    if r[0] {
      assert forall i :: 0 <= i < WIDTH ==> r[i] == One()[i];
    }
  }

  /** `get_bit`: whether bit `bit` of the field is set. */
  function GetBit(f: BitField, bit: nat): (b: bool)
    requires bit < WIDTH
    ensures b == f.bits[bit]
  {
    OneIff(GetRange(f, bit, bit + 1));
    GetRange(f, bit, bit + 1) == One()
  }

  /** `set_bit`: bit `bit` is set afterwards and no other bit changes. */
  function SetBit(f: BitField, bit: nat): (g: BitField)
    requires bit < WIDTH
    ensures forall i :: 0 <= i < WIDTH ==> g.bits[i] == (i == bit || f.bits[i])
  {
    BitField(Or(f.bits, Shl(One(), bit)))
  }

  /** `reset_bit`: bit `bit` is clear afterwards and no other bit changes. */
  function ResetBit(f: BitField, bit: nat): (g: BitField)
    requires bit < WIDTH
    ensures forall i :: 0 <= i < WIDTH ==> g.bits[i] == (i != bit && f.bits[i])
  {
    BitField(And(f.bits, Not(Shl(One(), bit))))
  }

  /** The mask of `set_range`: every bit outside `[start, end)` set, every
      bit inside it clear. */
  function RangeMask(start: nat, end: nat): (m: Word)
    requires ValidRange(start, end)
    ensures forall i :: 0 <= i < WIDTH ==> m[i] == !(start <= i < end)
  {
    Not(Shl(Shr(Shr(Shl(AllOnes(), WIDTH - end), WIDTH - end), start), start))
  }

  /** `set_range`: bit `start + i` holds bit `i` of `value` for every bit of
      the range, and every bit outside `[start, end)` is unchanged. */
  function SetRange(f: BitField, start: nat, end: nat, value: Word): (g: BitField)
    requires ValidRange(start, end)
    requires ValueFits(start, end, value)
    ensures forall i :: 0 <= i < WIDTH ==>
      g.bits[i] == if start <= i < end then value[i - start] else f.bits[i]
  {
    ValueFitsIff(start, end, value);
    // clear the range, then write the value into it
    var bits := And(f.bits, RangeMask(start, end));
    BitField(Or(bits, Shl(value, start)))
  }
}
