/**
  The unit tests of src/lib.rs, as facts about the model.

  Every test starts from the field `0b1111111111010110` (`0xffd6`). The
  Rust literals become words through `FromNat`, and a comparison of a `u32`
  result with a literal becomes a comparison of `Val` of the result with
  that number. The tests are stated for every field whose value is
  `INITIAL`; `InitialField` shows that this is exactly one field.
 */
module BitFieldTests {
  import opened Words
  import opened Values
  import opened BitFields
  import opened BitFieldLaws

  /** The `u32` every test starts from, `0b1111111111010110`. */
  const INITIAL: nat := 0xffd6

  /** `BitField(0b1111111111010110)` exists and is the only field whose
      value is `INITIAL`. */
  lemma InitialField()
    ensures INITIAL < Pow2(WIDTH) && Val(FromNat(INITIAL)) == INITIAL
    ensures forall f: BitField :: Val(f.bits) == INITIAL ==> f == BitField(FromNat(INITIAL))
  {
    WordModulus();
    FromNatVal(INITIAL);
    forall f: BitField | Val(f.bits) == INITIAL
      ensures f == BitField(FromNat(INITIAL))
    {
      ValInjective(f.bits, FromNat(INITIAL));
    }
  }

  /** The powers of two the tests need. */
  lemma Powers()
    ensures Pow2(5) == 0x20 && Pow2(6) == 0x40 && Pow2(7) == 0x80 && Pow2(10) == 0x400
    ensures Pow2(14) == 0x4000 && Pow2(15) == 0x8000 && Pow2(16) == 0x1_0000 && Pow2(18) == 0x4_0000
  {
    assert Pow2(5) == 0x20;
    assert Pow2(8) == 0x100;
    Pow2Add(5, 5);
    Pow2Add(8, 6);
    Pow2Add(8, 7);
    Pow2Add(8, 8);
    Pow2Add(16, 2);
  }

  // ---------------------------------------------------------------------
  // test_read
  // ---------------------------------------------------------------------

  /** The ranges of `INITIAL` that `test_read` reads, as numbers. */
  lemma InitialRanges()
    ensures (INITIAL / Pow2(16)) % Pow2(32 - 16) == 0
    ensures (INITIAL / Pow2(6)) % Pow2(16 - 6) == 0x3ff
    ensures (INITIAL / Pow2(0)) % Pow2(6 - 0) == 0x16
    ensures (INITIAL / Pow2(0)) % Pow2(10 - 0) == 0x3d6
    ensures (INITIAL / Pow2(5)) % Pow2(12 - 5) == 0x7e
  {
    Powers();
  }

  /** `test_read`, the ranges: the `u32` values `get_range` returns. */
  lemma ReadRanges(f: BitField)
    requires Val(f.bits) == INITIAL
    ensures Val(GetRange(f, 16, 32)) == 0
    ensures Val(GetRange(f, 6, 16)) == 0x3ff   // 0b1111111111
    ensures Val(GetRange(f, 0, 6)) == 0x16     // 0b010110
    ensures Val(GetRange(f, 0, 10)) == 0x3d6   // 0b1111010110
    ensures Val(GetRange(f, 5, 12)) == 0x7e    // 0b1111110
  {
    InitialRanges();
    ReadRange(f, 16, 32, 0);
    ReadRange(f, 6, 16, 0x3ff);
    ReadRange(f, 0, 6, 0x16);
    ReadRange(f, 0, 10, 0x3d6);
    ReadRange(f, 5, 12, 0x7e);
  }

  /** `get_range(start..end)` of the initial field returns `expected` when
      that is the number the range's digits of `INITIAL` spell. */
  lemma ReadRange(f: BitField, start: nat, end: nat, expected: nat)
    requires ValidRange(start, end) && Val(f.bits) == INITIAL
    requires (INITIAL / Pow2(start)) % Pow2(end - start) == expected
    ensures Val(GetRange(f, start, end)) == expected
  {
    GetRangeValue(f, start, end);
  }

  /** The six low binary digits of `INITIAL`: `010110`. */
  lemma InitialLowDigits()
    ensures (INITIAL / Pow2(0)) % 2 == 0 && (INITIAL / Pow2(1)) % 2 == 1
    ensures (INITIAL / Pow2(2)) % 2 == 1 && (INITIAL / Pow2(3)) % 2 == 0
    ensures (INITIAL / Pow2(4)) % 2 == 1 && (INITIAL / Pow2(5)) % 2 == 0
  {
    Powers();
  }

  /** `test_read`, the first six bits, one at a time. */
  lemma ReadLowBits(f: BitField)
    requires Val(f.bits) == INITIAL
    ensures !GetBit(f, 0) && GetBit(f, 1) && GetBit(f, 2)
    ensures !GetBit(f, 3) && GetBit(f, 4) && !GetBit(f, 5)
  {
    InitialLowDigits();
    GetBitValue(f, 0);
    GetBitValue(f, 1);
    GetBitValue(f, 2);
    GetBitValue(f, 3);
    GetBitValue(f, 4);
    GetBitValue(f, 5);
  }

  /** A word that denotes `2^k - 1` has its `k` low bits set. */
  lemma {:induction false} OnesBelow(s: seq<bool>, k: nat)
    requires k <= |s| && Val(s) == Pow2(k) - 1
    ensures forall j :: 0 <= j < k ==> s[j]
    decreases k
  {
    if k > 0 {
      assert Val(s[1..]) == Pow2(k - 1) - 1;
      OnesBelow(s[1..], k - 1);
      assert forall j :: 1 <= j < k ==> s[j] == s[1..][j - 1];
    }
  }

  /** `test_read`, the two loops: bits 6 to 15 read true and bits 16 to 31
      read false. */
  lemma ReadHighBits(f: BitField)
    requires Val(f.bits) == INITIAL
    ensures forall i :: 6 <= i < 16 ==> GetBit(f, i)
    ensures forall i :: 16 <= i < 32 ==> !GetBit(f, i)
  {
    ReadRanges(f);
    Powers();
    var ones, zeros := GetRange(f, 6, 16), GetRange(f, 16, 32);
    OnesBelow(ones, 10);
    ValZeroIff(zeros);
    assert forall i :: 6 <= i < 16 ==> f.bits[i] == ones[i - 6];
    assert forall i :: 16 <= i < 32 ==> f.bits[i] == zeros[i - 16];
  }

  // ---------------------------------------------------------------------
  // test_set_reset
  // ---------------------------------------------------------------------

  /** `test_set_reset`: every bit in turn is set, cleared and set again, and
      reads back each time as written. At the end every bit is set. */
  method SetResetEveryBit(initial: BitField) returns (field: BitField)
    requires Val(initial.bits) == INITIAL
    ensures field.bits == AllOnes()
  {
    field := initial;
    var i := 0;
    while i < WIDTH
      invariant i <= WIDTH
      invariant forall j :: 0 <= j < i ==> field.bits[j]
    {
      field := SetBit(field, i);
      assert GetBit(field, i);
      field := ResetBit(field, i);
      assert !GetBit(field, i);
      field := SetBit(field, i);
      assert GetBit(field, i);
      i := i + 1;
    }
  }

  // ---------------------------------------------------------------------
  // test_set_range
  // ---------------------------------------------------------------------

  /** The literal `n` is a value `set_range` accepts for `[start, end)`. */
  lemma LiteralFits(start: nat, end: nat, n: nat)
    requires ValidRange(start, end)
    requires n < Pow2(end - start) && n < Pow2(WIDTH)
    ensures ValueFits(start, end, FromNat(n))
    ensures Val(FromNat(n)) == n
  {
    FromNatVal(n);
    ValueFitsValue(start, end, FromNat(n));
  }

  /** Writes the literal `n` into `[start, end)` and reads the range back,
      as each step of `test_set_range` does. */
  method WriteAndRead(field: BitField, start: nat, end: nat, n: nat) returns (field': BitField, read: nat)
    requires ValidRange(start, end)
    requires n < Pow2(end - start) && n < Pow2(WIDTH)
    ensures ValueFits(start, end, FromNat(n))
    ensures field' == SetRange(field, start, end, FromNat(n))
    ensures read == n
  {
    LiteralFits(start, end, n);
    field' := SetRange(field, start, end, FromNat(n));
    read := Val(GetRange(field', start, end));
    RoundTrip(field, start, end, FromNat(n));
  }

  /** `0xdead` (bits 14 and 15 set) and `0xbeaf` (bits 0 and 1 set) agree
      where `[0, 16)` and `[14, 32)` overlap. */
  lemma DeadBeafAgree(dead: Word, beaf: Word)
    requires Val(dead) == 0xdead && Val(beaf) == 0xbeaf
    ensures AgreeOnOverlap(0, 16, dead, 14, 32, beaf)
  {
    Powers();
    WordBit(dead, 14);
    WordBit(dead, 15);
    WordBit(beaf, 0);
    WordBit(beaf, 1);
    assert dead[14] && dead[15] && beaf[0] && beaf[1];
  }

  /** `test_set_range`: four writes to bits 10 to 14 each read back, then
      `0xdead` into bits 0 to 15 and `0xbeaf` into bits 14 to 31 both read
      back, because the two values agree on bits 14 and 15. */
  method SetRangeTest(initial: BitField) returns (field: BitField)
    requires Val(initial.bits) == INITIAL
    ensures Val(GetRange(field, 0, 16)) == 0xdead
    ensures Val(GetRange(field, 14, 32)) == 0xbeaf
  {
    WordModulus();
    Powers();
    var literals := [0x00, 0x15, 0x0a, 0x1f];  // 0b00000, 0b10101, 0b01010, 0b11111
    field := initial;
    for k := 0 to |literals|
    {
      var read;
      field, read := WriteAndRead(field, 10, 15, literals[k]);
      assert read == literals[k];
    }

    var before, d, b := field, 0xdead, 0xbeaf;
    LiteralFits(0, 16, d);
    LiteralFits(14, 32, b);
    var dead, beaf := FromNat(d), FromNat(b);
    field := SetRange(SetRange(before, 0, 16, dead), 14, 32, beaf);
    DeadBeafAgree(dead, beaf);
    OverlappingWrites(before, 0, 16, dead, 14, 32, beaf);
    RoundTrip(SetRange(before, 0, 16, dead), 14, 32, beaf);
  }
}
