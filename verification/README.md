# bit_field: a model of `BitField(u32)`

This project models the `BitField` type of the `bit_field` crate (src/lib.rs)
in Dafny, and proves what its shift-and-mask code achieves. `BitField` wraps one
`u32`. It can read one bit (`get_bit`) or a half-open range of bits `start..end`
(`get_range`). It can set or clear one bit (`set_bit`, `reset_bit`), or
overwrite a range with a value (`set_range`). Bit 0 is the least significant
bit.

How the Rust is represented:

- A `u32` is a `Word`, a sequence of 32 booleans with bit 0 first (`words.dfy`).
  - The Rust operators `<<`, `>>`, `!`, `&` and `|` are defined bit by bit.
  - A shift by 32 or more panics in Rust debug builds, so `Shl` and `Shr`
    require a shift below 32.
- `Val` reads a word as the number it denotes, and `FromNat` turns a `u32`
  literal into a word (`values.dfy`).
  - Lemmas give `>>`, `<<` and `!` their arithmetic meaning: `>>` divides by
    a power of two, `<<` multiplies modulo 2^32, and `!x` is 2^32 - 1 - x.
    The `|` of two words with no common set bit is their sum.
  - This is how the unit tests' numeric literals and the `get_range` results
    they are compared against enter the model.
- The five methods are functions of the same names (`bitfield.dfy`).
  - They perform the same shifts in the same order.
  - The `&mut self` methods return the new field.
  - Every `assert!` that would panic is a `requires`.
  - Each contract says, bit by bit, what the result holds.
- The laws (`laws.dfy`) relate the operations to each other and to arithmetic:
  - `get_range` is `(x >> start) mod 2^(end-start)`;
  - the "value too big" check accepts exactly the values below
    2^(end-start);
  - a range reads back what was written to it;
  - writes leave other ranges alone;
  - overlapping writes;
  - idempotence;
  - `set_bit` and `reset_bit` are one-bit `set_range`s;
  - the value a write produces, as a number.
- The three unit tests are facts about the model (`tests.dfy`).
  - Each test is stated for any field whose value is `0b1111111111010110`.
  - `test_set_reset` and `test_set_range` are methods that follow the tests'
    sequence of calls.
- `arith.dfy` holds the integer lemmas (division, remainders, products) that
  the value proofs rely on.

`BitField` in src/lib.rs has `set_bit`, which sets the bit, and `reset_bit`,
which clears it. The generic trait exercised in src/tests.rs has
`set_bit(i, bool)` and `set_bits` instead. The model follows src/lib.rs.

## Model

| member | source | states |
|---|---|---|
| BitFields.ValidRange | src/lib.rs:13-15 | The three range asserts of `get_range`, repeated at src/lib.rs:34-36 in `set_range`: `start < 32`, `end <= 32` and `start < end`; each operation requires it where Rust would panic |
| BitFields.ValueFits | src/lib.rs:37 | The "value too big" assert of `set_range`: `value << (32 - (end - start)) >> (32 - (end - start)) == value`, built from the same two shifts |
| Words.Shl | src/lib.rs:18 | Rust's `<<` on `u32`: bit `i` of the result is bit `i - k` of `x` for `i >= k`, and the `k` low bits are clear; bits shifted past bit 31 are lost; requires `k < 32`, where Rust's shift would overflow |
| Words.Shr | src/lib.rs:20 | Rust's logical `>>` on `u32`: bit `i` of the result is bit `i + k` of `x`, and the `k` high bits are clear; requires `k < 32` |
| Words.Not | src/lib.rs:30 | Rust's `!` on `u32`: every bit flipped |
| Words.And | src/lib.rs:30 | Rust's `&` on `u32`, used by `reset_bit` and at src/lib.rs:41 by `set_range`: a bit is set exactly when it is set in both words |
| Words.Or | src/lib.rs:25 | Rust's bitwise OR on `u32`, used by `set_bit` and at src/lib.rs:43 by `set_range`: a bit is set exactly when it is set in either word |
| BitFields.GetRange | src/lib.rs:12-21 | Bit `i` of the result is bit `start + i` of the field for `i < end - start`, and every higher bit of the result is clear; requires the three range checks |
| BitFields.GetBit | src/lib.rs:7-10 | `get_bit` (comparing the one-bit range with `1`) is true exactly when bit `bit` of the field is set; requires `bit < 32` |
| BitFields.OneIff | src/lib.rs:9 | A word with no bit set above bit 0 equals `1` exactly when bit 0 is set, which is why the comparison in `get_bit` is correct |
| BitFields.SetBit | src/lib.rs:23-26 | Afterwards bit `bit` is set and every other bit is as before |
| BitFields.ResetBit | src/lib.rs:28-31 | Afterwards bit `bit` is clear and every other bit is as before |
| BitFields.RangeMask | src/lib.rs:39 | The `bitmask` of `set_range` has every bit outside `start..end` set and every bit inside it clear |
| BitFields.SetRange | src/lib.rs:33-44 | Bit `start + i` of the result is bit `i` of `value` inside the range, and every bit outside the range is unchanged; requires the range checks and the "value too big" check |
| BitFields.ValueFitsIff | src/lib.rs:37 | The "value too big" shift check passes exactly when `value` has no bit set at position `end - start` or above |
| BitFieldLaws.ValueFitsValue | src/lib.rs:37 | The "value too big" check passes exactly when `value < 2^(end - start)` |
| BitFieldLaws.FitsInValue | src/lib.rs:37 | A word has no bit set from position `w` upwards exactly when its value is below `2^w` |
| BitFieldLaws.GetBitValue | src/lib.rs:7-10 | `get_bit(b)` is true exactly when `(x / 2^b) mod 2 == 1` |
| BitFieldLaws.SingleBitRead | src/lib.rs:9 | The one-bit range read by `get_bit` is the number 1 or 0, according to the bit |
| BitFieldLaws.GetRangeValue | src/lib.rs:17-20 | `get_range(start..end) == (x / 2^start) mod 2^(end - start)` for every field `x` |
| BitFieldLaws.GetRangeShr | src/lib.rs:17-20 | `get_range(start..end) == (x >> start) mod 2^(end - start)` |
| BitFieldLaws.RangeDigits | src/lib.rs:12-21 | The value `get_range` returns is the number the field's bits `start..end` spell |
| BitFieldLaws.GetRangeSlices | src/lib.rs:12-21 | The result of `get_range` is the bits `start..end` of the field followed by clear bits |
| BitFieldLaws.GetRangeFits | src/lib.rs:18-37 | Whatever `get_range` returns passes the "value too big" check of `set_range` on the same range |
| BitFieldLaws.RoundTrip | src/lib.rs:39-43 | After `set_range(start..end, value)`, `get_range(start..end)` returns `value` |
| BitFieldLaws.DisjointRead | src/lib.rs:39-43 | `set_range` on one range does not change what `get_range` reads from a range that does not overlap it |
| BitFieldLaws.OverlappingWrites | src/lib.rs:102-105 | After writing `value` to one range and `value'` to a second, the first range reads back `value` exactly when the two values agree on every bit where the ranges overlap |
| BitFieldLaws.OverlapAgreeing | src/lib.rs:102-105 | The "if" half: when the values agree on the overlap, the first range still reads back `value` after the second write |
| BitFieldLaws.GetAfterSetBit | src/lib.rs:23-26 | After `set_bit(b)`, `get_bit(b)` is true and `get_bit` of every other bit is unchanged |
| BitFieldLaws.GetAfterResetBit | src/lib.rs:28-31 | After `reset_bit(b)`, `get_bit(b)` is false and `get_bit` of every other bit is unchanged |
| BitFieldLaws.SetBitIsSetRange | src/lib.rs:25 | `set_bit(b)` has the same effect as `set_range(b..b+1, 1)`, and that call passes the checks |
| BitFieldLaws.ResetBitIsSetRange | src/lib.rs:30 | `reset_bit(b)` has the same effect as `set_range(b..b+1, 0)`, and that call passes the checks |
| BitFieldLaws.SetBitIdempotent | src/lib.rs:25 | Setting a bit twice has the same effect as setting it once |
| BitFieldLaws.ResetBitIdempotent | src/lib.rs:30 | Clearing a bit twice has the same effect as clearing it once |
| BitFieldLaws.SetThenResetBit | src/lib.rs:77-84 | `reset_bit` after `set_bit` of the same bit equals `reset_bit` alone, and `set_bit` after `reset_bit` equals `set_bit` alone |
| BitFieldLaws.SetRangeLastWins | src/lib.rs:93-99 | Two writes to the same range leave the field as the second write alone would |
| BitFieldLaws.SetRangeIdempotent | src/lib.rs:41-43 | Writing the same value to the same range twice has the same effect as writing it once |
| BitFieldLaws.WriteBackRead | src/lib.rs:33-44 | Writing back what `get_range` read from the same range passes the checks and leaves the field unchanged |
| BitFieldLaws.DisjointWritesCommute | src/lib.rs:39-43 | Writes to two non-overlapping ranges give the same field in either order |
| BitFieldLaws.SetRangeParts | src/lib.rs:41-43 | After `set_range`, the bits below and above the range are the old ones, and the bits of the range spell `value` |
| BitFieldLaws.SetRangeSum | src/lib.rs:41-43 | The result of `set_range` is, as a number, the masked field `self.0 & bitmask` plus `value << start`: the two operands of the final OR have no set bit in common |
| BitFieldLaws.SetRangeValue | src/lib.rs:39-43 | As numbers, `new + 2^start * old_range == old + 2^start * value`: the write swaps the range's old value for the new one at weight `2^start` |
| BitFieldLaws.SetBitValue | src/lib.rs:25 | `set_bit(b)` leaves the value unchanged if bit `b` was set, and otherwise adds `2^b` |
| BitFieldLaws.ResetBitValue | src/lib.rs:30 | `reset_bit(b)` subtracts `2^b` if bit `b` was set, and otherwise leaves the value unchanged |
| Values.ShrValue | src/lib.rs:20 | `x >> k` on a `u32` is `x / 2^k` for every shift below 32 |
| Values.ShlValue | src/lib.rs:18 | `x << k` on a `u32` is `(x * 2^k) mod 2^32` for every shift below 32; the high bits are lost |
| Values.NotValue | src/lib.rs:30 | `!x` on a `u32` is `2^32 - 1 - x` |
| Values.AllOnesWordValue | src/lib.rs:39 | The `!0` of the mask is `2^32 - 1` |
| Values.OneValue | src/lib.rs:25 | The word the literal `1` denotes has the value 1 |
| Values.ZeroValue | src/lib.rs:93 | The word the literal `0` denotes has the value 0 |
| Values.DisjointOrValue | src/lib.rs:43 | Or-ing two words with no set bit in common adds their values; `SetRangeSum` applies it to the final write of `set_range` |
| Values.WordModulus | src/lib.rs:4 | A `u32` holds values below `2^32 = 0x1_0000_0000` |
| Values.WordBound | src/lib.rs:4 | Every word's value is below `2^32` |
| Values.FromNatVal | src/lib.rs:4 | Every number below `2^32` is the value of the word `FromNat` builds for it |
| Values.ValFromNat | src/lib.rs:4 | Every word is the word of its own value, so words and `u32` values correspond one to one |
| Values.WordBit | src/lib.rs:7-10 | Bit `i` of a word is set exactly when `(value / 2^i) mod 2 == 1`, the numbering `get_bit` uses |
| BitFieldTests.InitialField | src/lib.rs:53 | `BitField(0b1111111111010110)` exists and is the only field with that value |
| BitFieldTests.ReadRanges | src/lib.rs:67-71 | The five `get_range` reads of `test_read` return `0`, `0b1111111111`, `0b010110`, `0b1111010110` and `0b1111110` |
| BitFieldTests.ReadRange | src/lib.rs:67-71 | A `get_range` of the test field returns the number its digits spell in the test value |
| BitFieldTests.ReadLowBits | src/lib.rs:54-59 | `get_bit` of bits 0 to 5 of the test field reads false, true, true, false, true, false |
| BitFieldTests.ReadHighBits | src/lib.rs:60-65 | `get_bit` reads true for bits 6 to 15 and false for bits 16 to 31 of the test field |
| BitFieldTests.SetResetEveryBit | src/lib.rs:75-88 | Setting, clearing and setting each of the 32 bits reads back true, false and true each time (loop assertions), and leaves every bit set |
| BitFieldTests.LiteralFits | src/lib.rs:93-99 | A literal below `2^(end - start)` passes the "value too big" check |
| BitFieldTests.WriteAndRead | src/lib.rs:93-100 | Each `set_range(10..15, literal)` of `test_set_range` passes the checks, and the following `get_range(10..15)` returns the literal |
| BitFieldTests.DeadBeafAgree | src/lib.rs:102-103 | `0xdead` and `0xbeaf` agree on bits 14 and 15, where the ranges `0..16` and `14..32` overlap |
| BitFieldTests.SetRangeTest | src/lib.rs:91-106 | After the calls of `test_set_range`, `get_range(0..16)` is `0xdead` and `get_range(14..32)` is `0xbeaf` |

## Left out

- The generic trait exercised in src/tests.rs is not part of this model,
  and neither are its other integer widths. Only its `u32` assertions agree
  with the unit tests modelled here.
- The signed widths whose bit lengths src/tests.rs checks (lines 10-13) are
  not modelled, because `BitField` in src/lib.rs only wraps a `u32`.
- The panic messages are left out, including "value too big". A panic is
  modelled as a precondition, so the model only describes calls that do not
  panic.
- `&mut self` updates are modelled as functions that return the new field.
  Aliasing and in-place mutation have no counterpart.
- `Range<u32>` is modelled as two natural numbers `start` and `end`.
- Whether a too-large shift panics (debug build) or is masked (release
  build) is not modelled. Once the range checks pass, every shift amount in
  src/lib.rs is below 32, so neither case arises.
- The closure `bit_i` of `test_set_reset` is inlined in the loop body.
