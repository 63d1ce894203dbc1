/**
  Rust's `u32`, seen as its 32 bits.

  A `Word` lists the bits of a word from the least significant (index 0) to
  the most significant (index 31). The machine operators that the bit-field
  type uses -- `<<`, `>>`, `!`, `&`, `|` -- are defined here bit by bit, with
  the meaning Rust gives them on `u32`: a shift moves every bit by the
  shift amount, the bits that leave the word are lost and the vacated bits are
  zero. In debug builds Rust panics on a shift amount of 32 or more, so the
  shifts require one below the width.

  Module `Values` relates each word, and the operators `<<`, `>>` and `!`, to
  the unsigned integer the word denotes.
 */
module Words {

  /** The number of bits in a `u32`. */
  const WIDTH: nat := 32

  /** A `u32`, bit 0 (the least significant) first. */
  type Word = s: seq<bool> | |s| == WIDTH witness seq(WIDTH, _ => false)

  /** Rust's `0`: no bit set. */
  function Zero(): Word {
    seq(WIDTH, _ => false)
  }

  /** Rust's `1`: only bit 0 set. */
  function One(): Word {
    seq(WIDTH, i => i == 0)
  }

  /** Rust's `!0`: every bit set. */
  function AllOnes(): Word {
    seq(WIDTH, _ => true)
  }

  /** `x << k` on `u32`. */
  function Shl(x: Word, k: nat): Word
    requires k < WIDTH
  {
    seq(WIDTH, i requires 0 <= i < WIDTH => k <= i && x[i - k])
  }

  /** `x >> k` on `u32` (a logical shift: the vacated high bits are zero). */
  function Shr(x: Word, k: nat): Word
    requires k < WIDTH
  {
    seq(WIDTH, i requires 0 <= i < WIDTH => i + k < WIDTH && x[i + k])
  }

  /** `!x` on `u32`: every bit flipped. */
  function Not(x: Word): Word {
    seq(WIDTH, i requires 0 <= i < WIDTH => !x[i])
  }

  /** `x & y` on `u32`. */
  function And(x: Word, y: Word): Word {
    seq(WIDTH, i requires 0 <= i < WIDTH => x[i] && y[i])
  }

  /** `x | y` on `u32`. */
  function Or(x: Word, y: Word): Word {
    seq(WIDTH, i requires 0 <= i < WIDTH => x[i] || y[i])
  }

  /** `x` has no bit set at position `w` or above: it fits in `w` bits. */
  predicate FitsIn(x: Word, w: nat) {
    forall i :: w <= i < WIDTH ==> !x[i]
  }
}
