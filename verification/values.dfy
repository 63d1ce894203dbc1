/**
  The unsigned integer a word denotes.

  `Val(s)` reads `s` as binary digits, least significant first, so a `Word`
  denotes a number in `[0, 2^32)`; `FromNat` is the other direction, the word
  that a Rust `u32` literal writes down. The lemmas here give `>>`, `<<` and
  `!` of module `Words` their arithmetic meaning: `x >> k` is `x / 2^k`,
  `x << k` is `x * 2^k` wrapped modulo `2^32`, `!x` is `2^32 - 1 - x`. They
  also show that `|` of two words with no common set bit is their sum.
 */
module Values {
  import opened Arith
  import opened Words

  /** `2^n`. */
  function Pow2(n: nat): (r: nat)
    ensures r >= 1
  {
    if n == 0 then 1 else 2 * Pow2(n - 1)
  }

  /** The number whose binary digits, least significant first, are `s`. */
  function Val(s: seq<bool>): nat {
    if |s| == 0 then 0 else (if s[0] then 1 else 0) + 2 * Val(s[1..])
  }

  /** The `len` low binary digits of `n`, least significant first. */
  function Digits(n: nat, len: nat): (s: seq<bool>)
    ensures |s| == len
  {
    if len == 0 then [] else [n % 2 == 1] + Digits(n / 2, len - 1)
  }

  /** The word a `u32` literal `n` writes down: bit `i` is the binary digit
      of `n` of weight `2^i`. */
  function FromNat(n: nat): Word
    requires n < Pow2(WIDTH)
  {
    seq(WIDTH, i requires 0 <= i < WIDTH => (n / Pow2(i)) % 2 == 1)
  }

  // ---------------------------------------------------------------------
  // Powers of two
  // ---------------------------------------------------------------------

  lemma {:induction false} Pow2Add(a: nat, b: nat)
    ensures Pow2(a + b) == Pow2(a) * Pow2(b)
    decreases a
  {
    if a > 0 {
      Pow2Add(a - 1, b);
    }
  }

  // ---------------------------------------------------------------------
  // Digits and their value
  // ---------------------------------------------------------------------

  /** `s` denotes a number below `2^|s|`. */
  lemma {:induction false} ValBound(s: seq<bool>)
    ensures Val(s) < Pow2(|s|)
    decreases |s|
  {
    if |s| > 0 {
      ValBound(s[1..]);
    }
  }

  /** The digits of `a + b` are those of `a` followed by those of `b`
      shifted up by `|a|` places. */
  lemma {:induction false} ValConcat(a: seq<bool>, b: seq<bool>)
    ensures Val(a + b) == Val(a) + Pow2(|a|) * Val(b)
    decreases |a|
  {
    if |a| == 0 {
      assert a + b == b;
    } else {
      assert (a + b)[1..] == a[1..] + b;
      assert (a + b)[0] == a[0];
      ValConcat(a[1..], b);
      var p, v := Pow2(|a| - 1), Val(b);
      var d := if a[0] then 1 else 0;
      calc {
        Val(a + b);
        d + 2 * Val(a[1..] + b);
        d + 2 * (Val(a[1..]) + p * v);
        d + 2 * Val(a[1..]) + 2 * (p * v);
        { MulTwice(p, v); }
        Val(a) + (2 * p) * v;
      }
    }
  }

  /** Only the all-zero digit string denotes 0. */
  lemma {:induction false} ValZeroIff(s: seq<bool>)
    ensures Val(s) == 0 <==> forall i :: 0 <= i < |s| ==> !s[i]
    decreases |s|
  {
    if |s| > 0 {
      ValZeroIff(s[1..]);
      assert forall i :: 1 <= i < |s| ==> s[i] == s[1..][i - 1];
    }
  }

  /** Dropping the `k` low digits divides by `2^k`; keeping only them takes
      the remainder modulo `2^k`. */
  lemma SplitAt(s: seq<bool>, k: nat)
    requires k <= |s|
    ensures Val(s[k..]) == Val(s) / Pow2(k)
    ensures Val(s[..k]) == Val(s) % Pow2(k)
  {
    var lo, hi := s[..k], s[k..];
    assert s == lo + hi;
    ValConcat(lo, hi);
    ValBound(lo);
    assert |lo| == k;
    DivModUnique(Val(s), Pow2(k), Val(hi), Val(lo));
  }

  /** Digit `i` of `s` is the `i`-th binary digit of the number. */
  lemma ValDigit(s: seq<bool>, i: nat)
    requires i < |s|
    ensures s[i] <==> (Val(s) / Pow2(i)) % 2 == 1
  {
    SplitAt(s, i);
    var t := s[i..];
    assert t[0] == s[i];
    DivModUnique(Val(t), 2, Val(t[1..]), if t[0] then 1 else 0);
  }

  /** Digit strings of one length that denote the same number are equal. */
  lemma ValInjective(a: seq<bool>, b: seq<bool>)
    requires |a| == |b| && Val(a) == Val(b)
    ensures a == b
  {
    forall i | 0 <= i < |a|
      ensures a[i] == b[i]
    {
      ValDigit(a, i);
      ValDigit(b, i);
    }
  }

  /** `Digits` writes down `n` modulo `2^len`. */
  lemma {:induction false} ValDigits(n: nat, len: nat)
    ensures Val(Digits(n, len)) == n % Pow2(len)
    decreases len
  {
    if len > 0 {
      var s := Digits(n, len);
      assert s[1..] == Digits(n / 2, len - 1);
      ValDigits(n / 2, len - 1);
      ModDouble(n, Pow2(len - 1));
    }
  }

  // ---------------------------------------------------------------------
  // Words and u32 values
  // ---------------------------------------------------------------------

  /** Every word denotes a `u32`. */
  lemma WordBound(x: Word)
    ensures Val(x) < Pow2(WIDTH)
  {
    ValBound(x);
  }

  /** Digit `i` of `Digits(n, len)` is the binary digit of `n` of weight
      `2^i`. */
  lemma {:induction false} DigitAt(n: nat, len: nat, i: nat)
    requires i < len
    ensures Digits(n, len)[i] == ((n / Pow2(i)) % 2 == 1)
    decreases i
  {
    var s := Digits(n, len);
    if i > 0 {
      assert s[i] == Digits(n / 2, len - 1)[i - 1];
      DigitAt(n / 2, len - 1, i - 1);
      DivDiv(n, 2, Pow2(i - 1));
      assert Pow2(i) == 2 * Pow2(i - 1);
    }
  }

  /** The words are the `u32` values: `2^32` of them. */
  lemma WordModulus()
    ensures Pow2(WIDTH) == 0x1_0000_0000
  {
    assert Pow2(8) == 0x100;
    Pow2Add(8, 8);
    Pow2Add(16, 16);
  }

  /** `FromNat` and `Val` are inverse: words and `u32` values correspond
      one to one. */
  lemma FromNatVal(n: nat)
    requires n < Pow2(WIDTH)
    ensures Val(FromNat(n)) == n
  {
    FromNatDigits(n);
    ValDigits(n, WIDTH);
    DivModUnique(n, Pow2(WIDTH), 0, n);
  }

  lemma FromNatDigits(n: nat)
    requires n < Pow2(WIDTH)
    ensures FromNat(n) == Digits(n, WIDTH)
  {
    forall i | 0 <= i < WIDTH
      ensures FromNat(n)[i] == Digits(n, WIDTH)[i]
    {
      DigitAt(n, WIDTH, i);
    }
  }

  lemma ValFromNat(x: Word)
    ensures Val(x) < Pow2(WIDTH)
    ensures FromNat(Val(x)) == x
  {
    WordBound(x);
    FromNatVal(Val(x));
    ValInjective(FromNat(Val(x)), x);
  }

  /** Bit `i` of a word is the `i`-th binary digit of its value. */
  lemma WordBit(x: Word, i: nat)
    requires i < WIDTH
    ensures x[i] <==> (Val(x) / Pow2(i)) % 2 == 1
  {
    ValDigit(x, i);
  }

  /** The literal `0`. */
  lemma ZeroValue()
    ensures Val(Zero()) == 0
  {
    ValZeroIff(Zero());
  }

  /** The literal `1`. */
  lemma OneValue()
    ensures Val(One()) == 1
  {
    LowBitOnly(One());
  }

  lemma LowBitOnly(s: seq<bool>)
    requires |s| > 0 && s[0]
    requires forall i :: 0 < i < |s| ==> !s[i]
    ensures Val(s) == 1
  {
    ValZeroIff(s[1..]);
  }

  /** The literal `!0`: the largest `u32`. */
  lemma AllOnesWordValue()
    ensures Val(AllOnes()) == Pow2(WIDTH) - 1
  {
    AllOnesValue(AllOnes());
  }

  lemma {:induction false} AllOnesValue(s: seq<bool>)
    requires forall i :: 0 <= i < |s| ==> s[i]
    ensures Val(s) == Pow2(|s|) - 1
    decreases |s|
  {
    if |s| > 0 {
      AllOnesValue(s[1..]);
    }
  }

  // ---------------------------------------------------------------------
  // The operators on values
  // ---------------------------------------------------------------------

  /** `x >> k` is `x / 2^k`. */
  lemma ShrValue(x: Word, k: nat)
    requires k < WIDTH
    ensures Val(Shr(x, k)) == Val(x) / Pow2(k)
  {
    var zeros := seq(k, _ => false);
    assert Shr(x, k) == x[k..] + zeros;
    ValConcat(x[k..], zeros);
    ValZeroIff(zeros);
    SplitAt(x, k);
  }

  /** `x << k` is `x * 2^k`, wrapped modulo `2^32`. */
  lemma ShlValue(x: Word, k: nat)
    requires k < WIDTH
    ensures Val(Shl(x, k)) == (Val(x) * Pow2(k)) % Pow2(WIDTH)
  {
    var zeros := seq(k, _ => false);
    var m := WIDTH - k;
    assert Shl(x, k) == zeros + x[..m];
    ValConcat(zeros, x[..m]);
    ValZeroIff(zeros);
    SplitAt(x, m);
    Pow2Add(m, k);
    ScaledMod(Val(x), Pow2(m), Pow2(k));
  }

  /** `!x` is `2^32 - 1 - x`. */
  lemma NotValue(x: Word)
    ensures Val(Not(x)) == Pow2(WIDTH) - 1 - Val(x)
  {
    ComplementSum(x, Not(x));
  }

  lemma {:induction false} ComplementSum(a: seq<bool>, b: seq<bool>)
    requires |a| == |b|
    requires forall i :: 0 <= i < |a| ==> b[i] == !a[i]
    ensures Val(a) + Val(b) == Pow2(|a|) - 1
    decreases |a|
  {
    if |a| > 0 {
      ComplementSum(a[1..], b[1..]);
    }
  }

  /** `x | y` of words with no set bit in common is `x + y`. */
  lemma {:induction false} DisjointOrValue(x: seq<bool>, y: seq<bool>, z: seq<bool>)
    requires |x| == |y| == |z|
    requires forall i :: 0 <= i < |x| ==> !(x[i] && y[i])
    requires forall i :: 0 <= i < |x| ==> z[i] == (x[i] || y[i])
    ensures Val(z) == Val(x) + Val(y)
    decreases |x|
  {
    if |x| > 0 {
      DisjointOrValue(x[1..], y[1..], z[1..]);
    }
  }

  // ---------------------------------------------------------------------
  // Replacing digits
  // ---------------------------------------------------------------------

  /** A string is its three consecutive pieces. */
  lemma SplitThree(x: seq<bool>, start: nat, end: nat)
    requires start <= end <= |x|
    ensures x == x[..start] + (x[start..end] + x[end..])
  {
  }

  /** Zeros above the most significant digit add nothing. */
  lemma ValPadded(a: seq<bool>, n: nat)
    ensures Val(a + seq(n, _ => false)) == Val(a)
  {
    ValConcat(a, seq(n, _ => false));
    ValZeroIff(seq(n, _ => false));
  }

  /** A word that fits in `w` bits denotes the same number as its `w` low
      bits. */
  lemma FitsLowDigits(x: Word, w: nat)
    requires w <= WIDTH && FitsIn(x, w)
    ensures Val(x[..w]) == Val(x)
  {
    assert x == x[..w] + x[w..];
    ValConcat(x[..w], x[w..]);
    assert forall i :: 0 <= i < |x[w..]| ==> x[w..][i] == x[w + i];
    ValZeroIff(x[w..]);
  }

  /** Replacing a run of digits `a` by a run `b` of the same length,
      `|low|` places up, changes the number by `2^|low|` times the change in
      the number the run spells. */
  lemma ReplaceDigits(low: seq<bool>, a: seq<bool>, b: seq<bool>, high: seq<bool>)
    requires |a| == |b|
    ensures Val(low + (b + high)) + Pow2(|low|) * Val(a) == Val(low + (a + high)) + Pow2(|low|) * Val(b)
  {
    ValConcat(low, a + high);
    ValConcat(low, b + high);
    ValConcat(a, high);
    ValConcat(b, high);
    SumSwap(Val(low + (a + high)), Val(low + (b + high)), Pow2(|low|), Val(low),
            Val(a + high), Val(b + high), Val(a), Val(b), Pow2(|a|) * Val(high));
  }

}
