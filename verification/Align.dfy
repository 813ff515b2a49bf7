/**
 `AlignValue`, `PAD_NUMBER` and `BitByte`: rounding up to a multiple.
 */
module Align {
  import opened Bits

  /** The C++ division of an int rounds towards zero. */
  function DivTowardsZero(a: int, b: nat): int
    requires b > 0
  {
    if a >= 0 then a / b else -(-a / b)
  }

  /** PAD_NUMBER */
  function PadNumber(number: int, boundary: nat): int
    requires boundary > 0
  {
    DivTowardsZero(number + (boundary - 1), boundary) * boundary
  }

  /** AlignValue in 64 bits, with the wrap-around of its addition. */
  function AlignValue(val: nat, alignment: nat): nat
    requires 1 <= alignment <= Pow2(64)
  {
    And((val + alignment - 1) % Pow2(64), Not(alignment - 1, 64))
  }

  predicate IsInt32(n: int) {
    -0x8000_0000 <= n < 0x8000_0000
  }

  /** An int sum that leaves its range wraps around. */
  function WrapInt32(n: int): (w: int)
    ensures IsInt32(w)
  {
    (n + 0x8000_0000) % 0x1_0000_0000 - 0x8000_0000
  }

  /** BitByte, with the arithmetic shift of a negative int. */
  function BitByte(bits: int): int
    requires IsInt32(bits)
  {
    WrapInt32(bits + 7) / 8
  }

  /** `PAD_NUMBER( bits, 8 ) >> 3` on ints */
  function PaddedBytes(bits: int): int
    requires IsInt32(bits)
  {
    DivTowardsZero(WrapInt32(bits + 7), 8) * 8 / 8
  }

  /** r is the least multiple of m that is not below n. */
  ghost predicate LeastMultiple(r: int, n: int, m: nat) {
    && (exists q: int :: r == q * m) && n <= r
    && forall q: int :: n <= q * m ==> r <= q * m
  }

  lemma Quotient(n: int, m: nat)
    requires m > 0
    ensures var q := (n + m - 1) / m; n <= q * m < n + m
  {
    var x := n + m - 1;
    assert x == x / m * m + x % m;
  }

  lemma LeastIfClose(q: int, n: int, m: nat)
    requires m > 0 && n <= q * m < n + m
    ensures LeastMultiple(q * m, n, m)
  {
    forall p: int | n <= p * m ensures q * m <= p * m {
      if p < q {
        MulDistributes(q - p, p, m);
        MulAtLeast(q - p, m);
        assert false;
      } else {
        MulDistributes(p - q, q, m);
      }
    }
  }

  /**
   Padding gives the least multiple not below the number, except for the numbers so far below 0
   that the division rounds up: there it does so only where it is exact.
   */
  lemma PadIsLeastIff(n: int, m: nat)
    requires m > 0
    ensures LeastMultiple(PadNumber(n, m), n, m) <==> n + m > 0 || (n - 1) % m == 0
  {
    hide LeastMultiple;
    var x := n + m - 1;
    var q := x / m;
    Quotient(n, m);
    LeastIfClose(q, n, m);
    RoundsUp(x, m);
    DivModUnique(n - 1, m, q - 1, x % m) by {
      assert x == q * m + x % m;
      MulDistributes(q - 1, 1, m);
    }
    if x < 0 && x % m != 0 {
      MulDistributes(q, 1, m);
      assert PadNumber(n, m) == q * m + m;
      NotLeast(q * m + m, q, n, m);
    }
  }

  lemma NotLeast(r: int, q: int, n: int, m: nat)
    requires n <= q * m < r
    ensures !LeastMultiple(r, n, m)
  {
  }

  lemma RoundsUp(x: int, m: nat)
    requires m > 0
    ensures DivTowardsZero(x, m) == if x >= 0 || x % m == 0 then x / m else x / m + 1
  {
    if x < 0 {
      var q, r := x / m, x % m;
      MulDistributes(q, 1, m);
      if r == 0 {
        DivModUnique(-x, m, -q, 0);
      } else {
        DivModUnique(-x, m, -q - 1, m - r);
      }
    }
  }

  /** `x & ~(2^k - 1)` in 64 bits clears the k low bits. */
  lemma ClearLow(x: nat, k: nat)
    requires k <= 64 && x < Pow2(64)
    ensures Pow2(k) <= Pow2(64) && And(x, Not(Pow2(k) - 1, 64)) == x / Pow2(k) * Pow2(k)
  {
    hide And, Pow2, Shl, Shr, Trunc;
    Pow2Monotone(k, 64);
    var m := Pow2(64 - k) - 1;
    Pow2Add(k, 64 - k);
    ShlIsTimes(m, k);
    MulDistributes(m, 1, Pow2(k));
    assert Not(Pow2(k) - 1, 64) == Shl(m, k);
    AndShl(x, m, k);
    AndMask(Shr(x, k), 64 - k);
    ShrBound(x, k, 64 - k);
    TruncSmall(Shr(x, k), 64 - k);
    ShrIsDiv(x, k);
    ShlIsTimes(Shr(x, k), k);
  }

  /**
   For a power of two, masking is padding exactly when the addition does not wrap; when it does the
   result is 0.
   */
  lemma AlignIsPadIff(val: nat, k: nat)
    requires k <= 64 && val < Pow2(64)
    ensures Pow2(k) <= Pow2(64)
    ensures AlignValue(val, Pow2(k)) == PadNumber(val, Pow2(k)) <==> val + Pow2(k) - 1 < Pow2(64)
    ensures val + Pow2(k) - 1 >= Pow2(64) ==> AlignValue(val, Pow2(k)) == 0
  {
    hide And, Pow2;
    Pow2Monotone(k, 64);
    var a, x := Pow2(k), val + Pow2(k) - 1;
    if x < Pow2(64) {
      DivModUnique(x, Pow2(64), 0, x);
      ClearLow(x, k);
    } else {
      DivModUnique(x, Pow2(64), 1, x - Pow2(64));
      ClearLow(x - Pow2(64), k);
      DivModUnique(x - Pow2(64), a, 0, x - Pow2(64));
      PadIsLeastIff(val, a);
    }
  }

  /** The shift is the padding shifted unless a negative division rounds the other way. */
  lemma BitByteIsPadIff(bits: int)
    requires IsInt32(bits)
    ensures BitByte(bits) == PaddedBytes(bits) <==> -7 <= bits <= 0x7FFF_FFF8 || bits % 8 == 1
    ensures bits <= 0x7FFF_FFF8 ==> 8 * BitByte(bits) - 8 < bits <= 8 * BitByte(bits)
  {
    var w := WrapInt32(bits + 7);
    assert w == if bits <= 0x7FFF_FFF8 then bits + 7 else bits + 7 - 0x1_0000_0000;
    assert w % 8 == 0 <==> bits % 8 == 1;
  }
}
