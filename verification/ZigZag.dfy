/**
 Two's complement and the zigzag map, for a register of any width N.
 */
module ZigZag {
  import opened Bits

  /** An N-bit signed integer. */
  predicate Fits(n: int, N: nat)
  {
    N >= 1 && -(Pow2(N - 1) as int) <= n < Pow2(N - 1)
  }

  /** Reinterprets a signed integer as unsigned. */
  function ToUnsigned(n: int, N: nat): (u: nat)
    requires Fits(n, N)
    ensures u < Pow2(N)
  {
    if n >= 0 then n else n + Pow2(N)
  }

  /** Reinterprets an unsigned integer as signed. */
  function ToSigned(u: nat, N: nat): (n: int)
    requires N >= 1 && u < Pow2(N)
    ensures Fits(n, N)
  {
    if u < Pow2(N - 1) then u else u - Pow2(N)
  }

  /** `n >> k` on a signed integer. */
  function ShrSigned(n: int, k: nat): int
    decreases k
  {
    if k == 0 then n else ShrSigned(n / 2, k - 1)
  }

  lemma {:induction false} SignOf(n: int, k: nat)
    requires -(Pow2(k) as int) <= n < Pow2(k)
    ensures ShrSigned(n, k) == if n < 0 then -1 else 0
    decreases k
  {
    if k != 0 {
      SignOf(n / 2, k - 1);
    }
  }

  lemma {:induction false} XorOnes(x: nat, N: nat)
    requires x < Pow2(N)
    ensures Xor(x, Pow2(N) - 1) == Pow2(N) - 1 - x
    decreases N
  {
    if x != 0 {
      var ones := Pow2(N) - 1;
      assert ones % 2 == 1 && ones / 2 == Pow2(N - 1) - 1;
      XorOnes(x / 2, N - 1);
      assert Xor(x, ones) == (if x % 2 == 1 then 0 else 1) + 2 * Xor(x / 2, ones / 2);
    }
  }

  lemma {:induction false} XorZero(x: nat)
    ensures Xor(x, 0) == x
  {
    if x != 0 {
      XorZero(x / 2);
    }
  }

  lemma {:induction false} TruncWraps(x: nat, N: nat)
    requires Pow2(N) <= x < 2 * Pow2(N)
    ensures Trunc(x, N) == x - Pow2(N)
  {
    if N != 0 {
      TruncWraps(x / 2, N - 1);
    }
  }

  /** `(n << 1) ^ (n >> (N - 1))`, for ZigZagEncode32 and ZigZagEncode64. */
  function Encode(n: int, N: nat): nat
    requires Fits(n, N)
  {
    SignOf(n, N - 1);
    Xor(Trunc(Shl(ToUnsigned(n, N), 1), N), ToUnsigned(ShrSigned(n, N - 1), N))
  }

  /** `(u >> 1) ^ -(u & 1)`, for ZigZagDecode32 and ZigZagDecode64. */
  function Decode(u: nat, N: nat): int
    requires N >= 1 && u < Pow2(N)
  {
    ByOne(u);
    XorOnes(Shr(u, 1), N);
    XorZero(Shr(u, 1));
    ToSigned(Xor(Shr(u, 1), ToUnsigned(-(And(u, 1) as int), N)), N)
  }

  lemma EncodeNonNegative(n: nat, N: nat)
    requires Fits(n, N)
    ensures Encode(n, N) == 2 * n
  {
    hide Xor, ShrSigned, Trunc, Shl;
    SignOf(n, N - 1);
    ByOne(n);
    TruncSmall(2 * n, N);
    XorZero(2 * n);
  }

  lemma EncodeNegative(n: int, N: nat)
    requires Fits(n, N) && n < 0
    ensures Encode(n, N) == -2 * n - 1
  {
    hide Xor, ShrSigned, Trunc, Shl;
    SignOf(n, N - 1);
    var u := n + Pow2(N);
    ByOne(u);
    TruncWraps(2 * u, N);
    XorOnes(2 * u - Pow2(N), N);
  }

  /** Non-negative numbers go to the even codes, negative ones to the odd codes. */
  lemma EncodeIs(n: int, N: nat)
    requires Fits(n, N)
    ensures Encode(n, N) == if n >= 0 then 2 * n else -2 * n - 1
    ensures Encode(n, N) < Pow2(N)
  {
    hide Encode;
    if n >= 0 {
      EncodeNonNegative(n, N);
    } else {
      EncodeNegative(n, N);
    }
  }

  lemma DecodeIs(u: nat, N: nat)
    requires N >= 1 && u < Pow2(N)
    ensures Decode(u, N) == if u % 2 == 0 then u / 2 else -(u / 2) - 1
  {
    hide Xor, And, Shr, ToSigned, ToUnsigned, Pow2;
    var half := u / 2;
    ByOne(u);
    AllOnes(N);
    XorOnes(half, N);
    XorZero(half);
    Halved(half, N);
    if u % 2 == 0 {
      assert And(u, 1) == 0;
    } else {
      assert And(u, 1) == 1;
    }
  }

  lemma AllOnes(N: nat)
    requires N >= 1
    ensures ToUnsigned(0, N) == 0 && ToUnsigned(-1, N) == Pow2(N) - 1
  {
  }

  /** Half a code and its complement as signed numbers. */
  lemma Halved(half: nat, N: nat)
    requires N >= 1 && 2 * half < Pow2(N)
    ensures ToSigned(half, N) == half && ToSigned(Pow2(N) - 1 - half, N) == -(half as int) - 1
  {
  }

  /** Decoding undoes encoding on every N-bit signed integer. */
  lemma DecodeEncode(n: int, N: nat)
    requires Fits(n, N)
    ensures Encode(n, N) < Pow2(N) && Decode(Encode(n, N), N) == n
  {
    hide Encode, Decode;
    EncodeIs(n, N);
    DecodeIs(Encode(n, N), N);
  }

  /** Encoding undoes decoding on every N-bit code, so the map is a bijection. */
  lemma EncodeDecode(u: nat, N: nat)
    requires N >= 1 && u < Pow2(N)
    ensures Fits(Decode(u, N), N) && Encode(Decode(u, N), N) == u
  {
    hide Encode, Decode;
    DecodeIs(u, N);
    EncodeIs(Decode(u, N), N);
  }

  /** A number of smaller magnitude has a smaller code. */
  lemma SmallerMagnitudeSmallerCode(m: int, n: int, N: nat)
    requires Fits(m, N) && Fits(n, N)
    requires (if m < 0 then -m else m) < (if n < 0 then -n else n)
    ensures Encode(m, N) < Encode(n, N)
  {
    hide Encode;
    EncodeIs(m, N);
    EncodeIs(n, N);
  }

  // ----- sign extension

  lemma {:induction false} ShlBound(v: nat, n: nat, k: nat)
    requires v < Pow2(n)
    ensures Shl(v, k) < Pow2(n + k)
  {
    if k != 0 {
      ShlBound(v, n, k - 1);
    }
  }

  /** Moving an n-bit number to the top of the register and back copies its top bit downwards. */
  lemma {:induction false} SignExtends(v: nat, n: nat, k: nat)
    requires n >= 1 && v < Pow2(n)
    ensures Shl(v, k) < Pow2(n + k)
    ensures ShrSigned(ToSigned(Shl(v, k), n + k), k) == ToSigned(v, n)
  {
    ShlBound(v, n, k);
    if k != 0 {
      SignExtends(v, n, k - 1);
      assert ToSigned(Shl(v, k), n + k) == 2 * ToSigned(Shl(v, k - 1), n + k - 1);
    }
  }
}
