/**
 The decompiler helpers: rotations, carry and overflow flags, and the byte-by-byte copy. A value of
 an N-bit type is its bit pattern, a natural number below 2^N.
 */
module MachineOps {
  import opened Bits
  import opened ZigZag
  import opened ByteStream

  // ----- rotations

  /** The bits of s moved up by c places, those that leave coming in below. */
  function Rotated(s: seq<bool>, c: nat): (r: seq<bool>)
    requires c <= |s|
    ensures |r| == |s|
  {
    s[|s| - c..] + s[..|s| - c]
  }

  /** The place an int count moves N bits to the left. */
  function Places(count: int, N: nat): (c: nat)
    requires N > 0
    ensures c < N && (c == 0 <==> count % N == 0)
  {
    count % N
  }

  lemma OrCommutes(x: nat, y: nat)
    ensures Or(x, y) == Or(y, x)
  {
    hide Or, Bit;
    forall i: nat ensures Bit(Or(x, y), i) == Bit(Or(y, x), i) {
      BitOr(x, y, i);
      BitOr(y, x, i);
    }
    SameBits(Or(x, y), Or(y, x));
  }

  lemma {:induction false} TruncOfShl(x: nat, k: nat, N: nat)
    requires k <= N
    ensures Trunc(Shl(x, k), N) == Shl(Trunc(x, N - k), k)
  {
    if k != 0 {
      TruncOfShl(x, k - 1, N - 1);
    }
  }

  /** The two shifted halves share no bit. */
  lemma JoinHalves(v: nat, c: nat, N: nat)
    requires 0 < c < N && v < Pow2(N)
    ensures var high, kept := Shr(v, N - c), Trunc(v, N - c);
      && high < Pow2(c)
      && Or(Trunc(Shl(v, c), N), high) == high + Shl(kept, c) < Pow2(N)
  {
    hide Or, Trunc, Shl, Shr, Pow2;
    var high, kept := Shr(v, N - c), Trunc(v, N - c);
    ShrBound(v, N - c, c);
    TruncOfShl(v, c, N);
    OrCommutes(Shl(kept, c), high);
    OrDisjoint(high, kept, c);
    TruncBound(v, N - c);
    ShlBound(kept, N - c, c);
    Pow2Monotone(c, N);
    OrBound(high, Shl(kept, c), N);
    TruncSmall(Shl(kept, c), N);
  }

  /** The two shifted halves, joined, are the rotated bits. */
  lemma Halves(v: nat, c: nat, N: nat)
    requires 0 < c < N && v < Pow2(N)
    ensures var r := Or(Trunc(Shl(v, c), N), Shr(v, N - c)); r < Pow2(N) && Low(r, N) == Rotated(Low(v, N), c)
  {
    hide Or, Low, Trunc, Shl, Shr, Pow2;
    JoinHalves(v, c, N);
    LowOfSum(Shr(v, N - c), Trunc(v, N - c), c, N - c);
    LowOfTrunc(v, N - c, N - c);
    LowSplit(v, N - c, c);
  }

  /** A shift by nothing and one by the whole width, which C++ defines for the types narrower than int. */
  lemma NoHalves(v: nat, N: nat)
    requires v < Pow2(N)
    ensures Or(Trunc(Shl(v, 0), N), Shr(v, N)) == v && Or(Shr(v, 0), Trunc(Shl(v, N), N)) == v
    ensures Rotated(Low(v, N), 0) == Low(v, N)
  {
    hide Low, Pow2;
    TruncSmall(v, N);
    ShrSmall(v, N);
    OrCommutes(v, 0);
    TruncOfShl(v, N, N);
    ZeroShl(N);
  }

  /** Rotates the bits by any count, a negative one to the right. */
  method ROL(value: nat, count: int, nbits: nat) returns (r: nat)
    requires nbits > 0 && value < Pow2(nbits) && (nbits < 32 || count % nbits != 0)
    ensures r < Pow2(nbits) && Low(r, nbits) == Rotated(Low(value, nbits), Places(count, nbits))
  {
    hide Or, Low, Trunc, Shl, Shr, Pow2, Rotated;
    NoHalves(value, nbits);
    if count > 0 {
      var c := count % nbits;
      if c != 0 {
        Halves(value, c, nbits);
      }
      var high := Shr(value, nbits - c);
      r := Trunc(Shl(value, c), nbits);
      r := Or(r, high);
    } else {
      var c := (-count) % nbits;
      Negated(count, nbits);
      if c != 0 {
        Halves(value, nbits - c, nbits);
      }
      var low := Trunc(Shl(value, nbits - c), nbits);
      r := Shr(value, c);
      OrCommutes(r, low);
      r := Or(r, low);
    }
  }

  lemma Negated(count: int, n: nat)
    requires n > 0
    ensures 0 <= (-count) % n < n && count % n == if (-count) % n == 0 then 0 else n - (-count) % n
  {
    var q, r := count / n, count % n;
    MulDistributes(q, 1, n);
    if r == 0 {
      DivModUnique(-count, n, -q, 0);
    } else {
      DivModUnique(-count, n, -q - 1, n - r);
    }
  }

  /** `__ROR__` is the rotation by the opposite count. */
  method ROR(value: nat, count: int, nbits: nat) returns (r: nat)
    requires nbits > 0 && value < Pow2(nbits) && (nbits < 32 || (-count) % nbits != 0)
    ensures r < Pow2(nbits) && Low(r, nbits) == Rotated(Low(value, nbits), Places(-count, nbits))
  {
    r := ROL(value, -count, nbits);
  }

  lemma RotatedAt(s: seq<bool>, c: nat, i: nat)
    requires c < |s| && i < |s|
    ensures Rotated(s, c)[i] == s[if i < c then i + |s| - c else i - c]
  {
  }

  /** Two rotations are one by the sum of the places. */
  lemma RotatedTwice(s: seq<bool>, a: nat, b: nat)
    requires a < |s| && b < |s|
    ensures Rotated(Rotated(s, a), b) == Rotated(s, if a + b < |s| then a + b else a + b - |s|)
  {
    hide Rotated;
    var c := if a + b < |s| then a + b else a + b - |s|;
    forall i | 0 <= i < |s| ensures Rotated(Rotated(s, a), b)[i] == Rotated(s, c)[i] {
      RotatedAt(Rotated(s, a), b, i);
      RotatedAt(s, a, if i < b then i + |s| - b else i - b);
      RotatedAt(s, c, i);
    }
  }

  lemma PlacesAdd(a: int, b: int, n: nat)
    requires n > 0
    ensures Places(a + b, n) == (if a % n + b % n < n then a % n + b % n else a % n + b % n - n)
  {
    var p, q := a / n, b / n;
    var r := a % n + b % n;
    MulDistributes(p, q, n);
    if r < n {
      DivModUnique(a + b, n, p + q, r);
    } else {
      MulDistributes(p + q, 1, n);
      DivModUnique(a + b, n, p + q + 1, r - n);
    }
  }

  lemma RotatesBySum(s: seq<bool>, a: int, b: int)
    requires s != []
    ensures Rotated(Rotated(s, Places(a, |s|)), Places(b, |s|)) == Rotated(s, Places(a + b, |s|))
  {
    hide Rotated;
    PlacesAdd(a, b, |s|);
    RotatedTwice(s, Places(a, |s|), Places(b, |s|));
  }

  lemma RotatedByNone(s: seq<bool>)
    ensures Rotated(s, 0) == s
  {
  }

  lemma SameLow(x: nat, y: nat, N: nat)
    requires x < Pow2(N) && y < Pow2(N)
    ensures Low(x, N) == Low(y, N) <==> x == y
  {
    hide Low, Pow2, Value;
    ValueOfLow(x, N);
    ValueOfLow(y, N);
    TruncSmall(x, N);
    TruncSmall(y, N);
  }

  /** Rotating by a and then by b is rotating by a + b; opposite counts undo each other. */
  method RotateTwice(value: nat, a: int, b: int, nbits: nat) returns (r: nat)
    requires nbits > 0 && value < Pow2(nbits) && (nbits < 32 || (a % nbits != 0 && b % nbits != 0))
    ensures r < Pow2(nbits) && Low(r, nbits) == Rotated(Low(value, nbits), Places(a + b, nbits))
    ensures (a + b) % nbits == 0 ==> r == value
  {
    hide Low, Pow2, Rotated, Places;
    r := ROL(value, a, nbits);
    r := ROL(r, b, nbits);
    RotatesBySum(Low(value, nbits), a, b);
    RotatedByNone(Low(value, nbits));
    SameLow(r, value, nbits);
  }

  // ----- flags

  /** __SETS__ */
  predicate SignFlag(x: nat, N: nat)
    requires N > 0
  {
    x >= Pow2(N - 1)
  }

  function Wrap(x: int, N: nat): (w: nat)
    ensures w < Pow2(N)
  {
    x % Pow2(N)
  }

  /** __OFADD__ for operands of one type */
  predicate OverflowOfAdd(x: nat, y: nat, N: nat)
    requires N > 0
  {
    var sx := SignFlag(x, N);
    (!sx != SignFlag(y, N)) && (sx != SignFlag(Wrap(x + y, N), N))
  }

  /** __OFSUB__ for operands of one type */
  predicate OverflowOfSub(x: nat, y: nat, N: nat)
    requires N > 0
  {
    var sx := SignFlag(x, N);
    (sx != SignFlag(y, N)) && (sx != SignFlag(Wrap(x - y, N), N))
  }

  /** __CFADD__ and __CFSUB__ */
  predicate CarryOfAdd(x: nat, y: nat, N: nat) {
    x > Wrap(x + y, N)
  }

  predicate BorrowOfSub(x: nat, y: nat) {
    x < y
  }

  lemma WrapOnce(x: int, N: nat)
    requires -(Pow2(N) as int) <= x < 2 * Pow2(N)
    ensures Wrap(x, N) == if x < 0 then x + Pow2(N) else if x < Pow2(N) then x else x - Pow2(N)
  {
    hide Pow2;
    if x < 0 {
      DivModUnique(x, Pow2(N), -1, x + Pow2(N));
    } else if x < Pow2(N) {
      DivModUnique(x, Pow2(N), 0, x);
    } else {
      DivModUnique(x, Pow2(N), 1, x - Pow2(N));
    }
  }

  /** The flags are set exactly when the exact signed result leaves the N-bit range. */
  lemma OverflowIffOutOfRange(x: nat, y: nat, N: nat)
    requires N > 0 && x < Pow2(N) && y < Pow2(N)
    ensures OverflowOfAdd(x, y, N) <==> !Fits(ToSigned(x, N) + ToSigned(y, N), N)
    ensures OverflowOfSub(x, y, N) <==> !Fits(ToSigned(x, N) - ToSigned(y, N), N)
  {
    hide Pow2, Wrap;
    Pow2Double(N - 1);
    WrapOnce(x + y, N);
    WrapOnce(x - y, N);
  }

  /** The flags are set exactly when the unsigned result does not fit. */
  lemma CarryIff(x: nat, y: nat, N: nat)
    requires x < Pow2(N) && y < Pow2(N)
    ensures CarryOfAdd(x, y, N) <==> x + y >= Pow2(N)
    ensures BorrowOfSub(x, y) <==> x - y < 0
  {
    hide Pow2, Wrap;
    WrapOnce(x + y, N);
  }

  // operands of two types

  /** An n-bit operand converted to N bits: sign-extended if its type is signed. */
  function Widened(x: nat, n: nat, signed: bool, N: nat): (w: nat)
    requires 0 < n <= N && x < Pow2(n)
    ensures w < Pow2(N)
  {
    WidenedFits(x, n, N);
    if signed then ToUnsigned(ToSigned(x, n), N) else x
  }

  lemma WidenedFits(x: nat, n: nat, N: nat)
    requires 0 < n <= N && x < Pow2(n)
    ensures x < Pow2(N) && Fits(ToSigned(x, n), N)
  {
    hide Pow2;
    Pow2Monotone(n, N);
    Pow2Monotone(n - 1, N - 1);
    Pow2Double(n - 1);
  }

  /** The number that an operand stands for: of a narrower unsigned type, the number itself. */
  function Operand(x: nat, n: nat, signed: bool, N: nat): int
    requires 0 < n <= N && x < Pow2(n)
  {
    if signed || n == N then ToSigned(x, n) else x
  }

  /** A signed operand is the n-bit signed number that is congruent to its bit pattern. */
  lemma OperandIs(x: nat, n: nat, signed: bool, N: nat)
    requires 0 < n <= N && x < Pow2(n)
    ensures signed || n == N ==> Fits(Operand(x, n, signed, N), n) && Operand(x, n, signed, N) % Pow2(n) == x
    ensures !signed ==> Widened(x, n, signed, N) == x && (n < N ==> Operand(x, n, signed, N) == x)
  {
    hide Pow2;
    Pow2Double(n - 1);
    if x < Pow2(n - 1) {
      DivModUnique(x, Pow2(n), 0, x);
    } else {
      DivModUnique(x - Pow2(n), Pow2(n), -1, x);
    }
  }

  lemma WidenedIs(x: nat, n: nat, signed: bool, N: nat)
    requires 0 < n <= N && x < Pow2(n)
    ensures ToSigned(Widened(x, n, signed, N), N) == Operand(x, n, signed, N)
  {
    hide Pow2;
    WidenedFits(x, n, N);
    Pow2Double(N - 1);
    Pow2Double(n - 1);
    if n < N {
      Pow2Monotone(n, N - 1);
    }
  }

  function Wider(n: nat, m: nat): (N: nat)
    ensures N >= n && N >= m
  {
    if n < m then m else n
  }

  /** __OFADD__ and __OFSUB__ convert the narrower operand first: set if the result leaves the wider range. */
  lemma MixedOverflowIff(x: nat, n: nat, xSigned: bool, y: nat, m: nat, ySigned: bool)
    requires n > 0 && m > 0 && x < Pow2(n) && y < Pow2(m)
    ensures var N := Wider(n, m); var a, b := Widened(x, n, xSigned, N), Widened(y, m, ySigned, N);
      && (OverflowOfAdd(a, b, N) <==> !Fits(Operand(x, n, xSigned, N) + Operand(y, m, ySigned, N), N))
      && (OverflowOfSub(a, b, N) <==> !Fits(Operand(x, n, xSigned, N) - Operand(y, m, ySigned, N), N))
  {
    hide Pow2, OverflowOfAdd, OverflowOfSub;
    var N := Wider(n, m);
    WidenedIs(x, n, xSigned, N);
    WidenedIs(y, m, ySigned, N);
    OverflowIffOutOfRange(Widened(x, n, xSigned, N), Widened(y, m, ySigned, N), N);
  }

  /** So do __CFADD__ and __CFSUB__: set if the unsigned result of the converted operands does not fit. */
  lemma MixedCarryIff(x: nat, n: nat, xSigned: bool, y: nat, m: nat, ySigned: bool)
    requires n > 0 && m > 0 && x < Pow2(n) && y < Pow2(m)
    ensures var N := Wider(n, m); var a, b := Widened(x, n, xSigned, N), Widened(y, m, ySigned, N);
      (CarryOfAdd(a, b, N) <==> a + b >= Pow2(N)) && (BorrowOfSub(a, b) <==> a - b < 0)
  {
    hide Pow2, CarryOfAdd;
    var N := Wider(n, m);
    CarryIff(Widened(x, n, xSigned, N), Widened(y, m, ySigned, N), N);
  }

  /** Without overflow the wrapped sum is the signed sum. */
  lemma NoOverflowIsExact(x: nat, y: nat, N: nat)
    requires N > 0 && x < Pow2(N) && y < Pow2(N)
    ensures !OverflowOfAdd(x, y, N) <==> ToSigned(Wrap(x + y, N), N) == ToSigned(x, N) + ToSigned(y, N)
    ensures !OverflowOfSub(x, y, N) <==> ToSigned(Wrap(x - y, N), N) == ToSigned(x, N) - ToSigned(y, N)
  {
    hide Pow2, Wrap;
    Pow2Double(N - 1);
    WrapOnce(x + y, N);
    WrapOnce(x - y, N);
  }

  /** __MKCSHL__: the carry is the last bit that a left shift by the reduced count moves out. */
  lemma CarryOfShl(value: nat, count: nat, N: nat)
    requires N > 0 && value < Pow2(N) && (N < 32 || count % N != 0)
    ensures var c := count % N; And(Shr(value, N - c), 1) == 1 <==> Bit(Shl(value, c), N)
  {
    hide And, Shr, Shl, Bit, Pow2;
    var c := count % N;
    LowestBit(Shr(value, N - c));
    BitShr(value, N - c, 0);
    BitShl(value, c, N);
  }

  lemma LowestBit(x: nat)
    ensures And(x, 1) == 1 <==> Bit(x, 0)
  {
    ByOne(x);
  }

  /** is_mul_ok */
  predicate IsMulOk(count: nat, elsize: nat, N: nat) {
    elsize == 0 || count == 0 || count <= (Pow2(N) - 1) / elsize
  }

  /** The division test is exact. */
  lemma IsMulOkIff(count: nat, elsize: nat, N: nat)
    ensures IsMulOk(count, elsize, N) <==> count * elsize < Pow2(N)
  {
    hide Pow2;
    if elsize != 0 && count != 0 {
      var q, r := (Pow2(N) - 1) / elsize, (Pow2(N) - 1) % elsize;
      assert Pow2(N) - 1 == q * elsize + r;
      if count <= q {
        MulDistributes(count, q - count, elsize);
      } else {
        MulDistributes(q + 1, count - q - 1, elsize);
        MulDistributes(q, 1, elsize);
      }
    } else {
      assert count * elsize == 0;
    }
  }

  // ----- qmemcpy

  /**
   Copies from the start to the end, also when the areas overlap. Onto a place inside or behind
   the source the first bytes are repeated; otherwise the source arrives unchanged.
   */
  method QMemCpy(mem: array<byte>, dst: nat, src: nat, cnt: nat)
    requires dst + cnt <= mem.Length && src + cnt <= mem.Length
    modifies mem
    ensures forall i | 0 <= i < cnt :: mem[dst + i] == old(mem[src + Period(i, dst, src)])
    ensures forall k | 0 <= k < mem.Length && !(dst <= k < dst + cnt) :: mem[k] == old(mem[k])
  {
    hide Period;
    for i := 0 to cnt
      invariant forall j | 0 <= j < i :: mem[dst + j] == old(mem[src + Period(j, dst, src)])
      invariant forall k | 0 <= k < mem.Length && !(dst <= k < dst + i) :: mem[k] == old(mem[k])
    {
      PeriodStep(i, dst, src);
      mem[dst + i] := mem[src + i];
    }
  }

  /** Which source byte lands i places behind dst. */
  function Period(i: nat, dst: nat, src: nat): (p: nat)
    ensures p <= i
  {
    if src < dst && i >= dst - src then Period(i - (dst - src), dst, src) else i
  }

  lemma PeriodStep(i: nat, dst: nat, src: nat)
    ensures Period(i, dst, src) == if src < dst && src + i >= dst then Period(src + i - dst, dst, src) else i
  {
  }

  /** The bytes repeat with the distance of the two places as their period. */
  lemma {:induction false} PeriodIsMod(i: nat, dst: nat, src: nat)
    requires src < dst
    ensures Period(i, dst, src) == i % (dst - src)
  {
    var d := dst - src;
    if i >= d {
      PeriodIsMod(i - d, dst, src);
      PlacesAdd(i - d, d, d);
      DivModUnique(d, d, 1, 0);
    } else {
      DivModUnique(i, d, 0, i);
    }
  }
}
