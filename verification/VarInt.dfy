/**
 Base-128 numbers: seven data bits a byte, lowest first, the eighth bit set while more follow.
 */
module VarInt {
  import opened Bits
  import opened ByteStream
  import opened Wire

  /** What WriteVarInt32 and WriteVarInt64 append. */
  function Code(x: nat): (code: seq<bool>)
    ensures |code| == 8 * Size(x)
  {
    if x < 128 then Low(x, 8) else Low(x % 128 + 128, 8) + Code(x / 128)
  }

  /** ByteSizeVarInt32, ByteSizeVarInt64 */
  function Size(x: nat): (n: nat)
    ensures n >= 1
  {
    if x < 128 then 1 else 1 + Size(x / 128)
  }

  lemma CodeOne(x: nat)
    ensures Code(x) == if x < 128 then Low(x % 128, 8) else Low(x % 128 + 128, 8) + Code(x / 128)
  {
  }

  /** The number read from at most k bytes. */
  function Read(c: Cursor, k: nat): nat
    requires c.Valid()
    decreases k
  {
    if k == 0 then 0 else
      var b := c.Taken(8);
      b % 128 + if b >= 128 then 128 * Read(c.Advance(8), k - 1) else 0
  }

  function ReadEnd(c: Cursor, k: nat): (c': Cursor)
    requires c.Valid()
    ensures c'.Valid() && c'.stream == c.stream
    decreases k
  {
    if k == 0 then c
    else if c.Taken(8) >= 128 then ReadEnd(c.Advance(8), k - 1)
    else c.Advance(8)
  }

  /** The size is decided by comparing with powers of 128. */
  lemma {:induction false} SizeIs(x: nat, k: nat)
    ensures k >= 1 ==> (Size(x) <= k <==> x < Pow2(7 * k))
    decreases k
  {
    Pow2Values();
    if k == 1 {
    } else if k > 1 {
      Pow2Add(7, 7 * (k - 1));
      SizeIs(x / 128, k - 1);
    }
  }

  /** Every number is read back, whatever follows it, once the byte limit admits its code. */
  lemma {:induction false} RoundTrip(c: Cursor, x: nat, k: nat)
    requires c.At(Code(x)) && Size(x) <= k
    ensures Read(c, k) == x && ReadEnd(c, k) == c.Advance(|Code(x)|)
    decreases x
  {
    hide Low, Trunc, Value;
    Pow2Values();
    if x < 128 {
      TakenLow(c, x, 8);
    } else {
      AtSplit(c, Low(x % 128 + 128, 8), Code(x / 128));
      TakenLow(c, x % 128 + 128, 8);
      RoundTrip(c.Advance(8), x / 128, k - 1);
    }
  }

  /** Every 32-bit number takes at most five bytes and every 64-bit number at most ten. */
  lemma SizeLimits(x: nat)
    ensures x < Pow2(32) ==> Size(x) <= 5
    ensures x < Pow2(64) ==> Size(x) <= 10
  {
    hide Size;
    if x < Pow2(32) {
      Pow2Monotone(32, 35);
      SizeIs(x, 5);
    }
    if x < Pow2(64) {
      Pow2Monotone(64, 70);
      SizeIs(x, 10);
    }
  }

  /** One more byte of the reading loop: `result |= (b & 0x7F) << (7 * count)`. */
  lemma AddSeptet(acc: nat, b: nat, count: nat, N: nat)
    requires acc < Pow2(7 * count)
    ensures Or(Trunc(acc, N), Trunc(Shl(b % 128, 7 * count), N)) == Trunc(acc + Shl(b % 128, 7 * count), N)
    ensures acc + Shl(b % 128, 7 * count) < Pow2(7 * (count + 1))
  {
    var y := Shl(b % 128, 7 * count);
    OrDisjoint(acc, b % 128, 7 * count);
    TruncOr(acc, y, N);
    ShlIsTimes(b % 128, 7 * count);
    Pow2Add(7, 7 * count);
    assert Pow2(7) == 128;
    var p := Pow2(7 * count);
    MulDistributes(b % 128, 1, p);
    MulMonotone(b % 128 + 1, 128, p);
  }

  lemma ShlSeptet(low: nat, rest: nat, count: nat)
    ensures Shl(low + 128 * rest, 7 * count) == Shl(low, 7 * count) + Shl(rest, 7 * (count + 1))
  {
    var k := 7 * count;
    ShlIsTimes(low + 128 * rest, k);
    ShlIsTimes(low, k);
    ShlIsTimes(rest, 7 * (count + 1));
    Pow2Add(7, k);
    assert Pow2(7) == 128;
    MulDistributes(low, 128 * rest, Pow2(k));
    MulAssociates(rest, 128, Pow2(k));
  }

  /** After count bytes acc holds the number's low part and now is where the rest starts. */
  ghost predicate ReadSoFar(start: Cursor, now: Cursor, acc: nat, count: nat, k: nat) {
    && start.Valid() && now.Valid() && count <= k
    && acc < Pow2(7 * count)
    && ReadEnd(start, k) == ReadEnd(now, k - count)
    && Read(start, k) == acc + Shl(Read(now, k - count), 7 * count)
  }

  lemma NothingRead(start: Cursor, k: nat)
    requires start.Valid()
    ensures ReadSoFar(start, start, 0, 0, k)
  {
  }

  lemma LimitReached(start: Cursor, now: Cursor, acc: nat, k: nat)
    requires ReadSoFar(start, now, acc, k, k)
    ensures Read(start, k) == acc && ReadEnd(start, k) == now
  {
    ZeroShl(7 * k);
  }

  lemma ByteRead(start: Cursor, now: Cursor, acc: nat, count: nat, k: nat, N: nat)
    requires ReadSoFar(start, now, acc, count, k) && count < k
    ensures var b := now.Taken(8);
      var acc' := acc + Shl(b % 128, 7 * count);
      && Or(Trunc(acc, N), Trunc(Shl(b % 128, 7 * count), N)) == Trunc(acc', N)
      && (b >= 128 ==> ReadSoFar(start, now.Advance(8), acc', count + 1, k))
      && (b < 128 ==> Read(start, k) == acc' && ReadEnd(start, k) == now.Advance(8))
  {
    hide Shl, Pow2, Trunc, Or, Cursor.Taken, Cursor.Advance;
    var b := now.Taken(8);
    AddSeptet(acc, b, count, N);
    if b >= 128 {
      ShlSeptet(b % 128, Read(now.Advance(8), k - count - 1), count);
    }
  }

  lemma MulAssociates(a: nat, b: nat, p: nat)
    ensures (b * a) * p == a * (b * p)
  {
  }

  lemma MulMonotone(a: nat, b: nat, p: nat)
    requires a <= b
    ensures a * p <= b * p
  {
    MulDistributes(a, b - a, p);
  }

  lemma {:induction false} TruncOr(x: nat, y: nat, N: nat)
    ensures Trunc(Or(x, y), N) == Or(Trunc(x, N), Trunc(y, N))
    decreases N
  {
    hide Or, Trunc;
    forall i: nat ensures Bit(Trunc(Or(x, y), N), i) == Bit(Or(Trunc(x, N), Trunc(y, N)), i) {
      BitTrunc(Or(x, y), N, i);
      BitOr(x, y, i);
      BitOr(Trunc(x, N), Trunc(y, N), i);
      BitTrunc(x, N, i);
      BitTrunc(y, N, i);
    }
    SameBits(Trunc(Or(x, y), N), Or(Trunc(x, N), Trunc(y, N)));
  }

  // ----- the code as bytes, for the writers that store it directly

  function Bytes(x: nat): (bs: seq<byte>)
    ensures |bs| == Size(x)
  {
    if x < 128 then [x] else [x % 128 + 128] + Bytes(x / 128)
  }

  lemma {:induction false} StreamOfCode(x: nat)
    ensures StreamOf(Bytes(x)) == Code(x)
  {
    hide Low;
    if x < 128 {
      ByteStreamOf(x);
    } else {
      StreamOfCode(x / 128);
      ByteStreamOf(x % 128 + 128);
      StreamOfAppend([x % 128 + 128], Bytes(x / 128));
    }
  }

  /** The i-th group of seven bits. */
  function Septet(x: nat, i: nat): (b: nat)
    ensures b < 128
  {
    Shr(x, 7 * i) % 128
  }

  lemma {:induction false} ByteAt(x: nat, i: nat)
    requires i < Size(x)
    ensures Bytes(x)[i] == Septet(x, i) + if i + 1 < Size(x) then 128 else 0
    decreases i
  {
    if i == 0 {
    } else {
      ByteAt(x / 128, i - 1);
      ShrTwice(x, 7, 7 * (i - 1));
      ShrIsDiv(x, 7);
      Pow2Values();
    }
  }

  /** `(uint8_t)(y | 0x80)` */
  lemma HighBitSet(y: nat)
    ensures Trunc(Or(y, 0x80), 8) == y % 128 + 128
  {
    hide Or, Trunc;
    Pow2Values();
    TruncIsMod(y, 7);
    TruncBound(y, 7);
    ShlOne(7);
    OrDisjoint(Trunc(y, 7), 1, 7);
    forall i: nat ensures Bit(Trunc(Or(y, 0x80), 8), i) == Bit(Or(Trunc(y, 7), 0x80), i) {
      BitTrunc(Or(y, 0x80), 8, i);
      BitOr(y, 0x80, i);
      BitOr(Trunc(y, 7), 0x80, i);
      BitTrunc(y, 7, i);
      BitShl(1, 7, i);
      if i > 7 {
        BitBeyond(0x80, 8, i);
      }
    }
    SameBits(Trunc(Or(y, 0x80), 8), Or(Trunc(y, 7), 0x80));
  }

  // ----- the three 32-bit parts of a 64-bit number

  /** `(uint32_t)(data >> 28 * p)` */
  function Part(x: nat, p: nat): nat {
    Trunc(Shr(x, 28 * p), 32)
  }

  lemma PartSeptet(x: nat, p: nat, j: nat)
    requires j < 4
    ensures Shr(Part(x, p), 7 * j) % 128 == Septet(x, 4 * p + j)
  {
    hide Shr, Trunc, Pow2;
    var y, z := Shr(Part(x, p), 7 * j), Shr(x, 7 * (4 * p + j));
    Pow2Values();
    TruncIsMod(y, 7);
    TruncIsMod(z, 7);
    forall i: nat ensures Bit(Trunc(y, 7), i) == Bit(Trunc(z, 7), i) {
      BitTrunc(y, 7, i);
      BitTrunc(z, 7, i);
      BitShr(Part(x, p), 7 * j, i);
      BitTrunc(Shr(x, 28 * p), 32, i + 7 * j);
      BitShr(x, 28 * p, i + 7 * j);
      BitShr(x, 7 * (4 * p + j), i);
    }
    SameBits(Trunc(y, 7), Trunc(z, 7));
  }

  /** The hard-coded search for the number of bytes. */
  function TreeSize(part0: nat, part1: nat, part2: nat): nat {
    if part2 == 0 then
      if part1 == 0 then
        if part0 < 0x4000 then
          if part0 < 0x80 then 1 else 2
        else
          if part0 < 0x20_0000 then 3 else 4
      else
        if part1 < 0x4000 then
          if part1 < 0x80 then 5 else 6
        else
          if part1 < 0x20_0000 then 7 else 8
    else
      if part2 < 0x80 then 9 else 10
  }

  lemma SearchFindsSize(x: nat)
    requires x < Pow2(64)
    ensures TreeSize(Part(x, 0), Part(x, 1), Part(x, 2)) == Size(x)
  {
    hide Size, Shr, Trunc, Pow2;
    SevenBitPowers();
    SizeLimits(x);
    ShrIsDiv(x, 0);
    ShrIsDiv(x, 28);
    ShrIsDiv(x, 56);
    TruncSmall(x / Pow2(56), 32);
    if x < Pow2(56) {
      TruncSmall(x / Pow2(28), 32);
      if x < Pow2(28) {
        TruncSmall(x, 32);
        SizeIs(x, 1);
        SizeIs(x, 2);
        SizeIs(x, 3);
        SizeIs(x, 4);
      } else {
        SizeIs(x, 4);
        SizeIs(x, 5);
        SizeIs(x, 6);
        SizeIs(x, 7);
        SizeIs(x, 8);
      }
    } else {
      SizeIs(x, 8);
      SizeIs(x, 9);
    }
  }

  lemma SevenBitPowers()
    ensures Pow2(0) == 1 && Pow2(7) == 0x80 && Pow2(14) == 0x4000 && Pow2(21) == 0x20_0000 && Pow2(28) == 0x1000_0000
    ensures Pow2(35) == 0x8_0000_0000 && Pow2(42) == 0x400_0000_0000 && Pow2(49) == 0x2_0000_0000_0000
    ensures Pow2(56) == 0x100_0000_0000_0000 && Pow2(63) == 0x8000_0000_0000_0000 && Pow2(64) == 0x1_0000_0000_0000_0000
    ensures Pow2(32) == 0x1_0000_0000
  {
    hide Pow2;
    Pow2Values();
    Pow2Double(0);
    Pow2Add(7, 7);
    Pow2Add(14, 7);
    Pow2Add(28, 7);
    Pow2Add(35, 7);
    Pow2Add(42, 7);
    Pow2Add(49, 7);
    Pow2Add(56, 7);
    Pow2Double(63);
  }
}
