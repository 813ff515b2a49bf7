/**
 `CBitWrite`: writing a bit stream into a byte buffer, by single bits and by masked dwords.
 */
module BitWriter {
  import opened Bits
  import opened ByteStream
  import opened ZigZag
  import opened Wire
  import VarInt
  import UBitVar
  import Text
  import opened BitReader

  // ----- one bit

  lemma {:induction false} AndBound(x: nat, y: nat)
    ensures And(x, y) <= x
  {
    if x != 0 {
      AndBound(x / 2, y / 2);
    }
  }

  lemma {:induction false} BitOfOne(i: nat)
    ensures Bit(1, i) == (i == 0)
  {
    if i != 0 {
      BitZero(i - 1);
    }
  }

  /** `b | (1 << k)` and `b & ~(1 << k)` */
  function PutBit(b: byte, k: nat, value: bool): (r: nat)
    requires k < 8
  {
    Pow2Monotone(k, 31);
    ShlOne(k);
    if value then Or(b, Shl(1, k)) else And(b, Not(Shl(1, k), 32))
  }

  lemma PutBitIs(b: byte, k: nat, value: bool)
    requires k < 8
    ensures PutBit(b, k, value) < 256
    ensures forall i | 0 <= i < 8 :: Bit(PutBit(b, k, value), i) == if i == k then value else Bit(b, i)
  {
    hide Or, And, Shl, Bit, Not, Pow2;
    Pow2Values();
    var m := Shl(1, k);
    ShlOne(k);
    Pow2Monotone(k, 7);
    if value {
      TruncSmall(m, 8);
      OrBound(b, m, 8);
    } else {
      AndBound(b, Not(m, 32));
    }
    forall i | 0 <= i < 8
      ensures Bit(PutBit(b, k, value), i) == if i == k then value else Bit(b, i)
    {
      BitShl(1, k, i);
      if i >= k {
        BitOfOne(i - k);
      }
      BitOr(b, m, i);
      BitNot(m, 32, i);
      BitAnd(b, Not(m, 32), i);
    }
  }

  lemma StreamOfUpdate(bs: seq<byte>, p: nat, value: bool, b: byte)
    requires p < 8 * |bs| && b == PutBit(bs[p / 8], p % 8, value)
    ensures StreamOf(bs[p / 8 := b]) == StreamOf(bs)[p := value]
  {
    hide StreamOf, PutBit, Bit;
    var bs' := bs[p / 8 := b];
    PutBitIs(bs[p / 8], p % 8, value);
    forall j | 0 <= j < 8 * |bs| ensures StreamOf(bs')[j] == StreamOf(bs)[p := value][j] {
      StreamBit(bs, j);
      StreamBit(bs', j);
      if j / 8 == p / 8 {
        assert j == p <==> j % 8 == p % 8;
      }
    }
  }

  // ----- one dword

  /** g_BitWriteMasks[startbit][nBitsLeft] */
  function WriteMask(startbit: nat, nBitsLeft: nat): nat
    requires startbit < 32
  {
    var endbit := startbit + nBitsLeft;
    ShlOne(startbit);
    ShlOne(endbit);
    if endbit < 32 then
      Pow2Monotone(endbit, 32);
      Or(Shl(1, startbit) - 1, Not(Shl(1, endbit) - 1, 32))
    else Shl(1, startbit) - 1
  }

  lemma BitWriteMask(c: nat, n: nat, i: nat)
    requires c < 32 && i < 32
    ensures Shl(1, c) >= 1
    ensures Bit(WriteMask(c, n), i) == (i < c || c + n <= i)
  {
    hide Or, Bit, Not, Shl, Pow2;
    ShlOne(c);
    BitMask(c, i);
    if c + n < 32 {
      ShlOne(c + n);
      Pow2Monotone(c + n, 32);
      BitMask(c + n, i);
      BitNot(Pow2(c + n) - 1, 32, i);
      BitOr(Pow2(c) - 1, Not(Pow2(c + n) - 1, 32), i);
    }
  }

  /** The bits of t with the bits of x or-ed over them. */
  function Spilled(t: seq<bool>, x: nat): (s: seq<bool>)
    ensures |s| == |t|
  {
    if t == [] then [] else [t[0] || x % 2 == 1] + Spilled(t[1..], x / 2)
  }

  lemma {:induction false} SpilledBits(t: seq<bool>, x: nat)
    ensures forall i | 0 <= i < |t| :: Spilled(t, x)[i] == (t[i] || Bit(x, i))
  {
    if t != [] {
      SpilledBits(t[1..], x / 2);
    }
  }

  lemma {:induction false} NothingSpilled(t: seq<bool>)
    ensures Spilled(t, 0) == t
  {
    if t != [] {
      NothingSpilled(t[1..]);
    }
  }

  /** The n low bits of v stored from bit c of the dword s, and what of v lies above or-ed in. */
  function Merged(s: seq<bool>, c: nat, n: nat, v: nat): (r: seq<bool>)
    requires c <= |s|
    ensures |r| == |s|
  {
    var m := if c + n <= |s| then n else |s| - c;
    s[..c] + Low(v, m) + Spilled(s[c + m..], Shr(v, m))
  }

  lemma MergedBit(s: seq<bool>, c: nat, n: nat, v: nat, i: nat)
    requires |s| == 32 && c < 32 && i < 32
    ensures Merged(s, c, n, v)[i] ==
      if i < c then s[i] else if i < c + n then Bit(v, i - c) else s[i] || Bit(v, i - c)
  {
    hide Bit, Low, Spilled, Shr;
    var m := if c + n <= 32 then n else 32 - c;
    LowIsBits(v, m);
    SpilledBits(s[c + m..], Shr(v, m));
    if c + m <= i {
      BitShr(v, m, i - c - m);
    }
  }

  lemma MaskedBit(s: seq<bool>, c: nat, n: nat, v: nat, i: nat)
    requires |s| == 32 && c < 32 && i < 32
    ensures Bit(Or(And(Value(s), WriteMask(c, n)), Trunc(Shl(v, c), 32)), i) ==
      if i < c then s[i] else if i < c + n then Bit(v, i - c) else s[i] || Bit(v, i - c)
  {
    hide Or, And, Value, Trunc, Shl, WriteMask, Bit, Low;
    BitOr(And(Value(s), WriteMask(c, n)), Trunc(Shl(v, c), 32), i);
    BitAnd(Value(s), WriteMask(c, n), i);
    BitWriteMask(c, n, i);
    BitTrunc(Shl(v, c), 32, i);
    BitShl(v, c, i);
    LowOfValue(s);
    LowIsBits(Value(s), 32);
  }

  /** `dword & g_BitWriteMasks[c][n] | v << c` */
  lemma MergeDWord(s: seq<bool>, c: nat, n: nat, v: nat)
    requires |s| == 32 && c < 32
    ensures Low(Or(And(Value(s), WriteMask(c, n)), Trunc(Shl(v, c), 32)), 32) == Merged(s, c, n, v)
  {
    hide Or, And, Value, Trunc, Shl, WriteMask, Bit, Low, Merged;
    var word := Or(And(Value(s), WriteMask(c, n)), Trunc(Shl(v, c), 32));
    LowIsBits(word, 32);
    forall i | 0 <= i < 32 ensures Low(word, 32)[i] == Merged(s, c, n, v)[i] {
      MergedBit(s, c, n, v, i);
      MaskedBit(s, c, n, v, i);
    }
  }

  // ----- the whole buffer

  /** Where the last dword that a write of n bits at bit cur touches ends. */
  function TouchedEnd(cur: nat, n: nat): nat {
    32 * (cur / 32 + if cur % 32 + n > 32 then 2 else 1)
  }

  /** The buffer after writing n bits of v at bit cur: the rest of v spills behind them. */
  function Spliced(bits: seq<bool>, cur: nat, v: nat, n: nat): seq<bool>
    requires n <= 32 && cur + n <= TouchedEnd(cur, n) <= |bits|
  {
    var end := TouchedEnd(cur, n);
    bits[..cur] + Low(v, n) + Spilled(bits[cur + n..end], Shr(v, n)) + bits[end..]
  }

  lemma SplicedPrefix(bits: seq<bool>, cur: nat, v: nat, n: nat)
    requires n <= 32 && cur + n <= TouchedEnd(cur, n) <= |bits|
    ensures |Spliced(bits, cur, v, n)| == |bits|
    ensures Spliced(bits, cur, v, n)[..cur + n] == bits[..cur] + Low(v, n)
  {
    hide Low, Spilled, Shr;
  }

  /** Every bit of the buffer after writing n bits of v: what v has above them is or-ed up to the dword's end. */
  lemma SplicedBits(bits: seq<bool>, cur: nat, v: nat, n: nat, i: nat)
    requires n <= 32 && i < |bits|
    requires cur + n <= 32 * ((cur % 32 + n + 31) / 32 + cur / 32) <= |bits| && cur % 32 + n > 0
    ensures cur + n <= TouchedEnd(cur, n) <= |bits|
    ensures Spliced(bits, cur, v, n)[i] ==
      if i < cur then bits[i]
      else if i < cur + n then Bit(v, i - cur)
      else if i < 32 * ((cur % 32 + n + 31) / 32 + cur / 32) then bits[i] || Bit(v, i - cur)
      else bits[i]
  {
    hide Low, Spilled, Shr, Bit;
    var end := TouchedEnd(cur, n);
    LowIsBits(v, n);
    SpilledBits(bits[cur + n..end], Shr(v, n));
    if cur + n <= i < end {
      BitShr(v, n, i - cur - n);
    }
  }

  /** A number that fits its width changes nothing behind its bits. */
  lemma FittingWriteIsExact(bits: seq<bool>, cur: nat, v: nat, n: nat)
    requires n <= 32 && cur + n <= TouchedEnd(cur, n) <= |bits| && v < Pow2(n)
    ensures Spliced(bits, cur, v, n) == bits[..cur] + Low(v, n) + bits[cur + n..]
  {
    hide Low, Spilled, Shr;
    ShrSmall(v, n);
    NothingSpilled(bits[cur + n..TouchedEnd(cur, n)]);
  }

  /** Storing one merged dword. */
  function StoredDWord(bits: seq<bool>, i: nat, c: nat, n: nat, v: nat): (r: seq<bool>)
    requires 32 * i + 32 <= |bits| && c < 32
    ensures |r| == |bits|
  {
    bits[..32 * i] + Merged(bits[32 * i..32 * i + 32], c, n, v) + bits[32 * i + 32..]
  }

  lemma SpliceOne(bits: seq<bool>, cur: nat, v: nat, n: nat)
    requires cur % 32 + n <= 32 && 32 * (cur / 32) + 32 <= |bits|
    ensures Spliced(bits, cur, v, n) == StoredDWord(bits, cur / 32, cur % 32, n, v)
  {
    hide Low, Spilled, Shr;
    var i, c := cur / 32, cur % 32;
    var s := bits[32 * i..32 * i + 32];
    assert s[c + n..] == bits[cur + n..TouchedEnd(cur, n)];
    assert bits[..32 * i] + s[..c] == bits[..cur];
  }

  lemma SpliceTwo(bits: seq<bool>, cur: nat, v: nat, n: nat)
    requires n <= 32 < cur % 32 + n && 32 * (cur / 32) + 64 <= |bits|
    ensures var k := 32 - cur % 32;
      Spliced(bits, cur, v, n)
      == StoredDWord(StoredDWord(bits, cur / 32, cur % 32, n, v), cur / 32 + 1, 0, n - k, Shr(v, k))
  {
    hide Low, Spilled, Shr;
    var i, c, k := cur / 32, cur % 32, 32 - cur % 32;
    var s := bits[32 * i..32 * i + 32];
    assert s[32..] == [] && Spilled([], Shr(v, k)) == [];
    var first := StoredDWord(bits, i, c, n, v);
    assert first == bits[..cur] + Low(v, k) + bits[32 * i + 32..] by {
      assert bits[..32 * i] + s[..c] == bits[..cur];
    }
    var t := bits[32 * i + 32..32 * i + 64];
    assert first[32 * (i + 1)..32 * (i + 1) + 32] == t;
    assert first[..32 * (i + 1)] == bits[..cur] + Low(v, k);
    assert first[32 * (i + 1) + 32..] == bits[32 * i + 64..];
    LowSplit(v, k, n - k);
    ShrTwice(v, k, n - k);
    assert t[n - k..] == bits[cur + n..TouchedEnd(cur, n)];
  }

  /** Replacing bytes replaces their bits. */
  lemma ReplaceStream(bs: seq<byte>, o: nat, more: seq<byte>)
    requires o + |more| <= |bs|
    ensures StreamOf(bs[..o] + more + bs[o + |more|..])
         == StreamOf(bs)[..8 * o] + StreamOf(more) + StreamOf(bs)[8 * (o + |more|)..]
  {
    hide StreamOf, Low;
    PrefixStream(bs, o);
    SuffixStream(bs, o + |more|);
    AppendThree(bs[..o], more, bs[o + |more|..]);
  }

  lemma AppendThree(a: seq<byte>, b: seq<byte>, c: seq<byte>)
    ensures StreamOf(a + b + c) == StreamOf(a) + StreamOf(b) + StreamOf(c)
  {
    hide StreamOf, Low;
    StreamOfAppend(a + b, c);
    StreamOfAppend(a, b);
  }

  lemma SizesOf(x: nat)
    requires x < Pow2(32)
    ensures VarInt.Size(x) == if x < 0x80 then 1 else if x < 0x4000 then 2 else if x < 0x20_0000 then 3
        else if x < 0x1000_0000 then 4 else 5
    ensures VarInt.Septet(x, 0) == x % 128 && VarInt.Septet(x, 1) == Shr(x, 7) % 128
    ensures VarInt.Septet(x, 2) == Shr(x, 14) % 128 && VarInt.Septet(x, 3) == Shr(x, 21) % 128
    ensures VarInt.Septet(x, 4) == Shr(x, 28) % 128
    ensures x >= 0x1000_0000 ==> Trunc(Shr(x, 28), 8) == Shr(x, 28) < 128
  {
    hide VarInt.Size, Shr, Trunc, Pow2;
    Pow2Values();
    Pow2Add(7, 7);
    Pow2Add(14, 7);
    VarInt.SizeIs(x, 1);
    VarInt.SizeIs(x, 2);
    VarInt.SizeIs(x, 3);
    VarInt.SizeIs(x, 4);
    VarInt.SizeLimits(x);
    ShrIsDiv(x, 0);
    assert Pow2(0) == 1 by { Pow2Double(0); }
    ShrIsDiv(x, 28);
    TruncSmall(Shr(x, 28), 8);
  }

  lemma Char32(ch: int)
    requires Fits(ch, 8)
    ensures Fits(ch, 32) && SignedCode(ch, 8) == Text.CharCode(ch)
  {
    hide Low, Pow2, SignedCode;
    Pow2Values();
    SignedCodeIsTwosComplement(ch, 8);
  }

  /** A little-endian chunk of the input is the next bits of the input. */
  lemma InputChunk(bs: seq<byte>, k: nat, n: nat)
    requires k + n <= |bs|
    ensures Low(LittleEndian(bs[k..k + n]), 8 * n) == StreamOf(bs)[8 * k..8 * k + 8 * n]
  {
    hide StreamOf, Low, LittleEndian, Value;
    ValueOfStream(bs[k..k + n]);
    LowOfValue(StreamOf(bs[k..k + n]));
    StreamOfSlice(bs, k, k + n);
  }

  lemma LastByte(bs: seq<byte>, k: nat, n: nat)
    requires k < |bs| && n <= 8
    ensures Low(bs[k], n) == StreamOf(bs)[8 * k..8 * k + n]
  {
    hide StreamOf, Low;
    StreamOfSlice(bs, k, k + 1);
    ByteStreamOf(bs[k]);
    assert bs[k..k + 1] == [bs[k]];
    LowSplit(bs[k], n, 8 - n);
    assert StreamOf(bs)[8 * k..8 * k + 8][..n] == StreamOf(bs)[8 * k..8 * k + n];
  }

  /** The n bits behind the first done ones. */
  lemma TakenBits(start: Cursor, done: nat, n: nat)
    requires start.Valid() && start.Has(done + n)
    ensures Low(start.Advance(done).Taken(n), n) == start.stream[start.pos + done..start.pos + done + n]
  {
    hide Low, Value;
    LowOfValue(start.stream[start.pos + done..start.pos + done + n]);
  }

  /** `outWord &= g_BitWriteMasks[r][32]` keeps the r low bits of the dword. */
  lemma KeepLow(bits: seq<bool>, iDWord: nat, r: nat)
    requires 32 * iDWord + 32 <= |bits| && r < 32
    ensures var w := And(Value(bits[32 * iDWord..32 * iDWord + 32]), WriteMask(r, 32));
      w < Pow2(r) && Low(w, r) == bits[32 * iDWord..32 * iDWord + r]
  {
    hide And, Value, Low, Trunc, Shl, Pow2;
    var s := bits[32 * iDWord..32 * iDWord + 32];
    ShlOne(r);
    AndMask(Value(s), r);
    ValueSplit(s, r);
    LowOfValue(s[..r]);
    ValueBound(s[..r]);
    assert s[..r] == bits[32 * iDWord..32 * iDWord + r];
  }

  /** `outWord |= curData << r`, and what is carried into the next dword. */
  lemma JoinWords(o: nat, d: nat, r: nat)
    requires r < 32 && o < Pow2(r) && d < Pow2(32)
    ensures Low(Or(o, Trunc(Shl(d, r), 32)), 32) == Low(o, r) + Low(d, 32 - r)
    ensures Low(d, 32) == Low(d, 32 - r) + Low(Shr(d, 32 - r), r)
    ensures Shr(d, 32 - r) < Pow2(r)
  {
    hide Or, Low, Trunc, Shl, Shr, Pow2;
    Pow2Monotone(r, 32);
    OrDisjoint(o, d, r);
    VarInt.TruncOr(o, Shl(d, r), 32);
    TruncSmall(o, 32);
    LowOfTrunc(o + Shl(d, r), 32, 32);
    LowOfSum(o, d, r, 32 - r);
    LowSplit(d, 32 - r, r);
    ShrBound(d, 32 - r, r);
  }

  /** `(data & 0x7F) | 0x80` */
  lemma SeptetByte(d: nat)
    ensures And(d, 0x7F) == d % 128 && Or(And(d, 0x7F), 0x80) == d % 128 + 128
  {
    hide And, Or, Pow2;
    Pow2Values();
    AndMask(d, 7);
    TruncIsMod(d, 7);
    ShlOne(7);
    OrDisjoint(d % 128, 1, 7);
  }

  /** The first k groups of x stand at byte t, each with its high bit set. */
  ghost predicate Septets(was: seq<byte>, now: seq<byte>, t: nat, x: nat, k: nat) {
    && |now| == |was| && t + k <= |was|
    && now[..t] == was[..t] && now[t + k..] == was[t + k..]
    && forall i | 0 <= i < k :: now[t + i] == VarInt.Septet(x, i) + 128
  }

  /** Groups k to n - 1 of x stand at byte t with their high bits set; nothing else has changed. */
  ghost predicate UpperSeptets(was: seq<byte>, now: seq<byte>, t: nat, x: nat, k: nat, n: nat) {
    && |now| == |was| && k <= n && t + n <= |was|
    && now[..t + k] == was[..t + k] && now[t + n..] == was[t + n..]
    && forall i | k <= i < n :: now[t + i] == VarInt.Septet(x, i) + 128
  }

  lemma UpperToAll(was: seq<byte>, now: seq<byte>, t: nat, x: nat, n: nat)
    requires UpperSeptets(was, now, t, x, 0, n)
    ensures Septets(was, now, t, x, n)
  {
  }

  lemma NoUpper(was: seq<byte>, t: nat, x: nat, n: nat)
    requires t + n <= |was|
    ensures UpperSeptets(was, was, t, x, n, n)
  {
  }

  lemma NoSeptets(was: seq<byte>, t: nat, x: nat)
    requires t <= |was|
    ensures Septets(was, was, t, x, 0)
  {
  }

  /** All groups, the last one without its high bit, are the code. */
  lemma SeptetsAreCode(was: seq<byte>, now: seq<byte>, t: nat, x: nat, n: nat)
    requires n == VarInt.Size(x) && |now| == |was| && t + n <= |was|
    requires now[..t] == was[..t] && now[t + n..] == was[t + n..]
    requires forall i | 0 <= i < n - 1 :: now[t + i] == VarInt.Septet(x, i) + 128
    requires now[t + n - 1] == VarInt.Septet(x, n - 1)
    ensures now == was[..t] + VarInt.Bytes(x) + was[t + n..]
  {
    hide VarInt.Bytes, VarInt.Size, VarInt.Septet;
    forall i | 0 <= i < n ensures now[t + i] == VarInt.Bytes(x)[i] {
      VarInt.ByteAt(x, i);
    }
    assert now[t..t + n] == VarInt.Bytes(x);
    assert now == now[..t] + now[t..t + n] + now[t + n..];
  }

  class BitWrite {
    var data: array<byte>   // m_pData
    var dataBytes: nat      // m_nDataBytes
    var dataBits: nat       // m_nDataBits
    var curBit: nat         // m_iCurBit
    var overflow: bool      // m_bOverflow
    ghost var bits: seq<bool>  // the bits of the buffer

    constructor (pData: array<byte>, nBytes: nat, nMaxBits: int)
      requires nBytes <= pData.Length && -1 <= nMaxBits <= 32 * (nBytes / 4)
      ensures Valid() && !overflow && curBit == 0
      ensures data == pData && dataBytes == nBytes / 4 * 4 && bits == StreamOf(pData[..dataBytes])
      ensures dataBits == if nMaxBits == -1 then 8 * dataBytes else nMaxBits
    {
      hide StreamOf;
      data := pData;
      new;
      StartWriting(pData, nBytes, 0, nMaxBits);
    }

    ghost predicate Valid()
      reads this, data
    {
      && dataBytes <= data.Length && dataBytes % 4 == 0
      && dataBits <= 8 * dataBytes == |bits|
      && bits == StreamOf(data[..dataBytes])
    }

    /** WriteUBitLong asserts that the dword at the write position is in the buffer. */
    ghost predicate HasDWord(n: nat)
      reads this
    {
      curBit + n <= dataBits ==> curBit < |bits|
    }

    /** The code has been appended behind the cur bits that were written before. */
    ghost predicate Appended(before: seq<bool>, cur: nat, code: seq<bool>)
      reads this
    {
      && |before| == |bits| && curBit == cur + |code| <= |bits|
      && bits[..curBit] == before[..cur] + code
    }

    /** What was written before is still there, whether or not a later write overflowed. */
    ghost predicate Kept(before: seq<bool>, cur: nat)
      reads this
    {
      && |bits| == |before|
      && (cur <= dataBits ==> cur <= curBit <= dataBits && (curBit <= |bits| ==> bits[..cur] == before[..cur]))
    }

    lemma AppendedKeeps(before: seq<bool>, cur: nat, code: seq<bool>)
      requires Appended(before, cur, code) && (cur <= dataBits ==> curBit <= dataBits)
      ensures Kept(before, cur)
    {
      assert bits[..cur] == bits[..curBit][..cur];
    }

    /**
     Starts writing into the first nBytes bytes of pData. Bytes that do not fill a dword, which the
     source asserts that there are none of, are cut off.
     */
    method StartWriting(pData: array<byte>, nBytes: nat, iStartBit: nat, nBits: int)
      requires nBytes <= pData.Length && -1 <= nBits <= 32 * (nBytes / 4)
      modifies this
      ensures Valid() && !overflow && curBit == iStartBit
      ensures data == pData && dataBytes == nBytes / 4 * 4 && bits == StreamOf(pData[..dataBytes])
      ensures dataBits == if nBits == -1 then 8 * dataBytes else nBits
    {
      hide StreamOf;
      data := pData;
      dataBytes := nBytes / 4 * 4;
      dataBits := if nBits == -1 then 8 * dataBytes else nBits;
      curBit := iStartBit;
      overflow := false;
      bits := StreamOf(pData[..dataBytes]);
    }

    method CheckForOverflow(nBits: nat) returns (overflowed: bool)
      modifies this`overflow
      ensures overflow == overflowed == (old(overflow) || curBit + nBits > dataBits)
    {
      if curBit + nBits > dataBits {
        overflow := true;
      }
      overflowed := overflow;
    }

    method WriteOneBitNoCheck(nValue: int)
      requires Valid() && curBit < |bits|
      modifies data, this`curBit, this`bits
      ensures Valid() && curBit == old(curBit) + 1
      ensures bits == old(bits)[old(curBit) := nValue != 0]
    {
      hide StreamOf, PutBit;
      StoreBit(curBit, nValue);
      curBit := curBit + 1;
    }

    method StoreBit(iBit: nat, nValue: int)
      requires Valid() && iBit < |bits|
      modifies data, this`bits
      ensures Valid()
      ensures bits == old(bits)[iBit := nValue != 0]
    {
      hide StreamOf, PutBit;
      ghost var bs := data[..dataBytes];
      PutBitIs(data[iBit / 8], iBit % 8, nValue != 0);
      var b := PutBit(data[iBit / 8], iBit % 8, nValue != 0);
      StreamOfUpdate(bs, iBit, nValue != 0, b);
      data[iBit / 8] := b;
      assert data[..dataBytes] == bs[iBit / 8 := b];
      bits := bits[iBit := nValue != 0];
    }

    method WriteOneBit(nValue: int)
      requires Valid()
      modifies data, this`curBit, this`overflow, this`bits
      ensures Valid()
      ensures overflow == (old(overflow) || old(curBit) + 1 > dataBits)
      ensures if overflow then bits == old(bits) && curBit == old(curBit)
        else curBit == old(curBit) + 1 && bits == old(bits)[old(curBit) := nValue != 0]
    {
      var full := CheckForOverflow(1);
      if !full {
        WriteOneBitNoCheck(nValue);
      }
    }

    method WriteOneBitAt(iBit: nat, nValue: int)
      requires Valid()
      modifies data, this`overflow, this`bits
      ensures Valid()
      ensures overflow == (old(overflow) || iBit + 1 > dataBits)
      ensures bits == if iBit < dataBits then old(bits)[iBit := nValue != 0] else old(bits)
    {
      if iBit + 1 > dataBits {
        overflow := true;
        return;
      }
      StoreBit(iBit, nValue);
    }

    /** LoadLittleDWord */
    method LoadDWord(iDWord: nat) returns (dword: nat)
      requires Valid() && 32 * iDWord + 32 <= |bits|
      ensures dword == Value(bits[32 * iDWord..32 * iDWord + 32])
    {
      hide StreamOf, Value, LittleEndian, Pow2;
      ghost var bs := data[..dataBytes];
      DWordIsStream(bs, 4 * iDWord);
      assert bs[4 * iDWord..4 * iDWord + 4] == data[4 * iDWord..4 * iDWord + 4];
      dword := LittleEndian(data[4 * iDWord..4 * iDWord + 4]);
    }

    /** Stores whole bytes, as memcpy does. */
    method StoreBytes(at: nat, stored: seq<byte>)
      requires Valid() && at + |stored| <= dataBytes
      modifies data, this`bits
      ensures Valid()
      ensures bits == old(bits)[..8 * at] + StreamOf(stored) + old(bits)[8 * (at + |stored|)..]
    {
      hide StreamOf, Low;
      ghost var bs := data[..dataBytes];
      ReplaceStream(bs, at, stored);
      forall i | 0 <= i < |stored| {
        data[at + i] := stored[i];
      }
      assert data[..dataBytes] == bs[..at] + stored + bs[at + |stored|..];
      bits := bits[..8 * at] + StreamOf(stored) + bits[8 * (at + |stored|)..];
    }

    /** StoreLittleDWord */
    method StoreDWord(iDWord: nat, dword: nat)
      requires Valid() && 32 * iDWord + 32 <= |bits|
      modifies data, this`bits
      ensures Valid()
      ensures bits == old(bits)[..32 * iDWord] + Low(dword, 32) + old(bits)[32 * iDWord + 32..]
    {
      hide StreamOf, Low, BytesOf;
      StreamOfBytes(dword, 4);
      StoreBytes(4 * iDWord, BytesOf(dword, 4));
    }

    /** Masks nBitsLeft bits of curData into dword iDWord from bit c on. */
    method MergeIntoDWord(iDWord: nat, c: nat, nBitsLeft: nat, curData: nat)
      requires Valid() && 32 * iDWord + 32 <= |bits| && c < 32
      modifies data, this`bits
      ensures Valid()
      ensures bits == StoredDWord(old(bits), iDWord, c, nBitsLeft, curData)
    {
      hide StreamOf, Value, Or, And, Trunc, Shl, WriteMask, Low, Merged;
      var dword := LoadDWord(iDWord);
      MergeDWord(bits[32 * iDWord..32 * iDWord + 32], c, nBitsLeft, curData);
      dword := And(dword, WriteMask(c, nBitsLeft));
      dword := Or(dword, Trunc(Shl(curData, c), 32));
      StoreDWord(iDWord, dword);
    }

    /** Writes the low numbits bits of curData, or nothing when they do not fit. */
    method WriteUBitLong(curData: nat, numbits: nat)
      requires Valid() && numbits <= 32 && HasDWord(numbits)
      modifies data, this`curBit, this`overflow, this`bits
      ensures Valid()
      ensures old(curBit) + numbits > dataBits ==> overflow && curBit == dataBits && bits == old(bits)
      ensures old(curBit) + numbits <= dataBits ==>
        && overflow == old(overflow) && curBit == old(curBit) + numbits
        && bits == Spliced(old(bits), old(curBit), curData, numbits)
        && Appended(old(bits), old(curBit), Low(curData, numbits))
      ensures Kept(old(bits), old(curBit))
    {
      hide StreamOf, Merged, Spliced, StoredDWord, Shr, Low;
      if curBit + numbits > dataBits {
        curBit := dataBits;
        overflow := true;
        return;
      }
      var nBitsLeft := numbits;
      var iDWord := curBit / 32;
      var curBitMasked := curBit % 32;
      MergeIntoDWord(iDWord, curBitMasked, nBitsLeft, curData);
      var nBitsWritten := 32 - curBitMasked;
      if nBitsWritten < nBitsLeft {
        SpliceTwo(old(bits), curBit, curData, numbits);
        nBitsLeft := nBitsLeft - nBitsWritten;
        MergeIntoDWord(iDWord + 1, 0, nBitsLeft, Shr(curData, nBitsWritten));
      } else {
        SpliceOne(old(bits), curBit, curData, numbits);
      }
      SplicedPrefix(old(bits), curBit, curData, numbits);
      curBit := curBit + numbits;
      AppendedKeeps(old(bits), old(curBit), Low(curData, numbits));
    }

    /** Magnitude bits first, then the sign; any field that fits is read back by ReadSBitLong. */
    method WriteSBitLong(n: int, numbits: nat)
      requires Valid() && Fits(n, 32) && 1 <= numbits <= 32 && HasDWord(numbits - 1)
      modifies data, this`curBit, this`overflow, this`bits
      ensures Valid()
      ensures overflow == (old(overflow) || old(curBit) + numbits > dataBits)
      ensures Kept(old(bits), old(curBit))
      ensures !overflow ==> Appended(old(bits), old(curBit), SignedCode(n, numbits))
    {
      hide Spliced, Low, StreamOf, Pow2;
      Pow2Values();
      if n < 0 {
        WriteUBitLong(0x8000_0000 + n, numbits - 1);
        WriteOneBit(1);
      } else {
        WriteUBitLong(n, numbits - 1);
        WriteOneBit(0);
      }
    }

    /** The branch-free form; what its first write spills is overwritten by the second. */
    method WriteUBitVar(d: nat)
      requires Valid() && d < Pow2(32)
      modifies data, this`curBit, this`overflow, this`bits
      ensures Valid()
      ensures old(curBit) + |UBitVar.Code(d)| <= dataBits ==>
        overflow == old(overflow) && Appended(old(bits), old(curBit), UBitVar.Code(d))
      ensures old(curBit) + |UBitVar.Code(d)| > dataBits ==> overflow && curBit == dataBits
      ensures Kept(old(bits), old(curBit))
    {
      hide Spliced, Shr, Low, UBitVar.Code, Trunc, Pow2, StreamOf;
      UBitVar.BranchFreeIsReference(d);
      var n := (if d < 0x10 then -1 else 0) + (if d < 0x100 then -1 else 0) + (if d < 0x1000 then -1 else 0);
      WriteUBitLong(Trunc(d * 4 + n + 3, 32), 6 + n * 4 + 12);
      if d >= 0x1000 {
        WriteUBitLong(Shr(d, 16), 16);
      }
    }

    /** `target[k] = (uint8_t)(y | 0x80)`, with target at byte t */
    method PutSeptet(t: nat, k: nat, y: nat, ghost was: seq<byte>, ghost x: nat)
      requires t + k < dataBytes <= data.Length && Septets(was, data[..dataBytes], t, x, k)
      requires y % 128 == VarInt.Septet(x, k)
      modifies data
      ensures Septets(was, data[..dataBytes], t, x, k + 1)
    {
      hide Trunc, Or, VarInt.Septet;
      VarInt.HighBitSet(y);
      assert was[t + k + 1..] == was[t + k..][1..];
      data[t + k] := Trunc(Or(y, 0x80), 8);
    }

    /** `target[k - 1] &= 0x7F` and moving behind the k bytes */
    method FinishVarInt(t: nat, k: nat, ghost was: seq<byte>, ghost x: nat)
      requires dataBytes <= data.Length
      requires k == VarInt.Size(x) && Septets(was, data[..dataBytes], t, x, k)
      requires dataBytes == |was| && bits == StreamOf(was) && curBit == 8 * t
      modifies data, this`curBit, this`bits
      ensures curBit == 8 * (t + k) <= |bits| && bits == StreamOf(data[..dataBytes])
      ensures bits == old(bits)[..8 * t] + VarInt.Code(x) + old(bits)[curBit..]
    {
      hide And, StreamOf, VarInt.Bytes, VarInt.Code, VarInt.Septet, VarInt.Size;
      ghost var now := data[..dataBytes];
      Pow2Values();
      AndMask(data[t + k - 1], 7);
      TruncIsMod(data[t + k - 1], 7);
      data[t + k - 1] := And(data[t + k - 1], 0x7F);
      SeptetsAreCode(was, data[..dataBytes], t, x, k);
      StoredVarInt(t, k, was, x);
    }

    /** `target[k - 1] = (uint8_t)y` for the fifth byte of a 32-bit number */
    method PutLast(t: nat, k: nat, y: nat, ghost was: seq<byte>, ghost x: nat)
      requires dataBytes <= data.Length
      requires k == VarInt.Size(x) >= 1 && t + k <= |was| && Septets(was, data[..dataBytes], t, x, k - 1)
      requires y == VarInt.Septet(x, k - 1)
      requires dataBytes == |was| && bits == StreamOf(was) && curBit == 8 * t
      modifies data, this`curBit, this`bits
      ensures curBit == 8 * (t + k) <= |bits| && bits == StreamOf(data[..dataBytes])
      ensures bits == old(bits)[..8 * t] + VarInt.Code(x) + old(bits)[curBit..]
    {
      hide And, StreamOf, VarInt.Bytes, VarInt.Code, VarInt.Septet, VarInt.Size, Trunc;
      Pow2Values();
      TruncSmall(y, 8);
      assert was[t + k..] == was[t + k - 1..][1..];
      data[t + k - 1] := Trunc(y, 8);
      SeptetsAreCode(was, data[..dataBytes], t, x, k);
      StoredVarInt(t, k, was, x);
    }

    /** The bytes of x stand at byte t; the write position moves behind them. */
    method StoredVarInt(t: nat, k: nat, ghost was: seq<byte>, ghost x: nat)
      requires dataBytes <= data.Length
      requires k == VarInt.Size(x) && t + k <= |was|
      requires data[..dataBytes] == was[..t] + VarInt.Bytes(x) + was[t + k..]
      requires dataBytes == |was| && bits == StreamOf(was) && curBit == 8 * t
      modifies this`curBit, this`bits
      ensures curBit == 8 * (t + k) <= |bits| && bits == StreamOf(data[..dataBytes])
      ensures bits == old(bits)[..8 * t] + VarInt.Code(x) + old(bits)[curBit..]
    {
      hide StreamOf, VarInt.Bytes, VarInt.Code, VarInt.Size;
      ReplaceStream(was, t, VarInt.Bytes(x));
      VarInt.StreamOfCode(x);
      curBit := curBit + k * 8;
      bits := StreamOf(was)[..8 * t] + VarInt.Code(x) + StreamOf(was)[curBit..];
    }

    /** The aligned path of WriteVarInt32: bytes stored directly, as many as the number needs. */
    method StoreVarInt32(x: nat)
      requires Valid() && curBit % 8 == 0 && curBit + 40 <= dataBits && x < Pow2(32)
      modifies data, this`curBit, this`bits
      ensures Valid() && curBit == old(curBit) + |VarInt.Code(x)| <= |bits|
      ensures bits == old(bits)[..old(curBit)] + VarInt.Code(x) + old(bits)[curBit..]
    {
      hide StreamOf, VarInt.Code, VarInt.Size, Trunc, Or, And, Shr, Pow2, Septets, VarInt.Septet;
      var t := curBit / 8;
      ghost var was := data[..dataBytes];
      SizesOf(x);
      NoSeptets(was, t, x);
      PutSeptet(t, 0, x, was, x);
      if x >= 0x80 {
        PutSeptet(t, 1, Shr(x, 7), was, x);
        if x >= 0x4000 {
          PutSeptet(t, 2, Shr(x, 14), was, x);
          if x >= 0x20_0000 {
            PutSeptet(t, 3, Shr(x, 21), was, x);
            if x >= 0x1000_0000 {
              PutLast(t, 5, Shr(x, 28), was, x);
            } else {
              FinishVarInt(t, 4, was, x);
            }
          } else {
            FinishVarInt(t, 3, was, x);
          }
        } else {
          FinishVarInt(t, 2, was, x);
        }
      } else {
        FinishVarInt(t, 1, was, x);
      }
    }

    /** The label sizeK of WriteVarInt64, with K = k + 1: reached by every number of more than k bytes. */
    method PutFromTop(t: nat, k: nat, y: nat, size: nat, ghost was: seq<byte>, ghost x: nat)
      requires dataBytes <= data.Length
      requires UpperSeptets(was, data[..dataBytes], t, x, if k + 1 < size then k + 1 else size, size)
      requires y % 128 == VarInt.Septet(x, k)
      modifies data
      ensures UpperSeptets(was, data[..dataBytes], t, x, if k < size then k else size, size)
    {
      hide Trunc, Or, VarInt.Septet;
      if k < size {
        VarInt.HighBitSet(y);
        data[t + k] := Trunc(Or(y, 0x80), 8);
        assert was[..t + k] == was[..t + k + 1][..t + k];
      }
    }

    /** The aligned path of WriteVarInt64: three 32-bit parts, a size search, bytes from the top down. */
    method StoreVarInt64(x: nat)
      requires Valid() && curBit % 8 == 0 && curBit + 80 <= dataBits && x < Pow2(64)
      modifies data, this`curBit, this`bits
      ensures Valid() && curBit == old(curBit) + |VarInt.Code(x)| <= |bits|
      ensures bits == old(bits)[..old(curBit)] + VarInt.Code(x) + old(bits)[curBit..]
    {
      hide StreamOf, VarInt.Code, VarInt.Size, VarInt.Part, VarInt.TreeSize;
      hide VarInt.Septet, Shr, Pow2, Septets, UpperSeptets;
      var t := curBit / 8;
      ghost var was := data[..dataBytes];
      var part0, part1, part2 := VarInt.Part(x, 0), VarInt.Part(x, 1), VarInt.Part(x, 2);
      var size := VarInt.TreeSize(part0, part1, part2);
      VarInt.SearchFindsSize(x);
      VarInt.SizeLimits(x);
      NoUpper(was, t, x, size);
      PutUpperBytes(t, part1, part2, size, was, x);
      VarInt.PartSeptet(x, 0, 3);
      PutFromTop(t, 3, Shr(part0, 21), size, was, x);
      VarInt.PartSeptet(x, 0, 2);
      PutFromTop(t, 2, Shr(part0, 14), size, was, x);
      VarInt.PartSeptet(x, 0, 1);
      PutFromTop(t, 1, Shr(part0, 7), size, was, x);
      VarInt.PartSeptet(x, 0, 0);
      ShrIsDiv(part0, 0);
      VarInt.SevenBitPowers();
      PutFromTop(t, 0, part0, size, was, x);
      UpperToAll(was, data[..dataBytes], t, x, size);
      FinishVarInt(t, size, was, x);
    }

    /** The labels size10 to size5. */
    method PutUpperBytes(t: nat, part1: nat, part2: nat, size: nat, ghost was: seq<byte>, ghost x: nat)
      requires dataBytes <= data.Length
      requires part1 == VarInt.Part(x, 1) && part2 == VarInt.Part(x, 2) && size <= 10
      requires UpperSeptets(was, data[..dataBytes], t, x, size, size)
      modifies data
      ensures UpperSeptets(was, data[..dataBytes], t, x, if 4 < size then 4 else size, size)
    {
      hide VarInt.Part, VarInt.Septet, Shr, Pow2, UpperSeptets;
      VarInt.SevenBitPowers();
      VarInt.PartSeptet(x, 2, 1);
      PutFromTop(t, 9, Shr(part2, 7), size, was, x);
      VarInt.PartSeptet(x, 2, 0);
      ShrIsDiv(part2, 0);
      PutFromTop(t, 8, part2, size, was, x);
      VarInt.PartSeptet(x, 1, 3);
      PutFromTop(t, 7, Shr(part1, 21), size, was, x);
      VarInt.PartSeptet(x, 1, 2);
      PutFromTop(t, 6, Shr(part1, 14), size, was, x);
      VarInt.PartSeptet(x, 1, 1);
      PutFromTop(t, 5, Shr(part1, 7), size, was, x);
      VarInt.PartSeptet(x, 1, 0);
      ShrIsDiv(part1, 0);
      PutFromTop(t, 4, part1, size, was, x);
    }

    /** What a variable-size append leaves behind: all of the code, or an overflow at the end. */
    ghost predicate AppendedOrFull(before: seq<bool>, cur: nat, flag: bool, code: seq<bool>)
      reads this
    {
      && |bits| == |before|
      && if cur + |code| <= dataBits then overflow == flag && Appended(before, cur, code)
         else overflow && curBit == dataBits && Kept(before, cur)
    }

    /** One byte through WriteUBitLong. */
    method PutByte(w: nat, ghost before: seq<bool>, ghost cur: nat, ghost flag: bool, ghost done: seq<bool>)
      requires Valid()
      requires if done == [] then curBit == cur && bits == before && overflow == flag
        else AppendedOrFull(before, cur, flag, done)
      modifies data, this`curBit, this`overflow, this`bits
      ensures Valid() && AppendedOrFull(before, cur, flag, done + Low(w, 8))
    {
      hide StreamOf, Low, Spliced;
      if done != [] && cur + |done| <= dataBits {
        AppendedKeeps(before, cur, done);
      }
      WriteUBitLong(w, 8);
    }

    /** The slow path of WriteVarInt32 and WriteVarInt64. */
    method WriteSeptets(x: nat)
      requires Valid()
      modifies data, this`curBit, this`overflow, this`bits
      ensures Valid() && AppendedOrFull(old(bits), old(curBit), old(overflow), VarInt.Code(x))
    {
      hide StreamOf, Low, And, Or, VarInt.Size, VarInt.Code, AppendedOrFull;
      var d := x;
      ghost var done: seq<bool> := [];
      ghost var before, cur, flag := bits, curBit, overflow;
      while d > 0x7F
        invariant Valid() && VarInt.Code(x) == done + VarInt.Code(d)
        invariant if done == [] then curBit == cur && bits == before && overflow == flag
          else AppendedOrFull(before, cur, flag, done)
      {
        SeptetByte(d);
        VarInt.CodeOne(d);
        PutByte(Or(And(d, 0x7F), 0x80), before, cur, flag, done);
        done := done + Low(d % 128 + 128, 8);
        d := d / 128;
      }
      SeptetByte(d);
      VarInt.CodeOne(d);
      PutByte(And(d, 0x7F), before, cur, flag, done);
    }

    method WriteVarInt32(x: nat)
      requires Valid() && x < Pow2(32)
      modifies data, this`curBit, this`overflow, this`bits
      ensures Valid() && AppendedOrFull(old(bits), old(curBit), old(overflow), VarInt.Code(x))
    {
      hide StreamOf, VarInt.Code, VarInt.Size, Pow2;
      VarInt.SizeLimits(x);
      if curBit % 8 == 0 && curBit + 5 * 8 <= dataBits {
        StoreVarInt32(x);
      } else {
        WriteSeptets(x);
      }
    }

    method WriteVarInt64(x: nat)
      requires Valid() && x < Pow2(64)
      modifies data, this`curBit, this`overflow, this`bits
      ensures Valid() && AppendedOrFull(old(bits), old(curBit), old(overflow), VarInt.Code(x))
    {
      hide StreamOf, VarInt.Code, VarInt.Size, Pow2;
      VarInt.SizeLimits(x);
      if curBit % 8 == 0 && curBit + 10 * 8 <= dataBits {
        StoreVarInt64(x);
      } else {
        WriteSeptets(x);
      }
    }

    method WriteSignedVarInt32(n: int)
      requires Valid() && Fits(n, 32)
      modifies data, this`curBit, this`overflow, this`bits
      ensures Valid() && AppendedOrFull(old(bits), old(curBit), old(overflow), VarInt.Code(Encode(n, 32)))
    {
      hide StreamOf, VarInt.Code, Encode, Pow2;
      EncodeIs(n, 32);
      WriteVarInt32(Encode(n, 32));
    }

    method WriteSignedVarInt64(n: int)
      requires Valid() && Fits(n, 64)
      modifies data, this`curBit, this`overflow, this`bits
      ensures Valid() && AppendedOrFull(old(bits), old(curBit), old(overflow), VarInt.Code(Encode(n, 64)))
    {
      hide StreamOf, VarInt.Code, Encode, Pow2;
      EncodeIs(n, 64);
      WriteVarInt64(Encode(n, 64));
    }

    /** The characters with this code have been written behind the first cur bits. */
    ghost predicate Texted(before: seq<bool>, cur: nat, flag: bool, code: seq<bool>)
      reads this
    {
      && Kept(before, cur)
      && if code == [] then curBit == cur && bits == before && overflow == flag
         else overflow == (flag || cur + |code| > dataBits) && (!overflow ==> Appended(before, cur, code))
    }

    /** WriteChar */
    method WriteChar(ch: int, ghost before: seq<bool>, ghost cur: nat, ghost flag: bool, ghost code: seq<bool>)
      requires Valid() && Texted(before, cur, flag, code) && Fits(ch, 8)
      modifies data, this`curBit, this`overflow, this`bits
      ensures Valid() && Texted(before, cur, flag, code + Text.CharCode(ch))
    {
      hide StreamOf, SignedCode, Pow2, Low;
      Char32(ch);
      WriteSBitLong(ch, 8);
    }

    /** Writes the characters of a string and its terminating zero. */
    method WriteString(text: seq<int>) returns (ok: bool)
      requires Valid() && forall i | 0 <= i < |text| :: Fits(text[i], 8) && text[i] != 0
      modifies data, this`curBit, this`overflow, this`bits
      ensures Valid() && ok == !overflow
      ensures overflow == (old(overflow) || old(curBit) + |Text.Code(text)| > dataBits)
      ensures ok ==> Appended(old(bits), old(curBit), Text.Code(text))
      ensures Kept(old(bits), old(curBit))
    {
      hide StreamOf, Text.CharCode, Text.Code, Pow2, Appended, Kept, Texted;
      var i := 0;
      ghost var before, cur, flag := bits, curBit, overflow;
      ghost var done: seq<bool> := [];
      assert text[0..] == text;
      NoTextYet();
      while true
        invariant Valid() && Texted(before, cur, flag, done) && 0 <= i <= |text|
        invariant Text.Code(text) == done + Text.Code(text[i..])
        decreases |text| - i
      {
        var ch := if i < |text| then text[i] else 0;
        WriteChar(ch, before, cur, flag, done);
        Text.NextCharacter(text, i, done);
        if ch == 0 {
          break;
        }
        done := done + Text.CharCode(ch);
        i := i + 1;
      }
      AllTexted(before, cur, flag, Text.Code(text));
      ok := !overflow;
    }

    lemma NoTextYet()
      requires Valid()
      ensures Texted(bits, curBit, overflow, [])
    {
      hide StreamOf;
    }

    lemma AllTexted(before: seq<bool>, cur: nat, flag: bool, code: seq<bool>)
      requires Texted(before, cur, flag, code) && code != []
      ensures overflow == (flag || cur + |code| > dataBits) && Kept(before, cur)
      ensures !overflow ==> Appended(before, cur, code)
    {
      hide Appended, Kept;
    }

    /** WriteBits has consumed k bytes of its input and has nBitsLeft bits to go. */
    ghost predicate Copying(pIn: array<byte>, before: seq<bool>, cur: nat, flag: bool, k: nat, nBits: nat,
        nBitsLeft: nat)
      reads this, data, pIn
    {
      && Valid() && pIn != data && k <= pIn.Length && 8 * k + nBitsLeft == nBits <= 8 * pIn.Length
      && overflow == flag && cur + nBits <= dataBits
      && Appended(before, cur, StreamOf(pIn[..])[..8 * k])
    }

    /** Bytes and dwords of the input through WriteUBitLong. */
    method CopyChunk(pIn: array<byte>, n: nat, k: nat, nBitsLeft: nat, ghost before: seq<bool>, ghost cur: nat,
        ghost flag: bool, ghost nBits: nat)
      returns (k': nat, nBitsLeft': nat)
      requires Copying(pIn, before, cur, flag, k, nBits, nBitsLeft) && 1 <= n <= 4 && 8 * n <= nBitsLeft
      modifies data, this`curBit, this`overflow, this`bits
      ensures k' == k + n && nBitsLeft' == nBitsLeft - 8 * n
      ensures Copying(pIn, before, cur, flag, k', nBits, nBitsLeft') && dataBits == old(dataBits)
    {
      hide StreamOf, Spliced, Low, LittleEndian;
      InputChunk(pIn[..], k, n);
      assert pIn[..][k..k + n] == pIn[k..k + n];
      WriteUBitLong(LittleEndian(pIn[k..k + n]), 8 * n);
      k', nBitsLeft' := k + n, nBitsLeft - 8 * n;
      Adjacent(StreamOf(pIn[..]), 0, 8 * k, 8 * k + 8 * n);
    }

    /** The block copy for a byte-aligned write position. */
    method CopyBlock(pIn: array<byte>, k: nat, nBitsLeft: nat, ghost before: seq<bool>, ghost cur: nat,
        ghost flag: bool, ghost nBits: nat)
      returns (k': nat, nBitsLeft': nat)
      requires Copying(pIn, before, cur, flag, k, nBits, nBitsLeft) && curBit % 8 == 0
      modifies data, this`curBit, this`bits
      ensures nBitsLeft' == nBitsLeft % 8
      ensures Copying(pIn, before, cur, flag, k', nBits, nBitsLeft')
    {
      hide StreamOf, Kept, Low;
      var numbytes := nBitsLeft / 8;
      var at := curBit / 8;
      assert pIn[k..k + numbytes] == pIn[..][k..k + numbytes];
      StreamOfSlice(pIn[..], k, k + numbytes);
      StoreBytes(at, pIn[k..k + numbytes]);
      BlockStored(old(bits), bits, curBit, before[..cur], StreamOf(pIn[..]), 8 * k, 8 * numbytes);
      k', nBitsLeft' := k + numbytes, nBitsLeft % 8;
      curBit := curBit + 8 * numbytes;
    }

    /** The bits after n more bits of the input have replaced those at the write position. */
    lemma BlockStored(was: seq<bool>, now: seq<bool>, at: nat, start: seq<bool>, input: seq<bool>, k: nat, n: nat)
      requires k + n <= |input| && at + n <= |was| && was[..at] == start + input[..k]
      requires now == was[..at] + input[k..k + n] + was[at + n..]
      ensures now[..at + n] == start + input[..k + n]
    {
      ExtendInput(start, input, k, n);
    }

    lemma ExtendInput(start: seq<bool>, input: seq<bool>, k: nat, n: nat)
      requires k + n <= |input|
      ensures (start + input[..k]) + input[k..k + n] == start + input[..k + n]
    {
    }

    /**
     The dword loop for an unaligned write position: each stored dword joins the bits left over
     from the previous input dword with the low bits of the next one.
     */
    method CopyDWords(pIn: array<byte>, k: nat, nBitsLeft: nat, ghost before: seq<bool>, ghost cur: nat,
        ghost flag: bool, ghost nBits: nat)
      returns (k': nat, nBitsLeft': nat)
      requires Copying(pIn, before, cur, flag, k, nBits, nBitsLeft) && nBitsLeft >= 32 && curBit % 32 != 0
      modifies data, this`curBit, this`bits
      ensures nBitsLeft' <= 63
      ensures Copying(pIn, before, cur, flag, k', nBits, nBitsLeft')
    {
      hide StreamOf, Low, Value, And, WriteMask, Pow2, Joining;
      var iBitsRight := curBit % 32;
      var iBitsLeft := 32 - iBitsRight;
      var iBitsChanging := 32 + iBitsLeft;
      var iDWord: nat := curBit / 32;
      k', nBitsLeft' := k, nBitsLeft;
      var outWord: nat := LoadDWord(iDWord);
      KeepLow(bits, iDWord, iBitsRight);
      outWord := And(outWord, WriteMask(iBitsRight, 32));
      StartJoining(pIn, before, cur, flag, k, nBits, nBitsLeft, iDWord, iBitsRight, outWord);
      while nBitsLeft' >= iBitsChanging
        invariant Joining(pIn, before, cur, flag, k', nBits, nBitsLeft', iDWord, iBitsRight, outWord)
        invariant iBitsLeft <= nBitsLeft' && dataBits == old(dataBits)
        decreases nBitsLeft'
      {
        outWord := JoinDWord(pIn, before, cur, flag, k', nBits, nBitsLeft', iDWord, iBitsRight, outWord);
        iDWord := iDWord + 1;
        k' := k' + 4;
        nBitsLeft' := nBitsLeft' - 32;
      }
      FinishJoining(pIn, before, cur, flag, k', nBits, nBitsLeft', iDWord, iBitsRight, outWord);
    }

    /**
     In the dword loop the r low bits of outWord stand for the bits that belong at the start of
     dword i; everything before that dword is in place.
     */
    ghost predicate Joining(pIn: array<byte>, before: seq<bool>, cur: nat, flag: bool, k: nat, nBits: nat,
        nBitsLeft: nat,
        i: nat, r: nat, outWord: nat)
      reads this, data, pIn
    {
      && Valid() && pIn != data && k <= pIn.Length && 8 * k + nBitsLeft == nBits <= 8 * pIn.Length
      && overflow == flag && cur + nBits <= dataBits && |bits| == |before|
      && 0 < r < 32 && curBit == 32 * i + r == cur + 8 * k && outWord < Pow2(r)
      && bits[..32 * i] + Low(outWord, r) == before[..cur] + StreamOf(pIn[..])[..8 * k]
    }

    lemma StartJoining(pIn: array<byte>, before: seq<bool>, cur: nat, flag: bool, k: nat, nBits: nat, nBitsLeft: nat,
        i: nat, r: nat, outWord: nat)
      requires Copying(pIn, before, cur, flag, k, nBits, nBitsLeft) && nBitsLeft >= 32
      requires r == curBit % 32 > 0 && i == curBit / 32 && outWord < Pow2(r)
      requires 32 * i + 32 <= |bits| && Low(outWord, r) == bits[32 * i..32 * i + r]
      ensures Joining(pIn, before, cur, flag, k, nBits, nBitsLeft, i, r, outWord)
    {
      hide StreamOf, Low, Pow2;
      Adjacent(bits, 0, 32 * i, 32 * i + r);
    }

    /** `outWord |= curData << iBitsRight`, stored; the rest of curData is carried on. */
    method JoinDWord(pIn: array<byte>, ghost before: seq<bool>, ghost cur: nat, ghost flag: bool, k: nat,
        ghost nBits: nat,
        ghost nBitsLeft: nat, iDWord: nat, iBitsRight: nat, outWord: nat)
      returns (carried: nat)
      requires Joining(pIn, before, cur, flag, k, nBits, nBitsLeft, iDWord, iBitsRight, outWord)
      requires nBitsLeft >= 64 - iBitsRight
      modifies data, this`curBit, this`bits
      ensures Joining(pIn, before, cur, flag, k + 4, nBits, nBitsLeft - 32, iDWord + 1, iBitsRight, carried)
    {
      hide StreamOf, Low, LittleEndian, Or, Trunc, Shl, Shr, Pow2;
      var curData := LittleEndian(pIn[k..k + 4]);
      LittleEndianBound(pIn[k..k + 4]);
      InputChunk(pIn[..], k, 4);
      assert pIn[..][k..k + 4] == pIn[k..k + 4];
      JoinWords(outWord, curData, iBitsRight);
      ExtendInput(before[..cur], StreamOf(pIn[..]), 8 * k, 32);
      StoreDWord(iDWord, Or(outWord, Trunc(Shl(curData, iBitsRight), 32)));
      carried := Shr(curData, 32 - iBitsRight);
      curBit := curBit + 32;
      JoinedPrefix(old(bits)[..32 * iDWord], Low(outWord, iBitsRight), Low(curData, 32 - iBitsRight),
        Low(carried, iBitsRight));
    }

    lemma JoinedPrefix(a: seq<bool>, b: seq<bool>, c: seq<bool>, d: seq<bool>)
      ensures (a + (b + c)) + d == (a + b) + (c + d)
    {
    }

    /** The last word is stored; what it holds above its r bits is overwritten later. */
    method FinishJoining(pIn: array<byte>, ghost before: seq<bool>, ghost cur: nat, ghost flag: bool,
        ghost k: nat, ghost nBits: nat,
        ghost nBitsLeft: nat, iDWord: nat, ghost iBitsRight: nat, outWord: nat)
      requires Joining(pIn, before, cur, flag, k, nBits, nBitsLeft, iDWord, iBitsRight, outWord)
      modifies data, this`bits
      ensures Copying(pIn, before, cur, flag, k, nBits, nBitsLeft)
    {
      hide StreamOf, Low, Pow2;
      LowSplit(outWord, iBitsRight, 32 - iBitsRight);
      StoreDWord(iDWord, outWord);
      assert bits[..curBit] == old(bits)[..32 * iDWord] + Low(outWord, iBitsRight);
    }

    /** Appends nBits bits of a byte buffer; startAddress is the address of pIn[0]. */
    method WriteBits(pIn: array<byte>, startAddress: nat, nBits: nat) returns (ok: bool)
      requires Valid() && pIn != data && nBits <= 8 * pIn.Length
      modifies data, this`curBit, this`overflow, this`bits
      ensures Valid() && ok == !overflow
      ensures old(curBit) + nBits > dataBits ==> overflow && bits == old(bits) && curBit == old(curBit)
      ensures old(curBit) + nBits <= dataBits ==>
        overflow == old(overflow) && Appended(old(bits), old(curBit), StreamOf(pIn[..])[..nBits])
    {
      hide StreamOf, Appended, Copying;
      if curBit + nBits > dataBits {
        overflow := true;
        return false;
      }
      ghost var before, cur, flag := bits, curBit, overflow;
      var nBitsLeft := nBits;
      var k := 0;
      StartCopying(pIn, nBits);
      while (startAddress + k) % 4 != 0 && nBitsLeft >= 8
        invariant Copying(pIn, before, cur, flag, k, nBits, nBitsLeft) && dataBits == old(dataBits)
        decreases nBitsLeft
      {
        k, nBitsLeft := CopyChunk(pIn, 1, k, nBitsLeft, before, cur, flag, nBits);
      }
      if nBitsLeft >= 32 {
        if curBit % 8 == 0 {
          k, nBitsLeft := CopyBlock(pIn, k, nBitsLeft, before, cur, flag, nBits);
        } else {
          k, nBitsLeft := CopyDWords(pIn, k, nBitsLeft, before, cur, flag, nBits);
          if nBitsLeft >= 32 {
            k, nBitsLeft := CopyChunk(pIn, 4, k, nBitsLeft, before, cur, flag, nBits);
          }
        }
      }
      while nBitsLeft >= 8
        invariant Copying(pIn, before, cur, flag, k, nBits, nBitsLeft) && dataBits == old(dataBits)
        decreases nBitsLeft
      {
        k, nBitsLeft := CopyChunk(pIn, 1, k, nBitsLeft, before, cur, flag, nBits);
      }
      FinishCopying(pIn, k, nBitsLeft, before, cur, flag, nBits);
      ok := !overflow;
    }

    lemma StartCopying(pIn: array<byte>, nBits: nat)
      requires Valid() && pIn != data && nBits <= 8 * pIn.Length && curBit + nBits <= dataBits
      ensures Copying(pIn, bits, curBit, overflow, 0, nBits, nBits)
    {
      hide StreamOf;
    }

    /** The bits of the last, partial input byte. */
    method FinishCopying(pIn: array<byte>, k: nat, nBitsLeft: nat, ghost before: seq<bool>, ghost cur: nat,
        ghost flag: bool, ghost nBits: nat)
      requires Copying(pIn, before, cur, flag, k, nBits, nBitsLeft) && nBitsLeft < 8
      modifies data, this`curBit, this`overflow, this`bits
      ensures Valid() && overflow == flag
      ensures Appended(before, cur, StreamOf(pIn[..])[..nBits])
    {
      hide StreamOf, Spliced, Low;
      if nBitsLeft != 0 {
        LastByte(pIn[..], k, nBitsLeft);
        ExtendInput(before[..cur], StreamOf(pIn[..]), 8 * k, nBitsLeft);
        WriteUBitLong(pIn[k], nBitsLeft);
      }
    }

    /** WriteBitsFromBuffer has moved done bits from behind start to behind the first cur bits. */
    ghost predicate Moved(start: Cursor, tracked: bool, before: seq<bool>, cur: nat, flag: bool, done: nat)
      reads this
      requires start.Valid()
    {
      && |bits| == |before|
      && Kept(before, cur)
      && if cur + done > dataBits then overflow && curBit == dataBits
         else
           && overflow == flag && curBit == cur + done
           && (tracked && start.Has(done) ==> Appended(before, cur, start.stream[start.pos..start.pos + done]))
    }

    /** Reader and writer of WriteBitsFromBuffer are done bits on. */
    ghost predicate Moving(pIn: BitRead, start: Cursor, tracked: bool, before: seq<bool>, cur: nat, flag: bool,
        done: nat)
      reads this, data, pIn, pIn.data
      requires start.Valid()
    {
      && Valid() && pIn.Valid() && pIn.data != data
      && (tracked ==> pIn.Tracks() && pIn.View() == start.Advance(done))
      && if done == 0 then curBit == cur && bits == before && overflow == flag
         else Moved(start, tracked, before, cur, flag, done)
    }

    /** The next n bits of the reader. */
    method TakeWord(pIn: BitRead, n: nat, ghost start: Cursor, ghost tracked: bool, ghost done: nat) returns (v: nat)
      requires pIn.Valid() && n <= 32 && start.Valid()
      requires tracked ==> pIn.Tracks() && pIn.View() == start.Advance(done)
      modifies pIn`inBufWord, pIn`bitsAvail, pIn`dataIn, pIn`overflow
      ensures pIn.Valid()
      ensures tracked ==> pIn.Tracks() && pIn.View() == start.Advance(done + n)
      ensures tracked && start.Has(done + n) ==>
        Low(v, n) == start.stream[start.pos + done..start.pos + done + n]
    {
      hide StreamOf, Low, Value, Cursor.Advance, Cursor.Taken, Pow2, BitRead.Registers, BitRead.Left;
      v := pIn.ReadUBitLong(n);
      AdvanceTwice(start, done, n);
      if start.Has(done + n) {
        TakenBits(start, done, n);
      }
    }

    /** They are written behind the first done ones. */
    method PlaceWord(v: nat, n: nat, ghost start: Cursor, ghost tracked: bool,
        ghost before: seq<bool>, ghost cur: nat, ghost flag: bool, ghost done: nat)
      requires Valid() && start.Valid() && n <= 32 && HasDWord(n)
      requires if done == 0 then curBit == cur && bits == before && overflow == flag
        else Moved(start, tracked, before, cur, flag, done) && n > 0
      requires tracked && start.Has(done + n) ==>
        Low(v, n) == start.stream[start.pos + done..start.pos + done + n]
      modifies data, this`curBit, this`overflow, this`bits
      ensures Valid() && Moved(start, tracked, before, cur, flag, done + n)
    {
      hide StreamOf, Spliced, Low;
      WriteUBitLong(v, n);
      if start.Has(done + n) {
        Adjacent(start.stream, start.pos, start.pos + done, start.pos + done + n);
      }
    }

    /** `WriteUBitLong(pIn->ReadUBitLong(n), n)` */
    method MoveWord(pIn: BitRead, n: nat, ghost start: Cursor, ghost tracked: bool,
        ghost before: seq<bool>, ghost cur: nat, ghost flag: bool, ghost done: nat)
      requires start.Valid() && Moving(pIn, start, tracked, before, cur, flag, done)
      requires n <= 32 && HasDWord(n) && (done > 0 ==> n > 0)
      modifies data, this`curBit, this`overflow, this`bits
      modifies pIn`inBufWord, pIn`bitsAvail, pIn`dataIn, pIn`overflow
      ensures Valid() && pIn.Valid() && pIn.data != data
      ensures tracked ==> pIn.Tracks() && pIn.View() == start.Advance(done + n)
      ensures Moved(start, tracked, before, cur, flag, done + n)
      ensures done + n > 0 ==> Moving(pIn, start, tracked, before, cur, flag, done + n)
    {
      hide StreamOf, Low, Value, Cursor.Advance, Cursor.Has, Moved;
      var v := TakeWord(pIn, n, start, tracked, done);
      PlaceWord(v, n, start, tracked, before, cur, flag, done);
    }

    /** Copies nBits bits from a reader, 32 at a time. */
    method WriteBitsFromBuffer(pIn: BitRead, nBits: nat) returns (ok: bool)
      requires Valid() && pIn.Valid() && pIn.data != data
      requires nBits > 0 || HasDWord(0)
      modifies data, this`curBit, this`overflow, this`bits
      modifies pIn`inBufWord, pIn`bitsAvail, pIn`dataIn, pIn`overflow
      ensures Valid() && pIn.Valid() && ok == (!overflow && !pIn.overflow)
      ensures old(pIn.Tracks()) ==> pIn.Tracks() && pIn.View() == old(pIn.View()).Advance(nBits)
      ensures old(curBit) + nBits <= dataBits ==> overflow == old(overflow) && curBit == old(curBit) + nBits
      ensures old(curBit) + nBits > dataBits ==> overflow && curBit == dataBits
      ensures Kept(old(bits), old(curBit))
      ensures old(pIn.Tracks()) && old(pIn.View()).Has(nBits) && old(curBit) + nBits <= dataBits ==>
        Appended(old(bits), old(curBit), pIn.stream[old(pIn.Pos())..old(pIn.Pos()) + nBits])
    {
      hide StreamOf, Low, Value, Appended, Kept, Cursor.Advance, Cursor.Has, Moved, Pow2, Moving;
      ghost var before, cur, flag := bits, curBit, overflow;
      ghost var tracked := pIn.Tracks();
      ghost var start := if tracked then pIn.View() else Cursor([], 0, false);
      StartMoving(pIn, start, tracked);
      var left: nat := nBits;
      while left > 32
        invariant left <= nBits && (left == 0 ==> nBits == 0)
        invariant Moving(pIn, start, tracked, before, cur, flag, nBits - left)
        decreases left
      {
        BehindTheDWord(pIn, start, tracked, before, cur, flag, nBits - left, 32);
        MoveWord(pIn, 32, start, tracked, before, cur, flag, nBits - left);
        left := left - 32;
      }
      BehindTheDWord(pIn, start, tracked, before, cur, flag, nBits - left, left);
      MoveWord(pIn, left, start, tracked, before, cur, flag, nBits - left);
      WhenMoved(start, tracked, before, cur, flag, nBits);
      ok := !overflow && !pIn.overflow;
    }

    lemma StartMoving(pIn: BitRead, start: Cursor, tracked: bool)
      requires Valid() && pIn.Valid() && pIn.data != data && tracked == pIn.Tracks()
      requires start == if tracked then pIn.View() else Cursor([], 0, false)
      ensures start.Valid() && Moving(pIn, start, tracked, bits, curBit, overflow, 0)
    {
      hide StreamOf, Value;
      NothingGathered(start);
    }

    /** Where a write of n bits needs the dword at the write position, it is in the buffer. */
    lemma BehindTheDWord(pIn: BitRead, start: Cursor, tracked: bool, before: seq<bool>, cur: nat, flag: bool,
        done: nat, n: nat)
      requires start.Valid() && Moving(pIn, start, tracked, before, cur, flag, done)
      requires n == 0 ==> done == 0 && (cur <= dataBits ==> cur < |before|)
      ensures HasDWord(n)
    {
      hide StreamOf, Value, Moved, Cursor.Advance;
    }

    lemma WhenMoved(start: Cursor, tracked: bool, before: seq<bool>, cur: nat, flag: bool, done: nat)
      requires start.Valid() && Moved(start, tracked, before, cur, flag, done)
      ensures cur + done <= dataBits ==> overflow == flag && curBit == cur + done
      ensures cur + done > dataBits ==> overflow && curBit == dataBits
      ensures Kept(before, cur)
      ensures tracked && start.Has(done) && cur + done <= dataBits ==>
        Appended(before, cur, start.stream[start.pos..start.pos + done])
    {
    }
  }
}
