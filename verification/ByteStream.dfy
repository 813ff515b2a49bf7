/**
 Byte buffers as bit streams. Bit i of a buffer is bit `i & 7` of byte `i >> 3`, so a
 little-endian dword at byte offset o holds stream bits 8*o .. 8*o + 32, lowest first.
 */
module ByteStream {
  import opened Bits

  type byte = x: nat | x < 256

  function StreamOf(bs: seq<byte>): (s: seq<bool>)
    ensures |s| == 8 * |bs|
  {
    if bs == [] then [] else Low(bs[0], 8) + StreamOf(bs[1..])
  }

  /** The number stored by little-endian bytes. */
  function LittleEndian(bs: seq<byte>): nat {
    if bs == [] then 0 else bs[0] + 256 * LittleEndian(bs[1..])
  }

  /** The n low bytes of x, least significant first. */
  function BytesOf(x: nat, n: nat): (bs: seq<byte>)
    ensures |bs| == n
  {
    if n == 0 then [] else [x % 256] + BytesOf(x / 256, n - 1)
  }

  /** The little-endian dword at byte offset o. */
  function LoadDWord(bs: seq<byte>, o: nat): nat
    requires o + 4 <= |bs|
  {
    LittleEndian(bs[o..o + 4])
  }

  /** Bit i of a buffer is bit `i & 7` of byte `i >> 3`. */
  lemma {:induction false} StreamBit(bs: seq<byte>, i: nat)
    requires i < 8 * |bs|
    ensures StreamOf(bs)[i] == Bit(bs[i / 8], i % 8)
  {
    if i < 8 {
      LowIsBits(bs[0], 8);
    } else {
      StreamBit(bs[1..], i - 8);
    }
  }

  lemma {:induction false} StreamOfAppend(a: seq<byte>, b: seq<byte>)
    ensures StreamOf(a + b) == StreamOf(a) + StreamOf(b)
  {
    hide Low;
    if a == [] {
      assert a + b == b;
    } else {
      StreamOfAppend(a[1..], b);
      assert (a + b)[1..] == a[1..] + b;
    }
  }

  lemma StreamOfSlice(bs: seq<byte>, lo: nat, hi: nat)
    requires lo <= hi <= |bs|
    ensures StreamOf(bs[lo..hi]) == StreamOf(bs)[8 * lo..8 * hi]
  {
    hide Low;
    hide StreamOf;
    assert bs == bs[..lo] + bs[lo..hi] + bs[hi..];
    StreamOfAppend(bs[..lo] + bs[lo..hi], bs[hi..]);
    StreamOfAppend(bs[..lo], bs[lo..hi]);
  }

  lemma PrefixStream(bs: seq<byte>, k: nat)
    requires k <= |bs|
    ensures StreamOf(bs[..k]) == StreamOf(bs)[..8 * k]
  {
    hide Low, StreamOf;
    assert bs == bs[..k] + bs[k..];
    StreamOfAppend(bs[..k], bs[k..]);
  }

  lemma SuffixStream(bs: seq<byte>, k: nat)
    requires k <= |bs|
    ensures StreamOf(bs[k..]) == StreamOf(bs)[8 * k..]
  {
    hide Low, StreamOf;
    assert bs == bs[..k] + bs[k..];
    StreamOfAppend(bs[..k], bs[k..]);
  }

  lemma ByteStreamOf(b: byte)
    ensures StreamOf([b]) == Low(b, 8)
  {
  }

  lemma Shl8(x: nat)
    ensures Shl(x, 8) == 256 * x
    ensures Shr(x, 8) == x / 256
    ensures Trunc(x, 8) == x % 256
  {
    ShlIsTimes(x, 8);
    ShrIsDiv(x, 8);
    TruncIsMod(x, 8);
    Pow2Values();
  }

  lemma {:induction false} StreamOfBytes(x: nat, n: nat)
    ensures StreamOf(BytesOf(x, n)) == Low(x, 8 * n)
  {
    hide Low;
    hide Trunc;
    hide Shr;
    if n != 0 {
      StreamOfBytes(x / 256, n - 1);
      Shl8(x);
      LowSplit(x, 8, 8 * (n - 1));
      LowOfTrunc(x, 8, 8);
      ByteStreamOf(x % 256);
      StreamOfAppend([x % 256], BytesOf(x / 256, n - 1));
    }
  }

  lemma {:induction false} ValueOfStream(bs: seq<byte>)
    ensures Value(StreamOf(bs)) == LittleEndian(bs)
  {
    hide Low;
    hide Trunc;
    hide Shl;
    if bs != [] {
      ValueOfStream(bs[1..]);
      assert bs == [bs[0]] + bs[1..];
      StreamOfAppend([bs[0]], bs[1..]);
      ByteStreamOf(bs[0]);
      ValueAppend(Low(bs[0], 8), StreamOf(bs[1..]));
      ValueOfLow(bs[0], 8);
      Shl8(LittleEndian(bs[1..]));
      Shl8(bs[0]);
    }
  }

  lemma DWordIsStream(bs: seq<byte>, o: nat)
    requires o + 4 <= |bs|
    ensures LoadDWord(bs, o) == Value(StreamOf(bs)[8 * o..8 * o + 32])
    ensures LoadDWord(bs, o) < Pow2(32)
  {
    hide Low;
    hide StreamOf;
    hide Value;
    hide LittleEndian;
    hide Pow2;
    StreamOfSlice(bs, o, o + 4);
    ValueOfStream(bs[o..o + 4]);
    ValueBound(StreamOf(bs)[8 * o..8 * o + 32]);
  }

  lemma {:induction false} BytesOfLittleEndian(bs: seq<byte>)
    ensures BytesOf(LittleEndian(bs), |bs|) == bs
  {
    if bs != [] {
      BytesOfLittleEndian(bs[1..]);
      DivModUnique(LittleEndian(bs), 256, LittleEndian(bs[1..]), bs[0]);
      assert bs == [bs[0]] + bs[1..];
    }
  }

  lemma {:induction false} LittleEndianOfBytes(x: nat, n: nat)
    requires x < Pow2(8 * n)
    ensures LittleEndian(BytesOf(x, n)) == x
  {
    if n != 0 {
      Pow2Add(8, 8 * (n - 1));
      Pow2Values();
      LittleEndianOfBytes(x / 256, n - 1);
    }
  }

  lemma {:induction false} LittleEndianBound(bs: seq<byte>)
    ensures LittleEndian(bs) < Pow2(8 * |bs|)
  {
    ValueOfStream(bs);
    ValueBound(StreamOf(bs));
  }
}
