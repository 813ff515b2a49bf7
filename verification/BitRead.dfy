/**
 `CBitRead`: the dword-prefetching bit reader. It keeps the unread top of the current dword in a
 register, a count of the bits left there and a pointer to the next dword. Bytes that do not fill
 a dword sit at the head of the buffer. Pointers are byte offsets from m_pData.
 */
module BitReader {
  import opened Bits
  import opened ByteStream
  import opened Overflowed
  import opened Wire
  import opened ZigZag
  import VarInt
  import UBitVar
  import Text
  import Message

  /** s_nMaskTable */
  function MaskTable(n: nat): nat
    requires n <= 32
  {
    Pow2(n) - 1
  }

  /** The register holds the avail bits before byte offset dataIn. */
  ghost predicate Holds(stream: seq<bool>, dataIn: nat, avail: int, word: nat) {
    && 8 * dataIn <= |stream|
    && 0 < avail <= 32 && avail <= 8 * dataIn
    && word == Value(stream[8 * dataIn - avail..8 * dataIn])
  }

  /** The dword cursor of a buffer that need not start on a dword steps so that it meets the end exactly. */
  ghost predicate Steps(dataBytes: nat, dataIn: nat) {
    dataIn % 4 == dataBytes % 4 <= dataIn <= dataBytes + 4
  }

  lemma NextDWord(dataBytes: nat, dataIn: nat)
    requires Steps(dataBytes, dataIn)
    ensures dataIn < dataBytes ==> dataIn + 4 <= dataBytes
    ensures dataIn <= dataBytes ==> Steps(dataBytes, dataIn + 4)
  {
  }

  lemma WholeDWordHeld(stream: seq<bool>, offset: nat, word: nat)
    requires 8 * offset + 32 <= |stream| && word == Value(stream[8 * offset..8 * offset + 32])
    ensures Holds(stream, offset + 4, 32, word)
  {
    hide Value;
  }

  /** A read that the register satisfies. */
  lemma ReadWithin(stream: seq<bool>, dataIn: nat, avail: int, word: nat, n: nat)
    requires Holds(stream, dataIn, avail, word) && n <= avail
    ensures And(word, MaskTable(n)) == Cursor(stream, 8 * dataIn - avail, false).Taken(n)
    ensures n < avail ==> Holds(stream, dataIn, avail - n, Shr(word, n))
  {
    hide Value, And, Shr, Trunc;
    var pos := 8 * dataIn - avail;
    var s := stream[pos..pos + avail];
    AndMask(word, n);
    ValueSplit(s, n);
    assert s[..n] == stream[pos..pos + n];
    assert s[n..] == stream[pos + n..pos + avail];
  }

  /** A read that straddles the register and the next dword. */
  lemma ReadAcross(stream: seq<bool>, dataIn: nat, avail: int, word: nat, next: nat, n: nat)
    requires Holds(stream, dataIn, avail, word) && Holds(stream, dataIn + 4, 32, next)
    requires avail < n <= 32
    ensures Or(word, Trunc(Shl(And(next, MaskTable(n - avail)), avail), 32))
         == Cursor(stream, 8 * dataIn - avail, false).Taken(n)
    ensures Holds(stream, dataIn + 4, 32 - (n - avail), Shr(next, n - avail))
  {
    hide Value, And, Or, Shl, Trunc, Shr;
    ReadWithin(stream, dataIn + 4, 32, next, n - avail);
    var pos := 8 * dataIn - avail;
    var a, b := stream[pos..pos + avail], stream[pos + avail..pos + n];
    OrJoins(a, b, 32);
    assert a + b == stream[pos..pos + n];
  }

  /** The tag bits 4 and 5 and the nibble below them. */
  lemma NibbleBits(r: nat)
    requires r < Pow2(6)
    ensures And(r, 48) == 16 * (r / 16 % 4) && And(r, 15) == r % 16
  {
    hide And, Pow2;
    Pow2Values();
    ShlIsTimes(3, 4);
    ShlIsTimes(And(Shr(r, 4), 3), 4);
    AndMask(r, 4);
    TruncIsMod(r, 4);
    AndShl(r, 3, 4);
    AndMask(Shr(r, 4), 2);
    TruncIsMod(Shr(r, 4), 2);
    ShrIsDiv(r, 4);
  }

  lemma JoinNibble(r: nat, more: nat, n: nat)
    requires n <= 28 && more < Pow2(n)
    ensures Or(r % 16, Trunc(Shl(more, 4), 32)) == r % 16 + 16 * more
  {
    hide Or, Pow2;
    Pow2Values();
    Pow2Monotone(n, 28);
    ShlBound(more, 28, 4);
    ShlIsTimes(more, 4);
    Pow2Monotone(n, 28);
    TruncSmall(Shl(more, 4), 32);
    OrDisjoint(r % 16, more, 4);
  }

  lemma ByteBits(b: nat)
    requires b < Pow2(8)
    ensures And(b, 0x7F) == b % 128 && (And(b, 0x80) == 0 <==> b < 128)
  {
    hide And, Pow2;
    Pow2Values();
    AndMask(b, 7);
    TruncIsMod(b, 7);
    AndShl(b, 1, 7);
    ShlIsTimes(1, 7);
    ShlIsTimes(And(Shr(b, 7), 1), 7);
    ByOne(Shr(b, 7));
    ShrIsDiv(b, 7);
  }

  lemma AdvanceTwice(c: Cursor, a: nat, b: nat)
    requires c.Valid()
    ensures c.Advance(a).Advance(b) == c.Advance(a + b)
  {
  }

  /** The bytes bs hold what follows c. */
  ghost predicate Gathered(c: Cursor, bs: seq<byte>)
    requires c.Valid()
  {
    c.Has(8 * |bs|) ==> StreamOf(bs) == c.stream[c.pos..c.pos + 8 * |bs|]
  }

  lemma NothingGathered(c: Cursor)
    requires c.Valid()
    ensures Gathered(c, []) && c.Advance(0) == c
  {
  }

  lemma GatherMore(c: Cursor, bs: seq<byte>, more: seq<byte>)
    requires c.Valid() && Gathered(c, bs)
    requires LittleEndian(more) == c.Advance(8 * |bs|).Taken(8 * |more|)
    ensures Gathered(c, bs + more)
  {
    hide StreamOf, Value, LittleEndian, Low;
    if c.Has(8 * |bs + more|) {
      var s := c.stream[c.pos + 8 * |bs|..c.pos + 8 * |bs| + 8 * |more|];
      ValueOfStream(more);
      LowOfValue(s);
      LowOfValue(StreamOf(more));
      assert StreamOf(more) == s;
      StreamOfAppend(bs, more);
      Adjacent(c.stream, c.pos, c.pos + 8 * |bs|, c.pos + 8 * |bs| + 8 * |more|);
    }
  }

  /** The bytes bs hold the n bits that follow c, the last byte padded with zeros. */
  ghost predicate Delivered(c: Cursor, bs: seq<byte>, n: nat)
    requires c.Valid() && n <= 8 * |bs|
  {
    c.Has(n) ==>
      && StreamOf(bs)[..n] == c.stream[c.pos..c.pos + n]
      && forall i | n <= i < 8 * |bs| :: !StreamOf(bs)[i]
  }

  lemma DeliverWhole(c: Cursor, bs: seq<byte>)
    requires c.Valid() && Gathered(c, bs)
    ensures Delivered(c, bs, 8 * |bs|)
  {
    hide StreamOf;
    assert StreamOf(bs)[..8 * |bs|] == StreamOf(bs);
  }

  lemma DeliverLast(c: Cursor, bs: seq<byte>, last: byte, n: nat)
    requires c.Valid() && Gathered(c, bs) && 0 < n < 8
    requires last == c.Advance(8 * |bs|).Taken(n) && last < Pow2(n)
    ensures Delivered(c, bs + [last], 8 * |bs| + n)
  {
    hide StreamOf, Value, Low;
    if c.Has(8 * |bs| + n) {
      var s := c.stream[c.pos + 8 * |bs|..c.pos + 8 * |bs| + n];
      StreamOfAppend(bs, [last]);
      ByteStreamOf(last);
      LowSplit(last, n, 8 - n);
      ShrSmall(last, n);
      LowOfValue(s);
      LowOfZero(8 - n);
      Adjacent(c.stream, c.pos, c.pos + 8 * |bs|, c.pos + 8 * |bs| + n);
    }
  }

  /** LoadLittleDWord, for a dword anywhere in the first n bytes. */
  method LoadLittleDWord(base: array<byte>, offset: nat, n: nat) returns (dword: nat)
    requires offset + 4 <= n <= base.Length
    ensures dword == Value(StreamOf(base[..n])[8 * offset..8 * offset + 32])
  {
    hide StreamOf, Value;
    assert base[..n][offset..offset + 4] == base[offset..offset + 4];
    DWordIsStream(base[..n], offset);
    dword := LittleEndian(base[offset..offset + 4]);
  }

  /** The bytes before the first whole dword, put together as Seek does. */
  lemma PartialWord(bs: seq<byte>)
    requires 1 <= |bs| <= 3
    ensures var w1 := if |bs| > 1 then Or(bs[0], Shl(bs[1], 8)) else bs[0] as nat;
      var w2 := if |bs| > 2 then Or(w1, Shl(bs[2], 16)) else w1;
      w2 == Value(StreamOf(bs))
  {
    hide StreamOf, Value, Shl, Or;
    ValueOfStream(bs);
    Pow2Values();
    if |bs| > 1 {
      OrDisjoint(bs[0], bs[1], 8);
      Shl8(bs[1]);
      assert bs[1..][1..] == bs[2..];
      if |bs| == 2 {
        assert LittleEndian(bs[1..]) == bs[1] as nat;
      } else {
        assert bs[2..][1..] == [];
        assert LittleEndian(bs[2..]) == bs[2] as nat;
        ShlIsTimes(bs[2], 16);
        OrDisjoint(bs[0] as nat + 256 * bs[1] as nat, bs[2], 16);
      }
    }
  }

  /** The byte offset of the dword that holds a bit behind the head. */
  function DWordAt(position: nat, dataBytes: nat): (o: nat)
    requires 8 * (dataBytes % 4) <= position <= 8 * dataBytes
    ensures dataBytes % 4 <= o <= dataBytes && o % 4 == dataBytes % 4
    ensures 8 * o <= position < 8 * o + 32 && (position - 8 * (dataBytes % 4)) % 32 == position - 8 * o
    ensures o == dataBytes <==> position == 8 * dataBytes
  {
    (position - 8 * (dataBytes % 4)) / 32 * 4 + dataBytes % 4
  }

  /** Masking and shifting the register of an overflowed reader. */
  lemma CutWord(stream: seq<bool>, f: Flagged, word: nat, n: nat)
    requires f.Flagged? && f.Valid(stream) && n <= f.avail && n <= 32 && word == Value(stream[f.q..f.end])
    ensures And(word, MaskTable(n)) == f.Taken(stream, n) && Shr(word, n) == Value(stream[f.q + n..f.end])
  {
    hide Value, And, Shr, Trunc;
    var s := stream[f.q..f.end];
    AndMask(word, n);
    ValueSplit(s, n);
    assert s[..n] == stream[f.q..f.q + n] && s[n..] == stream[f.q + n..f.end];
  }

  /** The dword cursor, the count and the register of an overflowed reader. */
  ghost predicate OverflowedRegister(stream: seq<bool>, dataBytes: nat, dataIn: nat, avail: int, word: nat,
      f: Flagged) {
    f.Valid(stream) &&
    match f
    case Spent =>
      && word == 0
      && if dataIn == dataBytes + 4 then 0 < avail <= 32 else dataBytes < 4 && dataIn == dataBytes && avail <= 0
    case Flagged(q, unread, end) => 8 * dataIn == end && avail == unread && word == Value(stream[q..end])
  }

  /** They after a read of n bits that the register satisfies. */
  lemma AfterCut(stream: seq<bool>, dataBytes: nat, dataIn: nat, avail: int, word: nat, f: Flagged, n: nat,
      dataIn': nat, avail': int, word': nat)
    requires |stream| == 8 * dataBytes && n <= 32 && n <= avail
    requires OverflowedRegister(stream, dataBytes, dataIn, avail, word, f)
    requires if n < avail then dataIn' == dataIn && avail' == avail - n && word' == Shr(word, n)
      else if dataIn < dataBytes then dataIn' == dataIn + 4 && avail' == 32 && Holds(stream, dataIn', 32, word')
      else dataIn' == dataBytes + 4 && 0 < avail' <= 32 && word' == 0
    ensures OverflowedRegister(stream, dataBytes, dataIn', avail', word', f.Next(stream, n))
    ensures And(word, MaskTable(n)) == f.Taken(stream, n)
  {
    hide Value, And, Shr, MaskTable;
    if f.Flagged? {
      CutWord(stream, f, word, n);
    } else {
      ZeroAfterCut(n);
    }
  }

  lemma AfterAnyCut(stream: seq<bool>, dataBytes: nat, dataIn: nat, avail: int, word: nat, n: nat,
      dataIn': nat, avail': int, word': nat)
    requires |stream| == 8 * dataBytes && n <= 32 && n <= avail
    requires if n < avail then dataIn' == dataIn && avail' == avail - n && word' == Shr(word, n)
      else if dataIn < dataBytes then dataIn' == dataIn + 4 && avail' == 32 && Holds(stream, dataIn', 32, word')
      else dataIn' == dataBytes + 4 && 0 < avail' <= 32 && word' == 0
    ensures forall f | OverflowedRegister(stream, dataBytes, dataIn, avail, word, f) ::
      && f.Valid(stream) && And(word, MaskTable(n)) == f.Taken(stream, n)
      && OverflowedRegister(stream, dataBytes, dataIn', avail', word', f.Next(stream, n))
  {
    hide And, Shr, MaskTable, Flagged.Next, Flagged.Taken;
    forall f | OverflowedRegister(stream, dataBytes, dataIn, avail, word, f)
      ensures f.Valid(stream) && And(word, MaskTable(n)) == f.Taken(stream, n)
      ensures OverflowedRegister(stream, dataBytes, dataIn', avail', word', f.Next(stream, n))
    {
      AfterCut(stream, dataBytes, dataIn, avail, word, f, n, dataIn', avail', word');
    }
  }

  lemma MaskedBound(word: nat, n: nat)
    requires n <= 32
    ensures And(word, MaskTable(n)) < Pow2(n) && (n == 0 ==> And(word, MaskTable(n)) == 0)
  {
    hide And, Trunc;
    AndMask(word, n);
    TruncBound(word, n);
    TruncZero(word);
  }

  lemma ZeroAfterCut(n: nat)
    requires n <= 32
    ensures And(0, MaskTable(n)) == 0 && Shr(0, n) == 0
  {
    hide And, Shr, Pow2;
    ZeroWord(n);
  }

  class BitRead {
    var data: array<byte>   // m_pData
    var dataBytes: nat      // m_nDataBytes; m_pBufferEnd is this offset
    var dataBits: nat       // m_nDataBits
    var overflow: bool      // m_bOverflow
    var inBufWord: nat      // m_nInBufWord
    var bitsAvail: int      // m_nBitsAvail
    var dataIn: nat         // m_pDataIn
    ghost var stream: seq<bool>  // the bits of the buffer

    constructor (pData: array<byte>, nBytes: nat, nBits: int)
      requires 0 < nBytes <= pData.Length && -1 <= nBits <= 8 * nBytes
      ensures Valid() && Tracks() && !overflow && Pos() == 0
      ensures data == pData && dataBytes == nBytes && stream == StreamOf(pData[..nBytes])
      ensures dataBits == if nBits == -1 then 8 * nBytes else nBits
    {
      hide StreamOf, Value;
      data := pData;
      new;
      StartReading(pData, nBytes, 0, nBits);
    }

    /** The stream is what the caller's memory holds. */
    ghost predicate Tied()
      reads this, data
    {
      && 0 < dataBytes <= data.Length
      && stream == StreamOf(data[..dataBytes])
      && dataBits <= |stream|
    }

    ghost predicate Shape()
      reads this
    {
      |stream| == 8 * dataBytes && Steps(dataBytes, dataIn)
    }

    /** The register holds exactly the unread top of the current dword. */
    ghost predicate Prefetched()
      reads this
    {
      Holds(stream, dataIn, bitsAvail, inBufWord)
    }

    /** The cursor is past the end. Right at the end one sentinel bit is left. */
    ghost predicate Drained()
      reads this
    {
      && dataIn == dataBytes + 4 && inBufWord == 0
      && (if overflow then 0 < bitsAvail <= 32 else bitsAvail == 1)
    }

    /** A seek to the very end of a buffer shorter than a dword leaves an empty register. */
    ghost predicate Stuck()
      reads this
    {
      dataBytes < 4 && dataIn == dataBytes && bitsAvail <= 0 && inBufWord == 0
    }

    ghost predicate Coherent()
      reads this
    {
      Prefetched() || Drained() || Stuck()
    }

    ghost predicate Valid()
      reads this, data
    {
      && Tied()
      && Shape()
      && (Coherent() || (overflow && dataIn <= dataBytes && 0 < bitsAvail <= 32))
    }

    /** The register of an overflowed reader. */
    ghost predicate Registers(f: Flagged)
      reads this
      ensures Registers(f) ==> f.Valid(stream)
    {
      OverflowedRegister(stream, dataBytes, dataIn, bitsAvail, inBufWord, f)
    }

    /** A coherent overflowed reader has all the buffer bits from its position on ahead. */
    lemma CoherentRegister() returns (f: Flagged)
      requires Valid() && Coherent() && overflow
      ensures Registers(f) && f.Ahead(stream) == stream[Pos()..]
    {
      hide StreamOf, Value;
      if Prefetched() {
        f := Flagged(8 * dataIn - bitsAvail, bitsAvail, 8 * dataIn);
      } else {
        f := Spent;
      }
    }

    /** The states in which the documented guarantee "zeros once overflowed" is in force. */
    ghost predicate Safe()
      reads this
    {
      Coherent() && (overflow ==> Drained() || Stuck())
    }

    /** The states in which every read does what Wire.Cursor says. */
    ghost predicate Tracks()
      reads this
    {
      Safe() && (Stuck() ==> overflow)
    }

    ghost function Pos(): nat
      reads this
    {
      if 0 < bitsAvail <= 8 * dataIn <= |stream| then 8 * dataIn - bitsAvail else |stream|
    }

    ghost function View(): (c: Cursor)
      reads this
    {
      Cursor(stream, Pos(), overflow)
    }

    /** How far the end is, also when the register and the cursor disagree. */
    ghost function Left(): int
      reads this
    {
      8 * (dataBytes + 4 - dataIn) + bitsAvail
    }

    method GrabNextDWord(overflowImmediately: bool)
      requires Tied() && Shape()
      modifies this`inBufWord, this`bitsAvail, this`dataIn, this`overflow
      ensures Tied() && Shape()
      ensures old(dataIn) == dataBytes ==>
        && bitsAvail == 1 && inBufWord == 0 && dataIn == dataBytes + 4
        && overflow == (old(overflow) || overflowImmediately)
      ensures old(dataIn) > dataBytes ==>
        bitsAvail == old(bitsAvail) && inBufWord == 0 && dataIn == old(dataIn) && overflow
      ensures old(dataIn) < dataBytes ==>
        && bitsAvail == old(bitsAvail) && dataIn == old(dataIn) + 4 <= dataBytes && overflow == old(overflow)
        && Holds(stream, dataIn, 32, inBufWord)
    {
      hide StreamOf, Value, Holds, Steps;
      NextDWord(dataBytes, dataIn);
      if dataIn == dataBytes {
        bitsAvail := 1;
        inBufWord := 0;
        dataIn := dataIn + 4;
        if overflowImmediately {
          overflow := true;
        }
      } else if dataIn > dataBytes {
        if !overflow {
          overflow := true;
        }
        inBufWord := 0;
      } else {
        inBufWord := LoadLittleDWord(data, dataIn, dataBytes);
        WholeDWordHeld(stream, dataIn, inBufWord);
        dataIn := dataIn + 4;
      }
    }

    method FetchNext()
      requires Tied() && Shape()
      modifies this`inBufWord, this`bitsAvail, this`dataIn, this`overflow
      ensures Tied() && Shape()
      ensures old(dataIn) < dataBytes ==>
        overflow == old(overflow) && dataIn == old(dataIn) + 4 && bitsAvail == 32 && Prefetched()
      ensures old(dataIn) == dataBytes ==> overflow == old(overflow) && bitsAvail == 1 && Drained()
      ensures old(dataIn) > dataBytes ==> overflow && Drained()
    {
      hide StreamOf, Value;
      bitsAvail := 32;
      GrabNextDWord(false);
    }

    /** Reads one bit. A reader stuck at the end of a tiny buffer never notices the overrun. */
    method ReadOneBit() returns (ret: nat)
      requires Valid()
      modifies this`inBufWord, this`bitsAvail, this`dataIn, this`overflow
      ensures Valid() && (old(overflow) ==> overflow)
      ensures old(Tracks()) ==>
        Tracks() && View() == old(View()).Advance(1) && ret == old(View()).Taken(1)
      ensures old(Stuck()) ==> ret == 0 && Stuck() && View() == old(View()) && bitsAvail == old(bitsAvail) - 1
      ensures forall f | old(overflow && Registers(f)) ::
        overflow && Registers(f.Next(stream, 1)) && ret == f.Taken(stream, 1)
    {
      hide StreamOf, Value, And, Shr, Trunc;
      if Prefetched() {
        ReadWithin(stream, dataIn, bitsAvail, inBufWord, 1);
      }
      forall f | overflow && Registers(f) && f.Flagged?
        ensures And(inBufWord, MaskTable(1)) == f.Taken(stream, 1)
        ensures Shr(inBufWord, 1) == Value(stream[f.q + 1..f.end])
      {
        CutWord(stream, f, inBufWord, 1);
      }
      ZeroWord(1);
      AndMask(inBufWord, 1);
      ret := And(inBufWord, 1);
      bitsAvail := bitsAvail - 1;
      if bitsAvail == 0 {
        FetchNext();
      } else {
        inBufWord := Shr(inBufWord, 1);
      }
    }

    /** Reads an unsigned number of 0 to 32 bits. */
    method ReadUBitLong(numbits: nat) returns (ret: nat)
      requires Valid() && numbits <= 32
      modifies this`inBufWord, this`bitsAvail, this`dataIn, this`overflow
      ensures Valid() && (old(overflow) ==> overflow)
      ensures old(Tracks()) || (old(Safe()) && numbits > 0) ==>
        Tracks() && View() == old(View()).Advance(numbits) && ret == old(View()).Taken(numbits)
      ensures forall f | old(overflow && Registers(f)) ::
        overflow && Registers(f.Next(stream, numbits)) && ret == f.Taken(stream, numbits)
      ensures ret < Pow2(numbits) && (ret != 0 ==> 0 <= Left() < old(Left()))
    {
      hide StreamOf, Value, Pow2, Registers, Flagged.Next, Flagged.Taken, Flagged.Valid;
      if bitsAvail >= numbits {
        ret := ReadFromRegister(numbits);
      } else {
        ret := ReadStraddling(numbits);
      }
    }

    /** The part of ReadUBitLong for bits that the register has. */
    method ReadFromRegister(numbits: nat) returns (ret: nat)
      requires Valid() && numbits <= 32 && numbits <= bitsAvail
      modifies this`inBufWord, this`bitsAvail, this`dataIn, this`overflow
      ensures Valid() && (old(overflow) ==> overflow)
      ensures old(Tracks()) || (old(Safe()) && numbits > 0) ==>
        Tracks() && View() == old(View()).Advance(numbits) && ret == old(View()).Taken(numbits)
      ensures forall f | old(overflow && Registers(f)) ::
        overflow && Registers(f.Next(stream, numbits)) && ret == f.Taken(stream, numbits)
      ensures ret < Pow2(numbits) && (ret != 0 ==> 0 <= Left() < old(Left()))
    {
      hide StreamOf, Value, And, Shr, Trunc, Pow2, Flagged.Next, Flagged.Taken, OverflowedRegister, MaskTable;
      ghost var flag, at, avail, word := overflow, dataIn, bitsAvail, inBufWord;
      if Prefetched() {
        ReadWithin(stream, dataIn, bitsAvail, inBufWord, numbits);
      } else {
        ZeroAfterCut(numbits);
      }
      MaskedBound(inBufWord, numbits);
      assert stream[Pos()..Pos()] == [] && Value([]) == 0 by {
        ZeroWord(0);
      }
      ret := CutRegister(numbits);
      if flag {
        AfterAnyCut(stream, dataBytes, at, avail, word, numbits, dataIn, bitsAvail, inBufWord);
      }
    }

    /** Masks numbits bits off the register, and fetches the next dword when none are left. */
    method CutRegister(numbits: nat) returns (ret: nat)
      requires Tied() && Shape() && numbits <= 32 && numbits <= bitsAvail
      modifies this`inBufWord, this`bitsAvail, this`dataIn, this`overflow
      ensures Tied() && Shape() && ret == And(old(inBufWord), MaskTable(numbits))
      ensures if numbits < old(bitsAvail) then
          && dataIn == old(dataIn) && overflow == old(overflow)
          && bitsAvail == old(bitsAvail) - numbits && inBufWord == Shr(old(inBufWord), numbits)
        else if old(dataIn) < dataBytes then
          dataIn == old(dataIn) + 4 && overflow == old(overflow) && bitsAvail == 32 && Prefetched()
        else
          && Drained() && overflow == (old(overflow) || old(dataIn) > dataBytes)
          && (old(dataIn) == dataBytes ==> bitsAvail == 1)
    {
      hide StreamOf, Value, And, Shr, MaskTable;
      ret := And(inBufWord, MaskTable(numbits));
      bitsAvail := bitsAvail - numbits;
      if bitsAvail != 0 {
        inBufWord := Shr(inBufWord, numbits);
      } else {
        FetchNext();
      }
    }

    /** The part of ReadUBitLong for more bits than the register has. */
    method ReadStraddling(numbits: nat) returns (ret: nat)
      requires Valid() && bitsAvail < numbits <= 32
      modifies this`inBufWord, this`bitsAvail, this`dataIn, this`overflow
      ensures Valid() && (old(overflow) ==> overflow)
      ensures old(Tracks()) || (old(Safe()) && numbits > 0) ==>
        Tracks() && View() == old(View()).Advance(numbits) && ret == old(View()).Taken(numbits)
      ensures forall f | old(overflow && Registers(f)) ::
        overflow && Registers(f.Next(stream, numbits)) && ret == f.Taken(stream, numbits)
      ensures old(overflow) ==> ret == 0 && (old(dataIn) != dataBytes ==> bitsAvail == old(bitsAvail))
      ensures old(overflow) ==> dataIn == old(dataIn) + if old(dataIn) <= dataBytes then 4 else 0
      ensures ret < Pow2(numbits) && (ret != 0 ==> 0 <= Left() < old(Left()))
    {
      hide StreamOf, Value, And, Or, Shl, Shr, Trunc, Pow2, MaskTable;
      ret := inBufWord;
      var left := numbits - bitsAvail;
      GrabNextDWord(true);
      if overflow {
        return 0;
      }
      ReadAcross(stream, dataIn - 4, bitsAvail, ret, inBufWord, numbits);
      ret := Or(ret, Trunc(Shl(And(inBufWord, MaskTable(left)), bitsAvail), 32));
      bitsAvail := 32 - left;
      inBufWord := Shr(inBufWord, left);
    }

    /** The number of bits read, never more than the message has. */
    method Tell() returns (ofs: int)
      requires Valid()
      ensures Coherent() ==> ofs == if Pos() < dataBits then Pos() else dataBits
    {
      hide StreamOf, Value;
      var curOfs := dataIn / 4 - 1;
      curOfs := curOfs * 32;
      curOfs := curOfs + (32 - bitsAvail);
      var adjust := 8 * (dataBytes % 4);
      ofs := if curOfs + adjust < dataBits then curOfs + adjust else dataBits;
    }

    /** Loads the register from the bytes before the first whole dword. */
    method LoadHead(nHead: nat)
      requires Tied() && |stream| == 8 * dataBytes && nHead == dataBytes % 4 > 0
      modifies this`inBufWord, this`dataIn
      ensures inBufWord == Value(stream[..8 * nHead]) && dataIn == nHead
    {
      hide StreamOf, Value, Shl, Or;
      StreamOfSlice(data[..dataBytes], 0, nHead);
      assert data[..dataBytes][0..nHead] == data[..nHead];
      PartialWord(data[..nHead]);
      inBufWord := data[0];
      if nHead > 1 {
        inBufWord := Or(inBufWord, Shl(data[1], 8));
      }
      if nHead > 2 {
        inBufWord := Or(inBufWord, Shl(data[2], 16));
      }
      dataIn := nHead;
    }

    /** Seek to a bit of the partial dword at the head. */
    method SeekHead(position: nat)
      requires Tied() && |stream| == 8 * dataBytes
      requires position <= 8 * (dataBytes % 4) && 0 < dataBytes % 4
      requires dataBytes < 4 || position < 8 * (dataBytes % 4)
      modifies this`inBufWord, this`bitsAvail, this`dataIn
      ensures Valid() && Pos() == position
      ensures if position == |stream| then Stuck() && bitsAvail == 0 else Prefetched()
    {
      hide StreamOf, Value, Shr, Pow2;
      var nHead := dataBytes % 4;
      LoadHead(nHead);
      ValueSplit(stream[..8 * nHead], position);
      assert stream[..8 * nHead][position..] == stream[position..8 * nHead];
      assert position == 8 * nHead ==> stream[position..8 * nHead] == [];
      ZeroWord(0);
      inBufWord := Shr(inBufWord, position % 32);
      bitsAvail := 8 * nHead - position % 32;
    }

    /** Seek to a bit of a whole dword, or to the end behind the last one. */
    method SeekDWord(position: nat)
      requires Tied() && |stream| == 8 * dataBytes
      requires 8 * (dataBytes % 4) <= position <= |stream| && dataBytes >= 4
      modifies this`inBufWord, this`bitsAvail, this`dataIn, this`overflow
      ensures Valid() && Pos() == position && overflow == old(overflow)
      ensures if position == |stream| then Drained() else Prefetched()
    {
      hide StreamOf, Value, Shr, Pow2, DWordAt, Trunc, And, Cursor.Taken;
      dataIn := DWordAt(position, dataBytes);
      var skip := (position - 8 * (dataBytes % 4)) % 32;
      bitsAvail := 32;
      GrabNextDWord(false);
      if dataIn <= dataBytes {
        ReadWithin(stream, dataIn, 32, inBufWord, skip);
      } else {
        ZeroAfterCut(skip);
      }
      inBufWord := Shr(inBufWord, skip);
      bitsAvail := if bitsAvail < 32 - skip then bitsAvail else 32 - skip;
    }

    /**
     Moves to bit nPosition, or reports overflow and moves to the end of the message. Afterwards
     the overflow flag promises zeros unless it is set while buffer bits lie ahead.
     */
    method Seek(nPosition: int) returns (succ: bool)
      requires Tied() && |stream| == 8 * dataBytes
      modifies this`inBufWord, this`bitsAvail, this`dataIn, this`overflow
      ensures Valid() && Coherent()
      ensures succ == (0 <= nPosition <= dataBits)
      ensures overflow == (old(overflow) || !succ)
      ensures Pos() == if succ then nPosition else dataBits
      ensures Safe() == (!overflow || Pos() == |stream|)
      ensures Stuck() == (dataBytes < 4 && Pos() == |stream|) && (Stuck() ==> bitsAvail == 0)
      ensures Tracks() == if Pos() == |stream| then overflow || dataBytes >= 4 else !overflow
    {
      hide StreamOf, Value;
      var position := nPosition;
      succ := true;
      if nPosition < 0 || nPosition > dataBits {
        overflow := true;
        succ := false;
        position := dataBits;
      }
      var nHead := dataBytes % 4;
      var nByteOfs := position / 8;
      if dataBytes < 4 || (nHead != 0 && nByteOfs < nHead) {
        SeekHead(position);
      } else {
        SeekDWord(position);
      }
    }

    /** Starts reading the first nBytes bytes of pData, of which nBits bits are message (-1: all). */
    method StartReading(pData: array<byte>, nBytes: nat, iStartBit: int, nBits: int)
      requires 0 < nBytes <= pData.Length && -1 <= nBits <= 8 * nBytes
      modifies this
      ensures data == pData && dataBytes == nBytes && dataBits == if nBits == -1 then 8 * nBytes else nBits
      ensures Valid() && stream == StreamOf(pData[..nBytes])
      ensures overflow == !(0 <= iStartBit <= dataBits)
      ensures Pos() == if overflow then dataBits else iStartBit
      ensures Tracks() == if Pos() == |stream| then overflow || dataBytes >= 4 else !overflow
    {
      hide StreamOf, Value;
      data := pData;
      dataIn := 0;
      dataBytes := nBytes;
      dataBits := if nBits == -1 then 8 * nBytes else nBits;
      overflow := false;
      stream := StreamOf(pData[..nBytes]);
      var _ := Seek(iStartBit);
    }

    /** The sign-extended number in the next numbits bits. */
    method ReadSBitLong(numbits: nat) returns (ret: int)
      requires Valid() && 1 <= numbits <= 32
      modifies this`inBufWord, this`bitsAvail, this`dataIn, this`overflow
      ensures Valid()
      ensures old(Safe()) ==>
        Tracks() && View() == old(View()).Advance(numbits) && ret == SignedTaken(old(View()), numbits)
      ensures ret != 0 ==> 0 <= Left() < old(Left())
    {
      hide StreamOf, Value, Shl, ShrSigned, Trunc, Registers;
      var n := ReadUBitLong(numbits);
      SignExtends(n, numbits, 32 - numbits);
      TruncSmall(Shl(n, 32 - numbits), 32);
      ret := ShrSigned(ToSigned(Trunc(Shl(n, 32 - numbits), 32), 32), 32 - numbits);
    }

    /** The next number without moving. A peek past the end leaves the overflow flag set. */
    method PeekUBitLong(numbits: nat) returns (ret: nat)
      requires Valid() && numbits <= 32
      modifies this`inBufWord, this`bitsAvail, this`dataIn, this`overflow
      ensures Valid()
      ensures inBufWord == old(inBufWord) && bitsAvail == old(bitsAvail) && dataIn == old(dataIn)
      ensures old(Tracks()) ==> ret == old(View()).Taken(numbits)
      ensures old(Tracks()) ==> (View() == old(View()) <==> old(overflow) || old(View()).Has(numbits))
      ensures old(Tracks()) ==> (Safe() <==> !overflow || Pos() == |stream|)
    {
      hide StreamOf, Value, Trunc, Pow2, Registers;
      var saveBA, saveW, saveP := bitsAvail, inBufWord, dataIn;
      ret := ReadUBitLong(numbits);
      bitsAvail, inBufWord, dataIn := saveBA, saveW, saveP;
    }

    /** The reader's own variable-width layout: four data bits, then the tag. */
    method ReadUBitVar() returns (ret: nat)
      requires Valid()
      modifies this`inBufWord, this`bitsAvail, this`dataIn, this`overflow
      ensures Valid()
      ensures old(Safe()) ==>
        Tracks() && View() == UBitVar.ReadEnd(old(View())) && ret == UBitVar.Read(old(View()))
    {
      hide StreamOf, Value, And, Or, Shl, Trunc, Cursor.Advance, Cursor.Taken, Registers;
      ret := ReadUBitLong(6);
      NibbleBits(ret);
      var more;
      if And(ret, 48) == 16 {
        more := ReadUBitLong(4);
        JoinNibble(ret, more, 4);
        ret := Or(And(ret, 15), Trunc(Shl(more, 4), 32));
      } else if And(ret, 48) == 32 {
        more := ReadUBitLong(8);
        JoinNibble(ret, more, 8);
        ret := Or(And(ret, 15), Trunc(Shl(more, 4), 32));
      } else if And(ret, 48) == 48 {
        more := ReadUBitLong(28);
        JoinNibble(ret, more, 28);
        ret := Or(And(ret, 15), Trunc(Shl(more, 4), 32));
      }
    }

    /** The loop of ReadVarInt32 (maxBytes 5, N 32) and ReadVarInt64 (maxBytes 10, N 64). */
    method ReadVarInt(maxBytes: nat, N: nat) returns (result: nat)
      requires Valid()
      modifies this`inBufWord, this`bitsAvail, this`dataIn, this`overflow
      ensures Valid() && result < Pow2(N)
      ensures old(Tracks()) ==>
        && Tracks() && View() == VarInt.ReadEnd(old(View()), maxBytes)
        && result == Message.ReadVarInt(old(View()), maxBytes, N)
    {
      hide StreamOf, Value, And, Or, Shl, Trunc, Pow2, Cursor.Advance, Cursor.Taken, VarInt.ReadSoFar, Registers;
      result := 0;
      var count := 0;
      ghost var start, acc: nat := View(), 0;
      ghost var tracked := Tracks();
      ZeroWord(N);
      TruncBound(0, N);
      if tracked {
        VarInt.NothingRead(start, maxBytes);
      }
      while true
        invariant Valid() && count <= maxBytes && result < Pow2(N)
        invariant tracked ==> Tracks() && VarInt.ReadSoFar(start, View(), acc, count, maxBytes)
        invariant tracked ==> result == Trunc(acc, N)
        decreases maxBytes - count
      {
        if count == maxBytes {
          if tracked {
            VarInt.LimitReached(start, View(), acc, maxBytes);
          }
          return;
        }
        ghost var before := View();
        var b := ReadUBitLong(8);
        ByteBits(b);
        if tracked {
          VarInt.ByteRead(start, before, acc, count, maxBytes, N);
          acc := acc + Shl(b % 128, 7 * count);
        }
        OrBound(result, Shl(b % 128, 7 * count), N);
        result := Or(result, Trunc(Shl(And(b, 0x7F), 7 * count), N));
        count := count + 1;
        if And(b, 0x80) == 0 {
          return;
        }
      }
    }

    method ReadVarInt32() returns (result: nat)
      requires Valid()
      modifies this`inBufWord, this`bitsAvail, this`dataIn, this`overflow
      ensures Valid()
      ensures old(Tracks()) ==>
        Tracks() && View() == Message.ReadEnd(Message.VarInt32, old(View())) &&
        Message.Number(result) == Message.Read(Message.VarInt32, old(View()))
    {
      hide VarInt.Read, VarInt.ReadEnd, Trunc, Registers;
      result := ReadVarInt(5, 32);
    }

    method ReadVarInt64() returns (result: nat)
      requires Valid()
      modifies this`inBufWord, this`bitsAvail, this`dataIn, this`overflow
      ensures Valid()
      ensures old(Tracks()) ==>
        Tracks() && View() == Message.ReadEnd(Message.VarInt64, old(View())) &&
        Message.Number(result) == Message.Read(Message.VarInt64, old(View()))
    {
      hide VarInt.Read, VarInt.ReadEnd, Trunc, Registers;
      result := ReadVarInt(10, 64);
    }

    method ReadSignedVarInt32() returns (result: int)
      requires Valid()
      modifies this`inBufWord, this`bitsAvail, this`dataIn, this`overflow
      ensures Valid()
      ensures old(Tracks()) ==>
        Tracks() && View() == Message.ReadEnd(Message.SignedVarInt32, old(View())) &&
        Message.Number(result) == Message.Read(Message.SignedVarInt32, old(View()))
    {
      hide VarInt.Read, VarInt.ReadEnd, Trunc, Decode, Registers, Holds, Steps;
      var u := ReadVarInt(5, 32);
      result := Decode(u, 32);
    }

    method ReadSignedVarInt64() returns (result: int)
      requires Valid()
      modifies this`inBufWord, this`bitsAvail, this`dataIn, this`overflow
      ensures Valid()
      ensures old(Tracks()) ==>
        Tracks() && View() == Message.ReadEnd(Message.SignedVarInt64, old(View())) &&
        Message.Number(result) == Message.Read(Message.SignedVarInt64, old(View()))
    {
      hide VarInt.Read, VarInt.ReadEnd, Trunc, Decode, Registers, Holds, Steps;
      var u := ReadVarInt(10, 64);
      result := Decode(u, 64);
    }

    /** ReadBits has stored k bytes and has nBitsLeft bits to go. */
    ghost predicate Copying(pOut: array<byte>, k: nat, nBits: nat, nBitsLeft: nat, tracked: bool,
        start: Cursor, was: seq<byte>)
      reads this, data, pOut
    {
      && Valid() && start.Valid()
      && pOut != data && k <= pOut.Length == |was| && 8 * k + nBitsLeft == nBits <= 8 * pOut.Length
      && pOut[k..] == was[k..]
      && (tracked ==> Tracks() && View() == start.Advance(8 * k) && Gathered(start, pOut[..k]))
    }

    /**
     Copies nBits bits out, by dwords where the output is aligned. startAddress is the address of
     pOut[0]. The last, partial byte gets zeros above its bits.
     */
    method ReadBits(pOut: array<byte>, startAddress: nat, nBits: nat)
      requires Valid() && pOut != data && nBits <= 8 * pOut.Length
      modifies this`inBufWord, this`bitsAvail, this`dataIn, this`overflow, pOut
      ensures Valid()
      ensures old(Tracks()) ==>
        && Tracks() && View() == old(View()).Advance(nBits)
        && Delivered(old(View()), pOut[..(nBits + 7) / 8], nBits)
      ensures pOut[(nBits + 7) / 8..] == old(pOut[(nBits + 7) / 8..])
    {
      hide StreamOf, Value, Gathered, Delivered, Cursor.Advance, Cursor.Taken, Pow2;
      ghost var tracked, was := Tracks(), pOut[..];
      ghost var start := if tracked then View() else Cursor([], 0, false);
      var nBitsLeft := nBits;
      var k := 0;
      assert pOut[..0] == [] && StreamOf([]) == [];
      NothingGathered(start);
      while (startAddress + k) % 4 != 0 && nBitsLeft >= 8
        invariant Copying(pOut, k, nBits, nBitsLeft, tracked, start, was)
        decreases nBitsLeft
      {
        k, nBitsLeft := ReadChunk(pOut, k, 1, nBits, nBitsLeft, tracked, start, was);
      }
      while nBitsLeft >= 32
        invariant Copying(pOut, k, nBits, nBitsLeft, tracked, start, was)
        decreases nBitsLeft
      {
        k, nBitsLeft := ReadChunk(pOut, k, 4, nBits, nBitsLeft, tracked, start, was);
      }
      while nBitsLeft >= 8
        invariant Copying(pOut, k, nBits, nBitsLeft, tracked, start, was)
        decreases nBitsLeft
      {
        k, nBitsLeft := ReadChunk(pOut, k, 1, nBits, nBitsLeft, tracked, start, was);
      }
      FinishBits(pOut, k, nBits, nBitsLeft, tracked, start, was);
    }

    /** Stores the next n bytes as one little-endian number. */
    method ReadChunk(pOut: array<byte>, k: nat, n: nat, ghost nBits: nat, nBitsLeft: nat, ghost tracked: bool,
        ghost start: Cursor, ghost was: seq<byte>)
      returns (k': nat, nBitsLeft': nat)
      requires Copying(pOut, k, nBits, nBitsLeft, tracked, start, was) && 1 <= n <= 4 && 8 * n <= nBitsLeft
      modifies this`inBufWord, this`bitsAvail, this`dataIn, this`overflow, pOut
      ensures k' == k + n && nBitsLeft' == nBitsLeft - 8 * n
      ensures Copying(pOut, k', nBits, nBitsLeft', tracked, start, was)
    {
      hide StreamOf, Value, LittleEndian, Pow2, BytesOf, Cursor.Advance, Cursor.Taken, Gathered, Registers;
      ghost var done := pOut[..k];
      var v := ReadUBitLong(8 * n);
      LittleEndianOfBytes(v, n);
      var bs := BytesOf(v, n);
      if tracked {
        GatherMore(start, done, bs);
        AdvanceTwice(start, 8 * k, 8 * n);
      }
      forall i | 0 <= i < n {
        pOut[k + i] := bs[i];
      }
      k', nBitsLeft' := k + n, nBitsLeft - 8 * n;
      assert pOut[..k'] == done + bs;
      assert pOut[k'..] == was[k'..] by {
        assert was[k'..] == was[k..][n..];
      }
    }

    /** The bits of the last, partial byte. */
    method FinishBits(pOut: array<byte>, k: nat, nBits: nat, nBitsLeft: nat, ghost tracked: bool,
        ghost start: Cursor, ghost was: seq<byte>)
      requires Copying(pOut, k, nBits, nBitsLeft, tracked, start, was) && nBitsLeft < 8
      modifies this`inBufWord, this`bitsAvail, this`dataIn, this`overflow, pOut
      ensures Valid()
      ensures tracked ==>
        && Tracks() && View() == start.Advance(nBits)
        && Delivered(start, pOut[..(nBits + 7) / 8], nBits)
      ensures pOut[(nBits + 7) / 8..] == was[(nBits + 7) / 8..]
    {
      hide StreamOf, Value, Cursor.Advance, Cursor.Taken, Gathered, Delivered, Registers, Pow2, Holds;
      ghost var done := pOut[..k];
      if nBitsLeft != 0 {
        var last := ReadUBitLong(nBitsLeft);
        Pow2Monotone(nBitsLeft, 8);
        Pow2Values();
        pOut[k] := last;
        if tracked {
          DeliverLast(start, done, last, nBitsLeft);
          AdvanceTwice(start, 8 * k, nBitsLeft);
        }
        assert pOut[..k + 1] == done + [last];
        assert was[k + 1..] == was[k..][1..];
      } else if tracked {
        DeliverWhole(start, done);
      }
    }

    method ReadBytes(pOut: array<byte>, startAddress: nat, nBytes: nat) returns (ok: bool)
      requires Valid() && pOut != data && nBytes <= pOut.Length
      modifies this`inBufWord, this`bitsAvail, this`dataIn, this`overflow, pOut
      ensures Valid() && ok == !overflow
      ensures old(Tracks()) ==> Tracks() && ok == old(View()).Has(8 * nBytes)
      ensures old(Tracks()) && ok ==>
        pOut[..nBytes] == BytesOf(Value(stream[old(Pos())..old(Pos()) + 8 * nBytes]), nBytes)
      ensures pOut[nBytes..] == old(pOut[nBytes..])
    {
      hide StreamOf, Value, LittleEndian, BytesOf;
      ReadBits(pOut, startAddress, 8 * nBytes);
      ok := !overflow;
      ghost var bs := pOut[..nBytes];
      assert StreamOf(bs)[..8 * nBytes] == StreamOf(bs);
      ValueOfStream(bs);
      BytesOfLittleEndian(bs);
    }

    /** ReadChar, as part of a text of which read has been taken. */
    method ReadChar(ghost safe: bool, ghost start: Cursor, ghost read: seq<int>, ghost bLine: bool) returns (val: int)
      requires Valid() && (safe ==> Safe() && Text.SoFar(start, View(), read, bLine))
      modifies this`inBufWord, this`bitsAvail, this`dataIn, this`overflow
      ensures Valid() && (val != 0 ==> 0 <= Left() < old(Left()))
      ensures safe ==> Tracks() && if Text.Stops(val, bLine)
        then Text.Read(start, bLine) == read && Text.ReadEnd(start, bLine) == View()
        else Text.SoFar(start, View(), read + [val], bLine)
    {
      hide StreamOf, Value, Cursor.Advance, Cursor.Taken, Text.Read, Text.ReadEnd, SignedTaken, Text.SoFar, Registers;
      if safe {
        Text.CharRead(start, View(), read, bLine);
      }
      val := ReadSBitLong(8);
    }

    /**
     Reads text into a buffer of maxLen characters and always terminates it. It stops because
     reads past the end are zeros.
     */
    method ReadString(pStr: array<int>, maxLen: nat, bLine: bool) returns (ok: bool, numChars: nat)
      requires Valid() && 0 < maxLen <= pStr.Length
      modifies this`inBufWord, this`bitsAvail, this`dataIn, this`overflow, pStr
      ensures Valid() && numChars < maxLen && pStr[numChars] == 0
      ensures old(Safe()) ==>
        && Tracks() && View() == Text.ReadEnd(old(View()), bLine)
        && var chars := Text.Read(old(View()), bLine);
          && numChars == (if |chars| < maxLen then |chars| else maxLen - 1)
          && pStr[..numChars] == chars[..numChars]
          && ok == (!overflow && |chars| < maxLen)
    {
      hide StreamOf, Value, Text.Read, Text.ReadEnd, Text.SoFar, Registers, Left;
      ghost var safe, read := Safe(), [];
      ghost var start := if safe then View() else Cursor([], 0, false);
      var tooSmall := false;
      numChars := 0;
      Text.NothingRead(start, bLine);
      while true
        invariant Valid() && numChars < maxLen
        invariant numChars == (if |read| < maxLen then |read| else maxLen - 1) && tooSmall == (|read| >= maxLen)
        invariant pStr[..numChars] == read[..numChars]
        invariant safe ==> Safe() && Text.SoFar(start, View(), read, bLine)
        decreases Left()
      {
        var val := ReadChar(safe, start, read, bLine);
        if val == 0 {
          break;
        } else if bLine && val == 10 {
          break;
        }
        if numChars < maxLen - 1 {
          pStr[numChars] := val;
          numChars := numChars + 1;
        } else {
          tooSmall := true;
        }
        read := read + [val];
      }
      pStr[numChars] := 0;
      ok := !overflow && !tooSmall;
    }
  }

  /** Any run of reads of an overflowed reader. */
  method ReadOverflowed(reader: BitRead, widths: seq<nat>, ghost f: Flagged) returns (vs: seq<nat>)
    requires reader.Valid() && reader.overflow && reader.Registers(f)
    requires forall i | 0 <= i < |widths| :: widths[i] <= 32
    modifies reader`inBufWord, reader`bitsAvail, reader`dataIn, reader`overflow
    ensures reader.Valid() && reader.overflow && vs == FlaggedRun(reader.stream, f, widths)
  {
    hide StreamOf, Value, OverflowedRegister, Flagged.Next, Flagged.Taken;
    vs := [];
    ghost var g := f;
    assert widths[0..] == widths;
    for i := 0 to |widths|
      invariant reader.Valid() && reader.overflow && reader.Registers(g) && g.Valid(reader.stream)
      invariant FlaggedRun(reader.stream, f, widths) == vs + FlaggedRun(reader.stream, g, widths[i..])
    {
      assert widths[i..][1..] == widths[i + 1..];
      var v := reader.ReadUBitLong(widths[i]);
      vs := vs + [v];
      g := g.Next(reader.stream, widths[i]);
    }
  }

  /**
   "Zeros once overflowed": after a seek, a peek or a read that left the flag set, k one-bit reads
   return zeros only if and only if the next k bits of the buffer are 0.
   */
  method OverflowedBits(reader: BitRead, k: nat) returns (vs: seq<nat>)
    requires reader.Valid() && reader.overflow && reader.Coherent()
    modifies reader`inBufWord, reader`bitsAvail, reader`dataIn, reader`overflow
    ensures reader.Valid() && reader.overflow && |vs| == k
    ensures var ahead := reader.stream[old(reader.Pos())..];
      AllZero(vs) <==> AllClear(if k < |ahead| then ahead[..k] else ahead)
  {
    hide StreamOf, Value, FlaggedRun, Flagged.Ahead, OverflowedRegister;
    ghost var f := reader.CoherentRegister();
    OneBitZerosIff(reader.stream, f, k);
    vs := ReadOverflowed(reader, Ones(k), f);
  }

  /**
   "Zeros once overflowed" does not survive a failed seek in a message shorter than its buffer:
   the reader stands before the unused buffer bits and hands them out.
   */
  method FailedSeekThenData() returns (bits: seq<nat>, overflowed: bool)
    ensures overflowed && |bits| == 1 && !AllZero(bits)
  {
    hide StreamOf, Value;
    var data := new byte[4](i => if i == 1 then 1 else 0);
    var reader := new BitRead(data, 4, 8);
    var ok := reader.Seek(9);
    StreamBit(data[..4], 8);
    assert reader.stream[8..][0];
    bits := OverflowedBits(reader, 1);
    overflowed := reader.overflow;
  }

  /** Nor does it survive a peek past the end, which leaves the flag set and the reader where it was. */
  method PeekThenData() returns (peeked: nat, bits: seq<nat>, overflowed: bool)
    ensures peeked == 0 && overflowed && |bits| == 1 && !AllZero(bits)
  {
    hide StreamOf, Value, Steps, Pow2;
    var data := new byte[4](i => if i == 1 then 1 else 0);
    var reader := new BitRead(data, 4, -1);
    var first := reader.ReadUBitLong(8);
    peeked := reader.PeekUBitLong(32);
    StreamBit(data[..4], 8);
    assert reader.stream[8..][0];
    bits := OverflowedBits(reader, 1);
    overflowed := reader.overflow;
  }

  /** The message length bounds seeks only: a shorter message is read past its end without overflow. */
  method ReadsPastTheMessage() returns (value: nat, overflowed: bool)
    ensures !overflowed && value == 0x100
  {
    hide StreamOf, Value, LittleEndian;
    var data := new byte[4](i => if i == 1 then 1 else 0);
    var reader := new BitRead(data, 4, 8);
    value := reader.ReadUBitLong(16);
    overflowed := reader.overflow;
    assert data[..4][0..2] == [0, 1];
    StreamOfSlice(data[..4], 0, 2);
    ValueOfStream([0, 1]);
    SecondByteOne();
  }

  lemma SecondByteOne()
    ensures LittleEndian([0, 1]) == 0x100
  {
    assert [0, 1][1..] == [1] && LittleEndian([1]) == 1;
  }

  /**
   A reader moved to the end of a buffer shorter than a dword takes bit after bit unnoticed, for
   the 2^31 reads that its counter, an int, has room for.
   */
  method EndlessBits(count: nat) returns (overflowed: bool, avail: int)
    requires count <= 0x8000_0000
    ensures !overflowed && avail == 0 - count
  {
    hide StreamOf, Value;
    var data := new byte[1](i => 0);
    var reader := new BitRead(data, 1, 8);
    var ok := reader.Seek(8);
    for i := 0 to count
      invariant reader.Valid() && reader.Stuck() && !reader.overflow && reader.bitsAvail == 0 - i
    {
      var bit := reader.ReadOneBit();
    }
    overflowed, avail := reader.overflow, reader.bitsAvail;
  }
}
