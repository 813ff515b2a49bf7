/**
 The writer and the reader on the same buffer.
 */
module RoundTrip {
  import opened Bits
  import opened ByteStream
  import opened ZigZag
  import opened Wire
  import opened Message
  import opened BitReader
  import opened BitWriter
  import VarInt
  import Text

  // ----- bit by bit in, any widths out

  /** Writes bits one at a time. */
  method WriteAllBits(w: BitWrite, values: seq<bool>)
    requires w.Valid() && w.curBit + |values| <= |w.bits|
    modifies w.data, w`curBit, w`bits
    ensures w.Valid() && w.Appended(old(w.bits), old(w.curBit), values)
  {
    hide StreamOf;
    for i := 0 to |values|
      invariant w.Valid() && w.Appended(old(w.bits), old(w.curBit), values[..i])
    {
      w.WriteOneBitNoCheck(if values[i] then 1 else 0);
    }
    assert values[..|values|] == values;
  }

  /** Reads numbers of the given widths. */
  method ReadAllNumbers(r: BitRead, widths: seq<nat>) returns (vs: seq<nat>)
    requires r.Valid() && r.Tracks() && forall i | 0 <= i < |widths| :: widths[i] <= 32
    modifies r`inBufWord, r`bitsAvail, r`dataIn, r`overflow
    ensures r.Valid() && r.Tracks()
    ensures vs == TakenAll(old(r.View()), widths) && r.View() == AdvanceAll(old(r.View()), widths)
  {
    hide StreamOf, Cursor.Taken, Cursor.Advance;
    vs := [];
    assert widths[0..] == widths;
    for i := 0 to |widths|
      invariant r.Valid() && r.Tracks()
      invariant TakenAll(old(r.View()), widths) == vs + TakenAll(r.View(), widths[i..])
      invariant AdvanceAll(old(r.View()), widths) == AdvanceAll(r.View(), widths[i..])
    {
      assert widths[i..][1..] == widths[i + 1..];
      var v := r.ReadUBitLong(widths[i]);
      vs := vs + [v];
    }
  }

  /** Bits written one by one come back in order, however the reader groups them. */
  method BitsThrough(data: array<byte>, values: seq<bool>, widths: seq<nat>) returns (vs: seq<nat>, overflowed: bool)
    requires data.Length > 0 && |values| <= 32 * (data.Length / 4)
    requires Sum(widths) == |values| && forall i | 0 <= i < |widths| :: widths[i] <= 32
    modifies data
    ensures |vs| == |widths| && Joined(vs, widths) == values && !overflowed
  {
    hide StreamOf, Joined, TakenAll, AdvanceAll;
    var w := new BitWrite(data, data.Length, -1);
    WriteAllBits(w, values);
    var r := new BitRead(data, data.Length, -1);
    ghost var start := r.View();
    PrefixStream(data[..data.Length], w.dataBytes);
    assert data[..data.Length][..w.dataBytes] == data[..w.dataBytes];
    assert start.stream[..|w.bits|] == w.bits;
    vs := ReadAllNumbers(r, widths);
    RunOverflowsIff(start, widths);
    AnyCutGivesTheSameBits(start, widths);
    assert start.stream[..|values|] == w.bits[..|values|] == values;
    overflowed := r.overflow;
  }

  // ----- whole messages

  /** Writes a field with the method of its kind. */
  method WriteField(w: BitWrite, k: Kind, f: Field)
    requires w.Valid() && Carries(k, f) && (k == UBits(0) || k == SBits(1) ==> w.HasDWord(0))
    modifies w.data, w`curBit, w`overflow, w`bits
    ensures w.Valid()
    ensures w.overflow == (old(w.overflow) || old(w.curBit) + |Code(k, f)| > w.dataBits)
    ensures !w.overflow ==> w.Appended(old(w.bits), old(w.curBit), Code(k, f))
    ensures w.Kept(old(w.bits), old(w.curBit))
  {
    hide StreamOf, Low, Spliced, VarInt.Code, Text.Code, SignedCode, Encode, Pow2;
    match k {
      case UBits(n) => w.WriteUBitLong(f.n, n);
      case SBits(n) => w.WriteSBitLong(f.n, n);
      case OneBit => w.WriteOneBit(f.n);
      case VarInt32 => w.WriteVarInt32(f.n);
      case VarInt64 => w.WriteVarInt64(f.n);
      case SignedVarInt32 => w.WriteSignedVarInt32(f.n);
      case SignedVarInt64 => w.WriteSignedVarInt64(f.n);
      case Chars => var _ := w.WriteString(f.s);
    }
  }

  /** The widths that ReadUBitLong and ReadSBitLong allow. */
  predicate Readable(k: Kind) {
    (k.UBits? ==> k.width <= 32) && (k.SBits? ==> 1 <= k.width <= 32)
  }

  /** Reads a field with the method of its kind. */
  method ReadField(r: BitRead, k: Kind) returns (f: Field)
    requires r.Valid() && r.Tracks()
    requires Readable(k)
    modifies r`inBufWord, r`bitsAvail, r`dataIn, r`overflow
    ensures r.Valid() && r.Tracks()
    ensures r.View() == ReadEnd(k, old(r.View())) && f == Read(k, old(r.View()))
  {
    hide StreamOf, Cursor.Taken, Cursor.Advance, ReadVarInt;
    hide VarInt.ReadEnd, SignedTaken, Decode, Text.Read, Text.ReadEnd;
    match k {
      case UBits(n) => var v := r.ReadUBitLong(n); f := Number(v);
      case SBits(n) => var v := r.ReadSBitLong(n); f := Number(v);
      case OneBit => var v := r.ReadOneBit(); f := Number(v);
      case VarInt32 => var v := r.ReadVarInt32(); f := Number(v);
      case VarInt64 => var v := r.ReadVarInt64(); f := Number(v);
      case SignedVarInt32 => var v := r.ReadSignedVarInt32(); f := Number(v);
      case SignedVarInt64 => var v := r.ReadSignedVarInt64(); f := Number(v);
      case Chars =>
        var pStr := new int[r.dataBytes + 1];
        Text.Length(r.View(), false);
        ghost var chars := Text.Read(r.View(), false);
        var ok, n := r.ReadString(pStr, r.dataBytes + 1, false);
        assert chars[..n] == chars;
        f := Characters(pStr[..n]);
    }
  }

  /** The writer has written the fields before i. */
  ghost predicate Wrote(w: BitWrite, ks: seq<Kind>, fs: seq<Field>, i: nat, before: seq<bool>, cur: nat,
      flag: bool, done: seq<bool>)
    reads w
  {
    && AllCarry(ks, fs) && i <= |ks| && CodeAll(ks, fs) == done + CodeAll(ks[i..], fs[i..])
    && w.overflow == (flag || (i > 0 && cur + |done| > w.dataBits))
    && (i == 0 ==> w.bits == before && w.curBit == cur && done == [])
    && (i > 0 && !w.overflow ==> w.Appended(before, cur, done))
    && w.Kept(before, cur)
  }

  lemma CodeLength(k: Kind, f: Field)
    requires Carries(k, f)
    ensures k.SBits? ==> |Code(k, f)| == k.width
  {
  }

  method WriteNext(w: BitWrite, ks: seq<Kind>, fs: seq<Field>, i: nat, ghost before: seq<bool>, ghost cur: nat,
      ghost flag: bool, ghost done: seq<bool>)
    returns (ghost done': seq<bool>)
    requires w.Valid() && Wrote(w, ks, fs, i, before, cur, flag, done) && i < |ks|
    requires ks[i] == UBits(0) ==> cur + |CodeAll(ks, fs)| < |before|
    requires ks[i] == UBits(0) || ks[i] == SBits(1) ==> !flag && cur + |CodeAll(ks, fs)| <= w.dataBits
    modifies w.data, w`curBit, w`overflow, w`bits
    ensures w.Valid() && Wrote(w, ks, fs, i + 1, before, cur, flag, done')
  {
    hide StreamOf, Code, Carries;
    assert ks[i..][1..] == ks[i + 1..] && fs[i..][1..] == fs[i + 1..];
    assert ks[i] == SBits(1) ==> |Code(ks[i], fs[i])| == 1 by {
      CodeLength(ks[i], fs[i]);
    }
    done' := done + Code(ks[i], fs[i]);
    WriteField(w, ks[i], fs[i]);
  }

  /**
   Writes a message. WriteUBitLong asserts that the dword at the write position exists, also for a
   field of no bits, which WriteSBitLong(n, 1) contains: such a field must not meet the buffer's end.
   */
  method WriteMessage(w: BitWrite, ks: seq<Kind>, fs: seq<Field>)
    requires w.Valid() && AllCarry(ks, fs)
    requires UBits(0) in ks ==> w.curBit + |CodeAll(ks, fs)| < |w.bits|
    requires UBits(0) in ks || SBits(1) in ks ==> !w.overflow && w.curBit + |CodeAll(ks, fs)| <= w.dataBits
    modifies w.data, w`curBit, w`overflow, w`bits
    ensures w.Valid()
    ensures w.overflow == (old(w.overflow) || (ks != [] && old(w.curBit) + |CodeAll(ks, fs)| > w.dataBits))
    ensures !w.overflow && ks != [] ==> w.Appended(old(w.bits), old(w.curBit), CodeAll(ks, fs))
    ensures w.Kept(old(w.bits), old(w.curBit))
  {
    hide StreamOf, CodeAll, Carries, Wrote;
    ghost var before, cur, flag := w.bits, w.curBit, w.overflow;
    ghost var done: seq<bool> := [];
    NothingWrote(w, ks, fs);
    for i := 0 to |ks|
      invariant w.Valid() && Wrote(w, ks, fs, i, before, cur, flag, done) && w.dataBits == old(w.dataBits)
    {
      done := WriteNext(w, ks, fs, i, before, cur, flag, done);
    }
    AllWrote(w, ks, fs, before, cur, flag, done);
  }

  lemma NothingWrote(w: BitWrite, ks: seq<Kind>, fs: seq<Field>)
    requires AllCarry(ks, fs)
    ensures Wrote(w, ks, fs, 0, w.bits, w.curBit, w.overflow, [])
  {
    hide CodeAll, Carries;
    assert ks[0..] == ks && fs[0..] == fs;
  }

  lemma AllWrote(w: BitWrite, ks: seq<Kind>, fs: seq<Field>, before: seq<bool>, cur: nat, flag: bool, done: seq<bool>)
    requires Wrote(w, ks, fs, |ks|, before, cur, flag, done)
    ensures w.overflow == (flag || (ks != [] && cur + |CodeAll(ks, fs)| > w.dataBits))
    ensures !w.overflow && ks != [] ==> w.Appended(before, cur, CodeAll(ks, fs))
    ensures w.Kept(before, cur)
  {
    hide Code, Carries;
    assert done + [] == done;
  }

  method ReadMessage(r: BitRead, ks: seq<Kind>) returns (fs: seq<Field>)
    requires r.Valid() && r.Tracks()
    requires forall i | 0 <= i < |ks| :: Readable(ks[i])
    modifies r`inBufWord, r`bitsAvail, r`dataIn, r`overflow
    ensures r.Valid() && r.Tracks()
    ensures fs == ReadAll(ks, old(r.View())) && r.View() == ReadAllEnd(ks, old(r.View()))
  {
    hide StreamOf, Read, ReadEnd;
    fs := [];
    assert ks[0..] == ks;
    for i := 0 to |ks|
      invariant r.Valid() && r.Tracks()
      invariant ReadAll(ks, old(r.View())) == fs + ReadAll(ks[i..], r.View())
      invariant ReadAllEnd(ks, old(r.View())) == ReadAllEnd(ks[i..], r.View())
    {
      assert ks[i..][1..] == ks[i + 1..];
      var f := ReadField(r, ks[i]);
      fs := fs + [f];
    }
  }

  /** A message at this bit fits the whole dwords of a buffer; fields of no bits need room behind it. */
  ghost predicate Room(length: nat, startBit: nat, ks: seq<Kind>, fs: seq<Field>)
    requires AllCarry(ks, fs)
  {
    var end := startBit + |CodeAll(ks, fs)|;
    end < 32 * (length / 4) || (end == 32 * (length / 4) && UBits(0) !in ks)
  }

  lemma RoomMeans(length: nat, startBit: nat, ks: seq<Kind>, fs: seq<Field>)
    requires AllCarry(ks, fs) && Room(length, startBit, ks, fs)
    ensures startBit + |CodeAll(ks, fs)| <= 8 * length && (startBit == 8 * length ==> length == 0 || length >= 4)
  {
    hide CodeAll, Carries;
  }

  /** Writes a message at a bit of a buffer. */
  method WriteMessageAt(data: array<byte>, startBit: nat, ks: seq<Kind>, fs: seq<Field>)
    requires AllCarry(ks, fs) && Room(data.Length, startBit, ks, fs)
    modifies data
    ensures Cursor(StreamOf(data[..data.Length]), startBit, false).At(CodeAll(ks, fs))
  {
    hide StreamOf, CodeAll, Carries, BitWrite.Kept;
    var w := new BitWrite(data, data.Length, -1);
    w.StartWriting(data, data.Length, startBit, -1);
    ghost var before := w.bits;
    WriteMessage(w, ks, fs);
    PrefixStream(data[..data.Length], w.dataBytes);
    assert data[..data.Length][..w.dataBytes] == data[..w.dataBytes];
    MessageAt(Cursor(StreamOf(data[..data.Length]), startBit, false), ks, fs, w, before);
  }

  lemma MessageAt(c: Cursor, ks: seq<Kind>, fs: seq<Field>, w: BitWrite, before: seq<bool>)
    requires AllCarry(ks, fs) && c.Valid() && c.Has(|CodeAll(ks, fs)|) && w.bits <= c.stream
    requires ks != [] ==> w.Appended(before, c.pos, CodeAll(ks, fs))
    ensures c.At(CodeAll(ks, fs))
  {
    hide Code, Carries;
    if ks != [] {
      assert c.stream[..w.curBit] == w.bits[..w.curBit];
      assert w.bits[..w.curBit][c.pos..] == CodeAll(ks, fs);
    }
  }

  /**
   A message written anywhere in a buffer is read back from there, field by field, and the reader
   ends where the writer ended.
   */
  method MessageThrough(data: array<byte>, startBit: nat, ks: seq<Kind>, fs: seq<Field>)
    returns (back: seq<Field>, end: int, overflowed: bool)
    requires data.Length > 0 && AllCarry(ks, fs) && Room(data.Length, startBit, ks, fs)
    modifies data
    ensures back == fs && !overflowed && end == startBit + |CodeAll(ks, fs)|
  {
    hide StreamOf, CodeAll, Carries, ReadAll, ReadAllEnd, Room;
    RoomMeans(data.Length, startBit, ks, fs);
    WriteMessageAt(data, startBit, ks, fs);
    var r := new BitRead(data, data.Length, -1);
    r.StartReading(data, data.Length, startBit, -1);
    ghost var c := r.View();
    KindsReadable(ks, fs);
    back := ReadMessage(r, ks);
    MessageRoundTrip(c, ks, fs);
    overflowed := r.overflow;
    end := r.Tell();
  }

  lemma KindsReadable(ks: seq<Kind>, fs: seq<Field>)
    requires AllCarry(ks, fs)
    ensures forall i | 0 <= i < |ks| :: Readable(ks[i])
  {
    forall i | 0 <= i < |ks|
      ensures Readable(ks[i])
    {
      assert Carries(ks[i], fs[i]);
    }
  }
}
