/**
 Messages: lists of fields of any kind, written back to back.
 */
module Message {
  import opened Bits
  import opened ZigZag
  import opened Wire
  import opened ByteStream
  import VarInt
  import Text

  datatype Kind =
    | UBits(width: nat)     // WriteUBitLong, ReadUBitLong
    | SBits(width: nat)     // WriteSBitLong, ReadSBitLong
    | OneBit                // WriteOneBit, ReadOneBit
    | VarInt32
    | VarInt64
    | SignedVarInt32
    | SignedVarInt64
    | Chars                 // WriteString, ReadString

  datatype Field = Number(n: int) | Characters(s: seq<int>)

  /** The values a field of this kind can carry. */
  predicate Carries(k: Kind, f: Field) {
    match k
    case UBits(w) => w <= 32 && f.Number? && 0 <= f.n < Pow2(w)
    case SBits(w) => 1 <= w <= 32 && f.Number? && Fits(f.n, w) && Fits(f.n, 32)
    case OneBit => f.Number? && (f.n == 0 || f.n == 1)
    case VarInt32 => f.Number? && 0 <= f.n < Pow2(32)
    case VarInt64 => f.Number? && 0 <= f.n < Pow2(64)
    case SignedVarInt32 => f.Number? && Fits(f.n, 32)
    case SignedVarInt64 => f.Number? && Fits(f.n, 64)
    case Chars => f.Characters? && forall i | 0 <= i < |f.s| :: Fits(f.s[i], 8) && !Text.Stops(f.s[i], false)
  }

  /** The bits the writer appends for a field. */
  function Code(k: Kind, f: Field): seq<bool>
    requires Carries(k, f)
  {
    match k
    case UBits(w) => Low(f.n, w)
    case SBits(w) => SignedCode(f.n, w)
    case OneBit => [f.n == 1]
    case VarInt32 => VarInt.Code(f.n)
    case VarInt64 => VarInt.Code(f.n)
    case SignedVarInt32 => VarInt.Code(Encode(f.n, 32))
    case SignedVarInt64 => VarInt.Code(Encode(f.n, 64))
    case Chars => Text.Code(f.s)
  }

  /** What the reader makes of the next bits when it reads a field of kind k. */
  function Read(k: Kind, c: Cursor): Field
    requires c.Valid()
  {
    match k
    case UBits(w) => Number(c.Taken(w))
    case SBits(w) => if w == 0 then Number(0) else Number(SignedTaken(c, w))
    case OneBit => Number(c.Taken(1))
    case VarInt32 => Number(ReadVarInt(c, 5, 32))
    case VarInt64 => Number(ReadVarInt(c, 10, 64))
    case SignedVarInt32 => Number(Decode(ReadVarInt(c, 5, 32), 32))
    case SignedVarInt64 => Number(Decode(ReadVarInt(c, 10, 64), 64))
    case Chars => Characters(Text.Read(c, false))
  }

  function ReadEnd(k: Kind, c: Cursor): (c': Cursor)
    requires c.Valid()
    ensures c'.Valid() && c'.stream == c.stream
  {
    match k
    case UBits(w) => c.Advance(w)
    case SBits(w) => c.Advance(w)
    case OneBit => c.Advance(1)
    case VarInt32 => VarInt.ReadEnd(c, 5)
    case VarInt64 => VarInt.ReadEnd(c, 10)
    case SignedVarInt32 => VarInt.ReadEnd(c, 5)
    case SignedVarInt64 => VarInt.ReadEnd(c, 10)
    case Chars => Text.ReadEnd(c, false)
  }

  function ReadVarInt(c: Cursor, k: nat, N: nat): (n: nat)
    requires c.Valid()
    ensures n < Pow2(N)
  {
    TruncBound(VarInt.Read(c, k), N);
    Trunc(VarInt.Read(c, k), N)
  }

  lemma VarIntRoundTrip(c: Cursor, x: nat, k: nat, N: nat)
    requires (k == 5 && N == 32) || (k == 10 && N == 64)
    requires x < Pow2(N) && c.At(VarInt.Code(x))
    ensures ReadVarInt(c, k, N) == x && VarInt.ReadEnd(c, k) == c.Advance(|VarInt.Code(x)|)
  {
    hide VarInt.Code, VarInt.Size, VarInt.Read, VarInt.ReadEnd, Trunc, Pow2;
    VarInt.SizeLimits(x);
    VarInt.RoundTrip(c, x, k);
    TruncSmall(x, N);
  }

  /** The number in the low seven bits of the bytes, lowest first. */
  function Base128(bs: seq<byte>): nat {
    if bs == [] then 0 else bs[0] as nat % 128 + 128 * Base128(bs[1..])
  }

  /** All but the last of these bytes say that more follow, and the last says otherwise or is the last allowed. */
  predicate VarIntBytes(bs: seq<byte>, limit: nat) {
    && 1 <= |bs| <= limit && (forall i | 0 <= i < |bs| - 1 :: bs[i] >= 128)
    && (bs[|bs| - 1] < 128 || |bs| == limit)
  }

  lemma {:induction false} ReadsBytes(c: Cursor, bs: seq<byte>, k: nat)
    requires VarIntBytes(bs, k) && c.At(StreamOf(bs))
    ensures VarInt.Read(c, k) == Base128(bs) && VarInt.ReadEnd(c, k) == c.Advance(8 * |bs|)
    decreases k
  {
    hide StreamOf, Value, Low, Pow2;
    Pow2Values();
    ByteStreamOf(bs[0]);
    StreamOfAppend(bs[..1], bs[1..]);
    assert bs == bs[..1] + bs[1..] && bs[..1] == [bs[0]];
    AtSplit(c, StreamOf(bs[..1]), StreamOf(bs[1..]));
    TakenLow(c, bs[0], 8);
    if |bs| > 1 {
      ReadsBytes(c.Advance(8), bs[1..], k - 1);
    } else {
      assert Base128(bs[1..]) == 0;
      assert k > 1 ==> bs[0] < 128;
      assert k == 1 ==> VarInt.Read(c.Advance(8), 0) == 0 && VarInt.ReadEnd(c.Advance(8), 0) == c.Advance(8);
    }
  }

  /** 0, -1, 1, -2, 2 and so on. */
  function Alternating(u: nat): int {
    if u % 2 == 0 then u / 2 else -(u / 2) - 1
  }

  /**
   Any bytes are read, also a code that is longer than the number needs: up to five bytes of a
   32-bit number and ten of a 64-bit one, of which what does not fit is dropped.
   */
  lemma AnyBytesRead(c: Cursor, bs: seq<byte>)
    requires c.Valid() && c.At(StreamOf(bs))
    ensures VarIntBytes(bs, 5) ==>
      Read(VarInt32, c) == Number(Base128(bs) % 0x1_0000_0000) && ReadEnd(VarInt32, c) == c.Advance(8 * |bs|)
    ensures VarIntBytes(bs, 10) ==>
      && Read(VarInt64, c) == Number(Base128(bs) % 0x1_0000_0000_0000_0000)
      && ReadEnd(VarInt64, c) == c.Advance(8 * |bs|)
  {
    hide StreamOf, VarInt.Read, VarInt.ReadEnd, Trunc, Pow2;
    VarInt.SevenBitPowers();
    TruncIsMod(VarInt.Read(c, 5), 32);
    TruncIsMod(VarInt.Read(c, 10), 64);
    if VarIntBytes(bs, 5) {
      ReadsBytes(c, bs, 5);
    }
    if VarIntBytes(bs, 10) {
      ReadsBytes(c, bs, 10);
    }
  }

  /** So they are for signed numbers, of which the even codes are the non-negative ones. */
  lemma AnyBytesReadSigned(c: Cursor, bs: seq<byte>)
    requires c.Valid() && c.At(StreamOf(bs))
    ensures VarIntBytes(bs, 5) ==>
      && Read(SignedVarInt32, c) == Number(Alternating(Base128(bs) % 0x1_0000_0000))
      && ReadEnd(SignedVarInt32, c) == c.Advance(8 * |bs|)
    ensures VarIntBytes(bs, 10) ==>
      && Read(SignedVarInt64, c) == Number(Alternating(Base128(bs) % 0x1_0000_0000_0000_0000))
      && ReadEnd(SignedVarInt64, c) == c.Advance(8 * |bs|)
  {
    hide Decode, StreamOf, ReadVarInt, VarInt.ReadEnd, Pow2, VarIntBytes, Base128;
    AnyBytesRead(c, bs);
    DecodeIs(ReadVarInt(c, 5, 32), 32);
    DecodeIs(ReadVarInt(c, 10, 64), 64);
  }

  /** A signed number of small magnitude has a short code, whatever its sign. */
  lemma SignedSizeIff(n: int, k: nat)
    requires k >= 1 && Fits(n, 64)
    ensures |Code(SignedVarInt64, Number(n))| <= 8 * k <==> Fits(n, 7 * k)
    ensures Fits(n, 32) ==> (|Code(SignedVarInt32, Number(n))| <= 8 * k <==> Fits(n, 7 * k))
  {
    hide VarInt.Code, VarInt.Size, Encode, Pow2;
    Pow2Double(7 * k - 1);
    EncodeIs(n, 64);
    VarInt.SizeIs(Encode(n, 64), k);
    if Fits(n, 32) {
      EncodeIs(n, 32);
    }
  }

  lemma OneBitTaken(c: Cursor, n: nat)
    requires n <= 1 && c.At([n == 1])
    ensures c.Taken(1) == n
  {
    hide Value;
    assert Low(n, 1) == [n == 1] && Pow2(1) == 2;
    TakenLow(c, n, 1);
  }

  /** A field that its kind can carry is read back, and the reader stops right behind it. */
  lemma FieldRoundTrip(c: Cursor, k: Kind, f: Field)
    requires Carries(k, f) && c.At(Code(k, f))
    ensures Read(k, c) == f && ReadEnd(k, c) == c.Advance(|Code(k, f)|)
  {
    hide VarInt.Code, VarInt.ReadEnd, ReadVarInt, Encode, Decode, SignedTaken, SignedCode, Text.Code, Low, Value, Pow2;
    match k
    case UBits(w) => TakenLow(c, f.n, w);
    case SBits(w) => SignedReadBackIff(c, f.n, w);
    case OneBit => OneBitTaken(c, f.n);
    case VarInt32 => VarIntRoundTrip(c, f.n, 5, 32);
    case VarInt64 => VarIntRoundTrip(c, f.n, 10, 64);
    case SignedVarInt32 =>
      DecodeEncode(f.n, 32);
      VarIntRoundTrip(c, Encode(f.n, 32), 5, 32);
    case SignedVarInt64 =>
      DecodeEncode(f.n, 64);
      VarIntRoundTrip(c, Encode(f.n, 64), 10, 64);
    case Chars => Text.RoundTrip(c, f.s, false);
  }

  // ----- whole messages

  predicate AllCarry(ks: seq<Kind>, fs: seq<Field>) {
    |ks| == |fs| && forall i | 0 <= i < |ks| :: Carries(ks[i], fs[i])
  }

  function CodeAll(ks: seq<Kind>, fs: seq<Field>): seq<bool>
    requires AllCarry(ks, fs)
  {
    if ks == [] then [] else Code(ks[0], fs[0]) + CodeAll(ks[1..], fs[1..])
  }

  function ReadAll(ks: seq<Kind>, c: Cursor): seq<Field>
    requires c.Valid()
    decreases ks
  {
    if ks == [] then [] else [Read(ks[0], c)] + ReadAll(ks[1..], ReadEnd(ks[0], c))
  }

  function ReadAllEnd(ks: seq<Kind>, c: Cursor): (c': Cursor)
    requires c.Valid()
    ensures c'.Valid() && c'.stream == c.stream
    decreases ks
  {
    if ks == [] then c else ReadAllEnd(ks[1..], ReadEnd(ks[0], c))
  }

  /** Any message is read back field by field, whatever precedes and follows it in the buffer. */
  lemma {:induction false} MessageRoundTrip(c: Cursor, ks: seq<Kind>, fs: seq<Field>)
    requires AllCarry(ks, fs) && c.At(CodeAll(ks, fs))
    ensures ReadAll(ks, c) == fs && ReadAllEnd(ks, c) == c.Advance(|CodeAll(ks, fs)|)
    decreases ks
  {
    hide Code, Read, ReadEnd, Carries, Value;
    if ks != [] {
      AtSplit(c, Code(ks[0], fs[0]), CodeAll(ks[1..], fs[1..]));
      FieldRoundTrip(c, ks[0], fs[0]);
      MessageRoundTrip(ReadEnd(ks[0], c), ks[1..], fs[1..]);
    }
  }
}
