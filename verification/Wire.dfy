/**
 What is read from and written to a bit stream, without any buffer: a position in a bit string
 with a sticky overflow flag, and the bit layout of every kind of field. The reader and writer
 classes are proved against these functions; the lemmas here are about whole messages.
 */
module Wire {
  import opened Bits
  import opened ZigZag

  datatype Cursor = Cursor(stream: seq<bool>, pos: nat, overflowed: bool) {
    predicate Valid() {
      pos <= |stream| && (overflowed ==> pos == |stream|)
    }

    /** n more bits can be read. */
    predicate Has(n: nat) {
      !overflowed && pos + n <= |stream|
    }

    /** The position after reading n bits; a read past the end leaves nothing to read. */
    function Advance(n: nat): (c: Cursor)
      requires Valid()
      ensures c.Valid() && c.stream == stream
    {
      if Has(n) then this.(pos := pos + n) else this.(pos := |stream|, overflowed := true)
    }

    /** The unsigned number in the next n bits, 0 once they are not all there. */
    function Taken(n: nat): (v: nat)
      requires Valid()
      ensures v < Pow2(n)
    {
      if Has(n) then ValueBound(stream[pos..pos + n]); Value(stream[pos..pos + n]) else 0
    }

    /** The bit string code comes next. */
    predicate At(code: seq<bool>) {
      Valid() && Has(|code|) && stream[pos..pos + |code|] == code
    }
  }

  // ----- runs of plain reads

  /** The numbers that a run of reads of the given widths returns. */
  function TakenAll(c: Cursor, widths: seq<nat>): (vs: seq<nat>)
    requires c.Valid()
    ensures |vs| == |widths|
    decreases widths
  {
    if widths == [] then [] else [c.Taken(widths[0])] + TakenAll(c.Advance(widths[0]), widths[1..])
  }

  function AdvanceAll(c: Cursor, widths: seq<nat>): (c': Cursor)
    requires c.Valid()
    ensures c'.Valid() && c'.stream == c.stream
    decreases widths
  {
    if widths == [] then c else AdvanceAll(c.Advance(widths[0]), widths[1..])
  }

  function Sum(widths: seq<nat>): nat {
    if widths == [] then 0 else widths[0] + Sum(widths[1..])
  }

  /** A run overflows exactly when it asks for more bits than remain; until then none is lost. */
  lemma {:induction false} RunOverflowsIff(c: Cursor, widths: seq<nat>)
    requires c.Valid()
    ensures AdvanceAll(c, widths) ==
      if widths == [] || c.Has(Sum(widths)) then c.(pos := c.pos + Sum(widths))
      else c.(pos := |c.stream|, overflowed := true)
    decreases widths
  {
    if widths != [] {
      var d := c.Advance(widths[0]);
      RunOverflowsIff(d, widths[1..]);
    }
  }

  /** Overflow is absorbing and reads as zero. */
  lemma {:induction false} ZerosOnceOverflowed(c: Cursor, widths: seq<nat>)
    requires c.Valid() && c.overflowed
    ensures AdvanceAll(c, widths) == c
    ensures forall i | 0 <= i < |widths| :: TakenAll(c, widths)[i] == 0
    decreases widths
  {
    if widths != [] {
      assert c.Advance(widths[0]) == c;
      ZerosOnceOverflowed(c, widths[1..]);
    }
  }

  /** Reading a and then b bits is reading a + b bits and splitting the number. */
  lemma ReadSplits(c: Cursor, a: nat, b: nat)
    requires c.Valid() && c.Has(a + b)
    ensures c.Advance(a).Advance(b) == c.Advance(a + b)
    ensures c.Taken(a) == Trunc(c.Taken(a + b), a)
    ensures c.Advance(a).Taken(b) == Shr(c.Taken(a + b), a)
  {
    hide Value, Trunc, Shr;
    var s := c.stream[c.pos..c.pos + a + b];
    ValueSplit(s, a);
    assert s[..a] == c.stream[c.pos..c.pos + a];
    assert s[a..] == c.stream[c.pos + a..c.pos + a + b];
  }

  /** The number that n single-bit reads make, first bit lowest. */
  function Folded(c: Cursor, n: nat): nat
    requires c.Valid()
    decreases n
  {
    if n == 0 then 0 else c.Taken(1) + 2 * Folded(c.Advance(1), n - 1)
  }

  lemma FirstBit(s: seq<bool>)
    requires s != []
    ensures Value(s[..1]) == (if s[0] then 1 else 0)
    ensures Value(s) == Value(s[..1]) + 2 * Value(s[1..])
  {
    assert s[..1][1..] == [];
  }

  lemma {:induction false} FoldedIs(c: Cursor, n: nat)
    requires c.Valid() && !c.overflowed
    ensures Folded(c, n) == if c.Has(n) then c.Taken(n) else Value(c.stream[c.pos..])
    decreases n
  {
    hide Value;
    ZeroWord(0);
    if n == 0 {
      assert c.stream[c.pos..c.pos] == [];
    } else if c.Has(1) {
      FoldedIs(c.Advance(1), n - 1);
      var s := if c.Has(n) then c.stream[c.pos..c.pos + n] else c.stream[c.pos..];
      FirstBit(s);
      assert s[..1] == c.stream[c.pos..c.pos + 1];
      assert s[1..] == if c.Has(n) then c.stream[c.pos + 1..c.pos + n] else c.stream[c.pos + 1..];
    } else {
      assert c.stream[c.pos..] == [];
      FoldedOfOverflowed(c.Advance(1), n - 1);
    }
  }

  lemma {:induction false} FoldedOfOverflowed(c: Cursor, n: nat)
    requires c.Valid() && c.overflowed
    ensures Folded(c, n) == 0
  {
    if n != 0 {
      FoldedOfOverflowed(c.Advance(1), n - 1);
    }
  }

  /** A wide read is its single-bit reads folded, except that it gives up a partial tail. */
  lemma WideReadIsFolded(c: Cursor, n: nat)
    requires c.Valid()
    ensures c.Taken(n) == Folded(c, n) <==> c.Has(n) || c.overflowed || Value(c.stream[c.pos..]) == 0
  {
    if c.overflowed {
      FoldedOfOverflowed(c, n);
    } else {
      FoldedIs(c, n);
    }
  }

  // ----- codes in a stream

  lemma TakenLow(c: Cursor, x: nat, n: nat)
    requires c.At(Low(x, n))
    ensures c.Taken(n) == Trunc(x, n)
    ensures x < Pow2(n) ==> c.Taken(n) == x
  {
    ValueOfLow(x, n);
    if x < Pow2(n) {
      TruncSmall(x, n);
    }
  }

  lemma AtSplit(c: Cursor, a: seq<bool>, b: seq<bool>)
    requires c.At(a + b)
    ensures c.At(a) && c.Advance(|a|).At(b)
    ensures c.Advance(|a + b|) == c.Advance(|a|).Advance(|b|)
  {
    var s := c.stream[c.pos..c.pos + |a + b|];
    assert s[..|a|] == a && s[|a|..] == b;
    assert s[..|a|] == c.stream[c.pos..c.pos + |a|];
    assert s[|a|..] == c.stream[c.pos + |a|..c.pos + |a| + |b|];
  }

  // ----- signed numbers

  function SignedTaken(c: Cursor, n: nat): (v: int)
    requires c.Valid() && n >= 1
    ensures Fits(v, n)
  {
    ToSigned(c.Taken(n), n)
  }

  /** What WriteSBitLong appends: n - 1 magnitude bits, then the sign bit. */
  function SignedCode(data: int, n: nat): (code: seq<bool>)
    requires Fits(data, 32) && n >= 1
    ensures |code| == n
  {
    Pow2Values();
    Low(if data < 0 then 0x8000_0000 + data else data, n - 1) + [data < 0]
  }

  /** The bias 2^31 does not reach the m low bits. */
  lemma BiasIsInvisible(y: nat, m: nat)
    requires m <= 31 && y < Pow2(m) <= Pow2(31)
    ensures Low(Pow2(31) - Pow2(m) + y, m) == Low(y, m)
  {
    hide Low, Shl, Pow2;
    var z := Pow2(31 - m) - 1;
    Pow2Add(m, 31 - m);
    ShlIsTimes(z, m);
    MulDistributes(z, 1, Pow2(m));
    LowOfSum(y, z, m, 0);
  }

  lemma SignedCodeIsTwosComplement(data: int, n: nat)
    requires 1 <= n <= 32 && Fits(data, n) && Fits(data, 32)
    ensures SignedCode(data, n) == Low(ToUnsigned(data, n), n)
  {
    hide Low, Pow2;
    var m := n - 1;
    Pow2Values();
    if data < 0 {
      Pow2Monotone(m, 31);
      BiasIsInvisible(data + Pow2(m), m);
      LowOfSum(data + Pow2(m), 1, m, 1);
      assert Shl(1, m) == Pow2(m) by { ShlIsTimes(1, m); }
      Pow2Double(m);
      LowIsBits(1, 1);
    } else {
      LowSplit(data, m, 1);
      ShrSmall(data, m);
      LowIsBits(0, 1);
    }
  }

  /** A written signed number is read back exactly when it fits its field. */
  lemma SignedReadBackIff(c: Cursor, data: int, n: nat)
    requires 1 <= n <= 32 && Fits(data, 32) && c.At(SignedCode(data, n))
    ensures SignedTaken(c, n) == data <==> Fits(data, n)
  {
    if Fits(data, n) {
      SignedCodeIsTwosComplement(data, n);
      TakenLow(c, ToUnsigned(data, n), n);
    }
  }

  lemma MagnitudeAndSign(c: Cursor, magnitude: nat, sign: bool, m: nat)
    requires c.At(Low(magnitude, m) + [sign])
    ensures c.Taken(m + 1) == magnitude % Pow2(m) + if sign then Pow2(m) else 0
  {
    hide Low, Value, Pow2, Shl;
    var s := c.stream[c.pos..c.pos + m + 1];
    assert s == Low(magnitude, m) + [sign];
    TruncIsMod(magnitude, m);
    ValueOfLow(magnitude, m);
    ValueAppend(Low(magnitude, m), [sign]);
    FirstBit([sign]);
    assert [sign][..1] == [sign];
    ShlIsTimes(Value([sign]), m);
  }

  /** Of any number the low n - 1 bits and the sign come back. */
  lemma SignedReadBackIs(c: Cursor, data: int, n: nat)
    requires 1 <= n <= 32 && Fits(data, 32) && c.At(SignedCode(data, n))
    ensures SignedTaken(c, n) == data % Pow2(n - 1) - if data < 0 then Pow2(n - 1) else 0
  {
    hide Low, Value, Pow2, Cursor.At, Cursor.Taken;
    var m := n - 1;
    Pow2Values();
    Pow2Double(m);
    if data < 0 {
      MagnitudeAndSign(c, 0x8000_0000 + data, true, m);
      Pow2Add(31 - m, m);
      AddMultiple(data, Pow2(31 - m), Pow2(m));
    } else {
      MagnitudeAndSign(c, data, false, m);
    }
  }

  lemma AddMultiple(a: int, q: int, p: nat)
    requires p > 0
    ensures (a + q * p) % p == a % p
  {
    var d, r := a / p, a % p;
    assert a == d * p + r;
    MulDistributes(d, q, p);
    DivModUnique(a + q * p, p, d + q, r);
  }

  /** ReadByte sign-extends what WriteByte wrote unsigned: it gives back the bytes below 0x80 only. */
  lemma ByteReadBackIff(c: Cursor, x: nat)
    requires x < Pow2(8) && c.At(Low(x, 8))
    ensures SignedTaken(c, 8) == x <==> x < 0x80
    ensures SignedTaken(c, 8) == if x < 0x80 then x else x - 0x100
  {
    Pow2Values();
    TakenLow(c, x, 8);
  }

  /** ReadShort does not sign-extend what WriteShort wrote signed: negative numbers come back changed. */
  lemma ShortReadBackIff(c: Cursor, data: int)
    requires Fits(data, 16) && Fits(data, 32) && c.At(SignedCode(data, 16))
    ensures c.Taken(16) == data <==> data >= 0
    ensures c.Taken(16) == if data >= 0 then data else data + 0x1_0000
  {
    hide Low, Value;
    Pow2Values();
    SignedCodeIsTwosComplement(data, 16);
    TakenLow(c, ToUnsigned(data, 16), 16);
  }

  // ----- any partition of the bits

  /** The bits that numbers of the given widths stand for, back to back. */
  function Joined(vs: seq<nat>, widths: seq<nat>): (s: seq<bool>)
    requires |vs| == |widths|
    ensures |s| == Sum(widths)
  {
    if vs == [] then [] else Low(vs[0], widths[0]) + Joined(vs[1..], widths[1..])
  }

  /** However a reader cuts the stream into numbers, joined they are the same bits in the same order. */
  lemma {:induction false} AnyCutGivesTheSameBits(c: Cursor, widths: seq<nat>)
    requires c.Valid() && c.Has(Sum(widths))
    ensures Joined(TakenAll(c, widths), widths) == c.stream[c.pos..c.pos + Sum(widths)]
    decreases widths
  {
    hide Low, Value;
    if widths != [] {
      var s, w := c.stream, widths[0];
      LowOfValue(s[c.pos..c.pos + w]);
      AnyCutGivesTheSameBits(c.Advance(w), widths[1..]);
      Adjacent(s, c.pos, c.pos + w, c.pos + Sum(widths));
    }
  }

  // ----- one bit at a time

  function Ones(k: nat): (widths: seq<nat>)
    ensures |widths| == k && forall i | 0 <= i < k :: widths[i] == 1
  {
    seq(k, _ => 1)
  }

  /** Overflow means the end of the buffer; it means the end of the message exactly if that is the same. */
  lemma OverflowIsMessageEndIff(c: Cursor, dataBits: nat)
    requires c.Valid() && !c.overflowed && c.pos <= dataBits <= |c.stream|
    ensures (forall n: nat :: OverflowsAtEnd(c, dataBits, n)) <==> dataBits == |c.stream|
  {
    if dataBits < |c.stream| {
      var n := |c.stream| - c.pos;
      OnesOverflow(c, n);
      assert !OverflowsAtEnd(c, dataBits, n);
    } else {
      forall n: nat ensures OverflowsAtEnd(c, dataBits, n) {
        OnesOverflow(c, n);
      }
    }
  }

  lemma OnesOverflow(c: Cursor, n: nat)
    requires c.Valid() && !c.overflowed
    ensures AdvanceAll(c, Ones(n)).overflowed <==> !c.Has(n)
  {
    RunOverflowsIff(c, Ones(n));
    SumOfOnes(n);
  }

  /** n one-bit reads overflow exactly if they ask for more than the message has left. */
  ghost predicate OverflowsAtEnd(c: Cursor, dataBits: nat, n: nat)
    requires c.Valid()
  {
    AdvanceAll(c, Ones(n)).overflowed <==> c.pos + n > dataBits
  }

  lemma {:induction false} SumOfOnes(n: nat)
    ensures Sum(Ones(n)) == n
  {
    if n != 0 {
      assert Ones(n)[1..] == Ones(n - 1);
      SumOfOnes(n - 1);
    }
  }
}
