/**
 `WriteUBitVar` and `ReadUBitVar`: a 2-bit length tag and 4, 8, 12 or 32 data bits.
 */
module UBitVar {
  import opened Bits
  import opened Wire

  function Tag(d: nat): (t: nat)
    ensures t < 4
  {
    if d < 0x10 then 0 else if d < 0x100 then 1 else if d < 0x1000 then 2 else 3
  }

  /** The data bits that follow a tag. */
  function Width(tag: nat): nat
    requires tag < 4
  {
    if tag < 3 then 4 * (tag + 1) else 32
  }

  /** The four-branch layout that the source gives as its reference. */
  function Code(d: nat): (code: seq<bool>)
    ensures |code| == 2 + Width(Tag(d))
  {
    Low(Tag(d), 2) + Low(d, Width(Tag(d)))
  }

  /** The two writes of the branch-free form, with its 32-bit wrap-around. */
  function BranchFreeCode(d: nat): seq<bool>
    requires d < Pow2(32)
  {
    var n := (if d < 0x10 then -1 else 0) + (if d < 0x100 then -1 else 0) + (if d < 0x1000 then -1 else 0);
    Low(Trunc(d * 4 + n + 3, 32), 6 + n * 4 + 12) + if d >= 0x1000 then Low(Shr(d, 16), 16) else []
  }

  lemma TagFirst(d: nat, t: nat, w: nat)
    requires t < 4 && 2 + w <= 32
    ensures Low(Trunc(d * 4 + t, 32), 2 + w) == Low(t, 2) + Low(d, w)
  {
    LowOfTrunc(d * 4 + t, 32, 2 + w);
    assert Shl(d, 2) == 4 * d by { assert Shl(d, 1) == 2 * d; }
    Pow2Values();
    LowOfSum(t, d, 2, w);
  }

  /** The branch-free form writes the reference layout for every 32-bit number. */
  lemma BranchFreeIsReference(d: nat)
    requires d < Pow2(32)
    ensures BranchFreeCode(d) == Code(d)
    ensures |Code(d)| in {6, 10, 14, 34}
  {
    hide Low, Trunc, Shr;
    TagFirst(d, Tag(d), if d < 0x1000 then Width(Tag(d)) else 16);
    LowSplit(d, 16, 16);
  }

  /** Decoding the reference layout. */
  function Decode(c: Cursor): (d: nat)
    requires c.Valid()
  {
    Pow2Values();
    c.Advance(2).Taken(Width(c.Taken(2)))
  }

  lemma {:induction false} ReferenceRoundTrip(c: Cursor, d: nat)
    requires c.At(Code(d)) && d < Pow2(32)
    ensures Decode(c) == d && c.Advance(2).Advance(Width(c.Taken(2))) == c.Advance(|Code(d)|)
  {
    hide Low, Pow2;
    Pow2Values();
    AtSplit(c, Low(Tag(d), 2), Low(d, Width(Tag(d))));
    TakenLow(c, Tag(d), 2);
    TakenLow(c.Advance(2), d, Width(Tag(d)));
  }

  function CodeAll(ds: seq<nat>): seq<bool> {
    if ds == [] then [] else Code(ds[0]) + CodeAll(ds[1..])
  }

  /** The layout is prefix-free: a concatenation of codes determines the numbers and their count. */
  lemma {:induction false} UniquelyDecodable(xs: seq<nat>, ys: seq<nat>)
    requires forall i | 0 <= i < |xs| :: xs[i] < Pow2(32)
    requires forall i | 0 <= i < |ys| :: ys[i] < Pow2(32)
    requires CodeAll(xs) == CodeAll(ys)
    ensures xs == ys
    decreases xs
  {
    hide Code, Decode;
    if xs != [] && ys != [] {
      var s := CodeAll(xs);
      var c := Cursor(s, 0, false);
      assert s[..|Code(xs[0])|] == Code(xs[0]) && s[..|Code(ys[0])|] == Code(ys[0]);
      assert c.At(Code(xs[0])) && c.At(Code(ys[0]));
      ReferenceRoundTrip(c, xs[0]);
      ReferenceRoundTrip(c, ys[0]);
      assert s[|Code(xs[0])|..] == CodeAll(xs[1..]) && s[|Code(ys[0])|..] == CodeAll(ys[1..]);
      UniquelyDecodable(xs[1..], ys[1..]);
    } else {
      CodeNotEmpty(xs);
      CodeNotEmpty(ys);
    }
  }

  lemma CodeNotEmpty(ds: seq<nat>)
    ensures ds != [] ==> CodeAll(ds) != []
  {
  }

  // ----- what ReadUBitVar makes of it

  /** ReadUBitVar takes four data bits first and looks for the tag in bits 4 and 5. */
  function Read(c: Cursor): nat
    requires c.Valid()
  {
    var r := c.Taken(6);
    var d := c.Advance(6);
    match r / 16 % 4
    case 0 => r
    case 1 => r % 16 + 16 * d.Taken(4)
    case 2 => r % 16 + 16 * d.Taken(8)
    case _ => r % 16 + 16 * d.Taken(28)
  }

  function ReadEnd(c: Cursor): (c': Cursor)
    requires c.Valid()
    ensures c'.Valid() && c'.stream == c.stream
  {
    var d := c.Advance(6);
    match c.Taken(6) / 16 % 4
    case 0 => d
    case 1 => d.Advance(4)
    case 2 => d.Advance(8)
    case _ => d.Advance(28)
  }

  /** The layout that the reader expects: four data bits, the tag, and the rest of the data. */
  function ReaderCode(x: nat, t: nat): seq<bool>
    requires t < 4
  {
    Low(x, 4) + Low(t, 2) + Low(Shr(x, 4), Width(t) - 4)
  }

  /** Of that layout, with any tag that leaves room for the number, every number is read back. */
  lemma ReaderLayoutRoundTrip(c: Cursor, x: nat, t: nat)
    requires t < 4 && x < Pow2(Width(t)) && c.At(ReaderCode(x, t))
    ensures Read(c) == x && ReadEnd(c) == c.Advance(|ReaderCode(x, t)|)
  {
    hide Low, Value, Pow2, Shr, Cursor.Taken, Cursor.Advance, Trunc;
    var w := Width(t) - 4;
    AtSplit(c, Low(x, 4) + Low(t, 2), Low(Shr(x, 4), w));
    Pow2Values();
    ShrIsDiv(x, 4);
    ShrBound(x, 4, w);
    TakenLow(c.Advance(6), x / 16, w);
    Six(c, x, t);
    NibbleAndTag(x % 16, t);
  }

  lemma NibbleAndTag(low: nat, t: nat)
    requires low < 16 && t < 4
    ensures (low + 16 * t) % 16 == low && (low + 16 * t) / 16 % 4 == t
  {
  }

  lemma Six(c: Cursor, x: nat, t: nat)
    requires t < 4 && c.At(Low(x, 4) + Low(t, 2))
    ensures c.Taken(6) == x % 16 + 16 * t
  {
    hide Low, Value, Pow2;
    Pow2Values();
    TruncIsMod(x, 4);
    LowOfSum(x % 16, t, 4, 2);
    LowOfTrunc(x, 4, 4);
    ShlIsTimes(t, 4);
    TakenLow(c, x % 16 + 16 * t, 6);
  }

  /** The first six bits of a code hold the tag below the four low data bits. */
  lemma FirstSix(c: Cursor, d: nat)
    requires c.At(Code(d)) && d < Pow2(32)
    ensures c.Taken(6) == Tag(d) + 4 * (d % 16)
  {
    hide Low, Value, Shl, Trunc, Pow2;
    var t, w := Tag(d), Width(Tag(d));
    AtSplit(c, Low(t, 2), Low(d, w));
    Pow2Values();
    TakenLow(c, t, 2);
    LowSplit(d, 4, w - 4);
    AtSplit(c.Advance(2), Low(d, 4), Low(Shr(d, 4), w - 4));
    TakenLow(c.Advance(2), d, 4);
    TruncIsMod(d, 4);
    var a, b := c.stream[c.pos..c.pos + 2], c.stream[c.pos + 2..c.pos + 6];
    assert a + b == c.stream[c.pos..c.pos + 6];
    ValueAppend(a, b);
    ShlIsTimes(Value(b), 2);
  }

  /** The data bits from the fifth on. */
  lemma Upper(c: Cursor, d: nat)
    requires c.At(Code(d)) && d < Pow2(32) && d >= 0x10
    ensures var e := c.Advance(6);
      e.Taken(Width(Tag(d)) - 4) == d / 16 && e.Advance(Width(Tag(d)) - 4) == c.Advance(|Code(d)|)
  {
    hide Low, Value, Pow2;
    var t, w := Tag(d), Width(Tag(d));
    AtSplit(c, Low(t, 2), Low(d, w));
    LowSplit(d, 4, w - 4);
    AtSplit(c.Advance(2), Low(d, 4), Low(Shr(d, 4), w - 4));
    ShrIsDiv(d, 4);
    Pow2Values();
    TakenLow(c.Advance(2).Advance(4), d / 16, w - 4);
  }

  /** The low nibble and the two bits above it of t + 4 * m. */
  lemma SplitNibble(m: nat, t: nat)
    requires t < 4 && m < 16
    ensures (t + 4 * m) / 16 % 4 == m / 4 && (t + 4 * m) % 16 == t + 4 * (m % 4)
    ensures m == 5 * t <==> t + 4 * (m % 4) == m && m / 4 == t
    ensures t + 4 * (m % 4) == m ==> m == 5 * t
  {
    var a, b := m / 4, m % 4;
    assert t + 4 * m == 16 * a + (4 * b + t);
  }

  lemma Nibble(d: nat, t: nat)
    requires t < 4
    ensures var r := t + 4 * (d % 16);
      && (d % 16 == 5 * t ==> r % 16 == d % 16 && r / 16 % 4 == t)
      && (d % 16 != 5 * t ==> forall u: nat :: r % 16 + 16 * u != d && (r < 16 ==> r != d))
  {
    SplitNibble(d % 16, t);
    var r := t + 4 * (d % 16);
    forall u: nat ensures r % 16 + 16 * u == d ==> r % 16 == d % 16 {
    }
  }

  /**
   ReadUBitVar gives back what WriteUBitVar wrote exactly when the low nibble repeats the tag in
   both of its halves: 0 itself, and above 15 the numbers that are 5, 10 or 15 modulo 16.
   */
  lemma ReadBackIff(c: Cursor, d: nat)
    requires c.At(Code(d)) && d < Pow2(32)
    ensures Read(c) == d <==> d % 16 == 5 * Tag(d)
    ensures Read(c) == d ==> ReadEnd(c) == c.Advance(|Code(d)|)
  {
    hide Code, Pow2, Value, Cursor.Advance, Cursor.Taken;
    FirstSix(c, d);
    Nibble(d, Tag(d));
    if d >= 0x10 {
      Upper(c, d);
    }
  }

  /** The number 1 comes back as 4. */
  lemma OneReadsAsFour()
    ensures Cursor(Code(1), 0, false).Valid() && Read(Cursor(Code(1), 0, false)) == 4
  {
    var c := Cursor(Code(1), 0, false);
    assert c.stream[0..|Code(1)|] == Code(1);
    Pow2Values();
    FirstSix(c, 1);
  }
}
