/**
 `CByteSwap` and `DWordSwapC`: changing the byte order of values. A value of a type T is its bytes.
 */
module ByteSwap {
  import opened Bits
  import opened ByteStream
  import opened Wire

  type Bytes = seq<byte>

  function Reversed(s: Bytes): (r: Bytes)
    ensures |r| == |s| && forall k | 0 <= k < |s| :: r[k] == s[|s| - 1 - k]
  {
    seq(|s|, i requires 0 <= i < |s| => s[|s| - 1 - i])
  }

  lemma ReversedTwice(s: Bytes)
    ensures Reversed(Reversed(s)) == s
  {
    hide Reversed;
    assert forall k | 0 <= k < |s| :: Reversed(Reversed(s))[k] == s[k];
  }

  /** LowLevelByteSwap, for output and input that may be the same element. */
  method LowLevelByteSwap(output: array<Bytes>, o: nat, input: array<Bytes>, i: nat, size: nat)
    requires o < output.Length && i < input.Length && |output[o]| == |input[i]| == size
    modifies output
    ensures output[..] == old(output[..])[o := Reversed(old(input[i]))]
  {
    hide Reversed;
    var temp := output[o];
    for k := 0 to size
      invariant |temp| == size && output[..] == old(output[..]) && input[i] == old(input[i])
      invariant forall j | 0 <= j < k :: temp[j] == input[i][size - 1 - j]
    {
      temp := temp[k := input[i][size - (k + 1)]];
    }
    assert temp == Reversed(input[i]);
    output[o] := temp;
  }

  /** The buffer holds at least count values of this size. */
  predicate Holds(buffer: seq<Bytes>, count: int, size: nat) {
    count <= |buffer| && forall i | 0 <= i < count :: |buffer[i]| == size
  }

  /** The first count values of input stored over those of output, each reversed if swap is set. */
  ghost predicate Swapped(was: seq<Bytes>, input: seq<Bytes>, now: seq<Bytes>, count: int, swap: bool)
    requires count <= |input|
  {
    && |now| == |was|
    && forall i | 0 <= i < |now| ::
      now[i] == if i >= count then was[i] else if swap then Reversed(input[i]) else input[i]
  }

  // ----- the target byte order

  datatype Setter = SetTargetBigEndian(big: bool) | FlipTargetEndian | ActivateByteSwapping(activate: bool)

  /** The target that a series of setters leaves. */
  function Target(machineBig: bool, target: bool, setters: seq<Setter>): bool
    decreases setters
  {
    if setters == [] then target
    else
      var next := match setters[0]
        case SetTargetBigEndian(big) => big
        case FlipTargetEndian => !target
        case ActivateByteSwapping(activate) => machineBig != activate;
      Target(machineBig, next, setters[1..])
  }

  class CByteSwap {
    const machineBig: bool   // IsMachineBigEndian()
    var swapBytes: bool      // m_bSwapBytes
    var bigEndian: bool      // m_bBigEndian

    ghost predicate Valid()
      reads this
    {
      swapBytes == (machineBig != bigEndian)
    }

    constructor (machineBig: bool)
      ensures Valid() && !swapBytes && this.machineBig == machineBig
    {
      this.machineBig := machineBig;
      bigEndian := machineBig;
      swapBytes := false;
    }

    method SetTarget(big: bool)
      modifies this
      ensures Valid() && bigEndian == big
    {
      bigEndian := big;
      swapBytes := machineBig != big;
    }

    method Flip()
      requires Valid()
      modifies this
      ensures Valid() && bigEndian == !old(bigEndian)
    {
      swapBytes := !swapBytes;
      bigEndian := !bigEndian;
    }

    method Activate(activate: bool)
      modifies this
      ensures Valid() && swapBytes == activate
    {
      SetTarget(machineBig != activate);
    }

    /** After any series of setters bytes are swapped exactly when the target differs from the machine. */
    method Apply(setters: seq<Setter>)
      requires Valid()
      modifies this
      ensures Valid() && bigEndian == Target(machineBig, old(bigEndian), setters)
    {
      assert setters[0..] == setters;
      for i := 0 to |setters|
        invariant Valid() && Target(machineBig, old(bigEndian), setters) == Target(machineBig, bigEndian, setters[i..])
      {
        assert setters[i..][1..] == setters[i + 1..];
        match setters[i] {
          case SetTargetBigEndian(big) => SetTarget(big);
          case FlipTargetEndian => Flip();
          case ActivateByteSwapping(activate) => Activate(activate);
        }
      }
    }

    /** Swaps count values; without an input the output is swapped in place. */
    method SwapBuffer(output: array?<Bytes>, input: array?<Bytes>, count: int, size: nat)
      requires output != null ==> Holds(output[..], count, size)
      requires input != null ==> Holds(input[..], count, size)
      modifies output
      ensures output != null ==>
        var from := if input == null then old(output[..]) else old(input[..]);
        count <= |from| && Swapped(old(output[..]), from, output[..], count, true)
    {
      hide Reversed;
      if count <= 0 || output == null {
        return;
      }
      SwapEach(output, if input == null then output else input, count, size);
    }

    /** The loop of both buffer operations. */
    method SwapEach(output: array<Bytes>, input: array<Bytes>, count: nat, size: nat)
      requires Holds(output[..], count, size) && Holds(input[..], count, size)
      modifies output
      ensures Swapped(old(output[..]), old(input[..]), output[..], count, true)
    {
      hide Reversed;
      ghost var was, from := output[..], input[..];
      for i := 0 to count
        invariant Swapped(was, from, output[..], i, true)
        invariant forall j | i <= j < count :: input[j] == from[j]
        invariant forall j | 0 <= j < output.Length :: output[j] == output[..][j]
      {
        ghost var before := output[..];
        LowLevelByteSwap(output, i, input, i, size);
        assert output[..] == before[i := Reversed(from[i])];
      }
    }

    /** Swaps only when the target differs from the machine; otherwise copies. */
    method SwapBufferToTargetEndian(output: array?<Bytes>, input: array?<Bytes>, count: int, size: nat)
      requires Valid()
      requires output != null ==> Holds(output[..], count, size)
      requires input != null ==> Holds(input[..], count, size)
      modifies output
      ensures output != null ==>
        var from := if input == null then old(output[..]) else old(input[..]);
        count <= |from| && Swapped(old(output[..]), from, output[..], count, machineBig != bigEndian)
    {
      hide Reversed;
      if count <= 0 || output == null {
        return;
      }
      var from := if input == null then output else input;
      if !swapBytes || size == 1 {
        OneByte(from[..], count, size);
        if output != from {
          forall i | 0 <= i < count {
            output[i] := from[i];
          }
        }
        return;
      }
      SwapEach(output, from, count, size);
    }

    lemma OneByte(s: seq<Bytes>, count: int, size: nat)
      requires Holds(s, count, size)
      ensures size == 1 ==> forall i | 0 <= i < count :: Reversed(s[i]) == s[i]
    {
      forall i | 0 <= i < count && size == 1 ensures Reversed(s[i]) == s[i] {
        assert s[i] == [s[i][0]];
      }
    }

    /** Swapping in place twice restores every value. */
    method SwapTwice(buffer: array<Bytes>, count: int, size: nat)
      requires Valid() && Holds(buffer[..], count, size)
      modifies buffer
      ensures buffer[..] == old(buffer[..])
    {
      hide Reversed;
      ghost var was := buffer[..];
      SwapBufferToTargetEndian(buffer, null, count, size);
      ghost var mid := buffer[..];
      SwapBufferToTargetEndian(buffer, null, count, size);
      forall i | 0 <= i < |was| ensures buffer[..][i] == was[i] {
        ReversedTwice(was[i]);
      }
    }
  }

  // ----- DWordSwapC

  function DWordSwapC(dw: nat): nat
    requires dw < Pow2(32)
  {
    var swap := Shr(dw, 24);
    var swap2 := Or(swap, Shr(And(dw, 0x00FF_0000), 8));
    var swap3 := Or(swap2, Trunc(Shl(And(dw, 0x0000_FF00), 8), 32));
    Or(swap3, Trunc(Shl(And(dw, 0x0000_00FF), 24), 32))
  }

  /** The bytes of a dword, lowest first. */
  function ByteOf(dw: nat, k: nat): (b: nat)
    ensures b < 256
  {
    Shr(dw, 8 * k) % 256
  }

  lemma MaskedByte(dw: nat, k: nat)
    ensures And(dw, Shl(0xFF, 8 * k)) == Shl(ByteOf(dw, k), 8 * k)
  {
    hide And, Shl, Shr, Pow2;
    Pow2Values();
    AndShl(dw, 0xFF, 8 * k);
    AndMask(Shr(dw, 8 * k), 8);
    TruncIsMod(Shr(dw, 8 * k), 8);
  }

  lemma Pow2OfBytes()
    ensures Pow2(8) == 0x100 && Pow2(16) == 0x1_0000 && Pow2(24) == 0x100_0000 && Pow2(32) == 0x1_0000_0000
  {
    hide Pow2;
    Pow2Values();
    Pow2Add(12, 12);
  }

  lemma Placed(b: nat)
    requires b < 256
    ensures Shl(b, 8) == 0x100 * b && Shl(b, 16) == 0x1_0000 * b && Shl(b, 24) == 0x100_0000 * b
  {
    hide Shl, Pow2;
    Pow2OfBytes();
    ShlIsTimes(b, 8);
    ShlIsTimes(b, 16);
    ShlIsTimes(b, 24);
  }

  lemma MovedBytes(dw: nat)
    requires dw < Pow2(32)
    ensures Shr(dw, 24) == ByteOf(dw, 3)
    ensures Shr(And(dw, 0x00FF_0000), 8) == 0x100 * ByteOf(dw, 2)
    ensures Trunc(Shl(And(dw, 0x0000_FF00), 8), 32) == 0x1_0000 * ByteOf(dw, 1)
    ensures Trunc(Shl(And(dw, 0x0000_00FF), 24), 32) == 0x100_0000 * ByteOf(dw, 0)
  {
    hide And, Shl, Shr, Pow2, Trunc, ByteOf;
    Pow2OfBytes();
    Placed(0xFF);
    MaskedByte(dw, 2);
    Placed(ByteOf(dw, 2));
    ShrIsDiv(0x1_0000 * ByteOf(dw, 2), 8);
    MaskedByte(dw, 1);
    Placed(ByteOf(dw, 1));
    ShlIsTimes(0x100 * ByteOf(dw, 1), 8);
    TruncSmall(0x1_0000 * ByteOf(dw, 1), 32);
    LowByte(dw);
    Placed(ByteOf(dw, 0));
    TruncSmall(0x100_0000 * ByteOf(dw, 0), 32);
    ShrBound(dw, 24, 8);
    TopByte(dw);
  }

  lemma LowByte(dw: nat)
    ensures And(dw, 0xFF) == ByteOf(dw, 0)
  {
    hide And, Pow2;
    Pow2Values();
    AndMask(dw, 8);
    TruncIsMod(dw, 8);
  }

  lemma TopByte(dw: nat)
    requires Shr(dw, 24) < Pow2(8)
    ensures ByteOf(dw, 3) == Shr(dw, 24)
  {
    hide Shr;
    Pow2Values();
  }

  /** The four shifted bytes share no bit. */
  lemma JoinBytes(b0: nat, b1: nat, b2: nat, b3: nat)
    requires b0 < 256 && b1 < 256 && b2 < 256 && b3 < 256
    ensures Or(Or(Or(b0, 0x100 * b1), 0x1_0000 * b2), 0x100_0000 * b3)
         == b0 + 0x100 * b1 + 0x1_0000 * b2 + 0x100_0000 * b3
  {
    hide Or, Pow2;
    Pow2OfBytes();
    Placed(b1);
    Placed(b2);
    Placed(b3);
    OrDisjoint(b0, b1, 8);
    OrDisjoint(b0 + 0x100 * b1, b2, 16);
    OrDisjoint(b0 + 0x100 * b1 + 0x1_0000 * b2, b3, 24);
  }

  lemma BytesOfDWord(dw: nat)
    requires dw < Pow2(32)
    ensures BytesOf(dw, 4) == [ByteOf(dw, 0), ByteOf(dw, 1), ByteOf(dw, 2), ByteOf(dw, 3)]
  {
    hide Shr, Pow2;
    Shl8(dw);
    Shl8(dw / 0x100);
    Shl8(dw / 0x100 / 0x100);
    ShrTwice(dw, 8, 8);
    ShrTwice(dw, 16, 8);
    assert Shr(dw, 0) == dw by { ByZero(dw); }
    assert BytesOf(dw, 4) == [dw % 256] + BytesOf(dw / 256, 3);
    assert BytesOf(dw / 256, 3) == [dw / 256 % 256] + BytesOf(dw / 256 / 256, 2);
  }

  lemma ByZero(x: nat)
    ensures Shr(x, 0) == x
  {
  }

  /** The four-term form swaps the bytes as the byte loop does. */
  lemma DWordSwapIsByteSwap(dw: nat)
    requires dw < Pow2(32)
    ensures DWordSwapC(dw) == LittleEndian(Reversed(BytesOf(dw, 4)))
    ensures BytesOf(DWordSwapC(dw), 4) == Reversed(BytesOf(dw, 4)) && DWordSwapC(dw) < Pow2(32)
  {
    hide And, Shl, Shr, Pow2, Trunc, ByteOf, Or, BytesOf;
    MovedBytes(dw);
    var b0, b1, b2, b3: nat := ByteOf(dw, 0), ByteOf(dw, 1), ByteOf(dw, 2), ByteOf(dw, 3);
    JoinBytes(b3, b2, b1, b0);
    BytesOfDWord(dw);
    FourReversed([b0, b1, b2, b3]);
    FourBytes(b3, b2, b1, b0);
    BytesOfLittleEndian([b3, b2, b1, b0]);
    LittleEndianBound([b3, b2, b1, b0]);
  }

  lemma FourReversed(s: Bytes)
    requires |s| == 4
    ensures Reversed(s) == [s[3], s[2], s[1], s[0]]
  {
    hide Reversed;
  }

  lemma FourBytes(b0: nat, b1: nat, b2: nat, b3: nat)
    requires b0 < 256 && b1 < 256 && b2 < 256 && b3 < 256
    ensures LittleEndian([b0, b1, b2, b3]) == b0 + 0x100 * b1 + 0x1_0000 * b2 + 0x100_0000 * b3
  {
    assert LittleEndian([b3]) == b3 + 256 * LittleEndian([]);
    assert [b2, b3][1..] == [b3] && [b1, b2, b3][1..] == [b2, b3] && [b0, b1, b2, b3][1..] == [b1, b2, b3];
    assert LittleEndian([b2, b3]) == b2 + 256 * LittleEndian([b3]);
    assert LittleEndian([b1, b2, b3]) == b1 + 256 * LittleEndian([b2, b3]);
  }

  /**
   WriteFloat swaps the bytes of the pattern it writes and ReadFloat does not swap them back: a
   float is read back exactly when its pattern is the same in both byte orders.
   */
  lemma FloatReadBackIff(c: Cursor, pattern: nat)
    requires pattern < Pow2(32)
    requires c.At(Low(DWordSwapC(pattern), 32))
    ensures c.Taken(32) == pattern <==>
      ByteOf(pattern, 0) == ByteOf(pattern, 3) && ByteOf(pattern, 1) == ByteOf(pattern, 2)
    ensures DWordSwapC(c.Taken(32)) == pattern
  {
    hide DWordSwapC, Low, ByteOf, Pow2, BytesOf, LittleEndian, Reversed;
    var swapped := DWordSwapC(pattern);
    DWordSwapIsByteSwap(pattern);
    TakenLow(c, swapped, 32);
    DWordSwapIsByteSwap(swapped);
    ReversedTwice(BytesOf(pattern, 4));
    LittleEndianOfBytes(pattern, 4);
    LittleEndianOfBytes(swapped, 4);
    BytesOfDWord(pattern);
    FourReversed(BytesOf(pattern, 4));
    assert swapped == pattern <==> BytesOf(swapped, 4) == BytesOf(pattern, 4);
  }
}
