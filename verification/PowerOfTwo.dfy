/**
 Rounding to powers of two by smearing the top bit downwards.
 */
module PowerOfTwo {
  import opened Bits

  /** Some bit of y in the w places from i upwards is set. */
  predicate AnyBit(y: nat, i: nat, w: nat) {
    exists j: nat :: i <= j < i + w && Bit(y, j)
  }

  /** Each bit of z tells whether y has a bit in the w places from there upwards. */
  ghost predicate Smeared(y: nat, w: nat, z: nat) {
    forall i: nat :: Bit(z, i) == AnyBit(y, i, w)
  }

  lemma NotSmeared(y: nat)
    ensures Smeared(y, 1, y)
  {
    hide Bit;
    forall i: nat ensures Bit(y, i) == AnyBit(y, i, 1) {
      assert AnyBit(y, i, 1) ==> Bit(y, i);
    }
  }

  /** `z | z >> w` doubles the reach. */
  lemma SmearTwice(y: nat, w: nat, z: nat)
    requires Smeared(y, w, z)
    ensures Smeared(y, 2 * w, Or(z, Shr(z, w)))
  {
    hide Bit, Or, Shr;
    forall i: nat ensures Bit(Or(z, Shr(z, w)), i) == AnyBit(y, i, 2 * w) {
      BitOr(z, Shr(z, w), i);
      BitShr(z, w, i);
      assert Bit(z, i) == AnyBit(y, i, w) && Bit(z, i + w) == AnyBit(y, i + w, w);
    }
  }

  lemma {:induction false} TopBit(y: nat, k: nat)
    requires Pow2(k) <= y < Pow2(k + 1)
    ensures Bit(y, k)
  {
    if k != 0 {
      TopBit(y / 2, k - 1);
    }
  }

  /** Smearing over 32 places fills everything below the top bit. */
  lemma FullySmeared(y: nat, k: nat, z: nat)
    requires k <= 32 && y < Pow2(k) && (k > 0 ==> Pow2(k - 1) <= y) && Smeared(y, 32, z)
    ensures z == Pow2(k) - 1
  {
    hide Bit, Pow2;
    forall i: nat ensures Bit(z, i) == Bit(Pow2(k) - 1, i) {
      BitMask(k, i);
      if k > 0 {
        TopBit(y, k - 1);
      }
      forall j: nat | j >= k ensures !Bit(y, j) {
        BitBeyond(y, k, j);
      }
      assert i < k ==> i <= k - 1 < i + 32;
      assert AnyBit(y, i, 32) <==> i < k;
    }
    SameBits(z, Pow2(k) - 1);
  }

  /** Every number lies between two neighbouring powers of two. */
  lemma {:induction false} Magnitude(y: nat) returns (k: nat)
    ensures y < Pow2(k) && (k > 0 ==> Pow2(k - 1) <= y)
    ensures y == 0 <==> k == 0
  {
    if y == 0 {
      k := 0;
    } else {
      var h := Magnitude(y / 2);
      k := h + 1;
    }
  }

  /** p is the least power of two from x on. */
  ghost predicate LeastAbove(p: nat, x: nat) {
    exists k: nat :: p == Pow2(k) && x <= p && forall j: nat :: x <= Pow2(j) ==> p <= Pow2(j)
  }

  /** p is the greatest power of two up to x. */
  ghost predicate GreatestBelow(p: nat, x: nat) {
    exists k: nat :: p == Pow2(k) && p <= x && forall j: nat :: Pow2(j) <= x ==> Pow2(j) <= p
  }

  ghost predicate IsPower(x: nat) {
    exists k: nat :: x == Pow2(k)
  }

  lemma LeastFromMagnitude(x: nat, k: nat)
    requires x >= 1 && x <= Pow2(k) && (k > 0 ==> Pow2(k - 1) < x)
    ensures LeastAbove(Pow2(k), x)
  {
    hide Pow2;
    forall j: nat | x <= Pow2(j) ensures Pow2(k) <= Pow2(j) {
      if j < k {
        Pow2Monotone(j, k - 1);
      } else {
        Pow2Monotone(k, j);
      }
    }
  }

  lemma GreatestFromMagnitude(x: nat, k: nat)
    requires Pow2(k) <= x < Pow2(k + 1)
    ensures GreatestBelow(Pow2(k), x)
  {
    hide Pow2;
    forall j: nat | Pow2(j) <= x ensures Pow2(j) <= Pow2(k) {
      if k < j {
        Pow2Monotone(k + 1, j);
      } else {
        Pow2Monotone(j, k);
      }
    }
  }

  /** The least power of two that is not below x, or 0 for 0 and where it does not fit 32 bits. */
  method SmallestPowerOfTwoGreaterOrEqual(x: nat) returns (r: nat)
    requires x < Pow2(32)
    ensures if 1 <= x <= 0x8000_0000 then LeastAbove(r, x) else r == 0
  {
    hide Or, Shr, Smeared, Pow2, LeastAbove;
    Pow2Values();
    var y := (x + 0xFFFF_FFFF) % 0x1_0000_0000;
    ghost var start := y;
    NotSmeared(y);
    SmearTwice(start, 1, y);
    y := Or(y, Shr(y, 1));
    SmearTwice(start, 2, y);
    y := Or(y, Shr(y, 2));
    SmearTwice(start, 4, y);
    y := Or(y, Shr(y, 4));
    SmearTwice(start, 8, y);
    y := Or(y, Shr(y, 8));
    SmearTwice(start, 16, y);
    y := Or(y, Shr(y, 16));
    ghost var k := Magnitude(start);
    AtMost32(start, k);
    FullySmeared(start, k, y);
    r := (y + 1) % 0x1_0000_0000;
    SmearedIsLeast(x, start, k, r);
  }

  lemma AtMost32(y: nat, k: nat)
    requires y < Pow2(32) && (k > 0 ==> Pow2(k - 1) <= y)
    ensures k <= 32
  {
    hide Pow2;
    if k > 32 {
      Pow2Monotone(32, k - 1);
    }
  }

  lemma SmearedIsLeast(x: nat, y: nat, k: nat, r: nat)
    requires x < Pow2(32) && y == (x + 0xFFFF_FFFF) % 0x1_0000_0000 && k <= 32
    requires y < Pow2(k) && (k > 0 ==> Pow2(k - 1) <= y) && (y == 0 <==> k == 0)
    requires r == Pow2(k) % 0x1_0000_0000
    ensures if 1 <= x <= 0x8000_0000 then LeastAbove(r, x) else r == 0
  {
    hide LeastAbove, Pow2;
    Pow2Values();
    if x == 0 {
      assert y == 0xFFFF_FFFF;
      if k < 32 {
        Pow2Monotone(k, 31);
      }
    } else {
      assert y == x - 1;
      if x <= 0x8000_0000 {
        if k == 32 {
          assert false;
        }
        Pow2Monotone(k, 31);
        LeastFromMagnitude(x, k);
      } else if k < 32 {
        Pow2Monotone(k, 31);
      }
    }
  }

  /** The greatest power of two that is not above x, and 0 for 0. */
  method LargestPowerOfTwoLessThanOrEqual(x: nat) returns (r: nat)
    requires x < Pow2(32)
    ensures if x >= 1 then GreatestBelow(r, x) else r == 0
  {
    hide Shr, Pow2, GreatestBelow, LeastAbove;
    Pow2Values();
    if x >= 0x8000_0000 {
      GreatestFromMagnitude(x, 31);
      return 0x8000_0000;
    }
    r := SmallestPowerOfTwoGreaterOrEqual(x + 1);
    ShrIsDiv(r, 1);
    HalfOfLeast(r, x);
    r := Shr(r, 1);
  }

  lemma HalfOfLeast(p: nat, x: nat)
    requires LeastAbove(p, x + 1)
    ensures if x >= 1 then GreatestBelow(p / 2, x) else p / 2 == 0
  {
    hide Pow2;
    var k: nat :| p == Pow2(k) && x + 1 <= p && forall j: nat :: x + 1 <= Pow2(j) ==> p <= Pow2(j);
    assert Pow2(0) == 1 by { Pow2Double(0); Pow2Values(); }
    if x == 0 {
      assert p <= Pow2(0);
    } else if k > 0 {
      Pow2Double(k - 1);
      assert Pow2(k - 1) < x + 1;
      GreatestFromMagnitude(x, k - 1);
    }
  }

  /** Powers of two are the fixed points of both, and the only ones. */
  lemma FixedPointIff(x: nat, p: nat, q: nat)
    requires LeastAbove(p, x) && GreatestBelow(q, x)
    ensures p == x <==> IsPower(x)
    ensures q == x <==> IsPower(x)
    ensures q <= x <= p && (!IsPower(x) ==> p == 2 * q)
  {
    hide Pow2;
    var k: nat :| p == Pow2(k) && x <= p && forall j: nat :: x <= Pow2(j) ==> p <= Pow2(j);
    var l: nat :| q == Pow2(l) && q <= x && forall j: nat :: Pow2(j) <= x ==> Pow2(j) <= q;
    if !IsPower(x) {
      Pow2Double(l);
      assert x < Pow2(l + 1);
      assert p <= Pow2(l + 1);
      if k <= l {
        Pow2Monotone(k, l);
      } else {
        Pow2Monotone(l + 1, k);
      }
    }
  }
}
