/**
 Unsigned machine words as natural numbers, and the bit strings they stand for.

 A bit string is a `seq<bool>` with the least significant bit first. The word operators of the
 source (`&`, `|`, `^`, `~`, `<<`, `>>`) are defined here on naturals; the lemmas say what each
 does to the bits, so that every other module can reason about bit strings only.
 */
module Bits {

  function Pow2(n: nat): (p: nat)
    ensures p >= 1
  {
    if n == 0 then 1 else 2 * Pow2(n - 1)
  }

  /** The bit of weight 2^i. */
  predicate Bit(x: nat, i: nat) {
    if i == 0 then x % 2 == 1 else Bit(x / 2, i - 1)
  }

  /** The n low bits of x, least significant first. */
  function Low(x: nat, n: nat): (s: seq<bool>)
    ensures |s| == n
  {
    if n == 0 then [] else [x % 2 == 1] + Low(x / 2, n - 1)
  }

  /** The number a bit string denotes. */
  function Value(s: seq<bool>): nat {
    if s == [] then 0 else (if s[0] then 1 else 0) + 2 * Value(s[1..])
  }

  function And(x: nat, y: nat): nat {
    if x == 0 then 0 else (if x % 2 == 1 && y % 2 == 1 then 1 else 0) + 2 * And(x / 2, y / 2)
  }

  function Or(x: nat, y: nat): nat
    decreases x + y
  {
    if x == 0 then y else (if x % 2 == 1 || y % 2 == 1 then 1 else 0) + 2 * Or(x / 2, y / 2)
  }

  function Xor(x: nat, y: nat): nat
    decreases x + y
  {
    if x == 0 then y else (if x % 2 != y % 2 then 1 else 0) + 2 * Xor(x / 2, y / 2)
  }

  /** `x << k` before the result is cut to its register. */
  function Shl(x: nat, k: nat): nat {
    if k == 0 then x else 2 * Shl(x, k - 1)
  }

  /** `x >> k` on an unsigned value. */
  function Shr(x: nat, k: nat): nat {
    if k == 0 then x else Shr(x / 2, k - 1)
  }

  /** x cut to an n-bit register. */
  function Trunc(x: nat, n: nat): nat {
    if n == 0 then 0 else x % 2 + 2 * Trunc(x / 2, n - 1)
  }

  /** `~x` in an N-bit register. */
  function Not(x: nat, N: nat): nat
    requires x < Pow2(N)
  {
    Pow2(N) - 1 - x
  }

  // ----- powers of two

  lemma {:induction false} Pow2Add(a: nat, b: nat)
    ensures Pow2(a + b) == Pow2(a) * Pow2(b)
  {
    if a == 0 {
    } else {
      Pow2Add(a - 1, b);
      MulDistributes(Pow2(a - 1), Pow2(a - 1), Pow2(b));
    }
  }

  lemma {:induction false} Pow2Monotone(a: nat, b: nat)
    requires a <= b
    ensures Pow2(a) <= Pow2(b)
    ensures a < b ==> 2 * Pow2(a) <= Pow2(b)
    decreases b
  {
    if a < b {
      Pow2Monotone(a, b - 1);
    }
  }

  lemma Pow2Double(n: nat)
    ensures Pow2(n + 1) == 2 * Pow2(n)
  {
  }

  lemma Pow2Values()
    ensures Pow2(1) == 2 && Pow2(2) == 4 && Pow2(4) == 0x10 && Pow2(6) == 0x40 && Pow2(7) == 0x80
    ensures Pow2(8) == 0x100 && Pow2(12) == 0x1000 && Pow2(16) == 0x1_0000
    ensures Pow2(28) == 0x1000_0000 && Pow2(31) == 0x8000_0000 && Pow2(32) == 0x1_0000_0000
  {
    assert Pow2(2) == 2 * Pow2(1) && Pow2(1) == 2 * Pow2(0);
    Pow2Add(2, 2);
    Pow2Add(4, 2);
    Pow2Add(6, 1);
    Pow2Add(4, 4);
    Pow2Add(8, 4);
    Pow2Add(12, 4);
    Pow2Add(12, 16);
    Pow2Add(28, 2);
    Pow2Add(30, 1);
    Pow2Add(31, 1);
  }

  // ----- bit strings

  lemma Adjacent<T>(s: seq<T>, a: nat, b: nat, c: nat)
    requires a <= b <= c <= |s|
    ensures s[a..b] + s[b..c] == s[a..c]
  {
  }

  lemma {:induction false} LowIsBits(x: nat, n: nat)
    ensures forall i | 0 <= i < n :: Low(x, n)[i] == Bit(x, i)
  {
    if n != 0 {
      LowIsBits(x / 2, n - 1);
    }
  }

  lemma {:induction false} LowOfZero(n: nat)
    ensures forall i | 0 <= i < n :: !Low(0, n)[i]
  {
    if n != 0 {
      LowOfZero(n - 1);
    }
  }

  lemma {:induction false} ValueBound(s: seq<bool>)
    ensures Value(s) < Pow2(|s|)
  {
    if s != [] {
      ValueBound(s[1..]);
    }
  }

  lemma {:induction false} LowOfValue(s: seq<bool>)
    ensures Low(Value(s), |s|) == s
  {
    if s != [] {
      LowOfValue(s[1..]);
    }
  }

  lemma MulDistributes(a: int, b: int, m: int)
    ensures (a + b) * m == a * m + b * m
  {
  }

  lemma MulAtLeast(d: nat, m: nat)
    requires d >= 1
    ensures d * m >= m
  {
    MulDistributes(d - 1, 1, m);
  }

  lemma DivModUnique(x: int, m: nat, q: int, r: nat)
    requires m > 0 && r < m && x == q * m + r
    ensures x / m == q && x % m == r
  {
    var q', r' := x / m, x % m;
    assert x == m * q' + r';
    if q' < q {
      MulDistributes(q - q', q', m);
      MulAtLeast(q - q', m);
      assert false;
    } else if q < q' {
      MulDistributes(q' - q, q, m);
      MulAtLeast(q' - q, m);
      assert false;
    }
  }

  // ----- what the operators are in arithmetic

  lemma ModTwice(x: nat, p: nat)
    requires p > 0
    ensures x % (2 * p) == x % 2 + 2 * (x / 2 % p)
    ensures x / (2 * p) == x / 2 / p
  {
    var h := x / 2;
    var q, r := h / p, h % p;
    assert h == p * q + r;
    MulDistributes(p, p, q);
    DivModUnique(x, 2 * p, q, x % 2 + 2 * r);
  }

  lemma {:induction false} TruncIsMod(x: nat, n: nat)
    ensures Trunc(x, n) == x % Pow2(n)
  {
    if n != 0 {
      TruncIsMod(x / 2, n - 1);
      ModTwice(x, Pow2(n - 1));
    }
  }

  lemma {:induction false} ShrIsDiv(x: nat, k: nat)
    ensures Shr(x, k) == x / Pow2(k)
  {
    if k != 0 {
      ShrIsDiv(x / 2, k - 1);
      ModTwice(x, Pow2(k - 1));
    }
  }

  lemma {:induction false} ShlIsTimes(x: nat, k: nat)
    ensures Shl(x, k) == x * Pow2(k)
  {
    if k != 0 {
      ShlIsTimes(x, k - 1);
      MulDistributes(Pow2(k - 1), Pow2(k - 1), x);
    }
  }

  lemma ShlOne(k: nat)
    ensures Shl(1, k) == Pow2(k)
  {
    ShlIsTimes(1, k);
  }

  lemma {:induction false} ShrTwice(x: nat, a: nat, b: nat)
    ensures Shr(Shr(x, a), b) == Shr(x, a + b)
  {
    if a != 0 {
      ShrTwice(x / 2, a - 1, b);
    }
  }

  // ----- the word operators on words that hold bit strings

  lemma ByOne(x: nat)
    ensures Shl(x, 1) == 2 * x && Shr(x, 1) == x / 2 && And(x, 1) == x % 2
  {
    assert Shl(x, 1) == 2 * Shl(x, 0);
    assert Shr(x, 1) == Shr(x / 2, 0);
    AndZero(x / 2);
  }

  lemma {:induction false} ZeroWord(n: nat)
    ensures Shr(0, n) == 0 && Trunc(0, n) == 0 && And(0, Pow2(n) - 1) == 0 && Value([]) == 0
  {
    if n != 0 {
      ZeroWord(n - 1);
    }
  }

  lemma {:induction false} TruncBound(x: nat, n: nat)
    ensures Trunc(x, n) < Pow2(n)
  {
    if n != 0 {
      TruncBound(x / 2, n - 1);
    }
  }

  lemma TruncZero(x: nat)
    ensures Trunc(x, 0) == 0
  {
  }

  lemma {:induction false} TruncSmall(x: nat, n: nat)
    requires x < Pow2(n)
    ensures Trunc(x, n) == x
  {
    if n != 0 {
      TruncSmall(x / 2, n - 1);
    }
  }

  lemma {:induction false} ShrSmall(x: nat, n: nat)
    requires x < Pow2(n)
    ensures Shr(x, n) == 0
  {
    if n != 0 {
      ShrSmall(x / 2, n - 1);
    }
  }

  lemma {:induction false} ShrBound(x: nat, a: nat, b: nat)
    requires x < Pow2(a + b)
    ensures Shr(x, a) < Pow2(b)
  {
    if a != 0 {
      ShrBound(x / 2, a - 1, b);
    }
  }

  lemma {:induction false} LowOfSum(y: nat, z: nat, m: nat, n: nat)
    requires y < Pow2(m)
    ensures Low(y + Shl(z, m), m + n) == Low(y, m) + Low(z, n)
  {
    if m != 0 {
      LowOfSum(y / 2, z, m - 1, n);
    }
  }

  lemma {:induction false} ValueOfLow(x: nat, n: nat)
    ensures Value(Low(x, n)) == Trunc(x, n)
  {
    if n != 0 {
      ValueOfLow(x / 2, n - 1);
    }
  }

  /** Masking and shifting a word that holds a bit string cuts the string. */
  lemma {:induction false} ValueSplit(s: seq<bool>, n: nat)
    requires n <= |s|
    ensures Trunc(Value(s), n) == Value(s[..n])
    ensures Shr(Value(s), n) == Value(s[n..])
  {
    if n != 0 {
      ValueSplit(s[1..], n - 1);
      assert s[..n][1..] == s[1..][..n - 1];
      assert s[n..] == s[1..][n - 1..];
    } else {
      assert s[n..] == s;
    }
  }

  lemma {:induction false} ValueAppend(a: seq<bool>, b: seq<bool>)
    ensures Value(a + b) == Value(a) + Shl(Value(b), |a|)
  {
    if a == [] {
      assert a + b == b;
    } else {
      ValueAppend(a[1..], b);
      assert (a + b)[1..] == a[1..] + b;
    }
  }

  lemma {:induction false} LowSplit(x: nat, a: nat, b: nat)
    ensures Low(x, a + b) == Low(x, a) + Low(Shr(x, a), b)
  {
    if a != 0 {
      LowSplit(x / 2, a - 1, b);
    }
  }

  lemma {:induction false} LowOfTrunc(x: nat, m: nat, n: nat)
    requires n <= m
    ensures Low(Trunc(x, m), n) == Low(x, n)
  {
    if n != 0 {
      LowOfTrunc(x / 2, m - 1, n - 1);
    }
  }

  // ----- the word operators, bit by bit

  lemma {:induction false} BitAnd(x: nat, y: nat, i: nat)
    ensures Bit(And(x, y), i) == (Bit(x, i) && Bit(y, i))
    decreases i
  {
    if i == 0 {
    } else {
      BitAnd(x / 2, y / 2, i - 1);
      if x == 0 {
        BitZero(i);
      }
    }
  }

  lemma {:induction false} BitZero(i: nat)
    ensures !Bit(0, i)
  {
    if i != 0 {
      BitZero(i - 1);
    }
  }

  lemma {:induction false} BitOr(x: nat, y: nat, i: nat)
    ensures Bit(Or(x, y), i) == (Bit(x, i) || Bit(y, i))
    decreases i
  {
    if x == 0 {
      BitZero(i);
    } else if i != 0 {
      BitOr(x / 2, y / 2, i - 1);
    }
  }

  lemma {:induction false} BitShl(x: nat, k: nat, i: nat)
    ensures Bit(Shl(x, k), i) == (i >= k && Bit(x, i - k))
  {
    if k != 0 && i != 0 {
      BitShl(x, k - 1, i - 1);
    }
  }

  lemma {:induction false} BitShr(x: nat, k: nat, i: nat)
    ensures Bit(Shr(x, k), i) == Bit(x, i + k)
    decreases k
  {
    if k != 0 {
      BitShr(x / 2, k - 1, i);
    }
  }

  lemma {:induction false} BitTrunc(x: nat, n: nat, i: nat)
    ensures Bit(Trunc(x, n), i) == (i < n && Bit(x, i))
  {
    if n == 0 {
      BitZero(i);
    } else if i != 0 {
      BitTrunc(x / 2, n - 1, i - 1);
    }
  }

  lemma {:induction false} BitMask(n: nat, i: nat)
    ensures Bit(Pow2(n) - 1, i) == (i < n)
  {
    if n == 0 {
      BitZero(i);
    } else if i != 0 {
      assert (Pow2(n) - 1) / 2 == Pow2(n - 1) - 1;
      BitMask(n - 1, i - 1);
    }
  }

  lemma {:induction false} BitNot(x: nat, N: nat, i: nat)
    requires x < Pow2(N) && i < N
    ensures Bit(Not(x, N), i) == !Bit(x, i)
  {
    if i != 0 {
      assert Not(x, N) / 2 == Not(x / 2, N - 1);
      BitNot(x / 2, N - 1, i - 1);
    }
  }

  /** A number below 2^n has no bit from weight 2^n on. */
  lemma {:induction false} BitBeyond(x: nat, n: nat, i: nat)
    requires x < Pow2(n) && n <= i
    ensures !Bit(x, i)
  {
    if n == 0 {
      BitZero(i);
    } else {
      BitBeyond(x / 2, n - 1, i - 1);
    }
  }

  /** Words with the same bits are equal. */
  lemma {:induction false} SameBits(x: nat, y: nat)
    requires forall i: nat :: Bit(x, i) == Bit(y, i)
    ensures x == y
    decreases x + y
  {
    if x != 0 || y != 0 {
      assert Bit(x, 0) == Bit(y, 0);
      forall i: nat ensures Bit(x / 2, i) == Bit(y / 2, i) {
        assert Bit(x, i + 1) == Bit(y, i + 1);
      }
      SameBits(x / 2, y / 2);
    }
  }

  /** `x & ((1 << n) - 1)` keeps the n low bits. */
  lemma {:induction false} AndMask(x: nat, n: nat)
    ensures And(x, Pow2(n) - 1) == Trunc(x, n)
  {
    if n == 0 {
      AndZero(x);
    } else if x == 0 {
      TruncSmall(0, n);
    } else {
      assert (Pow2(n) - 1) / 2 == Pow2(n - 1) - 1;
      AndMask(x / 2, n - 1);
    }
  }

  lemma {:induction false} AndZero(x: nat)
    ensures And(x, 0) == 0
  {
    if x != 0 {
      AndZero(x / 2);
    }
  }

  /** `x & (m << k)` looks at the bits of x from k on. */
  lemma {:induction false} AndShl(x: nat, m: nat, k: nat)
    ensures And(x, Shl(m, k)) == Shl(And(Shr(x, k), m), k)
    decreases k
  {
    if k != 0 {
      AndShl(x / 2, m, k - 1);
      if x == 0 {
        ZeroWord(k);
      }
    }
  }

  lemma {:induction false} OrBound(x: nat, y: nat, N: nat)
    requires x < Pow2(N)
    ensures Or(x, Trunc(y, N)) < Pow2(N)
    decreases N
  {
    if N != 0 {
      OrBound(x / 2, y / 2, N - 1);
      if x == 0 {
        TruncBound(y, N);
      }
    }
  }

  lemma {:induction false} ZeroShl(k: nat)
    ensures Shl(0, k) == 0
  {
    if k != 0 {
      ZeroShl(k - 1);
    }
  }

  /** `|` of numbers that share no bit is addition. */
  lemma {:induction false} OrDisjoint(x: nat, y: nat, k: nat)
    requires x < Pow2(k)
    ensures Or(x, Shl(y, k)) == x + Shl(y, k)
    decreases k
  {
    if k != 0 && x != 0 {
      OrDisjoint(x / 2, y, k - 1);
    }
  }

  /** Joining two bit strings with `|` and `<<` in a register wide enough for both. */
  lemma OrJoins(a: seq<bool>, b: seq<bool>, N: nat)
    requires |a| + |b| <= N
    ensures Or(Value(a), Trunc(Shl(Value(b), |a|), N)) == Value(a + b)
  {
    ValueAppend(a, b);
    ValueBound(a);
    ValueBound(a + b);
    Pow2Monotone(|a| + |b|, N);
    TruncSmall(Shl(Value(b), |a|), N);
    OrDisjoint(Value(a), Value(b), |a|);
  }
}
