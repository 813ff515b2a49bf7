/**
 What a bit reader hands out once its overflow flag is set, when buffer bits still lie ahead.
 */
module Overflowed {
  import opened Bits
  import opened Wire

  /**
   What the register of such a reader holds: the stream bits from q to end, avail of them counted
   as unread. A straddling read loads the next dword but returns 0 and keeps the old count, so
   bits at the end of the register may never be read. Spent readers have nothing ahead.
   */
  datatype Flagged = Flagged(q: nat, avail: nat, end: nat) | Spent {
    predicate Valid(stream: seq<bool>) {
      Flagged? ==> 0 < avail && q + avail <= end <= q + 32 && end <= |stream| && (|stream| - end) % 32 == 0
    }

    /** The value that a read of n bits returns. */
    function Taken(stream: seq<bool>, n: nat): nat
      requires Valid(stream)
    {
      if Spent? || n > avail then 0 else Value(stream[q..q + n])
    }

    /** The register after a read of n bits. */
    function Next(stream: seq<bool>, n: nat): (f: Flagged)
      requires Valid(stream)
      ensures f.Valid(stream)
    {
      if Spent? then Spent
      else if n < avail then Flagged(q + n, avail - n, end)
      else if end == |stream| then Spent
      else Flagged(end, if n == avail then 32 else avail, end + 32)
    }

    /** The bits that one-bit reads will return. */
    function Ahead(stream: seq<bool>): seq<bool>
      requires Valid(stream)
    {
      if Spent? then [] else stream[q..q + avail] + stream[end..]
    }
  }

  /** The values of a run of reads. */
  function FlaggedRun(stream: seq<bool>, f: Flagged, widths: seq<nat>): (vs: seq<nat>)
    requires f.Valid(stream)
    ensures |vs| == |widths|
    decreases widths
  {
    if widths == [] then []
    else [f.Taken(stream, widths[0])] + FlaggedRun(stream, f.Next(stream, widths[0]), widths[1..])
  }

  predicate AllClear(s: seq<bool>) {
    forall i | 0 <= i < |s| :: !s[i]
  }

  lemma {:induction false} ClearIsZero(s: seq<bool>)
    ensures Value(s) == 0 <==> AllClear(s)
  {
    if s != [] {
      ClearIsZero(s[1..]);
      assert AllClear(s) <==> !s[0] && AllClear(s[1..]) by {
        assert forall i | 0 < i < |s| :: s[i] == s[1..][i - 1];
      }
    }
  }

  lemma ClearParts(a: seq<bool>, b: seq<bool>)
    ensures AllClear(a + b) <==> AllClear(a) && AllClear(b)
  {
    assert forall i | 0 <= i < |a| :: (a + b)[i] == a[i];
    assert forall i | 0 <= i < |b| :: (a + b)[|a| + i] == b[i];
  }

  lemma ClearSlice(s: seq<bool>, a: nat, b: nat)
    requires a <= b <= |s| && AllClear(s)
    ensures AllClear(s[a..b])
  {
  }

  lemma ClearTaken(stream: seq<bool>, f: Flagged, n: nat)
    requires f.Valid(stream) && AllClear(f.Ahead(stream))
    ensures f.Taken(stream, n) == 0
  {
    hide Value, AllClear;
    if f.Flagged? && n <= f.avail {
      ClearSlice(f.Ahead(stream), 0, n);
      assert f.Ahead(stream)[0..n] == stream[f.q..f.q + n];
      ClearIsZero(stream[f.q..f.q + n]);
    }
  }

  lemma ClearNext(stream: seq<bool>, f: Flagged, n: nat)
    requires f.Valid(stream) && f.Flagged? && AllClear(f.Ahead(stream))
    ensures AllClear(f.Next(stream, n).Ahead(stream))
  {
    hide AllClear;
    var a, b := stream[f.q..f.q + f.avail], stream[f.end..];
    ClearParts(a, b);
    if n < f.avail {
      ClearSlice(a, n, |a|);
      ClearParts(a[n..|a|], b);
      assert stream[f.q + n..f.q + f.avail] == a[n..|a|];
    } else if f.end < |stream| {
      var k := if n == f.avail then 32 else f.avail;
      ClearSlice(b, 0, k);
      ClearSlice(b, 32, |b|);
      ClearParts(b[0..k], b[32..|b|]);
      assert stream[f.end..f.end + k] == b[0..k] && stream[f.end + 32..] == b[32..|b|];
    } else {
      ClearSlice(b, 0, 0);
      assert b[0..0] == [];
    }
  }

  /** Where no bit ahead is set, every read returns 0 and there is still no bit ahead. */
  lemma ClearStep(stream: seq<bool>, f: Flagged, n: nat)
    requires f.Valid(stream) && AllClear(f.Ahead(stream))
    ensures f.Taken(stream, n) == 0 && AllClear(f.Next(stream, n).Ahead(stream))
  {
    hide Value;
    ClearTaken(stream, f, n);
    if f.Flagged? {
      ClearNext(stream, f, n);
    }
  }

  lemma {:induction false} ClearRun(stream: seq<bool>, f: Flagged, widths: seq<nat>)
    requires f.Valid(stream) && AllClear(f.Ahead(stream))
    ensures forall i | 0 <= i < |widths| :: FlaggedRun(stream, f, widths)[i] == 0
    decreases widths
  {
    hide Value, AllClear;
    if widths != [] {
      ClearStep(stream, f, widths[0]);
      ClearRun(stream, f.Next(stream, widths[0]), widths[1..]);
    }
  }

  /** One-bit reads hand out the bits ahead, and zeros behind them. */
  lemma OneBitAhead(stream: seq<bool>, f: Flagged)
    requires f.Valid(stream)
    ensures var ahead := f.Ahead(stream);
      && f.Taken(stream, 1) == (if ahead != [] && ahead[0] then 1 else 0)
      && f.Next(stream, 1).Ahead(stream) == (if ahead == [] then [] else ahead[1..])
  {
    hide Value;
    if f.Flagged? {
      FirstBit(stream[f.q..f.end]);
      assert stream[f.q..f.end][..1] == stream[f.q..f.q + 1];
    }
  }

  lemma {:induction false} OneBitRun(stream: seq<bool>, f: Flagged, k: nat)
    requires f.Valid(stream)
    ensures forall i | 0 <= i < k ::
      FlaggedRun(stream, f, Ones(k))[i] == (if i < |f.Ahead(stream)| && f.Ahead(stream)[i] then 1 else 0)
    decreases k
  {
    hide Value, Flagged.Ahead, Flagged.Taken, Flagged.Next;
    if k != 0 {
      OneBitAhead(stream, f);
      OneBitRun(stream, f.Next(stream, 1), k - 1);
      assert Ones(k)[1..] == Ones(k - 1);
    }
  }

  /** k one-bit reads of an overflowed reader are all 0 if and only if the next k bits ahead are 0. */
  lemma OneBitZerosIff(stream: seq<bool>, f: Flagged, k: nat)
    requires f.Valid(stream)
    ensures (forall i | 0 <= i < k :: FlaggedRun(stream, f, Ones(k))[i] == 0) <==>
      AllClear(if k < |f.Ahead(stream)| then f.Ahead(stream)[..k] else f.Ahead(stream))
  {
    hide FlaggedRun, Flagged.Ahead;
    OneBitRun(stream, f, k);
    var ahead := f.Ahead(stream);
    var next := if k < |ahead| then ahead[..k] else ahead;
    if i :| 0 <= i < |next| && next[i] {
      assert FlaggedRun(stream, f, Ones(k))[i] == 1;
    }
  }

  /** "Zeros once overflowed": every run of reads returns zeros only, if and only if no bit ahead is set. */
  lemma ZeroGuaranteeIff(stream: seq<bool>, f: Flagged)
    requires f.Valid(stream)
    ensures (forall widths: seq<nat> :: AllZero(FlaggedRun(stream, f, widths))) <==> AllClear(f.Ahead(stream))
  {
    hide FlaggedRun, Flagged.Ahead, AllClear;
    if AllClear(f.Ahead(stream)) {
      forall widths: seq<nat> ensures AllZero(FlaggedRun(stream, f, widths)) {
        ClearRun(stream, f, widths);
      }
    } else {
      OneBitZerosIff(stream, f, |f.Ahead(stream)|);
      assert !AllZero(FlaggedRun(stream, f, Ones(|f.Ahead(stream)|)));
    }
  }

  predicate AllZero(vs: seq<nat>) {
    forall i | 0 <= i < |vs| :: vs[i] == 0
  }
}
