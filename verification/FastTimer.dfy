/**
 Cycle counts, microseconds and the timers built on them. The clock is a parameter: each method
 takes the counter value it samples, and clockSpeed is the number of cycles a second, which
 `CLimitTimer` uses cut to 32 bits.
 */
module FastTimer {
  import opened Bits

  const WORD: nat := 0x1_0000_0000_0000_0000
  const MILLION: nat := 1000000

  // ----- arithmetic

  lemma DivBounds(x: nat, m: nat)
    requires m > 0
    ensures x / m * m <= x < x / m * m + m
  {
    assert x == x / m * m + x % m;
  }

  lemma DivUnique(x: nat, m: nat, q: nat)
    requires m > 0 && q * m <= x < q * m + m
    ensures x / m == q
  {
    DivModUnique(x, m, q, x - q * m);
  }

  lemma DivMonotone(x: nat, y: nat, m: nat)
    requires m > 0 && x <= y
    ensures x / m <= y / m
  {
    DivBounds(x, m);
    DivBounds(y, m);
    var p, q := x / m, y / m;
    if q < p {
      MulDistributes(p - q, q, m);
      MulAtLeast(p - q, m);
      assert false;
    }
  }

  /** Microseconds to cycles. */
  function Cycles(us: nat, clockSpeed: nat): nat {
    us * clockSpeed / MILLION
  }

  /** Cycles to microseconds. */
  function Microseconds(cycles: nat, clockSpeed: nat): nat
    requires clockSpeed > 0
  {
    cycles * MILLION / clockSpeed
  }

  /** The way there and back loses one microsecond exactly when the cycles are not whole. */
  lemma ThereAndBack(us: nat, clockSpeed: nat)
    requires clockSpeed >= MILLION
    ensures Cycles(us, clockSpeed) * MILLION <= us * clockSpeed
    ensures Microseconds(Cycles(us, clockSpeed), clockSpeed) ==
      if us * clockSpeed % MILLION == 0 then us else us - 1
    ensures us == 0 ==> us * clockSpeed % MILLION == 0
  {
    var x := us * clockSpeed;
    var c := x / MILLION * MILLION;
    DivBounds(x, MILLION);
    assert x == c + x % MILLION;
    if us == 0 {
      assert x == 0;
    }
    if x % MILLION == 0 {
      DivUnique(c, clockSpeed, us);
    } else {
      assert (us - 1) * clockSpeed == x - clockSpeed;
      DivUnique(c, clockSpeed, us - 1);
    }
  }

  lemma Unwrapped(x: nat)
    requires x < WORD
    ensures x % WORD == x
  {
  }

  /** A number converted to int. */
  function ToInt(x: nat): int {
    var w := x % 0x1_0000_0000;
    if w < 0x8000_0000 then w else w - 0x1_0000_0000
  }

  lemma SmallInt(x: nat)
    ensures x < 0x1_0000_0000 ==> x % 0x1_0000_0000 == x
    ensures x < 0x8000_0000 ==> ToInt(x) == x
  {
  }

  // ----- CCycleCount

  class CycleCount {
    var cycles: nat   // m_Int64

    constructor ()
      ensures cycles == 0
    {
      cycles := 0;
    }

    method SetMicroseconds(us: nat, clockSpeed: nat)
      modifies this
      ensures cycles == us * clockSpeed % WORD / MILLION
    {
      cycles := us * clockSpeed % WORD / MILLION;
    }

    method GetMicroseconds(clockSpeed: nat) returns (us: nat)
      requires clockSpeed > 0
      ensures us == cycles * MILLION % WORD / clockSpeed % 0x1_0000_0000
    {
      us := cycles * MILLION % WORD / clockSpeed % 0x1_0000_0000;
    }

    /** For any clock from 1 MHz on, while the product fits its word: off by at most one. */
    method SetThenGet(us: nat, clockSpeed: nat) returns (back: nat)
      requires us < 0x1_0000_0000 && clockSpeed >= MILLION && us * clockSpeed < 0x1_0000_0000_0000_0000
      modifies this
      ensures back == if us * clockSpeed % MILLION == 0 then us else us - 1
    {
      ThereAndBack(us, clockSpeed);
      SetMicroseconds(us, clockSpeed);
      Unwrapped(us * clockSpeed);
      assert cycles == Cycles(us, clockSpeed);
      back := GetMicroseconds(clockSpeed);
      Unwrapped(cycles * MILLION);
      SmallInt(Microseconds(cycles, clockSpeed));
    }
  }

  // ----- CLimitTimer

  /** m_dwClockSpeed, a uint32_t */
  function Truncated(clockSpeed: nat): (t: nat)
    ensures t < 0x1_0000_0000
  {
    clockSpeed % 0x1_0000_0000
  }

  /** A division by a clock speed of 0 faults. */
  datatype Reading = Reading(us: int) | DivisionByZero

  class LimitTimer {
    const clockSpeed: nat  // m_nClockSpeed
    var cycleLimit: nat    // m_lCycleLimit

    constructor (clockSpeed: nat)
      ensures this.clockSpeed == clockSpeed
    {
      this.clockSpeed := clockSpeed;
      cycleLimit := 0;
    }

    /** m_dwClockSpeed */
    function Speed(): (t: nat)
      ensures t < 0x1_0000_0000
    {
      Truncated(clockSpeed)
    }

    /** The limit lies as many cycles ahead as the truncated speed has in d microseconds. */
    method SetLimit(d: nat, now: nat)
      requires now + d * Speed() < WORD
      modifies this
      ensures cycleLimit == now + Cycles(d, Speed()) < WORD
    {
      WholeCycles(d);
      cycleLimit := (now + d * Speed() % WORD / MILLION) % WORD;
    }

    lemma WholeCycles(d: nat)
      requires d * Speed() < WORD
      ensures d * Speed() % WORD == d * Speed() && Cycles(d, Speed()) <= d * Speed()
    {
      DivBounds(d * Speed(), MILLION);
    }

    method BLimitReached(now: nat) returns (reached: bool)
      ensures reached <==> now >= cycleLimit
    {
      reached := now >= cycleLimit;
    }

    /** With the truncated speed, the limit is reached from the last whole cycle of the duration on. */
    method SetThenReached(d: nat, start: nat, now: nat) returns (reached: bool)
      requires start <= now && start + d * Speed() < 0x1_0000_0000_0000_0000
      modifies this
      ensures reached <==> now - start >= Cycles(d, Speed())
      ensures reached <==> (now - start + 1) * 1000000 > d * Speed()
    {
      hide Cycles;
      SetLimit(d, start);
      reached := BLimitReached(now);
      WholeCycleReached(d, Speed(), now - start);
    }

    /** CMicroSecLeft */
    function Left(now: nat): (left: Reading)
      reads this
    {
      if now >= cycleLimit then Reading(0) else Divided((cycleLimit - now) * MILLION % WORD)
    }

    /** CMicroSecOverage, an int */
    function Overage(now: nat): (over: Reading)
      reads this
    {
      if now < cycleLimit then Reading(0)
      else match Divided((now - cycleLimit) * MILLION % WORD)
        case Reading(us) => Reading(ToInt(us))
        case DivisionByZero => DivisionByZero
    }

    function Divided(x: nat): (r: Reading)
      ensures r.Reading? ==> r.us >= 0
    {
      if Speed() == 0 then DivisionByZero else Reading(x / Speed())
    }

    /** The products of both fit their word, and the overage its int. */
    predicate InRange(now: nat)
      requires Speed() > 0
      reads this
    {
      && (cycleLimit - now) * MILLION < WORD && (now - cycleLimit) * MILLION < WORD
      && (now > cycleLimit ==> Microseconds(now - cycleLimit, Speed()) < 0x8000_0000)
    }

    lemma Readings(now: nat)
      requires Speed() > 0 && InRange(now)
      ensures now < cycleLimit ==>
        Left(now) == Reading(Microseconds(cycleLimit - now, Speed())) && Overage(now) == Reading(0)
      ensures now >= cycleLimit ==>
        Left(now) == Reading(0) && Overage(now) == Reading(Microseconds(now - cycleLimit, Speed()))
    {
      hide Speed;
      ZeroMicroseconds();
      if now < cycleLimit {
        Unwrapped((cycleLimit - now) * MILLION);
      } else {
        Unwrapped((now - cycleLimit) * MILLION);
        SmallInt(Microseconds(now - cycleLimit, Speed()));
      }
    }

    lemma ZeroMicroseconds()
      requires Speed() > 0
      ensures Microseconds(0, Speed()) == 0
    {
      DivUnique(0, Speed(), 0);
    }

    /**
     As the clock advances the time left never grows and the overage never shrinks, and they are
     never both positive.
     */
    lemma ClockAdvances(now: nat, later: nat)
      requires Speed() > 0 && now <= later && InRange(now) && InRange(later)
      ensures Left(now).Reading? && Left(later).Reading? && Left(later).us <= Left(now).us
      ensures Overage(now).Reading? && Overage(later).Reading? && 0 <= Overage(now).us <= Overage(later).us
      ensures Left(now).us == 0 || Overage(now).us == 0
    {
      hide InRange, Left, Overage, Speed;
      Readings(now);
      Readings(later);
      if later < cycleLimit {
        DivMonotone((cycleLimit - later) * MILLION, (cycleLimit - now) * MILLION, Speed());
      } else if now >= cycleLimit {
        DivMonotone((now - cycleLimit) * MILLION, (later - cycleLimit) * MILLION, Speed());
      }
    }

    /** Right after the limit is set, the time left is the duration or one microsecond less. */
    method SetThenLeft(d: nat, now: nat) returns (left: Reading)
      requires Speed() >= 1000000 && now + d * Speed() < 0x1_0000_0000_0000_0000
      modifies this
      ensures left == Reading(if d * Speed() % 1000000 == 0 then d else d - 1)
    {
      hide Cycles, Microseconds, Left, Overage, Speed;
      SetLimit(d, now);
      ThereAndBack(d, Speed());
      ZeroMicroseconds();
      Readings(now);
      left := Left(now);
    }

    /** At a whole multiple of 2^32 Hz every limit is reached at once, and reading the overage faults. */
    method StoppedClock(d: nat, start: nat, now: nat) returns (reached: bool, over: Reading)
      requires clockSpeed % 0x1_0000_0000 == 0 && start <= now && start < WORD
      modifies this
      ensures reached && over == DivisionByZero
    {
      assert d * Speed() == 0 && Cycles(d, Speed()) == 0;
      SetLimit(d, start);
      reached := BLimitReached(now);
      over := Overage(now);
    }
  }

  lemma WholeCycleReached(d: nat, speed: nat, elapsed: nat)
    ensures elapsed >= Cycles(d, speed) <==> (elapsed + 1) * MILLION > d * speed
  {
    DivBounds(d * speed, MILLION);
  }

  /**
   After so many cycles of a clock a limit of d microseconds counts as reached exactly from the
   last whole cycle of that time on: never later than d, and earlier by less than one cycle.
   */
  ghost predicate OnTime(clockSpeed: nat, d: nat, elapsed: nat) {
    elapsed >= Cycles(d, Truncated(clockSpeed)) <==> (elapsed + 1) * MILLION > d * clockSpeed
  }

  /** Limits are on time for every duration that does not wrap, if and only if the clock is below 2^32 Hz. */
  lemma OnTimeIff(clockSpeed: nat)
    ensures (forall d: nat, elapsed: nat | d * Truncated(clockSpeed) < WORD :: OnTime(clockSpeed, d, elapsed))
      <==> clockSpeed < 0x1_0000_0000
  {
    hide Cycles, OnTime;
    var t := Truncated(clockSpeed);
    if clockSpeed < 0x1_0000_0000 {
      forall d: nat, elapsed: nat | d * t < WORD ensures OnTime(clockSpeed, d, elapsed) {
        OnTimeBelow(clockSpeed, d, elapsed);
      }
    } else {
      TooEarly(clockSpeed);
      assert 1 * t < WORD && !OnTime(clockSpeed, 1, Cycles(1, t));
    }
  }

  lemma OnTimeBelow(clockSpeed: nat, d: nat, elapsed: nat)
    requires clockSpeed < 0x1_0000_0000
    ensures OnTime(clockSpeed, d, elapsed)
  {
    hide Cycles;
    SmallInt(clockSpeed);
    WholeCycleReached(d, clockSpeed, elapsed);
  }

  /** A clock of 2^32 Hz and above counts a limit of one microsecond as reached before its time. */
  lemma TooEarly(clockSpeed: nat)
    requires clockSpeed >= 0x1_0000_0000
    ensures !OnTime(clockSpeed, 1, Cycles(1, Truncated(clockSpeed)))
  {
    var t := Truncated(clockSpeed);
    DivBounds(t, MILLION);
    DivBounds(clockSpeed, 0x1_0000_0000);
    assert clockSpeed >= t + 0x1_0000_0000;
    assert Cycles(1, t) == t / MILLION;
  }

  /** At 4.5 GHz a limit of a millisecond is reached after 205032 cycles, which take 46 microseconds. */
  lemma ShortMillisecond()
    ensures Cycles(1000, Truncated(4_500_000_000)) == 205032 && !OnTime(4_500_000_000, 1000, 205032)
  {
  }

  // ----- CTimeAdder

  class TimeAdder {
    var total: CycleCount?   // m_pTotal
    var start: nat           // m_Timer

    constructor (total: CycleCount?, now: nat)
      ensures this.total == total && start == now
    {
      this.total := total;
      start := now;
    }

    /** Adds the time since the start, once: a second call, as the destructor makes it, adds nothing. */
    method End(now: nat)
      requires start <= now
      modifies this, total
      ensures total == null && (old(total) != null ==>
        old(total).cycles == (old(total.cycles) + (now - start)) % WORD)
    {
      if total != null {
        total.cycles := (total.cycles + (now - start)) % WORD;
        total := null;
      }
    }
  }

  // ----- CAverageCycleCounter

  function Sum(ds: seq<nat>): nat {
    if ds == [] then 0 else Sum(ds[..|ds| - 1]) + ds[|ds| - 1]
  }

  class AverageCycleCounter {
    var iters: nat   // m_nIters
    var total: nat   // m_Total
    var peak: nat    // m_Peak
    ghost var durations: seq<nat>

    /** What the three fields say about all durations marked so far. */
    ghost predicate Valid()
      reads this
    {
      && iters == |durations| % 0x1_0000_0000
      && total == Sum(durations) % WORD
      && (durations == [] ==> peak == 0)
      && (durations != [] ==> peak in durations)
      && forall i | 0 <= i < |durations| :: durations[i] <= peak
    }

    constructor ()
      ensures Valid() && durations == []
    {
      iters, total, peak := 0, 0, 0;
      durations := [];
    }

    method MarkIter(duration: nat)
      requires Valid()
      modifies this
      ensures Valid() && durations == old(durations) + [duration]
      ensures iters == (old(iters) + 1) % 0x1_0000_0000
      ensures total == (old(total) + duration) % 0x1_0000_0000_0000_0000
      ensures peak == if old(peak) < duration then duration else old(peak)
    {
      AddMod(|durations|, 1, 0x1_0000_0000);
      AddMod(Sum(durations), duration, WORD);
      iters := (iters + 1) % 0x1_0000_0000;
      total := (total + duration) % WORD;
      if peak < duration {
        peak := duration;
      }
      durations := durations + [duration];
      assert durations[..|durations| - 1] == old(durations);
      assert durations[|durations| - 1] == duration;
    }

    lemma AddMod(a: nat, b: nat, m: nat)
      requires m > 0
      ensures (a % m + b) % m == (a + b) % m
    {
      var q, x := a / m, a % m + b;
      DivBounds(x, m);
      MulDistributes(q, x / m, m);
      DivModUnique(a + b, m, q + x / m, x % m);
    }
  }
}
