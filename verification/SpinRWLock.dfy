/**
 `CThreadSpinRWLock`: a readers/writer lock in one 32-bit word, shared by any number of threads.

 Each load, compare-and-swap, decrement and store is one step of one thread; a schedule says which
 thread moves next, so the statements about Run hold for every interleaving. The steps see one
 shared memory: barriers and weaker memory orders are not modelled.
 */
module SpinRWLock {
  import opened Bits

  /** Thread t is known to the lock by the id t + 1; GetCurrentThreadId is never 0. */
  type Thread = nat

  datatype Attempt = TryWrite | TryRead

  /** Where a thread stands. Each state names the step that comes next. */
  datatype PC =
    | Idle
    | WriteTest           // test the writer bit
    | WriteSwap           // compare-and-swap 0 for 0x10000
    | WriteClaim          // won; m_writerId = own id
    | Writing             // holds the lock; UnlockWrite begins with m_writerId = 0
    | WriteClear          // the word = 0
    | ReadTest            // test the writer bit
    | ReadLoad            // load the reader count
    | ReadSwap(seen: nat) // compare-and-swap seen for seen + 1
    | ReadCheck           // won; the assertion that nobody writes
    | Reading             // holds the lock; UnlockRead begins with its first assertion
    | ReadDrop            // decrement the word
    | ReadDone            // the assertion after the decrement
  {
    predicate HoldsWrite() {
      WriteClaim? || Writing? || WriteClear?
    }

    predicate HoldsRead() {
      ReadCheck? || Reading? || ReadDrop?
    }
  }

  datatype State = State(word: nat, writerId: nat, pcs: seq<PC>)

  /** m_fWriting, the upper half of the word; m_nReaders is the lower half. */
  function FWriting(word: nat): nat {
    word / 0x1_0000
  }

  /** `m_i32 & 0x00010000` */
  predicate WriterBit(word: nat) {
    And(word, 0x1_0000) != 0
  }

  /** `m_i32 & 0xffff` */
  function ReaderBits(word: nat): nat {
    And(word, 0xFFFF)
  }

  // ----- compare-and-swap

  /**
   Intended is what the name ThreadInterlockedAssignIf and all of its callers mean. Literal is the
   call it makes: the intrinsic's parameters are (destination, exchange, comparand), the wrapper
   passes (p, comperand, value), and the old value is returned as a bool.
   */
  datatype Cas = Intended | Literal

  function AssignIf(cas: Cas, word: nat, value: nat, comperand: nat): (nat, bool) {
    match cas
    case Intended => if word == comperand then (value, true) else (word, false)
    case Literal => (if word == value then comperand else word, word != 0)
  }

  /** The two meanings agree only where a swap changes nothing. */
  lemma LiteralIsIntendedIff(word: nat, value: nat, comperand: nat)
    ensures AssignIf(Literal, word, value, comperand) == AssignIf(Intended, word, value, comperand)
      <==> value != 0 && (if word == comperand then word == value else word == 0)
  {
  }

  // ----- the steps

  function Init(n: nat): (s: State)
    ensures |s.pcs| == n
  {
    State(0, 0, seq(n, _ => Idle))
  }

  function Step(cas: Cas, s: State, t: Thread, attempt: Attempt): (s': State)
    requires t < |s.pcs|
    ensures |s'.pcs| == |s.pcs|
  {
    match s.pcs[t]
    case Idle => Go(s, t, if attempt.TryWrite? then WriteTest else ReadTest)
    case WriteTest => Go(s, t, if WriterBit(s.word) then Idle else WriteSwap)
    case WriteSwap =>
      var (word, ok) := AssignIf(cas, s.word, 0x1_0000, 0);
      Go(s.(word := word), t, if ok then WriteClaim else Idle)
    case WriteClaim => Go(s.(writerId := t + 1), t, Writing)
    case Writing => Go(s.(writerId := 0), t, WriteClear)
    case WriteClear => Go(s.(word := 0), t, Idle)
    case ReadTest => Go(s, t, if WriterBit(s.word) then Idle else ReadLoad)
    case ReadLoad => Go(s, t, ReadSwap(ReaderBits(s.word)))
    case ReadSwap(seen) =>
      var (word, ok) := AssignIf(cas, s.word, seen + 1, seen);
      Go(s.(word := word), t, if ok then ReadCheck else Idle)
    case ReadCheck => Go(s, t, Reading)
    case Reading => Go(s, t, ReadDrop)
    case ReadDrop => Go(s.(word := (s.word + 0xFFFF_FFFF) % 0x1_0000_0000), t, ReadDone)
    case ReadDone => Go(s, t, Idle)
  }

  function Go(s: State, t: Thread, pc: PC): State
    requires t < |s.pcs|
  {
    s.(pcs := s.pcs[t := pc])
  }

  /** What the source asserts before the step that thread t is about to take. */
  predicate AssertHolds(s: State, t: Thread)
    requires t < |s.pcs|
  {
    match s.pcs[t]
    case WriteClaim => s.writerId == 0
    case Writing => s.writerId == t + 1
    case ReadCheck => FWriting(s.word) == 0
    case Reading => s.writerId == 0 || (s.writerId == t + 1 && FWriting(s.word) != 0)
    case ReadDone => s.writerId == 0 && FWriting(s.word) == 0
    case _ => true
  }

  type Schedule = seq<(Thread, Attempt)>

  predicate For(schedule: Schedule, n: nat) {
    forall i | 0 <= i < |schedule| :: schedule[i].0 < n
  }

  function Run(cas: Cas, s: State, schedule: Schedule): (s': State)
    requires For(schedule, |s.pcs|)
    ensures |s'.pcs| == |s.pcs|
    decreases schedule
  {
    if schedule == [] then s else Run(cas, Step(cas, s, schedule[0].0, schedule[0].1), schedule[1..])
  }

  lemma {:induction false} RunAppend(cas: Cas, s: State, a: Schedule, b: Schedule)
    requires For(a, |s.pcs|) && For(b, |s.pcs|)
    ensures Run(cas, s, a + b) == Run(cas, Run(cas, s, a), b)
    decreases a
  {
    hide Step;
    if a == [] {
      assert a + b == b;
    } else {
      assert (a + b)[1..] == a[1..] + b;
      RunAppend(cas, Step(cas, s, a[0].0, a[0].1), a[1..], b);
    }
  }

  // ----- the invariant

  function Readers(pcs: seq<PC>): set<Thread> {
    set t | 0 <= t < |pcs| && pcs[t].HoldsRead()
  }

  function Writers(pcs: seq<PC>): set<Thread> {
    set t | 0 <= t < |pcs| && pcs[t].HoldsWrite()
  }

  /** The word is a writer's mark or the exact number of readers; the id is the writer's, once claimed. */
  ghost predicate Inv(s: State) {
    && (if Writers(s.pcs) == {} then s.word == |Readers(s.pcs)| <= 0x1_0000
        else Readers(s.pcs) == {} && s.word == 0x1_0000)
    && (forall t, u | t in Writers(s.pcs) && u in Writers(s.pcs) :: t == u)
    && (forall t | 0 <= t < |s.pcs| && s.pcs[t].Writing? :: s.writerId == t + 1)
    && (s.writerId != 0 ==> s.writerId <= |s.pcs| && s.pcs[s.writerId - 1].Writing?)
    && (forall t | 0 <= t < |s.pcs| && s.pcs[t].ReadSwap? :: s.pcs[t].seen <= 0xFFFF)
  }

  lemma WordBits(word: nat)
    requires word <= 0x1_0000
    ensures WriterBit(word) <==> word == 0x1_0000
    ensures ReaderBits(word) == word % 0x1_0000 <= 0xFFFF
  {
    hide And;
    Pow2Values();
    AndMask(word, 16);
    TruncIsMod(word, 16);
    ShlOne(16);
    AndShl(word, 1, 16);
    ShrIsDiv(word, 16);
    ByOne(word / 0x1_0000);
    ShlIsTimes(word / 0x1_0000 % 2, 16);
  }

  /** A thread that moves leaves and joins the holders as its states say. */
  lemma ReadersMove(pcs: seq<PC>, t: Thread, pc: PC)
    requires t < |pcs|
    ensures Readers(pcs[t := pc]) == if pc.HoldsRead() then Readers(pcs) + {t} else Readers(pcs) - {t}
    ensures t in Readers(pcs) <==> pcs[t].HoldsRead()
  {
    hide PC.HoldsRead;
    forall u
      ensures u in Readers(pcs[t := pc]) <==> if u == t then pc.HoldsRead() else u in Readers(pcs)
    {
    }
  }

  lemma WritersMove(pcs: seq<PC>, t: Thread, pc: PC)
    requires t < |pcs|
    ensures Writers(pcs[t := pc]) == if pc.HoldsWrite() then Writers(pcs) + {t} else Writers(pcs) - {t}
    ensures t in Writers(pcs) <==> pcs[t].HoldsWrite()
  {
    hide PC.HoldsWrite;
    forall u
      ensures u in Writers(pcs[t := pc]) <==> if u == t then pc.HoldsWrite() else u in Writers(pcs)
    {
    }
  }

  /** A step that neither acquires nor releases. */
  lemma PassingStep(s: State, t: Thread, pc: PC)
    requires Inv(s) && t < |s.pcs|
    requires pc.HoldsRead() == s.pcs[t].HoldsRead() && pc.HoldsWrite() == s.pcs[t].HoldsWrite()
    requires !pc.Writing? && !s.pcs[t].Writing? && (pc.ReadSwap? ==> pc.seen <= 0xFFFF)
    ensures Inv(Go(s, t, pc))
  {
    hide Readers, Writers, PC.HoldsRead, PC.HoldsWrite;
    ReadersMove(s.pcs, t, pc);
    WritersMove(s.pcs, t, pc);
    assert Readers(s.pcs[t := pc]) == Readers(s.pcs) && Writers(s.pcs[t := pc]) == Writers(s.pcs);
  }

  /** A winner of the write swap. */
  lemma Acquires(s: State, t: Thread)
    requires Inv(s) && t < |s.pcs|
    requires s.pcs[t] == WriteSwap && s.word == 0
    ensures Inv(Go(s.(word := 0x1_0000), t, WriteClaim))
  {
    hide Readers, Writers;
    ReadersMove(s.pcs, t, WriteClaim);
    WritersMove(s.pcs, t, WriteClaim);
    assert Writers(s.pcs) == {} && Readers(s.pcs) == {};
  }

  /** A winner of the read swap. */
  lemma Joins(s: State, t: Thread)
    requires Inv(s) && t < |s.pcs|
    requires s.pcs[t].ReadSwap? && s.word == s.pcs[t].seen
    ensures Inv(Go(s.(word := s.word + 1), t, ReadCheck))
  {
    hide Readers, Writers;
    ReadersMove(s.pcs, t, ReadCheck);
    WritersMove(s.pcs, t, ReadCheck);
    assert Writers(s.pcs[t := ReadCheck]) == Writers(s.pcs) == {};
    assert t !in Readers(s.pcs);
  }

  /** `(word - 1)` in 32 bits */
  lemma Decremented(word: nat)
    requires 1 <= word <= 0x1_0000
    ensures (word + 0xFFFF_FFFF) % 0x1_0000_0000 == word - 1
  {
  }

  lemma Leaves(s: State, t: Thread)
    requires Inv(s) && t < |s.pcs|
    requires s.pcs[t] == ReadDrop
    ensures 1 <= s.word <= 0x1_0000 && Inv(Go(s.(word := s.word - 1), t, ReadDone))
  {
    hide Readers, Writers;
    ReadersMove(s.pcs, t, ReadDone);
    WritersMove(s.pcs, t, ReadDone);
    assert t in Readers(s.pcs);
    assert Writers(s.pcs[t := ReadDone]) == Writers(s.pcs) == {};
  }

  /** The steps of the thread that holds the write lock. */
  lemma WriterMoves(s: State, t: Thread)
    requires Inv(s) && t < |s.pcs|
    ensures s.pcs[t] == WriteClaim ==> Inv(Go(s.(writerId := t + 1), t, Writing))
    ensures s.pcs[t] == Writing ==> Inv(Go(s.(writerId := 0), t, WriteClear))
    ensures s.pcs[t] == WriteClear ==> Inv(Go(s.(word := 0), t, Idle))
  {
    if s.pcs[t].HoldsWrite() {
      assert t in Writers(s.pcs);
      assert Writers(s.pcs) == {t};
      assert forall u | 0 <= u < |s.pcs| && s.pcs[u].Writing? :: u in Writers(s.pcs);
      assert s.writerId != 0 ==> s.writerId - 1 in Writers(s.pcs);
      hide Readers, Writers;
      ReadersMove(s.pcs, t, Writing);
      WritersMove(s.pcs, t, Writing);
      ReadersMove(s.pcs, t, WriteClear);
      WritersMove(s.pcs, t, WriteClear);
      ReadersMove(s.pcs, t, Idle);
      WritersMove(s.pcs, t, Idle);
    }
  }

  /** Every step of every thread keeps the invariant. */
  lemma StepKeepsInv(s: State, t: Thread, attempt: Attempt)
    requires Inv(s) && t < |s.pcs|
    ensures Inv(Step(Intended, s, t, attempt))
  {
    hide Inv, WriterBit, ReaderBits;
    var pc := s.pcs[t];
    if pc == WriteSwap && s.word == 0 {
      Acquires(s, t);
    } else if pc.ReadSwap? && s.word == pc.seen {
      Joins(s, t);
    } else if pc == ReadDrop {
      Leaves(s, t);
      Decremented(s.word);
    } else if pc.HoldsWrite() {
      WriterMoves(s, t);
    } else {
      ReaderBitsBound(s.word);
      PassingStep(s, t, Step(Intended, s, t, attempt).pcs[t]);
    }
  }

  lemma ReaderBitsBound(word: nat)
    ensures ReaderBits(word) <= 0xFFFF
  {
    hide And;
    Pow2Values();
    AndMask(word, 16);
    TruncBound(word, 16);
  }

  lemma {:induction false} RunKeepsInv(s: State, schedule: Schedule)
    requires Inv(s) && For(schedule, |s.pcs|)
    ensures Inv(Run(Intended, s, schedule))
    decreases schedule
  {
    hide Inv, Step;
    if schedule != [] {
      StepKeepsInv(s, schedule[0].0, schedule[0].1);
      RunKeepsInv(Step(Intended, s, schedule[0].0, schedule[0].1), schedule[1..]);
    }
  }

  lemma InitInv(n: nat)
    ensures Inv(Init(n))
  {
    assert Readers(Init(n).pcs) == {} && Writers(Init(n).pcs) == {};
  }

  ghost predicate Reachable(n: nat, s: State)
    ensures Reachable(n, s) ==> |s.pcs| == n
  {
    exists schedule :: For(schedule, n) && Run(Intended, Init(n), schedule) == s
  }

  lemma ReachableInv(n: nat, s: State)
    requires Reachable(n, s)
    ensures Inv(s) && |s.pcs| == n
  {
    hide Inv;
    var schedule :| For(schedule, n) && Run(Intended, Init(n), schedule) == s;
    InitInv(n);
    RunKeepsInv(Init(n), schedule);
  }

  // ----- safety

  /** A writer excludes every other holder, for any number of threads. */
  lemma MutualExclusion(n: nat, s: State, t: Thread, u: Thread)
    requires Reachable(n, s) && t < n && u < n && t != u
    ensures !(s.pcs[t].HoldsWrite() && (s.pcs[u].HoldsWrite() || s.pcs[u].HoldsRead()))
  {
    hide Reachable;
    ReachableInv(n, s);
    assert s.pcs[t].HoldsWrite() ==> t in Writers(s.pcs);
    assert s.pcs[u].HoldsWrite() ==> u in Writers(s.pcs);
    assert s.pcs[u].HoldsRead() ==> u in Readers(s.pcs);
  }

  /** The word is 0x10000 under a writer and otherwise the exact number of readers. */
  lemma WordIsExact(n: nat, s: State)
    requires Reachable(n, s)
    ensures s.word == if exists t :: 0 <= t < n && s.pcs[t].HoldsWrite() then 0x1_0000 else |Readers(s.pcs)|
  {
    hide Reachable;
    ReachableInv(n, s);
    if t :| 0 <= t < n && s.pcs[t].HoldsWrite() {
      assert t in Writers(s.pcs);
    } else {
      assert Writers(s.pcs) == {};
    }
  }

  lemma {:induction false} ReadersBound(pcs: seq<PC>)
    ensures |Readers(pcs)| <= |pcs|
    decreases |pcs|
  {
    if pcs == [] {
      assert Readers(pcs) == {};
    } else {
      var k := |pcs| - 1;
      ReadersBound(pcs[..k]);
      assert Readers(pcs) == Readers(pcs[..k]) + if pcs[k].HoldsRead() then {k} else {};
    }
  }

  /** With at most 65535 threads the writer bit is set exactly while a thread holds the write lock. */
  lemma WriterBitMeansWriter(n: nat, s: State)
    requires Reachable(n, s) && n <= 0xFFFF
    ensures FWriting(s.word) != 0 <==> exists t :: 0 <= t < n && s.pcs[t].HoldsWrite()
    ensures FWriting(s.word) == if WriterBit(s.word) then 1 else 0
  {
    hide Reachable, WriterBit;
    ReachableInv(n, s);
    ReadersBound(s.pcs);
    WordBits(s.word);
    if t :| 0 <= t < n && s.pcs[t].HoldsWrite() {
      assert t in Writers(s.pcs);
    } else {
      assert Writers(s.pcs) == {};
    }
  }

  /** The id is 0 for a thread that has just won the swap and for every reader. */
  lemma WriterIdIsExact(n: nat, s: State, t: Thread)
    requires Reachable(n, s) && t < n
    ensures s.pcs[t].Writing? <==> s.writerId == t + 1
    ensures s.pcs[t].WriteClaim? || s.pcs[t].WriteClear? || s.pcs[t].HoldsRead() ==> s.writerId == 0
  {
    hide Reachable;
    ReachableInv(n, s);
    assert s.pcs[t].HoldsWrite() ==> t in Writers(s.pcs);
    assert s.pcs[t].HoldsRead() ==> t in Readers(s.pcs);
    if s.writerId != 0 {
      assert s.writerId - 1 in Writers(s.pcs);
    }
  }

  /** While a thread holds the write lock nobody else changes the lock, so its plain stores lose nothing. */
  lemma StoresLoseNothing(n: nat, s: State, t: Thread, u: Thread, attempt: Attempt)
    requires Reachable(n, s) && t < n && u < n && t != u && s.pcs[t].HoldsWrite()
    ensures var s' := Step(Intended, s, u, attempt); s'.word == s.word && s'.writerId == s.writerId
  {
    hide Reachable, WriterBit, ReaderBits;
    ReachableInv(n, s);
    assert t in Writers(s.pcs);
    assert s.pcs[u].HoldsWrite() ==> u in Writers(s.pcs);
    assert s.pcs[u].HoldsRead() ==> u in Readers(s.pcs);
  }

  /** Four of the five assertions hold at every step of every run of at most 65535 threads. */
  lemma AssertionsHold(n: nat, s: State, t: Thread)
    requires Reachable(n, s) && t < n <= 0xFFFF && s.pcs[t] != ReadDone
    ensures AssertHolds(s, t)
  {
    hide Reachable, WriterBit;
    WriterIdIsExact(n, s, t);
    WriterBitMeansWriter(n, s);
    if s.pcs[t].ReadCheck? && FWriting(s.word) != 0 {
      var u :| 0 <= u < n && s.pcs[u].HoldsWrite();
      MutualExclusion(n, s, u, t);
    }
  }

  /** The fifth, after the decrement of UnlockRead, holds exactly while no new writer has come in. */
  lemma LastAssertionIff(n: nat, s: State, t: Thread)
    requires Reachable(n, s) && t < n <= 0xFFFF && s.pcs[t] == ReadDone
    ensures AssertHolds(s, t) <==> forall u | 0 <= u < n :: !s.pcs[u].HoldsWrite()
  {
    hide Reachable, WriterBit;
    WriterBitMeansWriter(n, s);
    if s.writerId != 0 {
      ReachableInv(n, s);
      assert s.pcs[s.writerId - 1].HoldsWrite();
    }
  }

  // ----- runs of one thread

  function Solo(t: Thread, attempt: Attempt, k: nat): (schedule: Schedule)
    ensures |schedule| == k && forall i | 0 <= i < k :: schedule[i] == (t, attempt)
  {
    seq(k, _ => (t, attempt))
  }

  lemma SoloStep(cas: Cas, s: State, t: Thread, attempt: Attempt, k: nat)
    requires t < |s.pcs| && k > 0
    ensures Run(cas, s, Solo(t, attempt, k)) == Run(cas, Step(cas, s, t, attempt), Solo(t, attempt, k - 1))
  {
    hide Step;
    assert Solo(t, attempt, k)[1..] == Solo(t, attempt, k - 1);
  }

  /** An undisturbed TryLockForWrite succeeds exactly when nobody holds the lock, and else returns with no effect. */
  lemma UndisturbedWriteIff(n: nat, s: State, t: Thread)
    requires Reachable(n, s) && t < n && s.pcs[t] == Idle
    ensures s.word == 0 ==>
      Run(Intended, s, Solo(t, TryWrite, 4)) == State(0x1_0000, t + 1, s.pcs[t := Writing])
    ensures 0 < s.word < 0x1_0000 ==> Run(Intended, s, Solo(t, TryWrite, 3)) == s
    ensures s.word >= 0x1_0000 ==> Run(Intended, s, Solo(t, TryWrite, 2)) == s
    ensures s.word == 0 <==> forall u | 0 <= u < n :: !s.pcs[u].HoldsWrite() && !s.pcs[u].HoldsRead()
  {
    hide Reachable, Run, And, WriterBit, Inv;
    ReachableInv(n, s);
    WordIsZeroIff(s);
    WordInRange(s);
    WordBits(s.word);
    if s.word == 0 {
      FreeWrite(s, t);
    } else {
      RefusedWrite(s, t);
    }
  }

  lemma FreeWrite(s: State, t: Thread)
    requires t < |s.pcs| && s.pcs[t] == Idle && s.word == 0
    ensures Run(Intended, s, Solo(t, TryWrite, 4)) == State(0x1_0000, t + 1, s.pcs[t := Writing])
  {
    hide Run, And, WriterBit;
    WordBits(s.word);
    SoloStep(Intended, s, t, TryWrite, 4);
    var s1 := Step(Intended, s, t, TryWrite);
    SoloStep(Intended, s1, t, TryWrite, 3);
    var s2 := Step(Intended, s1, t, TryWrite);
    SoloStep(Intended, s2, t, TryWrite, 2);
    var s3 := Step(Intended, s2, t, TryWrite);
    SoloStep(Intended, s3, t, TryWrite, 1);
    var s4 := Step(Intended, s3, t, TryWrite);
    EmptyRun(Intended, s4, t, TryWrite);
    assert s.pcs[t := WriteTest][t := WriteSwap][t := WriteClaim][t := Writing] == s.pcs[t := Writing];
  }

  lemma RefusedWrite(s: State, t: Thread)
    requires t < |s.pcs| && s.pcs[t] == Idle && 0 < s.word <= 0x1_0000
    ensures Run(Intended, s, Solo(t, TryWrite, if s.word < 0x1_0000 then 3 else 2)) == s
  {
    hide Run, And, WriterBit;
    WordBits(s.word);
    var k := if s.word < 0x1_0000 then 3 else 2;
    SoloStep(Intended, s, t, TryWrite, k);
    var s1 := Step(Intended, s, t, TryWrite);
    SoloStep(Intended, s1, t, TryWrite, k - 1);
    var s2 := Step(Intended, s1, t, TryWrite);
    assert s.pcs[t := WriteTest][t := WriteSwap][t := Idle] == s.pcs[t := WriteTest][t := Idle] == s.pcs;
    if s.word < 0x1_0000 {
      SoloStep(Intended, s2, t, TryWrite, 1);
      EmptyRun(Intended, Step(Intended, s2, t, TryWrite), t, TryWrite);
    } else {
      EmptyRun(Intended, s2, t, TryWrite);
    }
  }

  lemma EmptyRun(cas: Cas, s: State, t: Thread, attempt: Attempt)
    ensures Run(cas, s, Solo(t, attempt, 0)) == s
  {
  }

  lemma WordInRange(s: State)
    requires Inv(s)
    ensures s.word <= 0x1_0000
  {
  }

  lemma WordIsZeroIff(s: State)
    requires Inv(s)
    ensures s.word == 0 <==> forall u | 0 <= u < |s.pcs| :: !s.pcs[u].HoldsWrite() && !s.pcs[u].HoldsRead()
  {
    if s.word == 0 {
      assert Writers(s.pcs) == {} && Readers(s.pcs) == {};
      forall u | 0 <= u < |s.pcs| ensures !s.pcs[u].HoldsWrite() && !s.pcs[u].HoldsRead() {
        assert u !in Writers(s.pcs) && u !in Readers(s.pcs);
      }
    } else if Writers(s.pcs) == {} {
      assert Readers(s.pcs) != {};
      var u :| u in Readers(s.pcs);
    } else {
      var u :| u in Writers(s.pcs);
    }
  }

  /** An undisturbed TryLockForRead succeeds exactly when the word is below 0x10000. */
  lemma UndisturbedReadIff(n: nat, s: State, t: Thread)
    requires Reachable(n, s) && t < n && s.pcs[t] == Idle
    ensures s.word < 0x1_0000 ==>
      Run(Intended, s, Solo(t, TryRead, 5)) == State(s.word + 1, s.writerId, s.pcs[t := Reading])
    ensures s.word >= 0x1_0000 ==> Run(Intended, s, Solo(t, TryRead, 2)) == s
  {
    hide Reachable, Run, And, WriterBit, ReaderBits, Inv;
    ReachableInv(n, s);
    WordInRange(s);
    WordBits(s.word);
    SoloStep(Intended, s, t, TryRead, 5);
    SoloStep(Intended, s, t, TryRead, 2);
    var s1 := Step(Intended, s, t, TryRead);
    SoloStep(Intended, s1, t, TryRead, 4);
    SoloStep(Intended, s1, t, TryRead, 1);
    var s2 := Step(Intended, s1, t, TryRead);
    EmptyRun(Intended, s2, t, TryRead);
    SoloStep(Intended, s2, t, TryRead, 3);
    var s3 := Step(Intended, s2, t, TryRead);
    SoloStep(Intended, s3, t, TryRead, 2);
    var s4 := Step(Intended, s3, t, TryRead);
    SoloStep(Intended, s4, t, TryRead, 1);
    var s5 := Step(Intended, s4, t, TryRead);
    EmptyRun(Intended, s5, t, TryRead);
    if s.word < 0x1_0000 {
      assert s.pcs[t := ReadTest][t := ReadLoad][t := ReadSwap(s.word)][t := ReadCheck][t := Reading]
        == s.pcs[t := Reading];
    } else {
      assert s.pcs[t := ReadTest][t := Idle] == s.pcs;
    }
  }

  /** Once every thread is idle again, the lock is as it was built. */
  lemma QuiescentIsFresh(n: nat, s: State)
    requires Reachable(n, s) && forall t | 0 <= t < n :: s.pcs[t] == Idle
    ensures s == Init(n)
  {
    hide Reachable;
    ReachableInv(n, s);
    assert Readers(s.pcs) == {} && Writers(s.pcs) == {};
    assert s.pcs == Init(n).pcs;
  }

  /** An undisturbed release by the holder takes it out and leaves the rest. */
  lemma UndisturbedRelease(n: nat, s: State, t: Thread)
    requires Reachable(n, s) && t < n
    ensures s.pcs[t].Writing? ==> Run(Intended, s, Solo(t, TryRead, 2)) == State(0, 0, s.pcs[t := Idle])
    ensures s.pcs[t].Reading? ==>
      s.word >= 1 && Run(Intended, s, Solo(t, TryRead, 3)) == State(s.word - 1, 0, s.pcs[t := Idle])
  {
    hide Reachable, Run, Inv;
    ReachableInv(n, s);
    WordInRange(s);
    WordIsZeroIff(s);
    WriterIdIsExact(n, s, t);
    SoloStep(Intended, s, t, TryRead, 2);
    SoloStep(Intended, s, t, TryRead, 3);
    var s1 := Step(Intended, s, t, TryRead);
    SoloStep(Intended, s1, t, TryRead, 1);
    SoloStep(Intended, s1, t, TryRead, 2);
    var s2 := Step(Intended, s1, t, TryRead);
    EmptyRun(Intended, s2, t, TryRead);
    SoloStep(Intended, s2, t, TryRead, 1);
    EmptyRun(Intended, Step(Intended, s2, t, TryRead), t, TryRead);
    if s.pcs[t].Reading? {
      Decremented(s.word);
      assert s.pcs[t := ReadDrop][t := ReadDone][t := Idle] == s.pcs[t := Idle];
    } else if s.pcs[t].Writing? {
      assert s.pcs[t := WriteClear][t := Idle] == s.pcs[t := Idle];
    }
  }

  // ----- one try among the steps of all other threads

  /** The write swap takes the lock if nobody holds it at that moment; otherwise the try gives up. */
  lemma WriteSwapIff(n: nat, s: State, t: Thread, attempt: Attempt)
    requires Reachable(n, s) && t < n && s.pcs[t] == WriteSwap
    ensures Step(Intended, s, t, attempt) ==
      if forall u | 0 <= u < n :: !s.pcs[u].HoldsWrite() && !s.pcs[u].HoldsRead()
      then State(0x1_0000, 0, s.pcs[t := WriteClaim])
      else s.(pcs := s.pcs[t := Idle])
  {
    hide Reachable;
    ReachableInv(n, s);
    WordIsZeroIff(s);
    if s.writerId != 0 {
      assert s.pcs[s.writerId - 1].HoldsWrite();
    }
  }

  /** The read swap joins if there is no writer and the number of readers is still the one loaded. */
  lemma ReadSwapIff(n: nat, s: State, t: Thread, attempt: Attempt)
    requires Reachable(n, s) && t < n && s.pcs[t].ReadSwap?
    ensures Step(Intended, s, t, attempt) ==
      if (forall u | 0 <= u < n :: !s.pcs[u].HoldsWrite()) && |Readers(s.pcs)| == s.pcs[t].seen
      then s.(word := |Readers(s.pcs)| + 1, pcs := s.pcs[t := ReadCheck])
      else s.(pcs := s.pcs[t := Idle])
  {
    hide Reachable;
    ReachableInv(n, s);
    if u :| 0 <= u < n && s.pcs[u].HoldsWrite() {
      assert u in Writers(s.pcs);
    } else {
      assert Writers(s.pcs) == {};
    }
  }

  /** How many of the steps are the thread's own. */
  function Moves(schedule: Schedule, t: Thread): nat {
    if schedule == [] then 0 else (if schedule[0].0 == t then 1 else 0) + Moves(schedule[1..], t)
  }

  /** A try has returned: false after the test or the swap, true as a holder. */
  predicate Returned(pc: PC, moves: nat, attempt: Attempt) {
    match attempt
    case TryWrite => if pc == Idle then moves == 2 || moves == 3 else pc == Writing && moves == 4
    case TryRead => if pc == Idle then moves == 2 || moves == 4 else pc == Reading && moves == 5
  }

  /** Where a try stands after this many steps of its own. */
  predicate Trying(pc: PC, moves: nat, attempt: Attempt) {
    match attempt
    case TryWrite => (pc, moves) in {(WriteTest, 1), (WriteSwap, 2), (WriteClaim, 3)}
    case TryRead => (pc, moves) in {(ReadTest, 1), (ReadLoad, 2), (ReadCheck, 4)} || (pc.ReadSwap? && moves == 3)
  }

  lemma NextMove(cas: Cas, s: State, t: Thread, u: Thread, next: Attempt, moves: nat, attempt: Attempt)
    requires t < |s.pcs| && u < |s.pcs| && Trying(s.pcs[t], moves, attempt)
    ensures var pc := Step(cas, s, u, next).pcs[t];
      if u != t then pc == s.pcs[t] else Trying(pc, moves + 1, attempt) || Returned(pc, moves + 1, attempt)
  {
    hide WriterBit, ReaderBits;
  }

  /** The rest of a try. */
  lemma {:induction false} TryGoesOn(cas: Cas, s: State, schedule: Schedule, t: Thread, moves: nat, attempt: Attempt)
    returns (k: nat)
    requires For(schedule, |s.pcs|) && t < |s.pcs|
    requires Trying(s.pcs[t], moves, attempt) && moves + Moves(schedule, t) >= 5
    ensures k <= |schedule|
    ensures Returned(Run(cas, s, schedule[..k]).pcs[t], moves + Moves(schedule[..k], t), attempt)
    decreases schedule
  {
    hide Step, Trying, Returned;
    assert moves < 5 by {
      TryingIsShort(s.pcs[t], moves, attempt);
    }
    var u, next := schedule[0].0, schedule[0].1;
    var s1 := Step(cas, s, u, next);
    NextMove(cas, s, t, u, next, moves, attempt);
    var moves1 := if u == t then moves + 1 else moves;
    if u == t && Returned(s1.pcs[t], moves1, attempt) {
      k := 1;
      assert schedule[..1][1..] == [];
      assert Run(cas, s, schedule[..1]) == Run(cas, s1, []);
    } else {
      var k1 := TryGoesOn(cas, s1, schedule[1..], t, moves1, attempt);
      k := k1 + 1;
      assert schedule[..k][1..] == schedule[1..][..k1];
    }
  }

  lemma TryingIsShort(pc: PC, moves: nat, attempt: Attempt)
    requires Trying(pc, moves, attempt)
    ensures moves < 5
  {
  }

  /**
   Whatever the other threads do, a try returns within five steps of its own: it never waits. It has
   the lock only after its last step, and gives up only at its test and at its swap.
   */
  lemma TryReturns(cas: Cas, s: State, schedule: Schedule, t: Thread) returns (k: nat)
    requires For(schedule, |s.pcs|) && t < |s.pcs| && s.pcs[t] == Idle
    requires Moves(schedule, t) >= 5 && schedule[0].0 == t
    ensures 0 < k <= |schedule|
    ensures Returned(Run(cas, s, schedule[..k]).pcs[t], Moves(schedule[..k], t), schedule[0].1)
  {
    var k1 := TryGoesOn(cas, Step(cas, s, t, schedule[0].1), schedule[1..], t, 1, schedule[0].1);
    k := k1 + 1;
    assert schedule[..k][1..] == schedule[1..][..k1];
  }

  lemma StepReachable(n: nat, s: State, schedule: Schedule)
    requires Reachable(n, s) && For(schedule, n)
    ensures Reachable(n, Run(Intended, s, schedule))
  {
    hide Run;
    var past :| For(past, n) && Run(Intended, Init(n), past) == s;
    RunAppend(Intended, Init(n), past, schedule);
    assert For(past + schedule, n);
  }

  // ----- the lock itself, as one thread runs it undisturbed

  /** The methods do what the steps of their thread do when no other thread moves in between. */
  class RWLock {
    var lockInfo: nat   // m_lockInfo
    var writerId: nat   // m_writerId

    constructor ()
      ensures forall n :: Shows(Init(n))
    {
      lockInfo := 0;
      writerId := 0;
    }

    ghost predicate Shows(s: State)
      reads this
    {
      s.word == lockInfo && s.writerId == writerId
    }

    method ThreadInterlockedAssignIf(value: nat, comperand: nat) returns (swapped: bool)
      modifies this`lockInfo
      ensures (lockInfo, swapped) == AssignIf(Intended, old(lockInfo), value, comperand)
    {
      swapped := lockInfo == comperand;
      if swapped {
        lockInfo := value;
      }
    }

    method TryLockForWrite(t: Thread, ghost n: nat, ghost s: State) returns (locked: bool)
      requires Reachable(n, s) && Shows(s) && t < n && s.pcs[t] == Idle
      modifies this
      ensures locked <==> forall u | 0 <= u < n :: !s.pcs[u].HoldsWrite() && !s.pcs[u].HoldsRead()
      ensures if locked then Shows(State(0x1_0000, t + 1, s.pcs[t := Writing]))
          && Reachable(n, State(0x1_0000, t + 1, s.pcs[t := Writing]))
        else Shows(s) && s == Run(Intended, s, Solo(t, TryWrite, if s.word < 0x1_0000 then 3 else 2))
    {
      hide Reachable, Inv, Run, And, WriterBit;
      UndisturbedWriteIff(n, s, t);
      StepReachable(n, s, Solo(t, TryWrite, 4));
      ReachableInv(n, s);
      WordInRange(s);
      WordBits(lockInfo);
      locked := false;
      if !WriterBit(lockInfo) {
        var swapped := ThreadInterlockedAssignIf(0x1_0000, 0);
        if swapped {
          writerId := t + 1;
          locked := true;
        }
      }
    }

    method TryLockForRead(t: Thread, ghost n: nat, ghost s: State) returns (locked: bool)
      requires Reachable(n, s) && Shows(s) && t < n && s.pcs[t] == Idle
      modifies this
      ensures locked <==> s.word < 0x1_0000
      ensures if locked then Shows(State(s.word + 1, s.writerId, s.pcs[t := Reading]))
          && Reachable(n, State(s.word + 1, s.writerId, s.pcs[t := Reading]))
        else Shows(s) && s == Run(Intended, s, Solo(t, TryRead, 2))
    {
      hide Reachable, Inv, Run, And, WriterBit, ReaderBits;
      UndisturbedReadIff(n, s, t);
      StepReachable(n, s, Solo(t, TryRead, 5));
      ReachableInv(n, s);
      WordInRange(s);
      WordBits(lockInfo);
      locked := false;
      if !WriterBit(lockInfo) {
        var oldValue := ReaderBits(lockInfo);
        var newValue := oldValue + 1;
        locked := ThreadInterlockedAssignIf(newValue, oldValue);
      }
    }

    method UnlockWrite(t: Thread, ghost n: nat, ghost s: State)
      requires Reachable(n, s) && Shows(s) && t < n && s.pcs[t] == Writing
      modifies this
      ensures Shows(State(0, 0, s.pcs[t := Idle])) && Reachable(n, State(0, 0, s.pcs[t := Idle]))
    {
      hide Reachable, Run;
      UndisturbedRelease(n, s, t);
      StepReachable(n, s, Solo(t, TryRead, 2));
      writerId := 0;
      lockInfo := 0;
    }

    method UnlockRead(t: Thread, ghost n: nat, ghost s: State)
      requires Reachable(n, s) && Shows(s) && t < n && s.pcs[t] == Reading
      modifies this
      ensures s.word >= 1 && Shows(State(s.word - 1, 0, s.pcs[t := Idle]))
      ensures Reachable(n, State(s.word - 1, 0, s.pcs[t := Idle]))
    {
      hide Reachable, Run, Inv;
      UndisturbedRelease(n, s, t);
      StepReachable(n, s, Solo(t, TryRead, 3));
      ReachableInv(n, s);
      WordInRange(s);
      Decremented(lockInfo);
      WriterIdIsExact(n, s, t);
      lockInfo := (lockInfo + 0xFFFF_FFFF) % 0x1_0000_0000;
    }
  }

  // ----- the bound on the readers

  /** As many threads as there are can hold the read lock at once, up to 0x10000 of them. */
  lemma {:induction false} AllRead(n: nat, k: nat) returns (s: State)
    requires k <= n && k <= 0x1_0000
    ensures Reachable(n, s) && s.word == k && s.writerId == 0
    ensures forall t | 0 <= t < n :: s.pcs[t] == if t < k then Reading else Idle
  {
    hide Step;
    if k == 0 {
      s := Init(n);
      assert Run(Intended, Init(n), []) == s;
    } else {
      var before := AllRead(n, k - 1);
      UndisturbedReadIff(n, before, k - 1);
      StepReachable(n, before, Solo(k - 1, TryRead, 5));
      s := Run(Intended, before, Solo(k - 1, TryRead, 5));
    }
  }

  /**
   The bound is exact: the writer bit means a writer on every run if and only if there are at most
   65535 threads. The 65536th reader carries into it.
   */
  lemma WriterBitMeansWriterIff(n: nat)
    ensures n <= 0xFFFF <==>
      forall s | Reachable(n, s) :: FWriting(s.word) != 0 ==> exists t :: 0 <= t < n && s.pcs[t].HoldsWrite()
  {
    hide Reachable, WriterBit;
    if n <= 0xFFFF {
      forall s | Reachable(n, s)
        ensures FWriting(s.word) != 0 ==> exists t :: 0 <= t < n && s.pcs[t].HoldsWrite()
      {
        WriterBitMeansWriter(n, s);
      }
    } else {
      var s := AllRead(n, 0x1_0000);
      assert Reachable(n, s) && FWriting(s.word) == 1;
      ReachableInv(n, s);
    }
  }

  /** The assertion after UnlockRead's decrement fails when a writer is quick. */
  lemma LastAssertionCanFail() returns (s: State)
    ensures Reachable(2, s) && s.pcs[0] == ReadDone && !AssertHolds(s, 0)
  {
    hide Reachable, Step, Inv;
    var s1 := AllRead(2, 1);
    StepReachable(2, s1, Solo(0, TryRead, 2));
    var s2 := Run(Intended, s1, Solo(0, TryRead, 2));
    SoloStep(Intended, s1, 0, TryRead, 2);
    SoloStep(Intended, Step(Intended, s1, 0, TryRead), 0, TryRead, 1);
    EmptyRun(Intended, Step(Intended, Step(Intended, s1, 0, TryRead), 0, TryRead), 0, TryRead);
    assert s1.pcs == [Reading, Idle];
    DropsTo(s1);
    UndisturbedWriteIff(2, s2, 1);
    StepReachable(2, s2, Solo(1, TryWrite, 4));
    s := Run(Intended, s2, Solo(1, TryWrite, 4));
  }

  lemma DropsTo(s: State)
    requires |s.pcs| == 2 && s.pcs == [Reading, Idle] && s.word == 1 && s.writerId == 0
    ensures Step(Intended, Step(Intended, s, 0, TryRead), 0, TryRead) == State(0, 0, [ReadDone, Idle])
  {
  }

  // ----- the call as it is written

  ghost predicate NobodyIn(s: State) {
    && s.word == 0 && s.writerId == 0
    && forall t | 0 <= t < |s.pcs| ::
      s.pcs[t] in {Idle, WriteTest, WriteSwap, ReadTest, ReadLoad, ReadSwap(0)}
  }

  /** With the arguments in the order they are passed, no run ever acquires the lock or changes the word. */
  lemma {:induction false} LiteralNeverAcquires(s: State, schedule: Schedule)
    requires NobodyIn(s) && For(schedule, |s.pcs|)
    ensures NobodyIn(Run(Literal, s, schedule))
    decreases schedule
  {
    hide And;
    if schedule != [] {
      assert NobodyIn(Step(Literal, s, schedule[0].0, schedule[0].1)) by {
        WordBits(0);
      }
      LiteralNeverAcquires(Step(Literal, s, schedule[0].0, schedule[0].1), schedule[1..]);
    }
  }

  lemma LiteralLockIsDead(n: nat, schedule: Schedule)
    requires For(schedule, n)
    ensures var s := Run(Literal, Init(n), schedule);
      s.word == 0 && forall t | 0 <= t < n :: !s.pcs[t].HoldsWrite() && !s.pcs[t].HoldsRead()
  {
    hide Step, Run;
    assert NobodyIn(Init(n));
    LiteralNeverAcquires(Init(n), schedule);
  }
}
