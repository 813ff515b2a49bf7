/**
 `LambdaHookBase::Install`: hooks and the MinHook library they share.

 Each MinHook call is one step of one hook; the mutex of a hook keeps its own attempts apart, and
 attempts of different hooks interleave in any order. A MinHook call fails when its precondition
 fails (an address is created twice, or is missing) or for a reason of its own, which the schedule
 chooses. So does the schedule choose which modules are loaded when.
 */
module Hooks {
  import opened AddressString

  datatype Mode = OffsetString | AbsoluteAddress | ProcAddress

  datatype Config = Config(mode: Mode, addrString: string, moduleName: string, procName: string, absoluteAddress: nat)
  {
    /** What SetOffsetAddress establishes. */
    ghost predicate Valid() {
      mode.OffsetString? ==> IsModuleName(addrString, moduleName)
    }
  }

  /** The loaded modules and their exported procedures. */
  datatype Host = Host(modules: map<string, nat>, procs: map<(string, string), nat>)

  /** The target module is named and loaded, or none is needed. */
  predicate ModuleReady(c: Config, host: Host) {
    c.mode.AbsoluteAddress? || (c.moduleName != "" && Handle(host.modules, c.moduleName) != 0)
  }

  /** Once it comes to parsing the address, its text has the stop that the parser's scan needs. */
  predicate Parseable(c: Config, host: Host) {
    c.mode.OffsetString? && ModuleReady(c, host) ==> HasStop(c.addrString)
  }

  /** The address, 0 if there is none, or the exception that escapes the conversion. */
  function Resolve(c: Config, host: Host): Parsed
    requires c.mode.OffsetString? ==> HasStop(c.addrString)
  {
    match c.mode
    case OffsetString => Parse(c.addrString, host.modules)
    case AbsoluteAddress => Address(c.absoluteAddress)
    case ProcAddress => Address(
      if Handle(host.modules, c.moduleName) != 0 && (c.moduleName, c.procName) in host.procs
      then host.procs[(c.moduleName, c.procName)] else 0)
  }

  /** Where an attempt would install the hook: 0 if it would not get as far as MinHook. */
  function Target(c: Config, host: Host): nat
    requires Parseable(c, host)
  {
    if ModuleReady(c, host) && Resolve(c, host).Address? then Resolve(c, host).address else 0
  }

  /** The number conversion throws, and the exception leaves Install. */
  predicate Raises(c: Config, host: Host)
    requires Parseable(c, host)
  {
    ModuleReady(c, host) && !Resolve(c, host).Address?
  }

  /** The module that the address names is the one that was found loaded. */
  lemma ParsesWhatIsLoaded(c: Config, host: Host)
    requires c.Valid() && c.mode.OffsetString? && ModuleReady(c, host) && HasStop(c.addrString)
    ensures c.moduleName == c.addrString[..NameEnd(c.addrString, 1)]
    ensures var e := NameEnd(c.addrString, 1);
      Resolve(c, host) == OffsetAt(c.addrString, Handle(host.modules, c.moduleName), OffsetBegin(c.addrString, e + 1))
  {
    hide OffsetAt, Stops;
    NamesAgreeIff(c.addrString, c.moduleName);
  }

  /** The module is named and loaded. */
  predicate Loaded(host: Host, m: string) {
    m != "" && m in host.modules && host.modules[m] != 0
  }

  /** Where each mode installs, whatever the code that finds it. */
  lemma Addresses(c: Config, host: Host)
    requires Parseable(c, host)
    ensures c.mode.AbsoluteAddress? ==> !Raises(c, host) && Target(c, host) == c.absoluteAddress
    ensures !c.mode.AbsoluteAddress? && !Loaded(host, c.moduleName) ==> !Raises(c, host) && Target(c, host) == 0
    ensures c.mode.ProcAddress? && Loaded(host, c.moduleName) ==>
      && !Raises(c, host)
      && Target(c, host) ==
        if (c.moduleName, c.procName) in host.procs then host.procs[(c.moduleName, c.procName)] else 0
    ensures c.mode.OffsetString? && c.Valid() && Loaded(host, c.moduleName) ==>
      forall sp: Spelling | sp.Valid() && sp.Text() == c.addrString ::
        && (Raises(c, host) <==> !(-0x8000_0000 <= sp.Offset() <= 0x7FFF_FFFF))
        && (!Raises(c, host) ==>
          Target(c, host) == (host.modules[c.moduleName] + sp.Offset()) % 0x1_0000_0000_0000_0000)
  {
    hide Parse, HasStop, IsModuleName, Spelling.Text, Spelling.Valid, Spelling.Offset;
    if c.mode.OffsetString? && c.Valid() && Loaded(host, c.moduleName) {
      forall sp: Spelling | sp.Valid() && sp.Text() == c.addrString
        ensures Parse(sp.Text(), host.modules) ==
          if -0x8000_0000 <= sp.Offset() <= 0x7FFF_FFFF
          then AddressString.Address((host.modules[c.moduleName] + sp.Offset()) % 0x1_0000_0000_0000_0000)
          else AddressString.OutOfRange
      {
        OneName(sp, c.moduleName);
        ParseOfSpelling(sp, host.modules);
      }
    }
  }

  // ----- the state machine

  /** Where the attempt to install a hook stands. */
  datatype Phase =
    | Off                     // not enabled, no attempt under way
    | Resolved(address: nat)  // MH_CreateHook is next
    | Made(address: nat)      // MH_EnableHook is next
    | Undoing(address: nat)   // MH_RemoveHook is next
    | On(address: nat)        // m_enabled
  {
    predicate Owns() {
      Made? || Undoing? || On?
    }
  }

  /**
   mh maps each address that MinHook knows to whether it is enabled. leaked remembers the
   addresses whose removal failed.
   */
  datatype World = World(mh: map<nat, bool>, phases: seq<Phase>, leaked: set<nat>)

  /** Hook i moves: address is what its address resolved to, ok is whether MinHook has no failure of its own. */
  datatype Event = Event(i: nat, address: nat, ok: bool)

  function CreateHook(mh: map<nat, bool>, a: nat, ok: bool): (map<nat, bool>, bool) {
    if a in mh || !ok then (mh, false) else (mh[a := false], true)
  }

  function EnableHook(mh: map<nat, bool>, a: nat, ok: bool): (map<nat, bool>, bool) {
    if a !in mh || mh[a] || !ok then (mh, false) else (mh[a := true], true)
  }

  function RemoveHook(mh: map<nat, bool>, a: nat, ok: bool): (map<nat, bool>, bool) {
    if a !in mh || !ok then (mh, false) else (mh - {a}, true)
  }

  function Step(w: World, e: Event): (w': World)
    requires e.i < |w.phases|
    ensures |w'.phases| == |w.phases|
  {
    match w.phases[e.i]
    case Off => w.(phases := w.phases[e.i := if e.address == 0 then Off else Resolved(e.address)])
    case Resolved(a) =>
      var (mh, done) := CreateHook(w.mh, a, e.ok);
      w.(mh := mh, phases := w.phases[e.i := if done then Made(a) else Off])
    case Made(a) =>
      var (mh, done) := EnableHook(w.mh, a, e.ok);
      w.(mh := mh, phases := w.phases[e.i := if done then On(a) else Undoing(a)])
    case Undoing(a) =>
      var (mh, done) := RemoveHook(w.mh, a, e.ok);
      w.(mh := mh, phases := w.phases[e.i := Off], leaked := if done then w.leaked else w.leaked + {a})
    case On(_) => w
  }

  function Init(n: nat): (w: World)
    ensures |w.phases| == n
  {
    World(map[], seq(n, _ => Off), {})
  }

  predicate For(events: seq<Event>, n: nat) {
    forall k | 0 <= k < |events| :: events[k].i < n
  }

  function Run(w: World, events: seq<Event>): (w': World)
    requires For(events, |w.phases|)
    ensures |w'.phases| == |w.phases|
    decreases events
  {
    if events == [] then w else Run(Step(w, events[0]), events[1..])
  }

  // ----- the invariant

  /** Every address that MinHook knows has one owner, or has leaked. */
  ghost predicate Inv(w: World) {
    && (forall i | 0 <= i < |w.phases| && w.phases[i].Owns() ::
      && w.phases[i].address in w.mh && w.phases[i].address !in w.leaked
      && w.mh[w.phases[i].address] == w.phases[i].On?)
    && (forall i, j | 0 <= i < j < |w.phases| && w.phases[i].Owns() && w.phases[j].Owns() ::
      w.phases[i].address != w.phases[j].address)
    && (forall a | a in w.leaked :: a in w.mh && !w.mh[a])
    && (forall a | a in w.mh && a !in w.leaked :: Owned(w.phases, a))
  }

  ghost predicate Owned(phases: seq<Phase>, a: nat) {
    exists i :: 0 <= i < |phases| && phases[i].Owns() && phases[i].address == a
  }

  /** Moving a hook changes ownership of its own addresses only. */
  lemma OwnedAfter(phases: seq<Phase>, i: nat, p: Phase, a: nat)
    requires i < |phases|
    ensures Owned(phases, a) && !(phases[i].Owns() && phases[i].address == a) ==> Owned(phases[i := p], a)
    ensures p.Owns() && p.address == a ==> Owned(phases[i := p], a)
  {
    var phases' := phases[i := p];
    if Owned(phases, a) && !(phases[i].Owns() && phases[i].address == a) {
      var k :| 0 <= k < |phases| && phases[k].Owns() && phases[k].address == a;
      assert phases'[k] == phases[k];
    }
    assert phases'[i] == p;
  }

  lemma StepKeepsInv(w: World, e: Event)
    requires Inv(w) && e.i < |w.phases|
    ensures Inv(Step(w, e))
  {
    var w' := Step(w, e);
    forall a | a in w'.mh && a !in w'.leaked
      ensures Owned(w'.phases, a)
    {
      OwnedAfter(w.phases, e.i, w'.phases[e.i], a);
    }
  }

  lemma {:induction false} RunKeepsInv(w: World, events: seq<Event>)
    requires Inv(w) && For(events, |w.phases|)
    ensures Inv(Run(w, events))
    decreases events
  {
    hide Inv, Step;
    if events != [] {
      StepKeepsInv(w, events[0]);
      RunKeepsInv(Step(w, events[0]), events[1..]);
    }
  }

  lemma RunInv(n: nat, events: seq<Event>)
    requires For(events, n)
    ensures Inv(Run(Init(n), events))
  {
    hide Run;
    RunKeepsInv(Init(n), events);
  }

  // ----- what every run keeps

  /** Every enabled hook is created and enabled in MinHook, and no two share an address. */
  lemma EnabledIsLive(n: nat, events: seq<Event>, i: nat, j: nat)
    requires For(events, n) && i < n && j < n
    ensures var w := Run(Init(n), events);
      && (w.phases[i].On? ==> w.phases[i].address in w.mh && w.mh[w.phases[i].address])
      && (i != j && w.phases[i].On? && w.phases[j].On? ==> w.phases[i].address != w.phases[j].address)
  {
    hide Run;
    RunInv(n, events);
  }

  /** Between attempts MinHook knows the enabled hooks and the leaked addresses, and nothing else. */
  lemma NothingLeftBehind(n: nat, events: seq<Event>)
    requires For(events, n)
    requires forall i | 0 <= i < n :: Run(Init(n), events).phases[i].Off? || Run(Init(n), events).phases[i].On?
    ensures var w := Run(Init(n), events);
      forall a ::
        && (a in w.mh <==> a in w.leaked || exists i :: 0 <= i < n && w.phases[i] == On(a))
        && (a in w.mh && w.mh[a] <==> exists i :: 0 <= i < n && w.phases[i] == On(a))
  {
    hide Run;
    RunInv(n, events);
    var w := Run(Init(n), events);
    forall a | a in w.mh && a !in w.leaked
      ensures exists i :: 0 <= i < n && w.phases[i] == On(a)
    {
      var i :| 0 <= i < n && w.phases[i].Owns() && w.phases[i].address == a;
      assert w.phases[i] == On(a);
    }
  }

  /** Event k of the run is MinHook's refusal to remove a. */
  ghost predicate RemovalFails(w: World, events: seq<Event>, k: nat, a: nat)
    requires For(events, |w.phases|) && k < |events|
  {
    Run(w, events[..k]).phases[events[k].i] == Undoing(a) && !events[k].ok
  }

  lemma StepLeaks(w: World, e: Event, a: nat)
    requires Inv(w) && e.i < |w.phases|
    ensures a in Step(w, e).leaked <==> a in w.leaked || (w.phases[e.i] == Undoing(a) && !e.ok)
  {
  }

  /** An address has leaked exactly if MinHook refused to remove it somewhere in the run. */
  lemma {:induction false} LeakedIff(w: World, events: seq<Event>, a: nat)
    requires Inv(w) && For(events, |w.phases|)
    ensures a in Run(w, events).leaked <==>
      a in w.leaked || exists k :: 0 <= k < |events| && RemovalFails(w, events, k, a)
    decreases |events|
  {
    hide Inv, Step, RemovalFails;
    if events != [] {
      var n := |events| - 1;
      var front, e := events[..n], events[n];
      LeakedIff(w, front, a);
      RunKeepsInv(w, front);
      StepLeaks(Run(w, front), e, a);
      RunOneMore(w, front, e);
      assert front + [e] == events;
      RemovalsInFront(w, events, a);
    }
  }

  lemma RunOneMore(w: World, front: seq<Event>, e: Event)
    requires For(front, |w.phases|) && e.i < |w.phases|
    ensures Run(w, front + [e]) == Step(Run(w, front), e)
  {
    hide Step;
    RunAppend(w, front, [e]);
    assert Run(Run(w, front), [e]) == Run(Step(Run(w, front), e), []);
  }

  lemma RemovalsInFront(w: World, events: seq<Event>, a: nat)
    requires For(events, |w.phases|) && events != []
    ensures var n := |events| - 1;
      (exists k :: 0 <= k < |events| && RemovalFails(w, events, k, a)) <==>
      (exists k :: 0 <= k < n && RemovalFails(w, events[..n], k, a))
      || (Run(w, events[..n]).phases[events[n].i] == Undoing(a) && !events[n].ok)
  {
    hide Run;
    var n := |events| - 1;
    forall k | 0 <= k < n
      ensures RemovalFails(w, events, k, a) <==> RemovalFails(w, events[..n], k, a)
    {
      assert events[..n][..k] == events[..k];
    }
    assert RemovalFails(w, events, n, a) <==> Run(w, events[..n]).phases[events[n].i] == Undoing(a) && !events[n].ok;
  }

  /** A step of a hook that is on, or that cannot resolve its address, changes nothing. */
  lemma IdleSteps(w: World, e: Event)
    requires e.i < |w.phases| && (w.phases[e.i].On? || (w.phases[e.i].Off? && e.address == 0))
    ensures Step(w, e) == w
  {
    assert w.phases[e.i := w.phases[e.i]] == w.phases;
  }

  /** Once on, a hook stays on at its address and its address is never removed or created again. */
  lemma {:induction false} OnForever(w: World, events: seq<Event>, i: nat)
    requires Inv(w) && For(events, |w.phases|) && i < |w.phases| && w.phases[i].On?
    ensures var w' := Run(w, events); var a := w.phases[i].address;
      w'.phases[i] == w.phases[i] && a in w'.mh && w'.mh[a] && a !in w'.leaked
    decreases events
  {
    hide Inv, Step;
    if events != [] {
      StepKeepsInv(w, events[0]);
      OnIsKept(w, events[0], i);
      OnForever(Step(w, events[0]), events[1..], i);
    } else {
      OnIsOn(w, i);
    }
  }

  lemma OnIsKept(w: World, e: Event, i: nat)
    requires Inv(w) && e.i < |w.phases| && i < |w.phases| && w.phases[i].On?
    ensures Step(w, e).phases[i] == w.phases[i]
  {
    hide Inv;
  }

  lemma OnIsOn(w: World, i: nat)
    requires Inv(w) && i < |w.phases| && w.phases[i].On?
    ensures var a := w.phases[i].address; a in w.mh && w.mh[a] && a !in w.leaked
  {
  }

  /** A leaked address is lost: no hook will ever be on there. */
  lemma {:induction false} LeakIsForever(w: World, events: seq<Event>, a: nat)
    requires Inv(w) && For(events, |w.phases|) && a in w.leaked
    ensures var w' := Run(w, events);
      a in w'.leaked && forall i | 0 <= i < |w'.phases| :: w'.phases[i] != On(a)
    decreases events
  {
    hide Inv, Step;
    if events != [] {
      StepKeepsInv(w, events[0]);
      LeakIsKept(w, events[0]);
      LeakIsForever(Step(w, events[0]), events[1..], a);
    } else {
      forall i | 0 <= i < |w.phases| && w.phases[i].On?
        ensures w.phases[i] != On(a)
      {
        OnIsOn(w, i);
      }
    }
  }

  lemma LeakIsKept(w: World, e: Event)
    requires e.i < |w.phases|
    ensures w.leaked <= Step(w, e).leaked
  {
  }

  // ----- one undisturbed attempt

  /** Whether each MinHook call of an attempt is spared a failure of its own. */
  datatype Luck = Luck(create: bool, enable: bool, remove: bool)

  /** All steps of one attempt of hook i, one after the other. */
  function Attempt(i: nat, address: nat, luck: Luck): (events: seq<Event>)
    ensures For(events, i + 1)
  {
    [Event(i, address, true), Event(i, 0, luck.create), Event(i, 0, luck.enable), Event(i, 0, luck.remove)]
  }

  /** An attempt at a with this luck enables its hook. */
  predicate Succeeds(a: nat, mh: map<nat, bool>, luck: Luck) {
    a != 0 && a !in mh && luck.create && luck.enable
  }

  /** An attempt that stops before it reaches MinHook, or of a hook that is on, changes nothing. */
  lemma NoAttempt(w: World, i: nat, a: nat, luck: Luck)
    requires i < |w.phases| && (w.phases[i].On? || (w.phases[i].Off? && a == 0))
    ensures Run(w, Attempt(i, a, luck)) == w
  {
    hide Step, Run;
    var events := Attempt(i, a, luck);
    FourSteps(w, events);
    IdleSteps(w, events[0]);
    IdleSteps(w, events[1]);
    IdleSteps(w, events[2]);
    IdleSteps(w, events[3]);
  }

  /** How an attempt ends. The attempt succeeds exactly when nothing fails and the address is free. */
  lemma AttemptOutcome(w: World, i: nat, a: nat, luck: Luck)
    requires Inv(w) && i < |w.phases| && w.phases[i].Off? && a != 0
    ensures Run(w, Attempt(i, a, luck)) ==
      if a in w.mh || !luck.create then w
      else if luck.enable then w.(mh := w.mh[a := true], phases := w.phases[i := On(a)])
      else if luck.remove then w
      else w.(mh := w.mh[a := false], leaked := w.leaked + {a})
  {
    hide Inv, Step, Run;
    var events := Attempt(i, a, luck);
    FourSteps(w, events);
    if a in w.mh || !luck.create {
      RefusedAttempt(w, i, a, luck);
    } else {
      MadeAttempt(w, i, a, luck);
    }
  }

  lemma UpdateTwice<T>(s: seq<T>, i: nat, x: T, y: T)
    requires i < |s|
    ensures s[i := x][i := y] == s[i := y]
    ensures s[i := s[i]] == s
  {
  }

  /** An attempt that MinHook refuses to begin. */
  lemma RefusedAttempt(w: World, i: nat, a: nat, luck: Luck)
    requires i < |w.phases| && w.phases[i].Off? && a != 0 && (a in w.mh || !luck.create)
    ensures var es := Attempt(i, a, luck); Step(Step(Step(Step(w, es[0]), es[1]), es[2]), es[3]) == w
  {
    var es := Attempt(i, a, luck);
    UpdateTwice(w.phases, i, Resolved(a), Off);
    assert Step(Step(w, es[0]), es[1]) == w;
    hide Step;
    IdleSteps(w, es[2]);
    IdleSteps(w, es[3]);
  }

  lemma MadeAttempt(w: World, i: nat, a: nat, luck: Luck)
    requires i < |w.phases| && w.phases[i].Off? && a != 0 && a !in w.mh && luck.create
    ensures var es := Attempt(i, a, luck);
      Step(Step(Step(Step(w, es[0]), es[1]), es[2]), es[3]) == (
        if luck.enable then w.(mh := w.mh[a := true], phases := w.phases[i := On(a)])
        else if luck.remove then w
        else w.(mh := w.mh[a := false], leaked := w.leaked + {a}))
  {
    var es := Attempt(i, a, luck);
    var w2 := w.(mh := w.mh[a := false], phases := w.phases[i := Made(a)]);
    UpdateTwice(w.phases, i, Resolved(a), Made(a));
    assert Step(Step(w, es[0]), es[1]) == w2;
    if luck.enable {
      var w3 := w.(mh := w.mh[a := true], phases := w.phases[i := On(a)]);
      UpdateTwice(w.phases, i, Made(a), On(a));
      assert w.mh[a := false][a := true] == w.mh[a := true];
      assert Step(w2, es[2]) == w3;
      IdleSteps(w3, es[3]);
    } else {
      var w3 := w2.(phases := w.phases[i := Undoing(a)]);
      UpdateTwice(w.phases, i, Made(a), Undoing(a));
      assert Step(w2, es[2]) == w3;
      UpdateTwice(w.phases, i, Undoing(a), Off);
      assert w.mh[a := false] - {a} == w.mh;
    }
  }

  lemma FourSteps(w: World, events: seq<Event>)
    requires |events| == 4 && For(events, |w.phases|)
    ensures Run(w, events) == Step(Step(Step(Step(w, events[0]), events[1]), events[2]), events[3])
  {
    hide Step;
    var w1 := Step(w, events[0]);
    var w2 := Step(w1, events[1]);
    var w3 := Step(w2, events[2]);
    assert Run(w, events) == Run(w1, events[1..]);
    assert events[1..][1..] == events[2..] && events[2..][1..] == events[3..] && events[3..][1..] == [];
    assert Run(w1, events[1..]) == Run(w2, events[2..]);
    assert Run(w2, events[2..]) == Run(w3, events[3..]);
    assert Run(w3, events[3..]) == Run(Step(w3, events[3]), []);
  }

  lemma {:induction false} RunAppend(w: World, a: seq<Event>, b: seq<Event>)
    requires For(a, |w.phases|) && For(b, |w.phases|)
    ensures Run(w, a + b) == Run(Run(w, a), b)
    decreases a
  {
    hide Step;
    if a == [] {
      assert a + b == b;
    } else {
      assert (a + b)[1..] == a[1..] + b;
      RunAppend(Step(w, a[0]), a[1..], b);
    }
  }

  // ----- series of attempts

  /** An undisturbed attempt of hook i at an address. */
  datatype Job = Job(i: nat, address: nat, luck: Luck)

  /** The events of the jobs, one job after the other. */
  function Attempts(jobs: seq<Job>): seq<Event> {
    if jobs == [] then [] else
      var k := |jobs| - 1;
      Attempts(jobs[..k]) + Attempt(jobs[k].i, jobs[k].address, jobs[k].luck)
  }

  predicate JobsFor(jobs: seq<Job>, n: nat) {
    forall k | 0 <= k < |jobs| :: jobs[k].i < n
  }

  function RunJobs(w: World, jobs: seq<Job>): (w': World)
    requires JobsFor(jobs, |w.phases|)
    ensures |w'.phases| == |w.phases|
  {
    if jobs == [] then w else
      var k := |jobs| - 1;
      Run(RunJobs(w, jobs[..k]), Attempt(jobs[k].i, jobs[k].address, jobs[k].luck))
  }

  /** A series of jobs is a run, so it keeps what every run keeps. */
  lemma {:induction false} JobsAreARun(w: World, jobs: seq<Job>)
    requires JobsFor(jobs, |w.phases|)
    ensures For(Attempts(jobs), |w.phases|) && RunJobs(w, jobs) == Run(w, Attempts(jobs))
  {
    hide Run, Attempt;
    if jobs == [] {
      EmptyRun(w);
    } else {
      var k := |jobs| - 1;
      JobsAreARun(w, jobs[..k]);
      RunAppend(w, Attempts(jobs[..k]), Attempt(jobs[k].i, jobs[k].address, jobs[k].luck));
    }
  }

  lemma EmptyRun(w: World)
    ensures Run(w, []) == w
  {
  }

  /** No attempt is under way. */
  predicate Resting(w: World) {
    forall i | 0 <= i < |w.phases| :: w.phases[i].Off? || w.phases[i].On?
  }

  /** What one job does to each hook and to the addresses that MinHook knows. */
  lemma JobOutcome(w: World, job: Job)
    requires Inv(w) && Resting(w) && job.i < |w.phases|
    ensures var w' := Run(w, Attempt(job.i, job.address, job.luck));
      && Inv(w') && Resting(w')
      && (forall j | 0 <= j < |w.phases| && j != job.i :: w'.phases[j] == w.phases[j])
      && (w'.phases[job.i].On? <==> w.phases[job.i].On? || Succeeds(job.address, w.mh, job.luck))
      && (forall a :: a in w.mh ==> a in w'.mh)
      && (forall a :: a in w'.mh ==> a in w.mh || a == job.address)
  {
    hide Run, Inv;
    RunKeepsInv(w, Attempt(job.i, job.address, job.luck));
    if w.phases[job.i].On? || job.address == 0 {
      NoAttempt(w, job.i, job.address, job.luck);
    } else {
      AttemptOutcome(w, job.i, job.address, job.luck);
    }
  }

  /** No two jobs are the same hook's. */
  predicate OneEach(jobs: seq<Job>) {
    forall j, k | 0 <= j < k < |jobs| :: jobs[j].i != jobs[k].i
  }

  /** Jobs leave other hooks alone, switch none off, and MinHook learns no address but theirs. */
  lemma {:induction false} JobsKeep(w: World, jobs: seq<Job>)
    requires Inv(w) && Resting(w) && JobsFor(jobs, |w.phases|)
    ensures var w' := RunJobs(w, jobs);
      && Inv(w') && Resting(w')
      && (forall j | 0 <= j < |w.phases| && forall k | 0 <= k < |jobs| :: jobs[k].i != j :: w'.phases[j] == w.phases[j])
      && (forall j | 0 <= j < |w.phases| && w.phases[j].On? :: w'.phases[j].On?)
      && (forall a :: a in w.mh ==> a in w'.mh)
      && (forall a | a in w'.mh && a !in w.mh :: exists k :: 0 <= k < |jobs| && jobs[k].address == a)
  {
    hide Run, Inv, Attempt, Succeeds;
    if jobs != [] {
      var n := |jobs| - 1;
      var front := jobs[..n];
      JobsKeep(w, front);
      var v := RunJobs(w, front);
      JobOutcome(v, jobs[n]);
      forall j | 0 <= j < |w.phases| && forall k | 0 <= k < |jobs| :: jobs[k].i != j
        ensures RunJobs(w, jobs).phases[j] == w.phases[j]
      {
        assert jobs[n].i != j;
        assert forall k | 0 <= k < n :: front[k].i != j;
      }
      forall a | a in RunJobs(w, jobs).mh && a !in w.mh
        ensures exists k :: 0 <= k < |jobs| && jobs[k].address == a
      {
        if a in v.mh {
          var k :| 0 <= k < |front| && front[k].address == a;
          assert jobs[k].address == a;
        } else {
          assert jobs[n].address == a;
        }
      }
    }
  }

  /** A hook is on after the jobs exactly if it was on, or its job met a free address with luck. */
  lemma {:induction false} EachJobsOutcome(w: World, jobs: seq<Job>, k: nat)
    requires Inv(w) && Resting(w) && JobsFor(jobs, |w.phases|) && OneEach(jobs) && k < |jobs|
    ensures RunJobs(w, jobs).phases[jobs[k].i].On? <==>
      w.phases[jobs[k].i].On? || Succeeds(jobs[k].address, RunJobs(w, jobs[..k]).mh, jobs[k].luck)
    decreases |jobs|
  {
    hide Run, Inv, Attempt, Succeeds;
    var n := |jobs| - 1;
    var front := jobs[..n];
    JobsKeep(w, front);
    JobOutcome(RunJobs(w, front), jobs[n]);
    if k < n {
      assert front[..k] == jobs[..k] && front[k] == jobs[k];
      EachJobsOutcome(w, front, k);
      assert jobs[k].i != jobs[n].i;
    } else {
      assert forall j | 0 <= j < n :: front[j].i != jobs[n].i;
    }
  }

  /** An address that is free at the start, and that no earlier job is for, is free when its turn comes. */
  lemma StillFree(w: World, jobs: seq<Job>, k: nat)
    requires Inv(w) && Resting(w) && JobsFor(jobs, |w.phases|) && k < |jobs|
    ensures jobs[k].address in w.mh ==> jobs[k].address in RunJobs(w, jobs[..k]).mh
    ensures jobs[k].address !in w.mh && (forall j | 0 <= j < k :: jobs[j].address != jobs[k].address) ==>
      jobs[k].address !in RunJobs(w, jobs[..k]).mh
  {
    hide Run, Inv, Attempt, RunJobs;
    JobsKeep(w, jobs[..k]);
  }

  // ----- the objects

  class MinHook {
    var mh: map<nat, bool>

    method MH_CreateHook(a: nat, ok: bool) returns (done: bool)
      modifies this
      ensures (mh, done) == CreateHook(old(mh), a, ok)
    {
      done := a !in mh && ok;
      if done {
        mh := mh[a := false];
      }
    }

    method MH_EnableHook(a: nat, ok: bool) returns (done: bool)
      modifies this
      ensures (mh, done) == EnableHook(old(mh), a, ok)
    {
      done := a in mh && !mh[a] && ok;
      if done {
        mh := mh[a := true];
      }
    }

    method MH_RemoveHook(a: nat, ok: bool) returns (done: bool)
      modifies this
      ensures (mh, done) == RemoveHook(old(mh), a, ok)
    {
      done := a in mh && ok;
      if done {
        mh := mh - {a};
      }
    }
  }

  datatype Outcome = Returns(installed: bool) | Throws

  /** What an installation changed and returned. */
  datatype Ending = Ending(outcome: Outcome, enabled: bool, mh: map<nat, bool>)

  /**
   How an undisturbed installation at address a ends: MinHook comes to know a as enabled exactly if
   the hook was off, a is free and nothing fails, and otherwise knows what it knew unless the
   removal failed.
   */
  function Installed(a: nat, was: bool, mh: map<nat, bool>, luck: Luck): Ending {
    if was then Ending(Returns(true), true, mh)
    else if a == 0 || a in mh || !luck.create then Ending(Returns(false), false, mh)
    else if luck.enable then Ending(Returns(true), true, mh[a := true])
    else Ending(Returns(false), false, if luck.remove then mh else mh[a := false])
  }

  /** An installation that a conversion's exception leaves. */
  function Thrown(was: bool, mh: map<nat, bool>): Ending {
    Ending(if was then Returns(true) else Throws, was, mh)
  }

  /** What each address mode promises. */
  ghost predicate ByMode(c: Config, host: Host, was: bool, mh: map<nat, bool>, luck: Luck, ending: Ending) {
    && (c.mode.AbsoluteAddress? ==> ending == Installed(c.absoluteAddress, was, mh, luck))
    && (!c.mode.AbsoluteAddress? && !Loaded(host, c.moduleName) ==> ending == Installed(0, was, mh, luck))
    && (c.mode.ProcAddress? && Loaded(host, c.moduleName) ==>
      var a := if (c.moduleName, c.procName) in host.procs then host.procs[(c.moduleName, c.procName)] else 0;
      ending == Installed(a, was, mh, luck))
    && (c.mode.OffsetString? && c.Valid() && Loaded(host, c.moduleName) ==>
      forall sp: Spelling | sp.Valid() && sp.Text() == c.addrString ::
        if -0x8000_0000 <= sp.Offset() <= 0x7FFF_FFFF then
          var a := (host.modules[c.moduleName] + sp.Offset()) % 0x1_0000_0000_0000_0000;
          ending == Installed(a, was, mh, luck)
        else ending == Thrown(was, mh))
  }

  lemma TargetByMode(c: Config, host: Host, was: bool, mh: map<nat, bool>, luck: Luck)
    requires Parseable(c, host)
    ensures ByMode(c, host, was, mh, luck,
      if Raises(c, host) then Thrown(was, mh) else Installed(Target(c, host), was, mh, luck))
  {
    hide Target, Raises, Spelling.Text, Spelling.Valid, Spelling.Offset, IsModuleName, Installed, Thrown;
    Addresses(c, host);
  }

  class LambdaHook {
    const debugName: string
    const config: Config
    var enabled: bool       // m_enabled

    constructor (debugName: string, config: Config)
      ensures this.debugName == debugName && this.config == config && !enabled
    {
      this.debugName := debugName;
      this.config := config;
      enabled := false;
    }

    /** The object is hook i of the world w. */
    ghost predicate Shows(minHook: MinHook, w: World, i: nat)
      reads this, minHook
    {
      && i < |w.phases| && minHook.mh == w.mh
      && if enabled then w.phases[i].On? else w.phases[i].Off?
    }

    method ResolveAddress(host: Host) returns (r: Parsed)
      requires config.mode.OffsetString? ==> HasStop(config.addrString)
      ensures r == Resolve(config, host)
    {
      hide Parse;
      match config.mode {
        case OffsetString => r := ParseDLLOffsetString(config.addrString, host.modules);
        case AbsoluteAddress => r := Address(config.absoluteAddress);
        case ProcAddress =>
          if Handle(host.modules, config.moduleName) != 0 && (config.moduleName, config.procName) in host.procs {
            r := Address(host.procs[(config.moduleName, config.procName)]);
          } else {
            r := Address(0);
          }
      }
    }

    /** Installs hook i of the world w, undisturbed. */
    method Install(minHook: MinHook, host: Host, luck: Luck, ghost w: World, ghost i: nat) returns (outcome: Outcome)
      requires Parseable(config, host) && Shows(minHook, w, i) && Inv(w)
      modifies this`enabled, minHook
      ensures Shows(minHook, Run(w, Attempt(i, Target(config, host), luck)), i)
      ensures outcome ==
        if old(enabled) then Returns(true) else if Raises(config, host) then Throws else Returns(enabled)
      ensures enabled <==> old(enabled) || Succeeds(Target(config, host), old(minHook.mh), luck)
      ensures ByMode(config, host, old(enabled), old(minHook.mh), luck, Ending(outcome, enabled, minHook.mh))
    {
      hide Resolve, Inv, Run, ByMode;
      TargetByMode(config, host, enabled, minHook.mh, luck);
      ghost var address := Target(config, host);
      if w.phases[i].On? || address == 0 {
        NoAttempt(w, i, address, luck);
      } else {
        AttemptOutcome(w, i, address, luck);
      }
      if enabled {
        outcome := Returns(true);
        return;
      }
      if !config.mode.AbsoluteAddress? {
        if config.moduleName == "" {
          outcome := Returns(false);
          return;
        }
        if Handle(host.modules, config.moduleName) == 0 {
          outcome := Returns(false);
          return;
        }
      }
      var resolved := ResolveAddress(host);
      if !resolved.Address? {
        outcome := Throws;
        return;
      }
      if resolved.address == 0 {
        outcome := Returns(false);
        return;
      }
      var created := minHook.MH_CreateHook(resolved.address, luck.create);
      if !created {
        outcome := Returns(false);
        return;
      }
      var live := minHook.MH_EnableHook(resolved.address, luck.enable);
      if !live {
        var removed := minHook.MH_RemoveHook(resolved.address, luck.remove);
        assert w.mh[address := false] - {address} == w.mh;
        outcome := Returns(false);
        return;
      }
      enabled := true;
      outcome := Returns(true);
    }
  }
}
