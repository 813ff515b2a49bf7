/**
 `HookModule`, the list of modules and the per-file modules, and `HookInvocationScope`.
 */
module HookRegistry {
  import opened Hooks

  // ----- one module

  /** The last registration under a name. */
  function Latest(log: seq<LambdaHook>, name: string): (hook: LambdaHook?)
    ensures hook != null ==> hook in log && hook.debugName == name
  {
    if log == [] then null
    else if log[|log| - 1].debugName == name then log[|log| - 1]
    else Latest(log[..|log| - 1], name)
  }

  lemma {:induction false} LatestIsNullIff(log: seq<LambdaHook>, name: string)
    ensures Latest(log, name) == null <==> forall i | 0 <= i < |log| :: log[i].debugName != name
  {
    if log != [] {
      LatestIsNullIff(log[..|log| - 1], name);
    }
  }

  /** The last registration under a name stands at index i. */
  ghost predicate LastAt(log: seq<LambdaHook>, name: string, i: nat) {
    i < |log| && log[i].debugName == name && forall j | i < j < |log| :: log[j].debugName != name
  }

  lemma {:induction false} LatestIs(log: seq<LambdaHook>, name: string, i: nat)
    requires LastAt(log, name, i)
    ensures Latest(log, name) == log[i]
  {
    var n := |log| - 1;
    if i < n {
      LatestIs(log[..n], name, i);
    }
  }

  lemma LatestIsEach(log: seq<LambdaHook>, name: string)
    ensures forall i: nat | LastAt(log, name, i) :: Latest(log, name) == log[i]
    ensures Latest(log, name) == null <==> forall i | 0 <= i < |log| :: log[i].debugName != name
  {
    forall i: nat | LastAt(log, name, i) ensures Latest(log, name) == log[i] {
      LatestIs(log, name, i);
    }
    LatestIsNullIff(log, name);
  }

  /** _stricmp compares letters without case. */
  function Lower(s: string): (t: string)
    ensures |t| == |s|
  {
    seq(|s|, i requires 0 <= i < |s| => if 'A' <= s[i] <= 'Z' then (s[i] as int + 32) as char else s[i])
  }

  /** The same character, or a letter in its two cases. */
  predicate SameLetter(a: char, b: char) {
    || a == b
    || (65 <= a as int <= 90 && b as int == a as int + 32)
    || (65 <= b as int <= 90 && a as int == b as int + 32)
  }

  predicate SameIgnoringCase(s: string, t: string) {
    |s| == |t| && forall i | 0 <= i < |s| :: SameLetter(s[i], t[i])
  }

  lemma LowerIff(s: string, t: string)
    ensures Lower(s) == Lower(t) <==> SameIgnoringCase(s, t)
  {
    hide SameLetter;
    if |s| == |t| {
      forall i | 0 <= i < |s| ensures Lower(s)[i] == Lower(t)[i] <==> SameLetter(s[i], t[i]) {
        LetterIff(s, t, i);
      }
    }
  }

  lemma LetterIff(s: string, t: string, i: nat)
    requires i < |s| == |t|
    ensures Lower(s)[i] == Lower(t)[i] <==> SameLetter(s[i], t[i])
  {
  }

  /** DispatchForModule dispatches this hook. A hook at an absolute address waits for no module. */
  predicate WaitsFor(c: Config, moduleName: string) {
    moduleName != "" && !c.mode.AbsoluteAddress? && Lower(c.moduleName) == Lower(moduleName)
  }

  /** Exactly the hooks found through a module of this name, in any case, wait for it. */
  lemma WaitsForIff(c: Config, moduleName: string)
    ensures WaitsFor(c, moduleName) <==>
      c.mode in {OffsetString, ProcAddress} && moduleName != "" && SameIgnoringCase(c.moduleName, moduleName)
  {
    hide Lower, SameIgnoringCase;
    LowerIff(c.moduleName, moduleName);
  }

  class HookModule {
    const name: string
    const filePath: string
    var hooks: map<string, LambdaHook>
    ghost var log: seq<LambdaHook>   // all registrations, in order

    constructor (name: string, filePath: string)
      ensures Valid() && log == [] && this.name == name && this.filePath == filePath
    {
      this.name := name;
      this.filePath := filePath;
      hooks := map[];
      log := [];
    }

    ghost predicate Valid()
      reads this
    {
      forall n :: Latest(log, n) == if n in hooks then hooks[n] else null
    }

    method RegisterHook(hook: LambdaHook?)
      requires Valid()
      modifies this
      ensures Valid() && log == if hook == null then old(log) else old(log) + [hook]
      ensures hooks == if hook == null then old(hooks) else old(hooks)[hook.debugName := hook]
    {
      if hook == null {
        return;
      }
      hooks := hooks[hook.debugName := hook];
      log := log + [hook];
      assert log[..|log| - 1] == old(log);
    }

    method FindHook(debugName: string) returns (hook: LambdaHook?)
      requires Valid()
      ensures hook == Latest(log, debugName)
      ensures forall i: nat | LastAt(log, debugName, i) :: hook == log[i]
      ensures hook == null <==> forall i | 0 <= i < |log| :: log[i].debugName != debugName
    {
      LatestIsEach(log, debugName);
      hook := if debugName in hooks then hooks[debugName] else null;
    }

    /** All hooks of the program, in the order of the world they make up. */
    ghost predicate Together(all: seq<LambdaHook>, minHook: MinHook, w: World)
      reads this, minHook, all
    {
      && |all| == |w.phases| && Inv(w) && minHook.mh == w.mh
      && (forall i, j | 0 <= i < j < |all| :: all[i] != all[j])
      && (forall i | 0 <= i < |all| :: all[i].Shows(minHook, w, i))
      && (forall n | n in hooks :: hooks[n] in all)
    }

    lemma TogetherMeans(all: seq<LambdaHook>, minHook: MinHook, w: World)
      requires Together(all, minHook, w)
      ensures |all| == |w.phases| && Inv(w) && Resting(w) && minHook.mh == w.mh
      ensures forall i, j | 0 <= i < j < |all| :: all[i] != all[j]
      ensures forall i | 0 <= i < |all| :: all[i].enabled <==> w.phases[i].On?
      ensures forall n | n in hooks :: hooks[n] in all
    {
      hide Inv;
      forall i | 0 <= i < |w.phases| ensures w.phases[i].Off? || w.phases[i].On? {
        assert all[i].Shows(minHook, w, i);
      }
    }

    /** jobs[k] is the whole attempt of the hook named order[k]; no name comes twice. */
    ghost predicate JobsOf(jobs: seq<Job>, order: seq<string>, all: seq<LambdaHook>, host: Host,
        lucks: map<string, Luck>)
      reads this
    {
      && |jobs| == |order|
      && (forall k | 0 <= k < |jobs| :: IsJob(jobs[k], order[k], all, host, lucks))
      && (forall j, k | 0 <= j < k < |order| :: order[j] != order[k])
    }

    /** The attempt is made at the address that the hook resolves to, 0 only if it resolves to none. */
    ghost predicate IsJob(job: Job, n: string, all: seq<LambdaHook>, host: Host, lucks: map<string, Luck>)
      reads this
    {
      && n in hooks && n in lucks && Parseable(hooks[n].config, host)
      && job.i < |all| && all[job.i] == hooks[n]
      && job.address == Target(hooks[n].config, host) && job.luck == lucks[n]
    }

    /** No other hook of these names wants the address that the hook named n wants. */
    ghost predicate Alone(n: string, names: set<string>, host: Host)
      reads this
      requires n in names && forall m | m in names :: m in hooks && Parseable(hooks[m].config, host)
    {
      forall m | m in names && m != n :: Target(hooks[m].config, host) != Target(hooks[n].config, host)
    }

    /** The last hook dispatched is the one that threw. */
    ghost predicate LastRaises(order: seq<string>, host: Host)
      reads this
    {
      && order != []
      && var n := order[|order| - 1];
        n in hooks && Parseable(hooks[n].config, host) && Raises(hooks[n].config, host)
    }

    /** The hooks of these names can be dispatched: lucks says for each what MinHook will do. */
    ghost predicate Dispatchable(names: set<string>, host: Host, lucks: map<string, Luck>)
      reads this
    {
      forall n | n in names :: n in hooks && n in lucks && Parseable(hooks[n].config, host)
    }

    /** Dispatches every hook of the module. */
    method Dispatch(minHook: MinHook, host: Host, lucks: map<string, Luck>, ghost all: seq<LambdaHook>, ghost w: World)
      returns (threw: bool, ghost jobs: seq<Job>, ghost order: seq<string>)
      requires Valid() && Together(all, minHook, w) && Dispatchable(hooks.Keys, host, lucks)
      modifies minHook, all
      ensures JobsFor(jobs, |w.phases|) && Together(all, minHook, RunJobs(w, jobs))
      ensures JobsOf(jobs, order, all, host, lucks) && forall n | n in order :: n in hooks
      ensures if threw then LastRaises(order, host) else forall n | n in hooks :: n in order
      ensures forall i | 0 <= i < |all| && (forall n | n in hooks :: hooks[n] != all[i]) ::
        all[i].enabled == old(all[i].enabled)
      ensures forall n | n in hooks && hooks[n].enabled ::
        old(hooks[n].enabled) || Succeeds(Target(hooks[n].config, host), old(minHook.mh), lucks[n])
      ensures forall n | n in hooks && old(hooks[n].enabled) :: hooks[n].enabled
      ensures !threw ==> forall n | n in hooks && Alone(n, hooks.Keys, host) ::
        Succeeds(Target(hooks[n].config, host), old(minHook.mh), lucks[n]) ==> hooks[n].enabled
    {
      hide RunJobs, Inv, Target, Raises, Succeeds, JobsOf, Valid, JobsFor, Alone, LastRaises;
      threw, jobs, order := DispatchNames(hooks.Keys, minHook, host, lucks, all, w);
    }

    /** Dispatches the hooks that wait for this module. */
    method DispatchForModule(moduleName: string, minHook: MinHook, host: Host, lucks: map<string, Luck>,
        ghost all: seq<LambdaHook>, ghost w: World)
      returns (threw: bool, ghost jobs: seq<Job>, ghost order: seq<string>)
      requires Valid() && Together(all, minHook, w) && Dispatchable(Waiting(moduleName), host, lucks)
      modifies minHook, all
      ensures JobsFor(jobs, |w.phases|) && Together(all, minHook, RunJobs(w, jobs))
      ensures JobsOf(jobs, order, all, host, lucks) && forall n | n in order :: n in Waiting(moduleName)
      ensures if threw then LastRaises(order, host) else forall n | n in Waiting(moduleName) :: n in order
      ensures forall i | 0 <= i < |all| && (forall n | n in Waiting(moduleName) :: hooks[n] != all[i]) ::
        all[i].enabled == old(all[i].enabled)
      ensures forall n | n in Waiting(moduleName) && hooks[n].enabled ::
        old(hooks[n].enabled) || Succeeds(Target(hooks[n].config, host), old(minHook.mh), lucks[n])
      ensures forall n | n in hooks && old(hooks[n].enabled) :: hooks[n].enabled
      ensures !threw ==> forall n | n in Waiting(moduleName) && Alone(n, Waiting(moduleName), host) ::
        Succeeds(Target(hooks[n].config, host), old(minHook.mh), lucks[n]) ==> hooks[n].enabled
    {
      hide RunJobs, Inv, Target, Raises, Succeeds, JobsOf, Valid, WaitsFor, JobsFor, Alone, LastRaises;
      threw, jobs, order := DispatchNames(Waiting(moduleName), minHook, host, lucks, all, w);
    }

    /** The names of the hooks that a load of this module dispatches. */
    function Waiting(moduleName: string): (names: set<string>)
      reads this
      ensures forall n :: n in names <==> n in hooks && WaitsFor(hooks[n].config, moduleName)
    {
      set n | n in hooks && WaitsFor(hooks[n].config, moduleName)
    }

    /** Dispatches the hooks of these names in any order, until one throws. */
    method DispatchEach(names: set<string>, minHook: MinHook, host: Host, lucks: map<string, Luck>,
        ghost all: seq<LambdaHook>, ghost w: World)
      returns (threw: bool, ghost jobs: seq<Job>, ghost order: seq<string>)
      requires Together(all, minHook, w) && Dispatchable(names, host, lucks)
      modifies minHook, all
      ensures JobsFor(jobs, |w.phases|) && Together(all, minHook, RunJobs(w, jobs))
      ensures JobsOf(jobs, order, all, host, lucks)
      ensures forall n | n in order :: n in names
      ensures if threw then LastRaises(order, host) else forall n | n in names :: n in order
    {
      hide RunJobs, Inv, Target, Raises, Together, JobsOf, JobsFor;
      TogetherMeans(all, minHook, w);
      var todo := names;
      jobs, order := [], [];
      threw := false;
      NoJobs(w, all, host, lucks);
      while todo != {} && !threw
        invariant JobsFor(jobs, |w.phases|) && Together(all, minHook, RunJobs(w, jobs))
        invariant JobsOf(jobs, order, all, host, lucks) && todo <= names
        invariant forall n :: n in order <==> n in names - todo
        invariant threw ==> LastRaises(order, host)
        decreases |todo|, !threw
      {
        var n :| n in todo;
        ghost var job;
        threw, job := DispatchOne(n, hooks[n], minHook, host, lucks, all, RunJobs(w, jobs));
        OneMoreJob(w, jobs, job, order, n, all, host, lucks);
        jobs, order := jobs + [job], order + [n];
        todo := todo - {n};
      }
    }

    /** The same, with what it means for each hook. */
    method DispatchNames(names: set<string>, minHook: MinHook, host: Host, lucks: map<string, Luck>,
        ghost all: seq<LambdaHook>, ghost w: World)
      returns (threw: bool, ghost jobs: seq<Job>, ghost order: seq<string>)
      requires Valid() && Together(all, minHook, w) && Dispatchable(names, host, lucks)
      modifies minHook, all
      ensures JobsFor(jobs, |w.phases|) && Together(all, minHook, RunJobs(w, jobs))
      ensures JobsOf(jobs, order, all, host, lucks) && forall n | n in order :: n in names
      ensures if threw then LastRaises(order, host) else forall n | n in names :: n in order
      ensures forall i | 0 <= i < |all| && (forall n | n in names :: hooks[n] != all[i]) ::
        all[i].enabled == old(all[i].enabled)
      ensures forall n | n in names && hooks[n].enabled ::
        old(hooks[n].enabled) || Succeeds(Target(hooks[n].config, host), old(minHook.mh), lucks[n])
      ensures forall i | 0 <= i < |all| && old(all[i].enabled) :: all[i].enabled
      ensures !threw ==> forall n | n in names && Alone(n, names, host) ::
        Succeeds(Target(hooks[n].config, host), old(minHook.mh), lucks[n]) ==> hooks[n].enabled
    {
      hide RunJobs, Inv, Target, Raises, Succeeds, Valid, Together, JobsOf, JobsFor, Alone, LastRaises;
      TogetherMeans(all, minHook, w);
      threw, jobs, order := DispatchEach(names, minHook, host, lucks, all, w);
      TogetherMeans(all, minHook, RunJobs(w, jobs));
      OutcomeOfAll(names, order, jobs, all, host, lucks, w);
    }

    lemma NoJobs(w: World, all: seq<LambdaHook>, host: Host, lucks: map<string, Luck>)
      ensures JobsFor([], |w.phases|) && RunJobs(w, []) == w
      ensures JobsOf([], [], all, host, lucks)
    {
    }

    lemma OneMoreJob(w: World, jobs: seq<Job>, job: Job, order: seq<string>, n: string, all: seq<LambdaHook>,
        host: Host,
        lucks: map<string, Luck>)
      requires JobsFor(jobs, |w.phases|) && |all| == |w.phases|
      requires JobsOf(jobs, order, all, host, lucks) && IsJob(job, n, all, host, lucks) && n !in order
      ensures JobsFor(jobs + [job], |w.phases|)
      ensures RunJobs(w, jobs + [job]) == Run(RunJobs(w, jobs), Attempt(job.i, job.address, job.luck))
      ensures JobsOf(jobs + [job], order + [n], all, host, lucks)
    {
      hide Run, Attempt, Target;
      assert (jobs + [job])[..|jobs|] == jobs;
    }

    lemma JobsTouchTheirHooks(names: set<string>, order: seq<string>, jobs: seq<Job>, all: seq<LambdaHook>, host: Host,
        lucks: map<string, Luck>, i: nat)
      requires JobsOf(jobs, order, all, host, lucks) && forall n | n in order :: n in names
      requires i < |all| && forall n | n in names :: n in hooks && hooks[n] != all[i]
      ensures forall k | 0 <= k < |jobs| :: jobs[k].i != i
    {
      hide Target;
      forall k | 0 <= k < |jobs| ensures jobs[k].i != i {
        assert IsJob(jobs[k], order[k], all, host, lucks) && order[k] in order;
      }
    }

    /** What the jobs of these names mean for each hook. */
    lemma OutcomeOfAll(names: set<string>, order: seq<string>, jobs: seq<Job>, all: seq<LambdaHook>, host: Host,
        lucks: map<string, Luck>, w: World)
      requires Valid() && JobsOf(jobs, order, all, host, lucks) && JobsFor(jobs, |w.phases|)
      requires Dispatchable(names, host, lucks) && forall n | n in order :: n in names
      requires |all| == |w.phases| && Inv(w) && Resting(w)
      requires forall i, j | 0 <= i < j < |all| :: all[i] != all[j]
      ensures forall i | 0 <= i < |all| && (forall n | n in names :: hooks[n] != all[i]) ::
        RunJobs(w, jobs).phases[i] == w.phases[i]
      ensures forall i | 0 <= i < |all| && w.phases[i].On? :: RunJobs(w, jobs).phases[i].On?
      ensures forall i, n | 0 <= i < |all| && n in names && all[i] == hooks[n] && RunJobs(w, jobs).phases[i].On? ::
        w.phases[i].On? || Succeeds(Target(hooks[n].config, host), w.mh, lucks[n])
      ensures forall i, n | 0 <= i < |all| && n in order && all[i] == hooks[n] && Alone(n, names, host) ::
        Succeeds(Target(hooks[n].config, host), w.mh, lucks[n]) ==> RunJobs(w, jobs).phases[i].On?
    {
      hide RunJobs, Inv, Target, Valid, JobsOf, Alone;
      JobsKeep(w, jobs);
      forall i | 0 <= i < |all| && (forall n | n in names :: hooks[n] != all[i])
        ensures RunJobs(w, jobs).phases[i] == w.phases[i]
      {
        JobsTouchTheirHooks(names, order, jobs, all, host, lucks, i);
      }
      forall i, n | 0 <= i < |all| && n in names && all[i] == hooks[n]
        ensures RunJobs(w, jobs).phases[i].On? ==>
          w.phases[i].On? || Succeeds(Target(hooks[n].config, host), w.mh, lucks[n])
        ensures n in order && Alone(n, names, host) && Succeeds(Target(hooks[n].config, host), w.mh, lucks[n]) ==>
          RunJobs(w, jobs).phases[i].On?
      {
        OutcomeOfOne(names, order, jobs, all, host, lucks, w, n, i);
      }
    }

    lemma OutcomeOfOne(names: set<string>, order: seq<string>, jobs: seq<Job>, all: seq<LambdaHook>, host: Host,
        lucks: map<string, Luck>, w: World, n: string, i: nat)
      requires Valid() && JobsOf(jobs, order, all, host, lucks) && JobsFor(jobs, |w.phases|)
      requires Dispatchable(names, host, lucks) && forall n | n in order :: n in names
      requires |all| == |w.phases| && Inv(w) && Resting(w)
      requires forall i, j | 0 <= i < j < |all| :: all[i] != all[j]
      requires i < |all| && n in names && all[i] == hooks[n]
      ensures RunJobs(w, jobs).phases[i].On? ==>
        w.phases[i].On? || Succeeds(Target(hooks[n].config, host), w.mh, lucks[n])
      ensures n in order && Alone(n, names, host) && Succeeds(Target(hooks[n].config, host), w.mh, lucks[n]) ==>
        RunJobs(w, jobs).phases[i].On?
    {
      hide RunJobs, Inv, Target;
      DistinctNamesDistinctHooks();
      if n in order {
        var k :| 0 <= k < |order| && order[k] == n;
        assert jobs[k].i == i;
        assert OneEach(jobs);
        EachJobsOutcome(w, jobs, k);
        StillFree(w, jobs, k);
        if Alone(n, names, host) {
          forall j | 0 <= j < k ensures jobs[j].address != jobs[k].address {
            assert order[j] in names && order[j] != n;
          }
        }
      } else {
        JobsKeep(w, jobs);
        forall k | 0 <= k < |jobs| ensures jobs[k].i != i {
          assert order[k] in order;
        }
      }
    }

    lemma DistinctNamesDistinctHooks()
      requires Valid()
      ensures forall m, n | m in hooks && n in hooks && m != n :: hooks[m] != hooks[n]
    {
      forall n | n in hooks ensures hooks[n].debugName == n {
        assert Latest(log, n) == hooks[n];
      }
    }

    /** The whole attempt of the hook named n. */
    method DispatchOne(n: string, hook: LambdaHook, minHook: MinHook, host: Host, lucks: map<string, Luck>,
        ghost all: seq<LambdaHook>, ghost w: World)
      returns (threw: bool, ghost job: Job)
      requires Together(all, minHook, w) && n in hooks && hooks[n] == hook && n in lucks && Parseable(hook.config, host)
      modifies minHook, hook`enabled
      ensures IsJob(job, n, all, host, lucks)
      ensures Together(all, minHook, Run(w, Attempt(job.i, job.address, job.luck)))
      ensures threw <==> Raises(hook.config, host) && !old(hook.enabled)
    {
      hide Run, Inv, Target;
      ghost var i :| 0 <= i < |all| && all[i] == hook;
      job := Job(i, Target(hook.config, host), lucks[n]);
      TogetherMeans(all, minHook, w);
      JobOutcome(w, job);
      var outcome := hook.Install(minHook, host, lucks[n], w, i);
      threw := outcome.Throws?;
    }
  }

  // ----- all modules

  ghost predicate Distinct(modules: seq<HookModule>) {
    forall i, j | 0 <= i < j < |modules| :: modules[i] != modules[j]
  }

  /** The hook a name stands for: the last registration in the first module that has one. */
  ghost function First(modules: seq<HookModule>, name: string): LambdaHook?
    reads modules
  {
    if modules == [] then null
    else if Latest(modules[0].log, name) != null then Latest(modules[0].log, name)
    else First(modules[1..], name)
  }

  /** The first module that has the name is modules[k], where its last registration stands at index i. */
  ghost predicate FirstAt(modules: seq<HookModule>, name: string, k: nat, i: nat)
    reads modules
  {
    && k < |modules| && LastAt(modules[k].log, name, i)
    && forall j, l | 0 <= j < k && 0 <= l < |modules[j].log| :: modules[j].log[l].debugName != name
  }

  lemma {:induction false} FirstIs(modules: seq<HookModule>, name: string, k: nat, i: nat)
    requires FirstAt(modules, name, k, i)
    ensures First(modules, name) == modules[k].log[i]
    decreases k
  {
    LatestIsEach(modules[0].log, name);
    if k > 0 {
      assert forall j | 0 <= j < |modules| - 1 :: modules[1..][j] == modules[j + 1];
      FirstIs(modules[1..], name, k - 1, i);
    }
  }

  lemma {:induction false} FirstIsNull(modules: seq<HookModule>, name: string)
    ensures First(modules, name) == null <==>
      forall j, l | 0 <= j < |modules| && 0 <= l < |modules[j].log| :: modules[j].log[l].debugName != name
  {
    if modules != [] {
      LatestIsEach(modules[0].log, name);
      FirstIsNull(modules[1..], name);
      assert forall j | 0 <= j < |modules| - 1 :: modules[1..][j] == modules[j + 1];
      if First(modules, name) == null {
        forall j, l | 0 <= j < |modules| && 0 <= l < |modules[j].log|
          ensures modules[j].log[l].debugName != name
        {
          assert j > 0 ==> modules[j] == modules[1..][j - 1];
        }
      }
    }
  }

  class Registry {
    var modules: seq<HookModule>
    var modulesByFile: map<string, HookModule>

    constructor ()
      ensures Valid() && modules == []
    {
      modules := [];
      modulesByFile := map[];
    }

    /** No module is listed twice; every file module is listed, under its own key. */
    ghost predicate Valid()
      reads this, modules
    {
      && Distinct(modules)
      && (forall m | m in modules :: m.Valid())
      && (forall key | key in modulesByFile :: modulesByFile[key] in modules && modulesByFile[key].filePath == key)
    }

    method RegisterHookModule(m: HookModule?)
      requires Valid() && (m != null ==> m.Valid())
      modifies this`modules
      ensures Valid()
      ensures modules == if m == null || m in old(modules) then old(modules) else old(modules) + [m]
    {
      if m == null {
        return;
      }
      if m !in modules {
        modules := modules + [m];
      }
    }

    method GetOrCreateFileHookModule(filePath: string, moduleName: string) returns (m: HookModule)
      requires Valid()
      modifies this
      ensures Valid() && m in modules && m.filePath == filePath
      ensures modulesByFile == old(modulesByFile)[filePath := m]
      ensures filePath in old(modulesByFile) ==> m == old(modulesByFile)[filePath] && modules == old(modules)
      ensures filePath !in old(modulesByFile) ==> fresh(m) && m.log == [] && modules == old(modules) + [m]
      ensures filePath !in old(modulesByFile) ==> m.name == if moduleName != "" then moduleName else filePath
    {
      var effectiveName := if moduleName != "" then moduleName else filePath;
      if filePath !in modulesByFile {
        m := new HookModule(effectiveName, filePath);
        RegisterHookModule(m);
        modulesByFile := modulesByFile[filePath := m];
        return;
      }
      m := modulesByFile[filePath];
      RegisterHookModule(m);
    }

    /** In any sequence of calls, equal files get the same module and different files different ones. */
    method GetAll(filePaths: seq<string>, moduleNames: seq<string>) returns (ms: seq<HookModule>)
      requires Valid() && |moduleNames| == |filePaths|
      modifies this
      ensures Valid() && |ms| == |filePaths|
      ensures forall i, j | 0 <= i < |ms| && 0 <= j < |ms| :: ms[i] == ms[j] <==> filePaths[i] == filePaths[j]
    {
      ms := [];
      for k := 0 to |filePaths|
        invariant Valid() && |ms| == k
        invariant forall i | 0 <= i < k :: filePaths[i] in modulesByFile && modulesByFile[filePaths[i]] == ms[i]
        invariant forall i | 0 <= i < k :: ms[i].filePath == filePaths[i]
      {
        var m := GetOrCreateFileHookModule(filePaths[k], moduleNames[k]);
        ms := ms + [m];
      }
    }

    method FindHook(debugName: string) returns (hook: LambdaHook?)
      requires Valid()
      ensures hook == First(modules, debugName)
      ensures forall k: nat, i: nat | FirstAt(modules, debugName, k, i) :: hook == modules[k].log[i]
      ensures hook == null <==>
        forall j, l | 0 <= j < |modules| && 0 <= l < |modules[j].log| :: modules[j].log[l].debugName != debugName
    {
      FirstIsNull(modules, debugName);
      forall k: nat, i: nat | FirstAt(modules, debugName, k, i) ensures First(modules, debugName) == modules[k].log[i] {
        FirstIs(modules, debugName, k, i);
      }
      assert modules[0..] == modules;
      for k := 0 to |modules|
        invariant First(modules, debugName) == First(modules[k..], debugName)
      {
        assert modules[k..][1..] == modules[k + 1..];
        hook := modules[k].FindHook(debugName);
        if hook != null {
          return;
        }
      }
      hook := null;
    }
  }

  // ----- nested invocations

  /** A hook invocation and the invocations made from inside it, in order. */
  datatype Invocation = Invocation(name: string, inner: seq<Invocation>)

  /** A scope is opened under a name, or the one opened last is closed. */
  datatype Scope = Open(name: string) | Close

  function Scopes(call: Invocation): seq<Scope>
    decreases call
  {
    [Open(call.name)] + ScopesInside(call.inner) + [Close]
  }

  function ScopesInside(calls: seq<Invocation>): seq<Scope>
    decreases calls
  {
    if calls == [] then [] else Scopes(calls[0]) + ScopesInside(calls[1..])
  }

  /** The names opened and not yet closed, the innermost last. */
  function StillOpen(scopes: seq<Scope>): (names: seq<string>)
    decreases |scopes|
  {
    if scopes == [] then []
    else
      var names := StillOpen(scopes[..|scopes| - 1]);
      match scopes[|scopes| - 1]
      case Open(name) => names + [name]
      case Close => if names == [] then [] else names[..|names| - 1]
  }

  /** The innermost open name, or none. */
  function Innermost(names: seq<string>): string {
    if names == [] then "" else names[|names| - 1]
  }

  lemma OneMoreScope(scopes: seq<Scope>, e: Scope)
    ensures StillOpen(scopes + [e]) == match e
      case Open(name) => StillOpen(scopes) + [name]
      case Close => if StillOpen(scopes) == [] then [] else StillOpen(scopes)[..|StillOpen(scopes)| - 1]
  {
    assert (scopes + [e])[..|scopes|] == scopes;
  }

  class HookThread {
    var activeHookName: string     // g_activeHookName
    ghost var scopes: seq<Scope>   // the scopes opened and closed so far
    ghost var seen: seq<string>    // what GetActiveHookName returned before the first of them and after each

    constructor ()
      ensures Valid() && activeHookName == "" && scopes == [] && seen == [""]
    {
      activeHookName := "";
      scopes := [];
      seen := [""];
    }

    /** At every point so far the active name was that of the innermost hook then open. */
    ghost predicate Valid()
      reads this
    {
      && |seen| == |scopes| + 1 && activeHookName == seen[|scopes|]
      && forall k | 0 <= k <= |scopes| :: seen[k] == Innermost(StillOpen(scopes[..k]))
    }

    /** A scope is opened, the body runs, and the scope is closed. */
    method Invoke(call: Invocation)
      requires Valid()
      modifies this
      ensures Valid() && activeHookName == old(activeHookName)
      ensures scopes == old(scopes) + Scopes(call) && StillOpen(scopes) == old(StillOpen(scopes))
      ensures old(seen) + [call.name] <= seen
      decreases call
    {
      hide StillOpen;
      ghost var before := scopes;
      assert before[..|before|] == before;
      var previousHookName := activeHookName;
      activeHookName := call.name;
      OneMoreScope(scopes, Open(call.name));
      Record(Open(call.name));
      InvokeInside(call.inner);
      activeHookName := previousHookName;
      OneMoreScope(scopes, Close);
      Record(Close);
      assert scopes == before + ([Open(call.name)] + ScopesInside(call.inner) + [Close]);
    }

    /** What the scopes opened and closed leave open is what is active. */
    ghost method Record(e: Scope)
      requires |seen| == |scopes| + 1
      requires forall k | 0 <= k <= |scopes| :: seen[k] == Innermost(StillOpen(scopes[..k]))
      requires activeHookName == Innermost(StillOpen(scopes + [e]))
      modifies this`scopes, this`seen
      ensures Valid() && scopes == old(scopes) + [e] && seen == old(seen) + [activeHookName]
    {
      hide StillOpen;
      assert forall k | 0 <= k <= |scopes| :: (scopes + [e])[..k] == scopes[..k];
      scopes := scopes + [e];
      seen := seen + [activeHookName];
      assert scopes[..|scopes|] == scopes;
    }

    method InvokeInside(calls: seq<Invocation>)
      requires Valid()
      modifies this
      ensures Valid() && activeHookName == old(activeHookName)
      ensures scopes == old(scopes) + ScopesInside(calls) && StillOpen(scopes) == old(StillOpen(scopes))
      ensures old(seen) <= seen
      decreases calls
    {
      hide StillOpen, Valid, Scopes;
      if calls != [] {
        ghost var before := scopes;
        Invoke(calls[0]);
        InvokeInside(calls[1..]);
        assert scopes == before + (Scopes(calls[0]) + ScopesInside(calls[1..]));
      }
    }
  }
}
