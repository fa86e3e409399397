/** Starting and stopping an application: phases of concurrent hooks with a barrier between them. */
module Lifecycle {
  import opened Selections

  // --- Which hooks run in which phase ---

  /** A registered object: its class decides its order, the flags tell which hooks it has. */
  datatype Instance = Instance(
    name: string,
    className: string,
    onRegistrationsFinished: bool,
    onInit: bool,
    onDestroy: bool,
    onBeforeShutdown: bool)

  /** The class names that communicate synchronously and asynchronously. */
  datatype Classes = Classes(sync: set<string>, async: set<string>)

  const MAX_INIT_ORDER: nat := 4

  function InitOrder(c: Classes, x: Instance): (order: nat)
    ensures order <= MAX_INIT_ORDER
  {
    if x.className == "EnvService" then 0
    else if x.className == "MetricsService" then 1
    else if x.className in c.sync then 3
    else if x.className in c.async then 4
    else 2
  }

  function DestroyOrder(c: Classes, x: Instance): (order: nat)
    ensures order <= MAX_INIT_ORDER
  {
    MAX_INIT_ORDER - InitOrder(c, x)
  }

  /** The hooks of an init level, in registration order. */
  function InitLevel(c: Classes, instances: seq<Instance>, order: nat): seq<string> {
    if instances == [] then []
    else
      var x := instances[|instances| - 1];
      InitLevel(c, instances[..|instances| - 1], order)
      + if x.onInit && InitOrder(c, x) == order then [x.name] else []
  }

  function DestroyLevel(c: Classes, instances: seq<Instance>, order: nat): seq<string> {
    if instances == [] then []
    else
      var x := instances[|instances| - 1];
      DestroyLevel(c, instances[..|instances| - 1], order)
      + if x.onDestroy && DestroyOrder(c, x) == order then [x.name] else []
  }

  function RegistrationHooks(instances: seq<Instance>): seq<string> {
    if instances == [] then []
    else
      var x := instances[|instances| - 1];
      RegistrationHooks(instances[..|instances| - 1]) + if x.onRegistrationsFinished then [x.name] else []
  }

  function ShutdownHooks(instances: seq<Instance>): seq<string> {
    if instances == [] then []
    else
      var x := instances[|instances| - 1];
      ShutdownHooks(instances[..|instances| - 1]) + if x.onBeforeShutdown then [x.name] else []
  }

  /** Collecting the start hooks: one phase for finished registrations, then the five init levels. */
  method CollectStartHooks(c: Classes, instances: seq<Instance>) returns (phases: seq<seq<string>>)
    ensures |phases| == 6
    ensures phases[0] == RegistrationHooks(instances)
    ensures forall order: nat :: order <= MAX_INIT_ORDER ==> phases[order + 1] == InitLevel(c, instances, order)
  {
    var registrations: seq<string> := [];
    var levels: seq<seq<string>> := [[], [], [], [], []];
    for i := 0 to |instances|
      invariant |levels| == 5
      invariant registrations == RegistrationHooks(instances[..i])
      invariant forall order :: 0 <= order < 5 ==> levels[order] == InitLevel(c, instances[..i], order)
    {
      var x := instances[i];
      assert instances[..i + 1][..i] == instances[..i];
      if x.onRegistrationsFinished {
        registrations := registrations + [x.name];
      }
      if x.onInit {
        var order := InitOrder(c, x);
        levels := levels[order := levels[order] + [x.name]];
      }
    }
    assert instances[..|instances|] == instances;
    phases := [registrations] + levels;
  }

  /** Destroy levels in order, as far as they are in use, and then the shutdown hooks. */
  ghost predicate StopPhases(c: Classes, instances: seq<Instance>, phases: seq<seq<string>>) {
    && phases != []
    && (forall order :: 0 <= order < |phases| - 1 ==> phases[order] == DestroyLevel(c, instances, order))
    && (forall order: nat :: |phases| - 1 <= order ==> DestroyLevel(c, instances, order) == [])
    && phases[|phases| - 1] == ShutdownHooks(instances)
  }

  /**
   * Collecting the stop hooks: the list of levels grows to the highest order in use, leaving the
   * orders without hooks empty, and the shutdown hooks come last.
   */
  method CollectStopHooks(c: Classes, instances: seq<Instance>) returns (phases: seq<seq<string>>)
    ensures |phases| <= MAX_INIT_ORDER + 2 && StopPhases(c, instances, phases)
  {
    var levels: seq<seq<string>> := [];
    var shutdown: seq<string> := [];
    for i := 0 to |instances|
      invariant |levels| <= MAX_INIT_ORDER + 1
      invariant forall order :: 0 <= order < |levels| ==> levels[order] == DestroyLevel(c, instances[..i], order)
      invariant forall order: nat :: |levels| <= order ==> DestroyLevel(c, instances[..i], order) == []
      invariant shutdown == ShutdownHooks(instances[..i])
    {
      var x := instances[i];
      assert instances[..i + 1][..i] == instances[..i];
      assert ShutdownHooks(instances[..i + 1]) == shutdown + if x.onBeforeShutdown then [x.name] else [];
      if x.onBeforeShutdown {
        shutdown := shutdown + [x.name];
      }
      if x.onDestroy {
        var order := DestroyOrder(c, x);
        if order >= |levels| {
          levels := levels + seq(order + 1 - |levels|, _ => []);
        }
        assert forall o: nat :: o < |levels| ==> levels[o] == DestroyLevel(c, instances[..i], o);
        levels := levels[order := levels[order] + [x.name]];
      }
    }
    assert instances[..|instances|] == instances;
    phases := levels + [shutdown];
  }

  // --- Which hooks stand where ---

  /**
   * The level of a class, counted from the first: environment, then metrics, then everything else,
   * then the classes that communicate synchronously, then those that do so asynchronously.
   */
  predicate AtLevel(c: Classes, x: Instance, level: nat) {
    var early := x.className == "EnvService" || x.className == "MetricsService";
    match level
    case 0 => x.className == "EnvService"
    case 1 => x.className == "MetricsService"
    case 2 => !early && x.className !in c.sync && x.className !in c.async
    case 3 => !early && x.className in c.sync
    case 4 => !early && x.className in c.async && x.className !in c.sync
    case _ => false
  }

  /** The names of the instances at these positions, in the order of registration, each once. */
  ghost predicate ListsHooks(instances: seq<Instance>, positions: set<nat>, hooks: seq<string>) {
    exists at :: && Picks(at, positions) && |at| == |hooks|
                 && forall k :: 0 <= k < |at| ==> at[k] < |instances| && hooks[k] == instances[at[k]].name
  }

  lemma OneMoreHook(instances: seq<Instance>, positions: set<nat>, hooks: seq<string>, keep: bool)
    requires instances != [] && (forall i :: i in positions ==> i < |instances| - 1)
    requires ListsHooks(instances[..|instances| - 1], positions, hooks)
    ensures var n: nat := |instances| - 1;
      ListsHooks(instances, positions + (if keep then {n} else {}), hooks + if keep then [instances[n].name] else [])
  {
    var n: nat := |instances| - 1;
    var at :| && Picks(at, positions) && |at| == |hooks|
              && forall k :: 0 <= k < |at| ==> at[k] < n && hooks[k] == instances[..n][at[k]].name;
    PicksNext(at, positions, n, keep);
    var at' := at + if keep then [n] else [];
    var hooks' := hooks + if keep then [instances[n].name] else [];
    assert forall k :: 0 <= k < |at'| ==> at'[k] < |instances| && hooks'[k] == instances[at'[k]].name;
  }

  lemma NoHooks(positions: set<nat>)
    requires positions == {}
    ensures ListsHooks([], positions, [])
  {
    assert Picks([], positions);
  }

  lemma LevelOfClass(c: Classes, x: Instance, level: nat)
    ensures InitOrder(c, x) == level <==> AtLevel(c, x, level)
    ensures DestroyOrder(c, x) == level <==> level <= 4 && AtLevel(c, x, 4 - level)
  {
  }

  /** The hooks on finished registrations, and those of each init level: in registration order, each once. */
  lemma {:induction false} StartHooksExactly(c: Classes, instances: seq<Instance>, level: nat)
    ensures ListsHooks(instances, (set i: nat | i < |instances| && instances[i].onRegistrationsFinished),
                       RegistrationHooks(instances))
    ensures ListsHooks(instances,
        (set i: nat | i < |instances| && instances[i].onInit && AtLevel(c, instances[i], level)),
                       InitLevel(c, instances, level))
  {
    hide ListsHooks, InitOrder, AtLevel;
    var registered := set i: nat | i < |instances| && instances[i].onRegistrationsFinished;
    var initialised := set i: nat | i < |instances| && instances[i].onInit && AtLevel(c, instances[i], level);
    if instances == [] {
      NoHooks(registered);
      NoHooks(initialised);
    } else {
      var n: nat := |instances| - 1;
      var before, x := instances[..n], instances[n];
      StartHooksExactly(c, before, level);
      LevelOfClass(c, x, level);
      var registered' := set i: nat | i < n && before[i].onRegistrationsFinished;
      var initialised' := set i: nat | i < n && before[i].onInit && AtLevel(c, before[i], level);
      OneMoreHook(instances, registered', RegistrationHooks(before), x.onRegistrationsFinished);
      OneMoreHook(instances, initialised', InitLevel(c, before, level), x.onInit && AtLevel(c, x, level));
      assert registered == registered' + if x.onRegistrationsFinished then {n} else {};
      assert initialised == initialised' + if x.onInit && AtLevel(c, x, level) then {n} else {};
    }
  }

  /** The same for stopping: the destroy levels count the classes from the last, and shutdown hooks have one phase. */
  lemma {:induction false} StopHooksExactly(c: Classes, instances: seq<Instance>, level: nat)
    requires level <= 4
    ensures ListsHooks(instances, (set i: nat | i < |instances| && instances[i].onBeforeShutdown),
                       ShutdownHooks(instances))
    ensures ListsHooks(instances,
        (set i: nat | i < |instances| && instances[i].onDestroy && AtLevel(c, instances[i], 4 - level)),
                       DestroyLevel(c, instances, level))
  {
    hide ListsHooks, DestroyOrder, AtLevel;
    var stopped := set i: nat | i < |instances| && instances[i].onBeforeShutdown;
    var destroyed := set i: nat | i < |instances| && instances[i].onDestroy && AtLevel(c, instances[i], 4 - level);
    if instances == [] {
      NoHooks(stopped);
      NoHooks(destroyed);
    } else {
      var n: nat := |instances| - 1;
      var before, x := instances[..n], instances[n];
      StopHooksExactly(c, before, level);
      LevelOfClass(c, x, level);
      var stopped' := set i: nat | i < n && before[i].onBeforeShutdown;
      var destroyed' := set i: nat | i < n && before[i].onDestroy && AtLevel(c, before[i], 4 - level);
      OneMoreHook(instances, stopped', ShutdownHooks(before), x.onBeforeShutdown);
      OneMoreHook(instances, destroyed', DestroyLevel(c, before, level), x.onDestroy && AtLevel(c, x, 4 - level));
      assert stopped == stopped' + if x.onBeforeShutdown then {n} else {};
      assert destroyed == destroyed' + if x.onDestroy && AtLevel(c, x, 4 - level) then {n} else {};
    }
  }

  /** Every class has exactly one level, so a registered hook stands in exactly one phase of its kind. */
  lemma OneLevel(c: Classes, x: Instance)
    ensures exists level: nat :: level <= 4 && AtLevel(c, x, level)
    ensures forall k: nat, l: nat :: AtLevel(c, x, k) && AtLevel(c, x, l) ==> k == l
  {
    LevelOfClass(c, x, InitOrder(c, x));
  }

  // --- Running the phases ---

  /** `FailFast` waits with `Promise.all`, `WaitForAll` with `Promise.allSettled`. */
  datatype Mode = FailFast | WaitForAll

  /** The hook at a position of a phase. */
  datatype Hook = Hook(phase: nat, index: nat)

  datatype Event = Begun(hook: Hook) | Settled(hook: Hook, ok: bool)

  /**
   * The phases entered so far, how many hooks of the last one have begun, the hooks begun and not
   * settled, and everything that happened.
   */
  datatype State = State(entered: nat, next: nat, pending: set<Hook>, log: seq<Event>)

  datatype Step = EnterPhase | BeginHook | Settle(hook: Hook, ok: bool)

  predicate IsHook(phases: seq<seq<string>>, h: Hook) {
    h.phase < |phases| && h.index < |phases[h.phase]|
  }

  ghost predicate HasFailed(log: seq<Event>) {
    exists h :: Settled(h, false) in log
  }

  /** All hooks of the phases entered have begun and settled. */
  predicate Idle(phases: seq<seq<string>>, s: State) {
    && s.entered <= |phases| && s.pending == {}
    && (s.entered > 0 ==> s.next == |phases[s.entered - 1]|)
  }

  /**
   * A phase is entered when the one before it is done and, when failing fast, nothing has failed.
   * Its hooks then begin one after the other. A hook that has begun may settle at any time, also
   * before the next hook of its phase begins.
   */
  ghost predicate Enabled(mode: Mode, phases: seq<seq<string>>, s: State, step: Step) {
    match step
    case EnterPhase => s.entered < |phases| && Idle(phases, s) && (mode.FailFast? ==> !HasFailed(s.log))
    case BeginHook => 0 < s.entered <= |phases| && s.next < |phases[s.entered - 1]|
    case Settle(h, _) => h in s.pending
  }

  ghost function Apply(mode: Mode, phases: seq<seq<string>>, s: State, step: Step): State
    requires Enabled(mode, phases, s, step)
  {
    match step
    case EnterPhase => s.(entered := s.entered + 1, next := 0)
    case BeginHook =>
      var h := Hook(s.entered - 1, s.next);
      s.(next := s.next + 1, pending := s.pending + {h}, log := s.log + [Begun(h)])
    case Settle(h, ok) => s.(pending := s.pending - {h}, log := s.log + [Settled(h, ok)])
  }

  const INITIAL := State(0, 0, {}, [])

  /** `s` is reached by the steps, in any order of completions that the barriers allow. */
  ghost predicate Reaches(mode: Mode, phases: seq<seq<string>>, steps: seq<Step>, s: State) {
    if steps == [] then s == INITIAL
    else
      var last := steps[|steps| - 1];
      exists before :: && Reaches(mode, phases, steps[..|steps| - 1], before)
                       && Enabled(mode, phases, before, last) && s == Apply(mode, phases, before, last)
  }

  // --- Invariants of a run ---

  ghost predicate SettledIn(log: seq<Event>, h: Hook) {
    Settled(h, true) in log || Settled(h, false) in log
  }

  /** How often a hook has begun, and how often it has settled. */
  ghost function TimesBegun(log: seq<Event>, h: Hook): nat {
    multiset(log)[Begun(h)]
  }

  ghost function TimesSettled(log: seq<Event>, h: Hook): nat {
    multiset(log)[Settled(h, true)] + multiset(log)[Settled(h, false)]
  }

  predicate HasBegun(phases: seq<seq<string>>, s: State, h: Hook) {
    IsHook(phases, h) && h.phase < s.entered && (h.phase == s.entered - 1 ==> h.index < s.next)
  }

  ghost predicate Counts(phases: seq<seq<string>>, s: State) {
    && (forall h :: TimesBegun(s.log, h) == if HasBegun(phases, s, h) then 1 else 0)
    && (forall h :: TimesSettled(s.log, h) == if HasBegun(phases, s, h) && h !in s.pending then 1 else 0)
    && (forall h :: h in s.pending ==> HasBegun(phases, s, h) && h.phase == s.entered - 1)
    && s.entered <= |phases| && (s.entered > 0 ==> s.next <= |phases[s.entered - 1]|)
  }

  /** The hook at an earlier phase has settled, successfully when failing fast. */
  predicate Passed(mode: Mode, log: seq<Event>, h: Hook) {
    Settled(h, true) in log || (mode.WaitForAll? && Settled(h, false) in log)
  }

  /** Before any hook begins, all hooks of the earlier phases have passed. */
  ghost predicate Barriers(mode: Mode, phases: seq<seq<string>>, log: seq<Event>) {
    forall j, a :: 0 <= j < |log| && log[j].Begun? && IsHook(phases, a) && a.phase < log[j].hook.phase ==>
      Passed(mode, log[..j], a)
  }

  /** When failing fast, what begins after a failure is of the phase that failed. */
  ghost predicate StopsAtFailure(mode: Mode, log: seq<Event>) {
    mode.FailFast? ==>
      forall i, j :: (0 <= i < j < |log| && log[j].Begun? && log[i].Settled? && !log[i].ok) ==>
        log[i].hook.phase == log[j].hook.phase
  }

  ghost predicate Inv(mode: Mode, phases: seq<seq<string>>, s: State) {
    && Counts(phases, s) && Barriers(mode, phases, s.log) && StopsAtFailure(mode, s.log)
    && AllPassed(mode, phases, s)
  }

  /** The hooks of the phases before the last one entered have passed; none of them fails later. */
  ghost predicate AllPassed(mode: Mode, phases: seq<seq<string>>, s: State) {
    && (forall a :: IsHook(phases, a) && a.phase + 1 < s.entered ==> Passed(mode, s.log, a))
    && (mode.FailFast? ==> forall a :: Settled(a, false) in s.log ==> a.phase + 1 == s.entered)
  }

  lemma EventsAdd(log: seq<Event>, e: Event, h: Hook)
    ensures TimesBegun(log + [e], h) == TimesBegun(log, h) + if e == Begun(h) then 1 else 0
    ensures TimesSettled(log + [e], h) == TimesSettled(log, h) + if e.Settled? && e.hook == h then 1 else 0
  {
  }

  lemma EnteringKeepsCounts(phases: seq<seq<string>>, s: State)
    requires Counts(phases, s) && Idle(phases, s) && s.entered < |phases|
    ensures Counts(phases, s.(entered := s.entered + 1, next := 0))
  {
    hide TimesBegun, TimesSettled;
    assert forall h :: HasBegun(phases, s.(entered := s.entered + 1, next := 0), h) <==> HasBegun(phases, s, h);
  }

  lemma BeginningKeepsCounts(phases: seq<seq<string>>, s: State, h: Hook)
    requires Counts(phases, s) && s.entered > 0 && s.next < |phases[s.entered - 1]| && h == Hook(s.entered - 1, s.next)
    ensures Counts(phases, s.(next := s.next + 1, pending := s.pending + {h}, log := s.log + [Begun(h)]))
  {
    hide TimesBegun, TimesSettled;
    var s' := s.(next := s.next + 1, pending := s.pending + {h}, log := s.log + [Begun(h)]);
    forall x
      ensures TimesBegun(s'.log, x) == TimesBegun(s.log, x) + if x == h then 1 else 0
      ensures TimesSettled(s'.log, x) == TimesSettled(s.log, x)
      ensures HasBegun(phases, s', x) <==> HasBegun(phases, s, x) || x == h
    {
      EventsAdd(s.log, Begun(h), x);
    }
    assert !HasBegun(phases, s, h);
  }

  lemma SettlingKeepsCounts(phases: seq<seq<string>>, s: State, h: Hook, ok: bool)
    requires Counts(phases, s) && h in s.pending
    ensures Counts(phases, s.(pending := s.pending - {h}, log := s.log + [Settled(h, ok)]))
  {
    hide TimesBegun, TimesSettled;
    var s' := s.(pending := s.pending - {h}, log := s.log + [Settled(h, ok)]);
    forall x
      ensures TimesBegun(s'.log, x) == TimesBegun(s.log, x)
      ensures TimesSettled(s'.log, x) == TimesSettled(s.log, x) + if x == h then 1 else 0
      ensures HasBegun(phases, s', x) <==> HasBegun(phases, s, x)
    {
      EventsAdd(s.log, Settled(h, ok), x);
    }
  }

  lemma StepKeepsCounts(mode: Mode, phases: seq<seq<string>>, s: State, step: Step)
    requires Counts(phases, s) && Enabled(mode, phases, s, step)
    ensures Counts(phases, Apply(mode, phases, s, step))
  {
    hide Counts;
    match step
    case EnterPhase => EnteringKeepsCounts(phases, s);
    case BeginHook => BeginningKeepsCounts(phases, s, Hook(s.entered - 1, s.next));
    case Settle(h, ok) => SettlingKeepsCounts(phases, s, h, ok);
  }

  lemma StepKeepsBarriers(mode: Mode, phases: seq<seq<string>>, s: State, step: Step)
    requires Inv(mode, phases, s) && Enabled(mode, phases, s, step)
    ensures Barriers(mode, phases, Apply(mode, phases, s, step).log)
    ensures StopsAtFailure(mode, Apply(mode, phases, s, step).log)
  {
    var s' := Apply(mode, phases, s, step);
    hide TimesBegun, TimesSettled, HasFailed;
    forall j, a | 0 <= j < |s'.log| && s'.log[j].Begun? && IsHook(phases, a) && a.phase < s'.log[j].hook.phase
      ensures Passed(mode, s'.log[..j], a)
    {
      if j < |s.log| {
        assert s'.log[..j] == s.log[..j];
      } else {
        assert s'.log[..j] == s.log;
      }
    }
    forall i, j | mode.FailFast? && 0 <= i < j < |s'.log| && s'.log[j].Begun? && s'.log[i].Settled? && !s'.log[i].ok
      ensures s'.log[i].hook.phase == s'.log[j].hook.phase
    {
      if j == |s.log| {
        assert s'.log[i] == Settled(s.log[i].hook, false) && s.log[i] in s.log;
      }
    }
  }

  lemma StepKeepsInv(mode: Mode, phases: seq<seq<string>>, s: State, step: Step)
    requires Inv(mode, phases, s) && Enabled(mode, phases, s, step)
    ensures Inv(mode, phases, Apply(mode, phases, s, step))
  {
    StepKeepsCounts(mode, phases, s, step);
    StepKeepsBarriers(mode, phases, s, step);
  }

  lemma {:induction false} RunKeepsInv(mode: Mode, phases: seq<seq<string>>, steps: seq<Step>, s: State)
    requires Reaches(mode, phases, steps, s)
    ensures Inv(mode, phases, s)
    decreases |steps|
  {
    if steps != [] {
      var last := steps[|steps| - 1];
      var before :| && Reaches(mode, phases, steps[..|steps| - 1], before)
                    && Enabled(mode, phases, before, last) && s == Apply(mode, phases, before, last);
      RunKeepsInv(mode, phases, steps[..|steps| - 1], before);
      StepKeepsInv(mode, phases, before, last);
    }
  }

  // --- Starting ---

  /**
   * However the hooks complete: a hook begins only after every hook of the earlier phases has
   * succeeded, and no hook of a later phase begins once a hook has failed.
   */
  lemma StartRespectsLevels(phases: seq<seq<string>>, steps: seq<Step>, s: State, j: nat)
    requires Reaches(FailFast, phases, steps, s) && j < |s.log| && s.log[j].Begun?
    ensures forall a :: IsHook(phases, a) && a.phase < s.log[j].hook.phase ==> Settled(a, true) in s.log[..j]
    ensures forall a :: Settled(a, false) in s.log[..j] ==> a.phase == s.log[j].hook.phase
  {
    RunKeepsInv(FailFast, phases, steps, s);
    forall a | IsHook(phases, a) && a.phase < s.log[j].hook.phase
      ensures Settled(a, true) in s.log[..j]
    {
      assert Passed(FailFast, s.log[..j], a);
    }
    forall a | Settled(a, false) in s.log[..j]
      ensures a.phase == s.log[j].hook.phase
    {
      var i :| 0 <= i < j && s.log[i] == Settled(a, false);
    }
  }

  /**
   * Within one phase a failure stops nothing: a hook that fails before its first wait does so
   * before the next hook of its phase begins.
   */
  lemma NextHookBeginsAfterFailure(x: string, y: string)
    ensures exists steps, s :: && Reaches(FailFast, [[x, y]], steps, s)
                               && s.log == [Begun(Hook(0, 0)), Settled(Hook(0, 0), false), Begun(Hook(0, 1))]
  {
    var phases, h := [[x, y]], Hook(0, 0);
    var s1 := State(1, 0, {}, []);
    var s2 := State(1, 1, {h}, [Begun(h)]);
    var s3 := State(1, 1, {}, [Begun(h), Settled(h, false)]);
    var s4 := State(1, 2, {Hook(0, 1)}, [Begun(h), Settled(h, false), Begun(Hook(0, 1))]);
    var t1 := [] + [EnterPhase];
    var t2 := t1 + [BeginHook];
    var t3 := t2 + [Settle(h, false)];
    assert Reaches(FailFast, phases, [], INITIAL);
    assert Enabled(FailFast, phases, INITIAL, EnterPhase);
    hide Reaches, HasFailed, Idle;
    ReachesNext(FailFast, phases, [], INITIAL, EnterPhase, s1);
    ReachesNext(FailFast, phases, t1, s1, BeginHook, s2);
    assert s3.log == s2.log + [Settled(h, false)] && s3.pending == s2.pending - {h};
    ReachesNext(FailFast, phases, t2, s2, Settle(h, false), s3);
    assert s4.log == s3.log + [Begun(Hook(0, 1))] && s4.pending == s3.pending + {Hook(0, 1)};
    ReachesNext(FailFast, phases, t3, s3, BeginHook, s4);
    assert Reaches(FailFast, phases, t3 + [BeginHook], s4);
  }

  lemma ReachesNext(mode: Mode, phases: seq<seq<string>>, steps: seq<Step>, s: State, step: Step, s': State)
    requires Reaches(mode, phases, steps, s) && Enabled(mode, phases, s, step) && s' == Apply(mode, phases, s, step)
    ensures Reaches(mode, phases, steps + [step], s')
  {
    var all := steps + [step];
    assert all[..|all| - 1] == steps && all[|all| - 1] == step;
  }

  // --- Stopping ---

  /** However the hooks complete, and whether they fail: a hook begins only after every earlier one has settled. */
  lemma StopRespectsLevels(phases: seq<seq<string>>, steps: seq<Step>, s: State, j: nat, a: Hook)
    requires Reaches(WaitForAll, phases, steps, s) && j < |s.log| && s.log[j].Begun?
    requires IsHook(phases, a) && a.phase < s.log[j].hook.phase
    ensures SettledIn(s.log[..j], a)
  {
    RunKeepsInv(WaitForAll, phases, steps, s);
    assert Passed(WaitForAll, s.log[..j], a);
  }

  lemma {:induction false} LevelHolds(c: Classes, instances: seq<Instance>, x: Instance)
    requires x in instances && x.onDestroy
    ensures x.name in DestroyLevel(c, instances, DestroyOrder(c, x))
  {
    var last := instances[|instances| - 1];
    if x != last {
      assert instances == instances[..|instances| - 1] + [last];
      LevelHolds(c, instances[..|instances| - 1], x);
    }
  }

  /**
   * Stopping undoes starting: when `a` is initialised at an earlier level than `b`, no hook of
   * `a`'s destroy level begins before `b` has been destroyed, successfully or not.
   */
  lemma StopReversesStart(c: Classes, instances: seq<Instance>, phases: seq<seq<string>>, steps: seq<Step>, s: State,
                          a: Instance, b: Instance, j: nat)
    requires StopPhases(c, instances, phases) && Reaches(WaitForAll, phases, steps, s)
    requires a in instances && b in instances && a.onDestroy && b.onDestroy && InitOrder(c, a) < InitOrder(c, b)
    requires j < |s.log| && s.log[j].Begun? && s.log[j].hook.phase == DestroyOrder(c, a)
    ensures exists h :: && IsHook(phases, h) && h.phase == DestroyOrder(c, b) && phases[h.phase][h.index] == b.name
                        && SettledIn(s.log[..j], h)
  {
    LevelHolds(c, instances, b);
    var p := DestroyOrder(c, b);
    assert p < |phases| - 1;
    var i :| 0 <= i < |phases[p]| && phases[p][i] == b.name;
    StopRespectsLevels(phases, steps, s, j, Hook(p, i));
  }

  predicate Complete(phases: seq<seq<string>>, s: State) {
    s.entered == |phases| && Idle(phases, s)
  }

  /** In a complete stop every hook has been attempted exactly once and has settled exactly once. */
  lemma EveryHookAttemptedOnce(phases: seq<seq<string>>, steps: seq<Step>, s: State, h: Hook)
    requires Reaches(WaitForAll, phases, steps, s) && Complete(phases, s) && IsHook(phases, h)
    ensures TimesBegun(s.log, h) == 1 && TimesSettled(s.log, h) == 1
  {
    hide TimesBegun, TimesSettled, Reaches, Barriers, StopsAtFailure, AllPassed;
    RunKeepsInv(WaitForAll, phases, steps, s);
    assert HasBegun(phases, s, h) && h !in s.pending;
  }

  /** Work left: a beginning and a settling for each hook, and a step for each phase not entered. */
  function WorkFrom(phases: seq<seq<string>>, p: nat): nat
    requires p <= |phases|
    decreases |phases| - p
  {
    if p == |phases| then 0 else 1 + 2 * |phases[p]| + WorkFrom(phases, p + 1)
  }

  function Remaining(phases: seq<seq<string>>, s: State): int
    requires s.entered <= |phases|
  {
    |s.pending| + WorkFrom(phases, s.entered) + if s.entered > 0 then 2 * (|phases[s.entered - 1]| - s.next) else 0
  }

  /** A stop never gets stuck: short of completion some step is enabled, and every step leaves less work. */
  lemma StopMakesProgress(phases: seq<seq<string>>, steps: seq<Step>, s: State)
    requires Reaches(WaitForAll, phases, steps, s)
    ensures s.entered <= |phases| && Remaining(phases, s) >= 0
    ensures Complete(phases, s) || exists step :: Enabled(WaitForAll, phases, s, step)
    ensures forall step :: Enabled(WaitForAll, phases, s, step) ==>
              Remaining(phases, Apply(WaitForAll, phases, s, step)) < Remaining(phases, s)
  {
    RunKeepsInv(WaitForAll, phases, steps, s);
    if !Complete(phases, s) {
      if s.pending != {} {
        var h :| h in s.pending;
        assert Enabled(WaitForAll, phases, s, Settle(h, true));
      } else if Idle(phases, s) {
        assert Enabled(WaitForAll, phases, s, EnterPhase);
      } else {
        assert Enabled(WaitForAll, phases, s, BeginHook);
      }
    }
    forall step | Enabled(WaitForAll, phases, s, step)
      ensures Remaining(phases, Apply(WaitForAll, phases, s, step)) < Remaining(phases, s)
    {
      StepLeavesLess(phases, s, step);
    }
  }

  lemma StepLeavesLess(phases: seq<seq<string>>, s: State, step: Step)
    requires s.entered <= |phases| && Enabled(WaitForAll, phases, s, step)
    ensures Remaining(phases, Apply(WaitForAll, phases, s, step)) < Remaining(phases, s)
  {
  }

  // --- The aggregated error ---

  /** The rejected results of a phase, in the order of its hooks. */
  function PhaseErrors(log: seq<Event>, p: nat, n: nat): seq<Hook> {
    if n == 0 then []
    else PhaseErrors(log, p, n - 1) + if Settled(Hook(p, n - 1), false) in log then [Hook(p, n - 1)] else []
  }

  /** The errors of the first `p` phases, phase after phase: the destroy errors, then those of the shutdown. */
  function Errors(phases: seq<seq<string>>, log: seq<Event>, p: nat): seq<Hook>
    requires p <= |phases|
  {
    if p == 0 then [] else Errors(phases, log, p - 1) + PhaseErrors(log, p - 1, |phases[p - 1]|)
  }

  lemma {:induction false} PhaseErrorsOnce(log: seq<Event>, p: nat, n: nat, h: Hook)
    ensures multiset(PhaseErrors(log, p, n))[h]
         == if h.phase == p && h.index < n && Settled(h, false) in log then 1 else 0
  {
    if n > 0 {
      PhaseErrorsOnce(log, p, n - 1, h);
      var last := if Settled(Hook(p, n - 1), false) in log then [Hook(p, n - 1)] else [];
    }
  }

  lemma {:induction false} ErrorsOnce(phases: seq<seq<string>>, log: seq<Event>, p: nat, h: Hook)
    requires p <= |phases|
    ensures multiset(Errors(phases, log, p))[h]
         == if h.phase < p && IsHook(phases, h) && Settled(h, false) in log then 1 else 0
  {
    hide PhaseErrors;
    if p > 0 {
      ErrorsOnce(phases, log, p - 1, h);
      PhaseErrorsOnce(log, p - 1, |phases[p - 1]|, h);
    }
  }

  /**
   * The aggregate error of a complete stop holds one entry for each hook that failed and none for
   * another; so it is thrown exactly when some hook failed.
   */
  lemma OneEntryPerFailure(phases: seq<seq<string>>, steps: seq<Step>, s: State)
    requires Reaches(WaitForAll, phases, steps, s) && Complete(phases, s)
    ensures forall h :: multiset(Errors(phases, s.log, |phases|))[h] == if Settled(h, false) in s.log then 1 else 0
    ensures Errors(phases, s.log, |phases|) != [] <==> HasFailed(s.log)
  {
    RunKeepsInv(WaitForAll, phases, steps, s);
    var errors := Errors(phases, s.log, |phases|);
    forall h
      ensures multiset(errors)[h] == if Settled(h, false) in s.log then 1 else 0
    {
      ErrorsOnce(phases, s.log, |phases|, h);
      if Settled(h, false) in s.log {
        assert multiset(s.log)[Settled(h, false)] > 0;
        assert TimesSettled(s.log, h) > 0;
      }
    }
    if errors != [] {
      assert errors[0] in multiset(errors);
    }
  }
}
