/** Threads looking plugins up while others load and shut down: each step touches shared state once,
    and everything between taking and releasing the mutex is steps of the holder only. */
module PluginThreads {
  import opened Options
  import opened PluginHost

  type Tid = nat

  datatype Call =
    | Find(rt: Runtime, kind: nat)
    | Load(rt: Runtime, dir: Option<seq<Library>>)
    | Shut(rt: Runtime)

  /** Where a thread stands in its call. */
  datatype Pc =
    | Idle
    | Entered(call: Call)
    | Read(rt: Runtime, kind: nat, seen: nat)        // generation read, cache not looked at yet
    | Missed(rt: Runtime, kind: nat, seen: nat)      // waiting for the mutex
    | Copying(rt: Runtime, kind: nat, seen: nat)     // holding it
    | Copied(rt: Runtime, kind: nat, answer: Entry)  // still holding it
    | Found(rt: Runtime, kind: nat, answer: Entry)
    | Loading(rt: Runtime, libs: seq<Library>, done: nat)
    | Erased(rt: Runtime, plugins: seq<Plugin>)      // registry gone, generation still the old one
    | Bumped(rt: Runtime, clear: bool)

  datatype Thread = Thread(pc: Pc, tls: Cache)

  datatype State = State(registries: map<Runtime, Registry>, generation: nat, owner: Option<Tid>, threads: seq<Thread>)

  /** The thread that moves, and the call it makes if it is idle. */
  datatype Event = Event(tid: Tid, call: Call)

  predicate Holds(pc: Pc) {
    pc.Copying? || pc.Copied? || pc.Loading? || pc.Erased? || pc.Bumped?
  }

  function Move(s: State, t: Tid, pc: Pc): State
    requires t < |s.threads|
  {
    s.(threads := s.threads[t := s.threads[t].(pc := pc)])
  }

  function Step(s: State, e: Event): State {
    if e.tid >= |s.threads| then s
    else
      var t := e.tid;
      var th := s.threads[t];
      match th.pc
      case Idle => Move(s, t, Entered(e.call))
      case Entered(call) => Enter(s, t, call)
      case Read(rt, kind, seen) =>
        if kind < FAST_KINDS && th.tls.runtime == Some(rt) && th.tls.generation == seen && kind < |th.tls.kinds|
        then Move(s, t, Found(rt, kind, th.tls.kinds[kind]))
        else Move(s, t, Missed(rt, kind, seen))
      case Missed(rt, kind, seen) =>
        if s.owner.Some? then s else Move(s, t, Copying(rt, kind, seen)).(owner := Some(t))
      case Copying(rt, kind, seen) => Copy(s, t, rt, kind, seen)
      case Copied(rt, kind, answer) => Move(s, t, Found(rt, kind, answer)).(owner := None)
      case Found(_, _, _) => Move(s, t, Idle)
      case Loading(rt, libs, done) => LoadStep(s, t, rt, libs, done)
      case Erased(rt, _) => Move(s, t, Bumped(rt, true)).(generation := s.generation + 1)
      case Bumped(rt, clear) =>
        var s1 := Move(s, t, Idle).(owner := None);
        if clear && th.tls.runtime == Some(rt) then s1.(threads := s1.threads[t := Thread(Idle, EmptyCache())]) else s1
  }

  /** First step of a call: a lookup reads the generation, the others take the mutex and look. */
  function Enter(s: State, t: Tid, call: Call): State
    requires t < |s.threads|
  {
    match call
    case Find(rt, kind) => Move(s, t, Read(rt, kind, s.generation))
    case Load(rt, dir) =>
      if s.owner.Some? then s
      else if rt in s.registries then Move(s, t, Idle)
      else if dir.None? then Move(s, t, Idle).(registries := s.registries[rt := Registry([], true)])
      else Move(s, t, Loading(rt, dir.value, 0)).(owner := Some(t), registries := s.registries[rt := Registry([], true)])
    case Shut(rt) =>
      if s.owner.Some? then s
      else if rt !in s.registries then Move(s, t, Idle)
      else Move(s, t, Erased(rt, s.registries[rt].plugins)).(owner := Some(t), registries := s.registries - {rt})
  }

  function Copy(s: State, t: Tid, rt: Runtime, kind: nat, seen: nat): State
    requires t < |s.threads|
  {
    if rt !in s.registries then Move(s, t, Copied(rt, kind, NOTHING))
    else
      var plugins := s.registries[rt].plugins;
      if kind < FAST_KINDS then
        var table := Table(plugins);
        s.(threads := s.threads[t := Thread(Copied(rt, kind, table[kind]), Cache(Some(rt), seen, table))])
      else Move(s, t, Copied(rt, kind, OrNothing(First(plugins, kind))))
  }

  /** One library, or the bump after the last one. */
  function LoadStep(s: State, t: Tid, rt: Runtime, libs: seq<Library>, done: nat): State
    requires t < |s.threads|
  {
    if done < |libs| && rt in s.registries then
      Move(s, t, Loading(rt, libs, done + 1))
        .(registries := s.registries[rt := Registry(LoadOne(s.registries[rt].plugins, libs[done]), true)])
    else Move(s, t, Bumped(rt, false)).(generation := s.generation + 1)
  }

  // ----- What the registries mean while somebody holds the mutex

  /** The plugins a runtime has as far as lookups may tell: a load counts from its bump on, and a
      shutdown counts from its bump on. */
  function Published(s: State, rt: Runtime): Option<seq<Plugin>> {
    var committed := if rt in s.registries then Some(s.registries[rt].plugins) else None;
    if s.owner.Some? && s.owner.value < |s.threads| then
      match s.threads[s.owner.value].pc
      case Loading(r, _, _) => if r == rt then None else committed
      case Erased(r, plugins) => if r == rt then Some(plugins) else committed
      case _ => committed
    else committed
  }

  function Answer(s: State, rt: Runtime, kind: nat): Entry {
    if Published(s, rt).Some? then OrNothing(First(Published(s, rt).value, kind)) else NOTHING
  }

  // ----- The invariant

  ghost predicate InStep(s: State, c: Cache) {
    c.runtime.Some? && c.generation == s.generation
  }

  /** A cache in step with the generation holds the published answers of its runtime. */
  ghost predicate Fresh(s: State, c: Cache) {
    && |c.kinds| == FAST_KINDS && c.generation <= s.generation
    && (InStep(s, c) ==> Published(s, c.runtime.value).Some?)
    && (InStep(s, c) ==> forall k :: 0 <= k < FAST_KINDS ==> c.kinds[k] == Answer(s, c.runtime.value, k))
  }

  ghost predicate PcValid(s: State, pc: Pc) {
    match pc
    case Read(_, _, seen) => seen <= s.generation
    case Missed(_, _, seen) => seen <= s.generation
    case Copying(_, _, seen) => seen <= s.generation
    case Copied(rt, kind, answer) => answer == Answer(s, rt, kind)
    case Loading(rt, libs, done) => rt in s.registries && done <= |libs| && s.registries[rt].plugins == LoadAll(libs[..done])
    case Erased(rt, plugins) => rt !in s.registries && UniqueKinds(plugins)
    case _ => true
  }

  /** One holder at most, and each thread's place in its call fits the shared state. */
  ghost predicate Owned(s: State) {
    && ValidRegistries(s.registries)
    && (forall t :: 0 <= t < |s.threads| ==> (Holds(s.threads[t].pc) <==> s.owner == Some(t)))
    && (s.owner.Some? ==> s.owner.value < |s.threads|)
    && (forall t :: 0 <= t < |s.threads| ==> PcValid(s, s.threads[t].pc))
  }

  ghost predicate Inv(s: State) {
    Owned(s) && forall t :: 0 <= t < |s.threads| ==> Fresh(s, s.threads[t].tls)
  }

  function Init(n: nat): State {
    State(map[], 1, None, seq(n, _ => Thread(Idle, EmptyCache())))
  }

  lemma InitHolds(n: nat)
    ensures Inv(Init(n))
  {
  }

  /** No step changes what is published for a runtime, short of moving the generation on. */
  ghost predicate Republishes(s: State, s': State) {
    || s'.generation > s.generation
    || (s'.generation == s.generation && forall rt :: Published(s, rt).Some? ==> Published(s', rt) == Published(s, rt))
  }

  lemma FreshStays(s: State, s': State, c: Cache)
    requires Fresh(s, c) && Republishes(s, s')
    ensures Fresh(s', c)
  {
    hide Published;
  }

  ghost predicate Quiet(pc: Pc) {
    !pc.Entered? && !pc.Copying? && !pc.Loading? && !pc.Erased?
  }

  lemma StepOwned(s: State, e: Event)
    requires Owned(s)
    ensures Owned(Step(s, e)) && Republishes(s, Step(s, e))
  {
    if e.tid < |s.threads| {
      var t := e.tid;
      match s.threads[t].pc
      case Entered(call) => EnterOwned(s, t, call);
      case Copying(rt, kind, seen) => CopyOwned(s, t, rt, kind, seen);
      case Loading(rt, libs, done) => LoadOwned(s, t, rt, libs, done);
      case Erased(rt, plugins) => BumpOwned(s, e);
      case _ => QuietOwned(s, e);
    }
  }

  lemma QuietOwned(s: State, e: Event)
    requires Owned(s) && e.tid < |s.threads| && Quiet(s.threads[e.tid].pc)
    ensures Owned(Step(s, e)) && Republishes(s, Step(s, e))
  {
    hide Published, First;
    QuietPublishes(s, e);
    forall pc | PcValid(s, pc)
      ensures PcValid(Step(s, e), pc)
    {
      PcStays(s, Step(s, e), pc);
    }
  }

  lemma PcStays(s: State, s': State, pc: Pc)
    requires PcValid(s, pc) && s'.registries == s.registries && s'.generation == s.generation
    requires forall rt :: Published(s', rt) == Published(s, rt)
    ensures PcValid(s', pc)
  {
    hide Published;
  }

  lemma QuietPublishes(s: State, e: Event)
    requires Owned(s) && e.tid < |s.threads| && Quiet(s.threads[e.tid].pc)
    ensures Step(s, e).registries == s.registries && Step(s, e).generation == s.generation
    ensures forall rt :: Published(Step(s, e), rt) == Published(s, rt)
  {
    hide PcValid, ValidRegistries;
  }

  lemma EnterOwned(s: State, t: Tid, call: Call)
    requires Owned(s) && t < |s.threads| && s.threads[t].pc == Entered(call)
    ensures Owned(Enter(s, t, call)) && Republishes(s, Enter(s, t, call))
  {
    hide First;
  }

  lemma CopyOwned(s: State, t: Tid, rt: Runtime, kind: nat, seen: nat)
    requires Owned(s) && t < |s.threads| && s.threads[t].pc == Copying(rt, kind, seen)
    ensures Owned(Copy(s, t, rt, kind, seen)) && Republishes(s, Copy(s, t, rt, kind, seen))
  {
    if rt in s.registries {
      TableIsLookup(s.registries[rt].plugins);
    }
  }

  lemma LoadOwned(s: State, t: Tid, rt: Runtime, libs: seq<Library>, done: nat)
    requires Owned(s) && t < |s.threads| && s.threads[t].pc == Loading(rt, libs, done)
    ensures Owned(LoadStep(s, t, rt, libs, done)) && Republishes(s, LoadStep(s, t, rt, libs, done))
  {
    hide First, LoadOne;
    if done < |libs| {
      LoadOneKeepsUnique(s.registries[rt].plugins, libs[done]);
      assert libs[..done + 1][..done] == libs[..done];
    }
  }

  lemma BumpOwned(s: State, e: Event)
    requires Owned(s) && e.tid < |s.threads| && s.threads[e.tid].pc.Erased?
    ensures Owned(Step(s, e)) && Republishes(s, Step(s, e))
  {
    hide First;
  }

  lemma OthersLeave(s: State, e: Event)
    ensures |Step(s, e).threads| == |s.threads|
    ensures forall t :: 0 <= t < |s.threads| && t != e.tid ==> Step(s, e).threads[t] == s.threads[t]
  {
  }

  /** Every step of every thread keeps the invariant. */
  lemma StepKeeps(s: State, e: Event)
    requires Inv(s)
    ensures Inv(Step(s, e))
  {
    hide Step, Owned, Fresh, Republishes;
    var s' := Step(s, e);
    StepOwned(s, e);
    OthersLeave(s, e);
    forall t | 0 <= t < |s'.threads|
      ensures Fresh(s', s'.threads[t].tls)
    {
      FreshStays(s, s', s.threads[t].tls);
      if t == e.tid {
        OwnCacheFresh(s, e);
      }
    }
  }

  lemma OwnCacheFresh(s: State, e: Event)
    requires Inv(s) && e.tid < |s.threads|
    ensures Fresh(Step(s, e), Step(s, e).threads[e.tid].tls)
  {
    var t := e.tid;
    var s' := Step(s, e);
    StepOwned(s, e);
    if s'.threads[t].tls == s.threads[t].tls {
      FreshStays(s, s', s.threads[t].tls);
    } else if s.threads[t].pc.Copying? {
      CopiedFresh(s, t);
    }
  }

  lemma CopiedFresh(s: State, t: Tid)
    requires Inv(s) && t < |s.threads| && s.threads[t].pc.Copying?
    ensures var pc := s.threads[t].pc; var s' := Copy(s, t, pc.rt, pc.kind, pc.seen); Fresh(s', s'.threads[t].tls)
  {
    var pc := s.threads[t].pc;
    CopyOwned(s, t, pc.rt, pc.kind, pc.seen);
    FreshStays(s, Copy(s, t, pc.rt, pc.kind, pc.seen), s.threads[t].tls);
    if pc.rt in s.registries {
      TableIsLookup(s.registries[pc.rt].plugins);
    }
  }

  // ----- Runs

  /** A run as the states it passes through. */
  ghost predicate Trace(ss: seq<State>, es: seq<Event>) {
    |ss| == |es| + 1 && Inv(ss[0]) && forall i :: 0 <= i < |es| ==> ss[i + 1] == Step(ss[i], es[i])
  }

  lemma {:induction false} TraceKeeps(ss: seq<State>, es: seq<Event>, i: nat)
    requires Trace(ss, es) && i < |ss|
    ensures Inv(ss[i]) && |ss[i].threads| == |ss[0].threads|
  {
    hide Step, Inv;
    if i > 0 {
      TraceKeeps(ss, es, i - 1);
      StepKeeps(ss[i - 1], es[i - 1]);
      OthersLeave(ss[i - 1], es[i - 1]);
    }
  }

  ghost predicate NoneInStep(s: State) { forall t :: 0 <= t < |s.threads| ==> !InStep(s, s.threads[t].tls) }

  /** When a load is through, what it publishes is exactly the plugins of its directory, and with the
      bump no cache is in step any more. */
  lemma LoadPublishes(ss: seq<State>, es: seq<Event>, i: nat, j: nat)
    requires Trace(ss, es) && i < |es| && j == i + 1 && es[i].tid < |ss[i].threads|
    requires var pc := ss[i].threads[es[i].tid].pc; pc.Loading? && pc.done >= |pc.libs|
    ensures var pc := ss[i].threads[es[i].tid].pc; Published(ss[j], pc.rt) == Some(LoadAll(pc.libs))
    ensures NoneInStep(ss[j])
  {
    hide First, LoadAll;
    TraceKeeps(ss, es, i);
    OthersLeave(ss[i], es[i]);
    var pc := ss[i].threads[es[i].tid].pc;
    assert pc.libs[..pc.done] == pc.libs;
  }

  /** Somebody is inside a shutdown of rt, after the erasure and before the bump. */
  predicate Window(s: State, rt: Runtime) {
    s.owner.Some? && s.owner.value < |s.threads|
    && s.threads[s.owner.value].pc.Erased? && s.threads[s.owner.value].pc.rt == rt
  }

  /** In every run: a cache in step with the generation disagrees with its runtime's registry on a
      kind if and only if that runtime is inside the window of its shutdown and had a plugin of the
      kind that is not null. */
  lemma CacheAgreesExactly(ss: seq<State>, es: seq<Event>, i: nat, t: Tid, kind: nat)
    requires Trace(ss, es) && i < |ss| && t < |ss[i].threads| && kind < FAST_KINDS
    requires InStep(ss[i], ss[i].threads[t].tls)
    ensures var c := ss[i].threads[t].tls; var rt := c.runtime.value;
            && |c.kinds| == FAST_KINDS
            && (c.kinds[kind] != Lookup(ss[i].registries, rt, kind) <==>
                  Window(ss[i], rt) && OrNothing(First(ss[i].threads[ss[i].owner.value].pc.plugins, kind)) != NOTHING)
  {
    TraceKeeps(ss, es, i);
    hide First;
  }

  /** Thread t would hit its cache although the registry is gone. */
  ghost predicate Outdated(s: State, t: Tid) {
    t < |s.threads| && InStep(s, s.threads[t].tls) && s.threads[t].tls.runtime.value !in s.registries
  }

  /** The registry of a cache in step is gone exactly inside that window. */
  lemma OutdatedExactly(ss: seq<State>, es: seq<Event>, i: nat, t: Tid)
    requires Trace(ss, es) && i < |ss| && t < |ss[i].threads| && InStep(ss[i], ss[i].threads[t].tls)
    ensures Outdated(ss[i], t) <==> Window(ss[i], ss[i].threads[t].tls.runtime.value)
  {
    TraceKeeps(ss, es, i);
    hide First;
  }

  function StateAfter(s: State, es: seq<Event>): State {
    if es == [] then s else Step(StateAfter(s, es[..|es| - 1]), es[|es| - 1])
  }

  lemma {:induction false} TraceTo(n: nat, es: seq<Event>) returns (ss: seq<State>)
    ensures Trace(ss, es) && ss[0] == Init(n) && ss[|es|] == StateAfter(Init(n), es)
  {
    hide Step, Inv;
    InitHolds(n);
    if es == [] {
      ss := [Init(n)];
    } else {
      var front := TraceTo(n, es[..|es| - 1]);
      ss := front + [StateAfter(Init(n), es)];
    }
  }

  lemma Nowhere(s: State)
    ensures StateAfter(s, []) == s
  {
  }

  lemma StateAfterOne(s: State, es: seq<Event>, e: Event)
    ensures StateAfter(s, es + [e]) == Step(StateAfter(s, es), e)
  {
    hide Step;
    assert (es + [e])[..|es|] == es;
  }

  const ONE_LIBRARY: seq<Library> := [Library(true, None, Some(Descriptor(1, true, 2, true, 0)))]

  /** Two threads: 1 loads a plugin, 0 looks it up, and 1 shuts down as far as the erasure. */
  function WindowEvents(): seq<Event> {
    var load, find, shut := Event(1, Load(7, Some(ONE_LIBRARY))), Event(0, Find(7, 2)), Event(1, Shut(7));
    [load, load, load, load, load] + [find, find, find, find, find, find, find] + [shut, shut]
  }

  /** The window is reached from the start: a run after which thread 0 would hit its cache for the
      plugin it found, although the registry is gone. */
  lemma WindowReached() returns (ss: seq<State>)
    ensures Trace(ss, WindowEvents()) && ss[0] == Init(2)
    ensures var s := ss[|ss| - 1];
            && Outdated(s, 0) && Window(s, 7) && s.threads[0].tls == Cache(Some(7), 2, Table(OnePlugin()[7].plugins))
            && Table(OnePlugin()[7].plugins)[2] == Entry(1, 0, 0) && Lookup(s.registries, 7, 2) == NOTHING
  {
    ss := TraceTo(2, WindowEvents());
    AfterWindow();
  }

  function OnePlugin(): map<Runtime, Registry> { map[7 := Registry([Plugin(Entry(1, 0, 0), 2)], true)] }

  lemma AfterLoad()
    ensures var load := Event(1, Load(7, Some(ONE_LIBRARY)));
            Step(Step(Step(Step(Step(Init(2), load), load), load), load), load)
            == State(OnePlugin(), 2, None, [Thread(Idle, EmptyCache()), Thread(Idle, EmptyCache())])
  {
    var load := Event(1, Load(7, Some(ONE_LIBRARY)));
    var empty: seq<Plugin> := [];
    assert LoadOne(empty, ONE_LIBRARY[0]) == [Plugin(Entry(1, 0, 0), 2)];
    var s2 := Step(Step(Init(2), load), load);
    assert s2.registries == map[7 := Registry(empty, true)];
    var s3 := Step(s2, load);
    assert s3.registries == OnePlugin();
  }

  lemma AfterFind(s: State)
    requires s == State(OnePlugin(), 2, None, [Thread(Idle, EmptyCache()), Thread(Idle, EmptyCache())])
    ensures var find := Event(0, Find(7, 2));
            Step(Step(Step(Step(Step(Step(Step(s, find), find), find), find), find), find), find)
            == s.(threads := [Thread(Idle, Cache(Some(7), 2, Table(OnePlugin()[7].plugins))), Thread(Idle, EmptyCache())])
    ensures Table(OnePlugin()[7].plugins)[2] == Entry(1, 0, 0)
  {
    hide Table;
    FoundPlugin();
  }

  lemma FoundPlugin()
    ensures Table(OnePlugin()[7].plugins)[2] == Entry(1, 0, 0)
  {
  }

  lemma AfterWindow()
    ensures var s := StateAfter(Init(2), WindowEvents());
            && s == State(map[], 2, Some(1), [Thread(Idle, Cache(Some(7), 2, Table(OnePlugin()[7].plugins))),
                                              Thread(Erased(7, OnePlugin()[7].plugins), EmptyCache())])
            && Table(OnePlugin()[7].plugins)[2] == Entry(1, 0, 0)
  {
    hide Table, StateAfter, Step;
    var load, find, shut := Event(1, Load(7, Some(ONE_LIBRARY))), Event(0, Find(7, 2)), Event(1, Shut(7));
    var l := [load, load, load, load, load];
    var f := [find, find, find, find, find, find, find];
    FiveSteps(Init(2), [], load);
    assert [] + l == l;
    Nowhere(Init(2));
    AfterLoad();
    SevenSteps(Init(2), l, find);
    AfterFind(StateAfter(Init(2), l));
    TwoSteps(Init(2), l + f, shut);
    AfterShut(StateAfter(Init(2), l + f));
  }

  lemma FiveSteps(s: State, es: seq<Event>, e: Event)
    ensures StateAfter(s, es + [e, e, e, e, e]) == Step(Step(Step(Step(Step(StateAfter(s, es), e), e), e), e), e)
  {
    hide Step, StateAfter;
    TwoSteps(s, es, e);
    TwoSteps(s, es + [e, e], e);
    StateAfterOne(s, es + [e, e] + [e, e], e);
    assert es + [e, e] + [e, e] + [e] == es + [e, e, e, e, e];
  }

  lemma SevenSteps(s: State, es: seq<Event>, e: Event)
    ensures StateAfter(s, es + [e, e, e, e, e, e, e]) == Step(Step(Step(Step(Step(Step(Step(StateAfter(s, es), e), e), e), e), e), e), e)
  {
    hide Step, StateAfter;
    TwoSteps(s, es, e);
    TwoSteps(s, es + [e, e], e);
    TwoSteps(s, es + [e, e] + [e, e], e);
    StateAfterOne(s, es + [e, e] + [e, e] + [e, e], e);
    assert es + [e, e] + [e, e] + [e, e] + [e] == es + [e, e, e, e, e, e, e];
  }

  lemma TwoSteps(s: State, es: seq<Event>, e: Event)
    ensures StateAfter(s, es + [e, e]) == Step(Step(StateAfter(s, es), e), e)
  {
    hide Step, StateAfter;
    StateAfterOne(s, es, e);
    StateAfterOne(s, es + [e], e);
    assert es + [e] + [e] == es + [e, e];
  }

  lemma AfterShut(s: State)
    requires s.registries == OnePlugin() && s.owner == None && |s.threads| == 2 && s.threads[1] == Thread(Idle, EmptyCache())
    ensures var shut := Event(1, Shut(7));
            Step(Step(s, shut), shut)
            == s.(registries := map[], owner := Some(1), threads := [s.threads[0], Thread(Erased(7, OnePlugin()[7].plugins), EmptyCache())])
  {
  }

  // ----- Linearizability

  /** Thread t is serving the lookup of kind in rt. */
  predicate Serving(s: State, t: Tid, rt: Runtime, kind: nat) {
    t < |s.threads| &&
    match s.threads[t].pc
    case Entered(call) => call == Find(rt, kind)
    case Read(r, k, _) => r == rt && k == kind
    case Missed(r, k, _) => r == rt && k == kind
    case Copying(r, k, _) => r == rt && k == kind
    case Copied(r, k, _) => r == rt && k == kind
    case Found(r, k, _) => r == rt && k == kind
    case _ => false
  }

  /** What a lookup knows at each of its steps: the answer it carries, or the one a cache hit would
      give it, was the published answer at some instant k since the call began. */
  ghost predicate Known(s: State, t: Tid, past: State, rt: Runtime, kind: nat) {
    t < |s.threads| &&
    match s.threads[t].pc
    case Read(_, _, seen) =>
      var c := s.threads[t].tls;
      kind < FAST_KINDS && c.runtime == Some(rt) && c.generation == seen ==>
        |c.kinds| == FAST_KINDS && c.kinds[kind] == Answer(past, rt, kind)
    case Copied(_, _, answer) => answer == Answer(past, rt, kind)
    case Found(_, _, answer) => answer == Answer(past, rt, kind)
    case _ => true
  }

  lemma {:induction false} KnownSince(ss: seq<State>, es: seq<Event>, t: Tid, rt: Runtime, kind: nat, a: nat, b: nat) returns (k: nat)
    requires Trace(ss, es) && a <= b < |ss|
    requires Serving(ss[a], t, rt, kind) && ss[a].threads[t].pc.Entered?
    requires forall i :: a <= i <= b ==> Serving(ss[i], t, rt, kind)
    ensures a <= k <= b && Known(ss[b], t, ss[k], rt, kind)
  {
    hide Step, Inv, Known, Serving;
    assert Serving(ss[b], t, rt, kind);
    k := b;
    if a == b {
      EnteredKnows(ss[b], t, ss[b], rt, kind);
    } else {
      assert Serving(ss[b - 1], t, rt, kind);
      var before := KnownSince(ss, es, t, rt, kind, a, b - 1);
      TraceKeeps(ss, es, b - 1);
      TraceKeeps(ss, es, b);
      k := NextKnown(ss, es, t, rt, kind, b - 1, before);
    }
  }

  /** One step of the run: whoever moves, the instant is the old one or the new state itself. */
  lemma NextKnown(ss: seq<State>, es: seq<Event>, t: Tid, rt: Runtime, kind: nat, i: nat, before: nat) returns (k: nat)
    requires Trace(ss, es) && before <= i < |es| && Inv(ss[i]) && Inv(ss[i + 1])
    requires Serving(ss[i], t, rt, kind) && Serving(ss[i + 1], t, rt, kind)
    requires Known(ss[i], t, ss[before], rt, kind)
    ensures (k == before || k == i + 1) && Known(ss[i + 1], t, ss[k], rt, kind)
  {
    hide Answer, Fresh, First;
    var s, e := ss[i], es[i];
    if e.tid != t {
      OthersLeave(s, e);
      return before;
    }
    match s.threads[t].pc
    case Entered(_) => ReadNow(ss[i + 1], t, rt, kind); return i + 1;
    case Copying(_, _, _) => return i + 1;
    case _ => return before;
  }

  lemma EnteredKnows(s: State, t: Tid, past: State, rt: Runtime, kind: nat)
    requires Serving(s, t, rt, kind) && s.threads[t].pc.Entered?
    ensures Known(s, t, past, rt, kind)
  {
  }

  lemma ReadNow(s: State, t: Tid, rt: Runtime, kind: nat)
    requires Inv(s) && t < |s.threads| && s.threads[t].pc == Read(rt, kind, s.generation)
    ensures Known(s, t, s, rt, kind)
  {
  }

  /** Every lookup, whether it hits its thread's cache or takes the mutex, answers what was published
      for the runtime at some instant between its call and its return. */
  lemma LookupsLinearize(ss: seq<State>, es: seq<Event>, t: Tid, rt: Runtime, kind: nat, a: nat, b: nat)
    requires Trace(ss, es) && a <= b < |ss|
    requires Serving(ss[a], t, rt, kind) && ss[a].threads[t].pc.Entered?
    requires forall i :: a <= i <= b ==> Serving(ss[i], t, rt, kind)
    requires Serving(ss[b], t, rt, kind) && ss[b].threads[t].pc.Found?
    ensures exists k :: a <= k <= b && ss[b].threads[t].pc.answer == Answer(ss[k], rt, kind)
  {
    var k := KnownSince(ss, es, t, rt, kind, a, b);
  }

  // ----- What a cache remembers

  /** Thread t has read the generation of state a, and its lookup has not copied yet. */
  predicate Carries(s: State, t: Tid, past: State, rt: Runtime, kind: nat) {
    t < |s.threads| && s.threads[t].pc in {Read(rt, kind, past.generation), Missed(rt, kind, past.generation), Copying(rt, kind, past.generation)}
  }

  predicate Missing(s: State, t: Tid) {
    t < |s.threads| && (s.threads[t].pc.Read? || s.threads[t].pc.Missed? || s.threads[t].pc.Copying?)
  }

  /** From its first step on, a lookup carries the generation it began with. */
  lemma {:induction false} CarriesOn(ss: seq<State>, es: seq<Event>, t: Tid, rt: Runtime, kind: nat, a: nat, b: nat)
    requires Trace(ss, es) && a < b < |ss| && Serving(ss[a], t, rt, kind) && ss[a].threads[t].pc.Entered? && es[a].tid == t
    requires forall i :: a < i <= b ==> Missing(ss[i], t)
    ensures Carries(ss[b], t, ss[a], rt, kind)
    decreases b
  {
    if b > a + 1 {
      CarriesOn(ss, es, t, rt, kind, a, b - 1);
      if es[b - 1].tid != t {
        OthersLeave(ss[b - 1], es[b - 1]);
      }
    }
  }

  /** The cache a missing lookup fills is marked with the generation the lookup began with: whatever was
      published meanwhile, it is in step afterwards only if the generation has not moved since. */
  lemma FillRemembers(ss: seq<State>, es: seq<Event>, t: Tid, rt: Runtime, kind: nat, a: nat, b: nat)
    requires Trace(ss, es) && a < b < |es| && Serving(ss[a], t, rt, kind) && ss[a].threads[t].pc.Entered? && es[a].tid == es[b].tid == t
    requires forall i :: a < i <= b ==> Missing(ss[i], t)
    requires Missing(ss[b], t) && ss[b].threads[t].pc.Copying? && rt in ss[b].registries && kind < FAST_KINDS
    ensures t < |ss[b + 1].threads|
    ensures var c := ss[b + 1].threads[t].tls;
            && c.runtime == Some(rt) && c.generation == ss[a].generation
            && (InStep(ss[b + 1], c) <==> ss[b].generation == ss[a].generation)
  {
    hide Table, First;
    CarriesOn(ss, es, t, rt, kind, a, b);
  }

  /** A thread that has shut a runtime down holds no cache of it, and nobody's cache is in step. */
  lemma ShutdownForgets(ss: seq<State>, es: seq<Event>, t: Tid, rt: Runtime, a: nat, b: nat)
    requires Trace(ss, es) && a < b < |es| && t < |ss[a].threads| && ss[a].threads[t].pc.Erased? && ss[a].threads[t].pc.rt == rt
    requires es[a].tid == es[b].tid == t && forall i :: a < i < b ==> es[i].tid != t
    ensures ss[b + 1].owner == None && |ss[b + 1].threads| == |ss[a + 1].threads| == |ss[a].threads|
    ensures ss[b + 1].threads[t].tls.runtime != Some(rt)
    ensures NoneInStep(ss[a + 1])
  {
    TraceKeeps(ss, es, a);
    OthersLeave(ss[a], es[a]);
    StaysBumped(ss, es, t, rt, a + 1, b);
    OthersLeave(ss[b], es[b]);
  }

  lemma {:induction false} StaysBumped(ss: seq<State>, es: seq<Event>, t: Tid, rt: Runtime, a: nat, b: nat)
    requires Trace(ss, es) && a <= b < |ss| && t < |ss[a].threads| && ss[a].threads[t].pc == Bumped(rt, true)
    requires forall i :: a <= i < b ==> es[i].tid != t
    ensures |ss[b].threads| == |ss[a].threads| && ss[b].threads[t] == ss[a].threads[t]
    decreases b
  {
    if a < b {
      StaysBumped(ss, es, t, rt, a, b - 1);
      OthersLeave(ss[b - 1], es[b - 1]);
    }
  }
}
