/**
 Futexes: a task that finds the expected value blocks on the watch list of an address until a wake or its timeout.
 A wait tests the value, joins the list and blocks as one step. Only a wake takes entries off: a wait that ends by a
 timeout, or because the task is terminated, leaves the task's entry on the list.
 */
module Futex {
  import opened Collections

  datatype BlockType = Sleep | OnFutex | FileMapping

  datatype RunState =
    | Uninitialized
    | Initialized
    | Running
    | Terminated
    | Blocked(timeout: Option<nat>, block: BlockType)
  {
    predicate FutexBlocked() {
      Blocked? && block == OnFutex
    }

    function FutexWoken(): RunState {
      if FutexBlocked() then Running else this
    }

    function AfterTick(ms: nat): RunState {
      if Blocked? && timeout.Some? then
        if timeout.value <= ms then Running else Blocked(Some(timeout.value - ms), block)
      else
        this
    }
  }

  /** The watch list, the run states, and (for the record) the address each task last waited on. */
  datatype Futexes = Futexes(watch: map<nat, seq<nat>>, tasks: map<nat, RunState>, waitsOn: map<nat, nat>)

  function Entries(f: Futexes, a: nat): seq<nat> {
    if a in f.watch then f.watch[a] else []
  }

  function WithEntries(watch: map<nat, seq<nat>>, a: nat, s: seq<nat>): map<nat, seq<nat>> {
    if s == [] then watch - {a} else watch[a := s]
  }

  function Waiting(f: Futexes, task: nat, a: nat, timeout: Option<nat>): Futexes {
    Futexes(f.watch[a := Entries(f, a) + [task]], f.tasks[task := Blocked(timeout, OnFutex)], f.waitsOn[task := a])
  }

  function WakeAll(tasks: map<nat, RunState>, ids: seq<nat>): map<nat, RunState> {
    map t | t in tasks :: if t in ids then tasks[t].FutexWoken() else tasks[t]
  }

  function Popped(f: Futexes, a: nat, count: nat): nat {
    Min(count, |Entries(f, a)|)
  }

  /** The first `count` entries leave the list and their tasks run. */
  function Woken(f: Futexes, a: nat, count: nat): Futexes {
    var s, k := Entries(f, a), Popped(f, a, count);
    Futexes(WithEntries(f.watch, a, s[k..]), WakeAll(f.tasks, s[..k]), f.waitsOn)
  }

  function Ticked(f: Futexes, task: nat, ms: nat): Futexes
    requires task in f.tasks
  {
    f.(tasks := f.tasks[task := f.tasks[task].AfterTick(ms)])
  }

  /**
   Any other change of a task: it is created, starts, sleeps, waits for a file mapping or goes on, is terminated, or
   (None) leaves the task map. The lists are not looked at.
   */
  function Changed(f: Futexes, task: nat, state: Option<RunState>): Futexes {
    f.(tasks := if state.None? then f.tasks - {task} else f.tasks[task := state.value])
  }

  /** No list is empty, and every task blocked on a futex is on the list of the address it waits on. */
  ghost predicate Listed(f: Futexes) {
    && (forall a | a in f.watch :: f.watch[a] != [])
    && forall t | t in f.tasks && f.tasks[t].FutexBlocked() :: t in f.waitsOn && t in Entries(f, f.waitsOn[t])
  }

  lemma WaitingListed(f: Futexes, task: nat, a: nat, timeout: Option<nat>)
    requires Listed(f)
    ensures Listed(Waiting(f, task, a, timeout))
  {
    var g := Waiting(f, task, a, timeout);
    assert Entries(g, a)[|Entries(f, a)|] == task;
    forall t | t in g.tasks && g.tasks[t].FutexBlocked()
      ensures t in g.waitsOn && t in Entries(g, g.waitsOn[t])
    {
      if t != task {
        assert t in Entries(f, f.waitsOn[t]);
      }
    }
  }

  lemma WokenIff(f: Futexes, a: nat, count: nat, t: nat)
    requires t in f.tasks && f.tasks[t].FutexBlocked()
    ensures t in Woken(f, a, count).tasks
    ensures !Woken(f, a, count).tasks[t].FutexBlocked() <==> t in Entries(f, a)[..Popped(f, a, count)]
  {
  }

  lemma WokenListed(f: Futexes, a: nat, count: nat)
    requires Listed(f)
    ensures Listed(Woken(f, a, count))
  {
    var g := Woken(f, a, count);
    var s, k := Entries(f, a), Popped(f, a, count);
    forall t | t in g.tasks && g.tasks[t].FutexBlocked()
      ensures t in g.waitsOn && t in Entries(g, g.waitsOn[t])
    {
      WokenIff(f, a, count, t);
      assert t in Entries(f, f.waitsOn[t]);
      if f.waitsOn[t] == a {
        assert s == s[..k] + s[k..];
        assert t in s[k..];
      }
    }
  }

  lemma TickedListed(f: Futexes, task: nat, ms: nat)
    requires Listed(f) && task in f.tasks
    ensures Listed(Ticked(f, task, ms))
  {
    var g := Ticked(f, task, ms);
    assert forall a :: Entries(g, a) == Entries(f, a);
  }

  lemma ChangedListed(f: Futexes, task: nat, state: Option<RunState>)
    requires Listed(f) && (state.Some? ==> !state.value.FutexBlocked())
    ensures Listed(Changed(f, task, state))
  {
    var g := Changed(f, task, state);
    assert forall a :: Entries(g, a) == Entries(f, a);
  }

  /** A wake for as many tasks as the list has leaves nobody blocked on the address. */
  lemma WakeEverybody(f: Futexes, a: nat, count: nat, t: nat)
    requires Listed(f) && count >= |Entries(f, a)| && t in f.tasks && t in f.waitsOn && f.waitsOn[t] == a
    ensures !Woken(f, a, count).tasks[t].FutexBlocked()
  {
    if f.tasks[t].FutexBlocked() {
      WokenIff(f, a, count, t);
      var s := Entries(f, a);
      assert s[..|s|] == s;
    }
  }

  // ---- what a wake is for ----

  ghost function BlockedOn(f: Futexes, a: nat): set<nat> {
    set t | t in f.tasks && f.tasks[t].FutexBlocked() && t in f.waitsOn && f.waitsOn[t] == a
  }

  ghost function Resumed(f: Futexes, a: nat, count: nat): set<nat> {
    set t | t in f.tasks && f.tasks[t].FutexBlocked() && !Woken(f, a, count).tasks[t].FutexBlocked()
  }

  /** The wake resumes tasks that wait on its address only, as many as asked for or as there are. */
  ghost predicate WakesRight(f: Futexes, a: nat, count: nat) {
    Resumed(f, a, count) <= BlockedOn(f, a) && |Resumed(f, a, count)| == Min(count, |BlockedOn(f, a)|)
  }

  /** No entry among `es` is of a task that is blocked on another address. */
  ghost predicate NoStray(f: Futexes, a: nat, es: seq<nat>) {
    forall t | t in es && t in f.tasks && f.tasks[t].FutexBlocked() :: t in BlockedOn(f, a)
  }

  lemma ResumedAre(f: Futexes, a: nat, count: nat)
    requires Listed(f)
    ensures var es := Elements(Entries(f, a)[..Popped(f, a, count)]);
            && (Resumed(f, a, count) <= BlockedOn(f, a) <==> NoStray(f, a, Entries(f, a)[..Popped(f, a, count)]))
            && (Resumed(f, a, count) <= BlockedOn(f, a) ==> Resumed(f, a, count) == BlockedOn(f, a) * es)
  {
    var es := Entries(f, a)[..Popped(f, a, count)];
    forall t
      ensures t in Resumed(f, a, count) <==> t in f.tasks && f.tasks[t].FutexBlocked() && t in es
    {
      if t in f.tasks && f.tasks[t].FutexBlocked() {
        WokenIff(f, a, count, t);
      }
    }
    hide Woken, Listed, Entries, Popped;
  }

  lemma BlockedAreListed(f: Futexes, a: nat)
    requires Listed(f)
    ensures BlockedOn(f, a) <= Elements(Entries(f, a))
  {
  }

  /**
   A wake does its job exactly when the entries it takes off hold no task blocked elsewhere, and either are all tasks
   blocked on the address, each once, or include every such task.
   */
  lemma WakeIsExact(f: Futexes, a: nat, count: nat)
    requires Listed(f)
    ensures var es := Entries(f, a)[..Popped(f, a, count)];
            WakesRight(f, a, count) <==>
            && NoStray(f, a, es)
            && ((NoDuplicates(es) && Elements(es) <= BlockedOn(f, a)) || BlockedOn(f, a) <= Elements(es))
  {
    var all, k := Entries(f, a), Popped(f, a, count);
    var es, blocked := all[..k], BlockedOn(f, a);
    ResumedAre(f, a, count);
    BlockedAreListed(f, a);
    ElementsSize(es);
    assert k == |all| ==> es == all;
    hide Listed, Entries, BlockedOn, Resumed, NoStray, Popped, NoDuplicates;
    if NoStray(f, a, es) {
      Overlap(es, blocked, all, count, k);
    }
  }

  /** How many of `blocked` are among the first `k` entries. */
  lemma Overlap(es: seq<nat>, blocked: set<nat>, all: seq<nat>, count: nat, k: nat)
    requires k == Min(count, |all|) && es == all[..k] && blocked <= Elements(all)
    ensures |blocked * Elements(es)| == Min(count, |blocked|) <==>
            (NoDuplicates(es) && Elements(es) <= blocked) || blocked <= Elements(es)
  {
    ElementsSize(es);
    SubsetSize(blocked * Elements(es), blocked);
    SubsetSize(blocked * Elements(es), Elements(es));
    assert k == |all| ==> es == all;
    hide NoDuplicates, Elements;
    if blocked <= Elements(es) {
      assert blocked * Elements(es) == blocked;
    }
    if Elements(es) <= blocked {
      assert blocked * Elements(es) == Elements(es);
    }
  }

  // ---- when waits end by wakes only ----

  /** Every list holds exactly the tasks blocked on its address, each once. */
  ghost predicate NothingStale(f: Futexes) {
    forall a :: NoDuplicates(Entries(f, a)) && Elements(Entries(f, a)) == BlockedOn(f, a)
  }

  /** Then every wake does its job. */
  lemma FreshWakesRight(f: Futexes, a: nat, count: nat)
    requires Listed(f) && NothingStale(f)
    ensures WakesRight(f, a, count)
  {
    var all, es := Entries(f, a), Entries(f, a)[..Popped(f, a, count)];
    assert forall i | 0 <= i < |es| :: es[i] == all[i] && es[i] in Elements(all);
    WakeIsExact(f, a, count);
  }

  lemma WaitingFresh(f: Futexes, task: nat, a: nat, timeout: Option<nat>)
    requires NothingStale(f) && (task in f.tasks ==> !f.tasks[task].FutexBlocked())
    ensures NothingStale(Waiting(f, task, a, timeout))
  {
    var g := Waiting(f, task, a, timeout);
    forall b
      ensures NoDuplicates(Entries(g, b)) && Elements(Entries(g, b)) == BlockedOn(g, b)
    {
      assert NoDuplicates(Entries(f, b)) && Elements(Entries(f, b)) == BlockedOn(f, b);
      if b == a {
        assert task !in Elements(Entries(f, a));
        assert Elements(Entries(g, a)) == Elements(Entries(f, a)) + {task};
        assert BlockedOn(g, a) == BlockedOn(f, a) + {task};
      } else {
        assert BlockedOn(g, b) == BlockedOn(f, b);
      }
    }
  }

  lemma WokenFresh(f: Futexes, a: nat, count: nat)
    requires NothingStale(f)
    ensures NothingStale(Woken(f, a, count))
  {
    var g, s, k := Woken(f, a, count), Entries(f, a), Popped(f, a, count);
    assert s == s[..k] + s[k..] && Elements(s) == BlockedOn(f, a) && NoDuplicates(s);
    forall b
      ensures NoDuplicates(Entries(g, b)) && Elements(Entries(g, b)) == BlockedOn(g, b)
    {
      assert NoDuplicates(Entries(f, b)) && Elements(Entries(f, b)) == BlockedOn(f, b);
      assert Entries(g, b) == if b == a then s[k..] else Entries(f, b);
      forall t
        ensures t in Elements(Entries(g, b)) <==> t in BlockedOn(g, b)
      {
        assert t in s[..k] ==> t in Elements(s) && t !in s[k..];
        assert t in s <==> t in s[..k] || t in s[k..];
        assert t in Elements(Entries(f, b)) <==> t in BlockedOn(f, b);
      }
    }
  }

  lemma TickedFresh(f: Futexes, task: nat, ms: nat)
    requires NothingStale(f) && task in f.tasks && !EndsEarly(f, Pass(task, ms))
    ensures NothingStale(Ticked(f, task, ms))
  {
    SameBlocked(f, Ticked(f, task, ms));
  }

  lemma ChangedFresh(f: Futexes, task: nat, state: Option<RunState>)
    requires NothingStale(f) && (state.Some? ==> !state.value.FutexBlocked()) && !EndsEarly(f, Become(task, state))
    ensures NothingStale(Changed(f, task, state))
  {
    SameBlocked(f, Changed(f, task, state));
  }

  lemma SameBlocked(f: Futexes, g: Futexes)
    requires NothingStale(f) && g.watch == f.watch && g.waitsOn == f.waitsOn
    requires forall t :: t in f.tasks && f.tasks[t].FutexBlocked() <==> t in g.tasks && g.tasks[t].FutexBlocked()
    ensures NothingStale(g)
  {
    forall b
      ensures NoDuplicates(Entries(g, b)) && Elements(Entries(g, b)) == BlockedOn(g, b)
    {
      assert NoDuplicates(Entries(f, b)) && Elements(Entries(f, b)) == BlockedOn(f, b);
      assert BlockedOn(g, b) == BlockedOn(f, b);
    }
  }

  datatype Event =
    | Wait(task: nat, address: nat, timeout: Option<nat>)
    | Wake(address: nat, count: nat)
    | Pass(task: nat, ms: nat)
    | Become(task: nat, state: Option<RunState>)

  /** A running task waits, somebody wakes, time passes for a task, or its run state changes in any other way. */
  function Step(f: Futexes, e: Event): Futexes {
    match e
    case Wait(t, a, timeout) => if t in f.tasks && f.tasks[t] == Running then Waiting(f, t, a, timeout) else f
    case Wake(a, count) => Woken(f, a, count)
    case Pass(t, ms) => if t in f.tasks then Ticked(f, t, ms) else f
    case Become(t, state) => if state.Some? && state.value.FutexBlocked() then f else Changed(f, t, state)
  }

  function RunOf(f: Futexes, es: seq<Event>): Futexes {
    if es == [] then f else Step(RunOf(f, es[..|es| - 1]), es[|es| - 1])
  }

  /** The event ends a task's futex wait and is no wake: the wait times out, or the task is terminated in it. */
  predicate EndsEarly(f: Futexes, e: Event) {
    && (e.Pass? || e.Become?) && e.task in f.tasks && f.tasks[e.task].FutexBlocked()
    && !(e.task in Step(f, e).tasks && Step(f, e).tasks[e.task].FutexBlocked())
  }

  lemma StepFresh(f: Futexes, e: Event)
    requires Listed(f) && NothingStale(f) && !EndsEarly(f, e)
    ensures Listed(Step(f, e)) && NothingStale(Step(f, e))
    ensures e.Wake? ==> WakesRight(f, e.address, e.count)
  {
    hide Listed, NothingStale, WakesRight, Waiting, Woken, Ticked;
    match e
    case Wait(t, a, timeout) =>
      if t in f.tasks && f.tasks[t] == Running {
        WaitingListed(f, t, a, timeout);
        WaitingFresh(f, t, a, timeout);
      }
    case Wake(a, count) =>
      FreshWakesRight(f, a, count);
      WokenListed(f, a, count);
      WokenFresh(f, a, count);
    case Pass(t, ms) =>
      if t in f.tasks {
        TickedListed(f, t, ms);
        TickedFresh(f, t, ms);
      }
    case Become(t, state) =>
      if !(state.Some? && state.value.FutexBlocked()) {
        ChangedListed(f, t, state);
        ChangedFresh(f, t, state);
      }
  }

  /** In every run in which no futex wait ends other than by a wake, every wake does its job. */
  lemma {:induction false} EveryWakeIsRight(f: Futexes, es: seq<Event>)
    requires Listed(f) && NothingStale(f)
    requires forall i | 0 <= i < |es| :: !EndsEarly(RunOf(f, es[..i]), es[i])
    ensures Listed(RunOf(f, es)) && NothingStale(RunOf(f, es))
    ensures forall i | 0 <= i < |es| && es[i].Wake? :: WakesRight(RunOf(f, es[..i]), es[i].address, es[i].count)
  {
    hide Listed, NothingStale, WakesRight, Step, EndsEarly;
    if es != [] {
      var init, e := es[..|es| - 1], es[|es| - 1];
      assert forall i | 0 <= i < |init| :: init[i] == es[i] && init[..i] == es[..i];
      EveryWakeIsRight(f, init);
      StepFresh(RunOf(f, init), e);
      forall i | 0 <= i < |es| && es[i].Wake?
        ensures WakesRight(RunOf(f, es[..i]), es[i].address, es[i].count)
      {
        assert i < |init| ==> init[i] == es[i] && init[..i] == es[..i];
      }
    }
  }

  /** Wakes go by turn: one for `count` tasks reaches the last that came exactly when fewer than `count` came before. */
  lemma LastInLine(f: Futexes, task: nat, a: nat, timeout: Option<nat>, count: nat)
    requires NothingStale(f) && (task in f.tasks ==> !f.tasks[task].FutexBlocked())
    ensures task in Resumed(Waiting(f, task, a, timeout), a, count) <==> |BlockedOn(f, a)| < count
  {
    var g, s := Waiting(f, task, a, timeout), Entries(f, a);
    assert NoDuplicates(s) && Elements(s) == BlockedOn(f, a);
    ElementsSize(s);
    assert task !in s by { assert task !in Elements(s); }
    assert Entries(g, a) == s + [task];
    WokenIff(g, a, count, task);
    if count <= |s| {
      assert (s + [task])[..count] == s[..count];
    } else {
      assert (s + [task])[..|s| + 1][|s|] == task;
    }
  }

  // ---- timeouts ----

  /** How many ticks the task has had, */
  ghost function Ticks(es: seq<Event>, task: nat): nat {
    if es == [] then 0
    else
      var e := es[|es| - 1];
      Ticks(es[..|es| - 1], task) + if e.Pass? && e.task == task then 1 else 0
  }

  /** and what they add up to. */
  ghost function Elapsed(es: seq<Event>, task: nat): (ms: nat)
    ensures Ticks(es, task) == 0 ==> ms == 0
  {
    if es == [] then 0
    else
      var e := es[|es| - 1];
      Elapsed(es[..|es| - 1], task) + if e.Pass? && e.task == task then e.ms else 0
  }

  /** The event is no wake that takes an entry of the task, and no other change of its run state. */
  ghost predicate Spared(f: Futexes, e: Event, task: nat) {
    match e
    case Wait(t, _, _) => t != task
    case Wake(a, count) => task !in Entries(f, a)[..Popped(f, a, count)]
    case Pass(_, _) => true
    case Become(t, _) => t != task
  }

  lemma SparedStep(f: Futexes, e: Event, task: nat)
    requires task in f.tasks && Spared(f, e, task)
    ensures task in Step(f, e).tasks
    ensures Step(f, e).tasks[task] ==
            if e.Pass? && e.task == task then f.tasks[task].AfterTick(e.ms) else f.tasks[task]
  {
    hide Entries, Popped;
  }

  ghost predicate AllSpared(f: Futexes, es: seq<Event>, task: nat) {
    forall i | 0 <= i < |es| :: Spared(RunOf(f, es[..i]), es[i], task)
  }

  lemma SparedSoFar(f: Futexes, es: seq<Event>, task: nat)
    requires es != [] && AllSpared(f, es, task)
    ensures AllSpared(f, es[..|es| - 1], task) && Spared(RunOf(f, es[..|es| - 1]), es[|es| - 1], task)
  {
    hide Spared, RunOf;
    var init := es[..|es| - 1];
    assert forall i | 0 <= i < |init| :: init[i] == es[i] && init[..i] == es[..i];
  }

  /** What a futex wait has come to after some ticks: over with the first that makes them add up to the timeout. */
  ghost function Left(timeout: Option<nat>, es: seq<Event>, task: nat): RunState {
    var ms := Elapsed(es, task);
    if timeout.None? then Blocked(None, OnFutex)
    else if Ticks(es, task) > 0 && timeout.value <= ms then Running
    else Blocked(Some(timeout.value - ms), OnFutex)
  }

  lemma LeftAfter(timeout: Option<nat>, es: seq<Event>, task: nat)
    requires es != []
    ensures var e, before := es[|es| - 1], Left(timeout, es[..|es| - 1], task);
            Left(timeout, es, task) == if e.Pass? && e.task == task then before.AfterTick(e.ms) else before
  {
  }

  /**
   A wait that no wake ends is over with the first tick that makes the ticks since then add up to its timeout; up to
   there the task stays blocked for the rest. Without a timeout it stays blocked.
   */
  lemma {:induction false} TimeoutIsExact(f: Futexes, es: seq<Event>, task: nat, timeout: Option<nat>)
    requires task in f.tasks && f.tasks[task] == Blocked(timeout, OnFutex) && AllSpared(f, es, task)
    ensures task in RunOf(f, es).tasks && RunOf(f, es).tasks[task] == Left(timeout, es, task)
  {
    if es != [] {
      hide Spared, Step, Left, AllSpared;
      var init, e := es[..|es| - 1], es[|es| - 1];
      SparedSoFar(f, es, task);
      TimeoutIsExact(f, init, task, timeout);
      SparedStep(RunOf(f, init), e, task);
      LeftAfter(timeout, es, task);
    }
  }

  /** An entry left by a timeout uses up a wake: task 1 timed out, and the wake does not reach task 2. */
  lemma StaleEntryExample()
    ensures var f0 := Futexes(map[], map[1 := Running, 2 := Running], map[]);
            var f := Step(Step(Step(f0, Wait(1, 0x1000, Some(5))), Wait(2, 0x1000, None)), Pass(1, 5));
            && Listed(f) && BlockedOn(f, 0x1000) == {2} && Resumed(f, 0x1000, 1) == {} && !WakesRight(f, 0x1000, 1)
  {
    var f0 := Futexes(map[], map[1 := Running, 2 := Running], map[]);
    var f1 := Step(Step(f0, Wait(1, 0x1000, Some(5))), Wait(2, 0x1000, None));
    assert f1.watch[0x1000] == [1, 2];
    assert f1.watch == map[0x1000 := [1, 2]] && f1.waitsOn == map[1 := 0x1000, 2 := 0x1000];
    FirstEntryUsedUp(Step(f1, Pass(1, 5)));
  }

  /** So does the entry of a task that is terminated while it waits. */
  lemma EndedEntryExample()
    ensures var f0 := Futexes(map[], map[1 := Running, 2 := Running], map[]);
            var f := Step(Step(Step(f0, Wait(1, 0x1000, None)), Wait(2, 0x1000, None)), Become(1, Some(Terminated)));
            && Listed(f) && BlockedOn(f, 0x1000) == {2} && Resumed(f, 0x1000, 1) == {} && !WakesRight(f, 0x1000, 1)
  {
    var f0 := Futexes(map[], map[1 := Running, 2 := Running], map[]);
    var f1 := Step(Step(f0, Wait(1, 0x1000, None)), Wait(2, 0x1000, None));
    assert f1.watch[0x1000] == [1, 2];
    assert f1.watch == map[0x1000 := [1, 2]] && f1.waitsOn == map[1 := 0x1000, 2 := 0x1000];
    FirstEntryUsedUp(Step(f1, Become(1, Some(Terminated))));
  }

  lemma FirstEntryUsedUp(f: Futexes)
    requires f.watch == map[0x1000 := [1, 2]] && f.tasks.Keys == {1, 2} && f.waitsOn == map[1 := 0x1000, 2 := 0x1000]
    requires !f.tasks[1].FutexBlocked() && f.tasks[2].FutexBlocked()
    ensures Listed(f) && BlockedOn(f, 0x1000) == {2} && Resumed(f, 0x1000, 1) == {} && !WakesRight(f, 0x1000, 1)
  {
    assert Entries(f, 0x1000) == [1, 2] && [1, 2][..1] == [1];
    WokenIff(f, 0x1000, 1, 2);
  }

  /** It also resumes a task that waits elsewhere: task 1 timed out on one address and now waits on another. */
  lemma StrayWakeExample()
    ensures var f0 := Futexes(map[], map[1 := Running], map[]);
            var f := Step(Step(Step(f0, Wait(1, 0x1000, Some(5))), Pass(1, 5)), Wait(1, 0x2000, None));
            && Listed(f) && BlockedOn(f, 0x1000) == {} && Resumed(f, 0x1000, 1) == {1} && !WakesRight(f, 0x1000, 1)
  {
    var f0 := Futexes(map[], map[1 := Running], map[]);
    var f := Step(Step(Step(f0, Wait(1, 0x1000, Some(5))), Pass(1, 5)), Wait(1, 0x2000, None));
    assert Entries(f, 0x1000) == [1] && Entries(f, 0x2000) == [1] && [1][..1] == [1];
    WokenIff(f, 0x1000, 1, 1);
    assert Resumed(f, 0x1000, 1) == {1};
  }

  lemma WakeNone(tasks: map<nat, RunState>)
    ensures WakeAll(tasks, []) == tasks
  {
  }

  lemma WakeOneMore(tasks: map<nat, RunState>, ids: seq<nat>, id: nat)
    ensures var now := WakeAll(tasks, ids);
            WakeAll(tasks, ids + [id]) == if id in now then now[id := now[id].FutexWoken()] else now
  {
  }

  /** The watch list and the tasks' states as the kernel updates them. */
  class FutexTable {
    var watch: map<nat, seq<nat>>
    var tasks: map<nat, RunState>
    ghost var waitsOn: map<nat, nat>

    ghost function State(): Futexes
      reads this
    {
      Futexes(watch, tasks, waitsOn)
    }

    constructor (tasks: map<nat, RunState>)
      requires forall t | t in tasks :: !tasks[t].FutexBlocked()
      ensures Listed(State()) && this.tasks == tasks
    {
      watch, this.tasks, waitsOn := map[], tasks, map[];
    }

    /** Blocks the task if the word still has the expected value and the address is mapped. */
    method FutexWaitInner(task: nat, current: nat, value: nat, address: Option<nat>, timeout: Option<nat>)
      requires Listed(State()) && task in tasks
      modifies this
      ensures Listed(State())
      ensures current == value && address.Some? ==> State() == Waiting(old(State()), task, address.value, timeout)
      ensures current != value || address.None? ==> State() == old(State())
    {
      if current != value {
        return;
      }
      if address.None? {
        return;
      }
      var paddr := address.value;
      WaitingListed(State(), task, paddr, timeout);
      if paddr in watch {
        watch := watch[paddr := watch[paddr] + [task]];
      } else {
        watch := watch[paddr := [] + [task]];
      }
      tasks := tasks[task := Blocked(timeout, OnFutex)];
      waitsOn := waitsOn[task := paddr];
    }

    /** Runs the tasks of the first `count` entries, if they are blocked, and returns the other entries. */
    method WakeFirst(all: seq<nat>, count: nat) returns (entries: seq<nat>, reenqueued: seq<nat>)
      modifies this`tasks
      ensures |entries| <= |all| && |all| - |entries| == (if count < |all| then count else |all|)
      ensures entries == all[|all| - |entries|..]
      ensures tasks == WakeAll(old(tasks), all[..|all| - |entries|])
      ensures forall t ::
                t in reenqueued <==> t in old(tasks) && old(tasks)[t].FutexBlocked() && t in all[..|all| - |entries|]
    {
      entries, reenqueued := all, [];
      WakeNone(tasks);
      var toWake := count;
      ghost var k := 0;
      while toWake > 0 && entries != []
        invariant k <= |all| && entries == all[k..] && 0 <= toWake == count - k
        invariant tasks == WakeAll(old(tasks), all[..k])
        invariant forall t :: t in reenqueued <==> t in old(tasks) && old(tasks)[t].FutexBlocked() && t in all[..k]
      {
        var wakeId := entries[0];
        assert all[..k + 1] == all[..k] + [wakeId];
        WakeOneMore(old(tasks), all[..k], wakeId);
        entries := entries[1..];
        if wakeId in tasks {
          var woken := tasks[wakeId].FutexBlocked();
          tasks := tasks[wakeId := tasks[wakeId].FutexWoken()];
          if woken {
            reenqueued := reenqueued + [wakeId];
          }
        }
        k := k + 1;
        toWake := toWake - 1;
      }
    }

    /** Takes up to `count` entries off the list of the address and runs their tasks if they are blocked. */
    method FutexWakeInner(paddr: nat, count: nat) returns (reenqueued: seq<nat>)
      requires Listed(State())
      modifies this`watch, this`tasks
      ensures Listed(State()) && State() == Woken(old(State()), paddr, count)
      ensures forall t ::
                t in reenqueued <==> t in old(tasks) && old(tasks)[t].FutexBlocked() && !tasks[t].FutexBlocked()
    {
      assert WithEntries(watch, paddr, Entries(State(), paddr)) == watch;
      hide Listed;
      WokenListed(State(), paddr, count);
      if count == 0 || paddr !in watch {
        WakeNone(tasks);
        return [];
      }
      var entries;
      entries, reenqueued := WakeFirst(watch[paddr], count);
      watch := if entries == [] then watch - {paddr} else watch[paddr := entries];
    }

    /** Time passes for one task. */
    method UpdateTimeout(task: nat, ms: nat) returns (resumed: bool)
      requires Listed(State()) && task in tasks
      modifies this`tasks
      ensures Listed(State()) && State() == Ticked(old(State()), task, ms)
      ensures resumed <==> old(tasks)[task].Blocked? && tasks[task] == Running
    {
      TickedListed(State(), task, ms);
      resumed := false;
      match tasks[task] {
        case Blocked(Some(t), block) =>
          if t <= ms {
            tasks := tasks[task := Running];
            resumed := true;
          } else {
            tasks := tasks[task := Blocked(Some(t - ms), block)];
          }
        case _ =>
      }
      assert tasks == old(tasks)[task := old(tasks)[task].AfterTick(ms)];
    }
  }
}
