/**
 The wake set of one waiting task. A producer's wake is three steps: it queues the handle, it increments the signal, it
 issues a futex wake. The waiter's wait is: a futex wait for a signal of zero, taking handles off the queue, and storing
 the queue's length in the signal; the last two under the queue's lock, which the increment does not take. Any task may
 time out, be terminated or change its run state otherwise at any time.
 */
module WakeSet {
  import opened Collections
  import opened Futex

  datatype Phase = Idle | InWait | Taking

  /** `pushed` and `incremented` are the producers between their first and second, and second and third step. */
  datatype State = State(waiter: nat, addr: nat, signal: nat, queue: seq<nat>, pushed: set<nat>, incremented: set<nat>,
                         phase: Phase, futex: Futexes, history: seq<nat>, returned: seq<nat>)

  datatype Event =
    | Push(producer: nat, handle: nat)
    | Increment(producer: nat)
    | IssueWake(producer: nat)
    | StartWait(timeout: Option<nat>)
    | Take(capacity: nat)
    | StoreSignal
    | Tick(task: nat, ms: nat)
    | OtherWait(task: nat, address: nat, timeout: Option<nat>)
    | OtherWake(address: nat, count: nat)
    | Change(task: nat, state: Option<RunState>)

  predicate WaiterRuns(s: State) {
    s.waiter in s.futex.tasks && s.futex.tasks[s.waiter] == Running
  }

  /** Whether the event can happen: the queue's lock, the place of each producer, and who is running. */
  predicate Enabled(s: State, e: Event) {
    match e
    case Push(p, _) => s.phase != Taking && p !in s.pushed && p !in s.incremented
    case Increment(p) => p in s.pushed
    case IssueWake(p) => p in s.incremented
    case StartWait(_) => s.phase == Idle && WaiterRuns(s)
    case Take(_) => s.phase == InWait && WaiterRuns(s)
    case StoreSignal => s.phase == Taking
    case Tick(t, _) => t in s.futex.tasks
    case OtherWait(t, a, _) =>
      a != s.addr && t in s.futex.tasks && s.futex.tasks[t] == Running && (t == s.waiter ==> s.phase == Idle)
    case OtherWake(a, _) => a != s.addr
    case Change(t, state) => state.Some? ==> !state.value.FutexBlocked()
  }

  function Taken(s: State, capacity: nat): nat {
    Min(capacity, |s.queue|)
  }

  function Next(s: State, e: Event): State {
    if !Enabled(s, e) then s else
    match e
    case Push(p, h) => s.(queue := s.queue + [h], pushed := s.pushed + {p}, history := s.history + [h])
    case Increment(p) => s.(signal := s.signal + 1, pushed := s.pushed - {p}, incremented := s.incremented + {p})
    case IssueWake(p) => s.(incremented := s.incremented - {p}, futex := Woken(s.futex, s.addr, 1))
    case StartWait(timeout) =>
      s.(phase := InWait, futex := if s.signal == 0 then Waiting(s.futex, s.waiter, s.addr, timeout) else s.futex)
    case Take(n) =>
      s.(phase := Taking, queue := s.queue[Taken(s, n)..], returned := s.returned + s.queue[..Taken(s, n)])
    case StoreSignal => s.(phase := Idle, signal := |s.queue|)
    case Tick(t, ms) => s.(futex := Ticked(s.futex, t, ms))
    case OtherWait(t, a, timeout) => s.(futex := Waiting(s.futex, t, a, timeout))
    case OtherWake(a, n) => s.(futex := Woken(s.futex, a, n))
    case Change(t, state) => s.(futex := Changed(s.futex, t, state))
  }

  /** The waiter is blocked inside a wait on this set. */
  ghost predicate BlockedHere(s: State) {
    s.phase == InWait && s.waiter in s.futex.tasks && s.futex.tasks[s.waiter].FutexBlocked()
  }

  ghost predicate OnlyWaiter(f: Futexes, a: nat, waiter: nat) {
    forall i | 0 <= i < |Entries(f, a)| :: Entries(f, a)[i] == waiter
  }

  ghost predicate Inv(s: State) {
    && Listed(s.futex) && OnlyWaiter(s.futex, s.addr, s.waiter) && s.pushed !! s.incremented
    && s.signal + |s.pushed| >= |s.queue|
    && s.returned + s.queue == s.history
    && (BlockedHere(s) ==> s.waiter in s.futex.waitsOn && s.futex.waitsOn[s.waiter] == s.addr)
    && (BlockedHere(s) ==> s.signal == 0 || s.incremented != {})
  }

  /** The producer's futex wake reaches a blocked waiter. */
  lemma WakeReaches(s: State)
    requires Inv(s) && BlockedHere(s)
    ensures s.waiter in Woken(s.futex, s.addr, 1).tasks && !Woken(s.futex, s.addr, 1).tasks[s.waiter].FutexBlocked()
  {
    var es := Entries(s.futex, s.addr);
    assert s.waiter in es;
    assert es[0] == s.waiter && es[..1] == [es[0]];
    WokenIff(s.futex, s.addr, 1, s.waiter);
  }

  lemma ProducerStep(s: State, e: Event)
    requires Inv(s) && (e.Push? || e.Increment? || e.IssueWake?)
    ensures Inv(Next(s, e))
  {
    var t := Next(s, e);
    match e
    case Push(p, h) =>
      assert s.returned + (s.queue + [h]) == s.returned + s.queue + [h];
    case Increment(p) =>
    case IssueWake(p) =>
      if Enabled(s, e) {
        WokenListed(s.futex, s.addr, 1);
        OnlyAfterWake(s.futex, s.addr, s.waiter, s.addr, 1);
        if BlockedHere(s) {
          WakeReaches(s);
        }
      }
  }

  lemma OnlyAfterWake(f: Futexes, a: nat, waiter: nat, b: nat, count: nat)
    requires OnlyWaiter(f, a, waiter)
    ensures OnlyWaiter(Woken(f, b, count), a, waiter)
  {
    var s, k := Entries(f, b), Popped(f, b, count);
    assert a == b ==> Entries(Woken(f, b, count), a) == s[k..];
    assert a != b ==> Entries(Woken(f, b, count), a) == Entries(f, a);
  }

  lemma WaiterStep(s: State, e: Event)
    requires Inv(s) && (e.StartWait? || e.Take? || e.StoreSignal?)
    ensures Inv(Next(s, e))
  {
    match e
    case StartWait(timeout) =>
      WaitingListed(s.futex, s.waiter, s.addr, timeout);
    case Take(n) =>
      var k := Taken(s, n);
      assert s.queue == s.queue[..k] + s.queue[k..];
    case StoreSignal =>
  }

  lemma OtherStep(s: State, e: Event)
    requires Inv(s) && (e.Tick? || e.OtherWait? || e.OtherWake? || e.Change?)
    ensures Inv(Next(s, e))
  {
    if Enabled(s, e) {
      match e
      case Tick(t, ms) =>
        TickedListed(s.futex, t, ms);
        assert Entries(Ticked(s.futex, t, ms), s.addr) == Entries(s.futex, s.addr);
      case OtherWait(t, a, timeout) =>
        WaitingListed(s.futex, t, a, timeout);
        assert Entries(Waiting(s.futex, t, a, timeout), s.addr) == Entries(s.futex, s.addr);
      case OtherWake(a, n) =>
        WokenListed(s.futex, a, n);
        OnlyAfterWake(s.futex, s.addr, s.waiter, a, n);
      case Change(t, state) =>
        ChangedListed(s.futex, t, state);
        assert Entries(Changed(s.futex, t, state), s.addr) == Entries(s.futex, s.addr);
    }
  }

  lemma AnyStep(s: State, e: Event)
    requires Inv(s)
    ensures Inv(Next(s, e))
  {
    match e
    case Push(_, _) => ProducerStep(s, e);
    case Increment(_) => ProducerStep(s, e);
    case IssueWake(_) => ProducerStep(s, e);
    case StartWait(_) => WaiterStep(s, e);
    case Take(_) => WaiterStep(s, e);
    case StoreSignal => WaiterStep(s, e);
    case Tick(_, _) => OtherStep(s, e);
    case OtherWait(_, _, _) => OtherStep(s, e);
    case OtherWake(_, _) => OtherStep(s, e);
    case Change(_, _) => OtherStep(s, e);
  }

  function Init(waiter: nat, addr: nat, futex: Futexes): State {
    State(waiter, addr, 0, [], {}, {}, Idle, futex, [], [])
  }

  function After(s: State, es: seq<Event>): State {
    if es == [] then s else Next(After(s, es[..|es| - 1]), es[|es| - 1])
  }

  lemma {:induction false} AfterKeeps(s: State, es: seq<Event>)
    requires Inv(s)
    ensures Inv(After(s, es)) && After(s, es).waiter == s.waiter && After(s, es).addr == s.addr
  {
    if es != [] {
      AfterKeeps(s, es[..|es| - 1]);
      AnyStep(After(s, es[..|es| - 1]), es[|es| - 1]);
    }
  }

  /**
   In every run, the handles returned are the handles queued, once each and in order, up to those still in the queue;
   and while the waiter is blocked with handles in the queue, some producer has yet to issue its futex wake.
   */
  lemma EveryRun(waiter: nat, addr: nat, futex: Futexes, es: seq<Event>)
    requires Listed(futex) && Entries(futex, addr) == []
    ensures var s := After(Init(waiter, addr, futex), es);
            && s.returned + s.queue == s.history
            && (BlockedHere(s) && s.queue != [] ==> s.pushed != {} || s.incremented != {})
            && Listed(s.futex)
  {
    AfterKeeps(Init(waiter, addr, futex), es);
  }

  lemma AfterMore(s: State, es: seq<Event>, e: Event)
    ensures After(s, es + [e]) == Next(After(s, es), e)
  {
    assert (es + [e])[..|es|] == es;
  }

  lemma {:induction false} HistoryGrows(s: State, es: seq<Event>)
    ensures s.history <= After(s, es).history
  {
    if es != [] {
      HistoryGrows(s, es[..|es| - 1]);
    }
  }

  /**
   From its first step on, whatever happens then, the handle of a wake is in its place among those returned and those
   still queued.
   */
  lemma HandleNeverLost(s: State, p: nat, handle: nat, es: seq<Event>)
    requires Inv(s) && Enabled(s, Push(p, handle))
    ensures var t := After(Next(s, Push(p, handle)), es);
            var n := |s.returned| + |s.queue|;
            n < |t.returned| + |t.queue| && (t.returned + t.queue)[n] == handle
  {
    var t := Next(s, Push(p, handle));
    AnyStep(s, Push(p, handle));
    AfterKeeps(t, es);
    HistoryGrows(t, es);
    assert |s.returned + s.queue| == |s.history| && t.history[|s.history|] == handle;
  }

  /** A wait hands out the oldest handles, as many as there are and as it has room for, and no other step any. */
  lemma TakesTheOldest(s: State, e: Event)
    requires Inv(s)
    ensures var t := Next(s, e);
            if e.Take? && Enabled(s, e) then
              && (|t.returned| == |s.returned| + e.capacity <= |s.history| || t.returned == s.history)
              && |t.returned| <= |s.returned| + e.capacity && s.returned <= t.returned <= s.history == t.history
            else t.returned == s.returned
  {
    if e.Take? && Enabled(s, e) {
      var k := Taken(s, e.capacity);
      assert s.queue == s.queue[..k] + s.queue[k..];
    }
  }

  /**
   With a handle queued whose wake has got to its second step, a wait does not block: it hands out the first of the
   queue and leaves the signal at the number of those left.
   */
  lemma WaitReturns(s: State, timeout: Option<nat>, n: nat)
    requires Inv(s) && s.phase == Idle && WaiterRuns(s) && |s.pushed| < |s.queue|
    ensures var t := After(s, [StartWait(timeout), Take(n), StoreSignal]);
            var k := if n < |s.queue| then n else |s.queue|;
            && t.phase == Idle && t.futex == s.futex && t.signal == |t.queue| == |s.queue| - k
            && t.returned == s.returned + s.queue[..k] && t.queue == s.queue[k..]
  {
    hide Inv, Waiting, After;
    assert s.signal > 0 by { QueuedIsSignalled(s); }
    var a, b := StartWait(timeout), Take(n);
    AfterThree(s, a, b, StoreSignal);
    assert Next(s, a) == s.(phase := InWait);
    WaitTakes(Next(s, a), n);
  }

  lemma QueuedIsSignalled(s: State)
    requires Inv(s) && |s.pushed| < |s.queue|
    ensures s.signal > 0
  {
  }

  lemma WaitTakes(s: State, n: nat)
    requires Enabled(s, Take(n))
    ensures var t := Next(Next(s, Take(n)), StoreSignal);
            var k := if n < |s.queue| then n else |s.queue|;
            t == s.(phase := Idle, signal := |s.queue| - k, queue := s.queue[k..],
                    returned := s.returned + s.queue[..k])
  {
  }

  lemma AfterThree(s: State, a: Event, b: Event, c: Event)
    ensures After(s, [a, b, c]) == Next(Next(Next(s, a), b), c)
  {
    hide Next;
    AfterMore(s, [], a);
    AfterMore(s, [a], b);
    AfterMore(s, [a, b], c);
    assert [] + [a] == [a] && [a] + [b] == [a, b] && [a, b] + [c] == [a, b, c];
  }

  /** By how much the signal and the wakes still to be counted in exceed the queue: a wait is all that changes it. */
  function Excess(s: State): int {
    s.signal + |s.pushed| - |s.queue|
  }

  lemma ExcessKept(s: State, e: Event)
    requires s.pushed !! s.incremented
    ensures !e.Take? && !e.StoreSignal? ==> Excess(Next(s, e)) == Excess(s)
    ensures e.StoreSignal? && Enabled(s, e) ==> Excess(Next(s, e)) == |s.pushed|
  {
    hide Woken, Waiting, Ticked, Changed;
  }

  /**
   After a wait that no wake is in the middle of, and any steps but of another wait: once no wake is between its first
   two steps the signal is the length of the queue, so that the next wait blocks exactly when nothing is queued.
   */
  lemma {:induction false} SignalIsExact(s: State, es: seq<Event>)
    requires Inv(s) && Enabled(s, StoreSignal) && s.pushed == {}
    requires forall i | 0 <= i < |es| :: !es[i].Take? && !es[i].StoreSignal?
    ensures var t := After(Next(s, StoreSignal), es);
            && t.signal + |t.pushed| == |t.queue|
            && (t.pushed == {} && Enabled(t, StartWait(None)) ==>
                  (BlockedHere(Next(t, StartWait(None))) <==> t.queue == []))
  {
    hide Inv, Next, Enabled;
    var n := Next(s, StoreSignal);
    AnyStep(s, StoreSignal);
    if es == [] {
      assert s.pushed !! s.incremented by { Separate(s); }
      ExcessKept(s, StoreSignal);
    } else {
      var init := es[..|es| - 1];
      SignalIsExact(s, init);
      AfterKeeps(n, init);
      var m := After(n, init);
      assert m.pushed !! m.incremented by { Separate(m); }
      ExcessKept(m, es[|es| - 1]);
    }
    BlocksIffZero(After(n, es));
  }

  lemma Separate(s: State)
    requires Inv(s)
    ensures s.pushed !! s.incremented
  {
  }

  lemma BlocksIffZero(s: State)
    ensures Enabled(s, StartWait(None)) ==> (BlockedHere(Next(s, StartWait(None))) <==> s.signal == 0)
  {
  }

  lemma IssuingWakes(s: State, p: nat)
    requires Inv(s) && BlockedHere(s) && p in s.incremented
    ensures WaiterRuns(Next(s, IssueWake(p))) && Next(s, IssueWake(p)).queue == s.queue
  {
    WakeReaches(s);
  }

  /** That producer, by just finishing its call, gets the waiter running. */
  lemma FinishingWakes(s: State) returns (p: nat, es: seq<Event>)
    requires Inv(s) && BlockedHere(s) && s.queue != []
    ensures p in s.pushed + s.incremented
    ensures es == (if p in s.pushed then [Increment(p), IssueWake(p)] else [IssueWake(p)])
    ensures WaiterRuns(After(s, es)) && After(s, es).queue == s.queue
  {
    if s.incremented != {} {
      p :| p in s.incremented;
      es := [IssueWake(p)];
      IssuingWakes(s, p);
      hide WaiterRuns;
      assert es[..0] == [] && After(s, es[..0]) == s;
    } else {
      p :| p in s.pushed;
      es := [Increment(p), IssueWake(p)];
      AnyStep(s, Increment(p));
      IssuingWakes(Next(s, Increment(p)), p);
      hide WaiterRuns;
      assert es[..1] == [Increment(p)] && es[..1][..0] == [];
      assert After(s, es[..1]) == Next(s, Increment(p));
    }
  }

  /** The handles of one batched wait, popped one at a time. */
  method PopBatch(queue: seq<nat>, buffer: array<nat>) returns (count: nat, rest: seq<nat>)
    modifies buffer
    ensures count == Min(buffer.Length, |queue|)
    ensures buffer[..count] == queue[..count] && rest == queue[count..]
  {
    count := if |queue| < buffer.Length then |queue| else buffer.Length;
    rest := queue;
    for i := 0 to count
      invariant rest == queue[i..] && buffer[..i] == queue[..i]
    {
      buffer[i] := rest[0];
      rest := rest[1..];
    }
  }
}
