/**
 The lock-free ring of one producer and one consumer, as interleaved single loads and stores. A slot is torn while the
 producer's store into it is under way. The history variables are the values whose write succeeded and the slots'
 contents handed to the consumer.
 */
module SpscRing {
  import opened Bytes

  datatype Cell<T> = Whole(value: T) | Torn

  /** Where the producer is in `write`: the value in hand and the index it loaded. */
  datatype Writer<T> =
    | WIdle
    | WLoaded(value: T, index: nat)
    | WChecked(value: T, index: nat)
    | WTorn(value: T, index: nat)
    | WStored(value: T, index: nat)

  /** Where the consumer is in `read`. */
  datatype Reader<T> = RIdle | RLoaded(index: nat) | RChecked(index: nat) | RGot(index: nat, cell: Cell<T>)

  datatype State<T> = State(data: seq<Cell<T>>, writeIndex: nat, readIndex: nat, writer: Writer<T>, reader: Reader<T>,
                            written: seq<T>, consumed: seq<Cell<T>>)

  /** The single steps of the two sides. */
  datatype Event<T> = LoadWriteIndex(value: T) | CheckFull | BeginStore | EndStore | Publish
                    | LoadReadIndex | CheckEmpty | Fetch | Advance

  function NextIndex(current: nat, len: nat): nat
    requires len > 0
  {
    (current + 1) % len
  }

  predicate InRange<T>(s: State<T>) {
    && |s.data| > 0
    && (s.writer.WIdle? || s.writer.index < |s.data|)
    && (s.reader.RIdle? || s.reader.index < |s.data|)
  }

  /** One step; an event that the side is not ready for changes nothing. */
  function Next<T>(s: State<T>, e: Event<T>): State<T>
    requires InRange(s)
  {
    match e
    case LoadWriteIndex(v) =>
      if s.writer.WIdle? then s.(writer := WLoaded(v, s.writeIndex)) else s
    case CheckFull =>
      if !s.writer.WLoaded? then s
      else if NextIndex(s.writer.index, |s.data|) == s.readIndex then s.(writer := WIdle)
      else s.(writer := WChecked(s.writer.value, s.writer.index))
    case BeginStore =>
      if !s.writer.WChecked? then s
      else s.(data := s.data[s.writer.index := Torn], writer := WTorn(s.writer.value, s.writer.index))
    case EndStore =>
      if !s.writer.WTorn? then s
      else s.(data := s.data[s.writer.index := Whole(s.writer.value)],
              writer := WStored(s.writer.value, s.writer.index))
    case Publish =>
      if !s.writer.WStored? then s
      else s.(writeIndex := NextIndex(s.writer.index, |s.data|), writer := WIdle,
              written := s.written + [s.writer.value])
    case LoadReadIndex =>
      if s.reader.RIdle? then s.(reader := RLoaded(s.readIndex)) else s
    case CheckEmpty =>
      if !s.reader.RLoaded? then s
      else if s.reader.index == s.writeIndex then s.(reader := RIdle)
      else s.(reader := RChecked(s.reader.index))
    case Fetch =>
      if s.reader.RChecked? then s.(reader := RGot(s.reader.index, s.data[s.reader.index])) else s
    case Advance =>
      if !s.reader.RGot? then s
      else s.(readIndex := NextIndex(s.reader.index, |s.data|), reader := RIdle,
              consumed := s.consumed + [s.reader.cell])
  }

  ghost predicate Holds<T>(s: State<T>, i: nat)
    requires |s.data| > 0 && i < |s.written|
  {
    s.data[i % |s.data|] == Whole(s.written[i])
  }

  /**
     The indices are the histories' lengths around the ring, at most one slot short of the whole ring is in use, the
     slots in use hold the values not yet consumed, and what was consumed is a prefix of what was written.
     */
  ghost predicate Inv<T>(s: State<T>) {
    var n, w, r := |s.data|, |s.written|, |s.consumed|;
    && n > 0 && r <= w <= r + n - 1
    && s.writeIndex == w % n && s.readIndex == r % n
    && (forall i | 0 <= i < r :: s.consumed[i] == Whole(s.written[i]))
    && (forall i | r <= i < w :: Holds(s, i))
    && WriterOk(s) && ReaderOk(s)
  }

  ghost predicate WriterOk<T>(s: State<T>)
    requires |s.data| > 0
  {
    var n, w, r := |s.data|, |s.written|, |s.consumed|;
    match s.writer
    case WIdle => true
    case WLoaded(_, index) => index == w % n
    case WChecked(_, index) => index == w % n && w + 1 < r + n
    case WTorn(_, index) => index == w % n && w + 1 < r + n
    case WStored(v, index) => index == w % n && w + 1 < r + n && s.data[index] == Whole(v)
  }

  ghost predicate ReaderOk<T>(s: State<T>)
    requires |s.data| > 0
  {
    var n, w, r := |s.data|, |s.written|, |s.consumed|;
    match s.reader
    case RIdle => true
    case RLoaded(index) => index == r % n
    case RChecked(index) => index == r % n && r < w
    case RGot(index, cell) => index == r % n && r < w && cell == Whole(s.written[r])
  }

  lemma InRangeOf<T>(s: State<T>)
    requires Inv(s)
    ensures InRange(s)
  {
  }

  /** The consumer never reads a slot that is being written. */
  lemma NoTornRead<T>(s: State<T>)
    requires Inv(s) && s.reader.RChecked?
    ensures InRange(s) && s.data[s.reader.index] == Whole(s.written[|s.consumed|])
    ensures s.writer.WTorn? ==> s.writer.index != s.reader.index
  {
    assert Holds(s, |s.consumed|);
    ModDistinct(|s.consumed|, |s.written|, |s.data|);
  }

  lemma ModDistinct(r: nat, w: nat, n: nat)
    requires r < w < r + n
    ensures r % n != w % n
  {
    DivMod(r, n);
    DivMod(w, n);
    if r % n == w % n {
      assert w - r == (w / n - r / n) * n;
      if w / n > r / n {
        MulLe(1, w / n - r / n, n);
      } else {
        MulLe(0, r / n - w / n, n);
      }
    }
  }

  lemma ModNext(k: nat, n: nat)
    requires n > 0
    ensures (k % n + 1) % n == (k + 1) % n
  {
    DivMod(k, n);
    DivMod(k % n + 1, n);
    if k % n + 1 < n {
      DivModOf(0, n, k % n + 1);
      DivModOf(k / n, n, k % n + 1);
    } else {
      DivModOf(1, n, 0);
      MulStep(k / n, n);
      DivModOf(k / n + 1, n, 0);
    }
  }

  /** A store into the free slot at the write index leaves the slots in use alone. */
  lemma StoreKeeps<T>(s: State<T>, c: Cell<T>, i: nat)
    requires Inv(s) && |s.consumed| <= i < |s.written| && |s.written| + 1 < |s.consumed| + |s.data|
    ensures |s.written| % |s.data| < |s.data|
    ensures s.data[|s.written| % |s.data| := c][i % |s.data|] == Whole(s.written[i])
  {
    assert Holds(s, i);
    ModDistinct(i, |s.written|, |s.data|);
  }

  lemma CheckStep<T>(s: State<T>, e: Event<T>)
    requires Inv(s) && (e.LoadWriteIndex? || e.CheckFull?)
    ensures InRange(s) && Inv(Next(s, e))
  {
    InRangeOf(s);
    var n, w, r := |s.data|, |s.written|, |s.consumed|;
    var t := Next(s, e);
    TestsAreExact(s);
    forall i | r <= i < w
      ensures Holds(t, i)
    {
      assert Holds(s, i);
    }
  }

  lemma StoreStep<T>(s: State<T>, e: Event<T>)
    requires Inv(s) && (e.BeginStore? || e.EndStore?)
    ensures InRange(s) && Inv(Next(s, e))
  {
    InRangeOf(s);
    var t := Next(s, e);
    if t != s {
      forall i | |s.consumed| <= i < |s.written|
        ensures Holds(t, i)
      {
        StoreKeeps(s, t.data[s.writer.index], i);
      }
    }
  }

  lemma PublishStep<T>(s: State<T>)
    requires Inv(s)
    ensures InRange(s) && Inv(Next(s, Publish))
  {
    InRangeOf(s);
    var w := |s.written|;
    var t := Next(s, Publish);
    ModNext(w, |s.data|);
    forall i | |s.consumed| <= i < |t.written|
      ensures Holds(t, i)
    {
      assert i < w ==> Holds(s, i);
    }
  }

  lemma ReaderStep<T>(s: State<T>, e: Event<T>)
    requires Inv(s) && (e.LoadReadIndex? || e.CheckEmpty? || e.Fetch? || e.Advance?)
    ensures InRange(s) && Inv(Next(s, e))
  {
    InRangeOf(s);
    var n, w, r := |s.data|, |s.written|, |s.consumed|;
    var t := Next(s, e);
    ModNext(r, n);
    if e.Fetch? && s.reader.RChecked? {
      NoTornRead(s);
    }
    forall i | |t.consumed| <= i < w
      ensures Holds(t, i)
    {
      assert Holds(s, i);
    }
  }

  function Init<T>(data: seq<Cell<T>>): (s: State<T>)
    requires |data| > 0
    ensures Inv(s)
  {
    State(data, 0, 0, WIdle, RIdle, [], [])
  }

  lemma AnyStep<T>(s: State<T>, e: Event<T>)
    requires Inv(s)
    ensures InRange(s) && Inv(Next(s, e)) && |Next(s, e).data| == |s.data|
  {
    InRangeOf(s);
    match e
    case LoadWriteIndex(_) => CheckStep(s, e);
    case CheckFull => CheckStep(s, e);
    case BeginStore => StoreStep(s, e);
    case EndStore => StoreStep(s, e);
    case Publish => PublishStep(s);
    case LoadReadIndex => ReaderStep(s, e);
    case CheckEmpty => ReaderStep(s, e);
    case Fetch => ReaderStep(s, e);
    case Advance => ReaderStep(s, e);
  }

  /** The state that the steps lead to, in any interleaving. */
  ghost function Run<T>(s: State<T>, es: seq<Event<T>>): (r: State<T>)
    requires Inv(s)
    ensures Inv(r) && |r.data| == |s.data|
    decreases |es|
  {
    if es == [] then s
    else
      AnyStep(s, es[0]);
      Run(Next(s, es[0]), es[1..])
  }

  /**
   Under every interleaving the consumer has exactly a prefix of the values written, and at most `len - 1` are in the
   ring.
   */
  lemma EveryInterleaving<T>(data: seq<Cell<T>>, es: seq<Event<T>>)
    requires |data| > 0
    ensures var s := Run(Init(data), es);
            && |s.consumed| <= |s.written| <= |s.consumed| + |data| - 1
            && (forall i | 0 <= i < |s.consumed| :: s.consumed[i] == Whole(s.written[i]))
            && (s.reader.RGot? ==> s.reader.cell == Whole(s.written[|s.consumed|]))
  {
  }

  /** The full test refuses exactly when `len - 1` items are in the ring, and the empty test exactly when none is. */
  lemma TestsAreExact<T>(s: State<T>)
    requires Inv(s)
    ensures InRange(s)
    ensures s.writer.WLoaded? ==> (Next(s, CheckFull).writer.WIdle? <==> |s.written| - |s.consumed| == |s.data| - 1)
    ensures s.reader.RLoaded? ==> (Next(s, CheckEmpty).reader.RIdle? <==> |s.written| == |s.consumed|)
  {
    InRangeOf(s);
    var n, w, r := |s.data|, |s.written|, |s.consumed|;
    ModNext(w, n);
    if w + 1 < r + n {
      ModDistinct(r, w + 1, n);
    } else {
      DivMod(r, n);
      MulStep(r / n, n);
      DivModOf(r / n + 1, n, r % n);
    }
    if r < w {
      ModDistinct(r, w, n);
    }
  }

  // ---- whole writes and reads ----

  predicate OfProducer<T>(e: Event<T>) {
    e.LoadWriteIndex? || e.CheckFull? || e.BeginStore? || e.EndStore? || e.Publish?
  }

  /** The steps of one side, in their order. */
  ghost function Part<T>(es: seq<Event<T>>, producer: bool): seq<Event<T>> {
    if es == [] then []
    else (if OfProducer(es[0]) == producer then [es[0]] else []) + Part(es[1..], producer)
  }

  ghost predicate SameProducer<T>(s: State<T>, t: State<T>) {
    t.writer == s.writer && t.written == s.written
  }

  ghost predicate SameConsumer<T>(s: State<T>, t: State<T>) {
    t.reader == s.reader && t.consumed == s.consumed
  }

  lemma OtherSide<T>(s: State<T>, e: Event<T>)
    requires Inv(s)
    ensures InRange(s) && (if OfProducer(e) then SameConsumer(s, Next(s, e)) else SameProducer(s, Next(s, e)))
    ensures Grown(s, Next(s, e))
  {
    InRangeOf(s);
  }

  /** A run is its first `k` steps and then the rest. */
  lemma {:induction false} RunSplit<T>(s: State<T>, es: seq<Event<T>>, k: nat)
    requires Inv(s) && k <= |es|
    ensures Run(s, es) == Run(Run(s, es[..k]), es[k..])
    decreases k
  {
    if k == 0 {
      assert es[..0] == [] && es[0..] == es;
    } else {
      AnyStep(s, es[0]);
      RunSplit(Next(s, es[0]), es[1..], k - 1);
      assert es[..k][0] == es[0] && es[..k][1..] == es[1..][..k - 1] && es[1..][k - 1..] == es[k..];
    }
  }

  ghost predicate Grown<T>(s: State<T>, t: State<T>) {
    s.written <= t.written && s.consumed <= t.consumed
  }

  /** Up to the next step of a side, or the end, that side stays as it is. `k` is the number of steps up to there. */
  lemma {:induction false} UntilNext<T>(s: State<T>, es: seq<Event<T>>, producer: bool) returns (k: nat)
    requires Inv(s)
    ensures k <= |es| && (k == |es| <==> Part(es, producer) == [])
    ensures var t := Run(s, es[..k]);
            Grown(s, t) && if producer then SameProducer(s, t) else SameConsumer(s, t)
    ensures k < |es| ==> Part(es, producer) == [es[k]] + Part(es[k + 1..], producer)
    decreases |es|
  {
    if es == [] || OfProducer(es[0]) == producer {
      k := 0;
    } else {
      AnyStep(s, es[0]);
      OtherSide(s, es[0]);
      var n := UntilNext(Next(s, es[0]), es[1..], producer);
      k := n + 1;
      assert es[..k][0] == es[0] && es[..k][1..] == es[1..][..n];
      assert n < |es[1..]| ==> es[1..][n + 1..] == es[k + 1..];
    }
  }

  /**
   The next step of a side, with the other side's steps before it: the side has not changed up to there. `t` is the
   state at the step, and `k` the number of steps up to it.
   */
  lemma NextOf<T>(s: State<T>, es: seq<Event<T>>, producer: bool, at: nat, e: Event<T>, rest: seq<Event<T>>)
    returns (k: nat, t: State<T>)
    requires Inv(s) && at <= |es| && Part(es[at..], producer) == [e] + rest
    ensures at <= k < |es| && es[k] == e && t == Run(s, es[..k]) && Part(es[k + 1..], producer) == rest
    ensures var a := Run(s, es[..at]);
            Grown(a, t) && if producer then SameProducer(a, t) else SameConsumer(a, t)
    ensures InRange(t) && Run(s, es[..k + 1]) == Next(t, e)
  {
    hide Inv, InRange, Part, Run, Next;
    var a := Run(s, es[..at]);
    var n := UntilNext(a, es[at..], producer);
    k := at + n;
    t := Run(s, es[..k]);
    InRangeOf(t);
    assert es[at..][n] == es[k] && es[at..][n + 1..] == es[k + 1..];
    assert ([e] + rest)[0] == e && ([e] + rest)[1..] == rest;
    assert ([es[k]] + Part(es[k + 1..], producer))[1..] == Part(es[k + 1..], producer);
    RunSplit(s, es[..k], at);
    assert es[..k][..at] == es[..at] && es[..k][at..] == es[at..][..n];
    RunSplit(s, es[..k + 1], k);
    assert es[..k + 1][..k] == es[..k] && es[..k + 1][k..] == [es[k]];
    OneStep(t, es[k]);
  }

  lemma UnreadIsLess<T>(s: State<T>)
    requires Inv(s)
    ensures |s.consumed| <= |s.written|
  {
  }

  lemma OneStep<T>(s: State<T>, e: Event<T>)
    requires Inv(s)
    ensures InRange(s) && Run(s, [e]) == Next(s, e)
  {
    AnyStep(s, e);
    assert [e][1..] == [];
    assert Run(Next(s, e), []) == Next(s, e);
  }

  function WriteSteps<T>(v: T): seq<Event<T>> {
    [LoadWriteIndex(v), CheckFull, BeginStore, EndStore, Publish]
  }

  function ReadSteps<T>(): seq<Event<T>> {
    [LoadReadIndex, CheckEmpty, Fetch, Advance]
  }

  ghost predicate Full<T>(s: State<T>) {
    |s.written| - |s.consumed| == |s.data| - 1
  }

  ghost predicate Empty<T>(s: State<T>) {
    |s.written| == |s.consumed|
  }

  /**
   A write that starts at step `at`, with any steps of the consumer in between: it adds just its value, or refuses,
   exactly when `len - 1` items are in the ring at its test, which is step `k`. It is over with step `m - 1`.
   */
  lemma WholeWrite<T>(s: State<T>, es: seq<Event<T>>, at: nat, v: T, rest: seq<Event<T>>) returns (k: nat, m: nat)
    requires Inv(s) && at <= |es| && Part(es[at..], true) == WriteSteps(v) + rest && Run(s, es[..at]).writer.WIdle?
    ensures at <= k < m <= |es| && es[k] == CheckFull && Part(es[m..], true) == rest
    ensures var a, t, u := Run(s, es[..at]), Run(s, es[..k]), Run(s, es[..m]);
            u.writer.WIdle? && u.written == if Full(t) then a.written else a.written + [v]
  {
    hide Inv, InRange, Part, Run;
    var k0, t0 := NextOf(s, es, true, at, LoadWriteIndex(v), WriteSteps(v)[1..] + rest);
    var t;
    k, t := NextOf(s, es, true, k0 + 1, CheckFull, WriteSteps(v)[2..] + rest);
    TestsAreExact(t);
    var k2, t2 := NextOf(s, es, true, k + 1, BeginStore, WriteSteps(v)[3..] + rest);
    var k3, t3 := NextOf(s, es, true, k2 + 1, EndStore, WriteSteps(v)[4..] + rest);
    var k4, t4 := NextOf(s, es, true, k3 + 1, Publish, rest);
    m := k4 + 1;
  }

  /**
   A read that starts at step `at`, with any steps of the producer in between: it hands out the oldest value not yet
   read, or nothing, exactly when there is none at its test, which is step `k`. It is over with step `m - 1`.
   */
  lemma WholeRead<T>(s: State<T>, es: seq<Event<T>>, at: nat, rest: seq<Event<T>>) returns (k: nat, m: nat)
    requires Inv(s) && at <= |es| && Part(es[at..], false) == ReadSteps() + rest && Run(s, es[..at]).reader.RIdle?
    ensures at <= k < m <= |es| && es[k] == CheckEmpty && Part(es[m..], false) == rest
    ensures var a, t, u := Run(s, es[..at]), Run(s, es[..k]), Run(s, es[..m]);
            && u.reader.RIdle?
            && if Empty(t) then u.consumed == a.consumed
               else |a.consumed| < |t.written| && u.consumed == a.consumed + [Whole(t.written[|a.consumed|])]
  {
    hide Inv, InRange, Part, Run;
    var steps: seq<Event<T>> := ReadSteps();
    var k0, t0 := NextOf(s, es, false, at, LoadReadIndex, steps[1..] + rest);
    var t;
    k, t := NextOf(s, es, false, k0 + 1, CheckEmpty, steps[2..] + rest);
    TestsAreExact(t);
    assert |t.consumed| <= |t.written| by { UnreadIsLess(t); }
    var k2, t2 := NextOf(s, es, false, k + 1, Fetch, steps[3..] + rest);
    if t2.reader.RChecked? {
      NoTornRead(t2);
    }
    var k3, t3 := NextOf(s, es, false, k2 + 1, Advance, rest);
    m := k3 + 1;
  }

  ghost function Writes<T>(vs: seq<T>): seq<Event<T>> {
    if vs == [] then [] else WriteSteps(vs[0]) + Writes(vs[1..])
  }

  ghost function Reads<T>(n: nat): seq<Event<T>> {
    if n == 0 then [] else ReadSteps() + Reads(n - 1)
  }

  /** The values at the places that hold true. */
  ghost function Taken<T>(vs: seq<T>, oks: seq<bool>): seq<T>
    requires |oks| == |vs|
  {
    if vs == [] then [] else (if oks[0] then [vs[0]] else []) + Taken(vs[1..], oks[1..])
  }

  ghost predicate Ascending(ks: seq<nat>, from: nat, to: nat) {
    && (forall i | 0 <= i < |ks| :: from <= ks[i] < to)
    && (forall i, j | 0 <= i < j < |ks| :: ks[i] < ks[j])
  }

  lemma AscendingMore(k: nat, ks: seq<nat>, from: nat, m: nat, to: nat)
    requires from <= k < m <= to && Ascending(ks, m, to)
    ensures Ascending([k] + ks, from, to)
  {
  }

  /** With no step of a side left, it ends as it is. */
  lemma NoMore<T>(s: State<T>, es: seq<Event<T>>, at: nat, producer: bool)
    requires Inv(s) && at <= |es| && Part(es[at..], producer) == []
    ensures var a, u := Run(s, es[..at]), Run(s, es);
            if producer then SameProducer(a, u) else SameConsumer(a, u)
  {
    hide Inv, Part, Run;
    RunSplit(s, es, at);
    var k := UntilNext(Run(s, es[..at]), es[at..], producer);
    assert es[at..][..k] == es[at..];
  }

  /** Any number of writes, one after the other: `ks[i]` is the test of write `i`, and `oks[i]` whether it succeeds. */
  lemma {:induction false} AllWrites<T>(s: State<T>, es: seq<Event<T>>, at: nat, vs: seq<T>)
    returns (ks: seq<nat>, oks: seq<bool>)
    requires Inv(s) && at <= |es| && Part(es[at..], true) == Writes(vs) && Run(s, es[..at]).writer.WIdle?
    ensures |ks| == |oks| == |vs| && Ascending(ks, at, |es|)
    ensures forall i | 0 <= i < |vs| :: es[ks[i]] == CheckFull && (oks[i] <==> !Full(Run(s, es[..ks[i]])))
    ensures Run(s, es).written == Run(s, es[..at]).written + Taken(vs, oks)
    decreases |vs|
  {
    hide Inv, Part, Run, Ascending;
    if vs == [] {
      NoMore(s, es, at, true);
      ks, oks := [], [];
      assert Ascending([], at, |es|) by { EmptyAscending(at, |es|); }
    } else {
      var k, m := WholeWrite(s, es, at, vs[0], Writes(vs[1..]));
      var ks', oks' := AllWrites(s, es, m, vs[1..]);
      var ok := !Full(Run(s, es[..k]));
      ks, oks := [k] + ks', [ok] + oks';
      AscendingMore(k, ks', at, m, |es|);
      assert oks[1..] == oks';
    }
  }

  lemma EmptyAscending(from: nat, to: nat)
    ensures Ascending([], from, to)
  {
  }

  /**
   Any number of reads, one after the other: `ks[i]` is the test of read `i`, and `gets[i]` whether it has a value.
   */
  lemma {:induction false} AllReads<T>(s: State<T>, es: seq<Event<T>>, at: nat, n: nat)
    returns (ks: seq<nat>, gets: seq<bool>)
    requires Inv(s) && at <= |es| && Part(es[at..], false) == Reads(n) && Run(s, es[..at]).reader.RIdle?
    ensures |ks| == |gets| == n && Ascending(ks, at, |es|)
    ensures forall i | 0 <= i < n :: es[ks[i]] == CheckEmpty && (gets[i] <==> !Empty(Run(s, es[..ks[i]])))
    ensures |Run(s, es).consumed| == |Run(s, es[..at]).consumed| + |Taken(gets, gets)|
    decreases n
  {
    hide Inv, Part, Run, Ascending;
    if n == 0 {
      NoMore(s, es, at, false);
      ks, gets := [], [];
      assert Ascending([], at, |es|) by { EmptyAscending(at, |es|); }
    } else {
      var k, m := WholeRead(s, es, at, Reads(n - 1));
      var ks', gets' := AllReads(s, es, m, n - 1);
      var got := !Empty(Run(s, es[..k]));
      ks, gets := [k] + ks', [got] + gets';
      AscendingMore(k, ks', at, m, |es|);
      assert gets[1..] == gets';
    }
  }

  /**
   A producer that writes `vs` and a consumer that reads `n` times, in any interleaving of their single steps, have a
   queue of at most `len - 1` items between them. The values written are those whose test found the ring not full;
   as many are read as tests found it not empty; and they are the first ones written, in order.
   */
  lemma EveryProgram<T>(data: seq<Cell<T>>, es: seq<Event<T>>, vs: seq<T>, n: nat)
    returns (ws: seq<nat>, oks: seq<bool>, rs: seq<nat>, gets: seq<bool>)
    requires |data| > 0 && Part(es, true) == Writes(vs) && Part(es, false) == Reads(n)
    ensures |ws| == |oks| == |vs| && Ascending(ws, 0, |es|) && |rs| == |gets| == n && Ascending(rs, 0, |es|)
    ensures forall i | 0 <= i < |vs| :: es[ws[i]] == CheckFull && (oks[i] <==> !Full(Run(Init(data), es[..ws[i]])))
    ensures forall i | 0 <= i < n :: es[rs[i]] == CheckEmpty && (gets[i] <==> !Empty(Run(Init(data), es[..rs[i]])))
    ensures var s, written := Run(Init(data), es), Taken(vs, oks);
            && s.written == written && |s.consumed| == |Taken(gets, gets)| <= |written|
            && forall i | 0 <= i < |s.consumed| :: s.consumed[i] == Whole(written[i])
  {
    var s := Init(data);
    assert es[..0] == [] && es[0..] == es;
    EveryInterleaving(data, es);
    assert Run(s, []) == s;
    hide Inv, Part, Run, Ascending;
    ws, oks := AllWrites(s, es, 0, vs);
    rs, gets := AllReads(s, es, 0, n);
  }
}
