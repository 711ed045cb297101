/**
 A kernel pipe: a ring of 512 bytes plus at most one pending read, whose buffer a later write fills directly.
 Each call is taken as one step, which the code's locks give only in part. The ghost histories record the bytes
 accepted from writers, the bytes delivered by finished reads, and the callbacks stored and handed back.
 */
module PipeDriver {
  import opened Bytes
  import opened Collections

  const BUFFER_SIZE: nat := 512

  datatype ReadMode = NonBlocking | Blocking(callback: nat)

  /** A finished read with its length, a read left pending, or a second pending read. */
  datatype ReadOutcome = Done(length: nat) | Waiting | Panic

  const PAGE_SIZE: nat := 0x1000

  /** A buffer at physical address `at` does not fit in one page: its first and last byte are in different ones. */
  predicate Crosses(at: nat, length: nat): (r: bool)
    ensures r <==> length > 0 && at / 0x1000 != (at + length - 1) / 0x1000
  {
    at % PAGE_SIZE + length > PAGE_SIZE
  }

  /** The bytes of the ring from counter `tail` to counter `head`. */
  function RingBytes(ring: seq<Byte>, tail: nat, head: nat): (s: seq<Byte>)
    requires |ring| == BUFFER_SIZE && tail <= head
    ensures |s| == head - tail
  {
    seq(head - tail, i requires 0 <= i < head - tail => ring[(tail + i) % BUFFER_SIZE])
  }

  lemma RingDrop(ring: seq<Byte>, tail: nat, k: nat, head: nat)
    requires |ring| == BUFFER_SIZE && tail + k <= head
    ensures RingBytes(ring, tail + k, head) == RingBytes(ring, tail, head)[k..]
  {
  }

  /** Storing at the head appends, as long as the ring is not full. */
  lemma RingPut(ring: seq<Byte>, tail: nat, head: nat, b: Byte)
    requires |ring| == BUFFER_SIZE && tail <= head < tail + BUFFER_SIZE
    ensures RingBytes(ring[head % BUFFER_SIZE := b], tail, head + 1) == RingBytes(ring, tail, head) + [b]
  {
    var a, b := RingBytes(ring[head % BUFFER_SIZE := b], tail, head + 1), RingBytes(ring, tail, head) + [b];
    forall i | 0 <= i < |a|
      ensures a[i] == b[i]
    {
      assert i < head - tail ==> (tail + i) % BUFFER_SIZE != head % BUFFER_SIZE;
    }
  }

  /** Every accepted byte is delivered, with the pending read, or in the ring, in that order. */
  ghost predicate Accounted(accepted: seq<Byte>, delivered: seq<Byte>, progress: seq<Byte>, ring: seq<Byte>) {
    accepted == delivered + progress + ring
  }

  lemma AccountRead(accepted: seq<Byte>, delivered: seq<Byte>, progress: seq<Byte>, ring: seq<Byte>, k: nat)
    requires Accounted(accepted, delivered, progress, ring) && k <= |ring| && (k == 0 || progress == [])
    ensures Accounted(accepted, delivered + ring[..k], progress, ring[k..])
    ensures progress == [] ==> Accounted(accepted, delivered, ring[..k], ring[k..])
  {
    assert ring == ring[..k] + ring[k..];
  }

  lemma AccountFill(accepted: seq<Byte>, delivered: seq<Byte>, progress: seq<Byte>, data: seq<Byte>)
    requires Accounted(accepted, delivered, progress, [])
    ensures Accounted(accepted + data, delivered, progress + data, [])
    ensures Accounted(accepted + data, delivered + (progress + data), [], [])
  {
  }

  lemma AccountStore(accepted: seq<Byte>, delivered: seq<Byte>, progress: seq<Byte>, ring: seq<Byte>, data: seq<Byte>)
    requires Accounted(accepted, delivered, progress, ring)
    ensures Accounted(accepted + data, delivered, progress, ring + data)
  {
  }

  lemma AppendParts(accepted: seq<Byte>, data: seq<Byte>, i: nat)
    requires i <= |data|
    ensures forall j | i <= j <= |data| :: accepted + data[..i] + data[i..j] == accepted + data[..j]
  {
    forall j | i <= j <= |data|
      ensures accepted + data[..i] + data[i..j] == accepted + data[..j]
    {
      assert data[..j] == data[..i] + data[i..j];
    }
  }

  class Pipe {
    var readCallback: Option<nat>
    var readBuffer: array<Byte>
    var readPtr: nat
    var readLen: nat
    var readProgress: nat
    const ring: array<Byte>
    var writeHead: nat
    var writeTail: nat
    ghost var accepted: seq<Byte>
    ghost var delivered: seq<Byte>
    ghost var stored: seq<nat>
    ghost var handedBack: seq<nat>

    ghost function Ring(): seq<Byte>
      requires ring.Length == BUFFER_SIZE && writeTail <= writeHead
      reads this, ring
    {
      RingBytes(ring[..], writeTail, writeHead)
    }

    /** The bytes a pending read already has. */
    ghost function Progress(): seq<Byte>
      requires readCallback.Some? ==> readProgress <= readBuffer.Length
      reads this, readBuffer
    {
      if readCallback.Some? then readBuffer[..readProgress] else []
    }

    /** The pipe as a queue of bytes. */
    ghost function State(): (q: Queue)
      requires Valid()
      reads this, ring, readBuffer
      ensures Fits(q)
    {
      Queue(Progress() + Ring(),
            if readCallback.Some? then Some(Waiter(readCallback.value, readLen, Crosses(readPtr, readLen))) else None)
    }

    /** The bytes a pending read still lacks. */
    ghost function Need(): nat
      requires Valid()
      reads this, ring, readBuffer
    {
      if readCallback.Some? then readLen - readProgress else 0
    }

    ghost predicate Valid()
      reads this, ring, readBuffer
    {
      && ring.Length == BUFFER_SIZE && writeTail <= writeHead < writeTail + BUFFER_SIZE
      && (readCallback.Some? ==> readBuffer != ring && readLen == readBuffer.Length && readProgress < readLen)
      && (readCallback.Some? ==> writeHead == writeTail)
      && (readCallback.None? ==> readLen <= readProgress && (readLen > 0 ==> !Crosses(readPtr, readLen)))
      && Accounted(accepted, delivered, Progress(), Ring())
      && stored == handedBack + if readCallback.Some? then [readCallback.value] else []
    }

    constructor ()
      ensures Valid() && accepted == [] && delivered == [] && readCallback.None? && fresh(ring) && fresh(readBuffer)
      ensures State() == Queue([], None)
    {
      readCallback, readBuffer, readPtr, readLen, readProgress := None, new Byte[0], 0, 0, 0;
      ring := new Byte[BUFFER_SIZE](_ => 0);
      writeHead, writeTail := 0, 0;
      accepted, delivered, stored, handedBack := [], [], [], [];
    }

    /** Moves the first bytes of the ring into `buffer`. */
    method Drain(buffer: array<Byte>) returns (written: nat)
      requires ring.Length == BUFFER_SIZE && writeTail <= writeHead && buffer != ring
      modifies this`writeTail, buffer
      ensures written == Min(buffer.Length, |old(Ring())|)
      ensures writeTail == old(writeTail) + written && buffer[..written] == old(Ring())[..written]
      ensures buffer[written..] == old(buffer[written..])
    {
      var available := writeHead - writeTail;
      var tail := writeTail;
      written := 0;
      while written != buffer.Length && written < available
        invariant written <= buffer.Length && written <= available && tail == old(writeTail) + written
        invariant buffer[..written] == old(Ring())[..written]
        invariant buffer[written..] == old(buffer[..])[written..]
      {
        assert old(Ring())[written] == ring[tail % BUFFER_SIZE];
        buffer[written] := ring[tail % BUFFER_SIZE];
        tail := tail + 1;
        written := written + 1;
      }
      writeTail := tail;
    }

    /**
     Fills `buffer`, which lies at physical address `at`, from the ring. A blocking read that empties the ring first
     stays pending, with what it has; any other read is finished.
     */
    method Read(buffer: array<Byte>, at: nat, mode: ReadMode) returns (r: ReadOutcome)
      requires Valid() && buffer != ring && (readCallback.Some? ==> buffer != readBuffer)
      modifies this, buffer
      ensures r.Panic? <==> mode.Blocking? && old(readCallback).Some? && buffer.Length > 0
      ensures !r.Panic? ==> Valid() && accepted == old(accepted)
      ensures r.Done? <==> mode.NonBlocking? || buffer.Length <= |old(Ring())|
      ensures r.Done? ==> r.length == Min(buffer.Length, |old(Ring())|)
      ensures r.Done? ==> delivered == old(delivered) + buffer[..r.length]
      ensures r.Done? ==> buffer[..r.length] == old(Ring())[..r.length] && Ring() == old(Ring())[r.length..]
      ensures r.Done? ==> readCallback == old(readCallback) && readPtr == old(readPtr)
      ensures r.Done? ==> readBuffer == old(readBuffer) && handedBack == old(handedBack)
      ensures r.Waiting? ==> readCallback == Some(mode.callback) && readBuffer == buffer && readPtr == at
      ensures r.Waiting? ==> readProgress == |old(Ring())| < buffer.Length
      ensures r.Waiting? ==> buffer[..readProgress] == old(Ring())
      ensures r.Waiting? ==> delivered == old(delivered) && handedBack == old(handedBack)
    {
      hide RingBytes, Accounted, Crosses;
      var written := Drain(buffer);
      RingDrop(ring[..], old(writeTail), written, writeHead);
      AccountRead(accepted, delivered, old(Progress()), old(Ring()), written);
      if written != buffer.Length && mode.Blocking? {
        readLen, readProgress, readBuffer, readPtr := buffer.Length, written, buffer, at;
        if readCallback.Some? {
          return Panic;
        }
        readCallback := Some(mode.callback);
        stored := stored + [mode.callback];
        return Waiting;
      }
      delivered := delivered + buffer[..written];
      return Done(written);
    }

    /** Copies into the pending read's buffer until it is full or the data is used up. */
    method FillPending(data: seq<Byte>) returns (written: nat)
      requires readLen <= readProgress || readLen == readBuffer.Length
      modifies this`readProgress, readBuffer
      ensures written == if readLen <= old(readProgress) then 0 else Min(|data|, readLen - old(readProgress))
      ensures readProgress == old(readProgress) + written
      ensures readLen <= old(readProgress) ==> readBuffer[..] == old(readBuffer[..])
      ensures readLen > old(readProgress) ==>
                readBuffer[..readProgress] == old(readBuffer[..readProgress]) + data[..written]
    {
      written := 0;
      var progress := readProgress;
      while progress < readLen && written < |data|
        invariant written <= |data| && progress == old(readProgress) + written && readProgress == old(readProgress)
        invariant written > 0 ==> progress <= readLen
        invariant readLen <= old(readProgress) ==> written == 0 && readBuffer[..] == old(readBuffer[..])
        invariant readLen > old(readProgress) ==>
                    readBuffer[..progress] == old(readBuffer[..readProgress]) + data[..written]
      {
        readBuffer[progress] := data[written];
        progress := progress + 1;
        written := written + 1;
      }
      readProgress := progress;
    }

    /** Appends to the ring from position `from` of the data until the ring is full or the data is used up. */
    method FillRing(data: seq<Byte>, from: nat) returns (written: nat)
      requires ring.Length == BUFFER_SIZE && writeTail <= writeHead < writeTail + BUFFER_SIZE && from <= |data|
      modifies this`writeHead, ring
      ensures written == from + Min(|data| - from, BUFFER_SIZE - 1 - |old(Ring())|)
      ensures writeTail <= writeHead < writeTail + BUFFER_SIZE && Ring() == old(Ring()) + data[from..written]
    {
      hide RingBytes;
      written := from;
      var head := writeHead;
      while (head - writeTail) % BUFFER_SIZE < BUFFER_SIZE - 1 && written != |data|
        invariant from <= written <= |data| && writeTail <= head < writeTail + BUFFER_SIZE
        invariant head == writeHead + written - from
        invariant writeHead == old(writeHead)
        invariant RingBytes(ring[..], writeTail, head) == old(Ring()) + data[from..written]
      {
        RingPut(ring[..], writeTail, head, data[written]);
        ghost var before := ring[..];
        ring[head % BUFFER_SIZE] := data[written];
        assert ring[..] == before[head % BUFFER_SIZE := data[written]];
        assert data[from..written + 1] == data[from..written] + [data[written]];
        head := head + 1;
        written := written + 1;
      }
      writeHead := head;
    }

    /**
     Gives the data to a pending read, and takes its callback if that fills its buffer. A pending read whose buffer
     crosses a page is a panic.
     */
    method GiveToPending(data: seq<Byte>) returns (panic: bool, written: nat, done: Option<(nat, nat)>)
      requires Valid()
      modifies this`readProgress, this`readCallback, this`accepted, this`delivered, this`handedBack, readBuffer
      ensures panic <==> old(readCallback).Some? && Crosses(readPtr, readLen)
      ensures panic ==> done.None?
      ensures !panic ==> Valid() && written == Min(|data|, old(Need()))
      ensures !panic ==> accepted == old(accepted) + data[..written] && ring[..] == old(ring[..])
      ensures !panic ==> (done.Some? <==> old(readCallback).Some? && |data| >= old(Need()))
      ensures done.Some? ==> readCallback.None? && done.value == (old(readLen), old(readCallback).value)
      ensures done.Some? ==> handedBack == old(handedBack) + [old(readCallback).value]
      ensures done.Some? ==> delivered == old(delivered) + readBuffer[..]
      ensures done.None? ==> readCallback == old(readCallback)
      ensures done.None? ==> handedBack == old(handedBack) && delivered == old(delivered)
    {
      hide RingBytes, Accounted, Crosses;
      panic, written, done := false, 0, None;
      ghost var progress0 := Progress();
      assert readCallback.Some? ==> Ring() == [];
      if readLen > 0 {
        if Crosses(readPtr, readLen) {
          return true, 0, None;
        }
        written := FillPending(data);
        if readProgress >= readLen {
          if readCallback.Some? {
            done := Some((readLen, readCallback.value));
            handedBack := handedBack + [readCallback.value];
            delivered := delivered + readBuffer[..];
            assert readBuffer[..] == progress0 + data[..written];
            AccountFill(accepted, old(delivered), progress0, data[..written]);
          }
          readCallback := None;
        } else {
          AccountFill(accepted, delivered, progress0, data[..written]);
        }
      }
      assert old(readCallback).None? ==> accepted + data[..written] == accepted;
      accepted := accepted + data[..written];
    }

    /**
     Gives the data to the pending read first and then to the ring. The read's callback is handed back, with the length
     of the read, by the write that fills its buffer and by no other.
     */
    method Write(data: seq<Byte>) returns (panic: bool, written: nat, done: Option<(nat, nat)>)
      requires Valid()
      modifies this, ring, readBuffer
      ensures panic <==> old(readCallback).Some? && Crosses(old(readPtr), old(readLen))
      ensures panic ==> done.None?
      ensures !panic ==> written == Min(|data|, old(Need()) + BUFFER_SIZE - 1 - |old(Ring())|)
      ensures !panic ==> Valid() && accepted == old(accepted) + data[..written]
      ensures !panic ==> (done.Some? <==> old(readCallback).Some? && |data| >= old(Need()))
      ensures done.Some? ==> readCallback.None? && done.value == (old(readLen), old(readCallback).value)
      ensures done.Some? ==> handedBack == old(handedBack) + [old(readCallback).value]
      ensures done.Some? ==> delivered == old(delivered) + readBuffer[..]
      ensures done.None? ==> readCallback == old(readCallback)
      ensures done.None? ==> handedBack == old(handedBack) && delivered == old(delivered)
      ensures stored == old(stored) && readBuffer == old(readBuffer) && readPtr == old(readPtr)
    {
      hide RingBytes, Accounted, Crosses;
      var first;
      panic, first, done := GiveToPending(data);
      if panic {
        return true, 0, None;
      }
      assert Ring() == old(Ring());
      ghost var progress1 := Progress();
      AppendParts(old(accepted), data, first);
      written := FillRing(data, first);
      assert Progress() == progress1;
      AccountStore(accepted, delivered, progress1, old(Ring()), data[first..written]);
      accepted := accepted + data[first..written];
    }
  }

  // ---- runs ----

  /** A read into a buffer at physical address `at`, or a write. */
  datatype Call = ReadCall(length: nat, at: nat, mode: ReadMode) | WriteCall(data: seq<Byte>)

  /** A finished read with its callback and its bytes. */
  datatype Finished = Finished(callback: nat, bytes: seq<Byte>)

  datatype Reply = Got(bytes: seq<Byte>) | Left | Panicked | Wrote(bytes: seq<Byte>, finished: Option<Finished>)

  /** The callback and length of a pending read, and whether its buffer crosses a page. */
  datatype Waiter = Waiter(callback: nat, length: nat, crosses: bool)

  /** The bytes not yet delivered, oldest first, and the pending read. */
  datatype Queue = Queue(bytes: seq<Byte>, pending: Option<Waiter>)

  /** A pending read lacks bytes; without one the ring holds at most 511. */
  predicate Fits(q: Queue) {
    if q.pending.Some? then |q.bytes| < q.pending.value.length else |q.bytes| < BUFFER_SIZE
  }

  function Answer(q: Queue, c: Call): (Queue, Reply)
    requires Fits(q)
  {
    match c
    case ReadCall(n, at, mode) =>
      if q.pending.Some? then
        (q, if mode.Blocking? && n > 0 then Panicked else Got([]))
      else if n > |q.bytes| && mode.Blocking? then
        (q.(pending := Some(Waiter(mode.callback, n, Crosses(at, n)))), Left)
      else
        var k := Min(n, |q.bytes|);
        (q.(bytes := q.bytes[k..]), Got(q.bytes[..k]))
    case WriteCall(data) =>
      if q.pending.None? then
        var k := Min(|data|, BUFFER_SIZE - 1 - |q.bytes|);
        (q.(bytes := q.bytes + data[..k]), Wrote(data[..k], None))
      else if q.pending.value.crosses then
        (q, Panicked)
      else
        var Waiter(callback, n, _) := q.pending.value;
        var need := n - |q.bytes|;
        var k := Min(|data|, need + BUFFER_SIZE - 1);
        if k < need then
          (q.(bytes := q.bytes + data), Wrote(data, None))
        else
          (Queue(data[need..k], None), Wrote(data[..k], Some(Finished(callback, q.bytes + data[..need]))))
  }

  lemma AnswerFits(q: Queue, c: Call)
    requires Fits(q)
    ensures Fits(Answer(q, c).0)
  {
  }

  /** The replies of a run, which ends early at a panic. */
  function Answers(q: Queue, calls: seq<Call>): seq<Reply>
    requires Fits(q)
    decreases |calls|
  {
    if calls == [] then []
    else
      var (q', r) := Answer(q, calls[0]);
      AnswerFits(q, calls[0]);
      if r.Panicked? then [r] else [r] + Answers(q', calls[1..])
  }

  /** The queue after a run. */
  function After(q: Queue, calls: seq<Call>): (q': Queue)
    requires Fits(q)
    ensures Fits(q')
    decreases |calls|
  {
    if calls == [] then q
    else
      var (q', r) := Answer(q, calls[0]);
      AnswerFits(q, calls[0]);
      if r.Panicked? then q else After(q', calls[1..])
  }

  // What a reply says was accepted, delivered, left pending and handed back.

  function Took(r: Reply): seq<Byte> {
    if r.Wrote? then r.bytes else []
  }

  function Gave(r: Reply): seq<Byte> {
    match r
    case Got(bytes) => bytes
    case Wrote(_, Some(f)) => f.bytes
    case _ => []
  }

  function Parked(c: Call, r: Reply): seq<(nat, nat)> {
    if c.ReadCall? && c.mode.Blocking? && r.Left? then [(c.mode.callback, c.length)] else []
  }

  function Returned(r: Reply): seq<(nat, nat)> {
    match r
    case Wrote(_, Some(f)) => [(f.callback, |f.bytes|)]
    case _ => []
  }

  function Pending(q: Queue): seq<(nat, nat)> {
    if q.pending.Some? then [(q.pending.value.callback, q.pending.value.length)] else []
  }

  // The same over the replies of a run.

  function Accepted(rs: seq<Reply>): seq<Byte> {
    if rs == [] then [] else Took(rs[0]) + Accepted(rs[1..])
  }

  function Delivered(rs: seq<Reply>): seq<Byte> {
    if rs == [] then [] else Gave(rs[0]) + Delivered(rs[1..])
  }

  function LeftPending(calls: seq<Call>, rs: seq<Reply>): seq<(nat, nat)>
    requires |rs| <= |calls|
  {
    if rs == [] then [] else Parked(calls[0], rs[0]) + LeftPending(calls[1..], rs[1..])
  }

  function HandedBack(rs: seq<Reply>): seq<(nat, nat)> {
    if rs == [] then [] else Returned(rs[0]) + HandedBack(rs[1..])
  }

  lemma CallConserves(q: Queue, c: Call)
    requires Fits(q)
    ensures var (q', r) := Answer(q, c);
            && q.bytes + Took(r) == Gave(r) + q'.bytes
            && Pending(q) + Parked(c, r) == Returned(r) + Pending(q')
  {
    hide Crosses;
    match c
    case ReadCall(n, _, _) =>
      var k := Min(n, |q.bytes|);
      assert q.bytes == q.bytes[..k] + q.bytes[k..];
    case WriteCall(data) =>
      if q.pending.Some? {
        FillConserves(q, data);
      }
  }

  lemma FillConserves(q: Queue, data: seq<Byte>)
    requires Fits(q) && q.pending.Some?
    ensures var (q', r) := Answer(q, WriteCall(data));
            && q.bytes + Took(r) == Gave(r) + q'.bytes
            && Pending(q) == Returned(r) + Pending(q')
  {
    var need := q.pending.value.length - |q.bytes|;
    var k := Min(|data|, need + BUFFER_SIZE - 1);
    if k >= need {
      assert data[..k] == data[..need] + data[need..k];
    }
  }

  lemma Chain<T>(a: seq<T>, took: seq<T>, more: seq<T>, gave: seq<T>, b: seq<T>, later: seq<T>, c: seq<T>)
    requires a + took == gave + b && b + more == later + c
    ensures a + (took + more) == (gave + later) + c
  {
    calc {
      a + (took + more);
      (a + took) + more;
      (gave + b) + more;
      gave + (b + more);
      gave + (later + c);
      (gave + later) + c;
    }
  }

  lemma PanicMovesNothing(c: Call)
    ensures Took(Panicked) == [] && Gave(Panicked) == [] && Parked(c, Panicked) == [] && Returned(Panicked) == []
  {
  }

  lemma {:induction false} RunConserves(q: Queue, calls: seq<Call>)
    requires Fits(q)
    ensures |Answers(q, calls)| <= |calls|
    ensures q.bytes + Accepted(Answers(q, calls)) == Delivered(Answers(q, calls)) + After(q, calls).bytes
    ensures Pending(q) + LeftPending(calls, Answers(q, calls)) ==
            HandedBack(Answers(q, calls)) + Pending(After(q, calls))
    decreases |calls|
  {
    if calls != [] {
      var (q', r) := Answer(q, calls[0]);
      AnswerFits(q, calls[0]);
      CallConserves(q, calls[0]);
      hide Answer, Took, Gave, Parked, Returned, Pending;
      if r.Panicked? {
        PanicMovesNothing(calls[0]);
        assert Answers(q, calls) == [r];
      } else {
        RunConserves(q', calls[1..]);
        var rest := Answers(q', calls[1..]);
        assert Answers(q, calls) == [r] + rest && ([r] + rest)[1..] == rest;
        var last := After(q', calls[1..]);
        Chain(q.bytes, Took(r), Accepted(rest), Gave(r), q'.bytes, Delivered(rest), last.bytes);
        Chain(Pending(q), Parked(calls[0], r), LeftPending(calls[1..], rest), Returned(r), Pending(q'),
              HandedBack(rest), Pending(last));
      }
    }
  }

  /**
   Over every run of a new pipe: the bytes of finished reads are a prefix of the bytes accepted, so none is lost,
   repeated or reordered; the reads handed back are those left pending, in order and at their full length, but for the
   pending one.
   */
  lemma DeliveredIsPrefix(calls: seq<Call>)
    ensures var rs := Answers(Queue([], None), calls);
            && |rs| <= |calls| && Delivered(rs) <= Accepted(rs) && HandedBack(rs) <= LeftPending(calls, rs)
            && |LeftPending(calls, rs)| <= |HandedBack(rs)| + 1
            && (LeftPending(calls, rs) == HandedBack(rs) ==> |Accepted(rs)| < |Delivered(rs)| + BUFFER_SIZE)
  {
    var q := Queue([], None);
    RunConserves(q, calls);
    var rs := Answers(q, calls);
    assert Accepted(rs) == q.bytes + Accepted(rs) && LeftPending(calls, rs) == Pending(q) + LeftPending(calls, rs);
  }

  lemma Undelivered(accepted: seq<Byte>, delivered: seq<Byte>, progress: seq<Byte>, ring: seq<Byte>)
    requires Accounted(accepted, delivered, progress, ring)
    ensures delivered <= accepted && accepted[|delivered|..] == progress + ring
  {
  }

  method ServeRead(p: Pipe, length: nat, at: nat, mode: ReadMode) returns (reply: Reply)
    requires p.Valid()
    modifies p, p.ring, p.readBuffer
    ensures reply == Answer(old(p.State()), ReadCall(length, at, mode)).1
    ensures !reply.Panicked? ==> p.Valid() && p.State() == Answer(old(p.State()), ReadCall(length, at, mode)).0
    ensures !reply.Panicked? ==> fresh(p.readBuffer) || p.readBuffer == old(p.readBuffer)
  {
    hide RingBytes, Accounted, Crosses;
    ghost var q := p.State();
    Undelivered(p.accepted, p.delivered, p.Progress(), p.Ring());
    var buffer := new Byte[length];
    var r := p.Read(buffer, at, mode);
    if r.Panic? {
      return Panicked;
    }
    Undelivered(p.accepted, p.delivered, p.Progress(), p.Ring());
    assert if q.pending.Some? then old(p.Ring()) == [] else q.bytes == old(p.Ring());
    match r
    case Done(k) => reply := Got(buffer[..k]);
    case Waiting => reply := Left;
  }

  /** What the write that fills a pending read's buffer leaves in it and behind it. */
  lemma BufferFilled(accepted: seq<Byte>, delivered: seq<Byte>, progress: seq<Byte>, data: seq<Byte>,
                     buffer: seq<Byte>, rest: seq<Byte>)
    requires Accounted(accepted, delivered, progress, []) && Accounted(accepted + data, delivered + buffer, [], rest)
    requires |progress| <= |buffer|
    ensures |buffer| <= |progress| + |data|
    ensures buffer == progress + data[..|buffer| - |progress|] && rest == data[|buffer| - |progress|..]
  {
    var all := accepted + data;
    assert all[|delivered|..] == progress + data;
    assert all[|delivered|..] == buffer + rest;
    hide Accounted;
    var tail := all[|delivered|..];
    assert buffer == tail[..|buffer|] && rest == tail[|buffer|..];
  }

  method ServeWrite(p: Pipe, data: seq<Byte>) returns (reply: Reply)
    requires p.Valid()
    modifies p, p.ring, p.readBuffer
    ensures reply == Answer(old(p.State()), WriteCall(data)).1 && p.readBuffer == old(p.readBuffer)
    ensures !reply.Panicked? ==> p.Valid() && p.State() == Answer(old(p.State()), WriteCall(data)).0
  {
    hide RingBytes, Accounted, Crosses;
    ghost var q := p.State();
    Undelivered(p.accepted, p.delivered, p.Progress(), p.Ring());
    var panic, written, done := p.Write(data);
    if panic {
      return Panicked;
    }
    Undelivered(p.accepted, p.delivered, p.Progress(), p.Ring());
    match done
    case None =>
      assert q.pending.Some? ==> data[..written] == data;
      reply := Wrote(data[..written], None);
    case Some(read) =>
      assert old(p.Ring()) == [] && p.Progress() == [];
      BufferFilled(old(p.accepted), old(p.delivered), old(p.Progress()), data[..written], p.readBuffer[..], p.Ring());
      assert q.bytes == old(p.Progress()) && data[..written][..old(p.Need())] == data[..old(p.Need())];
      reply := Wrote(data[..written], Some(Finished(read.1, p.readBuffer[..])));
  }

  /** Every run of calls on the ring is the run on a queue of bytes. */
  method ServeAll(p: Pipe, calls: seq<Call>) returns (replies: seq<Reply>)
    requires p.Valid()
    modifies p, p.ring, p.readBuffer
    ensures replies == Answers(old(p.State()), calls)
    ensures Panicked !in replies ==> p.Valid() && p.State() == After(old(p.State()), calls)
    decreases |calls|
  {
    hide RingBytes, Accounted, Answer;
    if calls == [] {
      return [];
    }
    ghost var q := p.State();
    var reply;
    match calls[0] {
      case ReadCall(length, at, mode) => reply := ServeRead(p, length, at, mode);
      case WriteCall(data) => reply := ServeWrite(p, data);
    }
    if reply.Panicked? {
      return [reply];
    }
    replies := ServeAll(p, calls[1..]);
    replies := [reply] + replies;
  }
}
