/**
 Runs of the C library's heap, with the program's own stores and loads in between. The address kept for a block is
 that of its header.
 */
module HeapRuns {
  import opened Collections
  import opened ObjectStore
  import opened FreeListHeap

  /** The kernel's answer to the `i`-th request, which finds `mem` mapped and asks for `len` bytes. */
  type Kernel = (nat, Memory, nat) -> Option<nat>

  ghost predicate Honest(kernel: Kernel) {
    forall i, mem, len :: KernelAnswer(mem, kernel(i, mem, len), len)
  }

  /** It never refuses. */
  ghost predicate Ample(kernel: Kernel) {
    forall i, mem, len :: kernel(i, mem, len).Some?
  }

  /** The request is for no bytes at all. */
  predicate Empty(r: Request) {
    (r.Acquire? || r.Resize?) && r.size == 0
  }

  /** What a run goes through: the mapped words, the blocks held, the program's pointers and its objects. */
  datatype State = State(mem: Memory, held: Blocks, ptrs: Pointers, objs: Objects)

  /** The kernel has no memory, and the unused memory of the heap has no room for `size` bytes in one piece. */
  ghost predicate Exhausted(mem: Memory, held: Blocks, size: nat, i: nat, kernel: Kernel) {
    && kernel(i, mem, GrowSize(RoundedSize(size))).None?
    && Crowded(mem, held, RoundedSize(size))
  }

  /** Why a request is refused. */
  ghost predicate NothingFor(mem: Memory, held: Blocks, ptrs: Pointers, r: Request, i: nat, kernel: Kernel) {
    match r
    case Acquire(id, size, _) => id !in ptrs && (size == 0 || Exhausted(mem, held, size, i, kernel))
    case Resize(id, size) =>
      if id in ptrs then
        ptrs[id].addr in held && size > held[ptrs[id].addr] && Exhausted(mem, held, size, i, kernel)
      else
        size == 0 || Exhausted(mem, held, size, i, kernel)
    case _ => false
  }

  lemma AmpleServes(mem: Memory, held: Blocks, ptrs: Pointers, r: Request, i: nat, kernel: Kernel)
    requires Ample(kernel) && NothingFor(mem, held, ptrs, r, i, kernel)
    ensures Empty(r)
  {
  }

  /** The pointer is to a held block with room enough, in which the object's words are. */
  ghost predicate Holds(mem: Memory, held: Blocks, p: Pointer, x: Object) {
    && p.addr in held && p.size == x.size <= held[p.addr]
    && (forall o | o in x.words ::
          InBounds(x.size, o) && p.addr + HEADER + o in mem && mem[p.addr + HEADER + o] == x.words[o])
  }

  ghost predicate Tied(mem: Memory, held: Blocks, ptrs: Pointers, objs: Objects) {
    && ptrs.Keys == objs.Keys && Distinct(ptrs) && Covered(held.Keys, ptrs)
    && (forall x | x in ptrs :: Holds(mem, held, ptrs[x], objs[x]))
  }

  /** A program starts with nothing, on a heap that holds nothing. */
  lemma EmptyTied()
    ensures Tied(map[], map[], map[], map[])
  {
  }

  /** An object in a block whose payload is kept. */
  lemma HoldsKept(mem: Memory, mem': Memory, held: Blocks, kept: Blocks, p: Pointer, x: Object)
    requires Holds(mem, held, p, x) && PayloadKept(mem, mem', kept) && p.addr in kept && kept[p.addr] == held[p.addr]
    ensures Holds(mem', kept, p, x)
  {
    forall o | o in x.words
      ensures p.addr + HEADER + o in mem' && mem'[p.addr + HEADER + o] == x.words[o]
    {
      assert Payload(kept, p.addr, p.addr + HEADER + o);
    }
  }

  lemma SameTied(mem: Memory, mem': Memory, held: Blocks, ptrs: Pointers, objs: Objects)
    requires Tied(mem, held, ptrs, objs) && PayloadKept(mem, mem', held)
    ensures Tied(mem', held, ptrs, objs)
  {
    hide PayloadKept, Distinct, Covered;
    forall x | x in ptrs
      ensures Holds(mem', held, ptrs[x], objs[x])
    {
      HoldsKept(mem, mem', held, held, ptrs[x], objs[x]);
    }
  }

  /** A block less. */
  lemma GoneTied(mem: Memory, mem': Memory, held: Blocks, ptrs: Pointers, objs: Objects, x: nat)
    requires Tied(mem, held, ptrs, objs) && x in ptrs && PayloadKept(mem, mem', held - {ptrs[x].addr})
    ensures Tied(mem', held - {ptrs[x].addr}, ptrs - {x}, objs - {x})
  {
    var kept, ptrs', objs' := held - {ptrs[x].addr}, ptrs - {x}, objs - {x};
    hide PayloadKept, Distinct, Covered;
    GoneDistinct(ptrs, x);
    GoneCovered(held.Keys, ptrs, x);
    assert kept.Keys == held.Keys - {ptrs[x].addr};
    forall y | y in ptrs'
      ensures Holds(mem', kept, ptrs'[y], objs'[y])
    {
      assert Holds(mem, held, ptrs[y], objs[y]);
      HoldsKept(mem, mem', held, kept, ptrs[y], objs[y]);
    }
  }

  /** A block more. */
  lemma NewTied(mem: Memory, mem': Memory, held: Blocks, held': Blocks, ptrs: Pointers, objs: Objects, x: nat,
                p: Pointer,
                obj: Object)
    requires Tied(mem, held, ptrs, objs) && x !in ptrs && Holds(mem', held', p, obj) && PayloadKept(mem, mem', held)
    requires FreeListHeap.Granted(held, held', p.addr, p.size)
    ensures Tied(mem', held', ptrs[x := p], objs[x := obj])
  {
    var ptrs', objs' := ptrs[x := p], objs[x := obj];
    hide PayloadKept, Distinct, Covered;
    NewDistinct(held.Keys, ptrs, x, p);
    NewCovered(held.Keys, ptrs, x, p);
    assert held'.Keys == held.Keys + {p.addr};
    forall y | y in ptrs'
      ensures Holds(mem', held', ptrs'[y], objs'[y])
    {
      if y != x {
        HoldsKept(mem, mem', held, held, ptrs[y], objs[y]);
      }
    }
  }

  /** The object in another block, or in the same one with other words or another size. */
  lemma ChangedTied(mem: Memory, mem': Memory, held: Blocks, held': Blocks, ptrs: Pointers, objs: Objects, x: nat,
                    p: Pointer, obj: Object)
    requires Tied(mem, held, ptrs, objs) && x in ptrs && Holds(mem', held', p, obj)
    requires PayloadKept(mem, mem', held - {ptrs[x].addr})
    requires FreeListHeap.Granted(held - {ptrs[x].addr}, held', p.addr, p.size)
    ensures Tied(mem', held', ptrs[x := p], objs[x := obj])
  {
    hide Tied, Holds, PayloadKept, FreeListHeap.Granted;
    assert ptrs.Keys == objs.Keys by { assert Tied(mem, held, ptrs, objs); TiedKeys(mem, held, ptrs, objs); }
    GoneTied(mem, mem', held, ptrs, objs, x);
    PayloadRefl(mem', held - {ptrs[x].addr});
    NewTied(mem', mem', held - {ptrs[x].addr}, held', ptrs - {x}, objs - {x}, x, p, obj);
    assert (ptrs - {x})[x := p] == ptrs[x := p] && (objs - {x})[x := obj] == objs[x := obj];
  }

  lemma TiedKeys(mem: Memory, held: Blocks, ptrs: Pointers, objs: Objects)
    requires Tied(mem, held, ptrs, objs)
    ensures ptrs.Keys == objs.Keys
    ensures forall x | x in ptrs :: ptrs[x].addr in held && ptrs[x].size == objs[x].size <= held[ptrs[x].addr]
  {
    hide Distinct, Covered;
  }

  // ---- one request ----

  method ServeAcquire(h: Heap, ptrs: Pointers, id: nat, size: nat, i: nat, kernel: Kernel, ghost objs: Objects)
    returns (reply: Reply, ptrs': Pointers, ghost objs': Objects)
    requires h.Valid() && Honest(kernel) && Tied(h.mem, h.Held(), ptrs, objs) && id !in ptrs
    modifies h
    ensures h.Valid() && Tied(h.mem, h.Held(), ptrs', objs') && AcquireActs(objs, id, size, reply, objs')
    ensures reply == Refused <==> size == 0 || Exhausted(old(h.mem), old(h.Held()), size, i, kernel)
  {
    hide HeapOk, PayloadKept, Allocated, KernelAnswer, Tied, Holds, Honest, NoFit, FreeOk, Crowded, Unused, RoundedSize,
      GrowSize, KeptOf, Region;
    ghost var m, held := h.mem, h.Held();
    var answer := kernel(i, h.mem, GrowSize(RoundedSize(size)));
    assert KernelAnswer(h.mem, answer, GrowSize(RoundedSize(size))) by { Asked(kernel, i, h.mem, size); }
    var p := h.Malloc(size, answer);
    if p == 0 {
      SameTied(m, h.mem, held, ptrs, objs);
      return Refused, ptrs, objs;
    }
    ptrs' := ptrs[id := Pointer(p - HEADER, size, 8)];
    objs' := objs[id := Fresh(size)];
    FreshHolds(h.mem, h.Held(), Pointer(p - HEADER, size, 8));
    NewTied(m, h.mem, held, h.Held(), ptrs, objs, id, Pointer(p - HEADER, size, 8), Fresh(size));
    reply := ObjectStore.Granted;
  }

  lemma Asked(kernel: Kernel, i: nat, mem: Memory, size: nat)
    requires Honest(kernel)
    ensures KernelAnswer(mem, kernel(i, mem, GrowSize(RoundedSize(size))), GrowSize(RoundedSize(size)))
  {
  }

  lemma FreshHolds(mem: Memory, held: Blocks, p: Pointer)
    requires p.addr in held && p.size <= held[p.addr]
    ensures Holds(mem, held, p, Fresh(p.size))
  {
  }

  method ServeResize(h: Heap, ptrs: Pointers, id: nat, size: nat, i: nat, kernel: Kernel, ghost objs: Objects)
    returns (reply: Reply, ptrs': Pointers, ghost objs': Objects)
    requires h.Valid() && Honest(kernel) && Tied(h.mem, h.Held(), ptrs, objs) && id in ptrs
    modifies h
    ensures h.Valid() && Tied(h.mem, h.Held(), ptrs', objs') && Acts(objs, Resize(id, size), reply, objs')
    ensures reply == Refused <==>
              && ptrs[id].addr in old(h.Held()) && size > old(h.Held())[ptrs[id].addr]
              && Exhausted(old(h.mem), old(h.Held()), size, i, kernel)
  {
    hide HeapOk, PayloadKept, Allocated, KernelAnswer, Tied, Holds, Honest, Resized, Crowded, Unused, RoundedSize,
      GrowSize, KeptOf, Region;
    TiedKeys(h.mem, h.Held(), ptrs, objs);
    HoldsOf(h.mem, h.Held(), ptrs, objs, id);
    ghost var m, held, x := h.mem, h.Held(), objs[id];
    var b := ptrs[id].addr;
    var answer := kernel(i, h.mem, GrowSize(RoundedSize(size)));
    assert KernelAnswer(h.mem, answer, GrowSize(RoundedSize(size))) by { Asked(kernel, i, h.mem, size); }
    assert b > 0 by { HeldIsAligned(h.mem, h.blocks, h.free, h.freeList, b); }
    var q := h.Realloc(b + HEADER, size, answer);
    if size == 0 {
      GoneTied(m, h.mem, held, ptrs, objs, id);
      return Done, ptrs - {id}, objs - {id};
    }
    if q == 0 {
      return Refused, ptrs, objs;
    }
    var p := Pointer(q - HEADER, size, 8);
    ptrs' := ptrs[id := p];
    objs' := objs[id := Resized(x, size)];
    ResizedHolds(m, h.mem, held, h.Held(), ptrs[id], p, x);
    if size <= held[b] {
      SameGranted(held, b, size);
    }
    ChangedTied(m, h.mem, held, h.Held(), ptrs, objs, id, p, Resized(x, size));
    reply := ObjectStore.Granted;
  }

  lemma HoldsOf(mem: Memory, held: Blocks, ptrs: Pointers, objs: Objects, x: nat)
    requires Tied(mem, held, ptrs, objs) && x in ptrs
    ensures x in objs && Holds(mem, held, ptrs[x], objs[x])
  {
    hide Distinct, Covered;
  }

  lemma SameGranted(held: Blocks, b: nat, size: nat)
    requires b in held && size <= held[b]
    ensures FreeListHeap.Granted(held - {b}, held, b, size)
  {
    assert held == (held - {b})[b := held[b]];
  }

  /** The words are in the block's new place, as far as they still belong to it. */
  lemma ResizedHolds(mem: Memory, mem': Memory, held: Blocks, held': Blocks, p: Pointer, p': Pointer, x: Object)
    requires Holds(mem, held, p, x) && p'.addr in held' && p'.size <= held'[p'.addr]
    requires || (p'.addr == p.addr && mem' == mem)
             || (forall o: nat | o < held[p.addr] && o % 4 == 0 ::
                   && p.addr + HEADER + o in mem && p'.addr + HEADER + o in mem'
                   && mem'[p'.addr + HEADER + o] == mem[p.addr + HEADER + o])
    ensures Holds(mem', held', p', Resized(x, p'.size))
  {
  }

  method ServeAccess(h: Heap, ptrs: Pointers, r: Request, ghost objs: Objects)
    returns (reply: Reply, ghost objs': Objects)
    requires h.Valid() && Tied(h.mem, h.Held(), ptrs, objs) && (r.Store? || r.Load?)
    modifies h`mem
    ensures h.Valid() && Tied(h.mem, h.Held(), ptrs, objs') && Acts(objs, r, reply, objs')
  {
    hide HeapOk, PayloadKept, Allocated, Tied, Holds, Stored;
    TiedKeys(h.mem, h.Held(), ptrs, objs);
    objs' := objs;
    if r.id !in ptrs || !InBounds(ptrs[r.id].size, r.offset) {
      return Skipped, objs;
    }
    HoldsOf(h.mem, h.Held(), ptrs, objs, r.id);
    var p := ptrs[r.id];
    WordMapped(h.mem, h.blocks, h.free, h.freeList, p.addr, r.offset);
    var at := p.addr + HEADER + r.offset;
    if r.Load? {
      WordHeld(h.mem, h.Held(), p, objs[r.id], r.offset);
      return Word(h.mem[at]), objs;
    }
    ghost var m := h.mem;
    h.mem := h.mem[at := r.value];
    PayloadWritten(m, h.mem, h.blocks, h.free, h.freeList, p.addr, h.Held()[p.addr]);
    objs' := objs[r.id := Stored(objs[r.id], r.offset, r.value)];
    StoredHolds(m, h.Held(), p, objs[r.id], r.offset, r.value);
    SameGranted(h.Held(), p.addr, p.size);
    ChangedTied(m, h.mem, h.Held(), h.Held(), ptrs, objs, r.id, p, Stored(objs[r.id], r.offset, r.value));
    assert ptrs[r.id := p] == ptrs;
    reply := Done;
  }

  lemma WordHeld(mem: Memory, held: Blocks, p: Pointer, x: Object, o: nat)
    requires Holds(mem, held, p, x)
    ensures o in x.words ==> p.addr + HEADER + o in mem && mem[p.addr + HEADER + o] == x.words[o]
  {
  }

  lemma StoredHolds(mem: Memory, held: Blocks, p: Pointer, x: Object, o: nat, v: nat)
    requires Holds(mem, held, p, x) && InBounds(x.size, o)
    ensures Holds(mem[p.addr + HEADER + o := v], held, p, Stored(x, o, v))
  {
  }

  method ServeHeap(h: Heap, ptrs: Pointers, r: Request, i: nat, kernel: Kernel, ghost objs: Objects)
    returns (reply: Reply, ptrs': Pointers, ghost objs': Objects)
    requires h.Valid() && Honest(kernel) && Tied(h.mem, h.Held(), ptrs, objs)
    modifies h
    ensures h.Valid() && Tied(h.mem, h.Held(), ptrs', objs') && Acts(objs, r, reply, objs')
    ensures reply == Refused <==> NothingFor(old(h.mem), old(h.Held()), ptrs, r, i, kernel)
  {
    hide HeapOk, PayloadKept, Allocated, Tied, Honest, AcquireActs, Exhausted;
    TiedKeys(h.mem, h.Held(), ptrs, objs);
    match r
    case Acquire(id, size, _) =>
      if id in ptrs {
        return Skipped, ptrs, objs;
      }
      reply, ptrs', objs' := ServeAcquire(h, ptrs, id, size, i, kernel, objs);
    case Release(id) =>
      if id !in ptrs {
        h.Free(0);
        return Skipped, ptrs, objs;
      }
      ghost var m, held := h.mem, h.Held();
      assert ptrs[id].addr > 0 by { HeldIsAligned(h.mem, h.blocks, h.free, h.freeList, ptrs[id].addr); }
      h.Free(ptrs[id].addr + HEADER);
      GoneTied(m, h.mem, held, ptrs, objs, id);
      return Done, ptrs - {id}, objs - {id};
    case Resize(id, size) =>
      if id in ptrs {
        reply, ptrs', objs' := ServeResize(h, ptrs, id, size, i, kernel, objs);
      } else {
        reply, ptrs', objs' := ServeAcquire(h, ptrs, id, size, i, kernel, objs);
      }
    case Store(_, _, _) =>
      ptrs' := ptrs;
      reply, objs' := ServeAccess(h, ptrs, r, objs);
    case Load(_, _) =>
      ptrs' := ptrs;
      reply, objs' := ServeAccess(h, ptrs, r, objs);
  }

  ghost predicate StepsTo(a: State, r: Request, i: nat, kernel: Kernel, reply: Reply, b: State) {
    && Tied(a.mem, a.held, a.ptrs, a.objs) && Tied(b.mem, b.held, b.ptrs, b.objs) && Acts(a.objs, r, reply, b.objs)
    && (reply == Refused <==> NothingFor(a.mem, a.held, a.ptrs, r, i, kernel))
  }

  /**
   Every run of allocations, releases, resizings, stores and loads behaves as separate objects do, whatever the kernel
   answers: no block overlaps another, and each keeps its words until it is given back. The blocks held in the end are
   exactly those of the objects left. A request is refused exactly when it is empty, or the kernel has no memory and no
   stretch of unused memory has room for it; so nothing else is refused while the kernel has memory.
   */
  method HeapSession(h: Heap, ptrs: Pointers, rs: seq<Request>, i: nat, kernel: Kernel, ghost objs: Objects)
    returns (replies: seq<Reply>, ptrs': Pointers, ghost objs': Objects, ghost trace: seq<State>)
    requires h.Valid() && Honest(kernel) && Tied(h.mem, h.Held(), ptrs, objs)
    modifies h
    ensures h.Valid() && Tied(h.mem, h.Held(), ptrs', objs') && Behaves(objs, rs, replies, objs')
    ensures |replies| == |rs| && |trace| == |rs| + 1
    ensures trace[0] == State(old(h.mem), old(h.Held()), ptrs, objs)
    ensures trace[|rs|] == State(h.mem, h.Held(), ptrs', objs')
    ensures forall j | 0 <= j < |rs| :: StepsTo(trace[j], rs[j], i + j, kernel, replies[j], trace[j + 1])
    ensures Ample(kernel) ==> forall j | 0 <= j < |rs| :: replies[j] == Refused ==> Empty(rs[j])
    decreases |rs|
  {
    hide HeapOk, Allocated, Tied, Honest, Acts, Ample, Empty, NothingFor;
    ghost var before := State(h.mem, h.Held(), ptrs, objs);
    if rs == [] {
      return [], ptrs, objs, [before];
    }
    var reply, ptrs1;
    ghost var objs1;
    reply, ptrs1, objs1 := ServeHeap(h, ptrs, rs[0], i, kernel, objs);
    var rest;
    ghost var later;
    rest, ptrs', objs', later := HeapSession(h, ptrs1, rs[1..], i + 1, kernel, objs1);
    replies, trace := [reply] + rest, [before] + later;
    assert replies[1..] == rest;
    if Ample(kernel) && reply == Refused {
      AmpleServes(before.mem, before.held, ptrs, rs[0], i, kernel);
    }
  }
}
