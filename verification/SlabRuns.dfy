/**
 Runs of the slab allocator, with the program's own stores and loads in between. What is stored in a block goes into
 the same memory that the free lists are threaded through.
 */
module SlabRuns {
  import opened Collections
  import opened ObjectStore
  import opened SlabLists
  import opened SlabHeap

  /** The kernel's answers to what one request may ask for: a run of pages and a single page. */
  datatype Answers = Answers(run: Option<nat>, page: Option<nat>)

  ghost predicate Holds(links: Links, live: Live, p: Pointer, x: Object) {
    && p.addr in live && live[p.addr] == Layout(p.size, p.align) && p.size == x.size
    && (forall o | o in x.words :: InBounds(x.size, o) && p.addr + o in links && links[p.addr + o] == x.words[o])
  }

  ghost predicate Tied(links: Links, live: Live, ptrs: Pointers, objs: Objects) {
    && ptrs.Keys == objs.Keys && Distinct(ptrs) && Covered(live.Keys, ptrs)
    && (forall x | x in ptrs :: Holds(links, live, ptrs[x], objs[x]))
  }

  lemma TiedKeys(links: Links, live: Live, ptrs: Pointers, objs: Objects)
    requires Tied(links, live, ptrs, objs)
    ensures ptrs.Keys == objs.Keys
    ensures forall x | x in ptrs :: ptrs[x].addr in live && live[ptrs[x].addr] == Layout(ptrs[x].size, ptrs[x].align)
    ensures forall x | x in ptrs :: ptrs[x].size == objs[x].size
  {
    hide Distinct, Covered;
  }

  /** A program starts with nothing. */
  lemma EmptyTied()
    ensures Tied(map[], map[], map[], map[])
  {
  }

  lemma WordIsLive(live: Live, p: Pointer, o: nat)
    requires p.addr in live && live[p.addr] == Layout(p.size, p.align) && InBounds(p.size, o)
    ensures InLiveBlock(live, p.addr + o)
  {
    AreaHolds(live[p.addr]);
    hide Area;
  }

  lemma HoldsKept(links: Links, links': Links, live: Live, live': Live, p: Pointer, x: Object)
    requires Holds(links, live, p, x) && WordsKept(links, links', live')
    requires p.addr in live' && live'[p.addr] == live[p.addr]
    ensures Holds(links', live', p, x)
  {
    hide InLiveBlock;
    forall o | o in x.words
      ensures p.addr + o in links' && links'[p.addr + o] == x.words[o]
    {
      WordIsLive(live', p, o);
    }
  }

  lemma SameTied(links: Links, links': Links, live: Live, ptrs: Pointers, objs: Objects)
    requires Tied(links, live, ptrs, objs) && WordsKept(links, links', live)
    ensures Tied(links', live, ptrs, objs)
  {
    hide WordsKept, Distinct, Covered;
    forall x | x in ptrs
      ensures Holds(links', live, ptrs[x], objs[x])
    {
      HoldsKept(links, links', live, live, ptrs[x], objs[x]);
    }
  }

  /** A block more. */
  lemma NewTied(links: Links, links': Links, live: Live, ptrs: Pointers, objs: Objects, x: nat, p: Pointer)
    requires Tied(links, live, ptrs, objs) && x !in ptrs && p.addr !in live && WordsKept(links, links', live)
    ensures Tied(links', live[p.addr := Layout(p.size, p.align)], ptrs[x := p], objs[x := Fresh(p.size)])
  {
    hide WordsKept, Distinct, Covered;
    NewDistinct(live.Keys, ptrs, x, p);
    NewCovered(live.Keys, ptrs, x, p);
    var live', ptrs', objs' := live[p.addr := Layout(p.size, p.align)], ptrs[x := p], objs[x := Fresh(p.size)];
    assert live'.Keys == live.Keys + {p.addr};
    forall y | y in ptrs'
      ensures Holds(links', live', ptrs'[y], objs'[y])
    {
      if y != x {
        HoldsKept(links, links', live, live, ptrs[y], objs[y]);
      }
    }
  }

  /** A block less. */
  lemma GoneTied(links: Links, links': Links, live: Live, ptrs: Pointers, objs: Objects, x: nat)
    requires Tied(links, live, ptrs, objs) && x in ptrs && WordsKept(links, links', live - {ptrs[x].addr})
    ensures Tied(links', live - {ptrs[x].addr}, ptrs - {x}, objs - {x})
  {
    hide WordsKept, Distinct, Covered;
    GoneDistinct(ptrs, x);
    GoneCovered(live.Keys, ptrs, x);
    var live' := live - {ptrs[x].addr};
    assert live'.Keys == live.Keys - {ptrs[x].addr};
    forall y | y in ptrs - {x}
      ensures Holds(links', live', ptrs[y], objs[y])
    {
      HoldsKept(links, links', live, live', ptrs[y], objs[y]);
    }
  }

  /** A store into one live block keeps what the others hold. */
  lemma StoreElsewhere(h: SlabAllocator, p: Pointer, o: nat, v: nat, q: Pointer, y: Object)
    requires h.Valid() && Holds(h.links, h.live, q, y) && p.addr in h.live && p.addr != q.addr
    requires h.live[p.addr] == Layout(p.size, p.align) && InBounds(p.size, o)
    ensures Holds(h.links[p.addr + o := v], h.live, q, y)
  {
    hide SlabAllocator.Inv, Area;
    LiveBlocksApart(h, p.addr, q.addr);
    AreaHolds(h.live[p.addr]);
    AreaHolds(h.live[q.addr]);
  }

  lemma StoreTied(h: SlabAllocator, ptrs: Pointers, objs: Objects, x: nat, o: nat, v: nat)
    requires h.Valid() && Tied(h.links, h.live, ptrs, objs) && x in ptrs && InBounds(ptrs[x].size, o)
    ensures Tied(h.links[ptrs[x].addr + o := v], h.live, ptrs, objs[x := Stored(objs[x], o, v)])
  {
    hide SlabAllocator.Inv, Covered;
    var links', objs' := h.links[ptrs[x].addr + o := v], objs[x := Stored(objs[x], o, v)];
    forall y | y in ptrs
      ensures Holds(links', h.live, ptrs[y], objs'[y])
    {
      if y != x {
        assert ptrs[y].addr != ptrs[x].addr;
        StoreElsewhere(h, ptrs[x], o, v, ptrs[y], objs[y]);
      }
    }
  }

  // ---- the kernel ----

  ghost function Given(r: Request, k: Answers): set<nat> {
    if r.Acquire? then RunOf(k.run, RoundUp(r.size)) + PageOf(k.page) else {}
  }

  ghost predicate Aligned(r: Request, k: Answers) {
    && (k.run.Some? ==> k.run.value > 0 && k.run.value % PAGE == 0)
    && (k.page.Some? ==> k.page.value > 0 && k.page.value % PAGE == 0)
    && (r.Acquire? && k.page.Some? ==> k.page.value !in RunOf(k.run, RoundUp(r.size)))
  }

  /** The kernel never hands out a page that it has handed out before. */
  ghost predicate Supply(mapped: set<nat>, rs: seq<Request>, ks: seq<Answers>) {
    && |ks| == |rs|
    && (forall i | 0 <= i < |rs| :: Aligned(rs[i], ks[i]) && Given(rs[i], ks[i]) !! mapped)
    && (forall i, j | 0 <= i < j < |rs| :: Given(rs[i], ks[i]) !! Given(rs[j], ks[j]))
  }

  lemma SupplyRest(mapped: set<nat>, mapped': set<nat>, rs: seq<Request>, ks: seq<Answers>)
    requires Supply(mapped, rs, ks) && rs != [] && mapped' <= mapped + Given(rs[0], ks[0])
    ensures Supply(mapped', rs[1..], ks[1..])
  {
    hide Given, Aligned;
    forall i | 0 <= i < |rs| - 1
      ensures Given(rs[1..][i], ks[1..][i]) !! mapped'
    {
      assert Given(rs[0], ks[0]) !! Given(rs[i + 1], ks[i + 1]) && Given(rs[i + 1], ks[i + 1]) !! mapped;
    }
  }

  lemma SupplyFirst(pages: Pages, rs: seq<Request>, ks: seq<Answers>)
    requires Supply(pages.Keys, rs, ks) && rs != [] && rs[0].Acquire?
    ensures var k, n := ks[0], RoundUp(rs[0].size);
            && (k.run.Some? ==> FreshRun(pages, k.run.value, n))
            && (k.page.Some? ==> FreshRun(pages, k.page.value, PAGE))
            && (k.run.Some? && k.page.Some? ==> k.page.value !in Run(k.run.value, n))
  {
    assert Aligned(rs[0], ks[0]) && Given(rs[0], ks[0]) !! pages.Keys;
    if ks[0].page.Some? {
      OnePage(ks[0].page.value);
    }
    hide Run, RoundUp;
  }

  // ---- one request ----

  /** The request is for more than the largest class of slots holds, and so for whole pages. */
  predicate Larger(r: Request) {
    r.Acquire? && (r.size > 1024 || r.align > 1024)
  }

  /**
   When an allocation finds nothing: whole pages, when no free run is large enough and the kernel has none; a slot,
   when every page of its class is full, there is no free run, and the kernel has no page. The kernel's runs are no
   matter to a slot.
   */
  ghost predicate NothingFor(slabs: Slabs, freePages: Runs, r: Request, k: Answers)
    requires r.Acquire?
  {
    if Larger(r) then k.run.None? && forall i | 0 <= i < |freePages| :: freePages[i].size < RoundUp(r.size)
    else
      var ci := ClassIndex(Layout(r.size, r.align).Effective());
      ci.Some? && ClassFull(slabs, ci.value) && freePages == [] && k.page.None?
  }

  /** An allocation. Without a slot for the tracking node of its block the code stores through a null pointer. */
  method ServeAcquire(h: SlabAllocator, ptrs: Pointers, r: Request, k: Answers, ghost objs: Objects,
                      ghost rs: seq<Request>,
                      ghost ks: seq<Answers>)
    returns (fault: bool, reply: Reply, ptrs': Pointers, ghost objs': Objects)
    requires h.Valid() && Tied(h.links, h.live, ptrs, objs) && r.Acquire? && r.id !in ptrs && r.size > 0
    requires rs != [] && ks != [] && rs[0] == r && ks[0] == k && Supply(h.pages.Keys, rs, ks)
    modifies h
    ensures Tied(h.links, h.live, ptrs', objs') && h.pages.Keys <= old(h.pages.Keys) + Given(r, k)
    ensures fault ==> k.run.Some? && k.page.None? && objs' == objs
    ensures !fault ==> h.Valid() && AcquireActs(objs, r.id, r.size, reply, objs')
    ensures !fault ==> (reply == Refused <==> NothingFor(old(h.slabs), old(h.freePages), r, k))
    ensures fault ==> Larger(r)
  {
    hide SlabAllocator.Inv, Tied, Supply, WordsKept, FreshRun, Run, RoundUp, NoNode, ClassFull, IsFirstFit, ClassIndex;
    SupplyFirst(h.pages, rs, ks);
    ghost var links, live := h.links, h.live;
    TiedKeys(links, live, ptrs, objs);
    var layout := Layout(r.size, r.align);
    var outcome := h.Alloc(layout, k.run, k.page);
    match outcome
    case Block(a) =>
      var p := Pointer(a, r.size, r.align);
      NewTied(links, h.links, live, ptrs, objs, r.id, p);
      return false, Granted, ptrs[r.id := p], objs[r.id := Fresh(r.size)];
    case Null =>
      return false, Refused, ptrs, objs;
    case Fault =>
      SameTied(links, h.links, live, ptrs, objs);
      assert k.page.None? by { FaultMeansNoPage(old(h.partial), old(h.freePages), k.page); }
      return true, Refused, ptrs, objs;
  }

  lemma FaultMeansNoPage(partial: seq<seq<nat>>, freePages: Runs, page: Option<nat>)
    requires |partial| == NUM_CLASSES && NoNode(partial, freePages, page)
    ensures page.None?
  {
  }

  method ServeAccess(h: SlabAllocator, ptrs: Pointers, r: Request, ghost objs: Objects)
    returns (reply: Reply, ghost objs': Objects)
    requires h.Valid() && Tied(h.links, h.live, ptrs, objs) && (r.Store? || r.Load?)
    modifies h`links
    ensures h.Valid() && Tied(h.links, h.live, ptrs, objs') && Acts(objs, r, reply, objs')
  {
    hide SlabAllocator.Inv, Tied, Stored, Holds, InLiveBlock;
    TiedKeys(h.links, h.live, ptrs, objs);
    objs' := objs;
    if r.id !in ptrs || !InBounds(ptrs[r.id].size, r.offset) {
      return Skipped, objs;
    }
    var at := ptrs[r.id].addr + r.offset;
    if r.Load? {
      WordHeld(h.links, h.live, ptrs, objs, r.id, r.offset);
      return Word(if at in h.links then h.links[at] else 0), objs;
    }
    StoreTied(h, ptrs, objs, r.id, r.offset, r.value);
    WordIsLive(h.live, ptrs[r.id], r.offset);
    h.StoreWord(at, r.value);
    objs' := objs[r.id := Stored(objs[r.id], r.offset, r.value)];
    reply := Done;
  }

  lemma WordHeld(links: Links, live: Live, ptrs: Pointers, objs: Objects, x: nat, o: nat)
    requires Tied(links, live, ptrs, objs) && x in ptrs
    ensures x in objs
    ensures (o in objs[x].words ==> ptrs[x].addr + o in links && links[ptrs[x].addr + o] == objs[x].words[o])
  {
    hide Distinct, Covered;
  }

  method ServeSlab(h: SlabAllocator, ptrs: Pointers, r: Request, k: Answers, ghost objs: Objects,
                   ghost rs: seq<Request>,
                   ghost ks: seq<Answers>)
    returns (fault: bool, reply: Reply, ptrs': Pointers, ghost objs': Objects)
    requires h.Valid() && Tied(h.links, h.live, ptrs, objs) && !r.Resize?
    requires rs != [] && ks != [] && rs[0] == r && ks[0] == k && Supply(h.pages.Keys, rs, ks)
    modifies h
    ensures Tied(h.links, h.live, ptrs', objs') && h.pages.Keys <= old(h.pages.Keys) + Given(r, k)
    ensures fault ==> k.run.Some? && k.page.None? && objs' == objs
    ensures !fault ==> h.Valid() && Acts(objs, r, reply, objs')
    ensures fault ==> Larger(r)
    ensures !fault && reply == Refused ==> r.Acquire?
    ensures !fault && r.Acquire? && r.id !in ptrs && r.size > 0 ==>
              (reply == Refused <==> NothingFor(old(h.slabs), old(h.freePages), r, k))
    ensures !fault && reply == Refused ==> Lacking(r, k)
  {
    hide SlabAllocator.Inv, Tied, Supply, WordsKept, Given, AcquireActs, ClassFull, ClassIndex, RoundUp;
    TiedKeys(h.links, h.live, ptrs, objs);
    fault := false;
    match r
    case Acquire(id, size, _) =>
      if id in ptrs {
        return false, Skipped, ptrs, objs;
      }
      if size == 0 {
        assert AcquireActs(objs, id, size, Refused, objs) by { NoBytes(objs, id); }
        return false, Refused, ptrs, objs;
      }
      fault, reply, ptrs', objs' := ServeAcquire(h, ptrs, r, k, objs, rs, ks);
    case Release(id) =>
      if id !in ptrs {
        return false, Skipped, ptrs, objs;
      }
      ghost var links, live := h.links, h.live;
      var p := ptrs[id];
      assert p.addr != 0 by { LiveIsNotNull(h, p.addr); }
      h.Dealloc(p.addr, Layout(p.size, p.align));
      GoneTied(links, h.links, live, ptrs, objs, id);
      return false, Done, ptrs - {id}, objs - {id};
    case Store(_, _, _) =>
      ptrs' := ptrs;
      reply, objs' := ServeAccess(h, ptrs, r, objs);
    case Load(_, _) =>
      ptrs' := ptrs;
      reply, objs' := ServeAccess(h, ptrs, r, objs);
  }

  lemma NoBytes(objs: Objects, id: nat)
    ensures AcquireActs(objs, id, 0, Refused, objs)
  {
  }

  /** What a refusal needs: no bytes asked for, or a kernel without what this request would take from it. */
  predicate Lacking(r: Request, k: Answers) {
    r.Acquire? && (r.size == 0 || if Larger(r) then k.run.None? else k.page.None?)
  }

  /**
   Every run of allocations, releases, stores and loads behaves as separate objects do: no block overlaps another, and
   each keeps its words until it is given back, whatever the allocator stores in its own slots meanwhile. The live
   blocks are exactly those of the objects left. A small block is
   refused only when the kernel has no page, a large one only when it has no run. The run ends early only by the fault,
   which needs a large block and a kernel without pages.
   */
  method SlabSession(h: SlabAllocator, ptrs: Pointers, rs: seq<Request>, ks: seq<Answers>, ghost objs: Objects)
    returns (replies: seq<Reply>, ptrs': Pointers, ghost objs': Objects)
    requires h.Valid() && Tied(h.links, h.live, ptrs, objs) && Supply(h.pages.Keys, rs, ks)
    requires forall i | 0 <= i < |rs| :: !rs[i].Resize?
    modifies h
    ensures |replies| <= |rs| && Behaves(objs, rs[..|replies|], replies, objs')
    ensures Tied(h.links, h.live, ptrs', objs') && (|replies| == |rs| ==> h.Valid())
    ensures |ks| == |rs|
    ensures |replies| < |rs| ==>
              Larger(rs[|replies|]) && ks[|replies|].run.Some? && ks[|replies|].page.None?
    ensures forall j | 0 <= j < |replies| && replies[j] == Refused :: Lacking(rs[j], ks[j])
    decreases |rs|
  {
    hide SlabAllocator.Inv, Tied, Given, Acts, Lacking, NothingFor;
    if rs == [] {
      return [], ptrs, objs;
    }
    ghost var mapped := h.pages.Keys;
    var fault, reply, ptrs1;
    ghost var objs1;
    fault, reply, ptrs1, objs1 := ServeSlab(h, ptrs, rs[0], ks[0], objs, rs, ks);
    if fault {
      return [], ptrs1, objs1;
    }
    SupplyRest(mapped, h.pages.Keys, rs, ks);
    hide Supply;
    var rest;
    rest, ptrs', objs' := SlabSession(h, ptrs1, rs[1..], ks[1..], objs1);
    replies := [reply] + rest;
    assert replies[1..] == rest && rs[..|replies|][1..] == rs[1..][..|rest|];
  }
}
