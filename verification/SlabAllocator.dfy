/**
 The user-space slab allocator: small blocks are slots of slab pages, larger ones are page runs. The nodes that track
 page runs are themselves 32-byte slots, so taking a page can give a slot back and recording a run can take a page.
 */
module SlabHeap {
  import opened Bytes
  import opened Collections
  import opened SlabLists

  datatype Layout = Layout(size: nat, align: nat) {
    function Effective(): nat {
      if size > align then size else align
    }
  }

  /** A run of pages and the slot that tracks it. */
  datatype Extent = Extent(node: nat, addr: nat, size: nat)

  /** What a slot handed out is used for; `Held` while an operation has it in hand. */
  datatype SlotUse = User | LargeNode | FreeNode | Held

  /** What a mapped page is used for; runs are named by their tracking node. */
  datatype PageUse = SlabPage | Large(node: nat) | Free(node: nat) | Taken

  /** The address of a new block, a null pointer, or a store through a null tracking node. */
  datatype Outcome = Block(addr: nat) | Null | Fault

  type Runs = seq<Extent>
  type Slots = map<nat, SlotUse>
  type Pages = map<nat, PageUse>
  type Live = map<nat, Layout>

  function RoundUp(size: nat): (n: nat)
    ensures n % PAGE == 0 && size <= n < size + PAGE
  {
    (size + PAGE - 1) / PAGE * PAGE
  }

  ghost predicate Covers(addr: nat, size: nat, p: nat) {
    p % PAGE == 0 && addr <= p < addr + size
  }

  ghost function Run(addr: nat, size: nat): (s: set<nat>)
    ensures forall p :: p in s <==> Covers(addr, size, p)
  {
    set p | addr <= p < addr + size && p % PAGE == 0
  }

  ghost predicate IsRun(addr: nat, size: nat) {
    addr % PAGE == 0 && size % PAGE == 0 && size > 0
  }

  /** The runs of one list, each tracked by a slot of its own. */
  ghost predicate RunsOk(es: Runs) {
    && (forall i | 0 <= i < |es| :: IsRun(es[i].addr, es[i].size))
    && forall i, j | 0 <= i < j < |es| :: es[i].node != es[j].node
  }

  ghost predicate Tracks(es: Runs, n: nat) {
    exists i :: 0 <= i < |es| && es[i].node == n
  }

  ghost predicate TracksPage(es: Runs, n: nat, p: nat) {
    exists i :: 0 <= i < |es| && es[i].node == n && Covers(es[i].addr, es[i].size, p)
  }

  /** The use of every mapped page, both ways: a page has one use, so the uses partition the pages. */
  ghost predicate PagesOk(pages: Pages, slabs: Slabs, large: Runs, free: Runs, taken: set<nat>) {
    && (forall p | p in pages :: p % PAGE == 0 && p > 0)
    && (forall p :: p in pages && pages[p] == SlabPage <==> p in slabs)
    && (forall p :: p in pages && pages[p] == Taken <==> p in taken)
    && (forall p, n :: p in pages && pages[p] == Large(n) <==> TracksPage(large, n, p))
    && (forall p, n :: p in pages && pages[p] == Free(n) <==> TracksPage(free, n, p))
  }

  /** The use of every slot handed out, both ways, and the class of the page it lies in. */
  ghost predicate UsesOk(slots: Slots, slabs: Slabs, large: Runs, free: Runs,
                         live: Live, held: set<nat>) {
    && (forall a :: a in slots && slots[a] == Held <==> a in held)
    && (forall a :: a in slots && slots[a] == LargeNode <==> Tracks(large, a))
    && (forall a :: a in slots && slots[a] == FreeNode <==> Tracks(free, a))
    && (forall a :: a in slots && slots[a] == User <==> a in live && live[a].Effective() <= 1024)
    && (forall a | a in slots && slots[a] in {LargeNode, FreeNode} ::
          Base(a) in slabs && slabs[Base(a)].classIndex == 0)
    && (forall a | a in slots && slots[a] == User ::
          Base(a) in slabs && Some(slabs[Base(a)].classIndex) == ClassIndex(live[a].Effective()))
  }

  /** The large blocks of the program are exactly the recorded runs. */
  ghost predicate LargeOk(large: Runs, live: Live) {
    && (forall i | 0 <= i < |large| ::
          var e := large[i];
          e.addr in live && live[e.addr].Effective() > 1024 && e.size == RoundUp(live[e.addr].size))
    && forall a | a in live && live[a].Effective() > 1024 :: StartsRun(large, a)
  }

  ghost predicate StartsRun(large: Runs, a: nat) {
    exists i :: 0 <= i < |large| && large[i].addr == a
  }

  // ---------- Runs ----------

  lemma TracksOne(es: Runs, k: nat, p: nat)
    requires RunsOk(es) && k < |es|
    ensures TracksPage(es, es[k].node, p) <==> Covers(es[k].addr, es[k].size, p)
    ensures Tracks(es, es[k].node)
  {
    hide IsRun, Covers;
    if Covers(es[k].addr, es[k].size, p) {
      assert es[k].node == es[k].node;
    }
  }

  function Without(es: Runs, k: nat): Runs
    requires k < |es|
  {
    es[..k] + es[k + 1..]
  }

  lemma TracksWithout(es: Runs, k: nat, n: nat, p: nat)
    requires RunsOk(es) && k < |es|
    ensures RunsOk(Without(es, k))
    ensures TracksPage(Without(es, k), n, p) <==> TracksPage(es, n, p) && n != es[k].node
    ensures Tracks(Without(es, k), n) <==> Tracks(es, n) && n != es[k].node
  {
    hide IsRun, Covers;
    var w := Without(es, k);
    assert forall i | 0 <= i < |w| :: w[i] == if i < k then es[i] else es[i + 1];
    forall i | 0 <= i < |es| && i != k
      ensures es[i] == w[if i < k then i else i - 1]
    {
    }
  }

  lemma TracksMore(e: Extent, es: Runs, n: nat, p: nat)
    ensures TracksPage([e] + es, n, p) <==> (n == e.node && Covers(e.addr, e.size, p)) || TracksPage(es, n, p)
    ensures Tracks([e] + es, n) <==> n == e.node || Tracks(es, n)
  {
    hide Covers;
    var m := [e] + es;
    assert forall i | 0 <= i < |es| :: es[i] == m[i + 1];
    assert m[0] == e;
  }

  function Shortened(e: Extent, n: nat): Extent
    requires n <= e.size
  {
    Extent(e.node, e.addr + n, e.size - n)
  }

  lemma TracksShort(es: Runs, k: nat, s: nat, n: nat, p: nat)
    requires RunsOk(es) && k < |es| && 0 < s < es[k].size && s % PAGE == 0
    ensures RunsOk(es[k := Shortened(es[k], s)])
    ensures TracksPage(es[k := Shortened(es[k], s)], n, p) <==>
            TracksPage(es, n, p) && !(n == es[k].node && Covers(es[k].addr, s, p))
    ensures Tracks(es[k := Shortened(es[k], s)], n) <==> Tracks(es, n)
  {
    var w := es[k := Shortened(es[k], s)];
    assert RunsOk(w);
    TracksOne(es, k, p);
    TracksOne(w, k, p);
    hide RunsOk;
    assert forall i | 0 <= i < |es| && i != k :: es[i] == w[i];
    assert w[k].node == es[k].node;
  }

  // ---------- Pages ----------

  ghost function SetUse(pages: Pages, run: set<nat>, u: PageUse): (r: Pages)
    ensures r.Keys == pages.Keys
  {
    map p | p in pages :: if p in run then u else pages[p]
  }

  lemma TakeWhole(pages: Pages, slabs: Slabs, large: Runs, free: Runs, taken: set<nat>, k: nat)
    requires PagesOk(pages, slabs, large, free, taken) && RunsOk(free) && k < |free|
    ensures var run := Run(free[k].addr, free[k].size);
            run !! taken && PagesOk(SetUse(pages, run, Taken), slabs, large, Without(free, k), taken + run)
    ensures RunsOk(Without(free, k))
  {
    var e := free[k];
    var run := Run(e.addr, e.size);
    var pages' := SetUse(pages, run, Taken);
    hide RunsOk, Without, TracksPage, Covers;
    forall p
      ensures p in run <==> p in pages && pages[p] == Free(e.node)
    {
      TracksOne(free, k, p);
    }
    forall p, n
      ensures p in pages' && pages'[p] == Free(n) <==> TracksPage(Without(free, k), n, p)
    {
      TracksWithout(free, k, n, p);
    }
    TracksWithout(free, k, 0, 0);
  }

  lemma TakeFront(pages: Pages, slabs: Slabs, large: Runs, free: Runs, taken: set<nat>, k: nat, s: nat)
    requires PagesOk(pages, slabs, large, free, taken) && RunsOk(free)
    requires k < |free| && 0 < s < free[k].size && s % PAGE == 0
    ensures var run := Run(free[k].addr, s);
            && run !! taken
            && PagesOk(SetUse(pages, run, Taken), slabs, large, free[k := Shortened(free[k], s)], taken + run)
    ensures RunsOk(free[k := Shortened(free[k], s)])
  {
    var e := free[k];
    var run := Run(e.addr, s);
    var pages' := SetUse(pages, run, Taken);
    var free' := free[k := Shortened(e, s)];
    TracksShort(free, k, s, 0, 0);
    hide RunsOk, TracksPage;
    forall p | p in run
      ensures p in pages && pages[p] == Free(e.node)
    {
      TracksOne(free, k, p);
      assert Covers(e.addr, e.size, p);
    }
    hide Covers;
    forall p, n
      ensures p in pages' && pages'[p] == Free(n) <==> TracksPage(free', n, p)
    {
      TracksShort(free, k, s, n, p);
    }
    assert forall p :: p in pages' && pages'[p] == SlabPage <==> p in slabs;
    assert forall p :: p in pages' && pages'[p] == Taken <==> p in taken + run;
    assert forall p, n :: p in pages' && pages'[p] == Large(n) <==> TracksPage(large, n, p);
    assert forall p, n :: p in pages' && pages'[p] == Free(n) <==> TracksPage(free', n, p);
  }

  ghost predicate FreshRun(pages: Pages, addr: nat, size: nat) {
    addr % PAGE == 0 && addr > 0 && Run(addr, size) !! pages.Keys
  }

  ghost function WithRun(pages: Pages, addr: nat, size: nat): Pages {
    pages + map p | p in Run(addr, size) :: Taken
  }

  lemma WithRunKeys(pages: Pages, addr: nat, size: nat)
    ensures WithRun(pages, addr, size).Keys == pages.Keys + Run(addr, size)
  {
  }

  lemma RunAt(es: Runs, k: nat)
    requires RunsOk(es) && k < |es|
    ensures IsRun(es[k].addr, es[k].size)
  {
  }

  lemma TakeFresh(pages: Pages, slabs: Slabs, large: Runs, free: Runs, taken: set<nat>, addr: nat, size: nat)
    requires PagesOk(pages, slabs, large, free, taken) && FreshRun(pages, addr, size)
    ensures Run(addr, size) !! taken && PagesOk(WithRun(pages, addr, size), slabs, large, free, taken + Run(addr, size))
  {
    hide TracksPage;
    var pages' := WithRun(pages, addr, size);
    assert forall p | p in pages :: p in pages' && pages'[p] == pages[p];
    assert forall p | p in Run(addr, size) :: p in pages' && pages'[p] == Taken;
    assert forall p | p in pages' :: p in pages || p in Run(addr, size);
  }

  lemma GiveLarge(pages: Pages, slabs: Slabs, large: Runs, free: Runs, taken: set<nat>, e: Extent)
    requires PagesOk(pages, slabs, large, free, taken) && RunsOk(large)
    requires IsRun(e.addr, e.size) && Run(e.addr, e.size) <= taken
    requires !Tracks(large, e.node)
    ensures PagesOk(SetUse(pages, Run(e.addr, e.size), Large(e.node)), slabs, [e] + large, free,
                    taken - Run(e.addr, e.size))
    ensures RunsOk([e] + large)
  {
    var run := Run(e.addr, e.size);
    var pages' := SetUse(pages, run, Large(e.node));
    assert forall i | 0 <= i < |large| :: large[i].node != e.node;
    assert RunsOk([e] + large);
    forall p, n
      ensures p in pages' && pages'[p] == Large(n) <==> TracksPage([e] + large, n, p)
    {
      TracksMore(e, large, n, p);
    }
    hide TracksPage, Covers, RunsOk;
  }

  lemma GiveFree(pages: Pages, slabs: Slabs, large: Runs, free: Runs, taken: set<nat>, e: Extent)
    requires PagesOk(pages, slabs, large, free, taken) && RunsOk(free)
    requires IsRun(e.addr, e.size) && Run(e.addr, e.size) <= taken
    requires !Tracks(free, e.node)
    ensures PagesOk(SetUse(pages, Run(e.addr, e.size), Free(e.node)), slabs, large, [e] + free,
                    taken - Run(e.addr, e.size))
    ensures RunsOk([e] + free)
  {
    var run := Run(e.addr, e.size);
    var pages' := SetUse(pages, run, Free(e.node));
    assert forall i | 0 <= i < |free| :: free[i].node != e.node;
    assert RunsOk([e] + free);
    forall p, n
      ensures p in pages' && pages'[p] == Free(n) <==> TracksPage([e] + free, n, p)
    {
      TracksMore(e, free, n, p);
    }
    hide TracksPage, Covers, RunsOk;
  }

  lemma TakeLarge(pages: Pages, slabs: Slabs, large: Runs, free: Runs, taken: set<nat>, k: nat)
    requires PagesOk(pages, slabs, large, free, taken) && RunsOk(large) && k < |large|
    ensures var run := Run(large[k].addr, large[k].size);
            run !! taken && PagesOk(SetUse(pages, run, Taken), slabs, Without(large, k), free, taken + run)
    ensures RunsOk(Without(large, k)) && IsRun(large[k].addr, large[k].size)
  {
    var e := large[k];
    var run := Run(e.addr, e.size);
    var pages' := SetUse(pages, run, Taken);
    assert IsRun(e.addr, e.size);
    hide RunsOk, Without, TracksPage, Covers;
    forall p
      ensures p in run <==> p in pages && pages[p] == Large(e.node)
    {
      TracksOne(large, k, p);
    }
    forall p, n
      ensures p in pages' && pages'[p] == Large(n) <==> TracksPage(Without(large, k), n, p)
    {
      TracksWithout(large, k, n, p);
    }
    TracksWithout(large, k, 0, 0);
  }

  lemma AddSlabPage(pages: Pages, slabs: Slabs, large: Runs, free: Runs, taken: set<nat>, p: nat, slab: Slab)
    requires PagesOk(pages, slabs, large, free, taken + {p}) && p !in taken
    ensures p !in slabs && PagesOk(pages[p := SlabPage], slabs[p := slab], large, free, taken)
  {
    hide TracksPage;
  }

  lemma SamePages(pages: Pages, slabs: Slabs, large: Runs, free: Runs, taken: set<nat>, p: nat, slab: Slab)
    requires PagesOk(pages, slabs, large, free, taken) && p in slabs
    ensures PagesOk(pages, slabs[p := slab], large, free, taken)
  {
    hide TracksPage;
  }

  lemma TakenIsMapped(pages: Pages, slabs: Slabs, large: Runs, free: Runs, taken: set<nat>, p: nat)
    requires PagesOk(pages, slabs, large, free, taken) && p in taken
    ensures p in pages && p > 0
  {
    hide TracksPage;
  }

  lemma SlabIsNotNull(pages: Pages, slabs: Slabs, large: Runs, free: Runs, taken: set<nat>, a: nat)
    requires PagesOk(pages, slabs, large, free, taken) && Base(a) in slabs
    ensures a > 0
  {
    hide TracksPage;
  }

  lemma OnePage(p: nat)
    requires p % PAGE == 0
    ensures Run(p, PAGE) == {p}
  {
  }

  // ---------- Slots ----------

  lemma HeldIsSlot(slots: Slots, slabs: Slabs, large: Runs, free: Runs, live: Live, held: set<nat>, a: nat)
    requires UsesOk(slots, slabs, large, free, live, held) && a in held
    ensures a in slots
  {
    hide Tracks, ClassIndex, Base;
  }

  lemma HoldSlot(slots: Slots, slabs: Slabs, large: Runs, free: Runs, live: Live, held: set<nat>,
                 p: nat, slab: Slab, a: nat)
    requires UsesOk(slots, slabs, large, free, live, held) && a !in slots
    requires p in slabs && slab.classIndex == slabs[p].classIndex
    ensures UsesOk(slots[a := Held], slabs[p := slab], large, free, live, held + {a}) && a !in held
  {
    hide Tracks, ClassIndex, Base;
  }

  lemma DropSlot(slots: Slots, slabs: Slabs, large: Runs, free: Runs, live: Live, held: set<nat>,
                 p: nat, slab: Slab, a: nat)
    requires UsesOk(slots, slabs, large, free, live, held) && a in held
    requires p in slabs && slab.classIndex == slabs[p].classIndex
    ensures UsesOk(slots - {a}, slabs[p := slab], large, free, live, held - {a})
  {
    hide Tracks, ClassIndex, Base;
  }

  lemma SlotsWithPage(slots: Slots, slabs: Slabs, large: Runs, free: Runs, live: Live, held: set<nat>,
                      p: nat, slab: Slab)
    requires UsesOk(slots, slabs, large, free, live, held) && p !in slabs
    ensures UsesOk(slots, slabs[p := slab], large, free, live, held)
  {
    hide Tracks, ClassIndex, Base;
  }

  lemma HoldFreeNode(slots: Slots, slabs: Slabs, large: Runs, free: Runs, live: Live, held: set<nat>, k: nat)
    requires UsesOk(slots, slabs, large, free, live, held) && RunsOk(free) && k < |free|
    ensures UsesOk(slots[free[k].node := Held], slabs, large, Without(free, k), live, held + {free[k].node})
    ensures free[k].node !in held && free[k].node in slots
    ensures Base(free[k].node) in slabs && slabs[Base(free[k].node)].classIndex == 0
  {
    TracksOne(free, k, 0);
    hide Tracks, ClassIndex, Base, RunsOk, Without;
    forall n
      ensures Tracks(Without(free, k), n) <==> Tracks(free, n) && n != free[k].node
    {
      TracksWithout(free, k, n, 0);
    }
  }

  lemma ShortenedNode(slots: Slots, slabs: Slabs, large: Runs, free: Runs, live: Live, held: set<nat>,
                      k: nat, s: nat)
    requires UsesOk(slots, slabs, large, free, live, held) && RunsOk(free)
    requires k < |free| && 0 < s < free[k].size && s % PAGE == 0
    ensures UsesOk(slots, slabs, large, free[k := Shortened(free[k], s)], live, held)
  {
    hide Tracks, ClassIndex, Base, RunsOk;
    forall n
      ensures Tracks(free[k := Shortened(free[k], s)], n) <==> Tracks(free, n)
    {
      TracksShort(free, k, s, n, 0);
    }
  }

  lemma HeldToLarge(slots: Slots, slabs: Slabs, large: Runs, free: Runs, live: Live, held: set<nat>,
                    e: Extent, layout: Layout)
    requires UsesOk(slots, slabs, large, free, live, held) && e.node in held
    requires Base(e.node) in slabs && slabs[Base(e.node)].classIndex == 0
    requires e.addr !in live && layout.Effective() > 1024
    ensures UsesOk(slots[e.node := LargeNode], slabs, [e] + large, free, live[e.addr := layout], held - {e.node})
    ensures !Tracks(large, e.node)
  {
    hide Tracks, ClassIndex, Base;
    forall n
      ensures Tracks([e] + large, n) <==> n == e.node || Tracks(large, n)
    {
      TracksMore(e, large, n, 0);
    }
  }

  lemma HeldToFree(slots: Slots, slabs: Slabs, large: Runs, free: Runs, live: Live, held: set<nat>,
                   e: Extent)
    requires UsesOk(slots, slabs, large, free, live, held) && e.node in held
    requires Base(e.node) in slabs && slabs[Base(e.node)].classIndex == 0
    ensures UsesOk(slots[e.node := FreeNode], slabs, large, [e] + free, live, held - {e.node})
    ensures !Tracks(free, e.node)
  {
    hide Tracks, ClassIndex, Base;
    forall n
      ensures Tracks([e] + free, n) <==> n == e.node || Tracks(free, n)
    {
      TracksMore(e, free, n, 0);
    }
  }

  lemma ForgetLarge(slots: Slots, slabs: Slabs, large: Runs, free: Runs, live: Live, held: set<nat>, a: nat)
    requires UsesOk(slots, slabs, large, free, live, held) && a in live && live[a].Effective() > 1024
    ensures UsesOk(slots, slabs, large, free, live - {a}, held)
  {
    hide Tracks, ClassIndex, Base;
  }

  lemma HoldLargeNode(slots: Slots, slabs: Slabs, large: Runs, free: Runs, live: Live, held: set<nat>, k: nat)
    requires UsesOk(slots, slabs, large, free, live, held) && RunsOk(large) && k < |large|
    ensures UsesOk(slots[large[k].node := Held], slabs, Without(large, k), free, live, held + {large[k].node})
    ensures large[k].node !in held && large[k].node in slots
    ensures Base(large[k].node) in slabs && slabs[Base(large[k].node)].classIndex == 0
  {
    TracksOne(large, k, 0);
    hide Tracks, ClassIndex, Base, RunsOk, Without;
    forall n
      ensures Tracks(Without(large, k), n) <==> Tracks(large, n) && n != large[k].node
    {
      TracksWithout(large, k, n, 0);
    }
  }

  lemma HeldToUser(slots: Slots, slabs: Slabs, large: Runs, free: Runs, live: Live, held: set<nat>,
                   a: nat, layout: Layout)
    requires UsesOk(slots, slabs, large, free, live, held) && a in held && a !in live
    requires Base(a) in slabs && ClassIndex(layout.Effective()) == Some(slabs[Base(a)].classIndex)
    ensures UsesOk(slots[a := User], slabs, large, free, live[a := layout], held - {a})
  {
    hide Tracks, Base;
  }

  lemma UserToHeld(slots: Slots, slabs: Slabs, large: Runs, free: Runs, live: Live, held: set<nat>, a: nat)
    requires UsesOk(slots, slabs, large, free, live, held) && a in live && live[a].Effective() <= 1024
    ensures a in slots && UsesOk(slots[a := Held], slabs, large, free, live - {a}, held + {a}) && a !in held
    ensures Base(a) in slabs && ClassIndex(live[a].Effective()) == Some(slabs[Base(a)].classIndex)
  {
    hide Tracks, Base, ClassIndex;
  }

  // ---------- Large blocks ----------

  lemma RecordSize(large: Runs, live: Live, a: nat)
    requires LargeOk(large, live) && a in live && live[a].Effective() > 1024
    ensures StartsRun(large, a)
    ensures forall i | 0 <= i < |large| && large[i].addr == a :: large[i].size == RoundUp(live[a].size)
  {
    hide RoundUp;
  }

  lemma RecordBlock(large: Runs, live: Live, e: Extent, layout: Layout)
    requires LargeOk(large, live) && e.addr !in live && e.size == RoundUp(layout.size) && layout.Effective() > 1024
    ensures LargeOk([e] + large, live[e.addr := layout])
  {
    hide RoundUp;
    var large', live' := [e] + large, live[e.addr := layout];
    forall a | a in live' && live'[a].Effective() > 1024
      ensures StartsRun(large', a)
    {
      if a == e.addr {
        assert large'[0].addr == a;
      } else {
        var i :| 0 <= i < |large| && large[i].addr == a;
        assert large'[i + 1].addr == a;
      }
    }
  }

  lemma KeepLarge(large: Runs, live: Live, a: nat, layout: Layout)
    requires LargeOk(large, live) && a !in live && layout.Effective() <= 1024
    ensures LargeOk(large, live[a := layout])
  {
    hide RoundUp;
  }

  lemma DropSmall(large: Runs, live: Live, a: nat)
    requires LargeOk(large, live) && a in live && live[a].Effective() <= 1024
    ensures LargeOk(large, live - {a})
  {
    hide RoundUp;
  }

  /** No two recorded runs start at the same address. */
  lemma DistinctRuns(pages: Pages, slabs: Slabs, large: Runs, free: Runs, taken: set<nat>, i: nat, j: nat)
    requires PagesOk(pages, slabs, large, free, taken) && RunsOk(large) && i < j < |large|
    ensures large[i].addr != large[j].addr
  {
    TracksOne(large, i, large[i].addr);
    TracksOne(large, j, large[i].addr);
    hide TracksPage;
  }

  lemma ForgetBlock(pages: Pages, slabs: Slabs, large: Runs, free: Runs, taken: set<nat>, live: Live, k: nat)
    requires PagesOk(pages, slabs, large, free, taken) && RunsOk(large) && LargeOk(large, live) && k < |large|
    ensures LargeOk(Without(large, k), live - {large[k].addr})
  {
    hide RoundUp, PagesOk, RunsOk;
    forall i | 0 <= i < |large| && i != k
      ensures large[i].addr != large[k].addr
    {
      if i < k {
        DistinctRuns(pages, slabs, large, free, taken, i, k);
      } else {
        DistinctRuns(pages, slabs, large, free, taken, k, i);
      }
    }
    ForgetRun(large, live, k);
  }

  lemma ForgetRun(large: Runs, live: Live, k: nat)
    requires LargeOk(large, live) && k < |large|
    requires forall i | 0 <= i < |large| && i != k :: large[i].addr != large[k].addr
    ensures LargeOk(Without(large, k), live - {large[k].addr})
  {
    hide RoundUp, StartsRun;
    var w, live' := Without(large, k), live - {large[k].addr};
    forall i | 0 <= i < |w|
      ensures w[i].addr in live' && live'[w[i].addr].Effective() > 1024 && w[i].size == RoundUp(live'[w[i].addr].size)
    {
      assert w[i] == large[if i < k then i else i + 1];
    }
    forall a | a in live' && live'[a].Effective() > 1024
      ensures StartsRun(w, a)
    {
      StartsAnother(large, k, a);
    }
  }

  lemma StartsAnother(large: Runs, k: nat, a: nat)
    requires k < |large| && StartsRun(large, a) && large[k].addr != a
    ensures StartsRun(Without(large, k), a)
  {
    var i :| 0 <= i < |large| && large[i].addr == a;
    assert Without(large, k)[if i < k then i else i - 1] == large[i];
  }

  lemma RunStart(pages: Pages, slabs: Slabs, large: Runs, free: Runs, taken: set<nat>, i: nat)
    requires PagesOk(pages, slabs, large, free, taken) && RunsOk(large) && i < |large|
    ensures Base(large[i].addr) == large[i].addr && large[i].addr !in slabs && large[i].addr !in taken
  {
    TracksOne(large, i, large[i].addr);
    hide TracksPage;
  }

  /** A page in hand holds no live block, */
  lemma TakenIsNotLive(pages: Pages, slabs: Slabs, large: Runs, free: Runs, taken: set<nat>,
                       slots: Slots, live: Live, held: set<nat>, p: nat)
    requires PagesOk(pages, slabs, large, free, taken) && RunsOk(large)
    requires LargeOk(large, live) && UsesOk(slots, slabs, large, free, live, held)
    requires p in taken
    ensures p !in live
  {
    assert p !in slabs && Base(p) == p;
    hide ClassIndex, RoundUp, PagesOk, RunsOk, Base, Tracks;
    if p in live && live[p].Effective() > 1024 {
      assert StartsRun(large, p);
      var i :| 0 <= i < |large| && large[i].addr == p;
      RunStart(pages, slabs, large, free, taken, i);
    }
  }

  /** and a slot in hand is none. */
  lemma HeldIsNotLive(pages: Pages, slabs: Slabs, large: Runs, free: Runs, taken: set<nat>,
                      slots: Slots, live: Live, held: set<nat>, a: nat)
    requires PagesOk(pages, slabs, large, free, taken) && RunsOk(large)
    requires LargeOk(large, live) && UsesOk(slots, slabs, large, free, live, held)
    requires a in held && Base(a) in slabs
    ensures a !in live
  {
    hide ClassIndex, RoundUp, PagesOk, RunsOk, Base, Tracks;
    if a in live && live[a].Effective() > 1024 {
      assert StartsRun(large, a);
      var i :| 0 <= i < |large| && large[i].addr == a;
      RunStart(pages, slabs, large, free, taken, i);
    }
  }

  /** `k` is the first run of at least `need` bytes. */
  ghost predicate IsFirstFit(es: Runs, need: nat, k: Option<nat>) {
    match k
    case None => forall i | 0 <= i < |es| :: es[i].size < need
    case Some(j) => j < |es| && es[j].size >= need && forall i | 0 <= i < j :: es[i].size < need
  }

  /** The record of a run in front of the others. */
  ghost predicate Records(es: Runs, addr: nat, size: nat, rest: Runs) {
    es != [] && es[0].addr == addr && es[0].size == size && es[1..] == rest
  }

  /** Every half-word of the page is zero. */
  ghost predicate AllZero(links: Links, page: nat) {
    forall x: nat | page <= x < page + PAGE && x % 2 == 0 :: x in links && links[x] == 0
  }

  lemma TakenIsNoSlab(pages: Pages, slabs: Slabs, large: Runs, free: Runs, taken: set<nat>, p: nat)
    requires PagesOk(pages, slabs, large, free, taken) && p in taken
    ensures p % PAGE == 0 && p !in slabs
  {
    hide TracksPage;
  }

  lemma ZeroIsLocal(links: Links, links': Links, page: nat)
    requires page % PAGE == 0
    requires links' == (map x | x in links && Base(x) != page :: links[x]) +
                       (map x: nat | page <= x < page + PAGE && x % 2 == 0 :: 0)
    ensures AllZero(links', page)
    ensures forall x: nat | x in links && Base(x) != page :: x in links' && links'[x] == links[x]
  {
    forall x: nat | x in links && Base(x) != page
      ensures x in links' && links'[x] == links[x]
    {
      assert !(page <= x < page + PAGE);
    }
  }

  /** The page, or the pages of the run, that the kernel answered with. */
  ghost function PageOf(reply: Option<nat>): set<nat> {
    if reply.Some? then {reply.value} else {}
  }

  ghost function RunOf(reply: Option<nat>, size: nat): set<nat> {
    if reply.Some? then Run(reply.value, size) else {}
  }

  /** The next page for slots: the first of the first free run, else the kernel's. */
  function NextPageOf(freePages: Runs, pageReply: Option<nat>): nat {
    if freePages != [] then freePages[0].addr else if pageReply.Some? then pageReply.value else 0
  }

  /** Every page of the class is full. */
  ghost predicate ClassFull(slabs: Slabs, ci: nat) {
    forall p | p in slabs && slabs[p].classIndex == ci :: slabs[p].usedCount == slabs[p].totalSlots
  }

  /** No slot is to be had for a tracking node: none is free, there is no free run, and the kernel has no page. */
  predicate NoNode(partial: seq<seq<nat>>, freePages: Runs, pageReply: Option<nat>)
    requires |partial| == NUM_CLASSES
  {
    partial[0] == [] && freePages == [] && pageReply.None?
  }

  /** The free runs once the first `size` bytes of run `k` are gone. */
  function Cut(es: Runs, k: nat, size: nat): Runs
    requires k < |es| && size <= es[k].size
  {
    if es[k].size > size then es[k := Shortened(es[k], size)] else Without(es, k)
  }

  method FirstFit(es: Runs, need: nat) returns (k: Option<nat>)
    ensures IsFirstFit(es, need, k)
  {
    var cur := 0;
    while cur < |es|
      invariant cur <= |es| && forall i | 0 <= i < cur :: es[i].size < need
    {
      if es[cur].size >= need {
        return Some(cur);
      }
      cur := cur + 1;
    }
    k := None;
  }

  class SlabAllocator {
    var partial: seq<seq<nat>>
    var all: seq<seq<nat>>
    var slabs: Slabs
    var links: Links
    var largeAllocs: Runs
    var freePages: Runs
    ghost var free: FreeSlots
    ghost var slots: Slots
    ghost var pages: Pages
    ghost var live: Live

    /** The invariant while the pages `taken` and the slots `held` are in hand. */
    ghost predicate Inv(taken: set<nat>, held: set<nat>)
      reads this
    {
      && SlabsOk(slabs, links, free, slots.Keys, partial, all)
      && RunsOk(largeAllocs) && RunsOk(freePages)
      && PagesOk(pages, slabs, largeAllocs, freePages, taken)
      && UsesOk(slots, slabs, largeAllocs, freePages, live, held)
      && LargeOk(largeAllocs, live)
    }

    ghost predicate Valid()
      reads this
    {
      Inv({}, {})
    }

    lemma PartialLists(taken: set<nat>, held: set<nat>)
      requires Inv(taken, held)
      ensures |partial| == NUM_CLASSES
    {
    }

    lemma FullIffNoPartial()
      requires Valid()
      ensures |partial| == NUM_CLASSES
      ensures forall ci | 0 <= ci < NUM_CLASSES :: partial[ci] == [] <==> ClassFull(slabs, ci)
    {
      hide PagesOk, UsesOk, LargeOk, RunsOk, SlotsExact;
      forall ci | 0 <= ci < NUM_CLASSES
        ensures partial[ci] == [] <==> ClassFull(slabs, ci)
      {
        if partial[ci] != [] {
          assert partial[ci][0] in partial[ci];
        }
        forall p | p in slabs && slabs[p].classIndex == ci
          ensures slabs[p].usedCount == slabs[p].totalSlots <==> p !in partial[ci]
        {
          assert ListOk(p, slabs[p], links, free[p]);
        }
      }
    }

    constructor ()
      ensures Valid() && live == map[] && pages == map[]
    {
      partial, all := [[], [], [], [], [], []], [[], [], [], [], [], []];
      slabs, links, largeAllocs, freePages := map[], map[], [], [];
      free, slots, pages, live := map[], map[], map[], map[];
    }

    /** Gives a slot in hand back to its page. */
    method SlabDealloc(ptr: nat, effective: nat, ghost taken: set<nat>, ghost held: set<nat>)
      requires Inv(taken, held) && ptr in held
      requires Base(ptr) in slabs && ClassIndex(effective) == Some(slabs[Base(ptr)].classIndex)
      modifies this`slabs, this`links, this`partial, this`free, this`slots
      ensures Inv(taken, held - {ptr}) && WordsKept(old(links), links, live)
      ensures |partial| == NUM_CLASSES && partial[ClassIndex(effective).value] != []
      ensures Base(ptr) in slabs && slabs[Base(ptr)].freeHead == IndexOf(ptr, ClassIndex(effective).value)
      ensures |old(partial)| == NUM_CLASSES && all == old(all)
      ensures var ci, p := ClassIndex(effective).value, Base(ptr);
              partial == if old(slabs)[p].freeHead == FREE_END then old(partial)[ci := [p] + old(partial)[ci]]
                         else old(partial)
    {
      hide PagesOk, UsesOk, RunsOk, LargeOk, SlotsExact, Size, PageLists, RunsOk, ListOk, ClassIndex, IndexOf, Base,
           InLiveBlock, WordsKept;
      var ci := ClassIndex(effective).value;
      var pageBase := Base(ptr);
      var header := slabs[pageBase];
      HeldOutsideLive(this, taken, held, ptr);
      OneWordStored(links, live, ptr, header.freeHead);
      var slotIdx := IndexOf(ptr, ci);
      HeldIsSlot(slots, slabs, largeAllocs, freePages, live, held, ptr);
      PushSlot(slabs, links, free, slots.Keys, ptr);
      hide FreeLists;
      var wasFull := header.freeHead == FREE_END;
      SamePages(pages, slabs, largeAllocs, freePages, taken, pageBase, Pushed(header, slotIdx));
      DropSlot(slots, slabs, largeAllocs, freePages, live, held, pageBase, Pushed(header, slotIdx), ptr);
      Repartial(slabs, free, partial, all, pageBase, Pushed(header, slotIdx), [slotIdx] + free[pageBase]);
      links := links[ptr := header.freeHead];
      slabs := slabs[pageBase := header.(freeHead := slotIdx, usedCount := header.usedCount - 1)];
      free := free[pageBase := [slotIdx] + free[pageBase]];
      assert (slots - {ptr}).Keys == slots.Keys - {ptr};
      slots := slots - {ptr};
      if wasFull {
        partial := partial[header.classIndex := [pageBase] + partial[header.classIndex]];
      }
      assert PageLists(slabs, free, partial, all);
      HasPartial(slabs, free, partial, all, pageBase);
    }

    /** Removes run `k` of the free runs: its pages come into hand and its node goes back to its slab page. */
    method TakeRun(k: nat, ghost taken: set<nat>, ghost held: set<nat>)
      requires Inv(taken, held) && k < |freePages|
      modifies this`slabs, this`links, this`partial, this`free, this`slots, this`freePages, this`pages
      ensures Inv(taken + Run(old(freePages)[k].addr, old(freePages)[k].size), held)
      ensures WordsKept(old(links), links, live)
      ensures Run(old(freePages)[k].addr, old(freePages)[k].size) !! taken && pages.Keys == old(pages.Keys)
      ensures freePages == Without(old(freePages), k) && |partial| == NUM_CLASSES && partial[0] != []
    {
      hide PagesOk, UsesOk, RunsOk, LargeOk, SlabsOk, Base, WordsKept;
      var e := freePages[k];
      TakeWhole(pages, slabs, largeAllocs, freePages, taken, k);
      HoldFreeNode(slots, slabs, largeAllocs, freePages, live, held, k);
      freePages := freePages[..k] + freePages[k + 1..];
      pages := SetUse(pages, Run(e.addr, e.size), Taken);
      assert slots[e.node := Held].Keys == slots.Keys;
      slots := slots[e.node := Held];
      SlabDealloc(e.node, 12, taken + Run(e.addr, e.size), held + {e.node});
      assert held + {e.node} - {e.node} == held;
    }

    /** Takes the first `size` bytes of run `k` of the free runs in hand. */
    method CarveRun(k: nat, size: nat, ghost taken: set<nat>, ghost held: set<nat>)
      requires Inv(taken, held) && k < |freePages| && 0 < size < freePages[k].size && size % PAGE == 0
      modifies this`freePages, this`pages
      ensures Inv(taken + Run(old(freePages)[k].addr, size), held)
      ensures Run(old(freePages)[k].addr, size) !! taken && pages.Keys == old(pages.Keys)
      ensures freePages == old(freePages)[k := Shortened(old(freePages)[k], size)]
    {
      hide PagesOk, UsesOk, RunsOk, LargeOk, SlabsOk;
      TakeFront(pages, slabs, largeAllocs, freePages, taken, k, size);
      ShortenedNode(slots, slabs, largeAllocs, freePages, live, held, k, size);
      pages := SetUse(pages, Run(freePages[k].addr, size), Taken);
      freePages := freePages[k := Shortened(freePages[k], size)];
    }

    /** Takes the first `size` bytes of run `k` of the free runs in hand, or all of it. */
    method CutRun(k: nat, size: nat, ghost taken: set<nat>, ghost held: set<nat>)
      requires Inv(taken, held) && k < |freePages| && 0 < size <= freePages[k].size && size % PAGE == 0
      modifies this`slabs, this`links, this`partial, this`free, this`slots, this`freePages, this`pages
      ensures Inv(taken + Run(old(freePages)[k].addr, size), held)
      ensures WordsKept(old(links), links, live)
      ensures Run(old(freePages)[k].addr, size) !! taken && pages.Keys == old(pages.Keys)
      ensures freePages == Cut(old(freePages), k, size)
      ensures |partial| == NUM_CLASSES && (partial[0] != [] || freePages != [])
    {
      PartialLists(taken, held);
      WordsRefl(links, live);
      hide PagesOk, UsesOk, RunsOk, LargeOk, SlabsOk, Base, Run, Inv, Without, Shortened, WordsKept;
      var e := freePages[k];
      if e.size > size {
        CarveRun(k, size, taken, held);
      } else {
        assert e.size == size;
        TakeRun(k, taken, held);
      }
    }

    /** Fills a page in hand with zeros. */
    method ZeroPage(page: nat, ghost taken: set<nat>, ghost held: set<nat>)
      requires Inv(taken, held) && page in taken
      modifies this`links
      ensures Inv(taken, held) && AllZero(links, page) && WordsKept(old(links), links, live)
    {
      TakenIsNoSlab(pages, slabs, largeAllocs, freePages, taken, page);
      hide PagesOk, UsesOk, LargeOk, RunsOk, SlotsExact, PageLists, InLiveBlock;
      TakenOutsideLive(this, taken, held, page);
      ghost var links0 := links;
      links := (map x | x in links && Base(x) != page :: links[x]) +
               (map x: nat | page <= x < page + PAGE && x % 2 == 0 :: 0);
      ZeroIsLocal(links0, links, page);
      OtherPagesLists(slabs, links0, free, page, links);
      PageStored(links0, links, live, page);
    }

    /** A page: off the free runs if there is any, else the kernel's reply to a request for one page. */
    method AcquirePage(pageReply: Option<nat>, ghost taken: set<nat>, ghost held: set<nat>) returns (page: Option<nat>)
      requires Inv(taken, held) && (pageReply.Some? ==> FreshRun(pages, pageReply.value, PAGE))
      modifies this`slabs, this`links, this`partial, this`free, this`slots, this`freePages, this`pages
      ensures page.Some? ==> Inv(taken + {page.value}, held) && page.value !in taken && page.value % PAGE == 0
      ensures page.None? ==> Inv(taken, held) && pageReply.None? && unchanged(this)
      ensures page.Some? ==> AllZero(links, page.value)
      ensures old(freePages) == [] ==> page == pageReply && freePages == []
      ensures old(freePages) != [] ==>
                && page == Some(old(freePages)[0].addr) && PAGE <= old(freePages)[0].size
                && freePages == Cut(old(freePages), 0, PAGE)
      ensures old(pages.Keys) <= pages.Keys <= old(pages.Keys) + PageOf(pageReply) && WordsKept(old(links), links, live)
    {
      hide PagesOk, UsesOk, LargeOk, SlabsOk, Run, WordsKept, AllZero;
      var k := FirstFit(freePages, PAGE);
      assert forall i | 0 <= i < |freePages| :: IsRun(freePages[i].addr, freePages[i].size);
      if k.Some? {
        var e := freePages[k.value];
        assert IsRun(e.addr, e.size);
        OnePage(e.addr);
        CutRun(k.value, PAGE, taken, held);
        ghost var links1 := links;
        ZeroPage(e.addr, taken + Run(e.addr, PAGE), held);
        WordsTrans(old(links), links1, links, live);
        return Some(e.addr);
      }
      if pageReply.None? {
        WordsRefl(links, live);
        return None;
      }
      OnePage(pageReply.value);
      TakeFresh(pages, slabs, largeAllocs, freePages, taken, pageReply.value, PAGE);
      pages := WithRun(pages, pageReply.value, PAGE);
      ZeroPage(pageReply.value, taken + Run(pageReply.value, PAGE), held);
      return pageReply;
    }

    /** Threads the slots of a new page: each names the next, the last one the end. */
    method BuildFreeList(page: nat, ci: nat)
      requires ci < NUM_CLASSES && page % PAGE == 0
      modifies this`links
      ensures forall i | 1 <= i <= Total(ci) :: Threaded(page, ci, links, i)
      ensures forall x: nat | x in old(links) && Base(x) != page :: x in links && links[x] == old(links)[x]
    {
      hide SlotAt, Total, Base, Size;
      var slotSize := Size(ci);
      var totalSlots := Total(ci);
      var i := 1;
      while i <= totalSlots
        invariant 1 <= i <= totalSlots + 1
        invariant forall j | 1 <= j < i :: Threaded(page, ci, links, j)
        invariant forall x: nat | x in old(links) && Base(x) != page :: x in links && links[x] == old(links)[x]
      {
        SlotIndex(page, ci, i);
        ghost var before := links;
        links := links[SlotAt(page, ci, i) := if i < totalSlots then i + 1 else FREE_END];
        forall j | 1 <= j < i
          ensures Threaded(page, ci, links, j)
        {
          assert Threaded(page, ci, before, j);
          SlotIndex(page, ci, j);
        }
        i := i + 1;
      }
    }

    /** Makes the page in hand a slab page of class `ci`, at the head of both lists of its class. */
    method LinkPage(p: nat, ci: nat, ghost taken: set<nat>, ghost held: set<nat>)
      requires Inv(taken + {p}, held) && p !in taken && p % PAGE == 0 && ci < NUM_CLASSES
      modifies this`slabs, this`links, this`partial, this`all, this`free, this`pages
      ensures Inv(taken, held) && |partial| == NUM_CLASSES && partial[ci] != [] && partial[ci][0] == p
      ensures |old(partial)| == NUM_CLASSES && partial == old(partial)[ci := [p] + old(partial)[ci]]
      ensures |old(all)| == NUM_CLASSES && all == old(all)[ci := [p] + old(all)[ci]]
      ensures p in slabs && slabs[p] == Slab(1, 0, Total(ci), ci)
      ensures old(pages.Keys) == pages.Keys && WordsKept(old(links), links, live)
    {
      hide PagesOk, UsesOk, LargeOk, SlotsExact, PageLists, RunsOk, ListOk, Size, SlotAt, Threaded, Base, AllFree,
           WordsKept, InLiveBlock;
      TakenOutsideLive(this, taken + {p}, held, p);
      TakenIsMapped(pages, slabs, largeAllocs, freePages, taken + {p}, p);
      var header := Slab(1, 0, Total(ci), ci);
      AddSlabPage(pages, slabs, largeAllocs, freePages, taken, p, header);
      SlotsWithPage(slots, slabs, largeAllocs, freePages, live, held, p, header);
      ghost var links0 := links;
      BuildFreeList(p, ci);
      PageStored(links0, links, live, p);
      AddPage(slabs, links0, free, slots.Keys, p, ci, links);
      SizeFacts(ci);
      hide FreeLists, Total;
      AddToLists(slabs, free, partial, all, p, header, AllFree(Total(ci)));
      slabs := slabs[p := header];
      free := free[p := AllFree(Total(ci))];
      pages := pages[p := SlabPage];
      all := all[ci := [p] + all[ci]];
      partial := partial[ci := [p] + partial[ci]];
    }

    /** A new page of class `ci`, if one is to be had. */
    method NewSlabPage(ci: nat, pageReply: Option<nat>, ghost taken: set<nat>, ghost held: set<nat>)
      returns (slab: Option<nat>)
      requires Inv(taken, held) && ci < NUM_CLASSES && (pageReply.Some? ==> FreshRun(pages, pageReply.value, PAGE))
      modifies this`slabs, this`links, this`partial, this`all, this`free, this`slots, this`freePages, this`pages
      ensures slab.Some? ==> Inv(taken, held) && |partial| == NUM_CLASSES
      ensures slab.Some? ==> partial[ci] != [] && partial[ci][0] == slab.value
      ensures slab.Some? ==> |old(all)| == NUM_CLASSES && all == old(all)[ci := [slab.value] + old(all)[ci]]
      ensures slab.None? ==> Inv(taken, held) && unchanged(this)
      ensures slab.None? <==> old(freePages) == [] && pageReply.None?
      ensures slab.Some? ==> slab.value == NextPageOf(old(freePages), pageReply)
      ensures slab.Some? ==> slab.value in slabs && slabs[slab.value].freeHead == 1
      ensures old(pages.Keys) <= pages.Keys <= old(pages.Keys) + PageOf(pageReply) && WordsKept(old(links), links, live)
    {
      hide WordsKept, PageOf, PagesOk, UsesOk, LargeOk, SlabsOk, RunsOk, FreshRun;
      var page := AcquirePage(pageReply, taken, held);
      if page.None? {
        return None;
      }
      ghost var links1 := links;
      LinkPage(page.value, ci, taken, held);
      WordsTrans(old(links), links1, links, live);
      return page;
    }

    /** Pops the first free slot of the first page of class `ci` with one, and brings it in hand. */
    method PopFree(ci: nat, ghost taken: set<nat>, ghost held: set<nat>) returns (slotPtr: nat)
      requires Inv(taken, held) && ci < NUM_CLASSES && |partial| == NUM_CLASSES && partial[ci] != []
      modifies this`slabs, this`partial, this`free, this`slots
      ensures Inv(taken, held + {slotPtr}) && slotPtr !in held
      ensures Base(slotPtr) in slabs && slabs[Base(slotPtr)].classIndex == ci
      ensures var p := old(partial)[ci][0];
              p in old(slabs) && slotPtr == SlotAt(p, ci, old(slabs)[p].freeHead)
    {
      hide PagesOk, UsesOk, LargeOk, SlotsExact, RunsOk, ListOk, Size, SlotAt, UsedSlot, Base, NoDuplicates;
      var slab := partial[ci][0];
      assert slab in partial[ci];
      var header := slabs[slab];
      FirstFree(slabs, links, free, slab);
      slotPtr := SlotAt(slab, ci, header.freeHead);
      var next := links[slotPtr];
      PopSlot(slabs, links, free, slots.Keys, slab, next);
      hide FreeLists, PageLists;
      HoldSlot(slots, slabs, largeAllocs, freePages, live, held, slab, Popped(header, next), slotPtr);
      SamePages(pages, slabs, largeAllocs, freePages, taken, slab, Popped(header, next));
      Repartial(slabs, free, partial, all, slab, Popped(header, next), free[slab][1..]);
      slabs := slabs[slab := header.(freeHead := next, usedCount := header.usedCount + 1)];
      free := free[slab := free[slab][1..]];
      assert slots[slotPtr := Held].Keys == slots.Keys + {slotPtr};
      slots := slots[slotPtr := Held];
      if next == FREE_END {
        partial := partial[ci := partial[ci][1..]];
      }
    }

    /** A slot of class `ci`, in hand. Only when no page of the class has a free slot is the kernel's reply needed. */
    method SlabAlloc(ci: nat, pageReply: Option<nat>, ghost taken: set<nat>, ghost held: set<nat>)
      returns (r: Option<nat>)
      requires Inv(taken, held) && ci < NUM_CLASSES && (pageReply.Some? ==> FreshRun(pages, pageReply.value, PAGE))
      modifies this`slabs, this`links, this`partial, this`all, this`free, this`slots, this`freePages, this`pages
      ensures r.Some? ==> Inv(taken, held + {r.value}) && r.value !in held
      ensures r.Some? ==> Base(r.value) in slabs && slabs[Base(r.value)].classIndex == ci
      ensures r.None? ==> Inv(taken, held) && unchanged(this)
      ensures |old(partial)| == NUM_CLASSES
      ensures (r.None? <==> old(partial)[ci] == [] && old(freePages) == [] && pageReply.None?)
      ensures old(partial)[ci] != [] ==> pages == old(pages) && freePages == old(freePages)
      ensures r.Some? && old(partial)[ci] != [] ==>
                var p := old(partial)[ci][0];
                p in old(slabs) && r.value == SlotAt(p, ci, old(slabs)[p].freeHead)
      ensures r.Some? && old(partial)[ci] == [] ==> r.value == SlotAt(NextPageOf(old(freePages), pageReply), ci, 1)
      ensures old(pages.Keys) <= pages.Keys <= old(pages.Keys) + PageOf(pageReply) && WordsKept(old(links), links, live)
    {
      WordsRefl(links, live);
      hide WordsKept, PageOf, PagesOk, UsesOk, LargeOk, SlotsExact, RunsOk, FreeLists, Base, NoDuplicates;
      if partial[ci] == [] {
        var newPage := NewSlabPage(ci, pageReply, taken, held);
        if newPage.None? {
          return None;
        }
      }
      var slotPtr := PopFree(ci, taken, held);
      return Some(slotPtr);
    }

    /** Records the run in hand as a live block. The source stores into the node without testing it for null. */
    method RecordLargeAlloc(addr: nat, size: nat, ghost layout: Layout, pageReply: Option<nat>, ghost taken: set<nat>)
      returns (ok: bool)
      requires Inv(taken, {}) && taken == Run(addr, size) && IsRun(addr, size)
      requires size == RoundUp(layout.size) && layout.Effective() > 1024
      requires pageReply.Some? ==> FreshRun(pages, pageReply.value, PAGE)
      modifies this
      ensures ok ==> Valid() && live == old(live)[addr := layout] && addr !in old(live) && addr > 0
      ensures ok ==> Records(largeAllocs, addr, size, old(largeAllocs))
      ensures |old(partial)| == NUM_CLASSES && (!ok <==> NoNode(old(partial), old(freePages), pageReply))
      ensures !ok ==> unchanged(this)
      ensures old(pages.Keys) <= pages.Keys <= old(pages.Keys) + PageOf(pageReply)
      ensures WordsKept(old(links), links, old(live))
    {
      hide WordsKept, PageOf, PagesOk, UsesOk, LargeOk, SlabsOk, RunsOk, Base, ClassIndex, RoundUp, Run, SetUse;
      var node := SlabAlloc(0, pageReply, taken, {});
      if node.None? {
        return false;
      }
      var e := Extent(node.value, addr, size);
      assert addr in Run(addr, size);
      TakenIsNotLive(pages, slabs, largeAllocs, freePages, taken, slots, live, {} + {e.node}, addr);
      TakenIsMapped(pages, slabs, largeAllocs, freePages, taken, addr);
      HeldToLarge(slots, slabs, largeAllocs, freePages, live, {} + {e.node}, e, layout);
      GiveLarge(pages, slabs, largeAllocs, freePages, taken, e);
      RecordBlock(largeAllocs, live, e, layout);
      HeldIsSlot(slots, slabs, largeAllocs, freePages, live, {} + {e.node}, e.node);
      assert slots[e.node := LargeNode].Keys == slots.Keys;
      assert {} + {e.node} - {e.node} == {} && taken - Run(addr, size) == {};
      slots := slots[e.node := LargeNode];
      pages := SetUse(pages, Run(addr, size), Large(e.node));
      largeAllocs := [e] + largeAllocs;
      live := live[addr := layout];
      ok := true;
    }

    /** A run in hand: the front of the first free run that fits, else the kernel's reply to a request for a run. */
    method AcquireRun(size: nat, runReply: Option<nat>) returns (addr: Option<nat>, ghost k: Option<nat>)
      requires Valid() && size > 0 && size % PAGE == 0 && (runReply.Some? ==> FreshRun(pages, runReply.value, size))
      modifies this`slabs, this`links, this`partial, this`free, this`slots, this`freePages, this`pages
      ensures IsFirstFit(old(freePages), size, k)
      ensures addr == if k.Some? then Some(old(freePages)[k.value].addr) else runReply
      ensures addr.None? ==> unchanged(this)
      ensures addr.Some? ==> Inv(Run(addr.value, size), {}) && IsRun(addr.value, size)
      ensures |old(partial)| == NUM_CLASSES && |partial| == NUM_CLASSES
      ensures k.Some? ==> partial[0] != [] || freePages != []
      ensures k.None? ==> partial == old(partial) && freePages == old(freePages)
      ensures WordsKept(old(links), links, live)
      ensures k.Some? ==> pages.Keys == old(pages.Keys)
      ensures k.None? && addr.Some? ==> pages.Keys == old(pages.Keys) + Run(addr.value, size)
    {
      PartialLists({}, {});
      hide PagesOk, UsesOk, LargeOk, SlabsOk, RunsOk, Base, Run, SetUse, WithRun, Cut, WordsKept;
      WordsRefl(links, live);
      var fit := FirstFit(freePages, size);
      k := fit;
      if fit.Some? {
        addr := Some(freePages[fit.value].addr);
        RunAt(freePages, fit.value);
        CutRun(fit.value, size, {}, {});
        assert {} + Run(addr.value, size) == Run(addr.value, size);
      } else {
        addr := runReply;
        if addr.Some? {
          TakeFresh(pages, slabs, largeAllocs, freePages, {}, addr.value, size);
          WithRunKeys(pages, addr.value, size);
          assert {} + Run(addr.value, size) == Run(addr.value, size);
          pages := WithRun(pages, addr.value, size);
        }
      }
    }

    /** A block of whole pages. The source stores into its node without testing it for null. */
    method LargeAlloc(size: nat, ghost layout: Layout, runReply: Option<nat>, pageReply: Option<nat>)
      returns (r: Outcome, ghost k: Option<nat>)
      requires Valid() && size == layout.size && size > 0 && layout.Effective() > 1024
      requires runReply.Some? ==> FreshRun(pages, runReply.value, RoundUp(size))
      requires pageReply.Some? ==> FreshRun(pages, pageReply.value, PAGE)
      requires runReply.Some? && pageReply.Some? ==> pageReply.value !in Run(runReply.value, RoundUp(size))
      modifies this
      ensures r.Block? ==> Valid() && live == old(live)[r.addr := layout] && r.addr !in old(live) && r.addr > 0
      ensures IsFirstFit(old(freePages), RoundUp(size), k)
      ensures r.Block? ==> if k.Some? then r.addr == old(freePages)[k.value].addr else runReply == Some(r.addr)
      ensures r.Block? ==> Records(largeAllocs, r.addr, RoundUp(size), old(largeAllocs))
      ensures r.Null? ==> Valid() && unchanged(this)
      ensures r.Null? <==> k.None? && runReply.None?
      ensures |old(partial)| == NUM_CLASSES
      ensures r.Fault? <==> runReply.Some? && NoNode(old(partial), old(freePages), pageReply)
      ensures r.Fault? ==> Inv(Run(runReply.value, RoundUp(size)), {}) && live == old(live)
      ensures old(pages.Keys) <= pages.Keys <= old(pages.Keys) + RunOf(runReply, RoundUp(size)) + PageOf(pageReply)
      ensures WordsKept(old(links), links, old(live))
    {
      hide PagesOk, UsesOk, LargeOk, SlabsOk, Base, Run, SetUse, WordsKept, PageOf;
      var allocSize := RoundUp(size);
      assert allocSize % PAGE == 0 && allocSize > 0;
      hide RoundUp;
      var addr;
      addr, k := AcquireRun(allocSize, runReply);
      if addr.None? {
        return Null, k;
      }
      if pageReply.Some? {
        OnePage(pageReply.value);
      }
      ghost var links1 := links;
      var ok := RecordLargeAlloc(addr.value, allocSize, layout, pageReply, Run(addr.value, allocSize));
      WordsTrans(old(links), links1, links, old(live));
      r := if ok then Block(addr.value) else Fault;
    }

    /** Puts the run in hand on the free runs. When a 32-byte slot is free, no page is needed for its node. */
    method AddFreePages(addr: nat, size: nat, pageReply: Option<nat>, ghost taken: set<nat>) returns (ok: bool)
      requires Inv(taken, {}) && taken == Run(addr, size) && IsRun(addr, size)
      requires pageReply.Some? ==> FreshRun(pages, pageReply.value, PAGE)
      modifies this`slabs, this`links, this`partial, this`all, this`free, this`slots, this`freePages, this`pages
      ensures ok ==> Valid() && freePages != [] && freePages[0].addr == addr && freePages[0].size == size
      ensures WordsKept(old(links), links, live)
      ensures |old(partial)| == NUM_CLASSES && (!ok <==> NoNode(old(partial), old(freePages), pageReply))
      ensures old(partial)[0] != [] ==> pages.Keys == old(pages.Keys) && Records(freePages, addr, size, old(freePages))
    {
      hide WordsKept, PageOf, PagesOk, UsesOk, LargeOk, SlabsOk, RunsOk, Base, ClassIndex, Run, SetUse;
      var node := SlabAlloc(0, pageReply, taken, {});
      if node.None? {
        return false;
      }
      var e := Extent(node.value, addr, size);
      HeldToFree(slots, slabs, largeAllocs, freePages, live, {} + {e.node}, e);
      GiveFree(pages, slabs, largeAllocs, freePages, taken, e);
      HeldIsSlot(slots, slabs, largeAllocs, freePages, live, {} + {e.node}, e.node);
      assert slots[e.node := FreeNode].Keys == slots.Keys;
      assert {} + {e.node} - {e.node} == {} && taken - Run(addr, size) == {};
      slots := slots[e.node := FreeNode];
      pages := SetUse(pages, Run(addr, size), Free(e.node));
      freePages := [e] + freePages;
      ok := true;
    }

    /** The position of the recorded run that starts at `target`. */
    method FindLarge(target: nat) returns (k: Option<nat>)
      ensures k.None? ==> forall i | 0 <= i < |largeAllocs| :: largeAllocs[i].addr != target
      ensures k.Some? ==> k.value < |largeAllocs| && largeAllocs[k.value].addr == target
    {
      var cur := 0;
      while cur < |largeAllocs|
        invariant cur <= |largeAllocs| && forall i | 0 <= i < cur :: largeAllocs[i].addr != target
      {
        if largeAllocs[cur].addr == target {
          return Some(cur);
        }
        cur := cur + 1;
      }
      k := None;
    }

    /** Turns the recorded run at `ptr` into a free run; anything else is ignored. It never needs a page. */
    method LargeDealloc(ptr: nat) returns (ghost k: Option<nat>)
      requires Valid()
      modifies this
      ensures k.None? ==> unchanged(this) && forall i | 0 <= i < |largeAllocs| :: largeAllocs[i].addr != ptr
      ensures k.Some? ==> k.value < |old(largeAllocs)| && old(largeAllocs)[k.value].addr == ptr
      ensures k.Some? ==> largeAllocs == Without(old(largeAllocs), k.value)
      ensures k.Some? ==> Records(freePages, ptr, old(largeAllocs)[k.value].size, old(freePages))
      ensures Valid() && pages.Keys == old(pages.Keys) && WordsKept(old(links), links, live)
      ensures live == if ptr in old(live) && old(live)[ptr].Effective() > 1024 then old(live) - {ptr} else old(live)
    {
      WordsRefl(links, live);
      hide PagesOk, UsesOk, SlabsOk, RunsOk, Base, Run, SetUse, RoundUp, WordsKept;
      var found := FindLarge(ptr);
      k := found;
      if found.None? {
        return;
      }
      var e := largeAllocs[found.value];
      hide LargeOk;
      ForgetBlock(pages, slabs, largeAllocs, freePages, {}, live, k.value);
      TakeLarge(pages, slabs, largeAllocs, freePages, {}, k.value);
      ForgetLarge(slots, slabs, largeAllocs, freePages, live, {}, ptr);
      HoldLargeNode(slots, slabs, largeAllocs, freePages, live - {ptr}, {}, k.value);
      ghost var run := Run(e.addr, e.size);
      assert slots[e.node := Held].Keys == slots.Keys;
      largeAllocs := largeAllocs[..found.value] + largeAllocs[found.value + 1..];
      pages := SetUse(pages, run, Taken);
      slots := slots[e.node := Held];
      live := live - {ptr};
      SlabDealloc(e.node, 12, {} + run, {} + {e.node});
      assert {} + {e.node} - {e.node} == {} && {} + run == run;
      ghost var links1 := links;
      var ok := AddFreePages(ptr, e.size, None, run);
      WordsTrans(old(links), links1, links, live);
    }

    /** A block for `layout`: a slot of the smallest class that holds it, or whole pages. */
    method Alloc(layout: Layout, runReply: Option<nat>, pageReply: Option<nat>) returns (r: Outcome)
      requires Valid() && layout.size > 0
      requires runReply.Some? ==> FreshRun(pages, runReply.value, RoundUp(layout.size))
      requires pageReply.Some? ==> FreshRun(pages, pageReply.value, PAGE)
      requires runReply.Some? && pageReply.Some? ==> pageReply.value !in Run(runReply.value, RoundUp(layout.size))
      modifies this
      ensures r.Block? ==> Valid() && live == old(live)[r.addr := layout] && r.addr !in old(live) && r.addr > 0
      ensures r.Null? ==> Valid() && unchanged(this)
      ensures |old(partial)| == NUM_CLASSES
      ensures layout.Effective() <= 1024 ==>
                var ci := ClassIndex(layout.Effective()).value;
                && (r.Null? <==> ClassFull(old(slabs), ci) && old(freePages) == [] && pageReply.None?)
                && (r.Block? && old(partial)[ci] != [] ==>
                      var p := old(partial)[ci][0];
                      p in old(slabs) && r.addr == SlotAt(p, ci, old(slabs)[p].freeHead) && pages == old(pages))
                && (r.Block? && old(partial)[ci] == [] ==>
                      r.addr == SlotAt(NextPageOf(old(freePages), pageReply), ci, 1))
      ensures layout.Effective() > 1024 ==>
                (r.Null? <==>
                 && runReply.None?
                 && (forall i | 0 <= i < |old(freePages)| :: old(freePages)[i].size < RoundUp(layout.size)))
      ensures layout.Effective() > 1024 && r.Block? ==>
                exists k :: IsFirstFit(old(freePages), RoundUp(layout.size), k) &&
                            Some(r.addr) == if k.Some? then Some(old(freePages)[k.value].addr) else runReply
      ensures r.Fault? <==>
              layout.Effective() > 1024 && runReply.Some? && NoNode(old(partial), old(freePages), pageReply)
      ensures r.Fault? ==> Inv(Run(runReply.value, RoundUp(layout.size)), {}) && live == old(live)
      ensures old(pages.Keys) <= pages.Keys
      ensures pages.Keys <= old(pages.Keys) + RunOf(runReply, RoundUp(layout.size)) + PageOf(pageReply)
      ensures WordsKept(old(links), links, old(live))
    {
      hide PagesOk, UsesOk, SlabsOk, RunsOk, Base, Run, RoundUp, LargeOk, WordsKept, PageOf, RunOf;
      FullIffNoPartial();
      var effective := if layout.size > layout.align then layout.size else layout.align;
      var ci := ClassIndex(effective);
      if ci.None? {
        ghost var k;
        r, k := LargeAlloc(layout.size, layout, runReply, pageReply);
        return;
      }
      var a := SlabAlloc(ci.value, pageReply, {}, {});
      if a.None? {
        return Null;
      }
      ghost var held := {} + {a.value};
      HeldIsNotLive(pages, slabs, largeAllocs, freePages, {}, slots, live, held, a.value);
      HeldIsSlot(slots, slabs, largeAllocs, freePages, live, held, a.value);
      HeldToUser(slots, slabs, largeAllocs, freePages, live, held, a.value, layout);
      KeepLarge(largeAllocs, live, a.value, layout);
      SlabIsNotNull(pages, slabs, largeAllocs, freePages, {}, a.value);
      assert slots[a.value := User].Keys == slots.Keys && held - {a.value} == {};
      slots := slots[a.value := User];
      live := live[a.value := layout];
      return Block(a.value);
    }

    /** Gives a live block back, under the layout it was asked for with. It never needs a page. */
    method Dealloc(ptr: nat, layout: Layout)
      requires Valid() && (ptr != 0 ==> ptr in live && live[ptr] == layout)
      modifies this
      ensures WordsKept(old(links), links, live)
      ensures ptr != 0 && layout.Effective() > 1024 ==> Records(freePages, ptr, RoundUp(layout.size), old(freePages))
      ensures ptr != 0 && layout.Effective() <= 1024 ==>
                var ci := ClassIndex(layout.Effective()).value;
                Base(ptr) in slabs && slabs[Base(ptr)].freeHead == IndexOf(ptr, ci) && freePages == old(freePages)
      ensures Valid() && live == (if ptr == 0 then old(live) else old(live) - {ptr}) && pages.Keys == old(pages.Keys)
    {
      WordsRefl(links, live);
      hide PagesOk, UsesOk, SlabsOk, RunsOk, Base, Run, RoundUp, LargeOk, WordsKept;
      if ptr == 0 {
        return;
      }
      var effective := if layout.size > layout.align then layout.size else layout.align;
      if effective > 1024 {
        RecordSize(largeAllocs, live, ptr);
        ghost var k := LargeDealloc(ptr);
      } else {
        UserToHeld(slots, slabs, largeAllocs, freePages, live, {}, ptr);
        DropSmall(largeAllocs, live, ptr);
        assert slots[ptr := Held].Keys == slots.Keys && {} + {ptr} - {ptr} == {};
        slots := slots[ptr := Held];
        live := live - {ptr};
        SlabDealloc(ptr, effective, {}, {} + {ptr});
      }
    }

    /** A store of the program into one of its blocks. */
    method StoreWord(at: nat, value: nat)
      requires Valid() && InLiveBlock(live, at)
      modifies this`links
      ensures Valid() && links == old(links)[at := value]
    {
      StoresAreHarmless(this, links[at := value]);
      hide PagesOk, UsesOk, LargeOk, RunsOk, SlotsExact, PageLists, FreeLists, InLiveBlock;
      links := links[at := value];
    }
  }

  // ---------- What every reachable heap promises ----------

  /** Two areas share no byte. */
  ghost predicate Apart(a: nat, n: nat, b: nat, m: nat) {
    a + n <= b || b + m <= a
  }

  /** The area set aside for a block. */
  function Area(layout: Layout): nat {
    match ClassIndex(layout.Effective())
    case Some(ci) => Size(ci)
    case None => RoundUp(layout.size)
  }

  lemma AreaHolds(layout: Layout)
    ensures layout.size <= Area(layout)
  {
  }

  lemma TwoSlots(p: nat, ci: nat, i: nat, q: nat, cj: nat, j: nat)
    requires p % PAGE == 0 && q % PAGE == 0 && ci < NUM_CLASSES && cj < NUM_CLASSES && i <= Total(ci) && j <= Total(cj)
    requires (p == q && ci == cj && i != j) || p != q
    ensures Apart(SlotAt(p, ci, i), Size(ci), SlotAt(q, cj, j), Size(cj))
  {
    hide Total, Size, SlotAt;
    if p == q {
      if i < j {
        SlotsApart(p, ci, i, j);
      } else {
        SlotsApart(p, ci, j, i);
      }
    } else {
      SlotIndex(p, ci, i);
      SlotIndex(q, cj, j);
    }
  }

  lemma SlotAndRun(p: nat, ci: nat, i: nat, addr: nat, size: nat)
    requires p % PAGE == 0 && ci < NUM_CLASSES && i <= Total(ci) && IsRun(addr, size) && !Covers(addr, size, p)
    ensures Apart(SlotAt(p, ci, i), Size(ci), addr, size)
  {
    SlotIndex(p, ci, i);
    hide SlotAt, Total, Size;
  }

  lemma TwoRuns(a: nat, n: nat, b: nat, m: nat)
    requires IsRun(a, n) && IsRun(b, m) && !Covers(a, n, b) && !Covers(b, m, a)
    ensures Apart(a, n, b, m)
  {
  }

  /** Slot `i` of page `p` is the header or is on the free list or serves as a tracking node. */
  ghost predicate OwnSlot(h: SlabAllocator, p: nat, i: nat)
    requires h.Valid() && p in h.slabs
    reads h
  {
    && h.slabs[p].classIndex < NUM_CLASSES && i <= Total(h.slabs[p].classIndex)
    && (i == 0 || i in h.free[p] ||
        (var a := SlotAt(p, h.slabs[p].classIndex, i); a in h.slots && h.slots[a] in {LargeNode, FreeNode}))
  }

  /** Where a small block lies: a used slot of a page of its class. */
  lemma SmallBlock(h: SlabAllocator, taken: set<nat>, held: set<nat>, a: nat) returns (p: nat, ci: nat, i: nat)
    requires h.Inv(taken, held) && a in h.live && h.live[a].Effective() <= 1024
    ensures p in h.slabs && p % PAGE == 0 && ci == h.slabs[p].classIndex
    ensures ci < NUM_CLASSES && 1 <= i <= Total(ci) && i !in h.free[p]
    ensures a == SlotAt(p, ci, i) && a in h.slots && h.slots[a] == User
    ensures h.live[a].Effective() <= Area(h.live[a]) == Size(ci)
  {
    UserToHeld(h.slots, h.slabs, h.largeAllocs, h.freePages, h.live, held, a);
    hide PagesOk, RunsOk, LargeOk, Total, Size, SlotAt, PageLists;
    IsUser(h.slots, h.slabs, h.largeAllocs, h.freePages, h.live, held, a);
    p := Base(a);
    ci := h.slabs[p].classIndex;
    assert UsedSlot(h.slabs, h.free, a);
    SlotOf(a, ci);
    i := IndexOf(a, ci);
  }

  lemma IsUser(slots: Slots, slabs: Slabs, large: Runs, free: Runs, live: Live, held: set<nat>, a: nat)
    requires UsesOk(slots, slabs, large, free, live, held) && a in live && live[a].Effective() <= 1024
    ensures a in slots && slots[a] == User
  {
    hide Tracks, ClassIndex, Base;
  }

  /** Where a large block lies: a recorded run. */
  lemma LargeBlock(h: SlabAllocator, taken: set<nat>, held: set<nat>, a: nat) returns (k: nat)
    requires h.Inv(taken, held) && a in h.live && h.live[a].Effective() > 1024
    ensures k < |h.largeAllocs| && h.largeAllocs[k].addr == a
    ensures h.largeAllocs[k].size == Area(h.live[a]) && IsRun(a, Area(h.live[a]))
    ensures forall p | p in h.slabs || p in taken :: !Covers(a, Area(h.live[a]), p)
  {
    hide SlabsOk, UsesOk, RoundUp;
    assert StartsRun(h.largeAllocs, a);
    k :| 0 <= k < |h.largeAllocs| && h.largeAllocs[k].addr == a;
    forall p | p in h.slabs || p in taken
      ensures !Covers(a, Area(h.live[a]), p)
    {
      TracksOne(h.largeAllocs, k, p);
    }
  }

  /** Live blocks are pairwise disjoint. */
  lemma LiveBlocksApart(h: SlabAllocator, a: nat, b: nat)
    requires h.Valid() && a in h.live && b in h.live && a != b
    ensures Apart(a, Area(h.live[a]), b, Area(h.live[b]))
  {
    hide PagesOk, UsesOk, SlabsOk, RunsOk, LargeOk, Area, Total, SlotAt;
    if h.live[a].Effective() <= 1024 {
      var p, ci, i := SmallBlock(h, {}, {}, a);
      if h.live[b].Effective() <= 1024 {
        var q, cj, j := SmallBlock(h, {}, {}, b);
        TwoSlots(p, ci, i, q, cj, j);
      } else {
        var k := LargeBlock(h, {}, {}, b);
        SlotAndRun(p, ci, i, b, Area(h.live[b]));
      }
    } else {
      var k := LargeBlock(h, {}, {}, a);
      if h.live[b].Effective() <= 1024 {
        var q, cj, j := SmallBlock(h, {}, {}, b);
        SlotAndRun(q, cj, j, a, Area(h.live[a]));
      } else {
        var l := LargeBlock(h, {}, {}, b);
        RunsApart(h.pages, h.slabs, h.largeAllocs, h.freePages, {}, k, l);
      }
    }
  }

  lemma RunsApart(pages: Pages, slabs: Slabs, large: Runs, free: Runs, taken: set<nat>, k: nat, l: nat)
    requires PagesOk(pages, slabs, large, free, taken) && RunsOk(large) && k < |large| && l < |large| && k != l
    ensures Apart(large[k].addr, large[k].size, large[l].addr, large[l].size)
  {
    TracksOne(large, k, large[l].addr);
    TracksOne(large, l, large[l].addr);
    TracksOne(large, k, large[k].addr);
    TracksOne(large, l, large[k].addr);
    hide TracksPage;
    TwoRuns(large[k].addr, large[k].size, large[l].addr, large[l].size);
  }

  /** A live block shares no byte with a header, a free slot or a tracking node, */
  lemma LiveBlockApartFromOwn(h: SlabAllocator, a: nat, q: nat, j: nat)
    requires h.Valid() && a in h.live && q in h.slabs && OwnSlot(h, q, j)
    ensures Apart(a, Area(h.live[a]), SlotAt(q, h.slabs[q].classIndex, j), Size(h.slabs[q].classIndex))
  {
    assert q % PAGE == 0 by { hide PagesOk, UsesOk, SlotsExact, RunsOk, LargeOk, PageLists, ListOk; }
    hide PagesOk, UsesOk, SlabsOk, RunsOk, LargeOk, Area, Total, SlotAt;
    if h.live[a].Effective() <= 1024 {
      var p, ci, i := SmallBlock(h, {}, {}, a);
      TwoSlots(p, ci, i, q, h.slabs[q].classIndex, j);
    } else {
      var k := LargeBlock(h, {}, {}, a);
      SlotAndRun(q, h.slabs[q].classIndex, j, a, Area(h.live[a]));
    }
  }

  /** nor with a free run. */
  lemma LiveBlockApartFromFreeRun(h: SlabAllocator, a: nat, k: nat)
    requires h.Valid() && a in h.live && k < |h.freePages|
    ensures Apart(a, Area(h.live[a]), h.freePages[k].addr, h.freePages[k].size)
  {
    FreeRun(h, k);
    hide PagesOk, UsesOk, SlabsOk, RunsOk, LargeOk, Area, Total, SlotAt;
    var e := h.freePages[k];
    if h.live[a].Effective() <= 1024 {
      var p, ci, i := SmallBlock(h, {}, {}, a);
      SlotAndRun(p, ci, i, e.addr, e.size);
    } else {
      var l := LargeBlock(h, {}, {}, a);
      FreeAndLarge(h.pages, h.slabs, h.largeAllocs, h.freePages, {}, l, k);
    }
  }

  lemma FreeRun(h: SlabAllocator, k: nat)
    requires h.Valid() && k < |h.freePages|
    ensures IsRun(h.freePages[k].addr, h.freePages[k].size)
    ensures forall p | p in h.slabs :: !Covers(h.freePages[k].addr, h.freePages[k].size, p)
  {
    hide SlabsOk, UsesOk, RoundUp;
    forall p | p in h.slabs
      ensures !Covers(h.freePages[k].addr, h.freePages[k].size, p)
    {
      TracksOne(h.freePages, k, p);
    }
  }

  lemma FreeAndLarge(pages: Pages, slabs: Slabs, large: Runs, free: Runs, taken: set<nat>, l: nat, k: nat)
    requires PagesOk(pages, slabs, large, free, taken) && RunsOk(large) && RunsOk(free) && l < |large| && k < |free|
    ensures Apart(large[l].addr, large[l].size, free[k].addr, free[k].size)
  {
    TracksOne(large, l, free[k].addr);
    TracksOne(free, k, free[k].addr);
    TracksOne(large, l, large[l].addr);
    TracksOne(free, k, large[l].addr);
    hide TracksPage;
    TwoRuns(large[l].addr, large[l].size, free[k].addr, free[k].size);
  }

  ghost function RunsWith(es: Runs, p: nat): set<nat> {
    set k | 0 <= k < |es| && Covers(es[k].addr, es[k].size, p)
  }

  lemma RunsWithOne(es: Runs, p: nat, n: nat)
    requires RunsOk(es) && TracksPage(es, n, p)
    requires forall m | m != n :: !TracksPage(es, m, p)
    ensures |RunsWith(es, p)| == 1
  {
    hide Covers;
    var k :| 0 <= k < |es| && es[k].node == n && Covers(es[k].addr, es[k].size, p);
    forall i | 0 <= i < |es| && Covers(es[i].addr, es[i].size, p)
      ensures i == k
    {
      assert TracksPage(es, es[i].node, p);
    }
    assert RunsWith(es, p) == {k};
  }

  lemma RunsWithNone(es: Runs, p: nat)
    requires forall m :: !TracksPage(es, m, p)
    ensures RunsWith(es, p) == {}
  {
    hide Covers;
    forall i | 0 <= i < |es|
      ensures Covers(es[i].addr, es[i].size, p) ==> TracksPage(es, es[i].node, p)
    {
    }
  }

  /**
   The mapped pages are exactly partitioned: each is one slab page, or in one live large block, or in one free run.
   */
  lemma PagesPartitioned(h: SlabAllocator, p: nat)
    requires h.Valid()
    ensures (if p in h.slabs then 1 else 0) + |RunsWith(h.largeAllocs, p)| + |RunsWith(h.freePages, p)| ==
            if p in h.pages then 1 else 0
  {
    hide SlabsOk, UsesOk, LargeOk, RunsOk, TracksPage, RunsWith;
    if p in h.pages && h.pages[p].Large? {
      RunsWithOne(h.largeAllocs, p, h.pages[p].node);
    } else {
      RunsWithNone(h.largeAllocs, p);
    }
    if p in h.pages && h.pages[p].Free? {
      RunsWithOne(h.freePages, p, h.pages[p].node);
    } else {
      RunsWithNone(h.freePages, p);
    }
  }

  // ---------- Alignment ----------

  predicate PowerOfTwo(n: nat) {
    n == 1 || (n > 1 && n % 2 == 0 && PowerOfTwo(n / 2))
  }

  lemma {:induction false} PowersDivide(n: nat, m: nat)
    requires PowerOfTwo(n) && PowerOfTwo(m) && n <= m
    ensures n > 0 && m % n == 0
  {
    if n > 1 {
      PowersDivide(n / 2, m / 2);
      var q := m / 2 / (n / 2);
      DivMod(m / 2, n / 2);
      assert m == q * n by { assert m / 2 == q * (n / 2); assert m == 2 * (m / 2) && n == 2 * (n / 2); }
      DivModOf(q, n, 0);
    }
  }

  lemma SizesArePowers(ci: nat)
    requires ci < NUM_CLASSES
    ensures PowerOfTwo(Size(ci)) && PowerOfTwo(PAGE)
  {
    assert PowerOfTwo(1) && PowerOfTwo(2) && PowerOfTwo(4) && PowerOfTwo(8) && PowerOfTwo(16) && PowerOfTwo(32);
    assert PowerOfTwo(64) && PowerOfTwo(128) && PowerOfTwo(256);
    assert PowerOfTwo(512) && PowerOfTwo(1024) && PowerOfTwo(2048);
  }

  /** A multiple of a multiple of `n`. */
  lemma MultipleOf(x: nat, m: nat, n: nat)
    requires m > 0 && n > 0 && x % m == 0 && m % n == 0
    ensures x % n == 0
  {
    var a, b := x / m, m / n;
    DivMod(x, m);
    DivMod(m, n);
    assert x == a * b * n by { assert a * (b * n) == a * b * n; }
    DivModOf(a * b, n, 0);
  }

  /** A live block starts at a multiple of its alignment, for every alignment up to a page. */
  lemma LiveBlockAligned(h: SlabAllocator, a: nat)
    requires h.Valid() && a in h.live && PowerOfTwo(h.live[a].align) && h.live[a].align <= PAGE
    ensures a % h.live[a].align == 0
  {
    hide PagesOk, UsesOk, SlabsOk, RunsOk, LargeOk, PowerOfTwo, RoundUp, Size, SlotAt, Total, Area;
    var n := h.live[a].align;
    if h.live[a].Effective() <= 1024 {
      var p, ci, i := SmallBlock(h, {}, {}, a);
      SlotAligned(p, ci, i, n);
    } else {
      var k := LargeBlock(h, {}, {}, a);
      SizesArePowers(0);
      PowersDivide(n, PAGE);
      MultipleOf(a, PAGE, n);
    }
  }

  lemma SlotAligned(p: nat, ci: nat, i: nat, n: nat)
    requires ci < NUM_CLASSES && p % PAGE == 0 && PowerOfTwo(n) && n <= Size(ci)
    ensures SlotAt(p, ci, i) % n == 0
  {
    SizesArePowers(ci);
    SizeFacts(ci);
    hide Size, PowerOfTwo;
    PowersDivide(n, Size(ci));
    PowersDivide(n, PAGE);
    DivModOf(i, Size(ci), 0);
    MultipleOf(i * Size(ci), Size(ci), n);
    MultipleOf(p, PAGE, n);
    SumMultiple(p, i * Size(ci), n);
  }

  lemma SumMultiple(x: nat, y: nat, n: nat)
    requires n > 0 && x % n == 0 && y % n == 0
    ensures (x + y) % n == 0
  {
    DivMod(x, n);
    DivMod(y, n);
    assert x + y == (x / n + y / n) * n;
    DivModOf(x / n + y / n, n, 0);
  }

  // ---------- The allocator's stores and the program's ----------

  ghost predicate InLiveBlock(live: Live, x: nat) {
    exists a :: a in live && a <= x < a + Area(live[a])
  }

  /** What is stored inside the blocks of `live` is the same. */
  ghost predicate WordsKept(links: Links, links': Links, live: Live) {
    forall x: nat | x in links && InLiveBlock(live, x) :: x in links' && links'[x] == links[x]
  }

  lemma WordsRefl(links: Links, live: Live)
    ensures WordsKept(links, links, live)
  {
    hide InLiveBlock;
  }

  lemma OneWordStored(links: Links, live: Live, x: nat, v: nat)
    requires !InLiveBlock(live, x)
    ensures WordsKept(links, links[x := v], live)
  {
    hide InLiveBlock;
  }

  lemma PageStored(links: Links, links': Links, live: Live, p: nat)
    requires forall x: nat | Base(x) == p :: !InLiveBlock(live, x)
    requires forall x: nat | x in links && Base(x) != p :: x in links' && links'[x] == links[x]
    ensures WordsKept(links, links', live)
  {
    hide InLiveBlock, Base;
  }

  lemma WordsTrans(l0: Links, l1: Links, l2: Links, live: Live)
    requires WordsKept(l0, l1, live) && WordsKept(l1, l2, live)
    ensures WordsKept(l0, l2, live)
  {
    hide InLiveBlock;
  }

  /** A slot in hand lies in no live block, */
  lemma HeldOutsideLive(h: SlabAllocator, taken: set<nat>, held: set<nat>, x: nat)
    requires h.Inv(taken, held) && x in held
    ensures !InLiveBlock(h.live, x)
  {
    var p, ci, i := HeldSlot(h, taken, held, x);
    hide PagesOk, UsesOk, SlabsOk, RunsOk, LargeOk, Area, Total, SlotAt;
    SizeFacts(ci);
    forall a | a in h.live
      ensures !(a <= x < a + Area(h.live[a]))
    {
      if h.live[a].Effective() <= 1024 {
        var q, cj, j := SmallBlock(h, taken, held, a);
        TwoSlots(p, ci, i, q, cj, j);
      } else {
        var k := LargeBlock(h, taken, held, a);
        SlotAndRun(p, ci, i, a, Area(h.live[a]));
      }
    }
  }

  lemma HeldSlot(h: SlabAllocator, taken: set<nat>, held: set<nat>, x: nat) returns (p: nat, ci: nat, i: nat)
    requires h.Inv(taken, held) && x in held
    ensures p in h.slabs && p % PAGE == 0 && ci == h.slabs[p].classIndex
    ensures ci < NUM_CLASSES && 1 <= i <= Total(ci) && x == SlotAt(p, ci, i)
    ensures x in h.slots && h.slots[x] == Held
  {
    IsHeld(h.slots, h.slabs, h.largeAllocs, h.freePages, h.live, held, x);
    hide PagesOk, UsesOk, RunsOk, LargeOk, Total, Size, SlotAt, PageLists;
    assert UsedSlot(h.slabs, h.free, x);
    p := Base(x);
    ci := h.slabs[p].classIndex;
    SlotOf(x, ci);
    i := IndexOf(x, ci);
  }

  lemma IsHeld(slots: Slots, slabs: Slabs, large: Runs, free: Runs, live: Live, held: set<nat>, a: nat)
    requires UsesOk(slots, slabs, large, free, live, held) && a in held
    ensures a in slots && slots[a] == Held
  {
    hide Tracks, ClassIndex, Base;
  }

  /** and neither does any place in a page in hand. */
  lemma TakenOutsideLive(h: SlabAllocator, taken: set<nat>, held: set<nat>, p: nat)
    requires h.Inv(taken, held) && p in taken
    ensures forall x: nat | Base(x) == p :: !InLiveBlock(h.live, x)
  {
    assert p % PAGE == 0 && p !in h.slabs by { hide UsesOk, SlabsOk, RunsOk, LargeOk, TracksPage; }
    hide PagesOk, UsesOk, SlabsOk, RunsOk, LargeOk, Area, Total, SlotAt;
    forall x: nat, a | Base(x) == p && a in h.live
      ensures !(a <= x < a + Area(h.live[a]))
    {
      if h.live[a].Effective() <= 1024 {
        var q, cj, j := SmallBlock(h, taken, held, a);
        SlotIndex(q, cj, j);
        OtherPage(q, p, x, a, Area(h.live[a]));
      } else {
        var k := LargeBlock(h, taken, held, a);
        NotInRun(p, x, a, Area(h.live[a]));
      }
    }
  }

  lemma OtherPage(q: nat, p: nat, x: nat, a: nat, n: nat)
    requires q % PAGE == 0 && Base(x) == p && p != q && Base(a) == q && a + n <= q + PAGE
    ensures !(a <= x < a + n)
  {
  }

  lemma NotInRun(p: nat, x: nat, a: nat, n: nat)
    requires Base(x) == p && IsRun(a, n) && !Covers(a, n, p)
    ensures !(a <= x < a + n)
  {
  }

  /** Whatever the program stores into its live blocks, the free lists threaded through the slots survive. */
  lemma StoresAreHarmless(h: SlabAllocator, links: Links)
    requires h.Valid()
    requires forall x: nat | x in h.links && !InLiveBlock(h.live, x) :: x in links && links[x] == h.links[x]
    ensures FreeLists(h.slabs, links, h.free)
  {
    forall p | p in h.slabs
      ensures p % PAGE == 0 && ListOk(p, h.slabs[p], links, h.free[p])
    {
      hide PagesOk, UsesOk, LargeOk, RunsOk, SlotsExact, PageLists, SlotAt, Total, Size, Area;
      var ci, fs := h.slabs[p].classIndex, h.free[p];
      assert ListOk(p, h.slabs[p], h.links, fs);
      forall i | 0 <= i < |fs|
        ensures Linked(p, ci, links, fs, i)
      {
        assert Linked(p, ci, h.links, fs, i);
        FreeSlotNotLive(h, p, fs[i]);
      }
    }
  }

  lemma LiveIsNotNull(h: SlabAllocator, a: nat)
    requires h.Valid() && a in h.live
    ensures a > 0
  {
    hide UsesOk, SlabsOk, RunsOk, LargeOk, Area, Total, SlotAt, PagesOk;
    if h.live[a].Effective() <= 1024 {
      var p, ci, i := SmallBlock(h, {}, {}, a);
      SlotIndex(p, ci, i);
      SlabIsNotNull(h.pages, h.slabs, h.largeAllocs, h.freePages, {}, a);
    } else {
      var k := LargeBlock(h, {}, {}, a);
      RunIsNotNull(h.pages, h.slabs, h.largeAllocs, h.freePages, {}, k);
    }
  }

  lemma RunIsNotNull(pages: Pages, slabs: Slabs, large: Runs, free: Runs, taken: set<nat>, k: nat)
    requires PagesOk(pages, slabs, large, free, taken) && RunsOk(large) && k < |large|
    ensures large[k].addr > 0
  {
    TracksOne(large, k, large[k].addr);
    hide TracksPage;
  }

  lemma FreeSlotNotLive(h: SlabAllocator, p: nat, i: nat)
    requires h.Valid() && p in h.slabs && h.slabs[p].classIndex < NUM_CLASSES
    requires i <= Total(h.slabs[p].classIndex) && i in h.free[p]
    ensures !InLiveBlock(h.live, SlotAt(p, h.slabs[p].classIndex, i))
  {
    SizeFacts(h.slabs[p].classIndex);
    hide PagesOk, UsesOk, SlabsOk, RunsOk, LargeOk, Area, Total, SlotAt;
    forall a | a in h.live
      ensures !(a <= SlotAt(p, h.slabs[p].classIndex, i) < a + Area(h.live[a]))
    {
      LiveBlockApartFromOwn(h, a, p, i);
    }
  }
}