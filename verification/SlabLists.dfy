/**
 The pages of the user-space slab allocator: each holds a header in slot 0 and equal slots after it, and its free
 slots form a list threaded through the slots themselves, the first half-word of a free slot naming the next one.
 */
module SlabLists {
  import opened Bytes
  import opened Collections

  const PAGE: nat := 0x1000
  const NUM_CLASSES: nat := 6
  const FREE_END: nat := 0xFFFF

  function Size(ci: nat): nat
    requires ci < NUM_CLASSES
  {
    if ci == 0 then 32
    else if ci == 1 then 64
    else if ci == 2 then 128
    else if ci == 3 then 256
    else if ci == 4 then 512
    else 1024
  }

  /** The smallest class that holds `effective` bytes. */
  function ClassIndex(effective: nat): (r: Option<nat>)
    ensures r.None? <==> effective > 1024
    ensures r.Some? ==> r.value < NUM_CLASSES && effective <= Size(r.value)
    ensures r.Some? ==> forall c: nat | c < r.value :: Size(c) < effective
  {
    if effective <= 32 then Some(0)
    else if effective <= 64 then Some(1)
    else if effective <= 128 then Some(2)
    else if effective <= 256 then Some(3)
    else if effective <= 512 then Some(4)
    else if effective <= 1024 then Some(5)
    else None
  }

  function Total(ci: nat): nat
    requires ci < NUM_CLASSES
  {
    PAGE / Size(ci) - 1
  }

  lemma SizeFacts(ci: nat)
    requires ci < NUM_CLASSES
    ensures 32 <= Size(ci) <= 1024 && 3 <= Total(ci) <= 127 && (Total(ci) + 1) * Size(ci) == PAGE
  {
  }

  /** The page header. The two list links are kept as sequences of page addresses in the allocator. */
  datatype Slab = Slab(freeHead: nat, usedCount: nat, totalSlots: nat, classIndex: nat)

  /**
   Headers by page address, free slots by page address, and what is stored at an address: the first half-word of a free
   slot, and whatever the program stores in its blocks.
   */
  type Slabs = map<nat, Slab>
  type FreeSlots = map<nat, seq<nat>>
  type Links = map<nat, nat>

  function Base(a: nat): nat {
    a - a % PAGE
  }

  function SlotAt(p: nat, ci: nat, i: nat): nat
    requires ci < NUM_CLASSES
  {
    p + i * Size(ci)
  }

  function IndexOf(a: nat, ci: nat): nat
    requires ci < NUM_CLASSES
  {
    a % PAGE / Size(ci)
  }

  lemma SlotIndex(p: nat, ci: nat, i: nat)
    requires ci < NUM_CLASSES && p % PAGE == 0 && i <= Total(ci)
    ensures SlotAt(p, ci, i) % PAGE == i * Size(ci) && SlotAt(p, ci, i) + Size(ci) <= p + PAGE
    ensures Base(SlotAt(p, ci, i)) == p && IndexOf(SlotAt(p, ci, i), ci) == i && SlotAt(p, ci, i) % PAGE % Size(ci) == 0
  {
    SizeFacts(ci);
    MulStep(i, Size(ci));
    MulLe(i + 1, Total(ci) + 1, Size(ci));
    DivModOf(i, Size(ci), 0);
    hide Size, Total;
    assert (p + i * Size(ci)) % PAGE == i * Size(ci);
  }

  lemma SlotOf(a: nat, ci: nat)
    requires ci < NUM_CLASSES && a % PAGE % Size(ci) == 0
    ensures a == SlotAt(Base(a), ci, IndexOf(a, ci)) && IndexOf(a, ci) <= Total(ci) && Base(a) % PAGE == 0
  {
    SizeFacts(ci);
    hide Size, Total;
    var r, s := a % PAGE, Size(ci);
    assert r == r / s * s;
    MulLt(r / s, Total(ci) + 1, s);
  }

  /** Two slots of one class in one page do not overlap; nor does a slot overlap slot 0. */
  lemma SlotsApart(p: nat, ci: nat, i: nat, j: nat)
    requires ci < NUM_CLASSES && i < j
    ensures SlotAt(p, ci, i) + Size(ci) <= SlotAt(p, ci, j)
  {
    hide Size;
    MulStep(i, Size(ci));
    MulLe(i + 1, j, Size(ci));
  }

  // ---------- Free lists ----------

  function AtEnd(fs: seq<nat>, i: nat): nat {
    if i < |fs| then fs[i] else FREE_END
  }

  ghost predicate Linked(p: nat, ci: nat, links: Links, fs: seq<nat>, i: nat)
    requires ci < NUM_CLASSES && i < |fs|
  {
    SlotAt(p, ci, fs[i]) in links && links[SlotAt(p, ci, fs[i])] == AtEnd(fs, i + 1)
  }

  ghost predicate Indices(fs: seq<nat>, n: nat) {
    NoDuplicates(fs) && forall i | 0 <= i < |fs| :: 1 <= fs[i] <= n
  }

  /** The header and the links of page `p` describe the list `fs` of free slots. */
  ghost predicate ListOk(p: nat, slab: Slab, links: Links, fs: seq<nat>) {
    && slab.classIndex < NUM_CLASSES && slab.totalSlots == Total(slab.classIndex)
    && slab.usedCount + |fs| == slab.totalSlots && slab.freeHead == AtEnd(fs, 0)
    && Indices(fs, slab.totalSlots)
    && forall i | 0 <= i < |fs| :: Linked(p, slab.classIndex, links, fs, i)
  }

  /** A page shows as full exactly when it has no free slot. */
  lemma FullIsEmpty(p: nat, slab: Slab, links: Links, fs: seq<nat>)
    requires ListOk(p, slab, links, fs)
    ensures slab.freeHead == FREE_END <==> fs == []
  {
    SizeFacts(slab.classIndex);
  }

  function Popped(slab: Slab, next: nat): Slab {
    slab.(freeHead := next, usedCount := slab.usedCount + 1)
  }

  lemma PopList(p: nat, slab: Slab, links: Links, fs: seq<nat>)
    requires ListOk(p, slab, links, fs) && fs != []
    ensures SlotAt(p, slab.classIndex, fs[0]) in links
    ensures ListOk(p, Popped(slab, links[SlotAt(p, slab.classIndex, fs[0])]), links, fs[1..])
    ensures fs[0] !in fs[1..] && 1 <= fs[0] <= slab.totalSlots && slab.freeHead == fs[0]
  {
    hide SlotAt, Total;
    assert Linked(p, slab.classIndex, links, fs, 0);
    forall i | 0 <= i < |fs| - 1
      ensures Linked(p, slab.classIndex, links, fs[1..], i)
    {
      assert Linked(p, slab.classIndex, links, fs, i + 1);
    }
  }

  /** A used slot leaves room on the free list. */
  lemma SomeUsed(fs: seq<nat>, n: nat, i: nat)
    requires Indices(fs, n) && 1 <= i <= n && i !in fs
    ensures |fs| < n
  {
    ElementsSize(fs);
    ElementsSize(AllFree(n));
    var all := Elements(AllFree(n));
    forall k: nat | 1 <= k <= n
      ensures k in all
    {
      assert AllFree(n)[k - 1] == k;
    }
    SubsetSize(Elements(fs), all - {i});
  }

  function Pushed(slab: Slab, i: nat): Slab
    requires slab.usedCount > 0
  {
    slab.(freeHead := i, usedCount := slab.usedCount - 1)
  }

  lemma PushList(p: nat, slab: Slab, links: Links, fs: seq<nat>, i: nat)
    requires p % PAGE == 0 && ListOk(p, slab, links, fs) && 1 <= i <= slab.totalSlots && i !in fs
    ensures slab.usedCount > 0
    ensures ListOk(p, Pushed(slab, i), links[SlotAt(p, slab.classIndex, i) := slab.freeHead], [i] + fs)
  {
    var ci := slab.classIndex;
    SomeUsed(fs, slab.totalSlots, i);
    SlotIndex(p, ci, i);
    var links' := links[SlotAt(p, ci, i) := slab.freeHead];
    hide SlotAt, Total, Size;
    assert Indices([i] + fs, slab.totalSlots);
    forall k | 0 <= k < |fs| + 1
      ensures Linked(p, ci, links', [i] + fs, k)
    {
      if k > 0 {
        assert Linked(p, ci, links, fs, k - 1);
        SlotIndex(p, ci, fs[k - 1]);
      }
    }
  }

  /** A store into one page leaves the lists of the other pages alone. */
  lemma OtherList(q: nat, slab: Slab, links: Links, fs: seq<nat>, links': Links)
    requires q % PAGE == 0 && ListOk(q, slab, links, fs)
    requires forall x: nat | x in links && Base(x) == q :: x in links' && links'[x] == links[x]
    ensures ListOk(q, slab, links', fs)
  {
    var ci := slab.classIndex;
    hide SlotAt, Size, Total;
    forall i | 0 <= i < |fs|
      ensures Linked(q, ci, links', fs, i)
    {
      assert Linked(q, ci, links, fs, i);
      SlotIndex(q, ci, fs[i]);
    }
  }

  function AllFree(n: nat): (fs: seq<nat>)
    ensures |fs| == n && forall i | 0 <= i < n :: fs[i] == i + 1
  {
    seq(n, i => i + 1)
  }

  /** The list built in a new page. */
  lemma NewList(p: nat, ci: nat, links: Links)
    requires ci < NUM_CLASSES
    requires forall i | 1 <= i <= Total(ci) :: Threaded(p, ci, links, i)
    ensures ListOk(p, Slab(1, 0, Total(ci), ci), links, AllFree(Total(ci)))
  {
    SizeFacts(ci);
    var fs := AllFree(Total(ci));
    hide SlotAt, Total;
    forall i | 0 <= i < |fs|
      ensures Linked(p, ci, links, fs, i)
    {
      assert Threaded(p, ci, links, i + 1);
    }
  }

  ghost predicate Threaded(p: nat, ci: nat, links: Links, i: nat)
    requires ci < NUM_CLASSES
  {
    SlotAt(p, ci, i) in links && links[SlotAt(p, ci, i)] == if i < Total(ci) then i + 1 else FREE_END
  }

  // ---------- All pages ----------

  ghost predicate FreeLists(slabs: Slabs, links: Links, free: FreeSlots) {
    && slabs.Keys == free.Keys
    && forall p | p in slabs :: p % PAGE == 0 && ListOk(p, slabs[p], links, free[p])
  }

  /** Address `a` is a slot handed out by its page. */
  ghost predicate UsedSlot(slabs: Slabs, free: FreeSlots, a: nat) {
    && Base(a) in slabs && Base(a) in free && slabs[Base(a)].classIndex < NUM_CLASSES
    && a % PAGE % Size(slabs[Base(a)].classIndex) == 0
    && 1 <= IndexOf(a, slabs[Base(a)].classIndex) && IndexOf(a, slabs[Base(a)].classIndex) !in free[Base(a)]
  }

  /** `used` is exactly the set of slots handed out. */
  ghost predicate SlotsExact(slabs: Slabs, free: FreeSlots, used: set<nat>) {
    forall a :: a in used <==> UsedSlot(slabs, free, a)
  }

  /** The list of each class holds the class's pages, and its partial list those with a free slot. */
  ghost predicate PageLists(slabs: Slabs, free: FreeSlots, partial: seq<seq<nat>>, all: seq<seq<nat>>)
    requires slabs.Keys == free.Keys
  {
    && |partial| == NUM_CLASSES && |all| == NUM_CLASSES
    && (forall ci | 0 <= ci < NUM_CLASSES :: NoDuplicates(partial[ci]) && NoDuplicates(all[ci]))
    && (forall ci, p | 0 <= ci < NUM_CLASSES ::
          p in partial[ci] <==> p in slabs && slabs[p].classIndex == ci && free[p] != [])
    && forall ci, p | 0 <= ci < NUM_CLASSES :: p in all[ci] <==> p in slabs && slabs[p].classIndex == ci
  }

  /** The allocator's slab side. */
  ghost predicate SlabsOk(slabs: Slabs, links: Links, free: FreeSlots, used: set<nat>,
                          partial: seq<seq<nat>>, all: seq<seq<nat>>) {
    FreeLists(slabs, links, free) && SlotsExact(slabs, free, used) && PageLists(slabs, free, partial, all)
  }

  lemma FirstFree(slabs: Slabs, links: Links, free: FreeSlots, p: nat)
    requires FreeLists(slabs, links, free) && p in slabs && free[p] != []
    ensures slabs[p].classIndex < NUM_CLASSES && SlotAt(p, slabs[p].classIndex, slabs[p].freeHead) in links
  {
    PopList(p, slabs[p], links, free[p]);
  }

  /** Taking the first free slot of page `p`. */
  lemma PopSlot(slabs: Slabs, links: Links, free: FreeSlots, used: set<nat>, p: nat, next: nat)
    requires FreeLists(slabs, links, free) && SlotsExact(slabs, free, used)
    requires p in slabs && free[p] != []
    ensures slabs[p].classIndex < NUM_CLASSES && slabs[p].freeHead == free[p][0]
    ensures SlotAt(p, slabs[p].classIndex, slabs[p].freeHead) in links && slabs[p].freeHead != FREE_END
    ensures var a := SlotAt(p, slabs[p].classIndex, slabs[p].freeHead);
            a !in used && Base(a) == p
    ensures next == links[SlotAt(p, slabs[p].classIndex, slabs[p].freeHead)] ==>
              && (next == FREE_END <==> free[p][1..] == [])
              && FreeLists(slabs[p := Popped(slabs[p], next)], links, free[p := free[p][1..]])
              && SlotsExact(slabs[p := Popped(slabs[p], next)], free[p := free[p][1..]],
                            used + {SlotAt(p, slabs[p].classIndex, slabs[p].freeHead)})
  {
    assert ListOk(p, slabs[p], links, free[p]);
    var ci, fs := slabs[p].classIndex, free[p];
    FullIsEmpty(p, slabs[p], links, fs);
    PopList(p, slabs[p], links, fs);
    SlotIndex(p, ci, fs[0]);
    var a := SlotAt(p, ci, fs[0]);
    hide FreeLists, ListOk, SlotAt, IndexOf, Base, Size, Total;
    assert !UsedSlot(slabs, free, a);
    if next == links[a] {
      FullIsEmpty(p, Popped(slabs[p], next), links, fs[1..]);
      PoppedLists(slabs, links, free, p);
      PoppedExact(slabs, free, used, p, Popped(slabs[p], next));
    }
  }

  lemma PoppedLists(slabs: Slabs, links: Links, free: FreeSlots, p: nat)
    requires FreeLists(slabs, links, free) && p in slabs && free[p] != [] && slabs[p].classIndex < NUM_CLASSES
    requires SlotAt(p, slabs[p].classIndex, free[p][0]) in links
    ensures FreeLists(slabs[p := Popped(slabs[p], links[SlotAt(p, slabs[p].classIndex, free[p][0])])], links,
                      free[p := free[p][1..]])
  {
    PopList(p, slabs[p], links, free[p]);
    hide ListOk, SlotAt;
  }

  lemma PoppedExact(slabs: Slabs, free: FreeSlots, used: set<nat>, p: nat, slab: Slab)
    requires p in slabs && p in free && free[p] != [] && slabs[p].classIndex < NUM_CLASSES && p % PAGE == 0
    requires SlotsExact(slabs, free, used)
    requires slab.classIndex == slabs[p].classIndex
    requires 1 <= free[p][0] <= Total(slab.classIndex) && free[p][0] !in free[p][1..]
    ensures SlotsExact(slabs[p := slab], free[p := free[p][1..]], used + {SlotAt(p, slab.classIndex, free[p][0])})
  {
    var ci, fs := slab.classIndex, free[p];
    var a := SlotAt(p, ci, fs[0]);
    SlotIndex(p, ci, fs[0]);
    hide SlotAt, Base, Total, Size, IndexOf;
    forall x: nat
      ensures x in used + {a} <==> UsedSlot(slabs[p := slab], free[p := fs[1..]], x)
    {
      assert x in used <==> UsedSlot(slabs, free, x);
      if Base(x) == p && x % PAGE % Size(ci) == 0 {
        SlotOf(x, ci);
        assert IndexOf(x, ci) in fs <==> IndexOf(x, ci) == fs[0] || IndexOf(x, ci) in fs[1..];
      }
    }
  }

  /** Giving slot `a` back to its page. */
  lemma PushSlot(slabs: Slabs, links: Links, free: FreeSlots, used: set<nat>, a: nat)
    requires FreeLists(slabs, links, free) && SlotsExact(slabs, free, used) && a in used
    ensures Base(a) in slabs && slabs[Base(a)].classIndex < NUM_CLASSES && slabs[Base(a)].usedCount > 0
    ensures var p := Base(a);
            var i := IndexOf(a, slabs[p].classIndex);
            FreeLists(slabs[p := Pushed(slabs[p], i)], links[a := slabs[p].freeHead], free[p := [i] + free[p]]) &&
            SlotsExact(slabs[p := Pushed(slabs[p], i)], free[p := [i] + free[p]], used - {a}) &&
            (slabs[p].freeHead == FREE_END <==> free[p] == [])
  {
    assert UsedSlot(slabs, free, a);
    var p := Base(a);
    assert ListOk(p, slabs[p], links, free[p]);
    var ci := slabs[p].classIndex;
    var i := IndexOf(a, ci);
    SlotOf(a, ci);
    FullIsEmpty(p, slabs[p], links, free[p]);
    PushList(p, slabs[p], links, free[p], i);
    hide ListOk, SlotAt, Base, Size, IndexOf, Total, SlotsExact, UsedSlot;
    assert FreeLists(slabs[p := Pushed(slabs[p], i)], links[a := slabs[p].freeHead], free[p := [i] + free[p]]) by {
      forall q | q in slabs && q != p
        ensures ListOk(q, slabs[q], links[a := slabs[p].freeHead], free[q])
      {
        OtherList(q, slabs[q], links, free[q], links[a := slabs[p].freeHead]);
      }
    }
    PushedExact(slabs, free, used, a, Pushed(slabs[p], i));
  }

  lemma PushedExact(slabs: Slabs, free: FreeSlots, used: set<nat>, a: nat, slab: Slab)
    requires SlotsExact(slabs, free, used) && a in used && Base(a) in slabs && Base(a) in free
    requires slab.classIndex == slabs[Base(a)].classIndex && slab.classIndex < NUM_CLASSES
    ensures SlotsExact(slabs[Base(a) := slab], free[Base(a) := [IndexOf(a, slab.classIndex)] + free[Base(a)]],
                       used - {a})
  {
    var p, ci := Base(a), slab.classIndex;
    var i := IndexOf(a, ci);
    assert UsedSlot(slabs, free, a);
    SlotOf(a, ci);
    hide SlotAt, Base, Total, Size, IndexOf;
    forall x: nat
      ensures x in used - {a} <==> UsedSlot(slabs[p := slab], free[p := [i] + free[p]], x)
    {
      assert x in used <==> UsedSlot(slabs, free, x);
      if Base(x) == p && x % PAGE % Size(ci) == 0 {
        SlotOf(x, ci);
        assert IndexOf(x, ci) in [i] + free[p] <==> IndexOf(x, ci) == i || IndexOf(x, ci) in free[p];
      }
    }
  }

  /** Adding a page whose slots are all free. */
  /** Stores in a page that is none of the slab pages leave their lists alone. */
  lemma OtherPagesLists(slabs: Slabs, links: Links, free: FreeSlots, p: nat, links': Links)
    requires FreeLists(slabs, links, free) && p !in slabs
    requires forall x: nat | x in links && Base(x) != p :: x in links' && links'[x] == links[x]
    ensures FreeLists(slabs, links', free)
  {
    hide ListOk, SlotAt, Base, Size, IndexOf, Total, Threaded;
    forall q | q in slabs
      ensures ListOk(q, slabs[q], links', free[q])
    {
      OtherList(q, slabs[q], links, free[q], links');
    }
  }

  lemma AddPage(slabs: Slabs, links: Links, free: FreeSlots, used: set<nat>, p: nat, ci: nat, links': Links)
    requires FreeLists(slabs, links, free) && SlotsExact(slabs, free, used)
    requires p !in slabs && p % PAGE == 0 && ci < NUM_CLASSES
    requires forall x: nat | x in links && Base(x) != p :: x in links' && links'[x] == links[x]
    requires forall i | 1 <= i <= Total(ci) :: Threaded(p, ci, links', i)
    ensures FreeLists(slabs[p := Slab(1, 0, Total(ci), ci)], links', free[p := AllFree(Total(ci))])
    ensures SlotsExact(slabs[p := Slab(1, 0, Total(ci), ci)], free[p := AllFree(Total(ci))], used)
  {
    NewList(p, ci, links');
    var slabs', free' := slabs[p := Slab(1, 0, Total(ci), ci)], free[p := AllFree(Total(ci))];
    OtherPagesLists(slabs, links, free, p, links');
    hide ListOk, SlotAt, Base, Size, IndexOf, Total, Threaded;
    forall x: nat
      ensures x in used <==> UsedSlot(slabs', free', x)
    {
      assert x in used <==> UsedSlot(slabs, free, x);
      if Base(x) == p && x % PAGE % Size(ci) == 0 && 1 <= IndexOf(x, ci) {
        SlotOf(x, ci);
        assert AllFree(Total(ci))[IndexOf(x, ci) - 1] == IndexOf(x, ci);
      }
    }
  }

  /** Following a page's first or last free slot on the partial list of its class. */
  lemma Repartial(slabs: Slabs, free: FreeSlots, partial: seq<seq<nat>>, all: seq<seq<nat>>, p: nat, slab: Slab,
                  fs: seq<nat>)
    requires slabs.Keys == free.Keys && PageLists(slabs, free, partial, all)
    requires p in slabs && slab.classIndex == slabs[p].classIndex && slab.classIndex < NUM_CLASSES
    ensures |partial| == NUM_CLASSES
    ensures (free[p] == [] <==> fs == []) ==> PageLists(slabs[p := slab], free[p := fs], partial, all)
    ensures free[p] == [] && fs != [] ==>
              PageLists(slabs[p := slab], free[p := fs], partial[slab.classIndex := [p] + partial[slab.classIndex]],
                        all)
    ensures free[p] != [] && fs == [] && partial[slab.classIndex][0] == p ==>
              PageLists(slabs[p := slab], free[p := fs], partial[slab.classIndex := partial[slab.classIndex][1..]], all)
  {
    var ci := slab.classIndex;
    var slabs', free' := slabs[p := slab], free[p := fs];
    assert p in partial[ci] <==> free[p] != [];
    if free[p] != [] && fs == [] && partial[ci][0] == p {
      assert partial[ci] == [p] + partial[ci][1..];
      assert p !in partial[ci][1..];
    }
  }

  lemma AddToLists(slabs: Slabs, free: FreeSlots, partial: seq<seq<nat>>, all: seq<seq<nat>>, p: nat, slab: Slab,
                   fs: seq<nat>)
    requires slabs.Keys == free.Keys && PageLists(slabs, free, partial, all)
    requires p !in slabs && slab.classIndex < NUM_CLASSES && fs != []
    ensures |partial| == NUM_CLASSES && |all| == NUM_CLASSES
    ensures PageLists(slabs[p := slab], free[p := fs], partial[slab.classIndex := [p] + partial[slab.classIndex]],
                      all[slab.classIndex := [p] + all[slab.classIndex]])
  {
  }

  lemma HasPartial(slabs: Slabs, free: FreeSlots, partial: seq<seq<nat>>, all: seq<seq<nat>>, p: nat)
    requires slabs.Keys == free.Keys && PageLists(slabs, free, partial, all)
    requires p in slabs && free[p] != [] && slabs[p].classIndex < NUM_CLASSES
    ensures |partial| == NUM_CLASSES && partial[slabs[p].classIndex] != []
  {
    assert p in partial[slabs[p].classIndex];
  }
}
