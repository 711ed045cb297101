/** The C library's heap: a first-fit, address-ordered free list that coalesces, in the memory it manages. */
module FreeListHeap {
  import opened Collections

  const PAGE_SIZE: nat := 4096
  const HEADER: nat := 8
  const MIN_ALLOC: nat := 16

  // ---- blocks that tile the mapped memory ----

  /** The words of memory, by address. */
  type Memory = map<nat, nat>

  /** Blocks by the address of their header; the value is the size without the header. */
  type Blocks = map<nat, nat>

  /** Word `w` belongs to block `b`, header or payload. */
  ghost predicate Owns(blocks: Blocks, b: nat, w: nat) {
    b in blocks && b <= w < b + HEADER + blocks[b]
  }

  ghost predicate Owned(blocks: Blocks, w: nat) {
    exists b :: Owns(blocks, b, w)
  }

  ghost predicate Aligned(blocks: Blocks) {
    forall b | b in blocks :: b > 0 && b % 8 == 0 && blocks[b] % 8 == 0
  }

  /** Of two blocks one ends before the other starts. */
  ghost predicate Apart(blocks: Blocks) {
    forall b, c | b in blocks && c in blocks && b < c :: b + HEADER + blocks[b] <= c
  }

  /** Blocks are 8-aligned, do not overlap, and cover the mapped words exactly. */
  ghost predicate Tiled(mapped: set<nat>, blocks: Blocks) {
    && Aligned(blocks) && Apart(blocks)
    && (forall w: nat :: w in mapped <==> w % 4 == 0 && Owned(blocks, w))
  }

  lemma TiledParts(mapped: set<nat>, blocks: Blocks)
    requires Tiled(mapped, blocks)
    ensures Aligned(blocks) && Apart(blocks)
  {
  }

  /** Cutting a block in two. */
  function Split(blocks: Blocks, b: nat, s: nat): Blocks
    requires b in blocks && s + HEADER <= blocks[b]
  {
    blocks[b := s][b + HEADER + s := blocks[b] - s - HEADER]
  }

  lemma SplitApart(blocks: Blocks, b: nat, s: nat)
    requires Apart(blocks) && b in blocks && s + HEADER <= blocks[b]
    ensures b + HEADER + s !in blocks && Apart(Split(blocks, b, s))
  {
  }

  lemma SplitOwned(blocks: Blocks, b: nat, s: nat, w: nat)
    requires Apart(blocks) && b in blocks && s + HEADER <= blocks[b]
    ensures b + HEADER + s !in blocks && Apart(Split(blocks, b, s))
    ensures Owned(blocks, w) <==> Owned(Split(blocks, b, s), w)
  {
    SplitApart(blocks, b, s);
    hide Apart;
    var r: nat := b + HEADER + s;
    var after := Split(blocks, b, s);
    if Owned(blocks, w) {
      var c :| Owns(blocks, c, w);
      assert Owns(after, c, w) || Owns(after, r, w);
    }
    if Owned(after, w) {
      var c :| Owns(after, c, w);
      assert Owns(blocks, if c == r then b else c, w);
    }
  }

  lemma SplitTiled(mapped: set<nat>, blocks: Blocks, b: nat, s: nat)
    requires Tiled(mapped, blocks) && b in blocks && s % 8 == 0 && s + HEADER <= blocks[b]
    ensures b + HEADER + s !in blocks && Tiled(mapped, Split(blocks, b, s))
  {
    hide Apart, Owned;
    SplitOwned(blocks, b, s, 0);
    forall w: nat
      ensures Owned(blocks, w) <==> Owned(Split(blocks, b, s), w)
    {
      SplitOwned(blocks, b, s, w);
    }
  }

  /** Joining a block with the one that starts where it ends. */
  function Merge(blocks: Blocks, b: nat, c: nat): Blocks
    requires b in blocks && c in blocks
  {
    (blocks - {c})[b := blocks[b] + HEADER + blocks[c]]
  }

  lemma MergeOwned(blocks: Blocks, b: nat, c: nat, w: nat)
    requires Apart(blocks) && b in blocks && c in blocks && c == b + HEADER + blocks[b]
    ensures Owned(blocks, w) <==> Owned(Merge(blocks, b, c), w)
  {
    hide Apart;
    var after := Merge(blocks, b, c);
    if Owned(blocks, w) {
      var d :| Owns(blocks, d, w);
      assert Owns(after, if d == c then b else d, w);
    }
    if Owned(after, w) {
      var d :| Owns(after, d, w);
      assert Owns(blocks, d, w) || Owns(blocks, c, w);
    }
  }

  lemma MergeApart(blocks: Blocks, b: nat, c: nat)
    requires Apart(blocks) && b in blocks && c in blocks && c == b + HEADER + blocks[b]
    ensures Apart(Merge(blocks, b, c))
  {
  }

  lemma MergeAligned(blocks: Blocks, b: nat, c: nat)
    requires Aligned(blocks) && b in blocks && c in blocks
    ensures Aligned(Merge(blocks, b, c))
  {
    SumAligned(blocks[b], blocks[c]);
  }

  lemma SumAligned(x: nat, y: nat)
    requires x % 8 == 0 && y % 8 == 0
    ensures (x + HEADER + y) % 8 == 0
  {
  }

  lemma MergeTiled(mapped: set<nat>, blocks: Blocks, b: nat, c: nat)
    requires Tiled(mapped, blocks) && b in blocks && c in blocks && c == b + HEADER + blocks[b]
    ensures Tiled(mapped, Merge(blocks, b, c))
  {
    MergeApart(blocks, b, c);
    MergeAligned(blocks, b, c);
    hide Apart, Owned, Merge, Aligned;
    forall w: nat
      ensures Owned(blocks, w) <==> Owned(Merge(blocks, b, c), w)
    {
      MergeOwned(blocks, b, c, w);
    }
  }

  /** The words of a region. */
  ghost function Region(a: nat, len: nat): (r: set<nat>)
    ensures forall w: nat :: w in r <==> a <= w < a + len && w % 4 == 0
  {
    set w: nat | a <= w < a + len && w % 4 == 0 :: w
  }

  lemma MultipleOfFour(n: nat)
    requires n % 8 == 0
    ensures n % 4 == 0
  {
  }

  /** A region fresh from the kernel overlaps no block, */
  lemma FreshIsApart(mapped: set<nat>, blocks: Blocks, a: nat, len: nat, b: nat)
    requires Tiled(mapped, blocks) && a % 8 == 0 && HEADER <= len && b in blocks
    requires mapped !! Region(a, len)
    ensures b + HEADER + blocks[b] <= a || a + len <= b
  {
    hide Apart;
    MultipleOfFour(a);
    MultipleOfFour(b);
    var w: nat := if b < a then a else b;
    assert w in mapped ==> w !in Region(a, len);
    if Owns(blocks, b, w) {
      assert Owned(blocks, w);
    }
  }

  /** and can be added to them as one more. */
  lemma GrowTiled(mapped: set<nat>, blocks: Blocks, a: nat, len: nat)
    requires Tiled(mapped, blocks) && a > 0 && a % 8 == 0 && len % 8 == 0 && HEADER <= len
    requires mapped !! Region(a, len)
    ensures a !in blocks && Tiled(mapped + Region(a, len), blocks[a := len - HEADER])
  {
    var after := blocks[a := len - HEADER];
    forall b | b in blocks
      ensures b + HEADER + blocks[b] <= a || a + len <= b
    {
      hide *;
      FreshIsApart(mapped, blocks, a, len, b);
    }
    assert a !in blocks;
    assert Aligned(after) && Apart(after);
    forall w: nat
      ensures Owned(after, w) <==> Owned(blocks, w) || a <= w < a + len
    {
      hide Apart, Aligned;
      if Owned(blocks, w) {
        var c :| Owns(blocks, c, w);
        assert Owns(after, c, w);
      }
      if a <= w < a + len {
        assert Owns(after, a, w);
      }
      if Owned(after, w) {
        var c :| Owns(after, c, w);
        assert c == a || Owns(blocks, c, w);
      }
    }
    hide Owned, Aligned, Apart;
  }

  // ---- headers and the free list in memory ----

  /** The size word of every header is right. */
  ghost predicate Headers(mem: Memory, blocks: Blocks) {
    forall b | b in blocks :: b in mem && b + 4 in mem && mem[b] == blocks[b]
  }

  /** Element `j` of the list, or null behind its end. */
  function At(free: seq<nat>, j: nat): nat {
    if j < |free| then free[j] else 0
  }

  /** The `next` words link the list, but for the one at position `but`. */
  ghost predicate LinkedBut(mem: Memory, free: seq<nat>, but: int) {
    forall j: nat | j < |free| && j != but :: Link(mem, free, j)
  }

  ghost predicate Link(mem: Memory, free: seq<nat>, j: nat)
    requires j < |free|
  {
    free[j] + 4 in mem && mem[free[j] + 4] == At(free, j + 1)
  }

  /** Free blocks in strictly ascending order, no two of them adjacent. */
  ghost predicate FreeOk(blocks: Blocks, free: seq<nat>) {
    && (forall j | 0 <= j < |free| :: free[j] in blocks)
    && (forall i, j | 0 <= i < j < |free| :: free[i] + HEADER + blocks[free[i]] < free[j])
  }

  ghost predicate HeapOk(mem: Memory, blocks: Blocks, free: seq<nat>, head: nat) {
    && Tiled(mem.Keys, blocks) && Headers(mem, blocks)
    && LinkedBut(mem, free, -1) && FreeOk(blocks, free) && head == At(free, 0)
  }

  /** The blocks that are handed out. */
  ghost function Allocated(blocks: Blocks, free: seq<nat>): (r: Blocks)
    ensures forall b :: b in r <==> b in blocks && b !in free
    ensures forall b | b in r :: r[b] == blocks[b]
  {
    map b | b in blocks && b !in free :: blocks[b]
  }

  /** The payload words of the blocks in `held` are the same. */
  ghost predicate PayloadKept(mem: Memory, mem': Memory, held: Blocks) {
    forall b, w: nat | Payload(held, b, w) && w in mem :: w in mem' && mem'[w] == mem[w]
  }

  ghost predicate Payload(held: Blocks, b: nat, w: nat) {
    b in held && b + HEADER <= w < b + HEADER + held[b]
  }

  /** `held` is part of the blocks. */
  ghost predicate Among(held: Blocks, blocks: Blocks) {
    forall b | b in held :: b in blocks && held[b] == blocks[b]
  }

  /** `mem'` is `mem` with other words in the header of block `b`. */
  ghost predicate HeaderWrite(mem: Memory, mem': Memory, b: nat) {
    mem'.Keys == mem.Keys && forall w | w in mem && w != b && w != b + 4 :: mem'[w] == mem[w]
  }

  /** A write to one header touches no other header, */
  lemma OtherHeader(mem: Memory, mem': Memory, blocks: Blocks, b: nat, c: nat)
    requires Aligned(blocks) && Headers(mem, blocks) && HeaderWrite(mem, mem', b)
    requires b in blocks && c in blocks && c != b
    ensures mem'[c] == mem[c] && mem'[c + 4] == mem[c + 4]
  {
    assert c != b + 4 && c + 4 != b;
  }

  /** and no payload. */
  lemma HeaderIsNoPayload(mem: Memory, mem': Memory, blocks: Blocks, b: nat, held: Blocks)
    requires Apart(blocks) && HeaderWrite(mem, mem', b) && b in blocks && Among(held, blocks)
    ensures PayloadKept(mem, mem', held)
  {
    forall c, w: nat | Payload(held, c, w) && w in mem
      ensures w in mem' && mem'[w] == mem[w]
    {
      assert Owns(blocks, c, w);
    }
  }

  lemma PayloadTrans(m1: Memory, m2: Memory, m3: Memory, held: Blocks)
    requires PayloadKept(m1, m2, held) && PayloadKept(m2, m3, held)
    ensures PayloadKept(m1, m3, held)
  {
  }

  function Insert(free: seq<nat>, i: nat, b: nat): (r: seq<nat>)
    requires i <= |free|
    ensures |r| == |free| + 1 && r[i] == b
    ensures forall j {:trigger r[j]} | 0 <= j < i :: r[j] == free[j]
    ensures forall j {:trigger r[j]} | i < j < |r| :: r[j] == free[j - 1]
  {
    free[..i] + [b] + free[i..]
  }

  function Remove(free: seq<nat>, i: nat): (r: seq<nat>)
    requires i < |free|
    ensures |r| == |free| - 1
    ensures forall j {:trigger r[j]} | 0 <= j < i :: r[j] == free[j]
    ensures forall j {:trigger r[j]} | i <= j < |r| :: r[j] == free[j + 1]
  {
    free[..i] + free[i + 1..]
  }

  /** A block `b` ready to go in front of `free[i]`: its own link is right, the one before it not yet. */
  ghost predicate Ready(mem: Memory, blocks: Blocks, free: seq<nat>, i: nat, b: nat) {
    && Tiled(mem.Keys, blocks) && Headers(mem, blocks) && FreeOk(blocks, free) && i <= |free|
    && LinkedBut(mem, free, i - 1)
    && b in blocks && b !in free && mem[b + 4] == At(free, i)
    && (forall j | 0 <= j < i :: free[j] < b)
    && (forall j | i <= j < |free| :: b + HEADER + blocks[b] < free[j])
  }

  lemma InsertFreeOk(blocks: Blocks, free: seq<nat>, i: nat, b: nat)
    requires Apart(blocks) && FreeOk(blocks, free) && i <= |free| && b in blocks
    requires forall j | 0 <= j < i :: free[j] < b
    requires forall j | i <= j < |free| :: b + HEADER + blocks[b] < free[j]
    requires i > 0 ==> free[i - 1] + HEADER + blocks[free[i - 1]] != b
    ensures FreeOk(blocks, Insert(free, i, b))
  {
    hide Insert;
    var r := Insert(free, i, b);
    forall j | 0 <= j < i
      ensures free[j] + HEADER + blocks[free[j]] < b
    {
      assert free[j] in blocks;
      assert j < i - 1 ==> free[j] + HEADER + blocks[free[j]] < free[i - 1];
    }
  }

  lemma InsertLinked(mem: Memory, mem': Memory, blocks: Blocks, free: seq<nat>, i: nat, b: nat)
    requires LinkedBut(mem, free, i - 1) && FreeOk(blocks, free) && i <= |free| && b in blocks && b !in free
    requires forall c | c in blocks :: c + 4 in mem && c + 4 in mem'
    requires mem[b + 4] == At(free, i) && mem'[b + 4] == mem[b + 4]
    requires i > 0 ==> mem'[free[i - 1] + 4] == b
    requires forall c | c in blocks && (i > 0 ==> c != free[i - 1]) :: mem'[c + 4] == mem[c + 4]
    ensures LinkedBut(mem', Insert(free, i, b), -1)
  {
    hide Insert;
    var r := Insert(free, i, b);
    forall j: nat | j < |r|
      ensures Link(mem', r, j)
    {
      if j < i - 1 {
        assert Link(mem, free, j);
        assert free[j] in blocks && free[j] < free[i - 1];
      } else if j > i {
        assert Link(mem, free, j - 1);
        assert free[j - 1] in blocks;
        assert i > 0 ==> free[i - 1] < free[j - 1];
      }
    }
  }

  lemma AllocatedInsert(blocks: Blocks, free: seq<nat>, i: nat, b: nat)
    requires i <= |free|
    ensures Allocated(blocks, Insert(free, i, b)) == Allocated(blocks, free) - {b}
  {
    assert forall x :: x in Insert(free, i, b) <==> x == b || x in free;
  }

  /** Apart from block `b`, size and next words are as before. */
  ghost predicate OthersSame(mem: Memory, mem': Memory, blocks: Blocks, b: nat) {
    && mem'.Keys == mem.Keys
    && (forall c | c in blocks && c != b :: c in mem && c + 4 in mem && mem'[c] == mem[c] && mem'[c + 4] == mem[c + 4])
  }

  lemma HeaderWriteOthers(mem: Memory, mem': Memory, blocks: Blocks, b: nat)
    requires Aligned(blocks) && Headers(mem, blocks) && HeaderWrite(mem, mem', b) && b in blocks
    ensures OthersSame(mem, mem', blocks, b)
  {
    forall c | c in blocks && c != b
      ensures mem'[c] == mem[c] && mem'[c + 4] == mem[c + 4]
    {
      OtherHeader(mem, mem', blocks, b, c);
    }
  }

  /** The block is linked in behind its predecessor, */
  lemma ReadyLink(mem: Memory, blocks: Blocks, free: seq<nat>, i: nat, b: nat)
    requires Ready(mem, blocks, free, i, b) && i > 0
    requires free[i - 1] + HEADER + blocks[free[i - 1]] != b && free[i - 1] + 4 in mem
    ensures HeapOk(mem[free[i - 1] + 4 := b], blocks, Insert(free, i, b), At(free, 0))
  {
    hide Insert, Tiled, Apart, Aligned, LinkedBut, FreeOk;
    TiledParts(mem.Keys, blocks);
    ReadyIndices(mem, blocks, free, i, b);
    InsertFreeOk(blocks, free, i, b);
    var p := free[i - 1];
    var mem' := mem[p + 4 := b];
    assert mem'.Keys == mem.Keys;
    HeaderWriteOthers(mem, mem', blocks, p);
    InsertLinked(mem, mem', blocks, free, i, b);
    assert Headers(mem', blocks);
  }

  /** or becomes the head. */
  lemma ReadyHead(mem: Memory, blocks: Blocks, free: seq<nat>, b: nat)
    requires Ready(mem, blocks, free, 0, b)
    ensures HeapOk(mem, blocks, Insert(free, 0, b), b)
  {
    hide Insert, Tiled, LinkedBut, FreeOk;
    TiledParts(mem.Keys, blocks);
    InsertFreeOk(blocks, free, 0, b);
    InsertLinked(mem, mem, blocks, free, 0, b);
  }

  lemma ReadyIndices(mem: Memory, blocks: Blocks, free: seq<nat>, i: nat, b: nat)
    requires Ready(mem, blocks, free, i, b) && i > 0
    ensures free[i - 1] in blocks && free[i - 1] < b && free[i - 1] in free
  {
  }

  /** The blocks that are not joined keep their entries, and a joined block swallows its neighbour. */
  lemma MergeFacts(blocks: Blocks, b: nat, c: nat)
    requires b in blocks && c in blocks && b != c
    ensures var m := Merge(blocks, b, c);
            && b in m && c !in m && m[b] == blocks[b] + HEADER + blocks[c]
            && (forall d :: d in m <==> d in blocks && d != c)
            && (forall d | d in m && d != b :: m[d] == blocks[d])
  {
  }

  lemma MergeHeaders(mem: Memory, mem': Memory, blocks: Blocks, b: nat, c: nat)
    requires Headers(mem, blocks) && OthersSame(mem, mem', blocks, b) && b in blocks && c in blocks && b != c
    requires mem'[b] == blocks[b] + HEADER + blocks[c]
    ensures Headers(mem', Merge(blocks, b, c))
  {
    hide Merge;
    MergeFacts(blocks, b, c);
  }

  /** When the block touches its predecessor, the predecessor takes it in. */
  lemma ReadyMergePrev(mem: Memory, mem': Memory, blocks: Blocks, free: seq<nat>, i: nat, b: nat)
    requires Ready(mem, blocks, free, i, b) && i > 0
    requires free[i - 1] + HEADER + blocks[free[i - 1]] == b
    requires var p := free[i - 1]; mem' == mem[p := blocks[p] + HEADER + blocks[b]][p + 4 := mem[b + 4]]
    ensures HeapOk(mem', Merge(blocks, free[i - 1], b), free, At(free, 0))
  {
    hide Tiled, Apart, Aligned, Merge;
    TiledParts(mem.Keys, blocks);
    var p := free[i - 1];
    ReadyIndices(mem, blocks, free, i, b);
    assert mem'.Keys == mem.Keys;
    HeaderWriteOthers(mem, mem', blocks, p);
    MergeFacts(blocks, p, b);
    MergeTiled(mem.Keys, blocks, p, b);
    MergeHeaders(mem, mem', blocks, p, b);
    forall j: nat | j < |free|
      ensures Link(mem', free, j)
    {
      assert free[j] in blocks;
      assert j != i - 1 ==> Link(mem, free, j) && free[j] != p;
    }
    MergePrevFreeOk(blocks, free, i, b);
  }

  lemma MergePrevFreeOk(blocks: Blocks, free: seq<nat>, i: nat, b: nat)
    requires FreeOk(blocks, free) && 0 < i <= |free| && b in blocks && b !in free
    requires free[i - 1] + HEADER + blocks[free[i - 1]] == b
    requires forall j | i <= j < |free| :: b + HEADER + blocks[b] < free[j]
    ensures FreeOk(Merge(blocks, free[i - 1], b), free)
  {
    hide Merge;
    MergeFacts(blocks, free[i - 1], b);
  }

  lemma AllocatedMergePrev(blocks: Blocks, free: seq<nat>, p: nat, b: nat)
    requires p in blocks && b in blocks && p in free && p != b
    ensures Allocated(Merge(blocks, p, b), free) == Allocated(blocks, free) - {b}
  {
    hide Merge;
    MergeFacts(blocks, p, b);
  }

  /** The block in front of `free[i]`, before it has been looked at whether the two touch. */
  ghost predicate Placed(mem: Memory, blocks: Blocks, free: seq<nat>, head: nat, i: nat, b: nat) {
    && HeapOk(mem, blocks, free, head) && b in blocks && b !in free && i <= |free|
    && (forall j | 0 <= j < i :: free[j] < b)
    && (i < |free| ==> b <= free[i])
  }

  /** The block is linked to what follows it. */
  lemma PlacedLink(mem: Memory, blocks: Blocks, free: seq<nat>, head: nat, i: nat, b: nat)
    requires Placed(mem, blocks, free, head, i, b)
    requires i < |free| ==> b + HEADER + blocks[b] != free[i]
    ensures b + 4 in mem && Ready(mem[b + 4 := At(free, i)], blocks, free, i, b)
  {
    hide Tiled, Aligned;
    TiledParts(mem.Keys, blocks);
    var mem' := mem[b + 4 := At(free, i)];
    assert mem'.Keys == mem.Keys;
    HeaderWriteOthers(mem, mem', blocks, b);
    assert Headers(mem', blocks);
    forall j: nat | j < |free|
      ensures Link(mem', free, j)
    {
      assert Link(mem, free, j) && free[j] in free;
    }
    forall j | i <= j < |free|
      ensures b + HEADER + blocks[b] < free[j]
    {
      assert free[i] in blocks && free[i] in free;
      assert j > i ==> free[i] < free[j];
    }
  }

  /** When the block touches what follows, it takes that in and is linked to what comes after. */
  lemma PlacedMergeNext(mem: Memory, mem': Memory, blocks: Blocks, free: seq<nat>, head: nat, i: nat, b: nat)
    requires Placed(mem, blocks, free, head, i, b) && i < |free| && b + HEADER + blocks[b] == free[i]
    requires free[i] + 4 in mem && mem' == mem[b := blocks[b] + HEADER + blocks[free[i]]][b + 4 := mem[free[i] + 4]]
    ensures Ready(mem', Merge(blocks, b, free[i]), Remove(free, i), i, b)
  {
    hide Tiled, Apart, Aligned, Merge, Remove;
    TiledParts(mem.Keys, blocks);
    var c, r := free[i], Remove(free, i);
    assert c in blocks && c in free;
    assert mem'.Keys == mem.Keys;
    HeaderWriteOthers(mem, mem', blocks, b);
    MergeFacts(blocks, b, c);
    MergeTiled(mem.Keys, blocks, b, c);
    MergeHeaders(mem, mem', blocks, b, c);
    MergeNextLinked(mem, mem', blocks, free, i, b);
    MergeNextFreeOk(blocks, free, i, b);
  }

  lemma MergeNextLinked(mem: Memory, mem': Memory, blocks: Blocks, free: seq<nat>, i: nat, b: nat)
    requires LinkedBut(mem, free, -1) && FreeOk(blocks, free)
    requires OthersSame(mem, mem', blocks, b) && i < |free| && b !in free
    requires free[i] + 4 in mem && b + 4 in mem' && mem'[b + 4] == mem[free[i] + 4]
    ensures LinkedBut(mem', Remove(free, i), i - 1) && mem'[b + 4] == At(Remove(free, i), i)
  {
    hide Remove;
    var r := Remove(free, i);
    assert Link(mem, free, i);
    forall j: nat | j < |r| && j != i - 1
      ensures Link(mem', r, j)
    {
      var o := if j < i then j else j + 1;
      assert Link(mem, free, o) && free[o] in free;
    }
  }

  lemma MergeNextFreeOk(blocks: Blocks, free: seq<nat>, i: nat, b: nat)
    requires FreeOk(blocks, free) && i < |free| && b in blocks && b !in free && b + HEADER + blocks[b] == free[i]
    requires forall j | 0 <= j < i :: free[j] < b
    ensures var r := Remove(free, i);
            && FreeOk(Merge(blocks, b, free[i]), r) && b !in r && (forall j | 0 <= j < i :: r[j] < b)
            && (forall j | i <= j < |r| :: b + HEADER + Merge(blocks, b, free[i])[b] < r[j])
  {
    hide Merge, Remove;
    var r := Remove(free, i);
    MergeFacts(blocks, b, free[i]);
    RemoveElements(free, i);
    forall j | 0 <= j < |r|
      ensures r[j] in blocks && r[j] != b && r[j] != free[i]
    {
      assert r[j] in r;
    }
  }

  lemma RemoveElements(free: seq<nat>, i: nat)
    requires i < |free| && forall j, k | 0 <= j < k < |free| :: free[j] < free[k]
    ensures forall x :: x in Remove(free, i) <==> x in free && x != free[i]
  {
    var r := Remove(free, i);
    forall x
      ensures x in r <==> x in free && x != free[i]
    {
      if x in r {
        var j :| 0 <= j < |r| && r[j] == x;
        assert x == free[if j < i then j else j + 1];
      }
      if x in free && x != free[i] {
        var j :| 0 <= j < |free| && free[j] == x;
        assert x == r[if j < i then j else j - 1];
      }
    }
  }

  lemma AllocatedMergeNext(blocks: Blocks, free: seq<nat>, i: nat, b: nat)
    requires FreeOk(blocks, free) && i < |free| && b in blocks && b !in free
    ensures Allocated(Merge(blocks, b, free[i]), Remove(free, i)) - {b} == Allocated(blocks, free) - {b}
  {
    hide Merge, Remove;
    MergeFacts(blocks, b, free[i]);
    RemoveElements(free, i);
  }

  // ---- taking a block out of the list ----

  /** Everything is in order but the link that leads to position `i`. */
  ghost predicate OpenAt(mem: Memory, blocks: Blocks, free: seq<nat>, i: nat) {
    && Tiled(mem.Keys, blocks) && Headers(mem, blocks) && FreeOk(blocks, free)
    && i <= |free| && LinkedBut(mem, free, i - 1)
  }

  /** Setting that link closes the list. */
  lemma CloseLink(mem: Memory, blocks: Blocks, free: seq<nat>, i: nat)
    requires OpenAt(mem, blocks, free, i) && i > 0
    ensures free[i - 1] in blocks && HeapOk(mem[free[i - 1] + 4 := At(free, i)], blocks, free, At(free, 0))
  {
    hide Tiled, Aligned;
    TiledParts(mem.Keys, blocks);
    var p := free[i - 1];
    var mem' := mem[p + 4 := At(free, i)];
    assert p in blocks;
    assert mem'.Keys == mem.Keys;
    HeaderWriteOthers(mem, mem', blocks, p);
    assert Headers(mem', blocks);
    forall j: nat | j < |free|
      ensures Link(mem', free, j)
    {
      assert free[j] in blocks;
      assert j != i - 1 ==> Link(mem, free, j) && free[j] != p;
    }
  }

  /** The `next` word of a block that is not in the list does not matter. */
  lemma ClearNext(mem: Memory, blocks: Blocks, free: seq<nat>, head: nat, c: nat)
    requires HeapOk(mem, blocks, free, head) && c in blocks && c !in free
    ensures HeapOk(mem[c + 4 := 0], blocks, free, head)
  {
    hide Tiled, Aligned, FreeOk;
    TiledParts(mem.Keys, blocks);
    var mem' := mem[c + 4 := 0];
    assert mem'.Keys == mem.Keys;
    HeaderWriteOthers(mem, mem', blocks, c);
    assert Headers(mem', blocks);
    forall j: nat | j < |free|
      ensures Link(mem', free, j)
    {
      assert Link(mem, free, j) && free[j] in free && free[j] in blocks by { ElementIsBlock(blocks, free, j); }
    }
  }

  lemma ElementIsBlock(blocks: Blocks, free: seq<nat>, j: nat)
    requires FreeOk(blocks, free) && j < |free|
    ensures free[j] in blocks
  {
  }

  /** Leaving a whole block out of the list. */
  lemma TakeWhole(mem: Memory, blocks: Blocks, free: seq<nat>, head: nat, i: nat)
    requires HeapOk(mem, blocks, free, head) && i < |free|
    ensures OpenAt(mem, blocks, Remove(free, i), i)
    ensures free[i] in blocks && free[i] !in Remove(free, i) && mem[free[i] + 4] == At(Remove(free, i), i)
  {
    hide Tiled, Remove;
    var r := Remove(free, i);
    assert Link(mem, free, i);
    assert free[i] !in r by { RemoveElements(free, i); }
    forall j: nat | j < |r| && j != i - 1
      ensures Link(mem, r, j)
    {
      assert Link(mem, free, if j < i then j else j + 1);
    }
  }

  lemma AllocatedWhole(blocks: Blocks, free: seq<nat>, i: nat)
    requires FreeOk(blocks, free) && i < |free|
    ensures free[i] in blocks
    ensures Allocated(blocks, Remove(free, i)) == Allocated(blocks, free)[free[i] := blocks[free[i]]]
  {
    hide Remove;
    assert free[i] in free;
    RemoveElements(free, i);
  }

  lemma SplitFacts(blocks: Blocks, b: nat, s: nat)
    requires b in blocks && s + HEADER <= blocks[b]
    ensures var r: nat := b + HEADER + s;
            var t := Split(blocks, b, s);
            && b in t && r in t && t[b] == s && t[r] == blocks[b] - s - HEADER
            && (forall d :: d in t <==> d in blocks || d == r)
            && (forall d | d in blocks && d != b && d != r :: t[d] == blocks[d])
  {
  }

  /** Cutting the front off a listed block: the rest takes its place in the list. */
  lemma TakeFront(mem: Memory, mem': Memory, blocks: Blocks, free: seq<nat>, head: nat, i: nat, s: nat)
    requires HeapOk(mem, blocks, free, head) && i < |free| && s % 8 == 0 && s + HEADER <= blocks[free[i]]
    requires free[i] + 4 in mem
    requires var c, r := free[i], free[i] + HEADER + s;
             mem' == mem[r := blocks[c] - s - HEADER][r + 4 := mem[c + 4]][c := s]
    ensures OpenAt(mem', Split(blocks, free[i], s), free[i := free[i] + HEADER + s], i)
    ensures free[i] in Split(blocks, free[i], s) && free[i] !in free[i := free[i] + HEADER + s]
    ensures free[i] + HEADER + s !in blocks
  {
    hide Tiled, Split;
    var c: nat, r: nat := free[i], free[i] + HEADER + s;
    var blocks', free' := Split(blocks, c, s), free[i := r];
    SplitFacts(blocks, c, s);
    SplitTiled(mem.Keys, blocks, c, s);
    RestInside(mem.Keys, blocks, c, s);
    assert mem'.Keys == mem.Keys;
    TiledParts(mem.Keys, blocks');
    SplitHeaders(mem, mem', blocks, c, s);
    TakeFrontFreeOk(blocks, free, i, s);
    forall j | 0 <= j < |free| && j != i
      ensures free[j] in blocks' && free[j] != c && free[j] != r
    {
      assert free[j] in blocks;
    }
    hide Aligned, Apart, Headers, FreeOk, LinkedBut;
    FrontLinks(mem, mem', blocks', free, i, s, blocks[c] - s - HEADER);
  }

  /** Every link but the one before the cut block survives the cut. */
  lemma FrontLinks(mem: Memory, mem': Memory, blocks: Blocks, free: seq<nat>, i: nat, s: nat, rest: nat)
    requires Aligned(blocks) && LinkedBut(mem, free, -1) && i < |free|
    requires free[i] in blocks && free[i] + HEADER + s in blocks
    requires forall j | 0 <= j < |free| && j != i ::
               free[j] in blocks && free[j] != free[i] && free[j] != free[i] + HEADER + s
    requires var c, r := free[i], free[i] + HEADER + s;
             c + 4 in mem && mem' == mem[r := rest][r + 4 := mem[c + 4]][c := s]
    ensures LinkedBut(mem', free[i := free[i] + HEADER + s], i - 1)
  {
    var c: nat, r: nat := free[i], free[i] + HEADER + s;
    var free' := free[i := r];
    hide Aligned;
    forall j: nat | j < |free'| && j != i - 1
      ensures Link(mem', free', j)
    {
      assert Link(mem, free, j);
      HeaderApart(blocks, c, free[j]);
      HeaderApart(blocks, r, free[j]);
    }
  }

  lemma HeaderApart(blocks: Blocks, c: nat, d: nat)
    requires Aligned(blocks) && c in blocks && d in blocks
    ensures d + 4 != c && c + 4 != d
  {
  }

  lemma RestAligned(c: nat, s: nat)
    requires c % 8 == 0 && s % 8 == 0
    ensures (c + HEADER + s) % 4 == 0 && (c + HEADER + s + 4) % 4 == 0
  {
  }

  lemma RestInside(mapped: set<nat>, blocks: Blocks, c: nat, s: nat)
    requires Tiled(mapped, blocks) && c in blocks && s % 8 == 0 && s + HEADER <= blocks[c]
    ensures c + HEADER + s in mapped && c + HEADER + s + 4 in mapped
  {
    TiledParts(mapped, blocks);
    var r: nat := c + HEADER + s;
    RestAligned(c, s);
    hide Tiled, Aligned, Apart;
    TiledWord(mapped, blocks, c, r);
    TiledWord(mapped, blocks, c, r + 4);
  }

  lemma SplitHeaders(mem: Memory, mem': Memory, blocks: Blocks, c: nat, s: nat)
    requires Headers(mem, blocks) && c in blocks && s + HEADER <= blocks[c] && Aligned(Split(blocks, c, s))
    requires c + HEADER + s !in blocks && c + HEADER + s in mem && c + HEADER + s + 4 in mem
    requires var r: nat := c + HEADER + s; mem' == mem[r := blocks[c] - s - HEADER][r + 4 := mem[c + 4]][c := s]
    ensures Headers(mem', Split(blocks, c, s))
  {
    hide Split;
    SplitFacts(blocks, c, s);
    var r: nat, t := c + HEADER + s, Split(blocks, c, s);
    forall d | d in t
      ensures d in mem' && d + 4 in mem' && mem'[d] == t[d]
    {
      HeaderApart(t, r, d);
    }
  }

  lemma TakeFrontFreeOk(blocks: Blocks, free: seq<nat>, i: nat, s: nat)
    requires FreeOk(blocks, free) && i < |free| && s + HEADER <= blocks[free[i]] && free[i] + HEADER + s !in blocks
    ensures FreeOk(Split(blocks, free[i], s), free[i := free[i] + HEADER + s])
    ensures free[i] !in free[i := free[i] + HEADER + s]
  {
    hide Split;
    SplitFacts(blocks, free[i], s);
    var r := free[i := free[i] + HEADER + s];
    forall j | 0 <= j < |r| && j != i
      ensures r[j] in blocks && r[j] != free[i]
    {
      assert free[j] in blocks;
    }
  }

  lemma AllocatedFront(blocks: Blocks, free: seq<nat>, i: nat, s: nat)
    requires FreeOk(blocks, free) && i < |free| && s + HEADER <= blocks[free[i]] && free[i] + HEADER + s !in blocks
    ensures Allocated(Split(blocks, free[i], s), free[i := free[i] + HEADER + s]) ==
            Allocated(blocks, free)[free[i] := s]
  {
    hide Split;
    var c: nat, r: nat := free[i], free[i] + HEADER + s;
    SplitFacts(blocks, c, s);
    assert c in blocks && c in free && r !in blocks;
    hide FreeOk, Allocated;
    var x, y := Allocated(Split(blocks, c, s), free[i := r]), Allocated(blocks, free)[c := s];
    forall b: nat
      ensures b in x <==> b in y
      ensures b in x ==> x[b] == y[b]
    {
      UpdateElement(blocks, free, i, r, b);
    }
  }

  lemma UpdateElement(blocks: Blocks, free: seq<nat>, i: nat, r: nat, x: nat)
    requires FreeOk(blocks, free) && i < |free| && r !in blocks
    ensures x in free[i := r] <==> x == r || (x in free && x != free[i])
  {
    var free' := free[i := r];
    assert free'[i] == r;
    if x in free && x != free[i] {
      var j :| 0 <= j < |free| && free[j] == x;
      assert free'[j] == x;
    }
    if x in free' && x != r {
      var j :| 0 <= j < |free'| && free'[j] == x;
      assert j != i && free[j] == x;
    }
  }

  /** A new region as a block of its own. */
  lemma GrowOk(mem: Memory, mem': Memory, blocks: Blocks, free: seq<nat>, head: nat, a: nat, len: nat)
    requires HeapOk(mem, blocks, free, head) && a > 0 && a % 8 == 0 && len % 8 == 0 && HEADER <= len
    requires mem.Keys !! Region(a, len) && mem'.Keys == mem.Keys + Region(a, len)
    requires forall w | w in mem :: mem'[w] == mem[w]
    requires a in mem' && mem'[a] == len - HEADER
    ensures HeapOk(mem', blocks[a := len - HEADER], free, head) && a !in blocks && a !in free
    ensures Allocated(blocks[a := len - HEADER], free) == Allocated(blocks, free)[a := len - HEADER]
    ensures PayloadKept(mem, mem', Allocated(blocks, free))
  {
    hide Tiled, FreeOk;
    GrowTiled(mem.Keys, blocks, a, len);
    assert a + 4 in Region(a, len) by { MultipleOfFour(a); }
    forall j: nat | j < |free|
      ensures Link(mem', free, j) && free[j] in blocks
    {
      assert Link(mem, free, j);
      ElementIsBlock(blocks, free, j);
    }
    assert FreeOk(blocks[a := len - HEADER], free) by { FreeOkGrows(blocks, free, a, len - HEADER); }
  }

  lemma FreeOkGrows(blocks: Blocks, free: seq<nat>, a: nat, n: nat)
    requires FreeOk(blocks, free) && a !in blocks
    ensures FreeOk(blocks[a := n], free)
  {
  }

  function RoundedSize(size: nat): (s: nat)
    ensures s % 8 == 0 && size <= s && MIN_ALLOC <= s && (s < size + 8 || s == MIN_ALLOC)
  {
    if size < MIN_ALLOC then MIN_ALLOC else (size + 7) / 8 * 8
  }

  /** What is asked from the kernel for a block of `s` bytes: whole pages. */
  function GrowSize(s: nat): (n: nat)
    ensures n % PAGE_SIZE == 0 && s + HEADER <= n < s + HEADER + PAGE_SIZE
  {
    (s + HEADER + PAGE_SIZE - 1) / PAGE_SIZE * PAGE_SIZE
  }

  /** The kernel's answer to a request for `len` bytes: nothing, or a fresh page-aligned region. */
  ghost predicate KernelAnswer(mem: Memory, kernel: Option<nat>, len: nat) {
    kernel.Some? ==> kernel.value > 0 && kernel.value % PAGE_SIZE == 0 && mem.Keys !! Region(kernel.value, len)
  }

  /** What a request for `s` bytes keeps of a block of `avail`: all of it, unless the rest is of use. */
  function KeptOf(avail: nat, s: nat): (n: nat)
    requires s <= avail
    ensures s <= n <= avail && n <= s + HEADER + MIN_ALLOC
  {
    if avail - s > HEADER + MIN_ALLOC then s else avail
  }

  /** The words from `lo` up to `hi` are mapped and belong to no block of `held`. */
  ghost predicate Unused(mem: Memory, held: Blocks, lo: nat, hi: nat) {
    forall w: nat | lo <= w < hi && w % 4 == 0 :: w in mem && !Owned(held, w)
  }

  /** No stretch of unused memory has room for a block of `s` bytes and its header. */
  ghost predicate Crowded(mem: Memory, held: Blocks, s: nat) {
    forall lo: nat | lo % 4 == 0 :: !Unused(mem, held, lo, lo + HEADER + s)
  }

  /**
   Block `b` is new. It was cut for `s` bytes from `avail` bytes that were free: it is no longer than it has to be, and
   what is left of them is unused.
   */
  ghost predicate CutFrom(held: Blocks, mem: Memory, held': Blocks, b: nat, s: nat, avail: nat) {
    && s <= avail && b !in held && held' == held[b := KeptOf(avail, s)]
    && Unused(mem, held', b + HEADER + held'[b], b + HEADER + avail)
  }

  /** The first block of the list that is large enough. */
  ghost predicate FirstFit(blocks: Blocks, free: seq<nat>, s: nat, i: nat)
    requires FreeOk(blocks, free)
  {
    i < |free| && s <= blocks[free[i]] && forall j | 0 <= j < i :: blocks[free[j]] < s
  }

  ghost predicate NoFit(blocks: Blocks, free: seq<nat>, s: nat)
    requires FreeOk(blocks, free)
  {
    forall j | 0 <= j < |free| :: blocks[free[j]] < s
  }

  /** Afterwards `b`, which was nobody's, is held with room for `size` bytes, and all else is held as before. */
  ghost predicate Granted(before: Blocks, after: Blocks, b: nat, size: nat) {
    && b !in before && b in after && size <= after[b]
    && after == before[b := after[b]]
  }

  /** What the invariant means for those who hold blocks. */
  lemma HeldBlocksAreSafe(mem: Memory, blocks: Blocks, free: seq<nat>, head: nat, b: nat, c: nat, w: nat)
    requires HeapOk(mem, blocks, free, head) && b in Allocated(blocks, free) && c in blocks && c != b
    ensures Payload(Allocated(blocks, free), b, w) && w % 4 == 0 ==> w in mem && !Owns(blocks, c, w)
    ensures (b + HEADER) % 8 == 0
  {
    hide Tiled, LinkedBut, FreeOk, Headers, Allocated;
    TiledParts(mem.Keys, blocks);
    AlignedPayload(b, blocks);
    hide Aligned;
    if Payload(Allocated(blocks, free), b, w) && w % 4 == 0 {
      TiledWord(mem.Keys, blocks, b, w);
      OneOwner(blocks, b, c, w);
    }
  }

  lemma AlignedPayload(b: nat, blocks: Blocks)
    requires Aligned(blocks) && b in blocks
    ensures (b + HEADER) % 8 == 0
  {
  }

  lemma OneOwner(blocks: Blocks, b: nat, c: nat, w: nat)
    requires Apart(blocks) && Owns(blocks, b, w) && c in blocks && c != b
    ensures !Owns(blocks, c, w)
  {
  }

  class Heap {
    var mem: Memory
    var freeList: nat
    var heapEnd: nat
    var heapBase: nat
    ghost var blocks: Blocks
    ghost var free: seq<nat>

    ghost predicate Valid()
      reads this
    {
      HeapOk(mem, blocks, free, freeList)
    }

    /** The blocks handed out, by header address, with their sizes. */
    ghost function Held(): Blocks
      reads this
    {
      Allocated(blocks, free)
    }

    constructor ()
      ensures Valid() && Held() == map[] && mem == map[]
    {
      mem := map[];
      freeList := 0;
      heapEnd := 0;
      heapBase := 0;
      blocks := map[];
      free := [];
      new;
      assert forall w: nat :: !Owned(blocks, w);
    }

    /** Puts a block into the list at its place, joined with the neighbours it touches. */
    method InsertFree(block: nat)
      requires Valid() && (block != 0 ==> block in Held())
      modifies this`mem, this`freeList, this`blocks, this`free
      ensures Valid() && mem.Keys == old(mem.Keys)
      ensures block == 0 ==> mem == old(mem) && Held() == old(Held())
      ensures block != 0 ==> Held() == old(Held()) - {block} && PayloadKept(old(mem), mem, old(Held()) - {block})
    {
      if block == 0 {
        return;
      }
      hide HeapOk, Placed, Ready, PayloadKept, Allocated;
      ghost var m, held := mem, Held() - {block};
      var prev, curr, i := FindPlace(block);
      JoinNext(block, curr, i);
      ghost var m' := mem;
      JoinPrev(block, prev, i);
      PayloadTrans(m, m', mem, held);
    }

    /** Walks to the first listed block that does not lie below `block`. */
    method FindPlace(block: nat) returns (prev: nat, curr: nat, ghost i: nat)
      requires Valid() && block in Held()
      ensures Placed(mem, blocks, free, freeList, i, block) && i <= |free| && curr == At(free, i)
      ensures prev == if i > 0 then free[i - 1] else 0
    {
      hide Tiled;
      prev := 0;
      curr := freeList;
      i := 0;
      while curr != 0 && curr < block
        invariant i <= |free| && curr == At(free, i) && prev == if i > 0 then free[i - 1] else 0
        invariant forall j | 0 <= j < i :: free[j] < block
        decreases |free| - i
      {
        assert Link(mem, free, i);
        prev := curr;
        curr := mem[curr + 4];
        i := i + 1;
      }
      if i < |free| {
        BlockNotNull(mem, blocks, free[i]);
      }
    }

    method JoinNext(block: nat, curr: nat, ghost i: nat)
      requires Placed(mem, blocks, free, freeList, i, block) && curr == At(free, i)
      modifies this`mem, this`blocks, this`free
      ensures Ready(mem, blocks, free, i, block) && i <= |free| && mem.Keys == old(mem.Keys)
      ensures i > 0 ==> freeList == At(free, 0) && free[i - 1] == old(free)[i - 1]
      ensures Held() - {block} == old(Held()) - {block}
      ensures PayloadKept(old(mem), mem, old(Held()) - {block})
    {
      hide Tiled, Ready, Apart, Aligned, Merge, Remove, LinkedBut, FreeOk, PayloadKept, Among, Allocated;
      TiledParts(mem.Keys, blocks);
      ghost var m := mem;
      var blockEnd := block + HEADER + mem[block];
      assert Among(Held() - {block}, blocks) by { HeldAmong(blocks, free, block); }
      if i < |free| {
        ElementIsBlock(blocks, free, i);
        BlockNotNull(mem, blocks, free[i]);
      }
      if curr != 0 && blockEnd == curr {
        mem := mem[block := mem[block] + HEADER + mem[curr]];
        assert curr + 4 != block && mem[curr + 4] == m[curr + 4] by { HeaderApart(blocks, block, curr); }
        mem := mem[block + 4 := mem[curr + 4]];
        PlacedMergeNext(m, mem, blocks, free, freeList, i, block);
        AllocatedMergeNext(blocks, free, i, block);
        HeaderIsNoPayload(m, mem, blocks, block, Held() - {block});
        blocks := Merge(blocks, block, curr);
        free := Remove(free, i);
      } else {
        mem := mem[block + 4 := curr];
        PlacedLink(m, blocks, free, freeList, i, block);
        HeaderIsNoPayload(m, mem, blocks, block, Held() - {block});
      }
    }

    method JoinPrev(block: nat, prev: nat, ghost i: nat)
      requires Ready(mem, blocks, free, i, block) && prev == (if i > 0 then free[i - 1] else 0)
      requires (i > 0 ==> freeList == At(free, 0))
      modifies this`mem, this`freeList, this`blocks, this`free
      ensures Valid() && mem.Keys == old(mem.Keys)
      ensures Held() == old(Held()) - {block} && PayloadKept(old(mem), mem, old(Held()) - {block})
    {
      hide Tiled, HeapOk, Apart, Aligned, Merge, Insert, LinkedBut, FreeOk, PayloadKept, Among, Allocated;
      TiledParts(mem.Keys, blocks);
      ghost var m := mem;
      assert Among(Held() - {block}, blocks) by { HeldAmong(blocks, free, block); }
      if i > 0 {
        ReadyIndices(mem, blocks, free, i, block);
        BlockNotNull(mem, blocks, prev);
      }
      if prev != 0 {
        var prevEnd := prev + HEADER + mem[prev];
        if prevEnd == block {
          mem := mem[prev := mem[prev] + HEADER + mem[block]];
          assert block + 4 != prev && mem[block + 4] == m[block + 4] by { HeaderApart(blocks, block, prev); }
          mem := mem[prev + 4 := mem[block + 4]];
          ReadyMergePrev(m, mem, blocks, free, i, block);
          AllocatedMergePrev(blocks, free, prev, block);
          HeaderIsNoPayload(m, mem, blocks, prev, Held() - {block});
          blocks := Merge(blocks, prev, block);
        } else {
          mem := mem[prev + 4 := block];
          ReadyLink(m, blocks, free, i, block);
          AllocatedInsert(blocks, free, i, block);
          HeaderIsNoPayload(m, mem, blocks, prev, Held() - {block});
          free := Insert(free, i, block);
        }
      } else {
        freeList := block;
        ReadyHead(m, blocks, free, block);
        AllocatedInsert(blocks, free, 0, block);
        PayloadRefl(mem, Held() - {block});
        free := Insert(free, 0, block);
      }
    }

    /** The first listed block of at least `s` bytes, with its predecessor; null when there is none. */
    method FindFit(s: nat) returns (prev: nat, curr: nat, ghost i: nat)
      requires Valid()
      ensures i <= |free| && curr == At(free, i) && prev == if i > 0 then free[i - 1] else 0
      ensures if curr != 0 then i < |free| && FirstFit(blocks, free, s, i) else NoFit(blocks, free, s)
    {
      hide Tiled;
      prev := 0;
      curr := freeList;
      i := 0;
      while curr != 0
        invariant i <= |free| && curr == At(free, i) && prev == if i > 0 then free[i - 1] else 0
        invariant forall j | 0 <= j < i :: blocks[free[j]] < s
        decreases |free| - i
      {
        assert Link(mem, free, i);
        if mem[curr] >= s {
          return;
        }
        prev := curr;
        curr := mem[curr + 4];
        i := i + 1;
      }
      if i < |free| {
        BlockNotNull(mem, blocks, free[i]);
      }
    }

    /** Takes `curr`, or a front part of it that leaves a useful rest, out of the list. */
    method TakeFit(prev: nat, curr: nat, s: nat, ghost i: nat)
      requires Valid() && i < |free| && curr == free[i] && prev == (if i > 0 then free[i - 1] else 0)
      requires s % 8 == 0 && s <= blocks[curr]
      modifies this`mem, this`freeList, this`blocks, this`free
      ensures Valid() && mem.Keys == old(mem.Keys)
      ensures Granted(old(Held()), Held(), curr, s)
      ensures Held() == old(Held())[curr := KeptOf(old(blocks)[curr], s)]
      ensures PayloadKept(old(mem), mem, old(Held()))
    {
      hide Tiled, HeapOk, OpenAt, Apart, Aligned, Split, Remove, LinkedBut, FreeOk, PayloadKept, Among, Allocated,
           Headers, HeaderWrite;
      ghost var m, held := mem, Held();
      FitFacts(mem, blocks, free, freeList, i);
      var remaining := mem[curr] - s;
      var link: nat;
      if remaining > HEADER + MIN_ALLOC {
        var newFree: nat := curr + HEADER + s;
        FrontFacts(mem, blocks, free, freeList, i, s);
        mem := mem[newFree := remaining - HEADER];
        mem := mem[newFree + 4 := mem[curr + 4]];
        mem := mem[curr := s];
        TakeFront(m, mem, blocks, free, freeList, i, s);
        FrontPayload(m, mem, blocks, curr, s, held, remaining - HEADER, m[curr + 4]);
        link := newFree;
        blocks := Split(blocks, curr, s);
        free := free[i := newFree];
      } else {
        TakeWhole(mem, blocks, free, freeList, i);
        WholeFacts(mem, blocks, free, freeList, i);
        PayloadRefl(mem, held);
        link := mem[curr + 4];
        free := Remove(free, i);
      }
      ghost var m1 := mem;
      SetLink(prev, link, i, held);
      PayloadTrans(m, m1, mem, held);
      ghost var m2 := mem;
      OkParts(m2, blocks, free, freeList, curr);
      mem := mem[curr + 4 := 0];
      ClearNext(m2, blocks, free, freeList, curr);
      NextWritten(m2, curr, 0);
      HeaderIsNoPayload(m2, mem, blocks, curr, held);
      PayloadTrans(m, m2, mem, held);
    }

    /** Lets the predecessor, or the list head, point to what follows. */
    method SetLink(prev: nat, link: nat, ghost i: nat, ghost held: Blocks)
      requires OpenAt(mem, blocks, free, i) && i <= |free| && link == At(free, i)
      requires prev == (if i > 0 then free[i - 1] else 0)
      requires i > 0 ==> freeList == At(free, 0)
      requires Among(held, blocks)
      modifies this`mem, this`freeList
      ensures Valid() && mem.Keys == old(mem.Keys) && PayloadKept(old(mem), mem, held)
    {
      hide Tiled, HeapOk, Apart, Aligned, LinkedBut, FreeOk, PayloadKept, Among;
      TiledParts(mem.Keys, blocks);
      ghost var m := mem;
      if i > 0 {
        CloseLink(mem, blocks, free, i);
        BlockNotNull(mem, blocks, prev);
      }
      if prev != 0 {
        mem := mem[prev + 4 := link];
        HeaderIsNoPayload(m, mem, blocks, prev, held);
      } else {
        freeList := link;
        CloseHead(mem, blocks, free);
        PayloadRefl(mem, held);
      }
    }

    /** Maps whole pages for a block of at least `s` bytes; null when the kernel has none. */
    method GrowHeap(s: nat, kernel: Option<nat>) returns (block: nat)
      requires Valid() && KernelAnswer(mem, kernel, GrowSize(s))
      modifies this`mem, this`heapEnd, this`heapBase, this`blocks
      ensures Valid()
      ensures kernel.None? ==> block == 0 && mem == old(mem) && blocks == old(blocks) && heapEnd == old(heapEnd)
      ensures kernel.Some? ==>
                heapEnd == if block + GrowSize(s) > old(heapEnd) then block + GrowSize(s) else old(heapEnd)
      ensures kernel.Some? ==>
                && block == kernel.value && block > 0 && block !in old(blocks) && block !in free
                && blocks == old(blocks)[block := GrowSize(s) - HEADER]
                && Held() == old(Held())[block := GrowSize(s) - HEADER]
                && mem.Keys == old(mem.Keys) + Region(block, GrowSize(s)) && PayloadKept(old(mem), mem, old(Held()))
    {
      hide HeapOk, PayloadKept, Allocated, Region;
      if kernel.None? {
        return 0;
      }
      ghost var m := mem;
      var addr := kernel.value;
      var allocSize := GrowSize(s);
      if heapBase == 0 {
        heapBase := addr;
      }
      var newEnd := addr + allocSize;
      if newEnd > heapEnd {
        heapEnd := newEnd;
      }
      block := addr;
      PageAlignment(addr);
      PageAlignment(allocSize);
      RegionStart(addr, allocSize);
      mem := mem + FreshWords(addr, allocSize);
      mem := mem[block := allocSize - HEADER];
      mem := mem[block + 4 := 0];
      assert mem.Keys == m.Keys + Region(addr, allocSize);
      GrowOk(m, mem, blocks, free, freeList, addr, allocSize);
      blocks := blocks[block := allocSize - HEADER];
    }

    /** A block of `s` bytes from a region fresh from the kernel; what is left of the region goes into the list. */
    method MallocGrown(s: nat, kernel: Option<nat>) returns (block: nat)
      requires Valid() && KernelAnswer(mem, kernel, GrowSize(s)) && s % 8 == 0
      modifies this
      ensures Valid() && PayloadKept(old(mem), mem, old(Held()))
      ensures kernel.None? ==> block == 0 && Held() == old(Held()) && mem == old(mem)
      ensures kernel.Some? ==> block == kernel.value && block > 0 && Granted(old(Held()), Held(), block, s)
      ensures kernel.Some? ==> Held() == old(Held())[block := KeptOf(GrowSize(s) - HEADER, s)]
      ensures kernel.Some? ==> mem.Keys == old(mem.Keys) + Region(block, GrowSize(s))
    {
      hide HeapOk, PayloadKept, Allocated, FreeOk, Split, Region, GrowSize, KernelAnswer;
      ghost var m, held := mem, Held();
      block := GrowHeap(s, kernel);
      if block == 0 {
        PayloadRefl(mem, held);
        return;
      }
      ghost var m1 := mem;
      AlignedBlock(mem, blocks, free, freeList, block);
      var remaining := mem[block] - s;
      if remaining > HEADER + MIN_ALLOC {
        KeepFront(block, s, remaining, held);
        PayloadTrans(m, m1, mem, held);
      }
      ghost var m3 := mem;
      HeldIsBlock(mem, blocks, free, freeList, block, held);
      mem := mem[block + 4 := 0];
      ClearNext(m3, blocks, free, freeList, block);
      HeaderIsNoPayload(m3, mem, blocks, block, held);
      PayloadTrans(m, m3, mem, held);
    }

    /** Cuts a held block down to `s` bytes and puts the rest into the list. */
    method KeepFront(block: nat, s: nat, remaining: nat, ghost held: Blocks)
      requires Valid() && block in blocks && block !in free && block !in held && Held() == held[block := blocks[block]]
      requires s % 8 == 0 && remaining == blocks[block] - s && remaining > HEADER + MIN_ALLOC
      modifies this`mem, this`freeList, this`blocks, this`free
      ensures Valid() && Held() == held[block := s] && PayloadKept(old(mem), mem, held) && mem.Keys == old(mem.Keys)
    {
      hide HeapOk, PayloadKept, Allocated, FreeOk, Split, Among, Apart, Tiled;
      ghost var m := mem;
      var newFree: nat := block + HEADER + s;
      AlignedBlock(mem, blocks, free, freeList, block);
      CutFacts(mem, blocks, free, freeList, block, s);
      AllocatedCut(blocks, free, block, s, held);
      mem := mem[newFree := remaining - HEADER];
      mem := mem[newFree + 4 := 0];
      mem := mem[block := s];
      CutOff(m, mem, blocks, free, freeList, block, s);
      FrontPayload(m, mem, blocks, block, s, held, remaining - HEADER, 0);
      blocks := Split(blocks, block, s);
      ghost var m2 := mem;
      InsertFree(newFree);
      assert Held() == held[block := s];
      assert Among(held, held[block := s]) by { AmongMore(held, block, s); }
      PayloadSub(m2, mem, held[block := s], held);
      PayloadTrans(m, m2, mem, held);
    }

    /** Allocates at least `size` bytes: first fit, and a new region when nothing fits. */
    method Malloc(size: nat, kernel: Option<nat>) returns (p: nat)
      requires Valid() && KernelAnswer(mem, kernel, GrowSize(RoundedSize(size)))
      modifies this
      ensures Valid() && PayloadKept(old(mem), mem, old(Held()))
      ensures p == 0 ==> Held() == old(Held()) && mem == old(mem)
      ensures p != 0 ==> HEADER < p && p % 8 == 0 && Granted(old(Held()), Held(), p - HEADER, size)
      ensures size == 0 ==> p == 0
      ensures size > 0 ==> (p == 0 <==> kernel.None? && Crowded(old(mem), old(Held()), RoundedSize(size)))
      ensures p != 0 ==>
                if p - HEADER in old(blocks) then
                  && mem.Keys == old(mem.Keys)
                  && CutFrom(old(Held()), mem, Held(), p - HEADER, RoundedSize(size), old(blocks)[p - HEADER])
                else
                  && mem.Keys == old(mem.Keys) + Region(p - HEADER, GrowSize(RoundedSize(size)))
                  && CutFrom(old(Held()), mem, Held(), p - HEADER, RoundedSize(size),
                             GrowSize(RoundedSize(size)) - HEADER)
      ensures size > 0 ==>
                if NoFit(old(blocks), old(free), RoundedSize(size)) then
                  p == if kernel.Some? then kernel.value + HEADER else 0
                else
                  exists i: nat :: FirstFit(old(blocks), old(free), RoundedSize(size), i) && p == old(free)[i] + HEADER
    {
      hide HeapOk, PayloadKept, Allocated, FreeOk, Region, RoundedSize, GrowSize, KernelAnswer, Crowded, NoFit, KeptOf,
           CutFrom;
      ListOk(mem, blocks, free, freeList);
      ghost var m, bs, held := mem, blocks, Held();
      if size == 0 {
        PayloadRefl(mem, Held());
        return 0;
      }
      var s := RoundedSize(size);
      RoomIffFit(mem, blocks, free, freeList, s);
      var prev, curr, i := FindFit(s);
      if curr != 0 {
        FitIsFirst(mem, blocks, free, freeList, s, i);
        FitHasRoom(blocks, free, s, i);
        TakeFit(prev, curr, s, i);
        RestOfBlock(m, bs, old(free), old(freeList), mem, curr, s);
        return curr + HEADER;
      }
      var block := MallocGrown(s, kernel);
      if block == 0 {
        return 0;
      }
      HeldIsAligned(mem, blocks, free, freeList, block);
      RestOfRegion(m, bs, old(free), old(freeList), mem, block, s);
      return block + HEADER;
    }

    /** Gives a block back. */
    method Free(p: nat)
      requires Valid() && (p != 0 ==> HEADER < p && p - HEADER in Held())
      modifies this`mem, this`freeList, this`blocks, this`free
      ensures Valid() && mem.Keys == old(mem.Keys)
      ensures p == 0 ==> mem == old(mem) && Held() == old(Held())
      ensures p != 0 ==> Held() == old(Held()) - {p - HEADER} && PayloadKept(old(mem), mem, old(Held()) - {p - HEADER})
    {
      if p == 0 {
        return;
      }
      var block := p - HEADER;
      InsertFree(block);
    }

    /** Copies `size` bytes, word by word, from one held block to another. */
    method CopyPayload(src: nat, dst: nat, size: nat)
      requires Valid() && src in Held() && dst in Held() && src != dst
      requires size % 4 == 0 && size <= Held()[src] && size <= Held()[dst]
      modifies this`mem
      ensures Valid() && mem.Keys == old(mem.Keys) && PayloadKept(old(mem), mem, Held() - {dst})
      ensures forall o: nat | o < size && o % 4 == 0 ::
                && src + HEADER + o in mem && dst + HEADER + o in mem
                && mem[dst + HEADER + o] == old(mem)[src + HEADER + o]
    {
      hide HeapOk, PayloadKept, Allocated;
      ghost var m := mem;
      var k := 0;
      while k < size
        invariant 0 <= k <= size && k % 4 == 0 && mem.Keys == m.Keys
        invariant forall w: nat | w in m && !(dst + HEADER <= w < dst + HEADER + k) :: mem[w] == m[w]
        invariant forall o: nat | o < k && o % 4 == 0 ::
                    src + HEADER + o in m && dst + HEADER + o in m && mem[dst + HEADER + o] == m[src + HEADER + o]
      {
        WordMapped(m, blocks, free, freeList, src, k);
        WordMapped(m, blocks, free, freeList, dst, k);
        PayloadsApart(m, blocks, free, freeList, src, dst, k, size);
        mem := mem[dst + HEADER + k := mem[src + HEADER + k]];
        k := k + 4;
      }
      PayloadWritten(m, mem, blocks, free, freeList, dst, size);
    }

    /** Resizes a block: in place when it is large enough, otherwise by moving its contents to a new one. */
    method Realloc(p: nat, newSize: nat, kernel: Option<nat>) returns (q: nat)
      requires Valid() && (p != 0 ==> HEADER < p && p - HEADER in Held())
      requires KernelAnswer(mem, kernel, GrowSize(RoundedSize(newSize)))
      modifies this
      ensures Valid()
      ensures p == 0 ==> PayloadKept(old(mem), mem, old(Held()))
      ensures p == 0 && q == 0 ==> Held() == old(Held())
      ensures p == 0 && q != 0 ==> HEADER < q && q % 8 == 0 && Granted(old(Held()), Held(), q - HEADER, newSize)
      ensures p != 0 && newSize == 0 ==> q == 0 && Held() == old(Held()) - {p - HEADER}
      ensures newSize > 0 && (p == 0 || newSize > old(Held())[p - HEADER]) ==>
                (q == 0 <==> kernel.None? && Crowded(old(mem), old(Held()), RoundedSize(newSize)))
      ensures p != 0 ==> PayloadKept(old(mem), mem, old(Held()) - {p - HEADER})
      ensures p != 0 && 0 < newSize <= old(Held())[p - HEADER] ==> q == p && mem == old(mem) && Held() == old(Held())
      ensures p != 0 && newSize > old(Held())[p - HEADER] && q == 0 ==> mem == old(mem) && Held() == old(Held())
      ensures p != 0 && newSize > old(Held())[p - HEADER] && q != 0 ==>
                && HEADER < q && q % 8 == 0 && Granted(old(Held()) - {p - HEADER}, Held(), q - HEADER, newSize)
                && Held()[q - HEADER] <= RoundedSize(newSize) + HEADER + MIN_ALLOC
                && (forall o: nat | o < old(Held())[p - HEADER] && o % 4 == 0 ::
                      p + o in old(mem) && q + o in mem && mem[q + o] == old(mem)[p + o])
    {
      hide HeapOk, PayloadKept, Allocated, KernelAnswer, Unused, Crowded, KeptOf, RoundedSize, GrowSize, NoFit,
           FirstFit, Region;
      if p == 0 {
        q := Malloc(newSize, kernel);
        return;
      }
      ghost var m, held := mem, Held();
      var block := p - HEADER;
      if newSize == 0 {
        Free(p);
        return 0;
      }
      PayloadRefl(mem, held - {block});
      HeldIsWord(mem, blocks, free, freeList, block);
      var oldSize := mem[block];
      if newSize <= oldSize {
        return p;
      }
      forall o: nat | o < oldSize && o % 4 == 0
        ensures p + o in m
      {
        WordMapped(m, blocks, free, freeList, block, o);
      }
      q := Malloc(newSize, kernel);
      if q == 0 {
        return;
      }
      ghost var m1, held1 := mem, Held();
      var target := q - HEADER;
      assert block in held1 && held1[block] == oldSize;
      CopyPayload(block, target, oldSize);
      ghost var m2 := mem;
      Free(p);
      MovedContents(m, m1, m2, mem, held, held1, block, target, oldSize);
    }
  }

  // ---------- Unused memory ----------

  /** What is mapped and not held lies in a block of the list. */
  lemma UnusedIsFree(mem: Memory, blocks: Blocks, free: seq<nat>, head: nat, w: nat) returns (j: nat)
    requires HeapOk(mem, blocks, free, head) && w in mem && !Owned(Allocated(blocks, free), w)
    ensures j < |free| && Owns(blocks, free[j], w)
  {
    hide Headers, LinkedBut, FreeOk, Apart, Aligned, Allocated;
    assert Owned(blocks, w);
    var b :| Owns(blocks, b, w);
    assert b !in free ==> Owns(Allocated(blocks, free), b, w);
    j :| 0 <= j < |free| && free[j] == b;
  }

  /** A stretch of unused memory lies in one block of the list, as neighbours are joined. */
  lemma StretchFits(mem: Memory, blocks: Blocks, free: seq<nat>, head: nat, lo: nat, s: nat) returns (j: nat)
    requires HeapOk(mem, blocks, free, head) && lo % 4 == 0 && Unused(mem, Allocated(blocks, free), lo, lo + HEADER + s)
    ensures j < |free| && free[j] in blocks && s <= blocks[free[j]]
  {
    assert lo in mem && !Owned(Allocated(blocks, free), lo);
    j := UnusedIsFree(mem, blocks, free, head, lo);
    ElementIsBlock(blocks, free, j);
    var b := free[j];
    var end: nat := b + HEADER + blocks[b];
    if end < lo + HEADER + s {
      assert end % 4 == 0 by { TiledParts(mem.Keys, blocks); EndAligned(blocks, b); }
      assert end in mem && !Owned(Allocated(blocks, free), end);
      var k := UnusedIsFree(mem, blocks, free, head, end);
      TiledParts(mem.Keys, blocks);
      NoFreeBehind(blocks, free, j, k);
    }
  }

  lemma NoFreeBehind(blocks: Blocks, free: seq<nat>, j: nat, k: nat)
    requires FreeOk(blocks, free) && Apart(blocks) && j < |free| && k < |free|
    ensures free[j] in blocks && !Owns(blocks, free[k], free[j] + HEADER + blocks[free[j]])
  {
    ElementIsBlock(blocks, free, j);
    ElementIsBlock(blocks, free, k);
  }

  lemma EndAligned(blocks: Blocks, b: nat)
    requires Aligned(blocks) && b in blocks
    ensures (b + HEADER + blocks[b]) % 4 == 0
  {
    MultipleOfFour(b);
    MultipleOfFour(blocks[b]);
  }

  lemma FitStretches(mem: Memory, blocks: Blocks, free: seq<nat>, head: nat, j: nat, s: nat)
    requires HeapOk(mem, blocks, free, head) && j < |free| && free[j] in blocks && s <= blocks[free[j]]
    ensures free[j] % 4 == 0 && Unused(mem, Allocated(blocks, free), free[j], free[j] + HEADER + s)
  {
    TiledParts(mem.Keys, blocks);
    MultipleOfFour(free[j]);
    forall w: nat | free[j] <= w < free[j] + HEADER + s && w % 4 == 0
      ensures w in mem && !Owned(Allocated(blocks, free), w)
    {
      hide Headers, LinkedBut, FreeOk;
      TiledWord(mem.Keys, blocks, free[j], w);
      NobodyElse(blocks, Allocated(blocks, free), free[j], w);
    }
  }

  lemma NobodyElse(blocks: Blocks, held: Blocks, b: nat, w: nat)
    requires Apart(blocks) && Owns(blocks, b, w) && Among(held, blocks) && b !in held
    ensures !Owned(held, w)
  {
    forall c | c in held
      ensures !Owns(held, c, w)
    {
      OneOwner(blocks, b, c, w);
    }
  }

  /** The list has no block for a request exactly when no stretch of unused memory has room for it. */
  lemma RoomIffFit(mem: Memory, blocks: Blocks, free: seq<nat>, head: nat, s: nat)
    requires HeapOk(mem, blocks, free, head)
    ensures FreeOk(blocks, free) && (NoFit(blocks, free, s) <==> Crowded(mem, Allocated(blocks, free), s))
  {
    assert FreeOk(blocks, free);
    hide HeapOk, Unused, Allocated;
    if NoFit(blocks, free, s) {
      forall lo: nat | lo % 4 == 0
        ensures !Unused(mem, Allocated(blocks, free), lo, lo + HEADER + s)
      {
        if Unused(mem, Allocated(blocks, free), lo, lo + HEADER + s) {
          var j := StretchFits(mem, blocks, free, head, lo, s);
        }
      }
    } else {
      var j :| 0 <= j < |free| && blocks[free[j]] >= s;
      FitStretches(mem, blocks, free, head, j, s);
    }
  }

  lemma FitHasRoom(blocks: Blocks, free: seq<nat>, s: nat, i: nat)
    requires FreeOk(blocks, free) && i < |free| && s <= blocks[free[i]]
    ensures !NoFit(blocks, free, s)
  {
  }

  /** A region fresh from the kernel starts at no block. */
  lemma FreshIsNoBlock(mem: Memory, blocks: Blocks, free: seq<nat>, head: nat, b: nat, s: nat)
    requires HeapOk(mem, blocks, free, head) && KernelAnswer(mem, Some(b), GrowSize(s))
    ensures b !in blocks && mem.Keys !! Region(b, GrowSize(s))
  {
    hide HeapOk, GrowSize;
    if b in blocks {
      AlignedBlock(mem, blocks, free, head, b);
      MultipleOfFour(b);
    }
  }

  /** What is left behind a new block, up to the end of the block it was cut from, is unused. */
  lemma RestOfBlock(mem: Memory, blocks: Blocks, free: seq<nat>, head: nat, mem': Memory, b: nat, s: nat)
    requires HeapOk(mem, blocks, free, head) && b in blocks && b in free && s <= blocks[b] && mem'.Keys == mem.Keys
    ensures var held := Allocated(blocks, free);
            CutFrom(held, mem', held[b := KeptOf(blocks[b], s)], b, s, blocks[b])
  {
    hide Headers, LinkedBut, FreeOk, Allocated, KeptOf;
    var held, n := Allocated(blocks, free), KeptOf(blocks[b], s);
    TiledParts(mem.Keys, blocks);
    forall w: nat | b + HEADER + n <= w < b + HEADER + blocks[b] && w % 4 == 0
      ensures w in mem' && !Owned(held[b := n], w)
    {
      hide Apart, Aligned;
      TiledWord(mem.Keys, blocks, b, w);
      NobodyElse(blocks, held, b, w);
      BehindOwn(held, b, n, w);
    }
  }

  /** The same for a region the kernel gave. */
  lemma RestOfRegion(mem: Memory, blocks: Blocks, free: seq<nat>, head: nat, mem': Memory, b: nat, s: nat)
    requires HeapOk(mem, blocks, free, head) && KernelAnswer(mem, Some(b), GrowSize(s))
    requires mem'.Keys == mem.Keys + Region(b, GrowSize(s))
    ensures var held, avail := Allocated(blocks, free), GrowSize(s) - HEADER;
            b !in blocks && CutFrom(held, mem', held[b := KeptOf(avail, s)], b, s, avail)
  {
    hide Headers, LinkedBut, FreeOk, Allocated, KeptOf, GrowSize;
    var len := GrowSize(s);
    var held, n := Allocated(blocks, free), KeptOf(len - HEADER, s);
    FreshIsNoBlock(mem, blocks, free, head, b, s);
    forall w: nat | b + HEADER + n <= w < b + len && w % 4 == 0
      ensures w in mem' && !Owned(held[b := n], w)
    {
      assert w in Region(b, len);
      NotMappedNotOwned(mem.Keys, blocks, held, w);
      BehindOwn(held, b, n, w);
    }
  }

  lemma NotMappedNotOwned(mapped: set<nat>, blocks: Blocks, held: Blocks, w: nat)
    requires Tiled(mapped, blocks) && Among(held, blocks) && w % 4 == 0 && w !in mapped
    ensures !Owned(held, w)
  {
    hide Apart, Aligned;
    forall c | c in held
      ensures !Owns(held, c, w)
    {
      assert Owns(held, c, w) <==> Owns(blocks, c, w);
    }
  }

  lemma BehindOwn(held: Blocks, b: nat, n: nat, w: nat)
    requires !Owned(held, w) && b + HEADER + n <= w
    ensures !Owned(held[b := n], w)
  {
    var held' := held[b := n];
    forall c | c in held'
      ensures !Owns(held', c, w)
    {
      assert c != b ==> (Owns(held', c, w) <==> Owns(held, c, w));
    }
  }

  lemma HeldIsWord(mem: Memory, blocks: Blocks, free: seq<nat>, head: nat, b: nat)
    requires HeapOk(mem, blocks, free, head) && b in Allocated(blocks, free)
    ensures b in mem && mem[b] == Allocated(blocks, free)[b] && mem[b] % 4 == 0
  {
    hide Owned, Apart;
    MultipleOfFour(blocks[b]);
  }

  /** Every payload word of a block is mapped. */
  lemma WordMapped(mem: Memory, blocks: Blocks, free: seq<nat>, head: nat, b: nat, o: nat)
    requires HeapOk(mem, blocks, free, head) && b in Allocated(blocks, free)
    requires o % 4 == 0 && o < Allocated(blocks, free)[b]
    ensures b + HEADER + o in mem
  {
    hide Tiled, LinkedBut, FreeOk, Headers;
    assert b % 8 == 0 by { TiledParts(mem.Keys, blocks); }
    MultipleOfFour(b);
    TiledWord(mem.Keys, blocks, b, b + HEADER + o);
  }

  lemma TiledWord(mapped: set<nat>, blocks: Blocks, b: nat, w: nat)
    requires Tiled(mapped, blocks) && Owns(blocks, b, w) && w % 4 == 0
    ensures w in mapped
  {
    hide Apart, Aligned;
    assert Owned(blocks, w);
  }

  lemma PayloadsApart(mem: Memory, blocks: Blocks, free: seq<nat>, head: nat, b: nat, c: nat, o: nat, n: nat)
    requires HeapOk(mem, blocks, free, head) && b in Allocated(blocks, free) && c in Allocated(blocks, free) && b != c
    requires o < n && n <= Allocated(blocks, free)[b] && n <= Allocated(blocks, free)[c]
    ensures !(c + HEADER <= b + HEADER + o < c + HEADER + n)
  {
    hide Owned, Aligned;
  }

  /** Writing payload words of a held block disturbs neither the heap nor other payloads. */
  lemma PayloadWritten(mem: Memory, mem': Memory, blocks: Blocks, free: seq<nat>, head: nat, b: nat, n: nat)
    requires HeapOk(mem, blocks, free, head) && b in Allocated(blocks, free) && n <= Allocated(blocks, free)[b]
    requires mem'.Keys == mem.Keys
    requires forall w: nat | w in mem && !(b + HEADER <= w < b + HEADER + n) :: mem'[w] == mem[w]
    ensures HeapOk(mem', blocks, free, head) && PayloadKept(mem, mem', Allocated(blocks, free) - {b})
  {
    hide Tiled, FreeOk;
    TiledParts(mem.Keys, blocks);
    forall c | c in blocks
      ensures mem'[c] == mem[c] && mem'[c + 4] == mem[c + 4]
    {
      assert c != b && Aligned(blocks) ==> c + HEADER <= b || b + HEADER + n <= c;
    }
    forall j: nat | j < |free|
      ensures Link(mem', free, j)
    {
      assert Link(mem, free, j);
      ElementIsBlock(blocks, free, j);
    }
    forall c, w: nat | Payload(Allocated(blocks, free) - {b}, c, w) && w in mem
      ensures w in mem' && mem'[w] == mem[w]
    {
      assert c in blocks && c != b;
    }
  }

  /** Allocate, copy, free: the contents have moved, and all other payloads are as they were. */
  lemma MovedContents(m: Memory, m1: Memory, m2: Memory, m3: Memory, held: Blocks, held1: Blocks, b: nat, c: nat,
                      n: nat)
    requires b in held && c !in held && held1 == held[c := if c in held1 then held1[c] else 0]
    requires c in held1 && n == held[b] && n <= held1[c]
    requires PayloadKept(m, m1, held) && PayloadKept(m1, m2, held1 - {c}) && PayloadKept(m2, m3, held1 - {b})
    requires forall o: nat | o < n && o % 4 == 0 :: b + HEADER + o in m && c + HEADER + o in m2
    requires forall o: nat | o < n && o % 4 == 0 :: b + HEADER + o in m1 && m2[c + HEADER + o] == m1[b + HEADER + o]
    ensures PayloadKept(m, m3, held - {b})
    ensures forall o: nat | o < n && o % 4 == 0 :: c + HEADER + o in m3 && m3[c + HEADER + o] == m[b + HEADER + o]
  {
    forall x, w: nat | Payload(held - {b}, x, w) && w in m
      ensures w in m3 && m3[w] == m[w]
    {
      assert Payload(held, x, w) && Payload(held1 - {c}, x, w) && Payload(held1 - {b}, x, w);
    }
    forall o: nat | o < n && o % 4 == 0
      ensures c + HEADER + o in m3 && m3[c + HEADER + o] == m[b + HEADER + o]
    {
      assert Payload(held, b, b + HEADER + o) && Payload(held1 - {b}, c, c + HEADER + o);
    }
  }

  lemma PageAlignment(n: nat)
    requires n % PAGE_SIZE == 0
    ensures n % 8 == 0
  {
  }

  lemma RegionStart(a: nat, len: nat)
    requires a % 8 == 0 && HEADER <= len
    ensures a in Region(a, len) && a + 4 in Region(a, len)
  {
    MultipleOfFour(a);
  }

  /** The words of a fresh region; the kernel hands out zeroed pages. */
  function FreshWords(a: nat, len: nat): (m: Memory)
    ensures m.Keys == Region(a, len)
  {
    map w: nat | a <= w < a + len && w % 4 == 0 :: 0
  }

  lemma ListOk(mem: Memory, blocks: Blocks, free: seq<nat>, head: nat)
    requires HeapOk(mem, blocks, free, head)
    ensures FreeOk(blocks, free)
  {
  }

  lemma FitIsFirst(mem: Memory, blocks: Blocks, free: seq<nat>, head: nat, s: nat, i: nat)
    requires HeapOk(mem, blocks, free, head) && FirstFit(blocks, free, s, i)
    ensures !NoFit(blocks, free, s) && free[i] in blocks && s <= blocks[free[i]] && free[i] > 0 && free[i] % 8 == 0
  {
    hide Owned, Apart;
  }

  lemma HeldIsAligned(mem: Memory, blocks: Blocks, free: seq<nat>, head: nat, b: nat)
    requires HeapOk(mem, blocks, free, head) && b in Allocated(blocks, free)
    ensures b > 0 && b % 8 == 0
  {
    hide Owned, Apart;
  }

  lemma AlignedBlock(mem: Memory, blocks: Blocks, free: seq<nat>, head: nat, b: nat)
    requires HeapOk(mem, blocks, free, head) && b in blocks
    ensures b > 0 && b % 8 == 0 && b in mem && b + 4 in mem && mem[b] == blocks[b]
  {
    hide Owned, Apart;
  }

  lemma HeldIsBlock(mem: Memory, blocks: Blocks, free: seq<nat>, head: nat, b: nat, held: Blocks)
    requires HeapOk(mem, blocks, free, head) && b in Allocated(blocks, free) && Among(held, Allocated(blocks, free))
    ensures b in blocks && b !in free && b + 4 in mem && Apart(blocks) && Among(held, blocks)
  {
    hide Owned;
  }

  lemma AmongMore(held: Blocks, b: nat, s: nat)
    requires b !in held
    ensures Among(held, held[b := s])
  {
  }

  lemma PayloadSub(mem: Memory, mem': Memory, held: Blocks, less: Blocks)
    requires PayloadKept(mem, mem', held) && Among(less, held)
    ensures PayloadKept(mem, mem', less)
  {
    forall b, w: nat | Payload(less, b, w) && w in mem
      ensures w in mem' && mem'[w] == mem[w]
    {
      assert Payload(held, b, w);
    }
  }

  lemma CutFacts(mem: Memory, blocks: Blocks, free: seq<nat>, head: nat, b: nat, s: nat)
    requires HeapOk(mem, blocks, free, head) && b in blocks && s % 8 == 0 && s + HEADER <= blocks[b]
    ensures var r: nat := b + HEADER + s;
            r !in blocks && r !in free && r in mem && r + 4 in mem && Apart(blocks)
  {
    hide Tiled, Split, LinkedBut;
    TiledParts(mem.Keys, blocks);
    SplitTiled(mem.Keys, blocks, b, s);
    RestInside(mem.Keys, blocks, b, s);
  }

  lemma AllocatedCut(blocks: Blocks, free: seq<nat>, b: nat, s: nat, held: Blocks)
    requires b in blocks && b !in free && b !in held && s + HEADER <= blocks[b]
    requires b + HEADER + s !in blocks && b + HEADER + s !in free
    requires Allocated(blocks, free) == held[b := blocks[b]]
    ensures var r: nat := b + HEADER + s;
            Allocated(Split(blocks, b, s), free) == held[b := s][r := blocks[b] - s - HEADER] && r !in held
    ensures Among(held, blocks)
  {
    hide Split;
    SplitFacts(blocks, b, s);
    var r: nat, a := b + HEADER + s, Allocated(blocks, free);
    forall x | x in held
      ensures x in blocks && x !in free && held[x] == blocks[x]
    {
      assert x in a && a[x] == held[x];
    }
    forall x | x in blocks && x !in free && x != b
      ensures x in held
    {
      assert x in a;
    }
    hide Allocated;
    var y, z := Allocated(Split(blocks, b, s), free), held[b := s][r := blocks[b] - s - HEADER];
    assert y.Keys == z.Keys;
  }

  /** Cutting a block that is not in the list in two. */
  lemma CutOff(mem: Memory, mem': Memory, blocks: Blocks, free: seq<nat>, head: nat, b: nat, s: nat)
    requires HeapOk(mem, blocks, free, head) && b in blocks && b !in free && s % 8 == 0 && s + HEADER <= blocks[b]
    requires var r: nat := b + HEADER + s; mem' == mem[r := blocks[b] - s - HEADER][r + 4 := 0][b := s]
    ensures HeapOk(mem', Split(blocks, b, s), free, head)
  {
    hide Tiled, Split;
    var r: nat := b + HEADER + s;
    SplitTiled(mem.Keys, blocks, b, s);
    RestInside(mem.Keys, blocks, b, s);
    SplitFacts(blocks, b, s);
    assert mem'.Keys == mem.Keys;
    TiledParts(mem.Keys, Split(blocks, b, s));
    CutHeaders(mem, mem', blocks, b, s);
    hide Aligned, Apart, Headers;
    forall j: nat | j < |free|
      ensures Link(mem', free, j)
    {
      assert Link(mem, free, j) && free[j] in free && free[j] in blocks;
      HeaderApart(Split(blocks, b, s), b, free[j]);
      HeaderApart(Split(blocks, b, s), r, free[j]);
    }
    CutFreeOk(blocks, free, b, s);
  }

  lemma CutFreeOk(blocks: Blocks, free: seq<nat>, b: nat, s: nat)
    requires FreeOk(blocks, free) && b in blocks && b !in free && s + HEADER <= blocks[b] && b + HEADER + s !in blocks
    ensures FreeOk(Split(blocks, b, s), free)
  {
    hide Split;
    SplitFacts(blocks, b, s);
    forall j | 0 <= j < |free|
      ensures free[j] in blocks && free[j] != b
    {
      assert free[j] in free;
    }
  }

  lemma CutHeaders(mem: Memory, mem': Memory, blocks: Blocks, c: nat, s: nat)
    requires Headers(mem, blocks) && c in blocks && s + HEADER <= blocks[c] && Aligned(Split(blocks, c, s))
    requires c + HEADER + s !in blocks && c + HEADER + s in mem && c + HEADER + s + 4 in mem
    requires var r: nat := c + HEADER + s; mem' == mem[r := blocks[c] - s - HEADER][r + 4 := 0][c := s]
    ensures Headers(mem', Split(blocks, c, s))
  {
    hide Split;
    SplitFacts(blocks, c, s);
    var r: nat, t := c + HEADER + s, Split(blocks, c, s);
    forall d | d in t
      ensures d in mem' && d + 4 in mem' && mem'[d] == t[d]
    {
      HeaderApart(t, r, d);
    }
  }

  lemma NextWritten(mem: Memory, b: nat, x: nat)
    requires b + 4 in mem
    ensures HeaderWrite(mem, mem[b + 4 := x], b)
  {
  }

  lemma CloseHead(mem: Memory, blocks: Blocks, free: seq<nat>)
    requires OpenAt(mem, blocks, free, 0)
    ensures HeapOk(mem, blocks, free, At(free, 0))
  {
  }

  lemma OkParts(mem: Memory, blocks: Blocks, free: seq<nat>, head: nat, c: nat)
    requires HeapOk(mem, blocks, free, head) && c in blocks
    ensures Apart(blocks) && c + 4 in mem
  {
    hide Owned;
  }

  lemma FitFacts(mem: Memory, blocks: Blocks, free: seq<nat>, head: nat, i: nat)
    requires HeapOk(mem, blocks, free, head) && i < |free|
    ensures free[i] in blocks && free[i] in mem && free[i] + 4 in mem && mem[free[i]] == blocks[free[i]]
    ensures free[i] !in Allocated(blocks, free) && FreeOk(blocks, free) && Among(Allocated(blocks, free), blocks)
    ensures head == At(free, 0) && Apart(blocks)
  {
    hide Tiled, Allocated;
    TiledParts(mem.Keys, blocks);
  }

  /** Cutting the front off: where the rest lies, and who holds what afterwards. */
  lemma FrontFacts(mem: Memory, blocks: Blocks, free: seq<nat>, head: nat, i: nat, s: nat)
    requires HeapOk(mem, blocks, free, head) && i < |free| && s % 8 == 0 && s + HEADER <= blocks[free[i]]
    ensures var r: nat := free[i] + HEADER + s;
            && r !in blocks && r in mem && r + 4 in mem && r != free[i] + 4 && r != 0
            && Allocated(Split(blocks, free[i], s), free[i := r]) == Allocated(blocks, free)[free[i] := s]
            && Among(Allocated(blocks, free), Split(blocks, free[i], s))
  {
    hide Tiled, Split, Allocated, Headers, LinkedBut;
    var c: nat := free[i];
    SplitTiled(mem.Keys, blocks, c, s);
    RestInside(mem.Keys, blocks, c, s);
    AllocatedFront(blocks, free, i, s);
    SplitFacts(blocks, c, s);
    assert c in free;
  }

  lemma WholeFacts(mem: Memory, blocks: Blocks, free: seq<nat>, head: nat, i: nat)
    requires HeapOk(mem, blocks, free, head) && i < |free|
    ensures Allocated(blocks, Remove(free, i)) == Allocated(blocks, free)[free[i] := blocks[free[i]]]
  {
    hide Tiled, Remove, Allocated, Headers, LinkedBut;
    AllocatedWhole(blocks, free, i);
  }

  /** Writes inside a block that nobody holds leave all payloads alone. */
  lemma FrontPayload(mem: Memory, mem': Memory, blocks: Blocks, c: nat, s: nat, held: Blocks, x: nat, y: nat)
    requires Apart(blocks) && c in blocks && c !in held && Among(held, blocks) && s + HEADER <= blocks[c]
    requires var r: nat := c + HEADER + s;
             c in mem && r in mem && r + 4 in mem && mem' == mem[r := x][r + 4 := y][c := s]
    ensures PayloadKept(mem, mem', held) && mem'.Keys == mem.Keys
  {
    forall b, w: nat | Payload(held, b, w) && w in mem
      ensures w in mem' && mem'[w] == mem[w]
    {
      assert Owns(blocks, b, w);
    }
  }

  lemma BlockNotNull(mem: Memory, blocks: Blocks, b: nat)
    requires Tiled(mem.Keys, blocks) && b in blocks
    ensures b > 0
  {
  }

  lemma HeldAmong(blocks: Blocks, free: seq<nat>, b: nat)
    ensures Among(Allocated(blocks, free) - {b}, blocks)
  {
  }

  lemma PayloadRefl(mem: Memory, held: Blocks)
    ensures PayloadKept(mem, mem, held)
  {
  }
}
