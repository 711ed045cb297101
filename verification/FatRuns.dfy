/** Runs of table operations: taking a cluster, extending a chain, releasing a chain, in any order. */
module FatRuns {
  import opened Bytes
  import opened Collections
  import opened DiskCache
  import opened FatTable
  import opened FatChains
  import opened FatOperations
  import opened ClusterBytes
  import opened FatGrowth

  datatype Request = Take | Extend(chain: nat) | Release(chain: nat)

  /** A table together with its chains. */
  datatype Table = Table(fat: seq<nat>, chains: seq<seq<nat>>)

  function LowestFree(fat: seq<nat>, from: nat): (r: Option<nat>)
    ensures r.Some? ==> from <= r.value < |fat| && fat[r.value] == 0 && forall x | from <= x < r.value :: fat[x] != 0
    ensures r.None? ==> forall x | from <= x < |fat| :: fat[x] != 0
    decreases |fat| - from
  {
    if from >= |fat| then None else if fat[from] == 0 then Some(from) else LowestFree(fat, from + 1)
  }

  /** What a request makes of a table; a full table refuses, and a chain that is not there is ignored. */
  function Applied(s: Table, r: Request): Table {
    var x := LowestFree(s.fat, 2);
    match r
    case Take =>
      if x.None? then s else Table(LinkedIn(s.fat, [], x.value), s.chains + [[x.value]])
    case Extend(a) =>
      if a >= |s.chains| || x.None? then s
      else Table(LinkedIn(s.fat, s.chains[a], x.value), s.chains[a := s.chains[a] + [x.value]])
    case Release(a) =>
      if a >= |s.chains| then s else Table(Cleared(s.fat, s.chains[a]), WithoutChain(s.chains, a))
  }

  function AppliedAll(s: Table, rs: seq<Request>): Table {
    if rs == [] then s else Applied(AppliedAll(s, rs[..|rs| - 1]), rs[|rs| - 1])
  }

  lemma GrownSound(fat: seq<nat>, c: seq<nat>, x: nat, chains: seq<seq<nat>>, a: nat)
    requires Sound(fat, chains) && 2 <= x < |fat| && fat[x] == 0
    requires if c == [] then a == |chains| else a < |chains| && chains[a] == c
    ensures Sound(LinkedIn(fat, c, x), WithChain(chains, a, c + [x]))
  {
    assert c != [] ==> IsChain(fat, c);
    LinkedFacts(fat, c, x);
    hide IsChain, LinkedIn, FreeSet;
    GrowthIsLocal(fat, LinkedIn(fat, c, x), c, c + [x]);
  }

  /** Every request keeps the table a set of disjoint chains with no used cluster off all of them. */
  lemma AppliedSound(s: Table, r: Request)
    requires Sound(s.fat, s.chains)
    ensures Sound(Applied(s, r).fat, Applied(s, r).chains) && |Applied(s, r).fat| == |s.fat|
  {
    var x := LowestFree(s.fat, 2);
    match r
    case Take =>
      if x.Some? {
        GrownSound(s.fat, [], x.value, s.chains, |s.chains|);
        assert [] + [x.value] == [x.value];
      }
    case Extend(a) =>
      if a < |s.chains| && x.Some? {
        assert IsChain(s.fat, s.chains[a]);
        GrownSound(s.fat, s.chains[a], x.value, s.chains, a);
      }
    case Release(a) =>
      if a < |s.chains| {
        FreeingIsLocal(s.fat, s.chains[a]);
      }
  }

  lemma {:induction false} RunSound(s: Table, rs: seq<Request>)
    requires Sound(s.fat, s.chains)
    ensures Sound(AppliedAll(s, rs).fat, AppliedAll(s, rs).chains) && |AppliedAll(s, rs).fat| == |s.fat|
  {
    if rs != [] {
      RunSound(s, rs[..|rs| - 1]);
      AppliedSound(AppliedAll(s, rs[..|rs| - 1]), rs[|rs| - 1]);
    }
  }

  /** A request for a cluster finds one, or the table covers every cluster the scan looks at. */
  ghost predicate Served(fat: seq<nat>, limit: nat, r: Request) {
    limit == CLUSTER_CAP || r.Release? || HasFree(fat)
  }

  /** Every copy of the table holds these entries. */
  ghost predicate Stored(view: seq<Byte>, t: AllocationTable, limit: nat, fat: seq<nat>) {
    t.Lays(limit, |view|) && 1 <= t.fatCount && forall k | 0 <= k < t.fatCount :: Copy(view, t, k, limit) == fat
  }

  lemma LowestIsLowest(fat: seq<nat>, r: Option<nat>)
    requires r.Some? <==> HasFree(fat)
    requires r.Some? ==> 2 <= r.value < |fat| && fat[r.value] == 0 && forall x | 2 <= x < r.value :: fat[x] != 0
    ensures r == LowestFree(fat, 2)
  {
    var q := LowestFree(fat, 2);
    if q.Some? {
      assert 2 <= q.value < |fat| && fat[q.value] == 0;
    }
  }

  /** One request on the disk, with the clusters of every chain at hand as the file handles have them. */
  method ServeTable(r: Request, chains: seq<seq<nat>>, t: AllocationTable, disk: DiskAccess, ghost limit: nat,
                    ghost fat: seq<nat>)
    returns (chains': seq<seq<nat>>)
    requires disk.Valid() && Stored(disk.View, t, limit, fat) && Sound(fat, chains) && Served(fat, limit, r)
    modifies disk, disk.buf, disk.hashTable
    ensures disk.Valid() && Stored(disk.View, t, limit, Applied(Table(fat, chains), r).fat)
    ensures chains' == Applied(Table(fat, chains), r).chains
  {
    hide DiskAccess.Valid, Copy, IsChain, ChainBytes, Kept, GrowsOneChain, DropsOneChain, OnlyTable,
         AllocationTable.Lays, LinkedIn, NothingLost, Cleared;
    chains' := chains;
    match r
    case Take =>
      var x := AppendCluster(t, None, disk, limit, []);
      LowestIsLowest(fat, x);
      if x.Some? {
        chains' := chains + [[x.value]];
      }
    case Extend(a) =>
      if a < |chains| {
        assert IsChain(fat, chains[a]) by { ForestChain(fat, chains, a); }
        ChainBounds(fat, chains[a]);
        var x := AppendCluster(t, Some(chains[a][|chains[a]| - 1]), disk, limit, chains[a]);
        LowestIsLowest(fat, x);
        if x.Some? {
          chains' := chains[a := chains[a] + [x.value]];
        }
      }
    case Release(a) =>
      if a < |chains| {
        ForestChain(fat, chains, a);
        ChainBounds(fat, chains[a]);
        FreeChain(t, chains[a][0], disk, limit, chains[a]);
        SameSize(old(disk.View), disk.View, t);
        chains' := chains[..a] + chains[a + 1..];
      }
  }

  lemma ForestChain(fat: seq<nat>, chains: seq<seq<nat>>, a: nat)
    requires Sound(fat, chains) && a < |chains|
    ensures IsChain(fat, chains[a])
  {
  }

  /**
   Every run of requests leaves in every copy of the table exactly what the run on the bare table gives: disjoint chains
   that all end, with no used cluster off all of them.
   */
  method TableRun(rs: seq<Request>, chains: seq<seq<nat>>, t: AllocationTable, disk: DiskAccess, ghost limit: nat,
                  ghost fat: seq<nat>)
    returns (chains': seq<seq<nat>>)
    requires disk.Valid() && Stored(disk.View, t, limit, fat) && Sound(fat, chains)
    requires forall i | 0 <= i < |rs| :: Served(AppliedAll(Table(fat, chains), rs[..i]).fat, limit, rs[i])
    modifies disk, disk.buf, disk.hashTable
    ensures disk.Valid() && Stored(disk.View, t, limit, AppliedAll(Table(fat, chains), rs).fat)
    ensures chains' == AppliedAll(Table(fat, chains), rs).chains
    ensures Sound(AppliedAll(Table(fat, chains), rs).fat, chains')
  {
    hide DiskAccess.Valid, Stored, Sound, Served, Applied;
    chains' := chains;
    for i := 0 to |rs|
      invariant disk.Valid() && Stored(disk.View, t, limit, AppliedAll(Table(fat, chains), rs[..i]).fat)
      invariant chains' == AppliedAll(Table(fat, chains), rs[..i]).chains
    {
      RunSound(Table(fat, chains), rs[..i]);
      assert rs[..i + 1][..i] == rs[..i];
      chains' := ServeTable(rs[i], chains', t, disk, limit, AppliedAll(Table(fat, chains), rs[..i]).fat);
    }
    assert rs[..|rs|] == rs;
    RunSound(Table(fat, chains), rs);
  }
}
