/**
 Cluster chains: what the entries of an allocation table mean, and what allocating, linking and freeing do to them.
 */
module FatChains {
  import opened FatTable

  /** `c` runs from cluster to cluster along the table and ends in the end-of-chain mark. */
  ghost predicate IsChain(fat: seq<nat>, c: seq<nat>) {
    && |c| >= 1
    && (forall i | 0 <= i < |c| :: 2 <= c[i] < |fat|)
    && (forall i | 0 <= i < |c| - 1 :: fat[c[i]] == c[i + 1])
    && fat[c[|c| - 1]] == END_OF_CHAIN
  }

  ghost predicate Disjoint(c: seq<nat>, d: seq<nat>) {
    forall x | x in c :: x !in d
  }

  /** The table is a set of pairwise disjoint chains. */
  ghost predicate Forest(fat: seq<nat>, chains: seq<seq<nat>>) {
    && |fat| <= CLUSTER_CAP
    && (forall k | 0 <= k < |chains| :: IsChain(fat, chains[k]))
    && (forall j, k | 0 <= j < |chains| && 0 <= k < |chains| && j != k :: Disjoint(chains[j], chains[k]))
  }

  /** Every cluster in use lies on one of the chains. */
  ghost predicate NothingLost(fat: seq<nat>, chains: seq<seq<nat>>) {
    forall c | 2 <= c < |fat| && fat[c] != 0 :: exists k :: 0 <= k < |chains| && c in chains[k]
  }

  /** A chain that ends has no cycle. */
  lemma {:induction false} ChainIsAcyclic(fat: seq<nat>, c: seq<nat>, i: nat, j: nat)
    requires |fat| <= CLUSTER_CAP && IsChain(fat, c) && i < j < |c|
    ensures c[i] != c[j]
    decreases |c| - j
  {
    assert fat[c[i]] == c[i + 1];
    if j < |c| - 1 {
      assert fat[c[j]] == c[j + 1];
      ChainIsAcyclic(fat, c, i + 1, j + 1);
    }
  }

  /** From a given cluster on, all chains run the same way. */
  lemma {:induction false} ChainsAgree(fat: seq<nat>, c: seq<nat>, d: seq<nat>)
    requires |fat| <= CLUSTER_CAP && IsChain(fat, c) && IsChain(fat, d) && c[0] == d[0]
    ensures c == d
    decreases |c|
  {
    assert |c| > 1 ==> fat[c[0]] == c[1];
    assert |d| > 1 ==> fat[d[0]] == d[1];
    if |c| > 1 && |d| > 1 {
      assert IsChain(fat, c[1..]) && IsChain(fat, d[1..]);
      ChainsAgree(fat, c[1..], d[1..]);
      assert c == [c[0]] + c[1..] && d == [d[0]] + d[1..];
    }
  }

  /** A free cluster lies on no chain. */
  lemma FreeIsOnNoChain(fat: seq<nat>, c: seq<nat>, free: nat)
    requires IsChain(fat, c) && free < |fat| && fat[free] == 0
    ensures free !in c
  {
    if i :| 0 <= i < |c| && c[i] == free {
      assert i == |c| - 1 || fat[c[i]] == c[i + 1];
    }
  }

  /** Changing entries off a chain leaves it a chain. */
  lemma ChainKept(fat: seq<nat>, fat': seq<nat>, c: seq<nat>)
    requires IsChain(fat, c) && |fat'| == |fat|
    requires forall x | x in c :: x < |fat| && fat'[x] == fat[x]
    ensures IsChain(fat', c)
  {
    assert c[|c| - 1] in c;
    forall i | 0 <= i < |c| - 1
      ensures fat'[c[i]] == c[i + 1]
    {
      assert c[i] in c;
    }
  }

  /** A chain extended by a cluster whose entry already is the end-of-chain mark. */
  lemma LinkIsChain(fat: seq<nat>, c: seq<nat>, free: nat)
    requires IsChain(fat, c) && |fat| <= CLUSTER_CAP && 2 <= free < |fat| && fat[free] == 0
    ensures IsChain(fat[free := END_OF_CHAIN][c[|c| - 1] := free], c + [free])
  {
    var last := c[|c| - 1];
    var fat' := fat[free := END_OF_CHAIN][last := free];
    FreeIsOnNoChain(fat, c, free);
    var d := c + [free];
    forall i | 0 <= i < |d| - 1
      ensures fat'[d[i]] == d[i + 1]
    {
      if i < |c| - 1 {
        ChainIsAcyclic(fat, c, i, |c| - 1);
        assert c[i] in c;
      }
    }
  }

  lemma ChainBounds(fat: seq<nat>, c: seq<nat>)
    requires IsChain(fat, c)
    ensures |c| >= 1 && forall x | x in c :: 2 <= x < |fat|
  {
  }

  /** The table with the entries of the clusters in `c` cleared. */
  function Cleared(fat: seq<nat>, c: seq<nat>): (r: seq<nat>)
    ensures |r| == |fat|
    ensures forall x | 0 <= x < |fat| :: r[x] == if x in c then 0 else fat[x]
  {
    seq(|fat|, x requires 0 <= x < |fat| => if x in c then 0 else fat[x])
  }

  // ---- what the operations do to the whole table ----

  /** The table is exactly these chains: disjoint, each ending, and no used cluster is on none of them. */
  ghost predicate Sound(fat: seq<nat>, chains: seq<seq<nat>>) {
    Forest(fat, chains) && NothingLost(fat, chains)
  }

  /** Chain `a` has become `c`, or `c` is a chain more. */
  function WithChain(chains: seq<seq<nat>>, a: nat, c: seq<nat>): seq<seq<nat>> {
    if a < |chains| then chains[a := c] else chains + [c]
  }

  function WithoutChain(chains: seq<seq<nat>>, a: nat): seq<seq<nat>>
    requires a < |chains|
  {
    chains[..a] + chains[a + 1..]
  }

  /**
   Whatever the chains of the table, chain `c` (new, if empty) has become `c'` and all the others are as they were.
   */
  ghost predicate GrowsOneChain(fat: seq<nat>, fat': seq<nat>, c: seq<nat>, c': seq<nat>) {
    forall chains: seq<seq<nat>>, a: nat {:trigger WithChain(chains, a, c')}
      | Forest(fat, chains) && (if c == [] then a == |chains| else a < |chains| && chains[a] == c) ::
      && Forest(fat', WithChain(chains, a, c'))
      && (NothingLost(fat, chains) ==> NothingLost(fat', WithChain(chains, a, c')))
  }

  /** Whatever the chains of the table, chain `c` is gone and all the others are as they were. */
  ghost predicate DropsOneChain(fat: seq<nat>, fat': seq<nat>, c: seq<nat>) {
    forall chains: seq<seq<nat>>, a: nat | Forest(fat, chains) && a < |chains| && chains[a] == c ::
      Forest(fat', WithoutChain(chains, a)) && (NothingLost(fat, chains) ==> NothingLost(fat', WithoutChain(chains, a)))
  }

  /** A chain that grows by free clusters only, with no entry off it changed, disturbs no other chain. */
  lemma GrowthIsLocal(fat: seq<nat>, fat': seq<nat>, c: seq<nat>, c': seq<nat>)
    requires |fat'| == |fat| && IsChain(fat', c') && c <= c'
    requires forall i | |c| <= i < |c'| :: c'[i] < |fat| && fat[c'[i]] == 0
    requires forall x | 2 <= x < |fat| && x !in c' :: fat'[x] == fat[x]
    ensures GrowsOneChain(fat, fat', c, c')
  {
    forall chains: seq<seq<nat>>, a: nat {:trigger WithChain(chains, a, c')}
      | Forest(fat, chains) && (if c == [] then a == |chains| else a < |chains| && chains[a] == c)
      ensures Forest(fat', WithChain(chains, a, c'))
      ensures NothingLost(fat, chains) ==> NothingLost(fat', WithChain(chains, a, c'))
    {
      GrowthInForest(fat, fat', c, c', chains, a);
      if NothingLost(fat, chains) {
        GrowthLosesNothing(fat, fat', c, c', chains, a);
      }
    }
  }

  lemma GrowthInForest(fat: seq<nat>, fat': seq<nat>, c: seq<nat>, c': seq<nat>, chains: seq<seq<nat>>, a: nat)
    requires |fat'| == |fat| && IsChain(fat', c') && c <= c'
    requires forall i | |c| <= i < |c'| :: c'[i] < |fat| && fat[c'[i]] == 0
    requires forall x | 2 <= x < |fat| && x !in c' :: fat'[x] == fat[x]
    requires Forest(fat, chains) && (if c == [] then a == |chains| else a < |chains| && chains[a] == c)
    ensures Forest(fat', WithChain(chains, a, c'))
  {
    var chains' := WithChain(chains, a, c');
    forall k | 0 <= k < |chains| && k != a
      ensures IsChain(fat', chains[k]) && Disjoint(chains[k], c') && Disjoint(c', chains[k])
    {
      assert c == [] || Disjoint(chains[k], c);
      OtherIsDisjoint(fat, c, c', chains[k]);
      ChainBounds(fat, chains[k]);
      ChainKept(fat, fat', chains[k]);
    }
    hide IsChain;
    forall j, k | 0 <= j < |chains'| && 0 <= k < |chains'| && j != k
      ensures Disjoint(chains'[j], chains'[k])
    {
      assert j != a && k != a ==> Disjoint(chains[j], chains[k]);
    }
  }

  lemma GrowthLosesNothing(fat: seq<nat>, fat': seq<nat>, c: seq<nat>, c': seq<nat>, chains: seq<seq<nat>>, a: nat)
    requires |fat'| == |fat| && c <= c' && NothingLost(fat, chains)
    requires forall x | 2 <= x < |fat| && x !in c' :: fat'[x] == fat[x]
    requires if c == [] then a == |chains| else a < |chains| && chains[a] == c
    ensures NothingLost(fat', WithChain(chains, a, c'))
  {
    var chains' := WithChain(chains, a, c');
    forall x | 2 <= x < |fat'| && fat'[x] != 0
      ensures exists k :: 0 <= k < |chains'| && x in chains'[k]
    {
      if x in c' {
        assert x in chains'[a];
      } else {
        var k :| 0 <= k < |chains| && x in chains[k];
        assert k == a ==> x in c;
        assert x in chains'[k];
      }
    }
  }

  lemma OtherIsDisjoint(fat: seq<nat>, c: seq<nat>, c': seq<nat>, d: seq<nat>)
    requires c <= c' && IsChain(fat, d) && Disjoint(d, c)
    requires forall i | |c| <= i < |c'| :: c'[i] < |fat| && fat[c'[i]] == 0
    ensures Disjoint(d, c') && Disjoint(c', d)
  {
    forall x | x in c'
      ensures x !in d
    {
      var i :| 0 <= i < |c'| && c'[i] == x;
      if i < |c| {
        assert c[i] == x;
      } else {
        FreeIsOnNoChain(fat, d, x);
      }
    }
  }

  /** Freeing a chain leaves exactly the others. */
  lemma FreeKeepsForest(fat: seq<nat>, chains: seq<seq<nat>>, a: nat)
    requires Forest(fat, chains) && a < |chains|
    ensures Forest(Cleared(fat, chains[a]), WithoutChain(chains, a))
  {
    hide IsChain;
    var fat', rest := Cleared(fat, chains[a]), WithoutChain(chains, a);
    forall k | 0 <= k < |rest|
      ensures IsChain(fat', rest[k])
    {
      var o := if k < a then k else k + 1;
      assert rest[k] == chains[o] && Disjoint(chains[o], chains[a]);
      ChainBounds(fat, chains[o]);
      ChainKept(fat, fat', chains[o]);
    }
    hide Disjoint;
    forall j, k | 0 <= j < |rest| && 0 <= k < |rest| && j != k
      ensures Disjoint(rest[j], rest[k])
    {
      assert Disjoint(chains[if j < a then j else j + 1], chains[if k < a then k else k + 1]);
    }
  }

  lemma FreeLosesNothing(fat: seq<nat>, chains: seq<seq<nat>>, a: nat)
    requires a < |chains| && NothingLost(fat, chains)
    ensures NothingLost(Cleared(fat, chains[a]), WithoutChain(chains, a))
  {
    var fat', rest := Cleared(fat, chains[a]), WithoutChain(chains, a);
    forall c | 2 <= c < |fat'| && fat'[c] != 0
      ensures exists k :: 0 <= k < |rest| && c in rest[k]
    {
      var k :| 0 <= k < |chains| && c in chains[k];
      assert rest[if k < a then k else k - 1] == chains[k];
    }
  }

  lemma FreeingIsLocal(fat: seq<nat>, c: seq<nat>)
    ensures DropsOneChain(fat, Cleared(fat, c), c)
  {
    forall chains: seq<seq<nat>>, a: nat | Forest(fat, chains) && a < |chains| && chains[a] == c
      ensures Forest(Cleared(fat, c), WithoutChain(chains, a))
      ensures NothingLost(fat, chains) ==> NothingLost(Cleared(fat, c), WithoutChain(chains, a))
    {
      FreeKeepsForest(fat, chains, a);
      if NothingLost(fat, chains) {
        FreeLosesNothing(fat, chains, a);
      }
    }
  }
}
