/** The bytes a cluster chain holds, as one string, and how writes and table updates act on them. */
module ClusterBytes {
  import opened Bytes
  import opened Collections
  import opened FatTable
  import opened FatOperations

  ghost predicate InVolume(c: seq<nat>, limit: nat) {
    forall i | 0 <= i < |c| :: 2 <= c[i] < limit
  }

  /** Clusters lie behind the tables, inside the volume, and two different ones do not overlap. */
  lemma ClusterInBounds(t: AllocationTable, c: nat, limit: nat, size: nat)
    requires t.Lays(limit, size) && 2 <= c < limit
    ensures t.FatEnd() <= t.firstClusterLocation <= t.ClusterLocation(c)
    ensures t.ClusterLocation(c) + t.BytesPerCluster() <= size
    ensures 0 < t.BytesPerCluster()
  {
    var b := t.BytesPerCluster();
    MulStep(c - 2, b);
    MulLe(c - 1, limit - 2, b);
    MulLe(0, c - 2, b);
    assert b * (c - 2) == (c - 2) * b && b * (limit - 2) == (limit - 2) * b;
  }

  lemma ClustersApart(t: AllocationTable, c: nat, d: nat)
    requires 2 <= c < d
    ensures t.ClusterLocation(c) + t.BytesPerCluster() <= t.ClusterLocation(d)
  {
    var b := t.BytesPerCluster();
    MulStep(c - 2, b);
    MulLe(c - 1, d - 2, b);
    assert b * (c - 2) == (c - 2) * b && b * (d - 2) == (d - 2) * b;
  }

  ghost function Cluster(view: seq<Byte>, t: AllocationTable, c: nat, limit: nat): (r: seq<Byte>)
    requires t.Lays(limit, |view|) && 2 <= c < limit
    ensures |r| == t.BytesPerCluster()
  {
    ClusterInBounds(t, c, limit, |view|);
    view[t.ClusterLocation(c)..t.ClusterLocation(c) + t.BytesPerCluster()]
  }

  /** The clusters of a chain, one after the other. */
  ghost function ChainBytes(view: seq<Byte>, t: AllocationTable, c: seq<nat>, limit: nat): (r: seq<Byte>)
    requires t.Lays(limit, |view|) && InVolume(c, limit)
    ensures |r| == |c| * t.BytesPerCluster()
  {
    if c == [] then [] else
      MulStep(|c| - 1, t.BytesPerCluster());
      ChainBytes(view, t, c[..|c| - 1], limit) + Cluster(view, t, c[|c| - 1], limit)
  }

  /** A chain's bytes depend on its own clusters only. */
  lemma {:induction false} SameClusters(v: seq<Byte>, w: seq<Byte>, t: AllocationTable, c: seq<nat>, limit: nat)
    requires |v| == |w| && t.Lays(limit, |v|) && InVolume(c, limit)
    requires forall i | 0 <= i < |c| :: Cluster(v, t, c[i], limit) == Cluster(w, t, c[i], limit)
    ensures ChainBytes(v, t, c, limit) == ChainBytes(w, t, c, limit)
  {
    if c != [] {
      SameClusters(v, w, t, c[..|c| - 1], limit);
    }
  }

  /** Position `k * bytes-per-cluster + o` of a chain is byte `o` of its cluster number `k`. */
  lemma {:induction false} ChainRead(v: seq<Byte>, t: AllocationTable, c: seq<nat>, limit: nat, k: nat, o: nat, n: nat)
    requires t.Lays(limit, |v|) && InVolume(c, limit) && k < |c| && o + n <= t.BytesPerCluster()
    ensures k * t.BytesPerCluster() + o + n <= |c| * t.BytesPerCluster()
    ensures t.ClusterLocation(c[k]) + o + n <= |v|
    ensures ChainBytes(v, t, c, limit)[k * t.BytesPerCluster() + o..k * t.BytesPerCluster() + o + n]
         == v[t.ClusterLocation(c[k]) + o..t.ClusterLocation(c[k]) + o + n]
  {
    hide AllocationTable.Lays, AllocationTable.ClusterLocation, AllocationTable.BytesPerCluster;
    var b := t.BytesPerCluster();
    MulStep(k, b);
    MulLe(k + 1, |c|, b);
    MulStep(|c| - 1, b);
    ClusterInBounds(t, c[k], limit, |v|);
    var init, last := c[..|c| - 1], c[|c| - 1];
    var head, tail := ChainBytes(v, t, init, limit), Cluster(v, t, last, limit);
    assert ChainBytes(v, t, c, limit) == head + tail;
    hide ChainBytes;
    ConcatSlice(head, tail, k * b + o, k * b + o + n);
    if k < |c| - 1 {
      ChainRead(v, t, init, limit, k, o, n);
      MulLe(k + 1, |c| - 1, b);
    } else {
      SubSlice(v, t.ClusterLocation(last), t.ClusterLocation(last) + b, o, n);
    }
  }

  lemma ConcatSlice(a: seq<Byte>, b: seq<Byte>, lo: nat, hi: nat)
    requires lo <= hi <= |a| + |b|
    ensures hi <= |a| ==> (a + b)[lo..hi] == a[lo..hi]
    ensures |a| <= lo ==> (a + b)[lo..hi] == b[lo - |a|..hi - |a|]
  {
  }

  lemma ClusterWrite(v: seq<Byte>, t: AllocationTable, limit: nat, c: nat, o: nat, d: seq<Byte>, x: nat)
    requires t.Lays(limit, |v|) && 2 <= c < limit && 2 <= x < limit && o + |d| <= t.BytesPerCluster()
    ensures t.ClusterLocation(c) + o + |d| <= |v|
    ensures Cluster(Splice(v, t.ClusterLocation(c) + o, d), t, x, limit)
         == if x == c then Splice(Cluster(v, t, x, limit), o, d) else Cluster(v, t, x, limit)
  {
    hide Splice;
    ClusterInBounds(t, c, limit, |v|);
    ClusterInBounds(t, x, limit, |v|);
    if x != c {
      ClustersApart(t, if x < c then x else c, if x < c then c else x);
    }
    SpliceSlice(v, t.ClusterLocation(c) + o, d, t.ClusterLocation(x), t.ClusterLocation(x) + t.BytesPerCluster());
  }

  /** Writing into cluster number `k` of a chain overwrites the chain's string at that place. */
  lemma {:induction false} ChainWrite(v: seq<Byte>, t: AllocationTable, c: seq<nat>, limit: nat, k: nat, o: nat,
                                      d: seq<Byte>)
    requires t.Lays(limit, |v|) && InVolume(c, limit) && NoDuplicates(c) && k < |c| && o + |d| <= t.BytesPerCluster()
    ensures t.ClusterLocation(c[k]) + o + |d| <= |v|
    ensures k * t.BytesPerCluster() + o + |d| <= |c| * t.BytesPerCluster()
    ensures ChainBytes(Splice(v, t.ClusterLocation(c[k]) + o, d), t, c, limit)
         == Splice(ChainBytes(v, t, c, limit), k * t.BytesPerCluster() + o, d)
  {
    hide Splice, Cluster, AllocationTable.Lays, AllocationTable.ClusterLocation, AllocationTable.BytesPerCluster;
    var b := t.BytesPerCluster();
    MulStep(k, b);
    MulLe(k + 1, |c|, b);
    var last := |c| - 1;
    MulStep(last, b);
    var init := c[..last];
    ClusterWrite(v, t, limit, c[k], o, d, c[last]);
    var w := Splice(v, t.ClusterLocation(c[k]) + o, d);
    if k < last {
      ChainWrite(v, t, init, limit, k, o, d);
      MulLe(k + 1, last, b);
      SpliceLeft(ChainBytes(v, t, init, limit), Cluster(v, t, c[last], limit), k * b + o, d);
    } else {
      forall i | 0 <= i < |init|
        ensures Cluster(v, t, init[i], limit) == Cluster(w, t, init[i], limit)
      {
        ClusterWrite(v, t, limit, c[k], o, d, init[i]);
      }
      SameClusters(v, w, t, init, limit);
      SpliceRight(ChainBytes(v, t, init, limit), Cluster(v, t, c[last], limit), o, d);
    }
  }

  lemma SpliceLeft(a: seq<Byte>, b: seq<Byte>, at: nat, d: seq<Byte>)
    requires at + |d| <= |a|
    ensures Splice(a + b, at, d) == Splice(a, at, d) + b
  {
  }

  lemma SpliceRight(a: seq<Byte>, b: seq<Byte>, o: nat, d: seq<Byte>)
    requires o + |d| <= |b|
    ensures Splice(a + b, |a| + o, d) == a + Splice(b, o, d)
  {
  }

  /** Updates of the allocation table do not reach any cluster. */
  lemma TableIsNoCluster(v: seq<Byte>, w: seq<Byte>, t: AllocationTable, limit: nat, c: nat)
    requires t.Lays(limit, |v|) && OnlyTable(w, v, t) && 2 <= c < limit
    ensures Cluster(w, t, c, limit) == Cluster(v, t, c, limit)
  {
    ClusterInBounds(t, c, limit, |v|);
    var e, l := t.FatEnd(), t.ClusterLocation(c);
    SubSlice(v, e, |v|, l - e, t.BytesPerCluster());
    SubSlice(w, e, |w|, l - e, t.BytesPerCluster());
  }

  /** Writes behind the tables leave every copy of the allocation table alone. */
  lemma ClusterIsNoTable(v: seq<Byte>, t: AllocationTable, limit: nat, at: nat, d: seq<Byte>, k: nat)
    requires t.Lays(limit, |v|) && t.FatEnd() <= at && at + |d| <= |v| && k < t.fatCount
    ensures Copy(Splice(v, at, d), t, k, limit) == Copy(v, t, k, limit)
  {
    hide Splice;
    CopyInBounds(t, k, limit, |v|);
    FatUntouched(v, at, d, t.FatStart(k), limit);
  }
}
