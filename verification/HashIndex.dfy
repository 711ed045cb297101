/**
 The open-addressing index of the sector cache, as mathematics: a table of 256 buckets that holds
 slot numbers, where slot `s` has home bucket `homes[s]` and is found by probing forward from it.
 */
module HashIndex {
  import opened Collections

  const BUCKETS: nat := 256
  const EMPTY: nat := 0xFFFF

  /** How many probe steps lead from bucket `a` to bucket `b`, going round the end of the table. */
  function Dist(a: nat, b: nat): (d: nat)
    requires a < BUCKETS && b < BUCKETS
    ensures d < BUCKETS
    ensures d == 0 <==> a == b
  {
    if a <= b then b - a else b + BUCKETS - a
  }

  /** The probe that follows `idx`: `(idx + 1) & 255`. */
  function Next(idx: nat): (n: nat)
    requires idx < BUCKETS
    ensures n < BUCKETS
    ensures forall a: nat {:trigger Dist(a, n)} ::
              a < BUCKETS && Dist(a, idx) != BUCKETS - 1 ==> Dist(a, n) == Dist(a, idx) + 1
  {
    (idx + 1) % BUCKETS
  }

  /** No empty bucket stops a probe on its way from `home` to `j`. */
  ghost predicate Reachable(t: seq<nat>, home: nat, j: nat)
    requires |t| == BUCKETS && home < BUCKETS && j < BUCKETS
  {
    forall k | 0 <= k < BUCKETS && Dist(home, k) < Dist(home, j) :: t[k] != EMPTY
  }

  ghost predicate HomesOk(homes: seq<nat>) {
    |homes| < BUCKETS && forall s | 0 <= s < |homes| :: homes[s] < BUCKETS
  }

  /** The table holds exactly the slots of `live`, each in one bucket. */
  ghost predicate Holds(t: seq<nat>, live: set<nat>) {
    && |t| == BUCKETS
    && EMPTY !in live
    && (forall j | 0 <= j < BUCKETS && t[j] != EMPTY :: t[j] in live)
    && (forall s | s in live :: s in t)
    && (forall i, j | 0 <= i < j < BUCKETS && t[i] != EMPTY :: t[i] != t[j])
  }

  /** The index is exact: it holds exactly `live`, and every entry is reachable from its home. */
  ghost predicate Exact(t: seq<nat>, homes: seq<nat>, live: set<nat>) {
    && HomesOk(homes)
    && (forall s | s in live :: s < |homes|)
    && Holds(t, live)
    && (forall j | 0 <= j < BUCKETS && t[j] != EMPTY :: Reachable(t, homes[t[j]], j))
  }

  /** The slot numbers 0, 1, ..., n - 1. */
  function SlotsBelow(n: nat): (r: set<nat>)
    ensures forall s: nat :: s in r <==> s < n
    ensures |r| == n
  {
    if n == 0 then {} else SlotsBelow(n - 1) + {n - 1}
  }

  /** With fewer than 256 slots some bucket is empty, so every probe ends. */
  lemma EmptyBucketExists(t: seq<nat>, homes: seq<nat>, live: set<nat>)
    requires Exact(t, homes, live)
    ensures exists e: nat :: e < BUCKETS && t[e] == EMPTY
  {
    if forall e | 0 <= e < BUCKETS :: t[e] != EMPTY {
      ElementsSize(t);
      SubsetSize(Elements(t), SlotsBelow(|homes|));
    }
  }

  lemma SlotIsInTable(t: seq<nat>, homes: seq<nat>, live: set<nat>, s: nat)
    requires Exact(t, homes, live) && s in live
    ensures exists k: nat :: k < BUCKETS && t[k] == s
  {
    assert s in t;
  }

  /** In an exact table a slot lies on its probe path before any empty bucket. */
  lemma ProbeStopsRightly(t: seq<nat>, homes: seq<nat>, live: set<nat>, s: nat, j: nat)
    requires Exact(t, homes, live) && s in live && j < BUCKETS && t[j] == EMPTY
    ensures exists k: nat :: k < BUCKETS && Dist(homes[s], k) < Dist(homes[s], j) && t[k] == s
  {
    var k :| 0 <= k < BUCKETS && t[k] == s;
    assert Reachable(t, homes[s], k);
    assert Dist(homes[s], k) != Dist(homes[s], j);
  }

  /** Filling the first empty bucket on the probe path of a new slot keeps the index exact. */
  lemma InsertExact(t: seq<nat>, homes: seq<nat>, live: set<nat>, s: nat, homes': seq<nat>, p: nat)
    requires Exact(t, homes, live) && s !in live
    requires HomesOk(homes') && s < |homes'|
    requires forall r | r in live :: r < |homes'| && homes'[r] == homes[r]
    requires p < BUCKETS && t[p] == EMPTY && Reachable(t, homes'[s], p)
    ensures Exact(t[p := s], homes', live + {s})
  {
    var t' := t[p := s];
    assert t'[p] == s;
    forall r | r in live + {s}
      ensures r in t'
    {
      if r in live {
        var j :| 0 <= j < BUCKETS && t[j] == r;
        assert t'[j] == r;
      }
    }
    forall j | 0 <= j < BUCKETS && t'[j] != EMPTY
      ensures Reachable(t', homes'[t'[j]], j)
    {
      if j != p {
        assert Reachable(t, homes[t[j]], j);
      }
    }
  }

  /**
   The state of the sweep that follows a removal. `hole` is the bucket that was cleared in the exact
   table `t0`, `stop` the first empty bucket after it; buckets from `hole` up to `next` have been
   taken out and inserted again, the rest is still as in `t0`.
   */
  ghost predicate Sweep(t: seq<nat>, t0: seq<nat>, homes: seq<nat>, live: set<nat>, hole: nat, next: nat, stop: nat) {
    && Exact(t0, homes, live)
    && |t| == BUCKETS && hole < BUCKETS && next < BUCKETS && stop < BUCKETS
    && t0[hole] != EMPTY && t0[stop] == EMPTY && t[stop] == EMPTY
    && (forall j | 0 <= j < BUCKETS && Dist(hole, j) < Dist(hole, stop) :: t0[j] != EMPTY)
    && 0 < Dist(hole, next) <= Dist(hole, stop)
    && (forall j | 0 <= j < BUCKETS && Dist(hole, j) >= Dist(hole, next) :: t[j] == t0[j])
    && Holds(t, live - {t0[hole]})
    && (forall j | 0 <= j < BUCKETS && t[j] != EMPTY && !(Dist(hole, next) <= Dist(hole, j) < Dist(hole, stop)) ::
          Reachable(t, homes[t[j]], j))
  }

  /** The first empty bucket after an occupied one. */
  lemma FirstEmpty(t: seq<nat>, hole: nat, e: nat) returns (stop: nat)
    requires |t| == BUCKETS && hole < BUCKETS && e < BUCKETS && t[e] == EMPTY
    ensures stop < BUCKETS && t[stop] == EMPTY
    ensures forall j | 0 <= j < BUCKETS && Dist(hole, j) < Dist(hole, stop) :: t[j] != EMPTY
    decreases Dist(hole, e)
  {
    if j: nat :| j < BUCKETS && Dist(hole, j) < Dist(hole, e) && t[j] == EMPTY {
      stop := FirstEmpty(t, hole, j);
    } else {
      stop := e;
    }
  }

  lemma SweepStart(t0: seq<nat>, homes: seq<nat>, live: set<nat>, hole: nat) returns (stop: nat)
    requires Exact(t0, homes, live)
    requires hole < BUCKETS && t0[hole] != EMPTY
    ensures Sweep(t0[hole := EMPTY], t0, homes, live, hole, Next(hole), stop)
  {
    EmptyBucketExists(t0, homes, live);
    var e: nat :| e < BUCKETS && t0[e] == EMPTY;
    stop := FirstEmpty(t0, hole, e);
    var t := t0[hole := EMPTY];
    TakeOut(t0, live, hole);
    assert Dist(hole, Next(hole)) == 1 by { assert Dist(hole, hole) == 0; }
    forall j | 0 <= j < BUCKETS && t[j] != EMPTY && !(1 <= Dist(hole, j) < Dist(hole, stop))
      ensures Reachable(t, homes[t[j]], j)
    {
      assert Reachable(t0, homes[t0[j]], j);
      StillReachable(t0, t, homes[t0[j]], j, hole, hole, stop);
    }
  }

  /** Clearing one bucket takes exactly its slot out. */
  lemma TakeOut(t: seq<nat>, live: set<nat>, at: nat)
    requires Holds(t, live) && at < BUCKETS && t[at] != EMPTY
    ensures Holds(t[at := EMPTY], live - {t[at]})
  {
    var t' := t[at := EMPTY];
    forall s | s in live - {t[at]}
      ensures s in t'
    {
      var j :| 0 <= j < BUCKETS && t[j] == s;
      assert t'[j] == s;
    }
  }

  lemma PutIn(t: seq<nat>, live: set<nat>, at: nat, s: nat)
    requires Holds(t, live) && at < BUCKETS && t[at] == EMPTY && s !in live && s != EMPTY
    ensures Holds(t[at := s], live + {s})
  {
    var t' := t[at := s];
    assert t'[at] == s;
    forall r | r in live + {s}
      ensures r in t'
    {
      if r in live {
        var j :| 0 <= j < BUCKETS && t[j] == r;
        assert t'[j] == r;
      }
    }
  }

  /** Clearing bucket `at` cannot cut off an entry that lies outside the run from `at` to `stop`. */
  lemma StillReachable(t: seq<nat>, t': seq<nat>, home: nat, j: nat, hole: nat, at: nat, stop: nat)
    requires |t| == |t'| == BUCKETS && home < BUCKETS && j < BUCKETS && hole < BUCKETS && at < BUCKETS && stop < BUCKETS
    requires t' == t[at := EMPTY] && t[stop] == EMPTY && t'[j] != EMPTY
    requires Dist(hole, at) < Dist(hole, stop)
    requires Reachable(t, home, j) && !(Dist(hole, at) <= Dist(hole, j) < Dist(hole, stop))
    ensures Reachable(t', home, j)
  {
    assert Dist(home, stop) >= Dist(home, j);
  }

  /** The entry taken out at `next` is put back at or before the sweep position, never past it. */
  lemma NeverPastTheSweep(t: seq<nat>, t0: seq<nat>, homes: seq<nat>, live: set<nat>, hole: nat, next: nat, stop: nat,
                          p: nat)
    requires Sweep(t, t0, homes, live, hole, next, stop)
    requires t[next] != EMPTY
    requires p < BUCKETS && t[next := EMPTY][p] == EMPTY
    requires Reachable(t[next := EMPTY], homes[t[next]], p)
    ensures Dist(hole, p) <= Dist(hole, next)
  {
    var h := homes[t0[next]];
    assert Reachable(t0, h, next);
    assert Dist(h, p) <= Dist(h, next);
  }

  lemma SweepFacts(t: seq<nat>, t0: seq<nat>, homes: seq<nat>, live: set<nat>, hole: nat, next: nat, stop: nat)
    requires Sweep(t, t0, homes, live, hole, next, stop)
    ensures |t| == BUCKETS && hole < BUCKETS && next < BUCKETS && HomesOk(homes)
    ensures |t0| == BUCKETS && forall s | s in live :: s < |homes|
    ensures t[next] != EMPTY ==> t[next] < |homes|
  {
  }

  /**
   One round of the sweep: the entry at `next` is taken out and inserted at the first empty bucket
   `p` on its probe path, and the sweep goes on.
   */
  lemma SweepStep(t: seq<nat>, t0: seq<nat>, homes: seq<nat>, live: set<nat>, hole: nat, next: nat, stop: nat, p: nat)
    requires Sweep(t, t0, homes, live, hole, next, stop)
    requires t[next] != EMPTY
    requires p < BUCKETS && t[next := EMPTY][p] == EMPTY
    requires Reachable(t[next := EMPTY], homes[t[next]], p)
    ensures Sweep(t[next := EMPTY][p := t[next]], t0, homes, live, hole, Next(next), stop)
    ensures Dist(hole, Next(next)) == Dist(hole, next) + 1
  {
    hide Reachable, Exact;
    SweepFacts(t, t0, homes, live, hole, next, stop);
    NeverPastTheSweep(t, t0, homes, live, hole, next, stop, p);
    SweepHolds(t, live - {t0[hole]}, next, p);
    var t2 := t[next := EMPTY][p := t[next]];
    assert Dist(hole, Next(next)) == Dist(hole, next) + 1;
    forall j | 0 <= j < BUCKETS && t2[j] != EMPTY && !(Dist(hole, next) + 1 <= Dist(hole, j) < Dist(hole, stop))
      ensures Reachable(t2, homes[t2[j]], j)
    {
      SweptReachable(t, homes, hole, next, stop, p, j);
    }
  }

  lemma SweptReachable(t: seq<nat>, homes: seq<nat>, hole: nat, next: nat, stop: nat, p: nat, j: nat)
    requires |t| == BUCKETS && HomesOk(homes)
    requires hole < BUCKETS && next < BUCKETS && stop < BUCKETS && p < BUCKETS && j < BUCKETS
    requires t[stop] == EMPTY && t[next] != EMPTY && t[next] < |homes| && t[next := EMPTY][p] == EMPTY
    requires Dist(hole, next) < Dist(hole, stop)
    requires Reachable(t[next := EMPTY], homes[t[next]], p)
    requires t[next := EMPTY][p := t[next]][j] != EMPTY && !(Dist(hole, next) + 1 <= Dist(hole, j) < Dist(hole, stop))
    requires j != p ==> t[j] < |homes| && Reachable(t, homes[t[j]], j)
    ensures Reachable(t[next := EMPTY][p := t[next]], homes[t[next := EMPTY][p := t[next]][j]], j)
  {
    if j != p {
      hide Reachable;
      StillReachable(t, t[next := EMPTY], homes[t[j]], j, hole, next, stop);
      FillReachable(t[next := EMPTY], p, t[next], homes[t[j]], j);
    } else {
      FillReachable(t[next := EMPTY], p, t[next], homes[t[next]], j);
    }
  }

  lemma SweepHolds(t: seq<nat>, live: set<nat>, next: nat, p: nat)
    requires Holds(t, live) && next < BUCKETS && p < BUCKETS
    requires t[next] != EMPTY && t[next := EMPTY][p] == EMPTY
    ensures Holds(t[next := EMPTY][p := t[next]], live)
  {
    TakeOut(t, live, next);
    PutIn(t[next := EMPTY], live - {t[next]}, p, t[next]);
    assert live - {t[next]} + {t[next]} == live;
  }

  /** Filling a bucket cuts nothing off. */
  lemma FillReachable(t: seq<nat>, p: nat, s: nat, home: nat, j: nat)
    requires |t| == BUCKETS && p < BUCKETS && home < BUCKETS && j < BUCKETS && s != EMPTY
    requires Reachable(t, home, j)
    ensures Reachable(t[p := s], home, j)
  {
  }

  /** When the sweep meets the empty bucket, the index is exact for the remaining slots. */
  lemma SweepDone(t: seq<nat>, t0: seq<nat>, homes: seq<nat>, live: set<nat>, hole: nat, next: nat, stop: nat)
    requires Sweep(t, t0, homes, live, hole, next, stop)
    requires t[next] == EMPTY
    ensures Exact(t, homes, live - {t0[hole]})
  {
    assert next == stop;
  }
}
