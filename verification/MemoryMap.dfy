/**
 A task's memory map: an ordered map of regions, with placement near a hint, placement from the top, and unmapping.
 Unmapping adds address and length in 32 bits, with wrap-around; the sums of mapping are taken not to pass 32 bits.
 */
module MemoryMap {
  import opened Collections

  const PAGE: nat := 0x1000
  const NULL_PAGE_END: nat := 0x1000
  const MAX_U32: nat := 0xFFFF_FFFF

  /** A result, or the end of the kernel by a failed assertion. */
  datatype Result<T> = Ok(value: T) | Err(error: MemMapError) | Panic

  datatype MemMapError = InvalidSize | MapOutOfBounds | MappingWrongAlignment | NotEnoughMemory | UnmapNotPageMultiple

  datatype MemoryBacking =
    | Direct(paddr: nat)
    | FreeMemory
    | IsaDma
    | FileBacked(driver: nat, token: nat, offsetInFile: nat, shared: bool)

  datatype Region = Region(address: nat, size: nat, backedBy: MemoryBacking)
  {
    function End(): nat {
      address + size
    }

    predicate Contains(a: nat) {
      address <= a < End()
    }
  }

  /** Addition of addresses wraps around. */
  function Sum32(a: nat, b: nat): nat {
    (a + b) % 0x1_0000_0000
  }

  /** Subtraction of addresses saturates at zero. */
  function SatSub(a: nat, b: nat): nat {
    if a < b then 0 else a - b
  }

  function PrevPage(a: nat): (p: nat)
    ensures p % PAGE == 0 && p <= a < p + PAGE
  {
    a / PAGE * PAGE
  }

  function NextPage(a: nat): (p: nat)
    ensures p % PAGE == 0 && a <= p < a + PAGE
  {
    if a % PAGE == 0 then a else (a + PAGE) / PAGE * PAGE
  }

  /** Sorted by address, none empty, none overlapping, all below the upper bound: the map's invariant. */
  ghost predicate Ordered(rs: seq<Region>, upper: nat) {
    && (forall i | 0 <= i < |rs| :: rs[i].size > 0 && rs[i].End() <= upper)
    && (forall i, j | 0 <= i < j < |rs| :: rs[i].End() <= rs[j].address)
  }

  ghost predicate Mapped(rs: seq<Region>, a: nat) {
    exists i :: 0 <= i < |rs| && rs[i].Contains(a)
  }

  /** `[p, p + size)` overlaps no region. */
  ghost predicate Clear(rs: seq<Region>, p: nat, size: nat) {
    forall i | 0 <= i < |rs| :: rs[i].End() <= p || p + size <= rs[i].address
  }

  /** A page-aligned place for `size` bytes in `[lowest, upper)` that overlaps no region. */
  ghost predicate Fits(rs: seq<Region>, lowest: nat, upper: nat, size: nat, p: nat) {
    p % PAGE == 0 && lowest <= p && p + size <= upper && Clear(rs, p, size)
  }

  /** The length test for overlap says what it should for ranges that are not empty. */
  predicate RangesOverlap(aStart: nat, aEnd: nat, bStart: nat, bEnd: nat) {
    var min := if aStart < bStart then aStart else bStart;
    var max := if aEnd > bEnd then aEnd else bEnd;
    SatSub(aEnd, aStart) + SatSub(bEnd, bStart) > SatSub(max, min)
  }

  lemma OverlapIsOverlap(aStart: nat, aEnd: nat, bStart: nat, bEnd: nat)
    requires aStart < aEnd && bStart < bEnd
    ensures RangesOverlap(aStart, aEnd, bStart, bEnd) <==> aStart < bEnd && bStart < aEnd
  {
  }

  function Distance(hint: nat, p: nat): nat {
    if p >= hint then p - hint else hint - p
  }

  /** `q` is not nearer to the hint than `p`; and not as near, when `q` is forward of the hint and `p` behind it. */
  predicate NoWorse(hint: nat, p: nat, q: nat) {
    if p >= hint then q <= 2 * hint - p || p <= q else q <= p || 2 * hint - p < q
  }

  /** Where a gap puts a range that should be near `hint`. */
  function PlaceInGap(hint: nat, size: nat, gapStart: nat, gapEnd: nat): (place: nat) {
    if hint >= gapStart && hint + size <= gapEnd then hint
    else if hint < gapStart then gapStart
    else PrevPage(SatSub(gapEnd, size))
  }

  /** Inside a gap that is large enough, the placement is the best there is. */
  lemma PlaceInGapIsBest(hint: nat, size: nat, gapStart: nat, gapEnd: nat, q: nat)
    requires hint % PAGE == 0 && gapStart % PAGE == 0 && gapStart + size <= gapEnd
    ensures var p := PlaceInGap(hint, size, gapStart, gapEnd); p % PAGE == 0 && gapStart <= p && p + size <= gapEnd
    ensures gapStart <= q && q + size <= gapEnd && q % PAGE == 0 ==>
              NoWorse(hint, PlaceInGap(hint, size, gapStart, gapEnd), q)
  {
    var top := gapEnd - size;
    assert PrevPage(top) >= gapStart;
    assert q % PAGE == 0 && q <= top ==> q <= PrevPage(top);
  }

  /** The first page after region `i - 1`, where the gap before region `i` starts. */
  ghost function GapStart(rs: seq<Region>, lowest: nat, i: nat): (r: nat)
    requires i <= |rs|
  {
    if i == 0 then lowest else
      var after := NextPage(rs[i - 1].End());
      if after < lowest then lowest else after
  }

  ghost function GapEnd(rs: seq<Region>, upper: nat, i: nat): nat
    requires i <= |rs|
  {
    if i < |rs| then rs[i].address else upper
  }

  /** A fitting place lies in exactly the gap between its neighbours, and what lies in a gap fits. */
  lemma GapOf(rs: seq<Region>, lowest: nat, upper: nat, size: nat, i: nat, p: nat)
    requires Ordered(rs, upper) && i <= |rs| && size > 0 && lowest % PAGE == 0 && p % PAGE == 0
    ensures GapStart(rs, lowest, i) <= p && p + size <= GapEnd(rs, upper, i) ==> Fits(rs, lowest, upper, size, p)
    ensures && Fits(rs, lowest, upper, size, p)
            && (i > 0 ==> rs[i - 1].address < p + size) && (i < |rs| ==> p + size <= rs[i].address) ==>
              GapStart(rs, lowest, i) <= p && p + size <= GapEnd(rs, upper, i)
  {
    if GapStart(rs, lowest, i) <= p && p + size <= GapEnd(rs, upper, i) {
      forall j | 0 <= j < |rs|
        ensures rs[j].End() <= p || p + size <= rs[j].address
      {
        if j < i {
          assert rs[j].End() <= rs[i - 1].End();
        } else {
          assert rs[i].address <= rs[j].address;
        }
      }
    }
  }

  lemma NotBelowNullPage(rs: seq<Region>, upper: nat, i: nat)
    requires Ordered(rs, upper) && i < |rs|
    ensures NextPage(rs[i].End()) >= NULL_PAGE_END
  {
  }

  /** The best place found so far, among those below region `i`. */
  ghost predicate BestBelow(rs: seq<Region>, upper: nat, hint: nat, size: nat, i: nat, best: Option<nat>,
                            bestDistance: nat)
    requires i <= |rs|
  {
    && (best.Some? ==> Fits(rs, NULL_PAGE_END, upper, size, best.value) && bestDistance == Distance(hint, best.value))
    && (best.None? ==> bestDistance == MAX_U32)
    && (forall q: nat | Fits(rs, NULL_PAGE_END, upper, size, q) && i > 0 && q + size <= rs[i - 1].address ::
          best.Some? && NoWorse(hint, best.value, q))
  }

  /** Looking at one more gap: a new best place, or the old one. */
  function Improve(hint: nat, size: nat, gapStart: nat, gapEnd: nat, best: Option<nat>,
                   bestDistance: nat): (r: (Option<nat>, nat)) {
    if gapEnd > gapStart && gapEnd - gapStart >= size then
      var place := PlaceInGap(hint, size, gapStart, gapEnd);
      var dist := Distance(hint, place);
      if dist < bestDistance || (dist == bestDistance && place >= hint) then (Some(place), dist)
      else (best, bestDistance)
    else (best, bestDistance)
  }

  /** After the gap before region `i` (or, for the last, before the upper bound) everything below is accounted for. */
  lemma ImproveIsBest(rs: seq<Region>, upper: nat, hint: nat, size: nat, i: nat, best: Option<nat>, bestDistance: nat,
                      q: nat)
    requires Ordered(rs, upper) && i <= |rs| && size > 0 && size % PAGE == 0
    requires hint % PAGE == 0 && hint <= MAX_U32 && upper < MAX_U32
    requires BestBelow(rs, upper, hint, size, i, best, bestDistance)
    ensures var r := Improve(hint, size, GapStart(rs, NULL_PAGE_END, i), GapEnd(rs, upper, i), best, bestDistance);
            && (r.0.Some? ==> Fits(rs, NULL_PAGE_END, upper, size, r.0.value) && r.1 == Distance(hint, r.0.value))
            && (r.0.None? ==> r.1 == MAX_U32)
            && (Fits(rs, NULL_PAGE_END, upper, size, q) && (i < |rs| ==> q + size <= rs[i].address) ==>
                  r.0.Some? && NoWorse(hint, r.0.value, q))
  {
    var gapStart, gapEnd := GapStart(rs, NULL_PAGE_END, i), GapEnd(rs, upper, i);
    var r := Improve(hint, size, gapStart, gapEnd, best, bestDistance);
    assert gapStart % PAGE == 0;
    GapOf(rs, NULL_PAGE_END, upper, size, i, if q % PAGE == 0 then q else 0);
    if gapStart + size <= gapEnd {
      PlaceInGapIsBest(hint, size, gapStart, gapEnd, q);
      GapOf(rs, NULL_PAGE_END, upper, size, i, PlaceInGap(hint, size, gapStart, gapEnd));
    }
  }

  lemma ImproveStep(rs: seq<Region>, upper: nat, hint: nat, size: nat, i: nat, best: Option<nat>, bestDistance: nat)
    requires Ordered(rs, upper) && i < |rs| && size > 0 && size % PAGE == 0
    requires hint % PAGE == 0 && hint <= MAX_U32 && upper < MAX_U32
    requires BestBelow(rs, upper, hint, size, i, best, bestDistance)
    ensures var r := Improve(hint, size, GapStart(rs, NULL_PAGE_END, i), rs[i].address, best, bestDistance);
            BestBelow(rs, upper, hint, size, i + 1, r.0, r.1)
  {
    hide Ordered, Fits, Improve, NoWorse;
    ImproveIsBest(rs, upper, hint, size, i, best, bestDistance, 0);
    forall q: nat | Fits(rs, NULL_PAGE_END, upper, size, q) && q + size <= rs[i].address
      ensures var r := Improve(hint, size, GapStart(rs, NULL_PAGE_END, i), rs[i].address, best, bestDistance);
              r.0.Some? && NoWorse(hint, r.0.value, q)
    {
      ImproveIsBest(rs, upper, hint, size, i, best, bestDistance, q);
    }
  }

  lemma ImproveLast(rs: seq<Region>, upper: nat, hint: nat, size: nat, best: Option<nat>, bestDistance: nat)
    requires Ordered(rs, upper) && size > 0 && size % PAGE == 0
    requires hint % PAGE == 0 && hint <= MAX_U32 && upper < MAX_U32
    requires BestBelow(rs, upper, hint, size, |rs|, best, bestDistance)
    ensures var r := Improve(hint, size, GapStart(rs, NULL_PAGE_END, |rs|), upper, best, bestDistance);
            && (r.0.Some? ==> Fits(rs, NULL_PAGE_END, upper, size, r.0.value))
            && (forall q: nat | Fits(rs, NULL_PAGE_END, upper, size, q) :: r.0.Some? && NoWorse(hint, r.0.value, q))
  {
    hide Ordered, Fits, Improve, NoWorse;
    ImproveIsBest(rs, upper, hint, size, |rs|, best, bestDistance, 0);
    forall q: nat | Fits(rs, NULL_PAGE_END, upper, size, q)
      ensures var r := Improve(hint, size, GapStart(rs, NULL_PAGE_END, |rs|), upper, best, bestDistance);
              r.0.Some? && NoWorse(hint, r.0.value, q)
    {
      ImproveIsBest(rs, upper, hint, size, |rs|, best, bestDistance, q);
    }
  }

  // ---- unmapping, region by region ----

  datatype UnmappedKind =
    | DirectAt(paddr: nat)
    | Anonymous
    | FileAt(driver: nat, token: nat, offsetInFile: nat, shared: bool)

  datatype UnmappedRegion = UnmappedRegion(address: nat, size: nat, kind: UnmappedKind)

  /** What backs the byte at distance `d` from the start of a region. */
  function KindAt(b: MemoryBacking, d: nat): UnmappedKind {
    match b
    case Direct(paddr) => DirectAt(paddr + d)
    case FreeMemory => Anonymous
    case IsaDma => Anonymous
    case FileBacked(driver, token, offsetInFile, shared) => FileAt(driver, token, offsetInFile + d, shared)
  }

  predicate Touches(r: Region, lo: nat, hi: nat) {
    lo < r.End() && r.address < hi
  }

  /** What is left of a region; the part behind the hole keeps the backing as it is. */
  function Keep(r: Region, lo: nat, hi: nat): seq<Region> {
    if !Touches(r, lo, hi) then [r]
    else
      (if r.address < lo then [Region(r.address, lo - r.address, r.backedBy)] else []) +
      (if r.End() > hi then [Region(hi, r.End() - hi, r.backedBy)] else [])
  }

  /** What is taken out of a region. */
  function Cut(r: Region, lo: nat, hi: nat): seq<UnmappedRegion> {
    if !Touches(r, lo, hi) then []
    else
      var start := if r.address > lo then r.address else lo;
      var end := if r.End() < hi then r.End() else hi;
      if end > start then [UnmappedRegion(start, end - start, KindAt(r.backedBy, start - r.address))] else []
  }

  function KeepAll(rs: seq<Region>, lo: nat, hi: nat): seq<Region> {
    if rs == [] then [] else KeepAll(rs[..|rs| - 1], lo, hi) + Keep(rs[|rs| - 1], lo, hi)
  }

  function CutAll(rs: seq<Region>, lo: nat, hi: nat): seq<UnmappedRegion> {
    if rs == [] then [] else CutAll(rs[..|rs| - 1], lo, hi) + Cut(rs[|rs| - 1], lo, hi)
  }

  /** What is left lies inside what was there. */
  lemma {:induction false} KeptInside(rs: seq<Region>, lo: nat, hi: nat, upper: nat, x: nat)
    requires Ordered(rs, upper) && lo <= hi && forall i | 0 <= i < |rs| :: rs[i].End() <= x
    ensures Ordered(KeepAll(rs, lo, hi), upper)
    ensures forall i | 0 <= i < |KeepAll(rs, lo, hi)| :: KeepAll(rs, lo, hi)[i].End() <= x
  {
    if rs != [] {
      var init, r := rs[..|rs| - 1], rs[|rs| - 1];
      KeptInside(init, lo, hi, upper, r.address);
      var k := KeepAll(init, lo, hi);
      KeepOrdered(k, r, lo, hi, upper);
    }
  }

  lemma KeepOrdered(k: seq<Region>, r: Region, lo: nat, hi: nat, upper: nat)
    requires Ordered(k, upper) && lo <= hi && r.size > 0 && r.End() <= upper
    requires forall i | 0 <= i < |k| :: k[i].End() <= r.address
    ensures Ordered(k + Keep(r, lo, hi), upper)
    ensures forall i | 0 <= i < |k + Keep(r, lo, hi)| :: (k + Keep(r, lo, hi))[i].End() <= r.End()
  {
  }

  /** Exactly the addresses of the hole are gone. */
  lemma {:induction false} KeptAddresses(rs: seq<Region>, lo: nat, hi: nat, a: nat)
    requires lo <= hi
    ensures Mapped(KeepAll(rs, lo, hi), a) <==> Mapped(rs, a) && !(lo <= a < hi)
  {
    if rs != [] {
      var init, r := rs[..|rs| - 1], rs[|rs| - 1];
      KeptAddresses(init, lo, hi, a);
      MappedAppend(init, [r], a);
      MappedAppend(KeepAll(init, lo, hi), Keep(r, lo, hi), a);
      assert rs == init + [r];
      KeepOne(r, lo, hi, a);
    }
  }

  lemma KeepOne(r: Region, lo: nat, hi: nat, a: nat)
    requires lo <= hi
    ensures Mapped(Keep(r, lo, hi), a) <==> Mapped([r], a) && !(lo <= a < hi)
  {
    var k := Keep(r, lo, hi);
    if r.Contains(a) && !(lo <= a < hi) {
      assert k[if !Touches(r, lo, hi) || a < lo then 0 else |k| - 1].Contains(a);
    }
    assert [r][0] == r;
  }

  lemma MappedAppend(x: seq<Region>, y: seq<Region>, a: nat)
    ensures Mapped(x + y, a) <==> Mapped(x, a) || Mapped(y, a)
  {
    var s := x + y;
    if i :| 0 <= i < |s| && s[i].Contains(a) {
      assert if i < |x| then x[i].Contains(a) else y[i - |x|].Contains(a);
    }
    if i :| 0 <= i < |x| && x[i].Contains(a) {
      assert s[i].Contains(a);
    }
    if i :| 0 <= i < |y| && y[i].Contains(a) {
      assert s[|x| + i].Contains(a);
    }
  }

  /**
   The pieces handed back: disjoint, each from one region with its offset backing, covering the hole's mapped bytes.
   */
  ghost predicate RightPieces(us: seq<UnmappedRegion>, rs: seq<Region>, lo: nat, hi: nat) {
    && (forall i, j | 0 <= i < j < |us| :: us[i].address + us[i].size <= us[j].address)
    && (forall i | 0 <= i < |us| :: FromRegion(us[i], rs, lo, hi))
    && (forall a: nat | lo <= a < hi && Mapped(rs, a) :: InPieces(us, a))
  }

  ghost predicate FromRegion(u: UnmappedRegion, rs: seq<Region>, lo: nat, hi: nat) {
    && u.size > 0 && lo <= u.address && u.address + u.size <= hi
    && exists i :: 0 <= i < |rs| && IsPieceOf(u, rs[i])
  }

  /** It lies in the region, and is backed from the same device address or file offset as its first byte there. */
  ghost predicate IsPieceOf(u: UnmappedRegion, r: Region) {
    && r.address <= u.address && u.address + u.size <= r.End()
    && (r.backedBy.Direct? ==> u.kind == DirectAt(r.backedBy.paddr + u.address - r.address))
    && (r.backedBy.FreeMemory? || r.backedBy.IsaDma? ==> u.kind == Anonymous)
    && (r.backedBy.FileBacked? ==>
          u.kind.FileAt? && u.kind.driver == r.backedBy.driver && u.kind.token == r.backedBy.token &&
          u.kind.offsetInFile == r.backedBy.offsetInFile + u.address - r.address && u.kind.shared == r.backedBy.shared)
  }

  /** Every piece is of the region that its first byte is in. */
  ghost predicate OfTheirRegions(us: seq<UnmappedRegion>, rs: seq<Region>) {
    forall i, k | 0 <= i < |us| && 0 <= k < |rs| && rs[k].Contains(us[i].address) :: IsPieceOf(us[i], rs[k])
  }

  lemma PiecesOfTheirRegions(us: seq<UnmappedRegion>, rs: seq<Region>, upper: nat, lo: nat, hi: nat)
    requires Ordered(rs, upper) && RightPieces(us, rs, lo, hi)
    ensures OfTheirRegions(us, rs)
  {
    forall i, k | 0 <= i < |us| && 0 <= k < |rs| && rs[k].Contains(us[i].address)
      ensures IsPieceOf(us[i], rs[k])
    {
      assert FromRegion(us[i], rs, lo, hi);
      var n :| 0 <= n < |rs| && IsPieceOf(us[i], rs[n]);
      OneRegion(rs, upper, n, k, us[i].address);
    }
  }

  ghost predicate InPieces(us: seq<UnmappedRegion>, a: nat) {
    exists i :: 0 <= i < |us| && us[i].address <= a < us[i].address + us[i].size
  }

  lemma EarlierPiece(rs: seq<Region>, upper: nat, lo: nat, hi: nat, u: UnmappedRegion)
    requires Ordered(rs, upper) && rs != [] && FromRegion(u, rs[..|rs| - 1], lo, hi)
    ensures FromRegion(u, rs, lo, hi) && u.address + u.size <= rs[|rs| - 1].address
  {
    hide KindAt;
    var k :| 0 <= k < |rs| - 1 && IsPieceOf(u, rs[..|rs| - 1][k]);
    assert IsPieceOf(u, rs[k]);
    assert rs[k].End() <= rs[|rs| - 1].address;
  }

  lemma LastPiece(rs: seq<Region>, lo: nat, hi: nat)
    requires rs != []
    ensures var c := Cut(rs[|rs| - 1], lo, hi);
            |c| <= 1 && (c != [] ==> FromRegion(c[0], rs, lo, hi) && rs[|rs| - 1].address <= c[0].address)
  {
    var c := Cut(rs[|rs| - 1], lo, hi);
    assert c != [] ==> IsPieceOf(c[0], rs[|rs| - 1]);
  }

  lemma {:induction false} CutPieces(rs: seq<Region>, upper: nat, lo: nat, hi: nat)
    requires Ordered(rs, upper)
    ensures RightPieces(CutAll(rs, lo, hi), rs, lo, hi)
  {
    if rs != [] {
      var init, r := rs[..|rs| - 1], rs[|rs| - 1];
      assert Ordered(init, upper);
      hide Ordered, Cut, FromRegion, Mapped, InPieces;
      CutPieces(init, upper, lo, hi);
      var us, c := CutAll(init, lo, hi), Cut(r, lo, hi);
      forall i | 0 <= i < |us|
        ensures FromRegion(us[i], rs, lo, hi) && us[i].address + us[i].size <= r.address
      {
        EarlierPiece(rs, upper, lo, hi, us[i]);
      }
      LastPiece(rs, lo, hi);
      forall a: nat | lo <= a < hi && Mapped(rs, a)
        ensures InPieces(us + c, a)
      {
        PieceOf(rs, us, c, lo, hi, a);
      }
    } else {
      hide Ordered;
    }
  }

  lemma PieceOf(rs: seq<Region>, us: seq<UnmappedRegion>, c: seq<UnmappedRegion>, lo: nat, hi: nat, a: nat)
    requires rs != [] && lo <= a < hi && Mapped(rs, a) && c == Cut(rs[|rs| - 1], lo, hi)
    requires Mapped(rs[..|rs| - 1], a) ==> InPieces(us, a)
    ensures InPieces(us + c, a)
  {
    var k :| 0 <= k < |rs| && rs[k].Contains(a);
    if k < |rs| - 1 {
      assert rs[..|rs| - 1][k].Contains(a);
      var i :| 0 <= i < |us| && us[i].address <= a < us[i].address + us[i].size;
      assert (us + c)[i] == us[i];
    } else {
      assert |c| == 1 && (us + c)[|us|] == c[0];
    }
  }

  /** Regions the hole does not touch are left as they are. */
  lemma UntouchedOne(r: Region, lo: nat, hi: nat)
    requires !Touches(r, lo, hi)
    ensures Keep(r, lo, hi) == [r] && Cut(r, lo, hi) == []
  {
  }

  lemma {:induction false} UntouchedKept(rs: seq<Region>, j: nat, lo: nat, hi: nat)
    requires j <= |rs| && forall i | j <= i < |rs| :: !Touches(rs[i], lo, hi)
    ensures KeepAll(rs, lo, hi) == KeepAll(rs[..j], lo, hi) + rs[j..]
    ensures CutAll(rs, lo, hi) == CutAll(rs[..j], lo, hi)
    decreases |rs| - j
  {
    hide Keep, Cut, Touches;
    if j == |rs| {
      assert rs[..j] == rs && rs[j..] == [];
    } else {
      var init, last := rs[..|rs| - 1], rs[|rs| - 1];
      UntouchedKept(init, j, lo, hi);
      UntouchedOne(last, lo, hi);
      assert init[..j] == rs[..j] && rs[j..] == init[j..] + [last];
      var kept := KeepAll(rs[..j], lo, hi);
      assert kept + init[j..] + [last] == kept + rs[j..];
    }
  }

  /** `keys` are the start addresses of `rs`, and the range touches each of those regions. */
  ghost predicate AreKeys(keys: seq<nat>, rs: seq<Region>, lo: nat, hi: nat) {
    |keys| == |rs| && forall i | 0 <= i < |keys| :: keys[i] == rs[i].address && Touches(rs[i], lo, hi)
  }

  lemma Before(rs: seq<Region>, upper: nat, i: nat, j: nat)
    requires Ordered(rs, upper) && i < j < |rs|
    ensures rs[i].End() <= rs[j].address
  {
  }

  class MappedMemory {
    const upper: nat
    var regions: seq<Region>

    ghost predicate Valid()
      reads this
    {
      upper <= 0xFFFF_F000 && upper % PAGE == 0 && Ordered(regions, upper)
    }

    constructor (u: nat)
      requires u <= 0xFFFF_F000 && u % PAGE == 0
      ensures Valid() && regions == [] && upper == u
    {
      upper := u;
      regions := [];
    }

    method CanFitRange(start: nat, end: nat) returns (ok: bool)
      requires Valid() && start < end
      ensures ok <==> Clear(regions, start, end - start)
    {
      hide RangesOverlap;
      for i := 0 to |regions|
        invariant forall j | 0 <= j < i :: regions[j].End() <= start || end <= regions[j].address
      {
        OverlapIsOverlap(regions[i].address, regions[i].End(), start, end);
        if RangesOverlap(regions[i].address, regions[i].End(), start, end) {
          return false;
        }
      }
      return true;
    }

    /** The fitting place nearest to the hint, forward on ties; none exactly when nothing fits. */
    method FindNearestFreeSpace(hint: nat, size: nat) returns (best: Option<nat>)
      requires Valid() && hint % PAGE == 0 && hint <= MAX_U32 && size > 0 && size % PAGE == 0
      ensures best.Some? ==> Fits(regions, NULL_PAGE_END, upper, size, best.value)
      ensures forall q: nat | Fits(regions, NULL_PAGE_END, upper, size, q) :: best.Some? && NoWorse(hint, best.value, q)
    {
      hide Ordered, Fits, Improve, NoWorse;
      best := None;
      var bestDistance := MAX_U32;
      var prevEnd := NULL_PAGE_END;
      for i := 0 to |regions|
        invariant prevEnd == GapStart(regions, NULL_PAGE_END, i)
        invariant BestBelow(regions, upper, hint, size, i, best, bestDistance)
      {
        var region := regions[i];
        ImproveStep(regions, upper, hint, size, i, best, bestDistance);
        var (b, d) := Improve(hint, size, prevEnd, region.address, best, bestDistance);
        best, bestDistance := b, d;
        prevEnd := NextPage(region.End());
        NotBelowNullPage(regions, upper, i);
      }
      ImproveLast(regions, upper, hint, size, best, bestDistance);
      best := Improve(hint, size, prevEnd, upper, best, bestDistance).0;
    }

    /**
     The highest fitting place, searched from the top. When nothing fits the method still answers, with
     address 0: the answer fits exactly when some place does.
     */
    method FindFreeMappingSpace(size: nat) returns (place: nat)
      requires Valid() && size > 0 && size % PAGE == 0
      ensures Fits(regions, 0, upper, size, place) <==> exists q: nat :: Fits(regions, 0, upper, size, q)
      ensures forall q: nat | Fits(regions, 0, upper, size, q) :: q <= place
      ensures (forall q: nat :: !Fits(regions, 0, upper, size, q)) ==> place == 0
    {
      hide Ordered, Clear;
      var prevStart := upper;
      var i := |regions|;
      while i > 0
        invariant 0 <= i <= |regions| && prevStart == GapEnd(regions, upper, i)
        invariant forall q: nat | Fits(regions, 0, upper, size, q) :: q + size <= prevStart
      {
        var region := regions[i - 1];
        var regionEnd := NextPage(region.End());
        var freeSpace := SatSub(prevStart, regionEnd);
        if freeSpace >= size {
          place := PrevPage(SatSub(prevStart, size));
          TopOfGap(regions, upper, size, i, place);
          return;
        }
        forall q: nat | Fits(regions, 0, upper, size, q)
          ensures q + size <= region.address
        {
          NotInGap(regions, upper, size, i, q);
        }
        prevStart := region.address;
        i := i - 1;
      }
      place := PrevPage(SatSub(prevStart, size));
      if prevStart >= size {
        TopOfGap(regions, upper, size, 0, place);
      }
    }

    /**
     Maps `requestedSize` bytes at the hint if the rounded range is clear there, else at the nearest place;
     without a hint at the highest place. A hint's own range is not tested against the upper bound, and the search
     from the top answers 0 when nothing fits: the region joins the map exactly when the request is `Safe`.
     */
    method MapMemory(addr: Option<nat>, requestedSize: nat, backing: MemoryBacking) returns (r: Result<nat>)
      requires Valid() && requestedSize <= 0xFFFF_F000
      requires addr.Some? ==> addr.value <= MAX_U32
      modifies this`regions
      ensures Maps(old(regions), upper, addr, requestedSize, backing, r, regions)
      ensures r.Ok? ==> (Joined(old(regions), regions, upper) <==> Safe(old(regions), upper, addr, requestedSize))
      ensures r.Ok? && addr.Some? ==> (Valid() <==> Safe(old(regions), upper, addr, requestedSize))
      ensures r.Ok? && Safe(old(regions), upper, addr, requestedSize) ==>
                forall a: nat ::
                  Mapped(regions, a) <==> Mapped(old(regions), a) || r.value <= a < r.value + requestedSize
    {
      hide Ordered, Fits, InsertKey, Mapped, Joined, Safe;
      if requestedSize == 0 {
        return Err(InvalidSize);
      }
      var roundedSize := (requestedSize + 0xfff) / PAGE * PAGE;
      assert roundedSize == NextPage(requestedSize);
      var location: Option<nat>;
      match addr {
        case Some(requestStart) =>
          if requestStart % PAGE != 0 {
            return Err(MappingWrongAlignment);
          }
          var ok := CanFitRange(requestStart, requestStart + roundedSize);
          if ok {
            location := Some(requestStart);
          } else {
            location := FindNearestFreeSpace(requestStart, roundedSize);
          }
        case None =>
          var place := FindFreeMappingSpace(roundedSize);
          location := Some(place);
      }
      if location.None? {
        return Err(NotEnoughMemory);
      }
      var freeSpace := location.value;
      JoinsExactly(regions, upper, Region(freeSpace, requestedSize, backing));
      SafeExactly(regions, upper, addr, requestedSize, freeSpace);
      HintKeepsKeys(regions, upper, addr, Region(freeSpace, requestedSize, backing));
      regions := InsertKey(regions, Region(freeSpace, requestedSize, backing));
      return Ok(freeSpace);
    }

    /** Index of the last region that starts at or below `addr`, or of the first region. */
    method InitialIndex(addr: nat) returns (k: nat)
      requires Valid() && regions != []
      ensures k < |regions| && forall i | 0 <= i < k :: regions[i].End() <= addr
    {
      k := 0;
      while k + 1 < |regions| && regions[k + 1].address <= addr
        invariant k < |regions| && forall i | 0 <= i < k :: regions[i].End() <= addr
      {
        k := k + 1;
      }
    }

    /** The regions that the range touches are consecutive: the keys of regions `first`, ..., `last - 1`. */
    method TouchedKeys(addr: nat, unmapEnd: nat) returns (keys: seq<nat>, ghost first: nat)
      requires Valid() && regions != []
      ensures first + |keys| <= |regions|
      ensures AreKeys(keys, regions[first..first + |keys|], addr, unmapEnd)
      ensures forall i | 0 <= i < |regions| && !(first <= i < first + |keys|) :: !Touches(regions[i], addr, unmapEnd)
    {
      hide Ordered;
      var k := InitialIndex(addr);
      keys := [];
      first := k;
      NoKeys(regions, first, addr, unmapEnd);
      hide AreKeys;
      var j := k;
      while j < |regions|
        invariant k <= j <= |regions| && first + |keys| == j && k <= first
        invariant AreKeys(keys, regions[first..first + |keys|], addr, unmapEnd)
        invariant forall i | 0 <= i < first :: !Touches(regions[i], addr, unmapEnd)
        invariant first < j ==> addr < regions[first].End()
      {
        if first < j {
          Before(regions, upper, first, j);
        }
        if regions[j].address >= unmapEnd {
          break;
        }
        if regions[j].End() <= addr {
          assert keys == [];
          first := j + 1;
          NoKeys(regions, first, addr, unmapEnd);
        } else {
          KeysMore(keys, regions, first, j, addr, unmapEnd);
          keys := keys + [regions[j].address];
        }
        j := j + 1;
      }
      forall i | j <= i < |regions|
        ensures !Touches(regions[i], addr, unmapEnd)
      {
        if j < i {
          Before(regions, upper, j, i);
        }
      }
    }

    /** Takes the region with key `k` out and puts back what the range leaves of it. */
    method CutKey(k: nat, addr: nat, unmapEnd: nat, ghost r0: seq<Region>, ghost j: nat)
      returns (piece: seq<UnmappedRegion>)
      requires upper <= 0xFFFF_F000 && upper % PAGE == 0 && Ordered(r0, upper) && addr <= unmapEnd
      requires j < |r0| && k == r0[j].address && Touches(r0[j], addr, unmapEnd)
      requires regions == KeepAll(r0[..j], addr, unmapEnd) + r0[j..]
      modifies this`regions
      ensures regions == KeepAll(r0[..j + 1], addr, unmapEnd) + r0[j + 1..]
      ensures piece == Cut(r0[j], addr, unmapEnd)
    {
      hide KeepAll, Ordered, RemoveKey, InsertKey;
      ghost var done, rest := KeepAll(r0[..j], addr, unmapEnd), r0[j + 1..];
      SplitAround(r0, upper, j, addr, unmapEnd);
      assert regions == done + [r0[j]] + rest by { assert r0[j..] == [r0[j]] + rest; }
      RemoveBetween(done, r0[j], rest);
      var region := Lookup(regions, k, done, r0[j], rest);
      regions := RemoveKey(regions, k);
      var start := if region.address > addr then region.address else addr;
      var end := if region.End() < unmapEnd then region.End() else unmapEnd;
      piece := [];
      if end - start > 0 {
        piece := [UnmappedRegion(start, end - start, KindAt(region.backedBy, start - region.address))];
      }
      if region.address < addr {
        var before := Region(region.address, addr - region.address, region.backedBy);
        InsertBetween(done, rest, before);
        regions := InsertKey(regions, before);
        done := done + [before];
      }
      if region.End() > unmapEnd {
        var after := Region(unmapEnd, region.End() - unmapEnd, region.backedBy);
        InsertBetween(done, rest, after);
        regions := InsertKey(regions, after);
        done := done + [after];
      }
      assert done == KeepAll(r0[..j], addr, unmapEnd) + Keep(r0[j], addr, unmapEnd);
      KeepNext(r0, j, addr, unmapEnd);
    }

    /**
     Unmaps `[addr, addr + length)`: exactly those addresses go, the map stays ordered and disjoint, and the
     pieces handed back are the mapped parts of the range, each with the backing of its first byte. The bound is tested
     on the 32-bit sum: a range that wraps around is not refused, and either nothing happens or the kernel panics.
     */
    method UnmapMemory(addr: nat, length: nat) returns (r: Result<seq<UnmappedRegion>>)
      requires Valid() && addr <= MAX_U32 && length <= MAX_U32
      modifies this`regions
      ensures !r.Panic? ==> Valid() && Unmaps(old(regions), upper, addr, length, r, regions)
      ensures length % PAGE == 0 ==>
                ((r == Err(MapOutOfBounds) <==> addr >= upper || addr + length > upper) <==>
                 addr >= upper || !Wraps(addr, length))
      ensures r.Panic? <==>
              length % PAGE == 0 && addr < upper && Wraps(addr, length) && Straddled(old(regions), addr, length)
      ensures r.Ok? && !Wraps(addr, length) ==>
                forall a: nat :: Mapped(regions, a) <==> Mapped(old(regions), a) && !(addr <= a < addr + length)
      ensures r.Ok? ==> OfTheirRegions(r.value, old(regions))
    {
      hide Ordered, KeepAll, CutAll, RightPieces, Mapped, Touches;
      if length % PAGE != 0 {
        return Err(UnmapNotPageMultiple);
      }
      if addr >= upper || Sum32(addr, length) > upper {
        return Err(MapOutOfBounds);
      }
      ghost var r0 := regions;
      var unmapEnd := Sum32(addr, length);
      var unmapped: seq<UnmappedRegion> := [];
      if regions == [] {
        NothingMapped(upper, addr, length);
        return Ok(unmapped);
      }
      var keys, first := TouchedKeys(addr, unmapEnd);
      if unmapEnd < addr {
        WrappedKeys(r0, keys, first, addr, length);
        // The first region met fails the test that its part of the range does not end before it starts.
        if keys != [] {
          return Panic;
        }
        return Ok(unmapped);
      }
      Unmapping(r0, upper, addr, unmapEnd);
      PrefixKept(r0, first, addr, unmapEnd);
      for i := 0 to |keys|
        invariant regions == KeepAll(r0[..first + i], addr, unmapEnd) + r0[first + i..]
        invariant unmapped == CutAll(r0[..first + i], addr, unmapEnd)
      {
        var piece := CutKey(keys[i], addr, unmapEnd, r0, first + i);
        CutNext(r0, first + i, addr, unmapEnd);
        unmapped := unmapped + piece;
      }
      UntouchedKept(r0, first + |keys|, addr, unmapEnd);
      PiecesOfTheirRegions(unmapped, r0, upper, addr, unmapEnd);
      return Ok(unmapped);
    }
  }

  predicate Wraps(addr: nat, length: nat) {
    addr + length > MAX_U32
  }

  /** A region holds both ends of the range that wraps around. */
  ghost predicate Straddled(rs: seq<Region>, addr: nat, length: nat) {
    exists i :: 0 <= i < |rs| && Touches(rs[i], addr, Sum32(addr, length))
  }

  /** What an unmapping does: both errors, the part of each region that is left, and the pieces handed back. */
  ghost predicate Unmaps(rs: seq<Region>, upper: nat, addr: nat, length: nat, r: Result<seq<UnmappedRegion>>,
                         now: seq<Region>) {
    if length % PAGE != 0 then r == Err(UnmapNotPageMultiple) && now == rs
    else if addr >= upper || Sum32(addr, length) > upper then r == Err(MapOutOfBounds) && now == rs
    else if Wraps(addr, length) then r == Ok([]) && now == rs
    else r.Ok? && now == KeepAll(rs, addr, addr + length) && RightPieces(r.value, rs, addr, addr + length)
  }

  lemma NothingMapped(upper: nat, addr: nat, length: nat)
    requires addr <= MAX_U32 && length <= MAX_U32
    ensures !Wraps(addr, length) ==> KeepAll([], addr, addr + length) == [] && RightPieces([], [], addr, addr + length)
    ensures forall a: nat :: !Mapped([], a)
    ensures !Straddled([], addr, length)
  {
    if !Wraps(addr, length) {
      Unmapping([], upper, addr, addr + length);
    }
  }

  lemma WrappedKeys(rs: seq<Region>, keys: seq<nat>, first: nat, addr: nat, length: nat)
    requires first + |keys| <= |rs| && AreKeys(keys, rs[first..first + |keys|], addr, Sum32(addr, length))
    requires forall i | 0 <= i < |rs| && !(first <= i < first + |keys|) :: !Touches(rs[i], addr, Sum32(addr, length))
    ensures keys != [] <==> Straddled(rs, addr, length)
  {
    hide Touches;
    if keys != [] {
      assert rs[first..first + |keys|][0] == rs[first];
    }
  }

  /** A range of nearly all memory: it ends past the upper bound, and the test does not see it. */
  lemma WrapExample(upper: nat)
    requires 0x1000 < upper <= 0xFFFF_F000
    ensures 0x1000 + 0xFFFF_F000 > upper && Unmaps([], upper, 0x1000, 0xFFFF_F000, Ok([]), [])
  {
  }

  lemma NoKeys(rs: seq<Region>, i: nat, addr: nat, unmapEnd: nat)
    requires i <= |rs|
    ensures AreKeys([], rs[i..i], addr, unmapEnd)
  {
  }

  lemma KeysMore(keys: seq<nat>, rs: seq<Region>, first: nat, j: nat, addr: nat, unmapEnd: nat)
    requires first + |keys| == j < |rs| && AreKeys(keys, rs[first..j], addr, unmapEnd) && Touches(rs[j], addr, unmapEnd)
    ensures AreKeys(keys + [rs[j].address], rs[first..j + 1], addr, unmapEnd)
  {
    assert rs[first..j + 1] == rs[first..j] + [rs[j]];
  }

  /** The region that the ordered map holds under a key. */
  method Lookup(rs: seq<Region>, key: nat, ghost a: seq<Region>, ghost x: Region, ghost b: seq<Region>)
    returns (r: Region)
    requires rs == a + [x] + b && x.address == key && forall i | 0 <= i < |a| :: a[i].address != key
    ensures r == x
  {
    assert rs[|a|] == x && forall j | 0 <= j < |a| :: rs[j] == a[j];
    var i := 0;
    while rs[i].address != key
      invariant 0 <= i <= |a|
      decreases |a| - i
    {
      i := i + 1;
    }
    r := rs[i];
  }

  /** Around region `j`: what is done lies below it, the rest above it. */
  lemma SplitAround(rs: seq<Region>, upper: nat, j: nat, lo: nat, hi: nat)
    requires Ordered(rs, upper) && j < |rs| && lo <= hi
    ensures forall i | 0 <= i < |KeepAll(rs[..j], lo, hi)| :: KeepAll(rs[..j], lo, hi)[i].address < rs[j].address
    ensures forall i | j < i < |rs| :: rs[j].End() <= rs[i].address
    ensures rs[j].size > 0
  {
    KeptInside(rs[..j], lo, hi, upper, rs[j].address);
    var k := KeepAll(rs[..j], lo, hi);
    hide KeepAll;
    forall i | 0 <= i < |k|
      ensures k[i].address < rs[j].address
    {
      assert k[i].size > 0;
    }
  }

  lemma KeepNext(rs: seq<Region>, j: nat, lo: nat, hi: nat)
    requires j < |rs|
    ensures KeepAll(rs[..j + 1], lo, hi) == KeepAll(rs[..j], lo, hi) + Keep(rs[j], lo, hi)
  {
    assert rs[..j + 1][..j] == rs[..j];
  }

  lemma CutNext(rs: seq<Region>, j: nat, lo: nat, hi: nat)
    requires j < |rs|
    ensures CutAll(rs[..j + 1], lo, hi) == CutAll(rs[..j], lo, hi) + Cut(rs[j], lo, hi)
  {
    assert rs[..j + 1][..j] == rs[..j];
  }

  lemma PrefixKept(rs: seq<Region>, j: nat, lo: nat, hi: nat)
    requires j <= |rs| && forall i | 0 <= i < j :: !Touches(rs[i], lo, hi)
    ensures KeepAll(rs[..j], lo, hi) + rs[j..] == rs
    ensures CutAll(rs[..j], lo, hi) == []
  {
    var p := rs[..j];
    UntouchedKept(p, 0, lo, hi);
    assert p[..0] == [] && p[0..] == p && rs == rs[..j] + rs[j..];
  }

  lemma Unmapping(rs: seq<Region>, upper: nat, lo: nat, hi: nat)
    requires Ordered(rs, upper) && lo <= hi
    ensures Ordered(KeepAll(rs, lo, hi), upper)
    ensures forall a: nat :: Mapped(KeepAll(rs, lo, hi), a) <==> Mapped(rs, a) && !(lo <= a < hi)
    ensures RightPieces(CutAll(rs, lo, hi), rs, lo, hi)
    ensures rs == [] ==> KeepAll(rs, lo, hi) == [] && CutAll(rs, lo, hi) == []
  {
    hide RightPieces, Mapped;
    KeptInside(rs, lo, hi, upper, upper);
    CutPieces(rs, upper, lo, hi);
    forall a: nat
      ensures Mapped(KeepAll(rs, lo, hi), a) <==> Mapped(rs, a) && !(lo <= a < hi)
    {
      KeptAddresses(rs, lo, hi, a);
    }
  }

  /** Where `size` bytes are put, for each kind of request. */
  ghost predicate Placed(rs: seq<Region>, upper: nat, addr: Option<nat>, size: nat, r: Result<nat>) {
    match addr
    case Some(hint) =>
      if hint % PAGE != 0 then r == Err(MappingWrongAlignment)
      else if Clear(rs, hint, size) then r == Ok(hint)
      else if forall q: nat :: !Fits(rs, NULL_PAGE_END, upper, size, q) then r == Err(NotEnoughMemory)
      else
        && r.Ok? && Fits(rs, NULL_PAGE_END, upper, size, r.value)
        && (forall q: nat | Fits(rs, NULL_PAGE_END, upper, size, q) :: NoWorse(hint, r.value, q))
    case None =>
      && r.Ok?
      && (Fits(rs, 0, upper, size, r.value) <==> exists q: nat :: Fits(rs, 0, upper, size, q))
      && (forall q: nat | Fits(rs, 0, upper, size, q) :: q <= r.value)
      && ((forall q: nat :: !Fits(rs, 0, upper, size, q)) ==> r.value == 0)
  }

  /** What a mapping does: it refuses, or puts the region at its place. */
  ghost predicate Maps(rs: seq<Region>, upper: nat, addr: Option<nat>, size: nat, backing: MemoryBacking,
                       r: Result<nat>, now: seq<Region>) {
    && !r.Panic? && (size == 0 ==> r == Err(InvalidSize)) && (size > 0 ==> Placed(rs, upper, addr, NextPage(size), r))
    && now == if r.Ok? then InsertKey(rs, Region(r.value, size, backing)) else rs
  }

  /** Whether a request is safe to make: the map then gains the region and loses nothing. */
  ghost predicate Safe(rs: seq<Region>, upper: nat, addr: Option<nat>, size: nat) {
    match addr
    case Some(hint) => Clear(rs, hint, NextPage(size)) ==> hint + size <= upper
    case None => (exists q: nat :: Fits(rs, 0, upper, NextPage(size), q)) || (rs != [] && size <= rs[0].address)
  }

  /** The map is in order and has one region more. */
  ghost predicate Joined(rs: seq<Region>, now: seq<Region>, upper: nat) {
    Ordered(now, upper) && |now| == |rs| + 1
  }

  /** The ordered map's insertion: in key order, replacing an entry of the same key. */
  function InsertKey(rs: seq<Region>, r: Region): seq<Region> {
    if rs == [] then [r]
    else if r.address < rs[0].address then [r] + rs
    else if r.address == rs[0].address then [r] + rs[1..]
    else [rs[0]] + InsertKey(rs[1..], r)
  }

  /** The ordered map's removal of one key. */
  function RemoveKey(rs: seq<Region>, key: nat): seq<Region> {
    if rs == [] then []
    else if rs[0].address == key then rs[1..]
    else [rs[0]] + RemoveKey(rs[1..], key)
  }

  lemma {:induction false} InsertBetween(a: seq<Region>, b: seq<Region>, r: Region)
    requires forall i | 0 <= i < |a| :: a[i].address < r.address
    requires forall i | 0 <= i < |b| :: r.address < b[i].address
    ensures InsertKey(a + b, r) == a + [r] + b
  {
    if a == [] {
      assert a + b == b && a + [r] + b == [r] + b;
    } else {
      InsertBetween(a[1..], b, r);
      assert (a + b)[1..] == a[1..] + b;
      assert a + [r] + b == [a[0]] + (a[1..] + [r] + b);
    }
  }

  lemma {:induction false} RemoveBetween(a: seq<Region>, x: Region, b: seq<Region>)
    requires forall i | 0 <= i < |a| :: a[i].address != x.address
    ensures RemoveKey(a + [x] + b, x.address) == a + b
  {
    if a == [] {
      assert a + [x] + b == [x] + b && a + b == b;
    } else {
      RemoveBetween(a[1..], x, b);
      assert (a + [x] + b)[1..] == a[1..] + [x] + b;
      assert a + b == [a[0]] + (a[1..] + b);
    }
  }

  /** How many regions start below `p`. */
  ghost function Below(rs: seq<Region>, p: nat): (k: nat)
    ensures k <= |rs|
    ensures forall i | 0 <= i < k :: rs[i].address < p
    ensures k < |rs| ==> p <= rs[k].address
  {
    if rs == [] || p <= rs[0].address then 0 else 1 + Below(rs[1..], p)
  }

  /**
   A region joins the map exactly when its range is clear and ends below the upper bound; then just its bytes are
   added.
   */
  lemma JoinsExactly(rs: seq<Region>, upper: nat, r: Region)
    requires Ordered(rs, upper) && r.size > 0
    ensures Joined(rs, InsertKey(rs, r), upper) <==> Clear(rs, r.address, r.size) && r.End() <= upper
    ensures Joined(rs, InsertKey(rs, r), upper) ==>
              forall a: nat :: Mapped(InsertKey(rs, r), a) <==> Mapped(rs, a) || r.Contains(a)
  {
    hide InsertKey, Below, Ordered, Mapped, Clear;
    var k := Below(rs, r.address);
    if k < |rs| && rs[k].address == r.address {
      SameKey(rs, r, k);
      if Clear(rs, r.address, r.size) {
        ClearHasNoKey(rs, upper, r.address, r.size);
      }
    } else {
      var a, b := rs[..k], rs[k..];
      assert rs == a + b;
      AboveKey(rs, upper, r.address, k);
      InsertBetween(a, b, r);
      assert |a + [r] + b| == |rs| + 1;
      MappedParts(a, r, b);
      InsertExactly(a, r, b, upper);
    }
  }

  lemma ClearHasNoKey(rs: seq<Region>, upper: nat, p: nat, size: nat)
    requires Ordered(rs, upper) && size > 0 && Clear(rs, p, size)
    ensures forall k | 0 <= k < |rs| :: rs[k].address != p
  {
  }

  lemma AboveKey(rs: seq<Region>, upper: nat, p: nat, k: nat)
    requires Ordered(rs, upper) && k <= |rs| && (k < |rs| ==> p < rs[k].address)
    ensures forall i | 0 <= i < |rs[k..]| :: p < rs[k..][i].address
  {
    forall i | 0 <= i < |rs[k..]|
      ensures p < rs[k..][i].address
    {
      assert rs[k].address <= rs[k + i].address;
    }
  }

  lemma InsertExactly(a: seq<Region>, r: Region, b: seq<Region>, upper: nat)
    requires Ordered(a + b, upper) && r.size > 0
    requires forall i | 0 <= i < |a| :: a[i].address < r.address
    requires forall i | 0 <= i < |b| :: r.address < b[i].address
    ensures Ordered(a + [r] + b, upper) <==> Clear(a + b, r.address, r.size) && r.End() <= upper
  {
    hide Ordered, Clear;
    if Clear(a + b, r.address, r.size) && r.End() <= upper {
      ClearSides(a, r, b);
      OrderedInsert(a, r, b, upper);
    }
    if Ordered(a + [r] + b, upper) {
      BetweenIsClear(a, r, b, upper);
    }
  }

  lemma ClearSides(a: seq<Region>, r: Region, b: seq<Region>)
    requires Clear(a + b, r.address, r.size) && r.size > 0
    requires forall i | 0 <= i < |a| :: a[i].address < r.address
    requires forall i | 0 <= i < |b| :: r.address < b[i].address
    ensures forall i | 0 <= i < |a| :: a[i].End() <= r.address
    ensures forall i | 0 <= i < |b| :: r.End() <= b[i].address
  {
    assert forall i | 0 <= i < |a| :: (a + b)[i] == a[i];
    assert forall i | 0 <= i < |b| :: (a + b)[|a| + i] == b[i];
  }

  lemma BetweenIsClear(a: seq<Region>, r: Region, b: seq<Region>, upper: nat)
    requires Ordered(a + [r] + b, upper)
    ensures Clear(a + b, r.address, r.size) && r.End() <= upper
  {
    var s, t := a + [r] + b, a + b;
    assert s[|a|] == r;
    forall i | 0 <= i < |t|
      ensures t[i].End() <= r.address || r.End() <= t[i].address
    {
      assert t[i] == s[if i < |a| then i else i + 1];
    }
  }

  /** Inserting under a key that is taken replaces its entry. */
  lemma {:induction false} SameKey(rs: seq<Region>, r: Region, k: nat)
    requires k < |rs| && rs[k].address == r.address && forall i | 0 <= i < k :: rs[i].address < r.address
    ensures |InsertKey(rs, r)| == |rs|
  {
    if k > 0 {
      SameKey(rs[1..], r, k - 1);
    }
  }

  /** The place chosen for a request suits the region exactly when the request is safe. */
  lemma SafeExactly(rs: seq<Region>, upper: nat, addr: Option<nat>, size: nat, place: nat)
    requires Ordered(rs, upper) && upper % PAGE == 0 && size > 0 && Placed(rs, upper, addr, NextPage(size), Ok(place))
    ensures Clear(rs, place, size) && place + size <= upper <==> Safe(rs, upper, addr, size)
  {
    var rounded := NextPage(size);
    if addr.None? && forall q: nat :: !Fits(rs, 0, upper, rounded, q) {
      assert !Fits(rs, 0, upper, rounded, 0);
      if rs != [] {
        assert forall i | 0 <= i < |rs| :: rs[0].address <= rs[i].address < rs[i].End() <= upper;
      }
    }
  }

  /** With a hint the map loses its order exactly when the region does not join: no key is ever taken twice. */
  lemma HintKeepsKeys(rs: seq<Region>, upper: nat, addr: Option<nat>, r: Region)
    requires Ordered(rs, upper) && r.size > 0 && Placed(rs, upper, addr, NextPage(r.size), Ok(r.address))
    ensures addr.Some? ==> (Ordered(InsertKey(rs, r), upper) <==> Joined(rs, InsertKey(rs, r), upper))
  {
    if addr.Some? {
      assert Clear(rs, r.address, NextPage(r.size));
      ClearHasNoKey(rs, upper, r.address, NextPage(r.size));
      hide InsertKey, Below, Ordered, Clear;
      var k := Below(rs, r.address);
      var a, b := rs[..k], rs[k..];
      assert rs == a + b;
      AboveKey(rs, upper, r.address, k);
      InsertBetween(a, b, r);
      assert |a + [r] + b| == |rs| + 1;
    }
  }

  lemma OrderedInsert(a: seq<Region>, r: Region, b: seq<Region>, upper: nat)
    requires Ordered(a + b, upper) && r.size > 0 && r.End() <= upper
    requires forall i | 0 <= i < |a| :: a[i].End() <= r.address
    requires forall i | 0 <= i < |b| :: r.End() <= b[i].address
    ensures Ordered(a + [r] + b, upper)
  {
    var s, t := a + [r] + b, a + b;
    assert forall i | 0 <= i < |a| :: t[i] == a[i];
    assert forall i | 0 <= i < |b| :: t[|a| + i] == b[i];
    forall i | 0 <= i < |s|
      ensures s[i] == if i < |a| then t[i] else if i == |a| then r else t[i - 1]
    {
    }
    forall i, j | 0 <= i < j < |s|
      ensures s[i].End() <= s[j].address
    {
      if i < |a| && j == |a| {
        assert s[i] == a[i];
      } else if i == |a| {
        assert s[j] == b[j - |a| - 1];
      }
    }
  }

  lemma MappedParts(a: seq<Region>, r: Region, b: seq<Region>)
    ensures forall x: nat :: Mapped(a + [r] + b, x) <==> Mapped(a + b, x) || r.Contains(x)
  {
    var s, t := a + [r] + b, a + b;
    forall x: nat
      ensures Mapped(s, x) <==> Mapped(t, x) || r.Contains(x)
    {
      if i :| 0 <= i < |s| && s[i].Contains(x) {
        assert i == |a| || t[if i < |a| then i else i - 1].Contains(x);
      }
      if i :| 0 <= i < |t| && t[i].Contains(x) {
        assert s[if i < |a| then i else i + 1].Contains(x);
      }
      assert s[|a|] == r;
    }
  }

  lemma TopOfGap(rs: seq<Region>, upper: nat, size: nat, i: nat, place: nat)
    requires Ordered(rs, upper) && i <= |rs| && size > 0 && size % PAGE == 0
    requires GapStart(rs, 0, i) + size <= GapEnd(rs, upper, i) && place == PrevPage(GapEnd(rs, upper, i) - size)
    ensures Fits(rs, 0, upper, size, place)
    ensures forall q: nat | Fits(rs, 0, upper, size, q) && q + size <= GapEnd(rs, upper, i) :: q <= place
  {
    assert GapStart(rs, 0, i) <= place;
    GapOf(rs, 0, upper, size, i, place);
    forall q: nat | Fits(rs, 0, upper, size, q) && q + size <= GapEnd(rs, upper, i)
      ensures q <= place
    {
      assert q % PAGE == 0;
    }
  }

  lemma NotInGap(rs: seq<Region>, upper: nat, size: nat, i: nat, q: nat)
    requires Ordered(rs, upper) && 0 < i <= |rs| && size > 0 && Fits(rs, 0, upper, size, q)
    requires q + size <= GapEnd(rs, upper, i) && SatSub(GapEnd(rs, upper, i), NextPage(rs[i - 1].End())) < size
    ensures q + size <= rs[i - 1].address
  {
    AlignedAfter(rs[i - 1].End(), q);
  }

  /** An aligned address at or after `e` is at or after the next page barrier. */
  lemma AlignedAfter(e: nat, q: nat)
    requires q % PAGE == 0
    ensures e <= q ==> NextPage(e) <= q
  {
  }

  // ---- two places where the code does less than one would expect ----

  predicate IsAnonymous(b: MemoryBacking) {
    b.FreeMemory? || b.IsaDma?
  }

  /** Every address that stays mapped is backed by the same byte as before. */
  ghost predicate TranslationKept(rs: seq<Region>, lo: nat, hi: nat) {
    forall i, j, a: nat |
      && 0 <= i < |rs| && 0 <= j < |KeepAll(rs, lo, hi)|
      && rs[i].Contains(a) && KeepAll(rs, lo, hi)[j].Contains(a) ::
      SameByte(rs[i], KeepAll(rs, lo, hi)[j], a)
  }

  predicate SameByte(r: Region, s: Region, a: nat)
    requires r.Contains(a) && s.Contains(a)
  {
    match r.backedBy
    case Direct(p) => s.backedBy.Direct? && p + (a - r.address) == s.backedBy.paddr + (a - s.address)
    case FileBacked(d, t, o, sh) =>
      && s.backedBy.FileBacked? && s.backedBy.driver == d && s.backedBy.token == t && s.backedBy.shared == sh
      && o + (a - r.address) == s.backedBy.offsetInFile + (a - s.address)
    case _ => IsAnonymous(s.backedBy)
  }

  /** Unmapping the middle page of a device mapping shifts what its last page translates to. */
  lemma TailTranslationExample()
    ensures var rs := [Region(0x4000, 0x3000, Direct(0xA0000))];
            && Ordered(rs, 0xC000_0000) && !TranslationKept(rs, 0x5000, 0x6000)
            && KeepAll(rs, 0x5000, 0x6000)[1] == Region(0x6000, 0x1000, Direct(0xA0000))
  {
    var r := Region(0x4000, 0x3000, Direct(0xA0000));
    var rs := [r];
    assert rs[..0] == [];
    assert KeepAll(rs, 0x5000, 0x6000) == Keep(r, 0x5000, 0x6000);
    assert !SameByte(rs[0], KeepAll(rs, 0x5000, 0x6000)[1], 0x6000);
  }

  /** Every kept piece comes from one region, */
  lemma {:induction false} KeptFrom(rs: seq<Region>, lo: nat, hi: nat, j: nat) returns (k: nat)
    requires j < |KeepAll(rs, lo, hi)|
    ensures k < |rs| && KeepAll(rs, lo, hi)[j] in Keep(rs[k], lo, hi)
  {
    var init, r := rs[..|rs| - 1], rs[|rs| - 1];
    var a := KeepAll(init, lo, hi);
    if j < |a| {
      k := KeptFrom(init, lo, hi, j);
      assert init[k] == rs[k];
    } else {
      k := |rs| - 1;
      assert Keep(r, lo, hi)[j - |a|] in Keep(r, lo, hi);
    }
  }

  /** and every piece of a region is kept. */
  lemma {:induction false} KeptInto(rs: seq<Region>, lo: nat, hi: nat, k: nat, m: nat) returns (j: nat)
    requires k < |rs| && m < |Keep(rs[k], lo, hi)|
    ensures j < |KeepAll(rs, lo, hi)| && KeepAll(rs, lo, hi)[j] == Keep(rs[k], lo, hi)[m]
    decreases |rs|
  {
    var init := rs[..|rs| - 1];
    if k < |rs| - 1 {
      assert init[k] == rs[k];
      j := KeptInto(init, lo, hi, k, m);
    } else {
      j := |KeepAll(init, lo, hi)| + m;
    }
  }

  /**
   The backing of what stays mapped is kept exactly when no device or file region reaches across the end of the range.
   */
  lemma TranslationKeptExactly(rs: seq<Region>, upper: nat, lo: nat, hi: nat)
    requires Ordered(rs, upper) && lo <= hi
    ensures TranslationKept(rs, lo, hi) <==>
            forall i | 0 <= i < |rs| && rs[i].address < hi < rs[i].End() :: IsAnonymous(rs[i].backedBy)
  {
    if forall i | 0 <= i < |rs| && rs[i].address < hi < rs[i].End() :: IsAnonymous(rs[i].backedBy) {
      forall i, j, a: nat |
        && 0 <= i < |rs| && 0 <= j < |KeepAll(rs, lo, hi)|
        && rs[i].Contains(a) && KeepAll(rs, lo, hi)[j].Contains(a)
        ensures SameByte(rs[i], KeepAll(rs, lo, hi)[j], a)
      {
        var k := KeptFrom(rs, lo, hi, j);
        hide KeepAll;
        OneRegion(rs, upper, i, k, a);
      }
    }
    if TranslationKept(rs, lo, hi) {
      forall i | 0 <= i < |rs| && rs[i].address < hi < rs[i].End()
        ensures IsAnonymous(rs[i].backedBy)
      {
        TailBacking(rs, lo, hi, i);
      }
    }
  }

  lemma OneRegion(rs: seq<Region>, upper: nat, i: nat, k: nat, a: nat)
    requires Ordered(rs, upper) && i < |rs| && k < |rs| && rs[i].Contains(a) && rs[k].Contains(a)
    ensures i == k
  {
  }

  lemma TailBacking(rs: seq<Region>, lo: nat, hi: nat, i: nat)
    requires TranslationKept(rs, lo, hi) && lo <= hi && i < |rs| && rs[i].address < hi < rs[i].End()
    ensures IsAnonymous(rs[i].backedBy)
  {
    var m := |Keep(rs[i], lo, hi)| - 1;
    var j := KeptInto(rs, lo, hi, i, m);
    hide KeepAll;
    assert KeepAll(rs, lo, hi)[j] == Region(hi, rs[i].End() - hi, rs[i].backedBy);
    assert SameByte(rs[i], KeepAll(rs, lo, hi)[j], hi);
  }

  /** A hint at the upper bound: its range is clear, so the region goes there, outside the map's bounds. */
  lemma HintPastEndExample()
    ensures Clear([], 0x2000, 0x1000) && !Safe([], 0x2000, Some(0x2000), 0x1000)
    ensures !Ordered(InsertKey([], Region(0x2000, 0x1000, FreeMemory)), 0x2000)
  {
    assert InsertKey([], Region(0x2000, 0x1000, FreeMemory))[0].End() == 0x3000;
  }

  /**
   A full map: no place fits, and the region that goes to address 0 replaces the one there, so a mapped page is lost.
   */
  lemma FullMapExample()
    ensures var rs := [Region(0, 0x2000, FreeMemory)];
            var now := InsertKey(rs, Region(0, 0x1000, FreeMemory));
            && Ordered(rs, 0x2000) && (forall q: nat :: !Fits(rs, 0, 0x2000, 0x1000, q))
            && !Safe(rs, 0x2000, None, 0x1000)
            && Ordered(now, 0x2000) && Mapped(rs, 0x1000) && !Mapped(now, 0x1000)
  {
    var rs := [Region(0, 0x2000, FreeMemory)];
    assert rs[0].End() == 0x2000 && rs[0].Contains(0x1000);
    assert NextPage(0x1000) == 0x1000;
  }

  /** A place that does not fit whole pages may still be safe: the first region starts inside a page. */
  lemma PartPageExample()
    ensures var rs := [Region(0x800, 0x800, FreeMemory)];
            && Ordered(rs, 0x1000) && (forall q: nat :: !Fits(rs, 0, 0x1000, 0x1000, q))
            && Safe(rs, 0x1000, None, 0x400)
  {
    var rs := [Region(0x800, 0x800, FreeMemory)];
    assert rs[0].End() == 0x1000;
  }

  // ---- runs ----

  /** A call with its answer. */
  datatype Event =
    | Map(hint: Option<nat>, size: nat, backing: MemoryBacking, place: Result<nat>)
    | Unmap(addr: nat, length: nat, pieces: Result<seq<UnmappedRegion>>)

  ghost predicate Steps(rs: seq<Region>, upper: nat, e: Event, now: seq<Region>) {
    match e
    case Map(addr, size, backing, place) => Maps(rs, upper, addr, size, backing, place, now)
    case Unmap(addr, length, pieces) => Unmaps(rs, upper, addr, length, pieces, now)
  }

  /** Mappings are safe when they are made. */
  ghost predicate SafeStep(rs: seq<Region>, upper: nat, e: Event) {
    e.Map? && e.place.Ok? ==> Safe(rs, upper, e.hint, e.size)
  }

  /** The addresses mapped after a step, and after a run, as sets of addresses. */
  ghost predicate After(mapped: bool, e: Event, a: nat) {
    match e
    case Map(_, size, _, place) => mapped || (place.Ok? && place.value <= a < place.value + size)
    case Unmap(addr, length, pieces) =>
      mapped && !(pieces.Ok? && !Wraps(addr, length) && addr <= a < addr + length)
  }

  ghost predicate AfterAll(mapped: bool, es: seq<Event>, a: nat) {
    if es == [] then mapped else After(AfterAll(mapped, es[..|es| - 1], a), es[|es| - 1], a)
  }

  lemma StepKeeps(rs: seq<Region>, upper: nat, e: Event, now: seq<Region>)
    requires Ordered(rs, upper) && upper % PAGE == 0 && Steps(rs, upper, e, now) && SafeStep(rs, upper, e)
    ensures Ordered(now, upper)
    ensures forall a: nat :: Mapped(now, a) <==> After(Mapped(rs, a), e, a)
  {
    hide Ordered, Mapped, Safe, Placed, InsertKey, KeepAll, RightPieces;
    match e
    case Map(addr, size, backing, place) =>
      if place.Ok? {
        SafeExactly(rs, upper, addr, size, place.value);
        JoinsExactly(rs, upper, Region(place.value, size, backing));
      }
    case Unmap(addr, length, pieces) =>
      if pieces.Ok? && !Wraps(addr, length) {
        Unmapping(rs, upper, addr, addr + length);
      }
  }

  /** The states of a run of safe steps. */
  ghost predicate SafeRun(states: seq<seq<Region>>, upper: nat, es: seq<Event>) {
    && |states| == |es| + 1
    && (forall i | 0 <= i < |es| ::
          Steps(states[i], upper, es[i], states[i + 1]) && SafeStep(states[i], upper, es[i]))
  }

  lemma SafePrefix(states: seq<seq<Region>>, upper: nat, es: seq<Event>)
    requires SafeRun(states, upper, es) && es != []
    ensures SafeRun(states[..|es|], upper, es[..|es| - 1])
    ensures var n := |es| - 1; Steps(states[n], upper, es[n], states[n + 1]) && SafeStep(states[n], upper, es[n])
  {
    hide Steps, SafeStep;
  }

  /**
   After any mix of mappings and unmappings, of which the mappings are safe when they are made, the regions are in order
   and disjoint, and the addresses mapped are those that the calls, one after the other, added and removed.
   */
  lemma {:induction false} EveryMix(states: seq<seq<Region>>, upper: nat, es: seq<Event>)
    requires SafeRun(states, upper, es) && Ordered(states[0], upper) && upper % PAGE == 0
    ensures forall i | 0 <= i < |states| :: Ordered(states[i], upper)
    ensures forall a: nat :: Mapped(states[|es|], a) <==> AfterAll(Mapped(states[0], a), es, a)
  {
    assert |states| == |es| + 1;
    hide SafeRun, Ordered, Mapped, Steps, SafeStep, After;
    if es != [] {
      var n := |es| - 1;
      var before := states[..|es|];
      SafePrefix(states, upper, es);
      EveryMix(before, upper, es[..n]);
      assert before[n] == states[n] && Ordered(before[n], upper);
      StepKeeps(states[n], upper, es[n], states[n + 1]);
      forall i | 0 <= i < |states|
        ensures Ordered(states[i], upper)
      {
        assert i < |es| ==> before[i] == states[i];
      }
    }
  }
}
