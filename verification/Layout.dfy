/** Where the planner puts partitions on an empty table: the closed form of a fresh layout. */
module Layout {
  import opened Machine
  import opened GcdLcm
  import opened Options
  import opened Parted
  import opened Reconcile
  import opened Idempotence

  // ---------------------------------------------------------------- closed form of a fresh layout

  ghost predicate IdentitySnap(dev: Device) {
    forall t: Table, g: Geometry :: dev.snap(t, g) == Some(g)
  }

  /** q_j: the whole sectors of request j, of its bytes as a signed 64-bit number. */
  function Quota(dev: Device, req: PartRequest): int
    requires dev.Valid()
  {
    Extent(dev, req.size)
  }

  /** Grains used by the first k requests. */
  function Grains(dev: Device, reqs: seq<PartRequest>, k: nat): int
    requires dev.Valid() && k <= |reqs|
  {
    if k == 0 then 0 else Grains(dev, reqs, k - 1) + Ceiling(Quota(dev, reqs[k - 1]))
  }

  function StartOf(dev: Device, reqs: seq<PartRequest>, k: nat): int
    requires dev.Valid() && k <= |reqs|
  {
    GRAIN * (1 + Grains(dev, reqs, k))
  }

  function FreshGeometry(dev: Device, reqs: seq<PartRequest>, k: nat): Geometry
    requires dev.Valid() && k < |reqs|
  {
    Geometry(StartOf(dev, reqs, k), StartOf(dev, reqs, k) + Quota(dev, reqs[k]))
  }

  /** Partitions 1 to k in closed form. */
  function FreshTable(dev: Device, reqs: seq<PartRequest>, k: nat): (t: Table)
    requires dev.Valid() && k <= |reqs|
    ensures Contiguous(t, k)
    ensures forall n: nat :: 1 <= n <= k ==> t[n] == Partition(FreshGeometry(dev, reqs, n - 1), reqs[n - 1].fs)
  {
    if k == 0 then map[]
    else FreshTable(dev, reqs, k - 1)[k := Partition(FreshGeometry(dev, reqs, k - 1), reqs[k - 1].fs)]
  }

  predicate Fits(dev: Device, reqs: seq<PartRequest>, k: nat)
    requires dev.Valid() && k < |reqs|
  {
    reqs[k].fs in dev.knownFs && 0 <= Quota(dev, reqs[k]) && FreshGeometry(dev, reqs, k).end < dev.sectors
  }

  /** Request k fits, and the one before it does not fill whole grains. */
  predicate Placeable(dev: Device, reqs: seq<PartRequest>, k: nat)
    requires dev.Valid() && k < |reqs|
  {
    Fits(dev, reqs, k) && (k > 0 ==> Quota(dev, reqs[k - 1]) % GRAIN != 0)
  }

  ghost predicate PlaceableBelow(dev: Device, reqs: seq<PartRequest>, k: nat)
    requires dev.Valid() && k <= |reqs|
  {
    forall j: nat :: j < k ==> Placeable(dev, reqs, j)
  }

  lemma CeilingBounds(q: int)
    requires q >= 0
    ensures q <= GRAIN * Ceiling(q) < q + GRAIN
    ensures q == GRAIN * Ceiling(q) <==> q % GRAIN == 0
  {
  }

  /** Below 2^63 bytes the quota is the number of whole sectors requested; it always fits 64 bits. */
  lemma QuotaValue(dev: Device, req: PartRequest)
    requires dev.Valid()
    ensures -TWO_63 <= Quota(dev, req) < TWO_63
    ensures req.size * 1_000_000 < TWO_63 ==> Quota(dev, req) == req.size * 1_000_000 / dev.sectorSize >= 0
  {
    var bytes := ToInt64(ToUint64(req.size * 1000 * 1000));
    FloorBounds(if bytes >= 0 then bytes else -bytes, dev.sectorSize);
    if req.size * 1_000_000 < TWO_63 {
      assert req.size * 1000 * 1000 == req.size * 1_000_000;
      InRangeIsUnchanged(req.size * 1_000_000);
    }
    hide ToInt64, ToUint64;
  }

  /** Each partition ends at or before the start of the next, strictly unless it fills whole grains. */
  lemma StartGrows(dev: Device, reqs: seq<PartRequest>, k: nat)
    requires dev.Valid() && k < |reqs| && 0 <= Quota(dev, reqs[k])
    ensures FreshGeometry(dev, reqs, k).end <= StartOf(dev, reqs, k + 1)
    ensures FreshGeometry(dev, reqs, k).end == StartOf(dev, reqs, k + 1) <==> Quota(dev, reqs[k]) % GRAIN == 0
    ensures StartOf(dev, reqs, k) <= StartOf(dev, reqs, k + 1)
  {
    CeilingBounds(Quota(dev, reqs[k]));
  }

  lemma {:induction false} StartsMonotonic(dev: Device, reqs: seq<PartRequest>, j: nat, k: nat)
    requires dev.Valid() && j <= k <= |reqs| && PlaceableBelow(dev, reqs, k)
    ensures GRAIN <= StartOf(dev, reqs, j) <= StartOf(dev, reqs, k)
    decreases k
  {
    if k > 0 {
      assert Placeable(dev, reqs, k - 1);
      StartsMonotonic(dev, reqs, if j < k then j else k - 1, k - 1);
      StartGrows(dev, reqs, k - 1);
    }
  }

  function WrapStart(start: int): int {
    if start < TWO_63 then start else start - TWO_64
  }

  /** The next start after a partition that begins m grains in and extends for q sectors. */
  lemma AlignedAfter(m: int, q: int, end: int, m': int, start: int)
    requires m >= 1 && q >= 0 && end == GRAIN * m + q < TWO_63
    requires m' == m + Ceiling(q) && start == GRAIN * m'
    ensures 0 < start < TWO_64
    ensures AlignedStart(end) == WrapStart(start)
  {
    AlignedStartValue(end);
    assert Ceiling(end) == m';
  }

  /** Grain count at which request k begins. */
  function Mark(dev: Device, reqs: seq<PartRequest>, k: nat): int
    requires dev.Valid() && k <= |reqs|
  {
    1 + Grains(dev, reqs, k)
  }

  lemma MarkPositive(dev: Device, reqs: seq<PartRequest>, k: nat)
    requires dev.Valid() && k <= |reqs| && PlaceableBelow(dev, reqs, k)
    ensures Mark(dev, reqs, k) >= 1 && StartOf(dev, reqs, k) == GRAIN * Mark(dev, reqs, k)
  {
    StartsMonotonic(dev, reqs, k, k);
  }

  lemma LastFreshEnd(dev: Device, reqs: seq<PartRequest>, k: nat)
    requires dev.Valid() && 0 < k <= |reqs|
    ensures LastEnd(FreshTable(dev, reqs, k)) == GRAIN * Mark(dev, reqs, k - 1) + Quota(dev, reqs[k - 1])
    ensures Mark(dev, reqs, k) == Mark(dev, reqs, k - 1) + Ceiling(Quota(dev, reqs[k - 1]))
  {
    ContiguousCount(FreshTable(dev, reqs, k), k);
    hide Quota, Ceiling, Device.Valid;
  }

  lemma PlacedEnd(dev: Device, reqs: seq<PartRequest>, k: nat)
    requires dev.Valid() && k < |reqs| && Placeable(dev, reqs, k)
    ensures 0 <= Quota(dev, reqs[k]) && GRAIN * Mark(dev, reqs, k) + Quota(dev, reqs[k]) < TWO_63
  {
    SectorsFit(dev);
    hide Quota, Ceiling, Device.Valid;
  }

  /** The aligned start after k placed partitions, wrapping when it leaves 63 bits. */
  lemma FreshAlignedStart(dev: Device, reqs: seq<PartRequest>, k: nat)
    requires dev.Valid() && k <= |reqs| && PlaceableBelow(dev, reqs, k)
    ensures 0 < StartOf(dev, reqs, k) < TWO_64
    ensures AlignedStart(LastEnd(FreshTable(dev, reqs, k))) == WrapStart(StartOf(dev, reqs, k))
  {
    hide AlignedStart, WrapStart, Quota, LastEnd, FreshTable, Ceiling, Grains, Mark, StartOf, Device.Valid, Placeable;
    MarkPositive(dev, reqs, k);
    if k == 0 {
      FirstStart(dev, reqs);
    } else {
      LaterStart(dev, reqs, k, LastEnd(FreshTable(dev, reqs, k)), StartOf(dev, reqs, k));
    }
  }

  lemma LaterStart(dev: Device, reqs: seq<PartRequest>, k: nat, end: int, start: int)
    requires dev.Valid() && 0 < k <= |reqs| && PlaceableBelow(dev, reqs, k)
    requires end == LastEnd(FreshTable(dev, reqs, k)) && start == StartOf(dev, reqs, k)
    ensures 0 < start < TWO_64 && AlignedStart(end) == WrapStart(start)
  {
    hide AlignedStart, WrapStart, Quota, LastEnd, FreshTable, Ceiling, Grains, Mark, StartOf, Device.Valid, Placeable;
    assert Placeable(dev, reqs, k - 1);
    MarkPositive(dev, reqs, k);
    MarkPositive(dev, reqs, k - 1);
    PlacedEnd(dev, reqs, k - 1);
    LastFreshEnd(dev, reqs, k);
    var m, q, m' := Mark(dev, reqs, k - 1), Quota(dev, reqs[k - 1]), Mark(dev, reqs, k);
    AlignedAfter(m, q, end, m', start);
  }

  lemma FirstStart(dev: Device, reqs: seq<PartRequest>)
    requires dev.Valid()
    ensures StartOf(dev, reqs, 0) == GRAIN && AlignedStart(LastEnd(FreshTable(dev, reqs, 0))) == WrapStart(GRAIN)
  {
    AlignedStartValue(0);
    hide AlignedStart;
  }

  lemma EndInside(start: int, q: int, sectors: int)
    requires 0 < start < TWO_64 && -TWO_63 <= q < TWO_63 && 0 < sectors < TWO_63
    ensures var s := WrapStart(start);
            && (0 <= s <= ToInt64(s + q) < sectors <==> 0 <= q && start + q < sectors)
            && (0 <= q && start + q < sectors ==> s == start && ToInt64(s + q) == start + q)
  {
    if start < TWO_63 && start + q < TWO_63 {
      InRangeIsUnchanged(start + q);
    }
  }

  lemma PlannedParts(dev: Device, t: Table, size: uint64, start: int, q: int)
    requires dev.Valid() && AlignedStart(LastEnd(t)) == start && Extent(dev, size) == q
    ensures Planned(dev, t, size) == Geometry(start, ToInt64(start + q))
  {
  }

  lemma PlanFrom(dev: Device, t: Table, req: PartRequest, start: int)
    requires dev.Valid() && 0 < start < TWO_64
    requires AlignedStart(LastEnd(t)) == WrapStart(start)
    ensures var g, q := Planned(dev, t, req.size), Quota(dev, req);
            && (dev.Inside(g) <==> 0 <= q && start + q < dev.sectors)
            && (dev.Inside(g) ==> g == Geometry(start, start + q))
  {
    var q := Quota(dev, req);
    QuotaValue(dev, req);
    PlannedParts(dev, t, req.size, WrapStart(start), q);
    SectorsFit(dev);
    EndInside(start, q, dev.sectors);
  }

  /** The planner computes the closed form, and its geometry is on the device exactly when that is. */
  lemma FreshPlan(dev: Device, reqs: seq<PartRequest>, k: nat)
    requires dev.Valid() && k < |reqs| && PlaceableBelow(dev, reqs, k)
    ensures var g := Planned(dev, FreshTable(dev, reqs, k), reqs[k].size);
            && (dev.Inside(g) <==> 0 <= Quota(dev, reqs[k]) && FreshGeometry(dev, reqs, k).end < dev.sectors)
            && (dev.Inside(g) ==> g == FreshGeometry(dev, reqs, k))
  {
    FreshAlignedStart(dev, reqs, k);
    PlanFrom(dev, FreshTable(dev, reqs, k), reqs[k], StartOf(dev, reqs, k));
  }

  lemma FreshMeets(dev: Device, reqs: seq<PartRequest>, n: nat, k: nat)
    requires dev.Valid() && 1 <= n <= k < |reqs| && PlaceableBelow(dev, reqs, k) && 0 <= Quota(dev, reqs[k])
    ensures FreshGeometry(dev, reqs, n - 1).Meets(FreshGeometry(dev, reqs, k))
            <==> n == k && Quota(dev, reqs[k - 1]) % GRAIN == 0
  {
    assert n < k ==> Placeable(dev, reqs, n);
    hide Quota, StartOf, Fits, Device.Valid;
    assert Placeable(dev, reqs, n - 1);
    StartGrows(dev, reqs, n - 1);
    StartsMonotonic(dev, reqs, n, k);
  }

  /** The new geometry meets an earlier partition exactly when the last one fills whole grains. */
  lemma FreshOverlap(dev: Device, reqs: seq<PartRequest>, k: nat)
    requires dev.Valid() && k < |reqs| && PlaceableBelow(dev, reqs, k) && 0 <= Quota(dev, reqs[k])
    ensures Overlaps(FreshTable(dev, reqs, k), FreshGeometry(dev, reqs, k))
            <==> k > 0 && Quota(dev, reqs[k - 1]) % GRAIN == 0
  {
    hide FreshTable, FreshGeometry, Geometry.Meets, Quota, PlaceableBelow, Device.Valid;
    var t, g := FreshTable(dev, reqs, k), FreshGeometry(dev, reqs, k);
    forall n: nat | n in t
      ensures t[n].geom.Meets(g) <==> n == k && Quota(dev, reqs[k - 1]) % GRAIN == 0
    {
      FreshMeets(dev, reqs, n, k);
    }
    if k > 0 {
      assert k in t;
    }
  }

  lemma NextFree(t: Table, k: nat)
    requires Contiguous(t, k)
    ensures FreeFrom(t, 1) == k + 1
  {
    var n := FreeFrom(t, 1);
    assert n <= k ==> n in t;
    assert n > k + 1 ==> k + 1 in t;
  }

  lemma FreshMake(dev: Device, reqs: seq<PartRequest>, k: nat)
    requires dev.Valid() && IdentitySnap(dev)
    requires k < |reqs| && PlaceableBelow(dev, reqs, k)
    ensures Make(dev, FreshTable(dev, reqs, k), reqs[k]) ==
      if Placeable(dev, reqs, k) then (Added, FreshTable(dev, reqs, k + 1))
      else (if Fits(dev, reqs, k) then Refused else Panicked, FreshTable(dev, reqs, k))
  {
    var t := FreshTable(dev, reqs, k);
    FreshPlan(dev, reqs, k);
    if 0 <= Quota(dev, reqs[k]) {
      FreshOverlap(dev, reqs, k);
    }
    NextFree(t, k);
  }

  lemma FreshRound(dev: Device, reqs: seq<PartRequest>, k: nat)
    requires dev.Valid() && IdentitySnap(dev)
    requires k < |reqs| && PlaceableBelow(dev, reqs, k)
    ensures Round(dev, reqs[k], k, FreshTable(dev, reqs, k)) ==
      if Placeable(dev, reqs, k) then Run(Succeeded, FreshTable(dev, reqs, k + 1), [Create(reqs[k])])
      else Run(if Fits(dev, reqs, k) then CreateRefused else Crashed, FreshTable(dev, reqs, k), [Create(reqs[k])])
  {
    FreshMake(dev, reqs, k);
    assert k + 1 !in FreshTable(dev, reqs, k);
  }

  lemma FreshPassStep(dev: Device, reqs: seq<PartRequest>, k: nat)
    requires dev.Valid() && IdentitySnap(dev)
    requires k < |reqs| && PlaceableBelow(dev, reqs, k)
    ensures var p := PassFrom(dev, reqs, k, FreshTable(dev, reqs, k));
            if Placeable(dev, reqs, k)
            then var rest := PassFrom(dev, reqs, k + 1, FreshTable(dev, reqs, k + 1));
                 p.outcome == rest.outcome && p.table == rest.table
            else p.outcome == (if Fits(dev, reqs, k) then CreateRefused else Crashed)
                 && p.table == FreshTable(dev, reqs, k)
  {
    FreshRound(dev, reqs, k);
  }

  /** The pass stops at request j, the first that cannot be placed. */
  ghost predicate StopsAt(dev: Device, reqs: seq<PartRequest>, j: nat, p: Run)
    requires dev.Valid() && j < |reqs|
  {
    && PlaceableBelow(dev, reqs, j) && !Placeable(dev, reqs, j)
    && p.table == FreshTable(dev, reqs, j)
    && p.outcome == if Fits(dev, reqs, j) then CreateRefused else Crashed
  }

  /** How a fresh layout ends: in closed form, or at the first request that cannot be placed. */
  lemma {:induction false} FreshPassFrom(dev: Device, reqs: seq<PartRequest>, k: nat)
    requires dev.Valid() && IdentitySnap(dev)
    requires k <= |reqs| && PlaceableBelow(dev, reqs, k)
    ensures var p := PassFrom(dev, reqs, k, FreshTable(dev, reqs, k));
            if PlaceableBelow(dev, reqs, |reqs|)
            then p.outcome == Succeeded && p.table == FreshTable(dev, reqs, |reqs|)
            else exists j: nat :: k <= j < |reqs| && StopsAt(dev, reqs, j, p)
    decreases |reqs| - k
  {
    hide IdentitySnap, FreshTable, Placeable, Fits, Round;
    var p := PassFrom(dev, reqs, k, FreshTable(dev, reqs, k));
    if k == |reqs| {
    } else if Placeable(dev, reqs, k) {
      FreshPassStep(dev, reqs, k);
      assert PlaceableBelow(dev, reqs, k + 1);
      FreshPassFrom(dev, reqs, k + 1);
      if !PlaceableBelow(dev, reqs, |reqs|) {
        var rest := PassFrom(dev, reqs, k + 1, FreshTable(dev, reqs, k + 1));
        var j: nat :| k + 1 <= j < |reqs| && StopsAt(dev, reqs, j, rest);
        assert StopsAt(dev, reqs, j, p);
      }
    } else {
      FreshPassStep(dev, reqs, k);
      assert StopsAt(dev, reqs, k, p);
    }
  }

  /** What the caller can check of request j: it fits, and it does not fill whole grains unless it is the last. */
  ghost predicate FitsBeforeNext(dev: Device, reqs: seq<PartRequest>, j: nat)
    requires dev.Valid() && j < |reqs|
  {
    && reqs[j].fs in dev.knownFs
    && 0 <= Quota(dev, reqs[j]) && StartOf(dev, reqs, j) + Quota(dev, reqs[j]) < dev.sectors
    && (j + 1 < |reqs| ==> Quota(dev, reqs[j]) % GRAIN != 0)
  }

  ghost predicate AllPlaceable(dev: Device, reqs: seq<PartRequest>)
    requires dev.Valid()
  {
    forall j: nat :: j < |reqs| ==> FitsBeforeNext(dev, reqs, j)
  }

  /**
   From an empty table, with no snapping, the pass succeeds if and only if every request fits and no
   request before the last fills whole grains. Then partition j + 1 starts at the grain times one plus
   the grains used before it, and ends its quota later.
   */
  lemma FreshLayoutIff(dev: Device, reqs: seq<PartRequest>)
    requires dev.Valid() && IdentitySnap(dev)
    ensures var p := Pass(dev, reqs, map[]);
            && (p.outcome == Succeeded <==> AllPlaceable(dev, reqs))
            && (p.outcome == Succeeded ==>
                  && Contiguous(p.table, |reqs|)
                  && forall n: nat :: 1 <= n <= |reqs| ==>
                       p.table[n] == Partition(FreshGeometry(dev, reqs, n - 1), reqs[n - 1].fs))
  {
    hide IdentitySnap, Quota, StartOf, PassFrom, Device.Valid;
    FreshPassFrom(dev, reqs, 0);
    assert FreshTable(dev, reqs, 0) == map[];
    if AllPlaceable(dev, reqs) {
      forall j: nat | j < |reqs| ensures Placeable(dev, reqs, j) {
        assert FitsBeforeNext(dev, reqs, j);
        if j > 0 { assert FitsBeforeNext(dev, reqs, j - 1); }
      }
    }
    if PlaceableBelow(dev, reqs, |reqs|) {
      forall j: nat | j < |reqs| ensures FitsBeforeNext(dev, reqs, j) {
        assert Placeable(dev, reqs, j);
        if j + 1 < |reqs| { assert Placeable(dev, reqs, j + 1); }
      }
    }
  }
}
