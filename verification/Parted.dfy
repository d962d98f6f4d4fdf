/**
 The partition table that tools/parted/parted_linux.go drives through libparted.

 Assumptions about libparted, stated once here: numbers are stable under deletion; a new partition
 takes the smallest free number; a geometry that leaves the device cannot be built; and an addition
 that would overlap an existing partition is refused. The alignment constraint is the arbitrary
 function `snap`, which may move the requested geometry or refuse it.
 */
module Parted {
  import opened Machine
  import opened GcdLcm
  import opened Options

  type uint64 = x: int | 0 <= x < TWO_64

  datatype Geometry = Geometry(start: int, end: int) {
    /** The end sector belongs to the partition. */
    function Length(): int { end - start + 1 }

    predicate Meets(other: Geometry) {
      start <= other.end && other.start <= end
    }
  }

  datatype Partition = Partition(geom: Geometry, fs: string)

  type Table = map<nat, Partition>

  datatype Device = Device(sectorSize: int, sectors: int, knownFs: set<string>,
                           snap: (Table, Geometry) -> Option<Geometry>)
  {
    /** The capacity in bytes fits a signed 64-bit integer. */
    predicate Valid() {
      && 0 < sectorSize
      && 0 < sectors
      && sectors * sectorSize < TWO_63
    }

    predicate Inside(g: Geometry) {
      0 <= g.start <= g.end < sectors
    }
  }

  /** A requested partition: file system type and size in millions of bytes. */
  datatype PartRequest = PartRequest(fs: string, size: uint64)

  datatype Made = Added | Refused | Panicked

  /** Calls that change the table, in the order they are issued. */
  datatype Op = Remove(number: nat) | Create(request: PartRequest)

  ghost predicate AllInside(dev: Device, t: Table) {
    forall n :: n in t ==> dev.Inside(t[n].geom)
  }

  predicate Overlaps(t: Table, g: Geometry) {
    exists n | n in t :: t[n].geom.Meets(g)
  }

  /** The smallest number from n on that is not used. */
  function FreeFrom(t: Table, n: nat): (r: nat)
    ensures n <= r && r !in t
    ensures forall m :: n <= m < r ==> m in t
    decreases |t|
  {
    if n !in t then n
    else
      var rest := t - {n};
      assert rest.Keys == t.Keys - {n};
      var r := FreeFrom(rest, n + 1);
      assert forall m :: n <= m < r ==> m in t by {
        forall m: nat | n <= m < r ensures m in t {
          assert m != n ==> m in rest;
        }
      }
      r
  }

  function SizeMB(dev: Device, p: Partition): int {
    ToUint64(ToInt64(p.geom.Length() * dev.sectorSize)) / 1000 / 1000
  }

  /** The end of the partition whose number is the partition count, zero if there is none. */
  function LastEnd(t: Table): int {
    if |t| > 0 && |t| in t then t[|t|].geom.end else 0
  }

  function AlignedStart(end: int): int {
    ToInt64((TruncDiv(end - 1, GRAIN) + 1) * GRAIN)
  }

  /** The number of sectors added to the start to get the end. */
  function Extent(dev: Device, size: uint64): int
    requires dev.Valid()
  {
    TruncDiv(ToInt64(ToUint64(size * 1000 * 1000)), dev.sectorSize)
  }

  function Planned(dev: Device, t: Table, size: uint64): Geometry
    requires dev.Valid()
  {
    var start := AlignedStart(LastEnd(t));
    Geometry(start, ToInt64(start + Extent(dev, size)))
  }

  function AddPartition(dev: Device, t: Table, g: Geometry, fs: string): (Made, Table) {
    match dev.snap(t, g)
    case None => (Refused, t)
    case Some(s) =>
      if !dev.Inside(s) || Overlaps(t, s) then (Refused, t)
      else (Added, t[FreeFrom(t, 1) := Partition(s, fs)])
  }

  /** What MkPart does to the table. */
  function Make(dev: Device, t: Table, req: PartRequest): (Made, Table)
    requires dev.Valid()
  {
    var g := Planned(dev, t, req.size);
    if req.fs !in dev.knownFs || !dev.Inside(g) then (Panicked, t)
    else AddPartition(dev, t, g, req.fs)
  }

  /**
   How a creation ends: a panic on an unknown type or a geometry off the device, else an addition under the smallest
   free number exactly when the constraint accepts it on the device and clear of every partition.
   */
  lemma MakeOutcome(dev: Device, t: Table, req: PartRequest)
    requires dev.Valid()
    ensures var g, (made, t') := Planned(dev, t, req.size), Make(dev, t, req);
            && (made == Panicked <==>
                  req.fs !in dev.knownFs || g.start < 0 || g.end < g.start || g.end >= dev.sectors)
            && (made == Added <==>
                  && made != Panicked && dev.snap(t, g).Some?
                  && var s := dev.snap(t, g).value;
                     && 0 <= s.start <= s.end < dev.sectors
                     && forall n :: n in t ==> t[n].geom.end < s.start || s.end < t[n].geom.start)
            && (made != Added ==> t' == t)
            && (made == Added ==>
                  exists n: nat ::
                    && n >= 1 && n !in t && (forall m: nat :: 1 <= m < n ==> m in t)
                    && t' == t[n := Partition(dev.snap(t, g).value, req.fs)])
  {
    var g := Planned(dev, t, req.size);
    hide Planned;
    if Make(dev, t, req).0 == Added {
      var n := FreeFrom(t, 1);
      assert n >= 1 && n !in t && (forall m: nat :: 1 <= m < n ==> m in t)
          && Make(dev, t, req).1 == t[n := Partition(dev.snap(t, g).value, req.fs)];
    }
  }

  /**
   Where the planner starts: behind the end of the partition whose number is the count of partitions, and at the
   first grain if that number is missing; partitions with higher numbers are not looked at.
   */
  lemma PlannedStart(dev: Device, t: Table, size: uint64)
    requires dev.Valid() && (|t| in t ==> 0 <= t[|t|].geom.end < TWO_63 - 34816)
    ensures var start := Planned(dev, t, size).start;
            && start > 0 && start % 34816 == 0
            && (|t| > 0 && |t| in t ==>
                  && t[|t|].geom.end <= start
                  && forall m: int :: 0 < m && m % 34816 == 0 && t[|t|].geom.end <= m ==> start <= m)
            && (|t| == 0 || |t| !in t ==> start == 34816)
  {
    if |t| > 0 && |t| in t {
      AlignedStartValue(t[|t|].geom.end);
    } else {
      AlignedStartValue(0);
    }
    hide AlignedStart;
  }

  /** The in-memory partition table of one device. */
  class PedDisk {
    const dev: Device
    var table: Table
    var journal: seq<Op>

    constructor (dev: Device, table: Table)
      ensures this.dev == dev && this.table == table && journal == []
    {
      this.dev := dev;
      this.table := table;
      this.journal := [];
    }

    function GetPartitionCount(): nat
      reads this
    {
      |table|
    }

    function GetPartition(n: nat): Option<Partition>
      reads this
    {
      if n in table then Some(table[n]) else None
    }

    method RmPart(n: nat) returns (ok: bool)
      modifies this
      ensures ok == (n in old(table))
      ensures table == old(table) - {n}
      ensures journal == old(journal) + [Remove(n)]
    {
      journal := journal + [Remove(n)];
      var part := GetPartition(n);
      if part.None? {
        assert table - {n} == table;
        return false;
      }
      table := table - {n};
      return true;
    }

    method MkPart(req: PartRequest) returns (made: Made)
      requires dev.Valid()
      modifies this
      ensures (made, table) == Make(dev, old(table), req)
      ensures journal == old(journal) + [Create(req)]
    {
      hide Gcd, Lcm, Euclid, FoldResult, PairResult, LcmAll, LcmDefined, Divides, DividesAll, FreeFrom;
      journal := journal + [Create(req)];
      var start := 0;
      var lastPartNum := GetPartitionCount();
      if lastPartNum > 0 {
        var lastPart := GetPartition(lastPartNum);
        if lastPart.Some? {
          start := lastPart.value.geom.end;
        }
      }
      var ok, lcm := LCM(34, 2048, []);
      GrainIsLcm();
      assert [34, 2048] + [] == [34, 2048];
      start := ToInt64((TruncDiv(start - 1, lcm) + 1) * lcm);
      var end := ToInt64(start + TruncDiv(ToInt64(ToUint64(req.size * 1000 * 1000)), dev.sectorSize));
      if req.fs !in dev.knownFs || !dev.Inside(Geometry(start, end)) {
        return Panicked;
      }
      var added := AddPartition(dev, table, Geometry(start, end), req.fs);
      table := added.1;
      return added.0;
    }
  }

  /** The aligned start is the least positive multiple of the grain that is not below the previous end. */
  lemma AlignedStartIsLeast(e: int)
    requires 0 <= e
    requires e < TWO_63 - GRAIN
    ensures var s := AlignedStart(e);
            && s > 0 && s % GRAIN == 0 && e <= s
            && forall m: int :: 0 < m && m % GRAIN == 0 && e <= m ==> s <= m
  {
    AlignedStartValue(e);
  }

  /** The unwrapped value of the aligned start. */
  function Ceiling(x: int): int { (x + GRAIN - 1) / GRAIN }

  lemma AlignedStartValue(e: int)
    requires 0 <= e < TWO_63
    ensures var a := (if e == 0 then 1 else Ceiling(e)) * GRAIN;
            && a > 0 && a % GRAIN == 0 && e <= a < e + GRAIN + 1
            && (a == e <==> e > 0 && e % GRAIN == 0)
            && (forall m: int :: 0 < m && m % GRAIN == 0 && e <= m ==> a <= m)
            && AlignedStart(e) == if a < TWO_63 then a else a - TWO_64
  {
  }

  /**
   The new start lies strictly after the previous partition exactly when that partition does not end
   on a positive multiple of the grain, and then fewer than a grain of sectors stay unused.
   */
  lemma StartClearsPrevious(e: int)
    requires 0 <= e < TWO_63 - GRAIN
    ensures AlignedStart(e) > e <==> !(e > 0 && e % GRAIN == 0)
    ensures AlignedStart(e) - e - 1 < GRAIN
    ensures e % 2048 == 2047 ==> AlignedStart(e) > e
  {
    AlignedStartValue(e);
    GrainHoldsBlocks(e);
  }

  lemma GrainHoldsBlocks(e: int)
    ensures e % GRAIN == 0 ==> e % 2048 == 0
  {
    if e % GRAIN == 0 {
      assert e == 2048 * (17 * (e / GRAIN));
    }
  }
}
