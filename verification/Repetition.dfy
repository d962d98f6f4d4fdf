/** Requests that name a disk several times (service/maintenance_linux.go): when a second run is free of changes. */
module Repetition {
  import opened Machine
  import opened Options
  import opened Parted
  import opened Reconcile
  import opened Idempotence
  import opened FormatDisks

  /** A partition of exactly the size of one request passes the test of the other. */
  predicate Close(a: PartRequest, b: PartRequest) {
    a.fs == b.fs && Distance(a.size, b.size) <= 2
  }

  predicate Exact(dev: Device, p: Partition, req: PartRequest) {
    p.fs == req.fs && SizeMB(dev, p) == req.size
  }

  predicate Agree(dev: Device, p: Partition, q: Partition) {
    p.fs == q.fs && Distance(SizeMB(dev, p), SizeMB(dev, q)) <= 2
  }

  /** The constraint may move a geometry, but leaves its size in MB alone. */
  ghost predicate SizeKeeping(dev: Device) {
    forall t: Table, g: Geometry, fs: string :: dev.snap(t, g).Some? ==>
      SizeMB(dev, Partition(dev.snap(t, g).value, fs)) == SizeMB(dev, Partition(g, fs))
  }

  lemma BuiltIsExact(dev: Device, p: Partition, req: PartRequest)
    requires dev.Valid() && dev.sectorSize < 1_000_000 && SizeKeeping(dev)
    requires Built(dev, p, req) && Representable(req.size)
    ensures Exact(dev, p, req)
  {
    hide SizeMB;
    var base: Table :| BuiltOn(dev, base, p, req);
    var g := Planned(dev, base, req.size);
    assert p == Partition(dev.snap(base, g).value, req.fs);
    if req.size * 1_000_000 < TWO_63 {
      SizeRoundTrip(dev, base, req);
    } else {
      WrappedIsNotPlanned(dev, base, req.size);
    }
  }

  /** Every request from k on that asks for this number passes on this partition. */
  ghost predicate AllMatch(dev: Device, reqs: seq<DiskRequest>, k: nat, loc: string, n: nat, p: Partition) {
    forall j: nat :: k <= j < |reqs| && reqs[j].location == loc && n < |reqs[j].parts| ==>
      Matches(dev, p, reqs[j].parts[n])
  }

  ghost predicate PlainHardware(hw: Hardware) {
    && hw.Valid()
    && hw.refusing == {}
    && forall l :: l in hw.devices ==> hw.devices[l].sectorSize < 1_000_000 && SizeKeeping(hw.devices[l])
  }

  /** A successful run over plain hardware from a given state. */
  ghost predicate Runs(hw: Hardware, reqs: seq<DiskRequest>, k: nat, disks: Disks) {
    && PlainHardware(hw) && hw.Covers(disks) && DisksInside(hw, disks) && k <= |reqs|
    && AllFrom(hw, reqs, k, disks).result == Done
  }

  /** The table of a disk after the run. */
  ghost function After(hw: Hardware, reqs: seq<DiskRequest>, k: nat, disks: Disks, loc: string): (t: Table)
    requires Runs(hw, reqs, k, disks) && loc in disks
  {
    AllKeep(hw, reqs, k, disks);
    Opened(AllFrom(hw, reqs, k, disks).disks[loc])
  }

  /** The state after one more request. */
  ghost function Step(hw: Hardware, reqs: seq<DiskRequest>, k: nat, disks: Disks): Disks
    requires Runs(hw, reqs, k, disks) && k < |reqs|
  {
    var l := reqs[k].location;
    disks[l := Some(Pass(hw.devices[l], reqs[k].parts, Opened(disks[l])).table)]
  }

  lemma StepRuns(hw: Hardware, reqs: seq<DiskRequest>, k: nat, disks: Disks, loc: string)
    requires Runs(hw, reqs, k, disks) && k < |reqs| && loc in disks
    ensures reqs[k].location in hw.devices
    ensures Runs(hw, reqs, k + 1, Step(hw, reqs, k, disks))
    ensures After(hw, reqs, k, disks, loc) == After(hw, reqs, k + 1, Step(hw, reqs, k, disks), loc)
    ensures Pass(hw.devices[reqs[k].location], reqs[k].parts, Opened(disks[reqs[k].location])).outcome == Succeeded
  {
    var l := reqs[k].location;
    PassKeepsPrefix(hw.devices[l], reqs[k].parts, 0, Opened(disks[l]));
  }

  lemma AfterInside(hw: Hardware, reqs: seq<DiskRequest>, k: nat, disks: Disks, loc: string)
    requires Runs(hw, reqs, k, disks) && loc in disks
    ensures AllInside(hw.devices[loc], After(hw, reqs, k, disks, loc))
  {
    AllKeep(hw, reqs, k, disks);
  }

  /** What one request does to one number of one disk. */
  lemma NumberAt(hw: Hardware, reqs: seq<DiskRequest>, k: nat, disks: Disks, loc: string, n: nat)
    requires Runs(hw, reqs, k, disks) && k < |reqs| && loc in disks
    ensures var t, t', parts := Opened(disks[loc]), Opened(Step(hw, reqs, k, disks)[loc]), reqs[k].parts;
            if reqs[k].location == loc && n < |parts|
            then n + 1 in t' && if n + 1 in t && Matches(hw.devices[loc], t[n + 1], parts[n])
                                then t'[n + 1] == t[n + 1] else Built(hw.devices[loc], t'[n + 1], parts[n])
            else (n + 1 in t' <==> n + 1 in t) && (n + 1 in t ==> t'[n + 1] == t[n + 1])
  {
    StepRuns(hw, reqs, k, disks, loc);
    if reqs[k].location == loc {
      PassAt(hw.devices[loc], reqs[k].parts, 0, Opened(disks[loc]), n);
    }
  }

  /**
   The fate of an existing partition: it is kept if every later request passes on it; and whatever stands there in
   the end, if that passes every later request and agrees with it, is the same partition.
   */
  lemma {:induction false} Fate(hw: Hardware, reqs: seq<DiskRequest>, k: nat, disks: Disks, loc: string, n: nat)
    requires Runs(hw, reqs, k, disks) && loc in disks && n + 1 in Opened(disks[loc])
    ensures n + 1 in After(hw, reqs, k, disks, loc)
    ensures var p, q := Opened(disks[loc])[n + 1], After(hw, reqs, k, disks, loc)[n + 1];
            && (AllMatch(hw.devices[loc], reqs, k, loc, n, p) ==> q == p)
            && (AllMatch(hw.devices[loc], reqs, k, loc, n, q) && Agree(hw.devices[loc], p, q) ==> q == p)
    decreases |reqs| - k
  {
    if k < |reqs| {
      var dev, p := hw.devices[loc], Opened(disks[loc])[n + 1];
      StepRuns(hw, reqs, k, disks, loc);
      NumberAt(hw, reqs, k, disks, loc, n);
      AfterInside(hw, reqs, k, disks, loc);
      hide SizeMB, After, Step, Built, SizeKeeping;
      var disks' := Step(hw, reqs, k, disks);
      Fate(hw, reqs, k + 1, disks', loc, n);
      var q := After(hw, reqs, k, disks, loc)[n + 1];
      if reqs[k].location == loc && n < |reqs[k].parts| && !Matches(dev, p, reqs[k].parts[n]) {
        if AllMatch(dev, reqs, k, loc, n, q) {
          Rebuilt(dev, Opened(disks'[loc])[n + 1], q, reqs[k].parts[n]);
        }
      }
    }
  }

  /** A partition built for a request agrees with every partition that passes the same request. */
  lemma Rebuilt(dev: Device, p: Partition, q: Partition, req: PartRequest)
    requires dev.Valid() && dev.sectorSize < 1_000_000 && SizeKeeping(dev)
    requires Built(dev, p, req) && dev.Inside(q.geom) && Matches(dev, q, req)
    ensures Exact(dev, p, req) && Agree(dev, p, q) && Representable(req.size)
  {
    MatchIsRepresentable(dev, q, req);
    BuiltIsExact(dev, p, req);
  }

  /** Request i asks for partition n + 1 of this disk. */
  predicate AsksFor(reqs: seq<DiskRequest>, i: nat, loc: string, n: nat) {
    i < |reqs| && reqs[i].location == loc && n < |reqs[i].parts|
  }

  /** The requests for the same partition from k on are close to request i. */
  ghost predicate CloseFrom(reqs: seq<DiskRequest>, k: nat, i: nat, loc: string, n: nat)
    requires AsksFor(reqs, i, loc, n)
  {
    forall j: nat :: k <= j && AsksFor(reqs, j, loc, n) ==> Close(reqs[i].parts[n], reqs[j].parts[n])
  }

  predicate Passes(dev: Device, t: Table, n: nat, req: PartRequest) {
    n + 1 in t && Matches(dev, t[n + 1], req)
  }

  /** Request i is the first from k on that the partition in the table does not pass; a missing one passes none. */
  ghost predicate FailsFirst(dev: Device, reqs: seq<DiskRequest>, k: nat, loc: string, n: nat, t: Table, i: nat) {
    && k <= i && AsksFor(reqs, i, loc, n) && !Passes(dev, t, n, reqs[i].parts[n])
    && forall h: nat :: k <= h < i && AsksFor(reqs, h, loc, n) ==> Passes(dev, t, n, reqs[h].parts[n])
  }

  lemma MatchOfExact(dev: Device, p: Partition, a: PartRequest, b: PartRequest)
    requires Exact(dev, p, a)
    ensures Matches(dev, p, b) <==> Close(a, b)
  {
  }

  /**
   The partition that replaces a missing or failing one passes its own and all later requests in the end if and only
   if its request is representable and the later ones are close to it; then it has the exact size of its request,
   since one recreated later would have the size of a later request.
   */
  lemma {:induction false} ReplacedIff(hw: Hardware, reqs: seq<DiskRequest>, k: nat, disks: Disks, loc: string,
                                       n: nat, i: nat)
    requires Runs(hw, reqs, k, disks) && loc in disks
    requires FailsFirst(hw.devices[loc], reqs, k, loc, n, Opened(disks[loc]), i)
    ensures n + 1 in After(hw, reqs, k, disks, loc)
    ensures var q, req := After(hw, reqs, k, disks, loc)[n + 1], reqs[i].parts[n];
            && (AllMatch(hw.devices[loc], reqs, i, loc, n, q)
                <==> Representable(req.size) && CloseFrom(reqs, i, i, loc, n))
            && (AllMatch(hw.devices[loc], reqs, i, loc, n, q) ==> Exact(hw.devices[loc], q, req))
    decreases |reqs| - k
  {
    hide Matches, SizeMB, SizeKeeping, AllFrom, CloseFrom, AllMatch, Step, After, Pass, Built, Exact;
    StepRuns(hw, reqs, k, disks, loc);
    NumberAt(hw, reqs, k, disks, loc, n);
    if k < i {
      ReplacedIff(hw, reqs, k + 1, Step(hw, reqs, k, disks), loc, n, i);
    } else {
      var disks' := Step(hw, reqs, k, disks);
      Fate(hw, reqs, k + 1, disks', loc, n);
      AfterInside(hw, reqs, k, disks, loc);
      NewlyBuilt(hw.devices[loc], reqs, i, loc, n, Opened(disks'[loc])[n + 1], After(hw, reqs, k, disks, loc)[n + 1]);
    }
  }

  lemma NewlyBuilt(dev: Device, reqs: seq<DiskRequest>, i: nat, loc: string, n: nat, p: Partition, q: Partition)
    requires dev.Valid() && dev.sectorSize < 1_000_000 && SizeKeeping(dev)
    requires AsksFor(reqs, i, loc, n) && Built(dev, p, reqs[i].parts[n]) && dev.Inside(q.geom)
    requires AllMatch(dev, reqs, i + 1, loc, n, p) ==> q == p
    requires AllMatch(dev, reqs, i + 1, loc, n, q) && Agree(dev, p, q) ==> q == p
    ensures AllMatch(dev, reqs, i, loc, n, q)
            <==> Representable(reqs[i].parts[n].size) && CloseFrom(reqs, i, i, loc, n)
    ensures AllMatch(dev, reqs, i, loc, n, q) ==> Exact(dev, q, reqs[i].parts[n])
  {
    var first := reqs[i].parts[n];
    if Representable(first.size) && CloseFrom(reqs, i, i, loc, n) {
      BuiltIsExact(dev, p, first);
      ExactMatchesAll(dev, reqs, i, i, loc, n, p);
    }
    if AllMatch(dev, reqs, i, loc, n, q) {
      Rebuilt(dev, p, q, first);
      ExactMatchesAll(dev, reqs, i, i, loc, n, p);
    }
  }

  /** A partition of exactly the size of request i passes the requests close to it. */
  lemma ExactMatchesAll(dev: Device, reqs: seq<DiskRequest>, k: nat, i: nat, loc: string, n: nat, p: Partition)
    requires AsksFor(reqs, i, loc, n) && Exact(dev, p, reqs[i].parts[n])
    ensures AllMatch(dev, reqs, k, loc, n, p) <==> CloseFrom(reqs, k, i, loc, n)
  {
    hide Matches, Close, Exact;
    forall j: nat | k <= j && AsksFor(reqs, j, loc, n)
      ensures Matches(dev, p, reqs[j].parts[n]) <==> Close(reqs[i].parts[n], reqs[j].parts[n])
    {
      MatchOfExact(dev, p, reqs[i].parts[n], reqs[j].parts[n]);
    }
  }

  // ---------------------------------------------------------------- the whole request

  /**
   Wherever a disk fails a request for one of its partitions, all requests for that partition are close to the first
   one that it fails.
   */
  ghost predicate Compatible(hw: Hardware, reqs: seq<DiskRequest>, disks: Disks)
    requires hw.Covers(disks)
  {
    forall loc: string, n: nat, i: nat ::
      loc in disks && FailsFirst(hw.devices[loc], reqs, 0, loc, n, Opened(disks[loc]), i) ==>
        CloseFrom(reqs, 0, i, loc, n)
  }

  lemma {:induction false} FindFailing(dev: Device, reqs: seq<DiskRequest>, loc: string, n: nat, t: Table, m: nat)
      returns (failing: Option<nat>)
    requires m <= |reqs|
    ensures failing.Some? ==> failing.value < m && FailsFirst(dev, reqs, 0, loc, n, t, failing.value)
    ensures failing.None? ==> forall h: nat :: h < m && AsksFor(reqs, h, loc, n) ==> Passes(dev, t, n, reqs[h].parts[n])
  {
    hide Passes;
    if m == 0 {
      failing := None;
    } else {
      failing := FindFailing(dev, reqs, loc, n, t, m - 1);
      if failing.None? && AsksFor(reqs, m - 1, loc, n) && !Passes(dev, t, n, reqs[m - 1].parts[n]) {
        failing := Some(m - 1);
      }
    }
  }

  /** A successful run found every disk it was asked for. */
  lemma {:induction false} AllFound(hw: Hardware, reqs: seq<DiskRequest>, k: nat, disks: Disks, j: nat)
    requires Runs(hw, reqs, k, disks) && k <= j < |reqs|
    ensures reqs[j].location in disks
    decreases |reqs| - k
  {
    var l := reqs[k].location;
    StepRuns(hw, reqs, k, disks, l);
    if k < j {
      AllFound(hw, reqs, k + 1, Step(hw, reqs, k, disks), j);
    }
  }

  lemma SettledSizes(hw: Hardware, reqs: seq<DiskRequest>, disks: Disks)
    requires hw.Valid() && hw.Covers(disks) && DisksInside(hw, disks)
    requires forall j: nat :: j < |reqs| ==> DiskSettled(hw, reqs, j, disks)
    ensures SizesFrom(reqs, 0)
  {
    hide Settled, AllRepresentable;
    forall j: nat | j < |reqs| ensures AllRepresentable(reqs[j].parts) {
      assert DiskSettled(hw, reqs, j, disks);
      var loc := reqs[j].location;
      SettledIsRepresentable(hw.devices[loc], reqs[j].parts, Opened(disks[loc]));
    }
  }

  lemma SettledMatchAll(hw: Hardware, reqs: seq<DiskRequest>, disks: Disks, loc: string, n: nat)
    requires Runs(hw, reqs, 0, disks) && loc in disks && n + 1 in After(hw, reqs, 0, disks, loc)
    requires forall j: nat :: j < |reqs| ==> DiskSettled(hw, reqs, j, AllFrom(hw, reqs, 0, disks).disks)
    ensures AllMatch(hw.devices[loc], reqs, 0, loc, n, After(hw, reqs, 0, disks, loc)[n + 1])
  {
    hide Matches, AllFrom, SizeKeeping;
    AllKeep(hw, reqs, 0, disks);
    forall j: nat | AsksFor(reqs, j, loc, n)
      ensures Matches(hw.devices[loc], After(hw, reqs, 0, disks, loc)[n + 1], reqs[j].parts[n])
    {
      assert DiskSettled(hw, reqs, j, AllFrom(hw, reqs, 0, disks).disks);
      assert SettledAt(hw.devices[loc], reqs[j].parts, n, After(hw, reqs, 0, disks, loc));
    }
  }

  lemma SettledGivesCompatible(hw: Hardware, reqs: seq<DiskRequest>, disks: Disks)
    requires Runs(hw, reqs, 0, disks)
    requires forall j: nat :: j < |reqs| ==> DiskSettled(hw, reqs, j, AllFrom(hw, reqs, 0, disks).disks)
    ensures SizesFrom(reqs, 0) && Compatible(hw, reqs, disks)
  {
    hide Matches, Representable, CloseFrom, SizeKeeping, Exact, Passes;
    AllKeep(hw, reqs, 0, disks);
    SettledSizes(hw, reqs, AllFrom(hw, reqs, 0, disks).disks);
    hide AllFrom, SizesFrom, Settled, DiskSettled;
    forall loc: string, n: nat, i: nat
      | loc in disks && FailsFirst(hw.devices[loc], reqs, 0, loc, n, Opened(disks[loc]), i)
      ensures CloseFrom(reqs, 0, i, loc, n)
    {
      ReplacedIff(hw, reqs, 0, disks, loc, n, i);
      SettledMatchAll(hw, reqs, disks, loc, n);
      ExactMatchesAll(hw.devices[loc], reqs, 0, i, loc, n, After(hw, reqs, 0, disks, loc)[n + 1]);
    }
  }

  /** A partition in the end passes every request for it, whether it was kept or replaced. */
  lemma CompatibleNumber(hw: Hardware, reqs: seq<DiskRequest>, disks: Disks, loc: string, n: nat, j: nat)
    requires Runs(hw, reqs, 0, disks) && loc in disks && AsksFor(reqs, j, loc, n)
    requires SizesFrom(reqs, 0) && Compatible(hw, reqs, disks)
    ensures Passes(hw.devices[loc], After(hw, reqs, 0, disks, loc), n, reqs[j].parts[n])
  {
    hide Matches, SizeKeeping, Exact, AllFrom, Representable, Close, SizeMB;
    var dev, t := hw.devices[loc], Opened(disks[loc]);
    var failing := FindFailing(dev, reqs, loc, n, t, |reqs|);
    if failing.None? {
      assert Passes(dev, t, n, reqs[j].parts[n]);
      Fate(hw, reqs, 0, disks, loc, n);
      assert AllMatch(dev, reqs, 0, loc, n, t[n + 1]);
    } else {
      var i := failing.value;
      ReplacedIff(hw, reqs, 0, disks, loc, n, i);
      assert AllRepresentable(reqs[i].parts);
      var q := After(hw, reqs, 0, disks, loc)[n + 1];
      assert CloseFrom(reqs, i, i, loc, n);
      ExactMatchesAll(dev, reqs, 0, i, loc, n, q);
    }
  }

  lemma CompatibleGivesSettled(hw: Hardware, reqs: seq<DiskRequest>, disks: Disks, j: nat)
    requires Runs(hw, reqs, 0, disks) && j < |reqs|
    requires SizesFrom(reqs, 0) && Compatible(hw, reqs, disks)
    ensures DiskSettled(hw, reqs, j, AllFrom(hw, reqs, 0, disks).disks)
  {
    hide Matches, SizeKeeping, Compatible, SizesFrom;
    var loc, parts := reqs[j].location, reqs[j].parts;
    AllFound(hw, reqs, 0, disks, j);
    AllKeep(hw, reqs, 0, disks);
    var t := After(hw, reqs, 0, disks, loc);
    forall n: nat | n < |parts| ensures SettledAt(hw.devices[loc], parts, n, t) {
      CompatibleNumber(hw, reqs, disks, loc, n, j);
    }
  }

  /**
   Running a successful request again changes nothing if and only if every size is representable and, wherever the
   disks failed a request for some partition to begin with, all requests for that partition have the file system
   and, within 2 MB, the size of the first one they failed. The constraint keeps sizes; the disks are arbitrary.
   */
  lemma RepeatedIdempotentIff(hw: Hardware, reqs: seq<DiskRequest>, disks: Disks)
    requires Runs(hw, reqs, 0, disks)
    ensures var after := AllFrom(hw, reqs, 0, disks).disks;
            hw.Covers(after) &&
            (AllFrom(hw, reqs, 0, after) == AllRun(Done, after, [])
             <==> SizesFrom(reqs, 0) && Compatible(hw, reqs, disks))
  {
    var after := AllFrom(hw, reqs, 0, disks).disks;
    AllKeep(hw, reqs, 0, disks);
    RunLabels(hw, reqs, 0, disks);
    hide AllFrom, Compatible, SizesFrom, Opened, DiskSettled;
    AllQuietIff(hw, reqs, 0, after);
    if forall j: nat :: j < |reqs| ==> DiskSettled(hw, reqs, j, after) {
      SettledGivesCompatible(hw, reqs, disks);
    }
    if SizesFrom(reqs, 0) && Compatible(hw, reqs, disks) {
      forall j: nat | j < |reqs| ensures DiskSettled(hw, reqs, j, after) {
        CompatibleGivesSettled(hw, reqs, disks, j);
      }
    }
  }

  lemma {:induction false} RunLabels(hw: Hardware, reqs: seq<DiskRequest>, k: nat, disks: Disks)
    requires Runs(hw, reqs, k, disks)
    ensures AllLabelled(reqs, k, AllFrom(hw, reqs, k, disks).disks)
    decreases |reqs| - k
  {
    if k < |reqs| {
      StepRuns(hw, reqs, k, disks, reqs[k].location);
      AllKeep(hw, reqs, k + 1, Step(hw, reqs, k, disks));
      RunLabels(hw, reqs, k + 1, Step(hw, reqs, k, disks));
    }
  }
}
