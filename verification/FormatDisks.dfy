/** The partitioning phase of FormatDisks over all requested disks (service/maintenance_linux.go). */
module FormatDisks {
  import opened Options
  import opened Parted
  import opened Reconcile
  import opened Idempotence

  datatype DiskRequest = DiskRequest(location: string, parts: seq<PartRequest>)

  /** A disk without a partition table reads as None; a committed one reads back with the requested types. */
  type Disks = map<string, Option<Table>>

  /** The devices of the host and the disks whose commit is refused. */
  datatype Hardware = Hardware(devices: map<string, Device>, refusing: set<string>) {
    ghost predicate Valid() {
      forall l :: l in devices ==> devices[l].Valid()
    }

    ghost predicate Covers(disks: Disks) {
      disks.Keys == devices.Keys
    }
  }

  datatype Result = Done | NotFound | Failed(outcome: Outcome) | CommitFailed

  datatype AllRun = AllRun(result: Result, disks: Disks, journal: seq<(string, Op)>)

  function Tagged(location: string, ops: seq<Op>): seq<(string, Op)> {
    seq(|ops|, i requires 0 <= i < |ops| => (location, ops[i]))
  }

  /** The table a pass starts from: a missing one is replaced by a fresh label. */
  function Opened(disk: Option<Table>): Table {
    if disk.Some? then disk.value else map[]
  }

  /** The disks from request k on. A pass works on a copy that only a commit writes back. */
  function AllFrom(hw: Hardware, reqs: seq<DiskRequest>, k: nat, disks: Disks): AllRun
    requires hw.Valid() && hw.Covers(disks) && k <= |reqs|
    decreases |reqs| - k
  {
    if k == |reqs| then AllRun(Done, disks, [])
    else
      var loc := reqs[k].location;
      if loc !in hw.devices then AllRun(NotFound, disks, [])
      else
        var p := Pass(hw.devices[loc], reqs[k].parts, Opened(disks[loc]));
        if p.outcome != Succeeded then AllRun(Failed(p.outcome), disks, Tagged(loc, p.journal))
        else if loc in hw.refusing then AllRun(CommitFailed, disks, Tagged(loc, p.journal))
        else
          var rest := AllFrom(hw, reqs, k + 1, disks[loc := Some(p.table)]);
          AllRun(rest.result, rest.disks, Tagged(loc, p.journal) + rest.journal)
  }

  class Host {
    const hw: Hardware
    var disks: Disks
    var journal: seq<(string, Op)>

    ghost predicate Valid()
      reads this
    {
      hw.Valid() && hw.Covers(disks)
    }

    constructor (hw: Hardware, disks: Disks)
      requires hw.Valid() && hw.Covers(disks)
      ensures this.hw == hw && this.disks == disks && journal == [] && Valid()
    {
      this.hw := hw;
      this.disks := disks;
      this.journal := [];
    }

    method FormatDisks(reqs: seq<DiskRequest>) returns (result: Result)
      requires Valid()
      modifies this
      ensures Valid()
      ensures var a := AllFrom(hw, reqs, 0, old(disks));
              result == a.result && disks == a.disks && journal == old(journal) + a.journal
    {
      ghost var journal0 := journal;
      ghost var whole := AllFrom(hw, reqs, 0, disks);
      var k := 0;
      while k < |reqs|
        invariant 0 <= k <= |reqs| && Valid()
        invariant AllFrom(hw, reqs, k, disks).result == whole.result
        invariant AllFrom(hw, reqs, k, disks).disks == whole.disks
        invariant journal + AllFrom(hw, reqs, k, disks).journal == journal0 + whole.journal
      {
        var loc := reqs[k].location;
        if loc !in hw.devices {
          return NotFound;
        }
        var dev := hw.devices[loc];
        ghost var p := Pass(dev, reqs[k].parts, Opened(disks[loc]));
        ghost var rest := if p.outcome == Succeeded
                          then AllFrom(hw, reqs, k + 1, disks[loc := Some(p.table)]).journal else [];
        Associate(journal, Tagged(loc, p.journal), rest);
        var pDisk := new PedDisk(dev, Opened(disks[loc]));
        var outcome := ReconcileDisk(pDisk, reqs[k].parts);
        assert pDisk.journal == p.journal;
        journal := journal + Tagged(loc, pDisk.journal);
        if outcome != Succeeded {
          return Failed(outcome);
        }
        if loc in hw.refusing {
          return CommitFailed;
        }
        disks := disks[loc := Some(pDisk.table)];
        k := k + 1;
      }
      result := Done;
    }
  }

  /** The calls of one request on these disks; a disk that does not exist is issued none. */
  function Issued(hw: Hardware, r: DiskRequest, disks: Disks): seq<(string, Op)>
    requires hw.Valid()
  {
    if r.location !in hw.devices || r.location !in disks then []
    else Tagged(r.location, Pass(hw.devices[r.location], r.parts, Opened(disks[r.location])).journal)
  }

  /**
   A request that fails has committed exactly the disks before the failing one: the state is that of a
   successful run of a proper prefix of the request, and its calls are followed by those of the failing one.
   */
  lemma {:induction false} FailureCommitsPrefix(hw: Hardware, reqs: seq<DiskRequest>, k: nat, disks: Disks)
      returns (m: nat)
    requires hw.Valid() && hw.Covers(disks) && k <= |reqs|
    requires AllFrom(hw, reqs, k, disks).result != Done
    ensures k <= m < |reqs|
    ensures AllFrom(hw, reqs[..m], k, disks).result == Done
    ensures AllFrom(hw, reqs[..m], k, disks).disks == AllFrom(hw, reqs, k, disks).disks
    ensures AllFrom(hw, reqs, k, disks).journal
            == AllFrom(hw, reqs[..m], k, disks).journal + Issued(hw, reqs[m], AllFrom(hw, reqs, k, disks).disks)
    decreases |reqs| - k
  {
    hide Pass, Tagged;
    m := k;
    var loc := reqs[k].location;
    if loc in hw.devices && loc !in hw.refusing {
      var p := Pass(hw.devices[loc], reqs[k].parts, Opened(disks[loc]));
      if p.outcome == Succeeded {
        m := FailureCommitsPrefix(hw, reqs, k + 1, disks[loc := Some(p.table)]);
        assert reqs[..m][k] == reqs[k];
      }
    }
  }

  /** A successful run found every disk it was asked for and committed it. */
  lemma {:induction false} DoneMeans(hw: Hardware, reqs: seq<DiskRequest>, k: nat, disks: Disks)
    requires hw.Valid() && hw.Covers(disks) && k <= |reqs| && AllFrom(hw, reqs, k, disks).result == Done
    ensures forall j: nat :: k <= j < |reqs| ==> reqs[j].location in hw.devices && reqs[j].location !in hw.refusing
    decreases |reqs| - k
  {
    hide Pass, Opened, Tagged;
    if k < |reqs| {
      var l := reqs[k].location;
      DoneMeans(hw, reqs, k + 1, disks[l := Some(Pass(hw.devices[l], reqs[k].parts, Opened(disks[l])).table)]);
    }
  }

  /** A disk whose commit is refused keeps what it held, however the run ends. */
  lemma {:induction false} RefusingKeeps(hw: Hardware, reqs: seq<DiskRequest>, k: nat, disks: Disks, loc: string)
    requires hw.Valid() && hw.Covers(disks) && k <= |reqs| && loc in disks && loc in hw.refusing
    ensures var after := AllFrom(hw, reqs, k, disks).disks; loc in after && after[loc] == disks[loc]
    decreases |reqs| - k
  {
    if k < |reqs| && reqs[k].location in hw.devices {
      var l := reqs[k].location;
      var p := Pass(hw.devices[l], reqs[k].parts, Opened(disks[l]));
      if p.outcome == Succeeded && l != loc {
        if l !in hw.refusing {
          RefusingKeeps(hw, reqs, k + 1, disks[l := Some(p.table)], loc);
        }
      }
    }
  }

  /** Why a request with this index ends the run, on these disks. */
  ghost predicate Causes(hw: Hardware, r: DiskRequest, disks: Disks, result: Result)
    requires hw.Valid() && hw.Covers(disks)
  {
    match result
    case Done => false
    case NotFound => r.location !in hw.devices
    case Failed(o) =>
      && r.location in hw.devices && o != Succeeded
      && Pass(hw.devices[r.location], r.parts, Opened(disks[r.location])).outcome == o
    case CommitFailed =>
      && r.location in hw.devices && r.location in hw.refusing
      && Pass(hw.devices[r.location], r.parts, Opened(disks[r.location])).outcome == Succeeded
  }

  /**
   A run ends early at request m with the given result if and only if the requests before it succeed and m causes
   that result on the disks they leave; and those are the disks in the end.
   */
  lemma {:induction false} EndsAtIff(hw: Hardware, reqs: seq<DiskRequest>, k: nat, disks: Disks, result: Result)
    requires hw.Valid() && hw.Covers(disks) && k <= |reqs| && result != Done
    ensures AllFrom(hw, reqs, k, disks).result == result <==>
            exists m: nat :: k <= m < |reqs| && StopsWith(hw, reqs, k, disks, m, result)
    decreases |reqs| - k
  {
    hide Pass;
    if k < |reqs| {
      var l := reqs[k].location;
      assert AllFrom(hw, reqs[..k], k, disks) == AllRun(Done, disks, []);
      if Commits(hw, reqs[k], disks) {
        var disks' := disks[l := Some(Pass(hw.devices[l], reqs[k].parts, Opened(disks[l])).table)];
        EndsAtIff(hw, reqs, k + 1, disks', result);
        forall m: nat | k < m < |reqs|
          ensures StopsWith(hw, reqs, k, disks, m, result) <==> StopsWith(hw, reqs, k + 1, disks', m, result)
        {
          assert reqs[..m][k] == reqs[k];
        }
        assert !StopsWith(hw, reqs, k, disks, k, result);
        var k1: nat := k + 1;
        if m: nat :| k1 <= m < |reqs| && StopsWith(hw, reqs, k1, disks', m, result) {
          assert StopsWith(hw, reqs, k, disks, m, result);
        }
        if m: nat :| k <= m < |reqs| && StopsWith(hw, reqs, k, disks, m, result) {
          assert StopsWith(hw, reqs, k + 1, disks', m, result);
        }
      } else {
        forall m: nat | k < m < |reqs| ensures !StopsWith(hw, reqs, k, disks, m, result) {
          assert reqs[..m][k] == reqs[k];
        }
        assert StopsWith(hw, reqs, k, disks, k, result) <==> AllFrom(hw, reqs, k, disks).result == result;
      }
    }
  }

  /** The request is carried out and written back. */
  predicate Commits(hw: Hardware, r: DiskRequest, disks: Disks)
    requires hw.Valid() && hw.Covers(disks)
  {
    && r.location in hw.devices && r.location !in hw.refusing
    && Pass(hw.devices[r.location], r.parts, Opened(disks[r.location])).outcome == Succeeded
  }

  ghost predicate StopsWith(hw: Hardware, reqs: seq<DiskRequest>, k: nat, disks: Disks, m: nat, result: Result)
    requires hw.Valid() && hw.Covers(disks) && k <= m < |reqs|
  {
    var before := AllFrom(hw, reqs[..m], k, disks);
    && before.result == Done && hw.Covers(before.disks)
    && AllFrom(hw, reqs, k, disks).disks == before.disks
    && Causes(hw, reqs[m], before.disks, result)
  }

  /** The calls that concern one disk. */
  function OpsAt(journal: seq<(string, Op)>, loc: string): seq<Op> {
    if journal == [] then []
    else (if journal[0].0 == loc then [journal[0].1] else []) + OpsAt(journal[1..], loc)
  }

  lemma {:induction false} OpsAtSplit(a: seq<(string, Op)>, b: seq<(string, Op)>, loc: string)
    ensures OpsAt(a + b, loc) == OpsAt(a, loc) + OpsAt(b, loc)
    decreases |a|
  {
    if a == [] {
      assert a + b == b;
    } else {
      assert (a + b)[1..] == a[1..] + b && (a + b)[0] == a[0];
      OpsAtSplit(a[1..], b, loc);
      var head := if a[0].0 == loc then [a[0].1] else [];
      Associate(head, OpsAt(a[1..], loc), OpsAt(b, loc));
    }
  }

  lemma {:induction false} OpsAtTagged(l: string, ops: seq<Op>, loc: string)
    ensures OpsAt(Tagged(l, ops), loc) == if l == loc then ops else []
    decreases |ops|
  {
    if ops != [] {
      assert Tagged(l, ops)[1..] == Tagged(l, ops[1..]);
      OpsAtTagged(l, ops[1..], loc);
      assert ops == [ops[0]] + ops[1..];
    }
  }

  /** After a successful run every disk holds what the calls issued for it make of what it held. */
  lemma {:induction false} AllReplays(hw: Hardware, reqs: seq<DiskRequest>, k: nat, disks: Disks, loc: string)
    requires hw.Valid() && hw.Covers(disks) && k <= |reqs| && loc in disks
    requires AllFrom(hw, reqs, k, disks).result == Done
    ensures var a := AllFrom(hw, reqs, k, disks);
            loc in a.disks &&
            Opened(a.disks[loc]) == Replay(hw.devices[loc], Opened(disks[loc]), OpsAt(a.journal, loc))
    decreases |reqs| - k
  {
    hide PassFrom, Replay;
    if k == |reqs| {
      ReplayNothing(hw.devices[loc], Opened(disks[loc]));
    } else {
      var l := reqs[k].location;
      var dev, t := hw.devices[l], Opened(disks[l]);
      var p := Pass(dev, reqs[k].parts, t);
      var rest := AllFrom(hw, reqs, k + 1, disks[l := Some(p.table)]);
      AllReplays(hw, reqs, k + 1, disks[l := Some(p.table)], loc);
      OpsAtSplit(Tagged(l, p.journal), rest.journal, loc);
      OpsAtTagged(l, p.journal, loc);
      if l == loc {
        PassReplays(dev, reqs[k].parts, 0, t);
        ReplaySplit(dev, t, p.journal, OpsAt(rest.journal, loc));
      } else {
        assert [] + OpsAt(rest.journal, loc) == OpsAt(rest.journal, loc);
      }
    }
  }

  // ---------------------------------------------------------------- running the same request again

  ghost predicate Asks(reqs: seq<DiskRequest>, k: nat, loc: string) {
    exists j: nat :: k <= j < |reqs| && reqs[j].location == loc
  }

  ghost predicate SameCommon(a: seq<PartRequest>, b: seq<PartRequest>) {
    forall n: nat :: n < |a| && n < |b| ==> a[n] == b[n]
  }

  /** Requests that name the same disk ask for the same partition wherever both ask for one. */
  ghost predicate Agreeing(reqs: seq<DiskRequest>) {
    forall i: nat, j: nat :: i < j < |reqs| && reqs[i].location == reqs[j].location ==>
      SameCommon(reqs[i].parts, reqs[j].parts)
  }

  /** Disks that no remaining request names are left as they are; so is a disk whose pass fails. */
  lemma {:induction false} UntouchedDisks(hw: Hardware, reqs: seq<DiskRequest>, k: nat, disks: Disks, loc: string)
    requires hw.Valid() && hw.Covers(disks) && k <= |reqs|
    requires !Asks(reqs, k, loc) && loc in disks
    ensures loc in AllFrom(hw, reqs, k, disks).disks && AllFrom(hw, reqs, k, disks).disks[loc] == disks[loc]
    decreases |reqs| - k
  {
    if k < |reqs| {
      var l := reqs[k].location;
      assert l != loc;
      if l in hw.devices {
        var p := Pass(hw.devices[l], reqs[k].parts, Opened(disks[l]));
        if p.outcome == Succeeded && l !in hw.refusing {
          assert !Asks(reqs, k + 1, loc);
          UntouchedDisks(hw, reqs, k + 1, disks[l := Some(p.table)], loc);
        }
      }
    }
  }

  /** The request with index k finds every partition it asks for. */
  ghost predicate DiskSettled(hw: Hardware, reqs: seq<DiskRequest>, k: nat, disks: Disks)
    requires k < |reqs|
  {
    var r := reqs[k];
    && r.location in hw.devices && r.location in disks
    && Settled(hw.devices[r.location], r.parts, 0, Opened(disks[r.location]))
  }

  ghost predicate AllLabelled(reqs: seq<DiskRequest>, k: nat, disks: Disks) {
    forall j: nat :: k <= j < |reqs| && reqs[j].location in disks ==> disks[reqs[j].location].Some?
  }

  /** On labelled disks a successful run is free of changing calls exactly when every disk is settled. */
  lemma {:induction false} AllQuietIff(hw: Hardware, reqs: seq<DiskRequest>, k: nat, disks: Disks)
    requires hw.Valid() && hw.Covers(disks) && k <= |reqs| && hw.refusing == {}
    requires AllLabelled(reqs, k, disks)
    ensures AllFrom(hw, reqs, k, disks) == AllRun(Done, disks, [])
            <==> forall j: nat :: k <= j < |reqs| ==> DiskSettled(hw, reqs, j, disks)
    decreases |reqs| - k
  {
    if k < |reqs| {
      var l := reqs[k].location;
      var a := AllFrom(hw, reqs, k, disks);
      if l in hw.devices {
        var t := Opened(disks[l]);
        var p := Pass(hw.devices[l], reqs[k].parts, t);
        QuietIffSettled(hw.devices[l], reqs[k].parts, 0, t);
        if DiskSettled(hw, reqs, k, disks) {
          assert disks[l] == Some(t) by { assert disks[l].Some?; }
          assert disks[l := Some(p.table)] == disks;
          AllQuietIff(hw, reqs, k + 1, disks);
          assert Tagged(l, []) == [];
        } else {
          assert |Tagged(l, p.journal)| > 0;
        }
      } else {
        assert !DiskSettled(hw, reqs, k, disks);
      }
    }
  }

  ghost predicate GoodHardware(hw: Hardware) {
    && hw.Valid()
    && hw.refusing == {}
    && forall l :: l in hw.devices ==> hw.devices[l].sectorSize < 1_000_000 && SnapWithin(hw.devices[l], 2_000_000)
  }

  ghost predicate DisksInside(hw: Hardware, disks: Disks)
    requires hw.Covers(disks)
  {
    forall l :: l in disks ==> AllInside(hw.devices[l], Opened(disks[l]))
  }

  ghost predicate SizesFrom(reqs: seq<DiskRequest>, k: nat) {
    forall j: nat :: k <= j < |reqs| ==> AllRepresentable(reqs[j].parts)
  }

  /** A run keeps every table on its device, and a label once written stays. */
  lemma {:induction false} AllKeep(hw: Hardware, reqs: seq<DiskRequest>, k: nat, disks: Disks)
    requires hw.Valid() && hw.Covers(disks) && k <= |reqs| && DisksInside(hw, disks)
    ensures var after := AllFrom(hw, reqs, k, disks).disks;
            && hw.Covers(after) && DisksInside(hw, after)
            && forall l :: l in disks && disks[l].Some? ==> after[l].Some?
    decreases |reqs| - k
  {
    if k < |reqs| && reqs[k].location in hw.devices {
      var l := reqs[k].location;
      var p := Pass(hw.devices[l], reqs[k].parts, Opened(disks[l]));
      PassKeepsPrefix(hw.devices[l], reqs[k].parts, 0, Opened(disks[l]));
      if p.outcome == Succeeded && l !in hw.refusing {
        AllKeep(hw, reqs, k + 1, disks[l := Some(p.table)]);
      }
    }
  }

  lemma PassKeepsSettled(dev: Device, parts: seq<PartRequest>, reqs: seq<PartRequest>, t: Table)
    requires dev.Valid() && AllInside(dev, t) && Settled(dev, parts, 0, t) && SameCommon(parts, reqs)
    requires Pass(dev, reqs, t).outcome == Succeeded
    ensures Settled(dev, parts, 0, Pass(dev, reqs, t).table)
  {
    hide Matches, AllInside, Built, PassFrom;
    forall n: nat | n < |parts| ensures SettledAt(dev, parts, n, Pass(dev, reqs, t).table) {
      assert SettledAt(dev, parts, n, t);
      PassAt(dev, reqs, 0, t, n);
    }
  }

  /** What is settled stays settled under later requests that agree with it. */
  lemma {:induction false} StaysSettled(hw: Hardware, reqs: seq<DiskRequest>, k: nat, disks: Disks, loc: string,
                                        parts: seq<PartRequest>)
    requires hw.Valid() && hw.Covers(disks) && k <= |reqs| && DisksInside(hw, disks) && loc in disks
    requires AllFrom(hw, reqs, k, disks).result == Done
    requires Settled(hw.devices[loc], parts, 0, Opened(disks[loc]))
    requires forall j: nat :: k <= j < |reqs| && reqs[j].location == loc ==> SameCommon(parts, reqs[j].parts)
    ensures loc in AllFrom(hw, reqs, k, disks).disks
    ensures Settled(hw.devices[loc], parts, 0, Opened(AllFrom(hw, reqs, k, disks).disks[loc]))
    decreases |reqs| - k
  {
    if k < |reqs| {
      hide Settled, SameCommon;
      var l := reqs[k].location;
      var p := Pass(hw.devices[l], reqs[k].parts, Opened(disks[l]));
      PassKeepsPrefix(hw.devices[l], reqs[k].parts, 0, Opened(disks[l]));
      if l == loc {
        PassKeepsSettled(hw.devices[l], parts, reqs[k].parts, Opened(disks[l]));
      }
      StaysSettled(hw, reqs, k + 1, disks[l := Some(p.table)], loc, parts);
    }
  }

  /** No table on its device settles a request with a size that is not representable. */
  lemma SettledIsRepresentable(dev: Device, parts: seq<PartRequest>, t: Table)
    requires dev.Valid() && AllInside(dev, t) && Settled(dev, parts, 0, t)
    ensures AllRepresentable(parts)
  {
    forall n: nat | n < |parts| ensures Representable(parts[n].size) {
      assert SettledAt(dev, parts, n, t);
      MatchIsRepresentable(dev, t[n + 1], parts[n]);
    }
  }

  /** After success each request is settled exactly when its sizes are representable. */
  lemma {:induction false} AllSettleIff(hw: Hardware, reqs: seq<DiskRequest>, k: nat, disks: Disks)
    requires GoodHardware(hw) && hw.Covers(disks) && k <= |reqs|
    requires DisksInside(hw, disks) && Agreeing(reqs)
    requires AllFrom(hw, reqs, k, disks).result == Done
    ensures var after := AllFrom(hw, reqs, k, disks).disks;
            && hw.Covers(after) && DisksInside(hw, after) && AllLabelled(reqs, k, after)
            && forall j: nat :: k <= j < |reqs| ==>
                 (DiskSettled(hw, reqs, j, after) <==> AllRepresentable(reqs[j].parts))
    decreases |reqs| - k
  {
    AllKeep(hw, reqs, k, disks);
    if k < |reqs| {
      hide Settled, SameCommon, AllRepresentable;
      var l := reqs[k].location;
      var dev, t := hw.devices[l], Opened(disks[l]);
      var p := Pass(dev, reqs[k].parts, t);
      var mid := disks[l := Some(p.table)];
      PassSettlesIff(dev, reqs[k].parts, 0, t);
      PassKeepsPrefix(dev, reqs[k].parts, 0, t);
      SettledIffRepresentable(dev, reqs[k].parts, p.table);
      AllSettleIff(hw, reqs, k + 1, mid);
      AllKeep(hw, reqs, k + 1, mid);
      var after := AllFrom(hw, reqs, k, disks).disks;
      assert after == AllFrom(hw, reqs, k + 1, mid).disks && after[l].Some?;
      if AllRepresentable(reqs[k].parts) {
        StaysSettled(hw, reqs, k + 1, mid, l, reqs[k].parts);
      } else if DiskSettled(hw, reqs, k, after) {
        SettledIsRepresentable(dev, reqs[k].parts, Opened(after[l]));
      }
    }
  }

  /**
   Idempotence of the whole request: when requests for the same disk agree, running it again after it succeeded
   changes nothing if and only if every requested size is representable.
   */
  lemma FormatDisksIdempotentIff(hw: Hardware, reqs: seq<DiskRequest>, disks: Disks)
    requires GoodHardware(hw) && hw.Covers(disks) && DisksInside(hw, disks) && Agreeing(reqs)
    requires AllFrom(hw, reqs, 0, disks).result == Done
    ensures var after := AllFrom(hw, reqs, 0, disks).disks;
            hw.Covers(after) &&
            (AllFrom(hw, reqs, 0, after) == AllRun(Done, after, []) <==> SizesFrom(reqs, 0))
  {
    hide Agreeing, AllRepresentable, AllFrom;
    AllSettleIff(hw, reqs, 0, disks);
    var after := AllFrom(hw, reqs, 0, disks).disks;
    AllQuietIff(hw, reqs, 0, after);
    if SizesFrom(reqs, 0) {
      forall j: nat | j < |reqs| ensures DiskSettled(hw, reqs, j, after) {
        assert AllRepresentable(reqs[j].parts);
      }
    }
    if forall j: nat :: 0 <= j < |reqs| ==> DiskSettled(hw, reqs, j, after) {
      forall j: nat | j < |reqs| ensures AllRepresentable(reqs[j].parts) {
        assert DiskSettled(hw, reqs, j, after);
      }
    }
  }
}
