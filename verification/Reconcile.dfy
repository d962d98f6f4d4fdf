/** The reconcile pass of FormatDisks over one disk (service/maintenance_linux.go). */
module Reconcile {
  import opened Parted

  datatype Outcome = Succeeded | DeleteFailed | CreateRefused | Crashed

  /** What a stretch of the pass leaves behind: how it ended, the table, and the changing calls it issued. */
  datatype Run = Run(outcome: Outcome, table: Table, journal: seq<Op>) {
    function After(earlier: seq<Op>): Run { Run(outcome, table, earlier + journal) }
  }

  function Distance(a: int, b: int): nat { if a < b then b - a else a - b }

  /** The test that keeps an existing partition: size within the tolerance of 2 MB and the same file system. */
  predicate Matches(dev: Device, p: Partition, req: PartRequest) {
    Distance(SizeMB(dev, p), req.size) <= 2 && p.fs == req.fs
  }

  /** The deletion loop as written: the counter i advances, the number deleted stays pi + 1. */
  function DeleteLoop(t: Table, pi: nat, i: nat): Run
    decreases |t| - i
  {
    if i >= |t| then Run(Succeeded, t, [])
    else if pi + 1 !in t then Run(DeleteFailed, t, [Remove(pi + 1)])
    else
      var rest := t - {pi + 1};
      assert rest.Keys == t.Keys - {pi + 1};
      DeleteLoop(rest, pi, i + 1).After([Remove(pi + 1)])
  }

  function CreateStep(dev: Device, t: Table, req: PartRequest): Run
    requires dev.Valid()
  {
    var (made, t') := Make(dev, t, req);
    Run(match made case Added => Succeeded case Refused => CreateRefused case Panicked => Crashed,
        t', [Create(req)])
  }

  /** One round of the pass, for the request with index i. */
  function Round(dev: Device, req: PartRequest, i: nat, t: Table): Run
    requires dev.Valid()
  {
    if i + 1 !in t then CreateStep(dev, t, req)
    else if Matches(dev, t[i + 1], req) then Run(Succeeded, t, [])
    else
      var d := DeleteLoop(t, i, i);
      if d.outcome != Succeeded then d
      else CreateStep(dev, d.table, req).After(d.journal)
  }

  /** The pass from request k on. */
  function PassFrom(dev: Device, reqs: seq<PartRequest>, k: nat, t: Table): Run
    requires dev.Valid() && k <= |reqs|
    decreases |reqs| - k
  {
    if k == |reqs| then Run(Succeeded, t, [])
    else
      var r := Round(dev, reqs[k], k, t);
      if r.outcome != Succeeded then r
      else PassFrom(dev, reqs, k + 1, r.table).After(r.journal)
  }

  function Pass(dev: Device, reqs: seq<PartRequest>, t: Table): Run
    requires dev.Valid()
  {
    PassFrom(dev, reqs, 0, t)
  }

  // ---------------------------------------------------------------- the pass as methods

  method DeletePartitions(disk: PedDisk, i0: nat) returns (ok: bool)
    modifies disk
    ensures var d := DeleteLoop(old(disk.table), i0, i0);
            ok == d.outcome.Succeeded? && disk.table == d.table && disk.journal == old(disk.journal) + d.journal
    ensures DeleteLoop(old(disk.table), i0, i0).outcome in {Succeeded, DeleteFailed}
  {
    var i, pi := i0, i0;
    ghost var whole := DeleteLoop(disk.table, pi, i);
    assert disk.journal + whole.journal == old(disk.journal) + whole.journal;
    while i < disk.GetPartitionCount()
      invariant pi == i0 <= i
      invariant var rest := DeleteLoop(disk.table, pi, i);
                whole.outcome == rest.outcome && whole.table == rest.table
                && old(disk.journal) + whole.journal == disk.journal + rest.journal
      decreases disk.GetPartitionCount() - i
    {
      ghost var before, journal := disk.table, disk.journal;
      ok := disk.RmPart(pi + 1);
      if !ok {
        return;
      }
      assert disk.table.Keys == before.Keys - {pi + 1};
      i := i + 1;
      ghost var rest := DeleteLoop(disk.table, pi, i);
      assert journal + ([Remove(pi + 1)] + rest.journal) == disk.journal + rest.journal;
    }
    ok := true;
  }

  method CreatePartition(disk: PedDisk, req: PartRequest) returns (outcome: Outcome)
    requires disk.dev.Valid()
    modifies disk
    ensures var c := CreateStep(disk.dev, old(disk.table), req);
            outcome == c.outcome && disk.table == c.table && disk.journal == old(disk.journal) + c.journal
  {
    var made := disk.MkPart(req);
    match made {
      case Added => outcome := Succeeded;
      case Refused => outcome := CreateRefused;
      case Panicked => outcome := Crashed;
    }
  }

  /** The body of the loop over the requested partitions. */
  method ReconcilePartition(disk: PedDisk, req: PartRequest, i: nat) returns (outcome: Outcome)
    requires disk.dev.Valid()
    modifies disk
    ensures var r := Round(disk.dev, req, i, old(disk.table));
            outcome == r.outcome && disk.table == r.table && disk.journal == old(disk.journal) + r.journal
  {
    ghost var journal := disk.journal;
    var part := disk.GetPartition(i + 1);
    if part.None? {
      outcome := CreatePartition(disk, req);
    } else if Matches(disk.dev, part.value, req) {
      outcome := Succeeded;
    } else {
      var ok := DeletePartitions(disk, i);
      if !ok {
        outcome := DeleteFailed;
      } else {
        outcome := CreatePartition(disk, req);
      }
    }
  }

  /** The loop over the requested partitions of one disk. */
  method ReconcileDisk(disk: PedDisk, reqs: seq<PartRequest>) returns (outcome: Outcome)
    requires disk.dev.Valid()
    modifies disk
    ensures var p := Pass(disk.dev, reqs, old(disk.table));
            outcome == p.outcome && disk.table == p.table && disk.journal == old(disk.journal) + p.journal
  {
    ghost var journal0 := disk.journal;
    ghost var whole := Pass(disk.dev, reqs, disk.table);
    var k := 0;
    outcome := Succeeded;
    while k < |reqs|
      invariant 0 <= k <= |reqs| && outcome == Succeeded
      invariant PassFrom(disk.dev, reqs, k, disk.table).outcome == whole.outcome
      invariant PassFrom(disk.dev, reqs, k, disk.table).table == whole.table
      invariant disk.journal + PassFrom(disk.dev, reqs, k, disk.table).journal == journal0 + whole.journal
    {
      ghost var round := Round(disk.dev, reqs[k], k, disk.table);
      ghost var rest := if round.outcome == Succeeded then PassFrom(disk.dev, reqs, k + 1, round.table).journal else [];
      Associate(disk.journal, round.journal, rest);
      outcome := ReconcilePartition(disk, reqs[k], k);
      if outcome != Succeeded {
        return;
      }
      k := k + 1;
    }
  }

  lemma Associate<T>(a: seq<T>, b: seq<T>, c: seq<T>)
    ensures a + (b + c) == (a + b) + c
  {
  }
}
