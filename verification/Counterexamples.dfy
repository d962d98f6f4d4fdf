/** Concrete inputs on which the code does less than it is for; the exact conditions are in the modules named here. */
module Counterexamples {
  import opened Options
  import opened Files
  import opened Parted
  import FormatDisks
  import GcdLcm
  import Reconcile
  import Idempotence
  import Repetition
  import Layout
  import Upload
  import UploadFairness
  import UploadProgress
  import BootOrder
  import LoadOption
  import Notifier
  import Recording
  import Archive
  import ServiceBinding

  const DISK := Device(512, 2_000_000_000, {"ntfs"}, (t: Table, g: Geometry) => Some(g))

  /** Two partitions, the first one mismatched: the second survives (Idempotence.DeletionMeetsIntentIff). */
  lemma SecondPartitionSurvives(a: Partition, b: Partition)
    ensures var t: Table := map[1 := a, 2 := b];
            Reconcile.DeleteLoop(t, 0, 0) == Reconcile.Run(Reconcile.Succeeded, map[2 := b], [Remove(1)])
  {
    var t: Table := map[1 := a, 2 := b];
    Idempotence.DeleteLoopClosedForm(t, 0);
    assert t - {1} == map[2 := b];
  }

  /** Two partitions behind a gap: the count names the first of them, and the new start falls into the second. */
  lemma GapHidesTheLast()
    ensures var t: Table := map[2 := Partition(Geometry(34816, 69631), "ntfs"),
                                3 := Partition(Geometry(69632, 104447), "ntfs")];
            Planned(DISK, t, 10).start == 69632 && Make(DISK, t, PartRequest("ntfs", 10)) == (Refused, t)
  {
    var t: Table := map[2 := Partition(Geometry(34816, 69631), "ntfs"),
                        3 := Partition(Geometry(69632, 104447), "ntfs")];
    assert t.Keys == {2, 3};
    assert |t| == 2;
    GapPlan(t);
    hide Planned;
    assert 3 in t && t[3].geom.Meets(Geometry(69632, 89163));
  }

  lemma GapPlan(t: Table)
    requires LastEnd(t) == 69631
    ensures Planned(DISK, t, 10) == Geometry(69632, 89163)
  {
    AlignedStartValue(69631);
    assert Extent(DISK, 10) == 19531;
    hide AlignedStart, LastEnd, Extent;
  }

  /** A first request of exactly 15625 grains: the second start is its end, and is refused (Layout.FreshLayoutIff). */
  lemma WholeGrainsBlockTheNext()
    ensures Reconcile.Pass(DISK, [PartRequest("ntfs", 278528), PartRequest("ntfs", 1)], map[]).outcome
            != Reconcile.Succeeded
  {
    hide Layout.Quota, Layout.StartOf, Reconcile.Pass;
    var reqs := [PartRequest("ntfs", 278528), PartRequest("ntfs", 1)];
    Layout.FreshLayoutIff(DISK, reqs);
    Layout.QuotaValue(DISK, reqs[0]);
    assert Layout.Quota(DISK, reqs[0]) == 544_000_000;
    assert !Layout.FitsBeforeNext(DISK, reqs, 0);
  }

  /** A size whose bytes wrap to less than a megabyte: created, and taken for a mismatch ever after. */
  lemma WrappedSizeIsNeverQuiet()
    ensures var reqs := [PartRequest("ntfs", 18446744073710)];
            var p := Reconcile.Pass(DISK, reqs, map[]);
            p.outcome == Reconcile.Succeeded && Reconcile.Pass(DISK, reqs, p.table).journal != []
  {
    var reqs := [PartRequest("ntfs", 18446744073710)];
    WrappedSizeIsCreated();
    Idempotence.SecondPassIsQuietIff(DISK, reqs, map[]);
    assert !Idempotence.Representable(reqs[0].size);
  }

  lemma WrappedSizeIsCreated()
    ensures Reconcile.Pass(DISK, [PartRequest("ntfs", 18446744073710)], map[]).outcome == Reconcile.Succeeded
  {
    var req := PartRequest("ntfs", 18446744073710);
    AlignedStartValue(0);
    assert Extent(DISK, req.size) == 875;
    assert Planned(DISK, map[], req.size) == Geometry(34816, 35691);
    assert Reconcile.CreateStep(DISK, map[], req).outcome == Reconcile.Succeeded;
    assert Reconcile.Round(DISK, req, 0, map[]).outcome == Reconcile.Succeeded;
  }

  /**
   With three arguments a wrapped product can heal: the square of 2^32 + 1 wraps to a quotient of 1, and the result
   is right although GcdLcm.LcmDefined fails. For two arguments GcdLcm.PairExactIff is exact.
   */
  lemma WrappedProductHeals()
    ensures var x := 0x1_0000_0001;
            && !GcdLcm.LcmDefined([x, x, x])
            && GcdLcm.LcmAll(x, [x, x]) == x
            && GcdLcm.FoldResult(GcdLcm.PairResult(x, x), [x]) == Some(x)
  {
    var x := 0x1_0000_0001;
    var args := [x, x, x];
    assert args[1..] == [x, x] && args[1..][1..] == [x] && [x][1..] == [];
    assert GcdLcm.Gcd(x, x) == x by { assert GcdLcm.Gcd(x, 0) == x; }
    GcdLcm.EuclidIsGcd(x, x);
    assert GcdLcm.Gcd(1, x) == 1 by { assert GcdLcm.Gcd(x, 1) == GcdLcm.Gcd(1, 0); }
    GcdLcm.EuclidIsGcd(1, x);
    assert GcdLcm.PairResult(x, x) == Some(1);
    assert GcdLcm.PairResult(1, x) == Some(x);
    GcdLcm.LcmIsLeast(x, x);
    assert GcdLcm.Lcm(x, x) == x;
  }

  /** Two requests for one disk, three megabytes apart. On a blank disk they are never quiet (see Repetition). */
  const TWICE := [FormatDisks.DiskRequest("a", [PartRequest("ntfs", 100)]),
                  FormatDisks.DiskRequest("a", [PartRequest("ntfs", 103)])]

  const HOST := FormatDisks.Hardware(map["a" := DISK], {})

  lemma OverwrittenRequestIsNeverQuiet()
    ensures HOST.Valid()
    ensures var blank: FormatDisks.Disks := map["a" := None];
            var first := FormatDisks.AllFrom(HOST, TWICE, 0, blank);
            && first.result == FormatDisks.Done && HOST.Covers(first.disks)
            && FormatDisks.AllFrom(HOST, TWICE, 0, first.disks) != FormatDisks.AllRun(FormatDisks.Done, first.disks, [])
  {
    var blank: FormatDisks.Disks := map["a" := None];
    OverwritingSucceeds(blank);
    FarApart();
    assert Repetition.Runs(HOST, TWICE, 0, blank);
    hide FormatDisks.AllFrom, Repetition.Close, Repetition.FailsFirst, Repetition.AsksFor;
    Repetition.RepeatedIdempotentIff(HOST, TWICE, blank);
    assert Repetition.FailsFirst(DISK, TWICE, 0, "a", 0, FormatDisks.Opened(blank["a"]), 0);
  }

  lemma FarApart()
    ensures Repetition.AsksFor(TWICE, 0, "a", 0) && Repetition.AsksFor(TWICE, 1, "a", 0)
    ensures Repetition.FailsFirst(DISK, TWICE, 0, "a", 0, map[], 0)
    ensures !Repetition.CloseFrom(TWICE, 0, 0, "a", 0)
  {
    assert Repetition.AsksFor(TWICE, 1, "a", 0);
    assert !Repetition.Close(TWICE[0].parts[0], TWICE[1].parts[0]);
  }

  /** The same requests on a disk whose partition 1 has 102 MB, which passes both: already the first run is quiet. */
  lemma PartitionBetweenIsQuiet(t: Table)
    requires t == map[1 := Partition(Geometry(34816, 234034), "ntfs")]
    ensures var disks: FormatDisks.Disks := map["a" := Some(t)];
            FormatDisks.AllFrom(HOST, TWICE, 0, disks) == FormatDisks.AllRun(FormatDisks.Done, disks, [])
  {
    var disks: FormatDisks.Disks := map["a" := Some(t)];
    assert SizeMB(DISK, t[1]) == 102;
    FormatDisks.AllQuietIff(HOST, TWICE, 0, disks);
    forall j: nat | j < 2 ensures FormatDisks.DiskSettled(HOST, TWICE, j, disks) {
      assert Reconcile.Matches(DISK, t[1], TWICE[j].parts[0]);
    }
  }

  lemma FirstPartition(size: uint64)
    requires 0 < size <= 103
    ensures Planned(DISK, map[], size).start == 34816 && DISK.Inside(Planned(DISK, map[], size))
    ensures var t: Table := map[1 := Partition(Planned(DISK, map[], size), "ntfs")];
            Reconcile.CreateStep(DISK, map[], PartRequest("ntfs", size))
            == Reconcile.Run(Reconcile.Succeeded, t, [Create(PartRequest("ntfs", size))])
  {
    AlignedStartValue(0);
  }

  lemma OverwritingSucceeds(blank: FormatDisks.Disks)
    requires blank == map["a" := None]
    ensures FormatDisks.AllFrom(HOST, TWICE, 0, blank).result == FormatDisks.Done
  {
    var a, b := PartRequest("ntfs", 100), PartRequest("ntfs", 103);
    FirstPartition(100);
    FirstPartition(103);
    var t: Table := map[1 := Partition(Planned(DISK, map[], 100), "ntfs")];
    assert Reconcile.Round(DISK, a, 0, map[]).outcome == Reconcile.Succeeded;
    assert Reconcile.Pass(DISK, [a], map[]).table == t;
    Idempotence.SizeRoundTrip(DISK, map[], a);
    Idempotence.DeleteLoopClosedForm(t, 0);
    assert t - {1} == map[];
    assert Reconcile.Round(DISK, b, 0, t).outcome == Reconcile.Succeeded;
    assert Reconcile.Pass(DISK, [b], t).outcome == Reconcile.Succeeded;
    var mid := blank["a" := Some(t)];
    assert FormatDisks.AllFrom(HOST, TWICE, 1, mid).result == FormatDisks.Done;
  }

  /** One byte uploaded over two: the verdict is an error whatever the digest (UploadFairness.AcceptedIff). */
  lemma OlderTailIsRejected(digest: Bytes -> string, sum: string)
    ensures var p := UploadProgress.Plan([[7]], 1, "f", sum, map["f" := [1, 2]], digest);
            p.Valid() && p.AllHits() == 1 && p.Expected() == Upload.SizeError
  {
    var p := UploadProgress.Plan([[7]], 1, "f", sum, map["f" := [1, 2]], digest);
    var parts: seq<Bytes> := [[7]];
    assert parts[..0] == [];
    assert Concat(parts) == Concat(parts[..0]) + parts[0];
    UploadProgress.WellFormedHitsOnce(p);
  }

  /** An upload of one byte without a chunk: the Hash waits for the mutex, and no verdict is ever returned. */
  lemma MissingChunkHangs(p: UploadProgress.Plan)
    requires p.chunks == [] && p.size == 1
    ensures p.AllHits() == 0
    ensures forall steps, end :: !UploadFairness.Returns(p, steps, end)
  {
    UploadFairness.ReturnsIff(p);
  }

  /** An empty chunk behind the last byte: the counter meets the size twice, and no verdict is ever returned. */
  lemma EmptyTrailingChunkHangs(p: UploadProgress.Plan)
    requires p.chunks == [[7], []] && p.size == 1
    ensures p.AllHits() == 2
    ensures forall steps, end :: !UploadFairness.Returns(p, steps, end)
  {
    var parts: seq<Bytes> := [[7], []];
    assert parts[..0] == [] && parts[..1][..0] == [] && parts[..2][..1] == parts[..1];
    assert Concat(parts[..1]) == Concat(parts[..1][..0]) + parts[..1][0] == [7];
    assert Concat(parts[..2]) == Concat(parts[..2][..1]) + parts[..2][1] == [7];
    assert p.Hits(0) == 0 && p.Hits(1) == 1 && p.Hits(2) == 2;
    UploadFairness.ReturnsIff(p);
  }

  /** A description that ends with the variable comes back with four zero units behind it. */
  lemma NoByteBehindTheTerminator(attributes: nat)
    ensures LoadOption.Describe(LoadOption.Build(attributes, 0, [65], [])) == LoadOption.Units([65, 0, 0, 0, 0])
  {
    LoadOption.DescriptionRoundTripIff(attributes, 0, [65], []);
    assert LoadOption.Zeros(4) == [0, 0, 0, 0];
  }

  /** Boot number ten. */
  lemma TenIsReadElsewhere()
    ensures BootOrder.NameRead(10) != BootOrder.NameStored(10)
    ensures BootOrder.NameRead(10) == BootOrder.NameStored(16)
  {
    BootOrder.NameReadIff(10);
    assert BootOrder.Digits(10, 10, 4) == "0010" by {
      assert BootOrder.Digits(0, 10, 2) == "00";
      assert BootOrder.Digits(1, 10, 3) == "001";
    }
    assert BootOrder.Digits(16, 16, 4) == "0010" by {
      assert BootOrder.Digits(0, 16, 2) == "00";
      assert BootOrder.Digits(1, 16, 3) == "001";
    }
  }

  /** Two files with one hash: the tree is not reproduced (Archive.RoundTripIff). */
  lemma CollidingFilesAreLost()
    ensures var c := Archive.Codec((b: Bytes) => "00", (b: Bytes) => b, (b: Bytes) => b);
            var tree := [Archive.Entry("a", Archive.File([1])), Archive.Entry("b", Archive.File([2]))];
            var s := Archive.Walk(c, Archive.EMPTY, [], tree);
            Archive.Complete(s) &&
            !Archive.Reproduces(Archive.Extracted(c, s, map[]), Archive.FilesIn([], tree))
  {
    var c := Archive.Codec((b: Bytes) => "00", (b: Bytes) => b, (b: Bytes) => b);
    var tree := [Archive.Entry("a", Archive.File([1])), Archive.Entry("b", Archive.File([2]))];
    var files := Archive.FilesIn([], tree);
    TwoFiles(tree);
    Archive.RoundTripIff(c, tree);
    assert files[0].1 in Archive.ContentsOf(files) && files[1].1 in Archive.ContentsOf(files);
    assert c.hash([1]) == c.hash([2]);
  }

  lemma TwoFiles(tree: seq<Archive.Entry>)
    requires tree == [Archive.Entry("a", Archive.File([1])), Archive.Entry("b", Archive.File([2]))]
    ensures Archive.FilesIn([], tree) == [(["a"], [1]), (["b"], [2])]
  {
    assert tree[1..] == [tree[1]] && tree[1..][1..] == [];
    assert Archive.FilesIn([], tree[1..]) == Archive.FilesOf([], tree[1]) + [];
    assert Archive.FilesIn([], tree) == Archive.FilesOf([], tree[0]) + Archive.FilesIn([], tree[1..]);
    assert [] + ["a"] == ["a"] && [] + ["b"] == ["b"];
  }

  /** A start whose process cannot be launched leaves an abandoned session (Recording.AbandonedForever). */
  lemma FailedLaunchAbandons()
    ensures exists s :: Recording.Reachable(s) && Recording.Abandoned(s)
  {
    var c: Recording.Caller := 0;
    var s1 := Recording.Apply(Recording.START, Recording.CallStart(c));
    var s2 := Recording.Apply(s1, Recording.Acquire(c));
    var s3 := Recording.Apply(s2, Recording.Check(c));
    var s4 := Recording.Apply(s3, Recording.Listen(c, true));
    var s5 := Recording.Apply(s4, Recording.Launch(c, false));
    assert Recording.Abandoned(s5);
    hide Recording.Apply, Recording.Enabled;
    var e5: seq<Recording.Step> := [Recording.Launch(c, false)];
    Recording.LeadsCons(s4, Recording.Launch(c, false), [], s5);
    Recording.LeadsCons(s3, Recording.Listen(c, true), e5, s5);
    var e4 := [Recording.Listen(c, true)] + e5;
    Recording.LeadsCons(s2, Recording.Check(c), e4, s5);
    var e3 := [Recording.Check(c)] + e4;
    Recording.LeadsCons(s1, Recording.Acquire(c), e3, s5);
    var e2 := [Recording.Acquire(c)] + e3;
    Recording.LeadsCons(Recording.START, Recording.CallStart(c), e2, s5);
  }

  /** After the first poll the notifier takes the service to be up, and there is no listener yet. */
  lemma UpBeforeListening(a: Notifier.Address)
    ensures exists events, end :: ServiceBinding.Leads(ServiceBinding.START, events, end)
                                  && end.status == Some(a) && end.listener == None && end.binding
  {
    var s := ServiceBinding.START;
    var events := [ServiceBinding.Poll(Some(a))];
    var end := ServiceBinding.Apply(s, events[0]);
    assert events[1..] == [];
    assert ServiceBinding.Leads(s, events, end);
  }
}
