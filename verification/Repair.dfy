/** Order and gaps over a whole pass under a grain-aligning constraint, and when a mismatch can be repaired. */
module Repair {
  import opened Machine
  import opened GcdLcm
  import opened Options
  import opened Parted
  import opened Reconcile
  import opened Idempotence

  /** Numbered without gaps, in the order of the sectors, none touching the next. */
  ghost predicate Ordered(t: Table) {
    && Contiguous(t, |t|)
    && (forall n: nat :: n in t ==> t[n].geom.start <= t[n].geom.end)
    && (forall m: nat, n: nat :: m in t && n in t && m < n ==> t[m].geom.end < t[n].geom.start)
  }

  ghost predicate EndsClear(t: Table) {
    forall n: nat :: n in t ==> t[n].geom.end % 2048 == 2047
  }

  /** The constraint keeps the start and moves the end to the last sector of some 2048-sector block. */
  ghost predicate GrainSnap(dev: Device) {
    forall t: Table, g: Geometry :: dev.snap(t, g).Some? ==>
      var s := dev.snap(t, g).value;
      s.start == g.start <= s.end && s.end % 2048 == 2047
  }

  /** The constraint accepts whatever fits the device. */
  ghost predicate Accepting(dev: Device) {
    forall t: Table, g: Geometry :: dev.Inside(g) ==> dev.snap(t, g).Some? && dev.Inside(dev.snap(t, g).value)
  }

  /** Rounding the end up to its block is such a constraint on a device of whole blocks. */
  lemma BlockSnapQualifies(dev: Device)
    requires dev.sectors % 2048 == 0
    requires dev.snap == ((t: Table, g: Geometry) =>
               if g.start <= g.end then Some(Geometry(g.start, g.end - g.end % 2048 + 2047)) else None)
    ensures GrainSnap(dev) && Accepting(dev)
  {
  }

  lemma LastEndOfOrdered(t: Table)
    requires Ordered(t) && EndsClear(t)
    ensures |t| > 0 ==> |t| in t && LastEnd(t) == t[|t|].geom.end && LastEnd(t) % 2048 == 2047
    ensures |t| == 0 ==> LastEnd(t) == 0
    ensures forall n: nat :: n in t ==> t[n].geom.end <= LastEnd(t)
  {
    if |t| > 0 {
      assert |t| in t;
      forall n: nat | n in t ensures t[n].geom.end <= LastEnd(t) {
        assert n == |t| || n < |t|;
      }
    }
  }

  lemma NextNumber(t: Table)
    requires Contiguous(t, |t|)
    ensures FreeFrom(t, 1) == |t| + 1
  {
    var n := FreeFrom(t, 1);
    assert n <= |t| ==> n in t;
    assert n > |t| + 1 ==> |t| + 1 in t;
  }

  lemma AppendContiguous(t: Table, p: Partition)
    requires Contiguous(t, |t|)
    ensures var t' := t[|t| + 1 := p]; |t'| == |t| + 1 && Contiguous(t', |t'|)
  {
    var t' := t[|t| + 1 := p];
    assert |t| + 1 !in t;
    assert t'.Keys == t.Keys + {|t| + 1};
  }

  lemma AppendOrdered(t: Table, p: Partition)
    requires Ordered(t) && EndsClear(t)
    requires p.geom.start <= p.geom.end && p.geom.end % 2048 == 2047
    requires forall n: nat :: n in t ==> t[n].geom.end < p.geom.start
    ensures var t' := t[|t| + 1 := p]; |t'| == |t| + 1 && Ordered(t') && EndsClear(t')
  {
    AppendContiguous(t, p);
    assert forall n: nat :: n in t ==> n <= |t|;
    hide Contiguous;
    var t' := t[|t| + 1 := p];
    forall m: nat, n: nat | m in t' && n in t' && m < n ensures t'[m].geom.end < t'[n].geom.start {
      assert m in t && t'[m] == t[m];
    }
  }

  lemma StartOnDevice(e: int, sectors: int)
    requires 0 <= e < TWO_63 && 0 <= AlignedStart(e) && (e > 0 ==> e % 2048 == 2047)
    ensures e < AlignedStart(e) && AlignedStart(e) - e - 1 < GRAIN
  {
    AlignedStartValue(e);
    GrainHoldsBlocks(e);
  }

  /** On an ordered table a creation that fits is never refused: it appends, fewer than a grain further on. */
  lemma MakeAppends(dev: Device, t: Table, req: PartRequest)
    requires dev.Valid() && GrainSnap(dev) && Accepting(dev)
    requires AllInside(dev, t) && Ordered(t) && EndsClear(t)
    requires req.fs in dev.knownFs && dev.Inside(Planned(dev, t, req.size))
    ensures var s := dev.snap(t, Planned(dev, t, req.size)).value;
            && Make(dev, t, req) == (Added, t[|t| + 1 := Partition(s, req.fs)])
            && LastEnd(t) < s.start && s.start - LastEnd(t) - 1 < GRAIN
            && Ordered(t[|t| + 1 := Partition(s, req.fs)]) && EndsClear(t[|t| + 1 := Partition(s, req.fs)])
            && |t[|t| + 1 := Partition(s, req.fs)]| == |t| + 1
  {
    var g := Planned(dev, t, req.size);
    var s := dev.snap(t, g).value;
    SectorsFit(dev);
    LastEndOfOrdered(t);
    StartOnDevice(LastEnd(t), dev.sectors);
    assert !Overlaps(t, s);
    NextNumber(t);
    AppendOrdered(t, Partition(s, req.fs));
  }

  lemma CreateAppends(dev: Device, t: Table, req: PartRequest)
    requires dev.Valid() && GrainSnap(dev) && Accepting(dev)
    requires AllInside(dev, t) && Ordered(t) && EndsClear(t)
    ensures var r := CreateStep(dev, t, req);
            && (r.outcome == Succeeded || (r.outcome == Crashed && r.table == t))
            && AllInside(dev, r.table) && Ordered(r.table) && EndsClear(r.table)
            && (r.outcome == Succeeded ==> |r.table| == |t| + 1)
            && (r.outcome == Succeeded <==> req.fs in dev.knownFs && dev.Inside(Planned(dev, t, req.size)))
  {
    MakeEffect(dev, t, req);
    if req.fs in dev.knownFs && dev.Inside(Planned(dev, t, req.size)) {
      MakeAppends(dev, t, req);
    }
  }

  lemma DropNumber(t: Table)
    requires Contiguous(t, |t|) && |t| > 0
    ensures |t| in t && |t - {|t|}| == |t| - 1 && Contiguous(t - {|t|}, |t| - 1)
    ensures t - {|t|} == WithoutSuffix(t, |t| - 1)
  {
    assert |t| in t;
    assert (t - {|t|}).Keys == t.Keys - {|t|};
  }

  lemma DropLast(t: Table)
    requires Ordered(t) && EndsClear(t) && |t| > 0
    ensures |t| in t && |t - {|t|}| == |t| - 1
    ensures Ordered(t - {|t|}) && EndsClear(t - {|t|})
    ensures t - {|t|} == WithoutSuffix(t, |t| - 1)
  {
    hide Contiguous, WithoutSuffix;
    DropNumber(t);
  }

  /** All requests from k on that have a partition, except perhaps the last partition, match it. */
  ghost predicate OnlyLastDiffers(dev: Device, reqs: seq<PartRequest>, k: nat, t: Table) {
    forall j: nat :: k <= j < |reqs| && j + 1 < |t| ==> SettledAt(dev, reqs, j, t)
  }

  lemma RoundKeepsOrder(dev: Device, reqs: seq<PartRequest>, k: nat, t: Table)
    requires dev.Valid() && GrainSnap(dev) && Accepting(dev)
    requires AllInside(dev, t) && Ordered(t) && EndsClear(t)
    requires k < |reqs| && k <= |t| && OnlyLastDiffers(dev, reqs, k, t)
    ensures var r := Round(dev, reqs[k], k, t);
            && r.outcome in {Succeeded, Crashed}
            && AllInside(dev, r.table) && Ordered(r.table) && EndsClear(r.table)
            && (r.outcome == Succeeded ==> k + 1 <= |r.table| && OnlyLastDiffers(dev, reqs, k + 1, r.table))
  {
    if k == |t| {
      CreateAppends(dev, t, reqs[k]);
    } else if !Matches(dev, t[k + 1], reqs[k]) {
      assert k + 1 < |t| ==> SettledAt(dev, reqs, k, t);
      DeleteLoopClosedForm(t, k);
      DropLast(t);
      CreateAppends(dev, t - {k + 1}, reqs[k]);
    }
  }

  /**
   Over a whole pass on an ordered table in which at most the last partition differs, with ends snapped
   to 2047 modulo 2048, no creation is ever refused for overlapping: the pass succeeds or runs out of
   device or file system types, and the table stays ordered with such ends.
   */
  lemma {:induction false} PassNeverRefused(dev: Device, reqs: seq<PartRequest>, k: nat, t: Table)
    requires dev.Valid() && GrainSnap(dev) && Accepting(dev)
    requires AllInside(dev, t) && Ordered(t) && EndsClear(t)
    requires k <= |reqs| && k <= |t| && OnlyLastDiffers(dev, reqs, k, t)
    ensures var p := PassFrom(dev, reqs, k, t);
            p.outcome in {Succeeded, Crashed} && Ordered(p.table) && EndsClear(p.table)
    decreases |reqs| - k
  {
    hide Ordered, EndsClear, OnlyLastDiffers, GrainSnap, Accepting, AllInside, Round;
    if k < |reqs| {
      RoundKeepsOrder(dev, reqs, k, t);
      var r := Round(dev, reqs[k], k, t);
      if r.outcome == Succeeded {
        PassNeverRefused(dev, reqs, k + 1, r.table);
      }
    }
  }

  /** Partition 1 covers the first aligned sector, as in every table the planner has built itself. */
  ghost predicate FirstAtGrain(t: Table) {
    1 in t && t[1].geom.start <= GRAIN <= t[1].geom.end
  }

  /** The first partition of a fresh table covers that sector. */
  lemma FreshFirstAtGrain(dev: Device, req: PartRequest)
    requires dev.Valid() && GrainSnap(dev)
    requires Make(dev, map[], req).0 == Added
    ensures FirstAtGrain(Make(dev, map[], req).1)
  {
    AlignedStartValue(0);
    NextNumber(map[]);
  }

  /** With one partition left behind the gap, the count points at the gap and the new start falls into partition 1. */
  lemma StrandedPartitionBlocks(dev: Device, t: Table, i: nat, req: PartRequest)
    requires dev.Valid() && GrainSnap(dev)
    requires Contiguous(t, i + 2) && i >= 1 && FirstAtGrain(t)
    ensures CreateStep(dev, t - {i + 1}, req).outcome != Succeeded
  {
    var base := t - {i + 1};
    ContiguousCount(t, i + 2);
    assert base.Keys == t.Keys - {i + 1};
    assert LastEnd(base) == 0;
    AlignedStartValue(0);
    var g := Planned(dev, base, req.size);
    if dev.Inside(g) && dev.snap(base, g).Some? {
      assert g.start == GRAIN;
      assert 1 in base && base[1].geom.Meets(dev.snap(base, g).value);
    }
  }

  /**
   A mismatch behind partition 1 of a table the planner built is repaired if and only if it is the last
   partition, whenever the replacement would fit behind the intact prefix.
   */
  lemma RepairedIffLast(dev: Device, t: Table, i: nat, req: PartRequest)
    requires dev.Valid() && GrainSnap(dev) && Accepting(dev)
    requires AllInside(dev, t) && Ordered(t) && EndsClear(t) && FirstAtGrain(t)
    requires 1 <= i < |t| && !Matches(dev, t[i + 1], req)
    requires req.fs in dev.knownFs && dev.Inside(Planned(dev, WithoutSuffix(t, i), req.size))
    ensures Round(dev, req, i, t).outcome == Succeeded <==> i + 1 == |t|
  {
    DeleteLoopClosedForm(t, i);
    assert i + 1 in t;
    if i + 1 == |t| {
      LastIsRepaired(dev, t, i, req);
    } else if i + 2 == |t| {
      StrandedPartitionBlocks(dev, t, i, req);
    }
  }

  /**
   A mismatch of partition 1 is repaired if and only if it is the only partition, or the only other one
   survives the deletion and begins behind the replacement.
   */
  lemma FirstRepairedIff(dev: Device, t: Table, req: PartRequest)
    requires dev.Valid() && GrainSnap(dev) && Accepting(dev)
    requires AllInside(dev, t) && Ordered(t) && EndsClear(t) && FirstAtGrain(t)
    requires !Matches(dev, t[1], req)
    requires req.fs in dev.knownFs && dev.Inside(Planned(dev, map[], req.size))
    ensures var replacement := dev.snap(t - {1}, Planned(dev, map[], req.size));
            && replacement.Some?
            && (Round(dev, req, 0, t).outcome == Succeeded
                <==> |t| == 1 || (|t| == 2 && replacement.value.end < t[2].geom.start))
  {
    hide AlignedStart, Extent, Overlaps, Planned, LastEnd, CreateStep, DeleteLoop, Matches, EndsClear, AllInside;
    assert 1 in t && forall n: nat :: n in t <==> 1 <= n <= |t|;
    DeleteLoopClosedForm(t, 0);
    assert (t - {1}).Keys == t.Keys - {1};
    if |t| == 1 {
      assert WithoutSuffix(t, 0) == map[];
      LastIsRepaired(dev, t, 0, req);
    } else if |t| == 2 {
      SurvivorDecides(dev, t, t - {1}, req);
    }
  }

  lemma SurvivorDecides(dev: Device, t: Table, base: Table, req: PartRequest)
    requires dev.Valid() && GrainSnap(dev) && Accepting(dev)
    requires Ordered(t) && FirstAtGrain(t) && |t| == 2 && base.Keys == {2} && base[2] == t[2]
    requires req.fs in dev.knownFs && dev.Inside(Planned(dev, map[], req.size))
    ensures CreateStep(dev, base, req).outcome == Succeeded
            <==> dev.snap(base, Planned(dev, map[], req.size)).value.end < t[2].geom.start
  {
    assert 1 in t && 2 in t;
    assert GRAIN < t[2].geom.start <= t[2].geom.end;
    SamePlan(dev, map[], base, req.size);
    FirstPlanned(dev, req.size);
    hide Ordered, Planned;
    var g := Planned(dev, base, req.size);
    var s := dev.snap(base, g).value;
    assert s.start == GRAIN;
    assert Overlaps(base, s) <==> base[2].geom.Meets(s);
  }

  lemma FirstPlanned(dev: Device, size: uint64)
    requires dev.Valid()
    ensures Planned(dev, map[], size).start == GRAIN
  {
    AlignedStartValue(0);
  }

  /** Without a partition under the number of the count, planning starts from zero. */
  lemma SamePlan(dev: Device, t: Table, t': Table, size: uint64)
    requires dev.Valid() && LastEnd(t) == LastEnd(t')
    ensures Planned(dev, t, size) == Planned(dev, t', size)
  {
  }

  lemma LastIsRepaired(dev: Device, t: Table, i: nat, req: PartRequest)
    requires dev.Valid() && GrainSnap(dev) && Accepting(dev)
    requires AllInside(dev, t) && Ordered(t) && EndsClear(t) && |t| == i + 1
    requires req.fs in dev.knownFs && dev.Inside(Planned(dev, WithoutSuffix(t, i), req.size))
    ensures CreateStep(dev, t - {i + 1}, req).outcome == Succeeded
  {
    DropLast(t);
    CreateAppends(dev, t - {i + 1}, req);
  }

  // ---------------------------------------------------------------- when a whole pass succeeds

  /** Everything requested from k on fits when it is appended, one after the other. */
  ghost predicate AppendsFit(dev: Device, reqs: seq<PartRequest>, k: nat, t: Table)
    requires dev.Valid() && k <= |reqs|
    decreases |reqs| - k
  {
    k == |reqs| ||
    (var g := Planned(dev, t, reqs[k].size);
     && reqs[k].fs in dev.knownFs && dev.Inside(g) && dev.snap(t, g).Some?
     && AppendsFit(dev, reqs, k + 1, t[|t| + 1 := Partition(dev.snap(t, g).value, reqs[k].fs)]))
  }

  ghost predicate Planner(dev: Device, t: Table)
    requires dev.Valid()
  {
    GrainSnap(dev) && Accepting(dev) && AllInside(dev, t) && Ordered(t) && EndsClear(t)
  }

  lemma {:induction false} AppendingSucceedsIff(dev: Device, reqs: seq<PartRequest>, k: nat, t: Table)
    requires dev.Valid() && Planner(dev, t) && k == |t| <= |reqs|
    ensures PassFrom(dev, reqs, k, t).outcome == Succeeded <==> AppendsFit(dev, reqs, k, t)
    decreases |reqs| - k
  {
    if k < |reqs| {
      assert k + 1 !in t;
      CreateAppends(dev, t, reqs[k]);
      var g := Planned(dev, t, reqs[k].size);
      if reqs[k].fs in dev.knownFs && dev.Inside(g) {
        MakeAppends(dev, t, reqs[k]);
        hide Planned, Ordered, EndsClear, AllInside, Make;
        AppendingSucceedsIff(dev, reqs, k + 1, t[|t| + 1 := Partition(dev.snap(t, g).value, reqs[k].fs)]);
      }
    }
  }

  /** The last partition is requested, and differs from its request. */
  predicate LastDiffers(dev: Device, reqs: seq<PartRequest>, t: Table) {
    0 < |t| <= |reqs| && |t| in t && !Matches(dev, t[|t|], reqs[|t| - 1])
  }

  /** From k on at most the last partition differs, and what has to be created fits behind the others. */
  ghost predicate Feasible(dev: Device, reqs: seq<PartRequest>, k: nat, t: Table)
    requires dev.Valid()
  {
    && OnlyLastDiffers(dev, reqs, k, t)
    && if k < |t| && LastDiffers(dev, reqs, t) then AppendsFit(dev, reqs, |t| - 1, t - {|t|})
       else |t| <= |reqs| ==> AppendsFit(dev, reqs, |t|, t)
  }

  /** A partition behind the first that differs and is not the last ends the pass. */
  lemma InnerMismatchFails(dev: Device, t: Table, i: nat, req: PartRequest)
    requires dev.Valid() && Planner(dev, t) && FirstAtGrain(t)
    requires 1 <= i < |t| - 1 && !Matches(dev, t[i + 1], req)
    ensures Round(dev, req, i, t).outcome != Succeeded
  {
    hide Matches, AllInside, CreateStep, Accepting;
    DeleteLoopClosedForm(t, i);
    if |t| == i + 2 {
      StrandedPartitionBlocks(dev, t, i, req);
    }
  }

  /** Replacing the last partition is deleting it and going on as if it had never been there. */
  lemma LastReplaced(dev: Device, reqs: seq<PartRequest>, k: nat, t: Table)
    requires dev.Valid() && Planner(dev, t) && k + 1 == |t| <= |reqs| && !Matches(dev, t[k + 1], reqs[k])
    ensures Planner(dev, t - {|t|}) && |t - {|t|}| == k
    ensures PassFrom(dev, reqs, k, t).outcome == PassFrom(dev, reqs, k, t - {|t|}).outcome
  {
    hide Matches, CreateStep;
    DeleteLoopClosedForm(t, k);
    DropLast(t);
  }

  /** How Feasible unfolds at one number. */
  lemma FeasibleSteps(dev: Device, reqs: seq<PartRequest>, k: nat, t: Table)
    requires dev.Valid() && 1 <= k <= |t| && k <= |reqs| && Contiguous(t, |t|)
    ensures k == |reqs| ==> Feasible(dev, reqs, k, t)
    ensures k == |t| ==> (Feasible(dev, reqs, k, t) <==> AppendsFit(dev, reqs, k, t))
    ensures k < |t| && k < |reqs| && Matches(dev, t[k + 1], reqs[k]) ==>
      (Feasible(dev, reqs, k, t) <==> Feasible(dev, reqs, k + 1, t))
    ensures k < |t| - 1 && k < |reqs| && !Matches(dev, t[k + 1], reqs[k]) ==> !Feasible(dev, reqs, k, t)
    ensures k == |t| - 1 && k < |reqs| && !Matches(dev, t[k + 1], reqs[k]) ==>
      (Feasible(dev, reqs, k, t) <==> AppendsFit(dev, reqs, k, t - {|t|}))
  {
    assert |t| in t && (k < |t| ==> k + 1 in t);
    hide Matches, Contiguous;
    if k < |reqs| && k < |t| {
      assert k + 1 < |t| ==> (OnlyLastDiffers(dev, reqs, k, t) ==> SettledAt(dev, reqs, k, t));
    }
  }

  lemma {:induction false} PassFromSucceedsIff(dev: Device, reqs: seq<PartRequest>, k: nat, t: Table)
    requires dev.Valid() && Planner(dev, t) && FirstAtGrain(t) && 1 <= k <= |t| && k <= |reqs|
    ensures PassFrom(dev, reqs, k, t).outcome == Succeeded <==> Feasible(dev, reqs, k, t)
    decreases |reqs| - k
  {
    FeasibleSteps(dev, reqs, k, t);
    assert k < |t| ==> k + 1 in t;
    hide Planner, FirstAtGrain, Matches, Feasible, AppendsFit, DeleteLoop, CreateStep;
    if k == |reqs| {
    } else if k == |t| {
      AppendingSucceedsIff(dev, reqs, k, t);
    } else if Matches(dev, t[k + 1], reqs[k]) {
      PassFromSucceedsIff(dev, reqs, k + 1, t);
    } else if k + 1 < |t| {
      InnerMismatchFails(dev, t, k, reqs[k]);
      hide Round;
    } else {
      hide Round;
      LastReplaced(dev, reqs, k, t);
      AppendingSucceedsIff(dev, reqs, k, t - {|t|});
    }
  }

  lemma FirstExchanged(t: Table, p: Partition)
    requires Ordered(t) && EndsClear(t) && |t| == 2
    requires p.geom.start == GRAIN <= p.geom.end < t[2].geom.start && p.geom.end % 2048 == 2047
    ensures var t' := t[1 := p]; Ordered(t') && EndsClear(t') && FirstAtGrain(t') && |t'| == 2
  {
    assert 1 in t && 2 in t;
    assert t[1 := p].Keys == t.Keys;
  }

  /** Partition 1 rebuilt in front of the second, which survives its deletion. */
  lemma FirstReplaced(dev: Device, t: Table, req: PartRequest)
    requires dev.Valid() && Planner(dev, t) && FirstAtGrain(t) && |t| == 2 && !Matches(dev, t[1], req)
    requires req.fs in dev.knownFs && dev.Inside(Planned(dev, map[], req.size))
    requires Round(dev, req, 0, t).outcome == Succeeded
    ensures var s := dev.snap(t - {1}, Planned(dev, map[], req.size)).value;
            var t' := t[1 := Partition(s, req.fs)];
            Round(dev, req, 0, t).table == t' && Planner(dev, t') && FirstAtGrain(t') && |t'| == 2
  {
    hide Matches, Planned, Round, Ordered, EndsClear, FirstAtGrain, DeleteLoop, CreateStep;
    FirstRepairedIff(dev, t, req);
    FirstPlanned(dev, req.size);
    assert Contiguous(t, 2) by { OrderedIsContiguous(t); }
    BaseWithoutFirst(dev, t, req);
    FirstExchanged(t, Partition(dev.snap(t - {1}, Planned(dev, map[], req.size)).value, req.fs));
  }

  lemma OrderedIsContiguous(t: Table)
    requires Ordered(t)
    ensures Contiguous(t, |t|)
  {
  }

  /** What the round for partition 1 creates. */
  lemma BaseWithoutFirst(dev: Device, t: Table, req: PartRequest)
    requires dev.Valid() && AllInside(dev, t) && Contiguous(t, 2) && |t| == 2 && !Matches(dev, t[1], req)
    requires Round(dev, req, 0, t).outcome == Succeeded
    ensures dev.snap(t - {1}, Planned(dev, map[], req.size)).Some?
    ensures Round(dev, req, 0, t).table
            == t[1 := Partition(dev.snap(t - {1}, Planned(dev, map[], req.size)).value, req.fs)]
  {
    var base := t - {1};
    assert base.Keys == t.Keys - {1};
    DeleteLoopClosedForm(t, 0);
    SamePlan(dev, map[], base, req.size);
    MakeEffect(dev, base, req);
    assert FreeFrom(base, 1) == 1;
    hide Matches, Planned, Make;
    assert base[1 := Partition(dev.snap(base, Planned(dev, map[], req.size)).value, req.fs)]
        == t[1 := Partition(dev.snap(base, Planned(dev, map[], req.size)).value, req.fs)];
  }

  /** What a pass needs to succeed, told from the table and the requests before it starts. */
  ghost predicate PassFeasible(dev: Device, reqs: seq<PartRequest>, t: Table)
    requires dev.Valid() && Ordered(t)
  {
    if reqs == [] then true
    else if |t| == 0 then AppendsFit(dev, reqs, 0, t)
    else if Matches(dev, t[1], reqs[0]) then Feasible(dev, reqs, 1, t)
    else if |t| == 1 then AppendsFit(dev, reqs, 0, t - {1})
    else
      var g := Planned(dev, map[], reqs[0].size);
      var s := dev.snap(t - {1}, g);
      && |t| == 2 && reqs[0].fs in dev.knownFs && dev.Inside(g)
      && s.Some? && s.value.end < t[2].geom.start
      && Feasible(dev, reqs, 1, t[1 := Partition(s.value, reqs[0].fs)])
  }

  /** A creation that does not fit fails. */
  lemma UnfitFails(dev: Device, t: Table, req: PartRequest)
    requires dev.Valid() && Ordered(t) && |t| == 2 && !Matches(dev, t[1], req)
    requires !(req.fs in dev.knownFs && dev.Inside(Planned(dev, map[], req.size)))
    ensures Round(dev, req, 0, t).outcome != Succeeded
  {
    hide Matches, Planned, Planner, DeleteLoop, CreateStep, Contiguous;
    assert Contiguous(t, 2) by { OrderedIsContiguous(t); }
    InContiguous(t, 2, 1);
    DeleteLoopClosedForm(t, 0);
    WithoutFirst(t);
    SamePlan(dev, map[], t - {1}, req.size);
    UnfitCreation(dev, t - {1}, req);
  }

  lemma WithoutFirst(t: Table)
    requires Contiguous(t, 2) && |t| == 2
    ensures |t - {1}| == 1 && LastEnd(t - {1}) == 0
  {
    assert (t - {1}).Keys == t.Keys - {1};
  }

  lemma InContiguous(t: Table, n: nat, m: nat)
    requires Contiguous(t, n) && 1 <= m <= n
    ensures m in t
  {
  }

  lemma UnfitCreation(dev: Device, t: Table, req: PartRequest)
    requires dev.Valid() && !(req.fs in dev.knownFs && dev.Inside(Planned(dev, t, req.size)))
    ensures CreateStep(dev, t, req).outcome != Succeeded
  {
    hide Planned;
  }

  /**
   A pass over a table the planner built succeeds if and only if everything to be created fits and there is no
   mismatch but the last partition; the one exception is a first partition of two that is rebuilt in front of the
   second.
   */
  lemma PassSucceedsIff(dev: Device, reqs: seq<PartRequest>, t: Table)
    requires dev.Valid() && Planner(dev, t) && (t == map[] || FirstAtGrain(t))
    ensures Pass(dev, reqs, t).outcome == Succeeded <==> PassFeasible(dev, reqs, t)
  {
    hide Matches, AppendsFit, GrainSnap, Accepting, AllInside, EndsClear, CreateStep;
    if reqs != [] {
      if |t| == 0 {
        AppendingSucceedsIff(dev, reqs, 0, t);
      } else {
        assert 1 in t;
        if Matches(dev, t[1], reqs[0]) {
          PassFromSucceedsIff(dev, reqs, 1, t);
        } else if |t| == 1 {
          LastReplaced(dev, reqs, 0, t);
          AppendingSucceedsIff(dev, reqs, 0, t - {1});
        } else {
          FirstMismatchIff(dev, reqs, t);
        }
      }
    }
  }

  lemma FirstMismatchIff(dev: Device, reqs: seq<PartRequest>, t: Table)
    requires dev.Valid() && Planner(dev, t) && FirstAtGrain(t) && |t| >= 2
    requires reqs != [] && !Matches(dev, t[1], reqs[0])
    ensures PassFrom(dev, reqs, 0, t).outcome == Succeeded <==> PassFeasible(dev, reqs, t)
  {
    hide Matches, AppendsFit, CreateStep, Feasible;
    if |t| > 2 {
      DeleteLoopClosedForm(t, 0);
    } else if reqs[0].fs in dev.knownFs && dev.Inside(Planned(dev, map[], reqs[0].size)) {
      FirstRepairedIff(dev, t, reqs[0]);
      if Round(dev, reqs[0], 0, t).outcome == Succeeded {
        FirstReplaced(dev, t, reqs[0]);
        PassFromSucceedsIff(dev, reqs, 1, Round(dev, reqs[0], 0, t).table);
      }
    } else {
      UnfitFails(dev, t, reqs[0]);
    }
  }
}
