/** What a reconcile pass keeps, and when running it again changes nothing. */
module Idempotence {
  import opened Machine
  import opened GcdLcm
  import opened Options
  import opened Parted
  import opened Reconcile

  // ---------------------------------------------------------------- the deletion loop

  /** Numbers 1 to n are all in use. */
  ghost predicate HasFirst(t: Table, n: nat) {
    forall m: nat :: 1 <= m <= n ==> m in t
  }

  /** The numbers in use are exactly 1 to n. */
  ghost predicate Contiguous(t: Table, n: nat) {
    forall m: nat :: m in t <==> 1 <= m <= n
  }

  ghost predicate Numbered(t: Table) {
    0 !in t
  }

  /** The intended effect of the deletion loop: nothing above i is left. */
  function WithoutSuffix(t: Table, i: nat): Table {
    map n | n in t && n <= i :: t[n]
  }

  /** The written loop in closed form: one deletion, and a second one that fails if the count says so. */
  lemma DeleteLoopClosedForm(t: Table, i: nat)
    requires i + 1 in t
    ensures DeleteLoop(t, i, i) ==
      if |t| <= i then Run(Succeeded, t, [])
      else if |t| <= i + 2 then Run(Succeeded, t - {i + 1}, [Remove(i + 1)])
      else Run(DeleteFailed, t - {i + 1}, [Remove(i + 1), Remove(i + 1)])
  {
    var rest := t - {i + 1};
    assert rest.Keys == t.Keys - {i + 1};
    assert |rest| == |t| - 1;
    if |t| > i {
      assert DeleteLoop(t, i, i) == DeleteLoop(rest, i, i + 1).After([Remove(i + 1)]);
    }
  }

  /** The measure of the loop: a successful round lowers the count and raises the counter. */
  lemma DeleteLoopMeasure(t: Table, pi: nat, i: nat)
    requires pi + 1 in t
    ensures |t - {pi + 1}| - (i + 1) == |t| - i - 2
  {
    assert (t - {pi + 1}).Keys == t.Keys - {pi + 1};
  }

  /** The set of the numbers 1 to n. */
  ghost function Numbers(n: nat): (s: set<nat>)
    ensures forall m: nat :: m in s <==> 1 <= m <= n
    ensures |s| == n
  {
    if n == 0 then {} else Numbers(n - 1) + {n}
  }

  lemma ContiguousCount(t: Table, n: nat)
    requires Contiguous(t, n)
    ensures |t| == n
  {
    assert Numbers(n) == t.Keys;
  }

  /** A table with no number above n, and n entries or more, uses exactly 1 to n. */
  lemma FullBelow(t: Table, n: nat)
    requires Numbered(t) && |t| >= n
    requires forall m: nat :: m in t ==> m <= n
    ensures Contiguous(t, n)
  {
    assert t.Keys <= Numbers(n);
    SubsetOfSize(t.Keys, Numbers(n));
  }

  lemma SubsetOfSize(a: set<nat>, b: set<nat>)
    requires a <= b && |a| >= |b|
    ensures a == b
  {
    if a != b {
      var x :| x in b && x !in a;
      assert a <= b - {x};
      SubsetSize(a, b - {x});
    }
  }

  lemma {:induction false} SubsetSize(a: set<nat>, b: set<nat>)
    requires a <= b
    ensures |a| <= |b|
    decreases |a|
  {
    if a != {} {
      var x :| x in a;
      SubsetSize(a - {x}, b - {x});
    }
  }

  /**
   The written deletion removes exactly the suffix from i + 1 on if and only if partition i + 1 is
   the last one of a table without gaps.
   */
  lemma DeletionMeetsIntentIff(t: Table, i: nat)
    requires Numbered(t) && i + 1 in t
    ensures (exists j :: DeleteLoop(t, i, i) == Run(Succeeded, WithoutSuffix(t, i), j)) <==> Contiguous(t, i + 1)
  {
    DeleteLoopClosedForm(t, i);
    var d := DeleteLoop(t, i, i);
    var kept := WithoutSuffix(t, i);
    if Contiguous(t, i + 1) {
      ContiguousCount(t, i + 1);
      assert kept.Keys == (t - {i + 1}).Keys;
      assert kept == t - {i + 1};
      assert d == Run(Succeeded, kept, [Remove(i + 1)]);
    }
    if d.outcome == Succeeded && d.table == kept {
      assert i + 1 !in kept;
      NothingAbove(t, i);
      FullBelow(t, i + 1);
    }
  }

  lemma NothingAbove(t: Table, i: nat)
    requires t - {i + 1} == WithoutSuffix(t, i)
    ensures forall m: nat :: m in t ==> m <= i + 1
  {
    forall m: nat | m in t ensures m <= i + 1 {
      assert m != i + 1 ==> m in t - {i + 1};
    }
  }

  /** On a table without gaps: one partition behind the mismatch survives, more make the loop fail. */
  lemma DeletionOnContiguous(t: Table, c: nat, i: nat)
    requires Contiguous(t, c) && i < c
    ensures c == i + 1 ==> DeleteLoop(t, i, i).outcome == Succeeded && Contiguous(DeleteLoop(t, i, i).table, i)
    ensures c == i + 2 ==> DeleteLoop(t, i, i).outcome == Succeeded
                           && DeleteLoop(t, i, i).table == WithoutSuffix(t, i)[i + 2 := t[i + 2]]
    ensures c >= i + 3 ==> DeleteLoop(t, i, i).outcome == DeleteFailed
  {
    ContiguousCount(t, c);
    DeleteLoopClosedForm(t, i);
  }

  // ---------------------------------------------------------------- what every round keeps

  ghost predicate SamePrefix(t: Table, t': Table, n: nat) {
    forall m: nat :: 1 <= m <= n && m in t ==> m in t' && t'[m] == t[m]
  }

  lemma MakeEffect(dev: Device, t: Table, req: PartRequest)
    requires dev.Valid() && AllInside(dev, t)
    ensures var (made, t') := Make(dev, t, req);
            && AllInside(dev, t')
            && (made != Added ==> t' == t)
            && (made == Added ==>
                  var n, g := FreeFrom(t, 1), Planned(dev, t, req.size);
                  && dev.Inside(g) && dev.snap(t, g).Some? && dev.Inside(dev.snap(t, g).value)
                  && t' == t[n := Partition(dev.snap(t, g).value, req.fs)])
  {
  }

  lemma DeleteLoopEffect(dev: Device, t: Table, i: nat)
    requires i + 1 in t && AllInside(dev, t)
    ensures var t' := DeleteLoop(t, i, i).table;
            AllInside(dev, t') && SamePrefix(t, t', i) && (Numbered(t) ==> Numbered(t'))
    ensures HasFirst(t, i) ==> i + 1 !in DeleteLoop(t, i, i).table
  {
    DeleteLoopClosedForm(t, i);
    if HasFirst(t, i) {
      assert Numbers(i + 1) <= t.Keys by {
        forall m | m in Numbers(i + 1) ensures m in t.Keys { assert m == i + 1 || m in t; }
      }
      SubsetSize(Numbers(i + 1), t.Keys);
    }
  }

  lemma CreateEffect(dev: Device, t: Table, req: PartRequest, i: nat)
    requires dev.Valid() && AllInside(dev, t) && HasFirst(t, i)
    ensures var r := CreateStep(dev, t, req);
            && AllInside(dev, r.table) && SamePrefix(t, r.table, i)
            && (Numbered(t) ==> Numbered(r.table))
            && (r.outcome == Succeeded && i + 1 !in t ==>
                  var g := Planned(dev, t, req.size);
                  && HasFirst(r.table, i + 1)
                  && dev.Inside(g) && dev.snap(t, g).Some?
                  && r.table[i + 1] == Partition(dev.snap(t, g).value, req.fs))
  {
    MakeEffect(dev, t, req);
    if i + 1 !in t {
      assert FreeFrom(t, 1) == i + 1 by {
        var n := FreeFrom(t, 1);
        assert n <= i ==> n in t;
      }
    }
  }

  /** A round leaves partitions 1 to i alone; if it succeeds, partition i + 1 exists afterwards. */
  lemma RoundKeepsPrefix(dev: Device, req: PartRequest, i: nat, t: Table)
    requires dev.Valid() && AllInside(dev, t) && HasFirst(t, i)
    ensures var r := Round(dev, req, i, t);
            && AllInside(dev, r.table) && SamePrefix(t, r.table, i)
            && (Numbered(t) ==> Numbered(r.table))
            && (r.outcome == Succeeded ==> HasFirst(r.table, i + 1))
  {
    if i + 1 in t && !Matches(dev, t[i + 1], req) {
      DeleteLoopEffect(dev, t, i);
      CreateEffect(dev, DeleteLoop(t, i, i).table, req, i);
    } else {
      CreateEffect(dev, t, req, i);
    }
  }

  /** However the rest of the pass ends, it never touches the partitions already dealt with. */
  lemma {:induction false} PassKeepsPrefix(dev: Device, reqs: seq<PartRequest>, k: nat, t: Table)
    requires dev.Valid() && k <= |reqs| && AllInside(dev, t) && HasFirst(t, k)
    ensures var p := PassFrom(dev, reqs, k, t);
            && AllInside(dev, p.table) && SamePrefix(t, p.table, k)
            && (p.outcome == Succeeded ==> HasFirst(p.table, |reqs|))
    decreases |reqs| - k
  {
    if k < |reqs| {
      RoundKeepsPrefix(dev, reqs[k], k, t);
      var r := Round(dev, reqs[k], k, t);
      if r.outcome == Succeeded {
        PassKeepsPrefix(dev, reqs, k + 1, r.table);
      }
    }
  }

  // ---------------------------------------------------------------- what a pass does to one number

  /** A partition as the planner builds it for the request, on some table. */
  ghost predicate BuiltOn(dev: Device, base: Table, p: Partition, req: PartRequest)
    requires dev.Valid()
  {
    var g := Planned(dev, base, req.size);
    dev.Inside(g) && dev.snap(base, g) == Some(p.geom) && p.fs == req.fs
  }

  ghost predicate Built(dev: Device, p: Partition, req: PartRequest)
    requires dev.Valid()
  {
    dev.Inside(p.geom) && exists base: Table :: BuiltOn(dev, base, p, req)
  }

  lemma CreateAt(dev: Device, base: Table, req: PartRequest, i: nat)
    requires dev.Valid() && AllInside(dev, base) && HasFirst(base, i) && i + 1 !in base
    requires CreateStep(dev, base, req).outcome == Succeeded
    ensures var t' := CreateStep(dev, base, req).table;
            && i + 1 in t' && Built(dev, t'[i + 1], req)
            && t' == base[i + 1 := t'[i + 1]]
  {
    MakeEffect(dev, base, req);
    CreateEffect(dev, base, req, i);
    var n := FreeFrom(base, 1);
    assert n <= i ==> n in base;
    assert BuiltOn(dev, base, CreateStep(dev, base, req).table[i + 1], req);
  }

  /** A successful round keeps a partition that passes its test, and else puts a newly built one in its place. */
  lemma RoundAt(dev: Device, req: PartRequest, i: nat, t: Table)
    requires dev.Valid() && AllInside(dev, t) && HasFirst(t, i)
    requires Round(dev, req, i, t).outcome == Succeeded
    ensures var t' := Round(dev, req, i, t).table;
            && i + 1 in t' && t' == t[i + 1 := t'[i + 1]]
            && if i + 1 in t && Matches(dev, t[i + 1], req) then t' == t else Built(dev, t'[i + 1], req)
  {
    if i + 1 in t && !Matches(dev, t[i + 1], req) {
      DeleteLoopClosedForm(t, i);
      DeleteLoopEffect(dev, t, i);
      var base := t - {i + 1};
      assert HasFirst(base, i);
      CreateAt(dev, base, req, i);
      var t' := CreateStep(dev, base, req).table;
      assert base[i + 1 := t'[i + 1]] == t[i + 1 := t'[i + 1]];
    } else if i + 1 !in t {
      CreateAt(dev, t, req, i);
    }
  }

  /** How a round ends that does not keep its partition, and on which table it then creates. */
  lemma RoundOutcomeIff(dev: Device, req: PartRequest, i: nat, t: Table)
    requires dev.Valid() && !(i + 1 in t && Matches(dev, t[i + 1], req))
    ensures var r, base := Round(dev, req, i, t), (if i + 1 in t && |t| > i then t - {i + 1} else t);
            && (r.outcome == DeleteFailed <==> i + 1 in t && |t| >= i + 3)
            && (r.outcome == DeleteFailed ==> r.table == base)
            && (r.outcome != DeleteFailed ==>
                  var (made, t') := Make(dev, base, req);
                  && r.table == t'
                  && (r.outcome == Succeeded <==> made == Added)
                  && (r.outcome == CreateRefused <==> made == Refused)
                  && (r.outcome == Crashed <==> made == Panicked))
  {
    hide Make, Matches;
    if i + 1 in t {
      DeleteLoopClosedForm(t, i);
    }
  }

  /** Over a successful pass each number is treated by its own request alone. */
  lemma {:induction false} PassAt(dev: Device, reqs: seq<PartRequest>, k: nat, t: Table, m: nat)
    requires dev.Valid() && k <= |reqs| && AllInside(dev, t) && HasFirst(t, k)
    requires PassFrom(dev, reqs, k, t).outcome == Succeeded
    ensures var t' := PassFrom(dev, reqs, k, t).table;
            if k <= m < |reqs|
            then m + 1 in t' && if m + 1 in t && Matches(dev, t[m + 1], reqs[m])
                                then t'[m + 1] == t[m + 1] else Built(dev, t'[m + 1], reqs[m])
            else (m + 1 in t' <==> m + 1 in t) && (m + 1 in t ==> t'[m + 1] == t[m + 1])
    decreases |reqs| - k
  {
    hide Matches, Built, AllInside;
    if k < |reqs| {
      RoundAt(dev, reqs[k], k, t);
      RoundKeepsPrefix(dev, reqs[k], k, t);
      PassAt(dev, reqs, k + 1, Round(dev, reqs[k], k, t).table, m);
    }
  }

  // ---------------------------------------------------------------- the calls issued

  /** The table that a list of calls makes of another, one after the other. */
  function Replay(dev: Device, t: Table, ops: seq<Op>): Table
    requires dev.Valid()
    decreases |ops|
  {
    if ops == [] then t
    else Replay(dev, match ops[0]
                     case Remove(n) => t - {n}
                     case Create(req) => Make(dev, t, req).1,
                ops[1..])
  }

  lemma ReplayNothing(dev: Device, t: Table)
    requires dev.Valid()
    ensures Replay(dev, t, []) == t
  {
  }

  lemma {:induction false} ReplaySplit(dev: Device, t: Table, a: seq<Op>, b: seq<Op>)
    requires dev.Valid()
    ensures Replay(dev, t, a + b) == Replay(dev, Replay(dev, t, a), b)
    decreases |a|
  {
    if a == [] {
      assert a + b == b;
    } else {
      assert (a + b)[1..] == a[1..] + b;
      var t' := match a[0] case Remove(n) => t - {n} case Create(req) => Make(dev, t, req).1;
      ReplaySplit(dev, t', a[1..], b);
    }
  }

  lemma {:induction false} DeleteLoopReplays(dev: Device, t: Table, pi: nat, i: nat)
    requires dev.Valid()
    ensures Replay(dev, t, DeleteLoop(t, pi, i).journal) == DeleteLoop(t, pi, i).table
    decreases |t| - i
  {
    if i < |t| {
      var rest := t - {pi + 1};
      if pi + 1 in t {
        assert rest.Keys == t.Keys - {pi + 1};
        DeleteLoopReplays(dev, rest, pi, i + 1);
        ReplaySplit(dev, t, [Remove(pi + 1)], DeleteLoop(rest, pi, i + 1).journal);
      } else {
        assert rest == t;
      }
      assert [Remove(pi + 1)][1..] == [];
    }
  }

  lemma RoundReplays(dev: Device, req: PartRequest, i: nat, t: Table)
    requires dev.Valid()
    ensures Replay(dev, t, Round(dev, req, i, t).journal) == Round(dev, req, i, t).table
  {
    hide Make;
    assert [Create(req)][1..] == [];
    if i + 1 in t && !Matches(dev, t[i + 1], req) {
      var d := DeleteLoop(t, i, i);
      DeleteLoopReplays(dev, t, i, i);
      ReplaySplit(dev, t, d.journal, [Create(req)]);
    }
  }

  /** However the pass ends, its calls, replayed in order, make the table it leaves. */
  lemma {:induction false} PassReplays(dev: Device, reqs: seq<PartRequest>, k: nat, t: Table)
    requires dev.Valid() && k <= |reqs|
    ensures Replay(dev, t, PassFrom(dev, reqs, k, t).journal) == PassFrom(dev, reqs, k, t).table
    decreases |reqs| - k
  {
    hide Replay, Round;
    if k == |reqs| {
      ReplayNothing(dev, t);
    } else {
      var r := Round(dev, reqs[k], k, t);
      RoundReplays(dev, reqs[k], k, t);
      if r.outcome == Succeeded {
        PassReplays(dev, reqs, k + 1, r.table);
        ReplaySplit(dev, t, r.journal, PassFrom(dev, reqs, k + 1, r.table).journal);
      }
    }
  }

  // ---------------------------------------------------------------- sizes in megabytes

  /** The largest sizes some partition can be taken for: up to two million bytes beyond 2^63 bytes. */
  predicate Representable(size: uint64) {
    (size - 2) * 1_000_000 < TWO_63
  }

  lemma NestedDivision(x: int)
    requires x >= 0
    ensures x / 1000 / 1000 == x / 1_000_000
  {
  }

  lemma ProductBounds(a: int, b: int, c: int, d: int)
    requires 0 <= a <= b && 0 <= c <= d
    ensures 0 <= a * c <= b * d
  {
    assert a * c <= b * c <= b * d;
  }

  lemma SizeInside(dev: Device, p: Partition)
    requires dev.Valid() && dev.Inside(p.geom)
    ensures 0 < p.geom.Length() * dev.sectorSize < TWO_63
    ensures SizeMB(dev, p) == p.geom.Length() * dev.sectorSize / 1_000_000
  {
    var bytes := p.geom.Length() * dev.sectorSize;
    ProductBounds(p.geom.Length(), dev.sectors, dev.sectorSize, dev.sectorSize);
    ProductBounds(1, p.geom.Length(), 1, dev.sectorSize);
    InRangeIsUnchanged(bytes);
    NestedDivision(bytes);
  }

  lemma FloorBounds(b: int, s: int)
    requires b >= 0 && s > 0
    ensures b / s * s <= b < b / s * s + s
    ensures 0 <= b / s <= b
    ensures b >= s ==> b / s > 0
  {
    var q, r := Division(b, s);
    ProductBounds(q, q, 1, s);
    if q == 0 { assert q * s == 0; }
  }

  /** The byte length of a planned partition exceeds the requested bytes by at most one sector. */
  lemma PlannedBytes(dev: Device, t: Table, size: uint64)
    requires dev.Valid() && dev.sectorSize < 1_000_000
    requires dev.Inside(Planned(dev, t, size)) && size * 1_000_000 < TWO_63
    ensures var bytes := Planned(dev, t, size).Length() * dev.sectorSize;
            size * 1_000_000 < bytes <= size * 1_000_000 + dev.sectorSize
  {
    hide AlignedStart, LastEnd;
    var g, ss, want := Planned(dev, t, size), dev.sectorSize, size * 1_000_000;
    SectorsFit(dev);
    assert want == size * 1000 * 1000;
    InRangeIsUnchanged(want);
    var q := want / ss;
    FloorBounds(want, ss);
    EndDoesNotWrap(g.start, q);
    OneSectorMore(q, ss);
  }

  lemma OneSectorMore(q: int, s: int)
    ensures (q + 1) * s == q * s + s
  {
  }

  lemma SectorsFit(dev: Device)
    requires dev.Valid()
    ensures dev.sectors < TWO_63 && dev.sectorSize < TWO_63
  {
    ProductBounds(dev.sectors, dev.sectors, 1, dev.sectorSize);
    ProductBounds(1, dev.sectors, dev.sectorSize, dev.sectorSize);
  }

  /** The byte count of such a request wraps to a negative number. */
  lemma WrappedExtent(dev: Device, size: uint64)
    requires dev.Valid() && dev.sectorSize < 1_000_000
    requires size * 1_000_000 >= TWO_63 && Representable(size)
    ensures -TWO_63 <= Extent(dev, size) < 0
  {
    var ss, want := dev.sectorSize, size * 1_000_000;
    assert want == size * 1000 * 1000;
    var s := want - TWO_64;
    assert ToInt64(ToUint64(want)) == s;
    FloorBounds(-s, ss);
    assert Extent(dev, size) == -((-s) / ss);
  }

  /** A request whose bytes reach 2^63 but which is still representable wraps to a negative extent. */
  lemma WrappedIsNotPlanned(dev: Device, t: Table, size: uint64)
    requires dev.Valid() && dev.sectorSize < 1_000_000
    requires size * 1_000_000 >= TWO_63 && Representable(size)
    ensures !dev.Inside(Planned(dev, t, size))
  {
    hide AlignedStart, LastEnd, Extent, Representable;
    SectorsFit(dev);
    WrappedExtent(dev, size);
    var g := Planned(dev, t, size);
    if 0 <= g.start < dev.sectors {
      InRangeIsUnchanged(g.start + Extent(dev, size));
    }
  }

  lemma EndDoesNotWrap(start: int, q: int)
    requires 0 <= start < TWO_63 && 0 <= q < TWO_63
    requires start <= ToInt64(start + q)
    ensures ToInt64(start + q) == start + q
  {
  }

  /**
   Creating a partition without snapping and reading its size back in MB gives exactly the request,
   for sector sizes below a million bytes and requests below 2^63 bytes.
   */
  lemma SizeRoundTrip(dev: Device, t: Table, req: PartRequest)
    requires dev.Valid() && dev.sectorSize < 1_000_000
    requires req.size * 1_000_000 < TWO_63
    requires dev.Inside(Planned(dev, t, req.size))
    ensures SizeMB(dev, Partition(Planned(dev, t, req.size), req.fs)) == req.size
  {
    PlannedBytes(dev, t, req.size);
    var p := Partition(Planned(dev, t, req.size), req.fs);
    SizeInside(dev, p);
  }

  /** The constraint changes the byte length of what it accepts by at most d. */
  ghost predicate SnapWithin(dev: Device, d: nat) {
    forall t: Table, g: Geometry :: dev.snap(t, g).Some? ==>
      Distance(dev.snap(t, g).value.Length() * dev.sectorSize, g.Length() * dev.sectorSize) <= d
  }

  lemma ToleranceCoversSnap(bytes: int, bytes': int, size: int)
    requires size >= 0 && bytes' >= 0
    requires size * 1_000_000 < bytes < (size + 1) * 1_000_000
    requires Distance(bytes', bytes) <= 2_000_000
    ensures Distance(bytes' / 1_000_000, size) <= 2
  {
  }

  /** The test, in bytes: from two million below the requested ones to just under three million above. */
  lemma MatchesIff(dev: Device, p: Partition, req: PartRequest)
    requires dev.Valid() && dev.Inside(p.geom)
    ensures var bytes := (p.geom.end - p.geom.start + 1) * dev.sectorSize;
            Matches(dev, p, req) <==>
              p.fs == req.fs && (req.size - 2) * 1_000_000 <= bytes < (req.size + 3) * 1_000_000
  {
    SizeInside(dev, p);
    var bytes := p.geom.Length() * dev.sectorSize;
    hide SizeMB;
    assert bytes == (p.geom.end - p.geom.start + 1) * dev.sectorSize;
    WithinIff(bytes, req.size);
  }

  lemma WithinIff(bytes: int, size: int)
    requires bytes >= 0
    ensures Distance(bytes / 1_000_000, size) <= 2 <==> (size - 2) * 1_000_000 <= bytes < (size + 3) * 1_000_000
  {
  }

  /** Any partition on the device passes the size test only for representable requests. */
  lemma MatchIsRepresentable(dev: Device, p: Partition, req: PartRequest)
    requires dev.Valid() && dev.Inside(p.geom) && Matches(dev, p, req)
    ensures Representable(req.size)
  {
    SizeInside(dev, p);
  }

  /** A partition just created passes the test of its own request exactly when that is representable. */
  lemma CreatedMatchesIff(dev: Device, t: Table, req: PartRequest)
    requires dev.Valid() && dev.sectorSize < 1_000_000 && SnapWithin(dev, 2_000_000)
    requires var g := Planned(dev, t, req.size);
             dev.Inside(g) && dev.snap(t, g).Some? && dev.Inside(dev.snap(t, g).value)
    ensures Matches(dev, Partition(dev.snap(t, Planned(dev, t, req.size)).value, req.fs), req)
            <==> Representable(req.size)
  {
    var g := Planned(dev, t, req.size);
    var p := Partition(dev.snap(t, g).value, req.fs);
    SizeInside(dev, p);
    if req.size * 1_000_000 < TWO_63 {
      PlannedBytes(dev, t, req.size);
      ToleranceCoversSnap(g.Length() * dev.sectorSize, p.geom.Length() * dev.sectorSize, req.size);
    }
    if Representable(req.size) && req.size * 1_000_000 >= TWO_63 {
      WrappedIsNotPlanned(dev, t, req.size);
    }
    if Matches(dev, p, req) {
      MatchIsRepresentable(dev, p, req);
    }
  }

  // ---------------------------------------------------------------- idempotence

  /** The partition requested with index j exists and passes the test. */
  ghost predicate SettledAt(dev: Device, reqs: seq<PartRequest>, j: nat, t: Table)
    requires j < |reqs|
  {
    j + 1 in t && Matches(dev, t[j + 1], reqs[j])
  }

  ghost predicate Settled(dev: Device, reqs: seq<PartRequest>, k: nat, t: Table) {
    forall j: nat :: k <= j < |reqs| ==> SettledAt(dev, reqs, j, t)
  }

  /** The pass issues no changing call exactly on the tables that already satisfy the request. */
  lemma {:induction false} QuietIffSettled(dev: Device, reqs: seq<PartRequest>, k: nat, t: Table)
    requires dev.Valid() && k <= |reqs|
    ensures PassFrom(dev, reqs, k, t).journal == [] <==> Settled(dev, reqs, k, t)
    ensures Settled(dev, reqs, k, t) ==> PassFrom(dev, reqs, k, t) == Run(Succeeded, t, [])
    decreases |reqs| - k
  {
    if k < |reqs| {
      QuietIffSettled(dev, reqs, k + 1, t);
      var r := Round(dev, reqs[k], k, t);
      if k + 1 in t && Matches(dev, t[k + 1], reqs[k]) {
        assert r == Run(Succeeded, t, []);
        assert PassFrom(dev, reqs, k, t) == PassFrom(dev, reqs, k + 1, t).After([]);
        assert PassFrom(dev, reqs, k, t) == PassFrom(dev, reqs, k + 1, t);
        assert SettledAt(dev, reqs, k, t);
      } else {
        assert !SettledAt(dev, reqs, k, t);
        assert r.journal != [] by {
          if k + 1 in t { DeleteLoopClosedForm(t, k); }
        }
        assert PassFrom(dev, reqs, k, t).journal != [];
      }
    }
  }

  lemma RoundSettlesIff(dev: Device, req: PartRequest, i: nat, t: Table)
    requires dev.Valid() && dev.sectorSize < 1_000_000 && SnapWithin(dev, 2_000_000)
    requires AllInside(dev, t) && HasFirst(t, i)
    requires Round(dev, req, i, t).outcome == Succeeded
    ensures var t' := Round(dev, req, i, t).table;
            HasFirst(t', i + 1) && (Matches(dev, t'[i + 1], req) <==> Representable(req.size))
  {
    RoundKeepsPrefix(dev, req, i, t);
    var r := Round(dev, req, i, t);
    assert i + 1 in r.table;
    if i + 1 in t && Matches(dev, t[i + 1], req) {
      MatchIsRepresentable(dev, t[i + 1], req);
    } else {
      var base := t;
      if i + 1 in t {
        DeleteLoopEffect(dev, t, i);
        base := DeleteLoop(t, i, i).table;
      }
      CreateEffect(dev, base, req, i);
      MakeEffect(dev, base, req);
      CreatedMatchesIff(dev, base, req);
    }
  }

  /** After the pass, each partition from index k on passes the test exactly when its request is representable. */
  ghost predicate SettledWhereRepresentable(dev: Device, reqs: seq<PartRequest>, k: nat, t: Table) {
    forall j: nat :: k <= j < |reqs| ==> (SettledAt(dev, reqs, j, t) <==> Representable(reqs[j].size))
  }

  ghost predicate AllRepresentable(reqs: seq<PartRequest>) {
    forall j: nat :: j < |reqs| ==> Representable(reqs[j].size)
  }

  lemma {:induction false} PassSettlesIff(dev: Device, reqs: seq<PartRequest>, k: nat, t: Table)
    requires dev.Valid() && dev.sectorSize < 1_000_000 && SnapWithin(dev, 2_000_000)
    requires k <= |reqs| && AllInside(dev, t) && HasFirst(t, k)
    requires PassFrom(dev, reqs, k, t).outcome == Succeeded
    ensures SettledWhereRepresentable(dev, reqs, k, PassFrom(dev, reqs, k, t).table)
    decreases |reqs| - k
  {
    if k < |reqs| {
      var r := Round(dev, reqs[k], k, t);
      RoundKeepsPrefix(dev, reqs[k], k, t);
      RoundSettlesIff(dev, reqs[k], k, t);
      PassSettlesIff(dev, reqs, k + 1, r.table);
      PassKeepsPrefix(dev, reqs, k + 1, r.table);
      var t' := PassFrom(dev, reqs, k, t).table;
      assert t' == PassFrom(dev, reqs, k + 1, r.table).table;
      assert k + 1 in r.table && k + 1 in t' && t'[k + 1] == r.table[k + 1];
    }
  }

  lemma SettledIffRepresentable(dev: Device, reqs: seq<PartRequest>, t: Table)
    requires SettledWhereRepresentable(dev, reqs, 0, t)
    ensures Settled(dev, reqs, 0, t) <==> AllRepresentable(reqs)
  {
    if AllRepresentable(reqs) {
      forall j: nat | j < |reqs| ensures SettledAt(dev, reqs, j, t) {
        assert Representable(reqs[j].size);
      }
    }
    if Settled(dev, reqs, 0, t) {
      forall j: nat | j < |reqs| ensures Representable(reqs[j].size) {
        assert SettledAt(dev, reqs, j, t);
      }
    }
  }

  /**
   After a pass that succeeded, a second pass over its result issues no deletion and no creation,
   provided and only provided that every requested size is representable. Every partition may have
   been snapped by up to two million bytes.
   */
  lemma SecondPassIsQuietIff(dev: Device, reqs: seq<PartRequest>, t: Table)
    requires dev.Valid() && dev.sectorSize < 1_000_000 && SnapWithin(dev, 2_000_000)
    requires AllInside(dev, t)
    requires Pass(dev, reqs, t).outcome == Succeeded
    ensures var t' := Pass(dev, reqs, t).table;
            && (Pass(dev, reqs, t').journal == [] <==> AllRepresentable(reqs))
            && (Pass(dev, reqs, t').journal == [] ==> Pass(dev, reqs, t') == Run(Succeeded, t', []))
  {
    var t' := Pass(dev, reqs, t).table;
    PassSettlesIff(dev, reqs, 0, t);
    QuietIffSettled(dev, reqs, 0, t');
    SettledIffRepresentable(dev, reqs, t');
  }
}
