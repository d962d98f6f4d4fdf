/**
 Every schedule of an upload of one Info of nonzero size, any chunks and one Hash: where the mutex, the stop
 handshake and the progress goroutine are. The gate opens wherever the wrapping counter meets the announced size.
 */
module UploadProgress {
  import opened Machine
  import opened Options
  import opened Files
  import opened Upload

  /** The file may have prior content. */
  datatype Plan = Plan(chunks: seq<Bytes>, size: uint32, path: string, sum: string,
                       files: map<string, Bytes>, digest: Bytes -> string)
  {
    ghost predicate Valid() { size > 0 }

    /** The chunks are as many bytes as announced. */
    predicate Exact() { |Concat(chunks)| == size }

    function Stream(): seq<Message> {
      [Info(size, path)] + seq(|chunks|, i requires 0 <= i < |chunks| => Chunk(chunks[i])) + [Hash(sum)]
    }

    function Prior(): Bytes {
      if path in files then files[path] else []
    }

    function Start(): State { Init(Stream(), files) }

    /** Messages taken off the stream. */
    function Taken(s: State): int { |chunks| + 2 - |s.inbox| }

    /** Data written after k messages. */
    function Data(k: int): Bytes {
      if k <= 0 then [] else if k - 1 <= |chunks| then Concat(chunks[..k - 1]) else Concat(chunks)
    }

    /** The verdict over all data laid over the prior content. */
    function Expected(): Result {
      var content := Overlay(Prior(), Concat(chunks));
      if |content| != size then SizeError
      else if digest(content) != sum then HashError
      else Accepted
    }

    /** After m chunks the counter equals the announced size. */
    predicate Hit(m: int) {
      1 <= m <= |chunks| && |Concat(chunks[..m])| % TWO_32 == size
    }

    /** Number of chunks among the first m after which it does. */
    function Hits(m: int): nat
      decreases m
    {
      if m <= 0 then 0 else Hits(m - 1) + (if Hit(m) then 1 else 0)
    }

    function AllHits(): nat { Hits(|chunks|) }

    function Percent(n: int): int
      requires size > 0
    {
      n * 100 / size
    }
  }

  ghost predicate Live(s: State) {
    |s.progress| == 1 && s.progress[0] in {Selecting, Sending, Sleeping}
  }

  ghost predicate Ending(s: State) {
    |s.progress| == 1 && s.progress[0] in {FinalSending, Gone}
  }

  /** Before completion: the mutex is held, nothing has been handed over, the goroutine is polling. */
  ghost predicate Gated(s: State) {
    s.locked && s.completions == [] && s.handshakes == 0 && Live(s)
  }

  /** After completion: one handshake, one unlock where the counter met the size, the goroutine on its way out. */
  ghost predicate Completed(p: Plan, s: State) {
    && |s.completions| == 1 && s.completions[0] % TWO_32 == p.size
    && s.handshakes == 1 && Ending(s)
  }

  /** The state of the gate after the given number of hits has been dealt with. */
  ghost predicate Phase(p: Plan, s: State, hits: nat) {
    hits <= 1 && if hits == 0 then Gated(s) else Completed(p, s) && !s.locked
  }

  /** Which gate state goes with which place of the receive loop. */
  ghost predicate Staged(p: Plan, s: State) {
    var n, k := |p.chunks|, p.Taken(s);
    match s.receiver
    case Receiving => k <= n + 1 && Phase(p, s, p.Hits(k - 1))
    case Comparing => 2 <= k <= n + 1 && Phase(p, s, p.Hits(k - 2))
    case Stopping => 2 <= k <= n + 1 && p.Hit(k - 1) && Phase(p, s, p.Hits(k - 2))
    case Unlocking => 2 <= k <= n + 1 && p.Hit(k - 1) && p.Hits(k - 2) == 0
                      && s.locked && s.completions == [] && s.handshakes == 1 && Ending(s)
    case Locking(sum) => k == n + 2 && sum == p.sum && Phase(p, s, p.AllHits())
    case Checking(sum) => k == n + 2 && sum == p.sum && p.AllHits() == 1 && Completed(p, s) && s.locked
    case Returned(r) => k == n + 2 && r == p.Expected() && p.AllHits() == 1 && Completed(p, s) && !s.locked
  }

  /** What the file, the counter and the announced size are after the Info. */
  ghost predicate Stored(p: Plan, s: State) {
    var w := p.Data(p.Taken(s));
    && s.open == Some(Handle(p.path, |w|))
    && s.files == p.files[p.path := Overlay(p.Prior(), w)]
    && s.total == p.size
    && s.received == |w| % TWO_32
  }

  ghost predicate Inv(p: Plan, s: State) {
    && |s.inbox| <= |p.chunks| + 2
    && s.inbox == p.Stream()[p.Taken(s)..]
    && if p.Taken(s) == 0 then s == p.Start() else Stored(p, s) && Staged(p, s)
  }

  predicate Fails(step: Step) { step.OpenFails? || step.WriteFails? }

  lemma ConcatSnoc(parts: seq<Bytes>, i: nat)
    requires i < |parts|
    ensures Concat(parts[..i + 1]) == Concat(parts[..i]) + parts[i]
  {
    assert parts[..i + 1][..i] == parts[..i];
  }

  /** More chunks, more data and more hits. */
  lemma {:induction false} Grows(p: Plan, m: nat, n: nat)
    requires m <= n <= |p.chunks|
    ensures |Concat(p.chunks[..m])| <= |Concat(p.chunks[..n])|
    ensures p.Hits(m) <= p.Hits(n)
    decreases n - m
  {
    if m < n {
      Grows(p, m, n - 1);
      ConcatSnoc(p.chunks, n - 1);
    }
  }

  lemma WholeData(p: Plan)
    ensures p.Data(|p.chunks| + 1) == p.Data(|p.chunks| + 2) == Concat(p.chunks)
  {
    assert p.chunks[..|p.chunks|] == p.chunks;
  }

  lemma DataSnoc(p: Plan, k: int)
    requires 1 <= k <= |p.chunks|
    ensures p.Data(k + 1) == p.Data(k) + p.chunks[k - 1]
  {
    ConcatSnoc(p.chunks, k - 1);
  }

  lemma StreamAt(p: Plan, k: nat)
    requires k < |p.chunks| + 2
    ensures |p.Stream()| == |p.chunks| + 2
    ensures p.Stream()[k] == if k == 0 then Info(p.size, p.path)
                             else if k <= |p.chunks| then Chunk(p.chunks[k - 1]) else Hash(p.sum)
    ensures p.Stream()[k..][1..] == p.Stream()[k + 1..]
  {
  }

  // ---------------------------------------------------------------- the steps

  lemma InfoStep(p: Plan, s: State)
    requires p.Valid() && Inv(p, s) && p.Taken(s) == 0
    ensures Sound(s) && Enabled(s, Receive) && Inv(p, Apply(s, Receive, p.digest))
    ensures Apply(s, Receive, p.digest).receiver == Receiving
  {
    StreamAt(p, 0);
    OverlayNothing(p.Prior());
    assert p.chunks[..0] == [];
    var s' := Apply(s, Receive, p.digest);
    assert p.Taken(s') == 1;
  }

  lemma ChunkStep(p: Plan, s: State)
    requires p.Valid() && Inv(p, s) && s.receiver == Receiving && 1 <= p.Taken(s) <= |p.chunks|
    requires Sound(s) && Enabled(s, Receive)
    ensures Inv(p, Apply(s, Receive, p.digest)) && Apply(s, Receive, p.digest).receiver == Comparing
  {
    hide Apply, Enabled, Dispatch, Written, Stored, Sound, Concat, ToUint32, Plan.Stream, Plan.Data, Plan.Hits, Phase;
    var k := p.Taken(s);
    StreamAt(p, k);
    ReceiveChunk(s, p.digest);
    DataSnoc(p, k);
    AlreadyOpen(p, s);
    var s' := Apply(s, Receive, p.digest);
    assert p.Taken(s') == k + 1;
    ChunkStored(p, s, p.chunks[k - 1], s');
    SamePhase(p, s, s', p.Hits(k - 1));
  }

  lemma AlreadyOpen(p: Plan, s: State)
    requires Stored(p, s)
    ensures s.open.Some? && s.total == p.size && s.received == |p.Data(p.Taken(s))| % TWO_32
  {
  }

  lemma SamePhase(p: Plan, s: State, s': State, hits: nat)
    requires Phase(p, s, hits)
    requires s'.progress == s.progress && s'.locked == s.locked
    requires s'.completions == s.completions && s'.handshakes == s.handshakes
    ensures Phase(p, s', hits)
  {
  }

  /** A chunk lengthens the data laid over the prior content, and the counter counts it modulo 2^32. */
  lemma ChunkStored(p: Plan, s: State, data: Bytes, s': State)
    requires Sound(s) && Stored(p, s)
    requires p.Data(p.Taken(s')) == p.Data(p.Taken(s)) + data
    requires s' == Written(s, data).(inbox := s'.inbox, receiver := Comparing,
                                     received := ToUint32(s.received + |data|))
    ensures Stored(p, s')
    ensures s'.reports == s.reports && s'.progress == s.progress && s'.locked == s.locked
    ensures s'.completions == s.completions && s'.handshakes == s.handshakes
  {
    var w := p.Data(p.Taken(s));
    OverlayGrows(p.Prior(), w, data);
    CounterStep(|w|, |data|);
    hide Plan.Data;
    assert s.files[p.path] == Overlay(p.Prior(), w);
    assert s'.files == p.files[p.path := Overlay(p.Prior(), w + data)];
  }

  lemma HashStep(p: Plan, s: State)
    requires p.Valid() && Inv(p, s) && s.receiver == Receiving && p.Taken(s) == |p.chunks| + 1
    requires Sound(s) && Enabled(s, Receive)
    ensures Inv(p, Apply(s, Receive, p.digest)) && Apply(s, Receive, p.digest).receiver.Locking?
  {
    hide Plan.Data, Plan.Hits, Phase, Apply, Plan.Stream;
    StreamAt(p, |p.chunks| + 1);
    WholeData(p);
    ReceiveOther(s, p.digest);
    var s' := Apply(s, Receive, p.digest);
    assert p.Taken(s') == |p.chunks| + 2;
    SamePhase(p, s, s', p.AllHits());
  }

  /** The file is read and judged. */
  lemma CheckStep(p: Plan, s: State)
    requires p.Valid() && Inv(p, s) && s.receiver.Checking? && Sound(s)
    ensures Inv(p, Apply(s, Check, p.digest))
  {
    hide Plan.Data, Plan.Hits, Plan.Stream;
    WholeData(p);
    OverlayGrows(p.Prior(), Concat(p.chunks), []);
    assert Verdict(s, p.digest, s.receiver.sum) == p.Expected();
  }

  lemma CompareStep(p: Plan, s: State)
    requires p.Valid() && Inv(p, s) && Sound(s) && s.receiver == Comparing
    ensures Inv(p, Apply(s, Compare, p.digest))
  {
    hide Plan.Stream, Phase, Concat;
    var k := p.Taken(s);
    var s' := Apply(s, Compare, p.digest);
    assert s.received == s.total <==> p.Hit(k - 1);
    assert p.Taken(s') == k && Stored(p, s');
    SamePhase(p, s, s', p.Hits(k - 2));
  }

  lemma HandshakeStep(p: Plan, s: State, g: nat)
    requires p.Valid() && Inv(p, s) && Sound(s) && Enabled(s, Handshake(g))
    ensures Inv(p, Apply(s, Handshake(g), p.digest))
  {
    hide Plan.Stream, Plan.Data, Plan.Hits, Concat;
    var s' := Apply(s, Handshake(g), p.digest);
    assert p.Taken(s') == p.Taken(s) && Stored(p, s');
  }

  lemma UnlockStep(p: Plan, s: State)
    requires p.Valid() && Inv(p, s) && Sound(s) && s.receiver == Unlocking
    ensures Inv(p, Apply(s, Unlock, p.digest))
  {
    hide Plan.Stream, Concat;
    var k := p.Taken(s);
    var s' := Apply(s, Unlock, p.digest);
    assert p.Taken(s') == k && Stored(p, s');
    assert s'.completions == [|p.Data(k)|];
    assert p.Hits(k - 1) == 1;
  }

  lemma LockStep(p: Plan, s: State)
    requires p.Valid() && Inv(p, s) && Sound(s) && Enabled(s, Lock)
    ensures Inv(p, Apply(s, Lock, p.digest))
  {
    hide Plan.Stream, Plan.Data, Plan.Hits, Concat;
    var s' := Apply(s, Lock, p.digest);
    assert p.Taken(s') == p.Taken(s) && Stored(p, s');
  }

  /** What a step of the goroutine does. */
  lemma ProgressShape(s: State, step: Step, digest: Bytes -> string)
    requires Sound(s) && Enabled(s, step)
    requires step.Poll? || step.Report? || step.Wake? || step.FinalReport?
    ensures step.g < |s.progress|
    ensures s.progress[step.g] == match step case Poll(_) => Selecting case Report(_) => Sending
                                             case Wake(_) => Sleeping case _ => FinalSending
    ensures Apply(s, step, digest) ==
      match step
      case Poll(g) => s.(progress := s.progress[g := Sending])
      case Report(g) => Reported(s, g, Sleeping)
      case Wake(g) => s.(progress := s.progress[g := Selecting])
      case FinalReport(g) => Reported(s, g, Gone)
  {
  }

  /** Moving the goroutine inside its polling cycle, or to its end after completion, keeps the invariant. */
  lemma MoveKeeps(p: Plan, s: State, next: Progress, s': State)
    requires p.Valid() && Inv(p, s) && p.Taken(s) > 0 && |s.progress| == 1
    requires if s.progress[0] == FinalSending then next == Gone
             else s.progress[0] != Gone && next in {Selecting, Sending, Sleeping}
    requires s' == s.(progress := [next], reports := s'.reports)
    ensures Inv(p, s')
  {
    hide Plan.Data, Plan.Stream, Plan.Hits;
    assert p.Taken(s') == p.Taken(s);
  }

  /** When the goroutine can step it is the only one. */
  lemma OnlyOne(p: Plan, s: State)
    requires p.Valid() && Inv(p, s) && s.progress != []
    ensures p.Taken(s) > 0 && |s.progress| == 1 && s.total != 0
  {
  }

  lemma ProgressStep(p: Plan, s: State, step: Step)
    requires p.Valid() && Inv(p, s) && Sound(s) && Enabled(s, step)
    requires step.Poll? || step.Report? || step.Wake? || step.FinalReport?
    ensures Inv(p, Apply(s, step, p.digest))
    ensures Apply(s, step, p.digest).receiver == s.receiver
    ensures Apply(s, step, p.digest).received == s.received
  {
    hide Apply, Enabled, Stored, Staged, Inv, Sound, Plan.Data, Plan.Stream, Plan.Percent, Plan.Valid;
    ProgressShape(s, step, p.digest);
    OnlyOne(p, s);
    assert s.progress == [s.progress[0]];
    var next := match step case Poll(_) => Sending case Report(_) => Sleeping case Wake(_) => Selecting case _ => Gone;
    MoveKeeps(p, s, next, Apply(s, step, p.digest));
  }

  /** Every step of such an upload without input or output errors keeps the invariant. */
  lemma StepInv(p: Plan, s: State, step: Step)
    requires p.Valid() && Inv(p, s) && Sound(s) && Enabled(s, step) && !Fails(step)
    ensures Inv(p, Apply(s, step, p.digest))
  {
    match step {
      case Receive =>
        if p.Taken(s) == 0 {
          InfoStep(p, s);
        } else if p.Taken(s) <= |p.chunks| {
          ChunkStep(p, s);
        } else {
          HashStep(p, s);
        }
      case Check => CheckStep(p, s);
      case Compare => CompareStep(p, s);
      case Handshake(g) => HandshakeStep(p, s, g);
      case Unlock => UnlockStep(p, s);
      case Lock => LockStep(p, s);
      case _ => ProgressStep(p, s, step);
    }
  }

  lemma {:induction false} RunInv(p: Plan, s: State, steps: seq<Step>, end: State)
    requires p.Valid() && Inv(p, s) && Sound(s) && Leads(s, steps, end, p.digest)
    requires forall i :: 0 <= i < |steps| ==> !Fails(steps[i])
    ensures Inv(p, end) && Sound(end)
    decreases |steps|
  {
    if steps != [] {
      StepInv(p, s, steps[0]);
      StepSound(s, steps[0], p.digest);
      RunInv(p, Apply(s, steps[0], p.digest), steps[1..], end);
    }
  }

  lemma StartInv(p: Plan)
    ensures Inv(p, p.Start()) && Sound(p.Start())
  {
    StreamAt(p, 0);
    assert p.Stream()[0..] == p.Stream();
  }

  // ---------------------------------------------------------------- reports, when the chunks are as announced

  /** Progress messages never go back and never run ahead of the counter; the last one says 100. */
  ghost predicate ReportsOk(p: Plan, s: State)
    requires p.size > 0
  {
    && (forall i, j :: 0 <= i < j < |s.reports| ==> s.reports[i] <= s.reports[j])
    && (forall i :: 0 <= i < |s.reports| ==> 0 <= s.reports[i] <= p.Percent(s.received))
    && (|s.progress| == 1 && s.progress[0] == Gone ==> s.reports != [] && s.reports[|s.reports| - 1] == 100)
  }

  lemma PercentMonotonic(p: Plan, a: int, b: int)
    requires p.size > 0 && 0 <= a <= b
    ensures 0 <= p.Percent(a) <= p.Percent(b)
    ensures p.Percent(p.size) == 100
  {
    DivMonotonic(a * 100, b * 100, p.size);
    DivMonotonic(0, a * 100, p.size);
    assert p.size * 100 / p.size == 100;
  }

  /** Chunks taken after k messages. */
  function Chunks(p: Plan, k: int): nat {
    if k <= 0 then 0 else if k - 1 <= |p.chunks| then k - 1 else |p.chunks|
  }

  lemma DataIsConcat(p: Plan, k: int)
    requires k > 0
    ensures p.Data(k) == Concat(p.chunks[..Chunks(p, k)])
  {
    assert p.chunks[..|p.chunks|] == p.chunks;
  }

  /** The goroutine is on its way out only after a hit. */
  lemma EndingMeansHit(p: Plan, s: State)
    requires Inv(p, s) && p.Taken(s) > 0 && Ending(s)
    ensures p.Hits(Chunks(p, p.Taken(s))) > 0
  {
    assert Staged(p, s);
    hide Inv, Stored, Plan.Hit, Plan.Expected, Plan.Data, Plan.Stream;
  }

  /** The counter of an exact upload does not wrap, and is full once the goroutine is on its way out. */
  lemma ExactCounter(p: Plan, s: State)
    requires p.Valid() && p.Exact() && Inv(p, s) && p.Taken(s) > 0
    ensures s.received == |p.Data(p.Taken(s))| <= p.size
    ensures Ending(s) ==> s.received == p.size
  {
    var k := p.Taken(s);
    assert s.received == |p.Data(k)| % TWO_32;
    hide Inv, Plan.Data, Plan.Hits;
    DataIsConcat(p, k);
    Grows(p, Chunks(p, k), |p.chunks|);
    assert p.chunks[..|p.chunks|] == p.chunks;
    if Ending(s) {
      EndingMeansHit(p, s);
      FullOnHit(p, Chunks(p, k));
    }
  }

  /** In an exact upload nothing is missing after a hit. */
  lemma {:induction false} FullOnHit(p: Plan, m: nat)
    requires p.Valid() && p.Exact() && m <= |p.chunks| && p.Hits(m) > 0
    ensures |Concat(p.chunks[..m])| == p.size
  {
    assert p.chunks[..|p.chunks|] == p.chunks;
    Grows(p, m, |p.chunks|);
    if !p.Hit(m) {
      FullOnHit(p, m - 1);
      Grows(p, m - 1, m);
    }
  }

  ghost predicate NonemptyChunks(p: Plan) {
    forall i :: 0 <= i < |p.chunks| ==> |p.chunks[i]| > 0
  }

  /** Nonempty chunks that sum up to the announced size hit it once, with the last of them. */
  lemma WellFormedHitsOnce(p: Plan)
    requires p.Valid() && p.Exact() && NonemptyChunks(p)
    ensures p.AllHits() == 1
  {
    var n := |p.chunks|;
    assert p.chunks[..n] == p.chunks;
    assert n > 0;
    NoHitYet(p, n - 1);
    assert p.Hit(n);
  }

  lemma {:induction false} NoHitYet(p: Plan, m: nat)
    requires p.Valid() && p.Exact() && NonemptyChunks(p) && m < |p.chunks|
    ensures p.Hits(m) == 0
  {
    if m > 0 {
      NoHitYet(p, m - 1);
      ConcatSnoc(p.chunks, m);
      Grows(p, m + 1, |p.chunks|);
      assert p.chunks[..|p.chunks|] == p.chunks;
      assert |Concat(p.chunks[..m])| < p.size;
      assert !p.Hit(m);
    }
  }

  lemma ReportAdds(p: Plan, s: State, next: Progress)
    requires p.Valid() && ReportsOk(p, s) && |s.progress| == 1 && s.total == p.size && 0 <= s.received
    requires next == Gone ==> s.received == p.size
    ensures ReportsOk(p, Reported(s, 0, next))
  {
    PercentMonotonic(p, 0, s.received);
  }

  lemma ReportsStay(p: Plan, s: State, s': State)
    requires p.size > 0 && ReportsOk(p, s) && s'.reports == s.reports
    requires |s'.progress| == 1 && s'.progress[0] == Gone ==> s'.progress == s.progress
    requires 0 <= s.received <= s'.received
    ensures ReportsOk(p, s')
  {
    PercentMonotonic(p, s.received, s'.received);
  }

  /** Each message of an exact upload says, rounded down, what share of the announced size has been written so far. */
  lemma ReportIsShare(p: Plan, s: State, step: Step)
    requires p.Valid() && p.Exact() && Inv(p, s) && Sound(s) && Enabled(s, step)
    requires step.Report? || step.FinalReport?
    ensures var reports := Apply(s, step, p.digest).reports;
            && |reports| == |s.reports| + 1 && reports[..|s.reports|] == s.reports
            && var r := reports[|s.reports|];
               p.size * r <= 100 * |p.Data(p.Taken(s))| < p.size * (r + 1)
  {
    ProgressShape(s, step, p.digest);
    OnlyOne(p, s);
    ExactCounter(p, s);
    assert s.total == p.size;
    hide Apply, Enabled, Inv, Plan.Data;
    Quotient(s.received * 100, p.size);
  }

  /** Only a step of the goroutine adds a report or ends it. */
  lemma ReceiverFrame(s: State, step: Step, digest: Bytes -> string)
    requires Sound(s) && Enabled(s, step)
    requires step in {Receive, Compare, Unlock, Lock, Check} || step.Handshake?
    ensures var s' := Apply(s, step, digest);
            && s'.reports == s.reports
            && (|s'.progress| == 1 && s'.progress[0] == Gone ==> s'.progress == s.progress)
  {
    hide Verdict, WriteAt, ToUint32;
  }

  lemma ReportsStep(p: Plan, s: State, step: Step)
    requires p.Valid() && p.Exact() && Inv(p, s) && Sound(s) && Enabled(s, step) && !Fails(step) && ReportsOk(p, s)
    ensures ReportsOk(p, Apply(s, step, p.digest))
  {
    var s' := Apply(s, step, p.digest);
    StepInv(p, s, step);
    if step in {Receive, Compare, Unlock, Lock, Check} || step.Handshake? {
      ReceiverFrame(s, step, p.digest);
      CounterGrows(p, s, step);
      hide Apply, Enabled, Inv, ReportsOk;
      ReportsStay(p, s, s');
    } else {
      ProgressShape(s, step, p.digest);
      OnlyOne(p, s);
      ExactCounter(p, s);
      ProgressStep(p, s, step);
      assert s.total == p.size && 0 <= s.received && step.g == 0;
      hide Apply, Enabled, Inv, ReportsOk;
      match step {
        case Report(_) => ReportAdds(p, s, Sleeping);
        case FinalReport(_) => ReportAdds(p, s, Gone);
        case _ => ReportsStay(p, s, s');
      }
    }
  }

  lemma CounterGrows(p: Plan, s: State, step: Step)
    requires p.Valid() && p.Exact() && Inv(p, s) && Sound(s) && Enabled(s, step) && !Fails(step)
    requires Inv(p, Apply(s, step, p.digest))
    requires step in {Receive, Compare, Unlock, Lock, Check} || step.Handshake?
    ensures 0 <= s.received <= Apply(s, step, p.digest).received
  {
    var s' := Apply(s, step, p.digest);
    if p.Taken(s) == 0 {
    } else {
      ExactCounter(p, s);
      TakenGrows(p, s, step);
      ExactCounter(p, s');
      DataGrows(p, p.Taken(s), p.Taken(s'));
    }
  }

  lemma TakenGrows(p: Plan, s: State, step: Step)
    requires Sound(s) && Enabled(s, step)
    ensures p.Taken(s) <= p.Taken(Apply(s, step, p.digest)) <= p.Taken(s) + 1
  {
    hide Verdict, WriteAt, ToUint32;
  }

  lemma DataGrows(p: Plan, k: int, k': int)
    requires 1 <= k <= k' <= |p.chunks| + 2
    ensures |p.Data(k)| <= |p.Data(k')|
  {
    DataIsConcat(p, k);
    DataIsConcat(p, k');
    Grows(p, Chunks(p, k), Chunks(p, k'));
  }

  lemma {:induction false} RunReports(p: Plan, s: State, steps: seq<Step>, end: State)
    requires p.Valid() && p.Exact() && Inv(p, s) && Sound(s) && ReportsOk(p, s) && Leads(s, steps, end, p.digest)
    requires forall i :: 0 <= i < |steps| ==> !Fails(steps[i])
    ensures ReportsOk(p, end)
    decreases |steps|
  {
    if steps != [] {
      StepInv(p, s, steps[0]);
      StepSound(s, steps[0], p.digest);
      ReportsStep(p, s, steps[0]);
      RunReports(p, Apply(s, steps[0], p.digest), steps[1..], end);
    }
  }
}
