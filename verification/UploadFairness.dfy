/** Safety, progress and termination of uploads of one Info, any chunks and one Hash, over whole schedules. */
module UploadFairness {
  import opened Machine
  import opened Files
  import opened Upload
  import opened UploadProgress

  ghost predicate NoFailures(steps: seq<Step>) {
    forall i :: 0 <= i < |steps| ==> !Fails(steps[i])
  }

  /** A schedule in which opening and writing succeed. */
  ghost predicate Schedule(p: Plan, steps: seq<Step>, end: State) {
    p.Valid() && NoFailures(steps) && Sound(p.Start()) && Leads(p.Start(), steps, end, p.digest)
  }

  predicate ReceiverStep(step: Step) {
    step in {Receive, Compare, Unlock, Lock, Check} || step.Handshake?
  }

  /** The receive loop can move on its own or, when it stands at the channel, has a partner there. */
  predicate ReceiverReady(s: State) {
    match s.receiver
    case Locking(_) => !s.locked
    case Stopping => At(s, 0, Selecting)
    case Returned(_) => false
    case _ => true
  }

  // ---------------------------------------------------------------- safety

  /**
   In every reachable state the mutex is held exactly from the Info to completion and again while hashing,
   hashing and returning happen only after completion, completion happens where the counter meets the announced
   size, and there is at most one stop handshake with at most one unlock behind it. Nothing ever faults.
   */
  lemma GateDiscipline(p: Plan, steps: seq<Step>, end: State)
    requires Schedule(p, steps, end)
    ensures end.locked <==> (p.Taken(end) > 0 && end.completions == []) || end.receiver.Checking?
    ensures end.receiver.Checking? || end.receiver.Returned? ==> |end.completions| == 1
    ensures forall c :: c in end.completions ==> c % TWO_32 == p.size
    ensures |end.completions| <= end.handshakes <= 1
    ensures end.handshakes > |end.completions| <==> end.receiver == Unlocking
    ensures end.receiver.Returned? ==> end.receiver.result == p.Expected() && p.AllHits() == 1
  {
    StartInv(p);
    RunInv(p, p.Start(), steps, end);
    hide Inv, Leads, Schedule;
    if p.Taken(end) <= 0 {
      AtStart(p, end);
    } else {
      StageDiscipline(p, end);
    }
  }

  lemma StageDiscipline(p: Plan, s: State)
    requires Inv(p, s) && p.Taken(s) > 0
    ensures s.locked <==> s.completions == [] || s.receiver.Checking?
    ensures s.receiver.Checking? || s.receiver.Returned? ==> |s.completions| == 1
    ensures forall c :: c in s.completions ==> c % TWO_32 == p.size
    ensures |s.completions| <= s.handshakes <= 1
    ensures s.handshakes > |s.completions| <==> s.receiver == Unlocking
    ensures s.receiver.Returned? ==> s.receiver.result == p.Expected() && p.AllHits() == 1
  {
    assert Staged(p, s);
    hide Inv, Stored, Plan.AllHits, Plan.Hits, Plan.Hit, Plan.Expected, Plan.Data, Plan.Stream;
  }

  /** When the chunks are as announced, the progress messages are nondecreasing percentages that end with 100. */
  lemma ReportsNeverGoBack(p: Plan, steps: seq<Step>, end: State)
    requires Schedule(p, steps, end) && p.Exact()
    ensures forall i, j :: 0 <= i < j < |end.reports| ==> end.reports[i] <= end.reports[j]
    ensures forall i :: 0 <= i < |end.reports| ==> 0 <= end.reports[i] <= 100
    ensures end.progress == [Gone] ==> end.reports != [] && end.reports[|end.reports| - 1] == 100
  {
    StartInv(p);
    PercentMonotonic(p, 0, 0);
    assert ReportsOk(p, p.Start());
    RunReports(p, p.Start(), steps, end);
    RunInv(p, p.Start(), steps, end);
    hide Inv, Leads;
    if p.Taken(end) > 0 {
      ExactCounter(p, end);
      PercentMonotonic(p, end.received, p.size);
    } else {
      PercentMonotonic(p, 0, p.size);
      AtStart(p, end);
    }
  }

  lemma AtStart(p: Plan, s: State)
    requires Inv(p, s) && p.Taken(s) <= 0
    ensures s == p.Start()
  {
  }

  // ---------------------------------------------------------------- progress

  /** Everything is done: the verdict is in, the goroutine is gone, one handshake and one unlock happened. */
  ghost predicate Finished(p: Plan, s: State) {
    && s.receiver == Returned(p.Expected()) && s.progress == [Gone]
    && s.handshakes == 1 && |s.completions| == 1 && !s.locked && s.inbox == []
  }

  ghost predicate Possible(s: State, step: Step) {
    Enabled(s, step) && !Fails(step)
  }

  /** With a hit the receive loop never waits for the mutex. */
  lemma MutexFree(p: Plan, s: State)
    requires p.Valid() && Inv(p, s) && p.AllHits() >= 1
    ensures s.receiver.Locking? ==> !s.locked
  {
  }

  /** With one hit in all, the receive loop never waits for the mutex and stops one goroutine only. */
  lemma NeverBlocked(p: Plan, s: State)
    requires p.Valid() && Inv(p, s) && p.AllHits() == 1
    ensures s.receiver.Locking? ==> !s.locked
    ensures s.receiver == Stopping ==> Live(s)
  {
    var k := p.Taken(s);
    if s.receiver == Stopping {
      assert p.Hits(k - 1) == p.Hits(k - 2) + 1;
      Grows(p, k - 1, |p.chunks|);
    }
  }

  /** The step of the receive loop, and that of the goroutine when it is not at its select. */
  function ReceiverNext(s: State): Step {
    match s.receiver
    case Comparing => Compare
    case Stopping => Handshake(0)
    case Unlocking => Unlock
    case Locking(_) => Lock
    case Checking(_) => Check
    case _ => Receive
  }

  function GoroutineNext(s: State): Step {
    if At(s, 0, FinalSending) then FinalReport(0)
    else if At(s, 0, Sending) then Report(0)
    else Wake(0)
  }

  /**
   With one hit in all: unless everything is done the receive loop can step, or it waits and the goroutine can
   take a step that brings it closer to its select or its end.
   */
  lemma NeverStuck(p: Plan, s: State) returns (step: Step)
    requires p.Valid() && Inv(p, s) && p.AllHits() == 1 && !Finished(p, s)
    ensures Possible(s, step) && !step.Poll?
    ensures ReceiverStep(step) <==> ReceiverReady(s)
  {
    NeverBlocked(p, s);
    hide Plan.Hits, Plan.Data, Plan.Stream, Overlay;
    step := if ReceiverReady(s) then ReceiverNext(s) else GoroutineNext(s);
    if s.receiver.Returned? {
      assert s.progress == [s.progress[0]];
    }
  }

  /** With one hit in all, a schedule that cannot be continued has finished: no thread is left blocked. */
  lemma MaximalScheduleFinishes(p: Plan, steps: seq<Step>, end: State)
    requires Schedule(p, steps, end) && p.AllHits() == 1
    requires forall step :: !Possible(end, step)
    ensures Finished(p, end)
  {
    StartInv(p);
    RunInv(p, p.Start(), steps, end);
    if !Finished(p, end) {
      var step := NeverStuck(p, end);
    }
  }

  /** Without a hit the goroutine can always step once the Info is taken: no schedule is ever maximal. */
  lemma NoHitSpins(p: Plan, steps: seq<Step>, end: State)
    requires Schedule(p, steps, end) && p.AllHits() == 0
    ensures exists step :: Possible(end, step) && (p.Taken(end) > 0 ==> !ReceiverStep(step))
  {
    StartInv(p);
    RunInv(p, p.Start(), steps, end);
    if p.Taken(end) > 0 {
      NoHitBefore(p, end);
      hide Inv, Schedule, Plan.AllHits;
      var step := if At(end, 0, Sending) then Report(0) else if At(end, 0, Sleeping) then Wake(0) else Poll(0);
      assert Possible(end, step) && !ReceiverStep(step);
    } else {
      hide Schedule, Plan.AllHits, Staged, Stored;
      assert Possible(end, Receive);
    }
  }

  lemma NoHitBefore(p: Plan, s: State)
    requires p.Valid() && Inv(p, s) && p.AllHits() == 0 && p.Taken(s) > 0
    ensures Live(s) && s.receiver != Stopping && !s.receiver.Returned?
  {
    var k, n := p.Taken(s), |p.chunks|;
    if k - 1 <= n {
      Grows(p, k - 1, n);
      if k >= 2 { Grows(p, k - 2, n); }
    }
  }

  /** With several hits every schedule that cannot be continued stands at the second stop, waiting for nobody. */
  lemma SecondStopBlocks(p: Plan, steps: seq<Step>, end: State)
    requires Schedule(p, steps, end) && p.AllHits() >= 2
    requires forall step :: !Possible(end, step)
    ensures end.receiver == Stopping && end.progress == [Gone] && end.handshakes == 1
  {
    StartInv(p);
    RunInv(p, p.Start(), steps, end);
    hide Inv, Schedule, Plan.AllHits, Leads, Enabled, Possible, At;
    if p.Taken(end) > 0 {
      NoFault(p, end);
      AtRest(end);
      RestWithHits(p, end);
    } else {
      AtStart(p, end);
      AtRest(end);
    }
  }

  lemma NoFault(p: Plan, s: State)
    requires Inv(p, s) && p.Taken(s) > 0
    ensures s.receiver != Returned(Fault)
  {
    assert Staged(p, s);
    hide Inv, Stored, Plan.AllHits, Plan.Hits, Plan.Hit, Plan.Data, Plan.Stream;
  }

  /** Where the receive loop and the first goroutine are when nothing can step. */
  lemma AtRest(s: State)
    requires s.receiver != Returned(Fault) && forall step :: !Possible(s, step)
    ensures s.receiver == Stopping || s.receiver.Locking? || s.receiver.Returned?
    ensures s.receiver == Stopping ==> !At(s, 0, Selecting)
    ensures !At(s, 0, FinalSending) && !At(s, 0, Sending) && !At(s, 0, Sleeping)
  {
    assert !Possible(s, Receive) && !Possible(s, Compare) && !Possible(s, Unlock);
    assert !Possible(s, Check) && !Possible(s, Handshake(0));
    assert !Possible(s, FinalReport(0)) && !Possible(s, Report(0)) && !Possible(s, Wake(0));
  }

  /** A state past the Info in which the receive loop cannot step and the goroutine is neither polling nor due. */
  lemma RestWithHits(p: Plan, s: State)
    requires p.Valid() && Inv(p, s) && p.Taken(s) > 0 && p.AllHits() >= 2
    requires s.receiver == Stopping || s.receiver.Locking? || s.receiver.Returned?
    requires s.receiver == Stopping ==> !At(s, 0, Selecting)
    requires !At(s, 0, FinalSending) && !At(s, 0, Sending) && !At(s, 0, Sleeping)
    ensures s.receiver == Stopping && s.progress == [Gone] && s.handshakes == 1
  {
    assert Staged(p, s);
    hide Inv, Stored, Plan.AllHits, Plan.Hits, Plan.Hit, Plan.Expected, Plan.Data, Plan.Stream;
    assert s.progress == [s.progress[0]];
  }

  // ---------------------------------------------------------------- termination

  /** Steps the receive loop still has before it, at most. */
  function Rank(s: State): nat {
    5 * |s.inbox| + match s.receiver
      case Comparing => 4
      case Stopping => 3
      case Unlocking => 2
      case Locking(_) => 2
      case Checking(_) => 1
      case _ => 0
  }

  /** Steps the goroutine needs to come back to its select, or to end. */
  function Distance(s: State): nat {
    if s.progress == [] then 0
    else match s.progress[0]
      case Sending => 2
      case Sleeping => 1
      case FinalSending => 1
      case _ => 0
  }

  lemma ReceiverStepRank(p: Plan, s: State, step: Step)
    requires p.Valid() && Inv(p, s) && Sound(s) && Enabled(s, step) && ReceiverStep(step)
    ensures Rank(Apply(s, step, p.digest)) < Rank(s)
    ensures Distance(Apply(s, step, p.digest)) <= Distance(s) + 1
  {
    assert step == Receive ==> s.inbox != [];
    hide Inv, Plan.Valid;
    StepRank(s, step, p.digest);
  }

  /** Taking a message off the stream pays for at most four more steps of the receive loop. */
  lemma StepRank(s: State, step: Step, digest: Bytes -> string)
    requires Sound(s) && Enabled(s, step) && ReceiverStep(step) && (step == Receive ==> s.inbox != [])
    ensures Rank(Apply(s, step, digest)) < Rank(s)
    ensures Distance(Apply(s, step, digest)) <= Distance(s) + 1
  {
    hide Verdict, ToUint32, WriteAt;
  }

  lemma ProgressStepRank(p: Plan, s: State, step: Step)
    requires p.Valid() && Inv(p, s) && Sound(s) && Enabled(s, step) && !ReceiverStep(step) && !Fails(step)
    ensures var s' := Apply(s, step, p.digest);
            && Rank(s') == Rank(s) && s'.receiver == s.receiver && s'.locked == s.locked
            && Distance(s') <= Distance(s) + (if step.Poll? then 2 else -1)
    ensures step.Poll? ==> s.receiver != Stopping && !s.receiver.Returned?
  {
    if step.Poll? {
      PollNeedsSelect(p, s, step);
    }
    ProgressShape(s, step, p.digest);
    OnlyOne(p, s);
    hide Apply, Enabled, Inv, Sound;
  }

  lemma PollNeedsSelect(p: Plan, s: State, step: Step)
    requires p.Valid() && Inv(p, s) && Enabled(s, step) && step.Poll?
    ensures s.receiver != Stopping && !s.receiver.Returned?
  {
  }

  lemma LeadsCons(s: State, step: Step, steps: seq<Step>, end: State, digest: Bytes -> string)
    requires Sound(s) && Enabled(s, step) && Sound(Apply(s, step, digest))
    requires Leads(Apply(s, step, digest), steps, end, digest)
    ensures Leads(s, [step] + steps, end, digest)
  {
    assert ([step] + steps)[1..] == steps;
  }

  /** With one hit in all, every state has a run to its end. */
  lemma {:induction false} RunToEnd(p: Plan, s: State) returns (steps: seq<Step>, end: State)
    requires p.Valid() && Inv(p, s) && Sound(s) && p.AllHits() == 1
    ensures NoFailures(steps) && Leads(s, steps, end, p.digest) && Finished(p, end)
    decreases Rank(s), Distance(s)
  {
    if Finished(p, s) {
      steps, end := [], s;
    } else {
      var step := NeverStuck(p, s);
      StepInv(p, s, step);
      StepSound(s, step, p.digest);
      if ReceiverStep(step) {
        ReceiverStepRank(p, s, step);
      } else {
        ProgressStepRank(p, s, step);
      }
      hide Inv, Apply, Enabled, Finished, Rank, Distance, Plan.AllHits, Sound, ReceiverReady;
      var rest, e := RunToEnd(p, Apply(s, step, p.digest));
      LeadsCons(s, step, rest, e, p.digest);
      steps, end := [step] + rest, e;
    }
  }

  ghost predicate Returns(p: Plan, steps: seq<Step>, end: State) {
    Schedule(p, steps, end) && end.receiver.Returned?
  }

  /**
   An upload of one Info, any chunks and one Hash can return a verdict if and only if there is exactly one chunk
   after which the bytes so far equal the announced size modulo 2^32. Without one the Hash waits for the mutex
   forever; with two the second stop waits for a goroutine that is gone.
   */
  lemma ReturnsIff(p: Plan)
    requires p.Valid()
    ensures (exists steps, end :: Returns(p, steps, end)) <==> p.AllHits() == 1
  {
    StartInv(p);
    if p.AllHits() == 1 {
      var steps, end := RunToEnd(p, p.Start());
      assert Returns(p, steps, end);
    } else {
      forall steps, end | Schedule(p, steps, end) ensures !end.receiver.Returned? {
        GateDiscipline(p, steps, end);
      }
    }
  }

  // ---------------------------------------------------------------- infinite runs

  /** An execution that goes on forever: state i takes step i. */
  ghost predicate InfiniteRun(p: Plan, states: nat -> State, steps: nat -> Step) {
    states(0) == p.Start() && forall i: nat :: StepAt(p, states, steps, i)
  }

  ghost predicate StepAt(p: Plan, states: nat -> State, steps: nat -> Step, i: nat) {
    && Sound(states(i)) && Possible(states(i), steps(i))
    && states(i + 1) == Apply(states(i), steps(i), p.digest)
  }

  ghost predicate StaysReady(states: nat -> State, i: nat) {
    forall j: nat :: i <= j ==> ReceiverReady(states(j))
  }

  ghost predicate StepsAfter(steps: nat -> Step, i: nat) {
    exists j: nat :: i <= j && ReceiverStep(steps(j))
  }

  /** Weak fairness: a receive loop that stays ready takes a step eventually. */
  ghost predicate WeaklyFair(states: nat -> State, steps: nat -> Step) {
    forall i: nat :: StaysReady(states, i) ==> StepsAfter(steps, i)
  }

  lemma {:induction false} InfiniteInv(p: Plan, states: nat -> State, steps: nat -> Step, i: nat)
    requires p.Valid() && InfiniteRun(p, states, steps)
    ensures Inv(p, states(i)) && Sound(states(i)) && Possible(states(i), steps(i))
  {
    assert StepAt(p, states, steps, i);
    if i == 0 {
      StartInv(p);
    } else {
      InfiniteInv(p, states, steps, i - 1);
      assert StepAt(p, states, steps, i - 1);
      hide Inv, Apply, Enabled, Sound;
      StepInv(p, states(i - 1), steps(i - 1));
    }
  }

  /** Without steps of the receive loop its place, its rank and the mutex stay. */
  lemma {:induction false} ReceiverRests(p: Plan, states: nat -> State, steps: nat -> Step, i: nat, j: nat)
    requires p.Valid() && InfiniteRun(p, states, steps) && i <= j
    requires forall l: nat :: i <= l < j ==> !ReceiverStep(steps(l))
    ensures states(j).receiver == states(i).receiver && states(j).locked == states(i).locked
    ensures Rank(states(j)) == Rank(states(i))
    decreases j - i
  {
    hide Inv, Apply, Rank, Enabled, Sound;
    if i < j {
      ReceiverRests(p, states, steps, i, j - 1);
      InfiniteInv(p, states, steps, j - 1);
      ProgressStepRank(p, states(j - 1), steps(j - 1));
      assert StepAt(p, states, steps, j - 1);
    }
  }

  /** While the receive loop stands at its stop or has returned, the goroutine soon runs out of steps. */
  lemma {:induction false} GoroutineRunsOut(p: Plan, states: nat -> State, steps: nat -> Step, i: nat)
    requires p.Valid() && InfiniteRun(p, states, steps)
    requires states(i).receiver == Stopping || states(i).receiver.Returned?
    ensures StepsAfter(steps, i)
    decreases Distance(states(i))
  {
    hide Inv, Apply, Rank, Distance, Sound, Enabled;
    InfiniteInv(p, states, steps, i);
    if !ReceiverStep(steps(i)) {
      ProgressStepRank(p, states(i), steps(i));
      assert StepAt(p, states, steps, i);
      GoroutineRunsOut(p, states, steps, i + 1);
      var j: nat :| i + 1 <= j && ReceiverStep(steps(j));
    }
  }

  /** The Hash has been received and the mutex is held. */
  predicate Waiting(s: State) {
    s.receiver.Locking? && s.locked
  }

  ghost predicate WaitsFrom(states: nat -> State, i: nat) {
    forall j: nat :: i <= j ==> Waiting(states(j))
  }

  /** A receive loop that does not wait for the mutex steps again, in a fair infinite run. */
  lemma StepsUnlessWaiting(p: Plan, states: nat -> State, steps: nat -> Step, i: nat)
    requires p.Valid() && InfiniteRun(p, states, steps) && WeaklyFair(states, steps) && !Waiting(states(i))
    ensures StepsAfter(steps, i)
  {
    if !StepsAfter(steps, i) {
      if states(i).receiver == Stopping || states(i).receiver.Returned? {
        GoroutineRunsOut(p, states, steps, i);
      } else {
        forall j: nat | i <= j ensures ReceiverReady(states(j)) {
          ReceiverRests(p, states, steps, i, j);
        }
      }
    }
  }

  lemma FirstStep(steps: nat -> Step, i: nat) returns (j: nat)
    requires StepsAfter(steps, i)
    ensures i <= j && ReceiverStep(steps(j)) && forall l: nat :: i <= l < j ==> !ReceiverStep(steps(l))
  {
    var m: nat :| i <= m && ReceiverStep(steps(m));
    j := i;
    while !ReceiverStep(steps(j))
      invariant i <= j <= m && forall l: nat :: i <= l < j ==> !ReceiverStep(steps(l))
      decreases m - j
    {
      j := j + 1;
    }
  }

  /** A fair infinite run comes to wait for the mutex: its receive loop has only so many steps. */
  lemma {:induction false} ComesToWait(p: Plan, states: nat -> State, steps: nat -> Step, i: nat) returns (j: nat)
    requires p.Valid() && InfiniteRun(p, states, steps) && WeaklyFair(states, steps)
    ensures i <= j && Waiting(states(j))
    decreases Rank(states(i))
  {
    if Waiting(states(i)) {
      j := i;
    } else {
      StepsUnlessWaiting(p, states, steps, i);
      var l := FirstStep(steps, i);
      ReceiverRests(p, states, steps, i, l);
      InfiniteInv(p, states, steps, l);
      hide Inv, Apply, Rank, WeaklyFair, Enabled, Sound, Waiting;
      ReceiverStepRank(p, states(l), steps(l));
      assert StepAt(p, states, steps, l);
      j := ComesToWait(p, states, steps, l + 1);
    }
  }

  /** Waiting for the mutex never ends, since the receive loop is the one to release it. */
  lemma {:induction false} WaitsForever(p: Plan, states: nat -> State, steps: nat -> Step, i: nat, j: nat)
    requires p.Valid() && InfiniteRun(p, states, steps) && Waiting(states(i)) && i <= j
    ensures Waiting(states(j))
    decreases j - i
  {
    if i < j {
      WaitsForever(p, states, steps, i, j - 1);
      InfiniteInv(p, states, steps, j - 1);
      NotWhileWaiting(states(j - 1), steps(j - 1));
      hide Inv, Apply, Rank, Enabled, Sound;
      ProgressStepRank(p, states(j - 1), steps(j - 1));
      assert StepAt(p, states, steps, j - 1);
    }
  }

  lemma NotWhileWaiting(s: State, step: Step)
    requires Waiting(s) && Possible(s, step)
    ensures !ReceiverStep(step)
  {
  }

  /**
   No execution of an upload with a hit goes on forever if the receive loop is scheduled fairly. With
   MaximalScheduleFinishes, every fair execution with one hit finishes; with SecondStopBlocks, every one with
   several ends at the second stop.
   */
  lemma FairRunsEnd(p: Plan, states: nat -> State, steps: nat -> Step)
    requires p.Valid() && p.AllHits() >= 1 && InfiniteRun(p, states, steps)
    ensures !WeaklyFair(states, steps)
  {
    if WeaklyFair(states, steps) {
      var j := ComesToWait(p, states, steps, 0);
      InfiniteInv(p, states, steps, j);
      MutexFree(p, states(j));
    }
  }

  /** Without a hit every fair infinite run comes to wait for the mutex, and waits for it from then on. */
  lemma NoHitWaits(p: Plan, states: nat -> State, steps: nat -> Step)
    requires p.Valid() && p.AllHits() == 0 && InfiniteRun(p, states, steps) && WeaklyFair(states, steps)
    ensures exists i :: WaitsFrom(states, i)
  {
    var i := ComesToWait(p, states, steps, 0);
    forall j: nat | i <= j ensures Waiting(states(j)) {
      WaitsForever(p, states, steps, i, j);
    }
    assert WaitsFrom(states, i);
  }

  // ---------------------------------------------------------------- schedules of bounded fairness

  /**
   A schedule is fair with bound b if a receive loop that is ready is passed over at most b times in a row;
   patience is what is left of the bound.
   */
  ghost predicate Fair(s: State, steps: seq<Step>, digest: Bytes -> string, b: nat, patience: nat)
    requires Sound(s)
    decreases |steps|
  {
    steps == [] ||
    (Enabled(s, steps[0]) ==>
       (StepSound(s, steps[0], digest);
        var s' := Apply(s, steps[0], digest);
        if ReceiverStep(steps[0]) then Fair(s', steps[1..], digest, b, b)
        else if ReceiverReady(s) then patience > 0 && Fair(s', steps[1..], digest, b, patience - 1)
        else Fair(s', steps[1..], digest, b, patience)))
  }

  /** The patience that still counts: none where the goroutine runs out of steps by itself. */
  function Allowance(s: State, patience: nat): nat {
    if s.receiver == Stopping || s.receiver.Returned? then 0 else patience
  }

  function Potential(s: State, b: nat, patience: nat): nat {
    Rank(s) * (3 * b + 8) + 3 * Allowance(s, patience) + Distance(s)
  }

  lemma RankDrop(r: int, r': int, c: nat)
    requires 0 <= r' < r
    ensures r' * c + c <= r * c
  {
    var k := r - r' - 1;
    Distributes(r', k, c);
  }

  lemma Distributes(r: nat, k: nat, c: nat)
    ensures (r + 1 + k) * c == r * c + c + k * c
    ensures k * c >= 0
  {
  }

  /** Every step of a fair schedule lowers the potential. */
  lemma PotentialDrops(p: Plan, s: State, step: Step, b: nat, patience: nat)
    requires p.Valid() && p.AllHits() >= 1 && Inv(p, s) && Sound(s)
    requires Enabled(s, step) && !Fails(step) && patience <= b
    requires !ReceiverStep(step) && ReceiverReady(s) ==> patience > 0
    ensures var s' := Apply(s, step, p.digest);
            var patience' := if ReceiverStep(step) then b else if ReceiverReady(s) then patience - 1 else patience;
            Potential(s', b, patience') < Potential(s, b, patience)
  {
    var s' := Apply(s, step, p.digest);
    if ReceiverStep(step) {
      ReceiverStepRank(p, s, step);
      hide Inv, Apply, Rank, Distance, Enabled, ReceiverReady;
      assert Allowance(s', b) <= b;
      RankDrop(Rank(s), Rank(s'), 3 * b + 8);
    } else {
      MutexFree(p, s);
      ProgressStepRank(p, s, step);
      hide Inv, Apply, Rank, Distance, Enabled;
    }
  }

  lemma {:induction false} FairRunBounded(p: Plan, s: State, steps: seq<Step>, end: State, b: nat, patience: nat)
    requires p.Valid() && p.AllHits() >= 1 && Inv(p, s) && Sound(s) && NoFailures(steps) && patience <= b
    requires Leads(s, steps, end, p.digest) && Fair(s, steps, p.digest, b, patience)
    ensures |steps| <= Potential(s, b, patience)
    decreases |steps|
  {
    if steps != [] {
      var step := steps[0];
      StepInv(p, s, step);
      StepSound(s, step, p.digest);
      PotentialDrops(p, s, step, b, patience);
      hide Potential, Inv, Plan.AllHits;
      var s' := Apply(s, step, p.digest);
      var patience' := if ReceiverStep(step) then b else if ReceiverReady(s) then patience - 1 else patience;
      FairRunBounded(p, s', steps[1..], end, b, patience');
    }
  }

  /** The bound depends only on the number of chunks and on the fairness bound. */
  lemma FairSchedulesEnd(p: Plan, steps: seq<Step>, end: State, b: nat)
    requires Schedule(p, steps, end) && p.AllHits() >= 1 && Fair(p.Start(), steps, p.digest, b, b)
    ensures |steps| <= 5 * (|p.chunks| + 2) * (3 * b + 8) + 3 * b
  {
    StartInv(p);
    StartRank(p);
    hide Inv, Rank, Distance, Leads, Fair, Plan.Start, Plan.AllHits;
    FairRunBounded(p, p.Start(), steps, end, b, b);
  }

  lemma StartRank(p: Plan)
    ensures Rank(p.Start()) == 5 * (|p.chunks| + 2) && Distance(p.Start()) == 0
    ensures p.Start().receiver == Receiving
  {
    StreamAt(p, 0);
  }

  // ---------------------------------------------------------------- the verdict

  /** Some chunk hit: at least as many bytes arrived as announced. */
  lemma {:induction false} HitMeansEnough(p: Plan, m: nat)
    requires p.Valid() && m <= |p.chunks| && p.Hits(m) > 0
    ensures |Concat(p.chunks[..m])| >= p.size
  {
    if !p.Hit(m) {
      HitMeansEnough(p, m - 1);
      Grows(p, m - 1, m);
    }
  }

  /**
   A verdict is acceptance if and only if the chunks are as many bytes as announced, the prior content was no
   longer, and the digest agrees; then the file is exactly the chunks.
   */
  lemma AcceptedIff(p: Plan, steps: seq<Step>, end: State)
    requires Returns(p, steps, end)
    ensures end.receiver.result == Accepted
            <==> p.Exact() && |p.Prior()| <= p.size && p.digest(Concat(p.chunks)) == p.sum
    ensures end.receiver.result == Accepted ==> end.files == p.files[p.path := Concat(p.chunks)]
  {
    StartInv(p);
    RunInv(p, p.Start(), steps, end);
    GateDiscipline(p, steps, end);
    HitMeansEnough(p, |p.chunks|);
    WholeData(p);
    hide Leads, Plan.Hits, Plan.Data, Plan.Stream;
    OverlayGrows(p.Prior(), Concat(p.chunks), []);
    OverlayExactIff(p.Prior(), Concat(p.chunks));
  }

  /** The verdict in terms of the file that is left. */
  lemma ResultIff(p: Plan, steps: seq<Step>, end: State)
    requires Returns(p, steps, end)
    ensures p.path in end.files
    ensures var content, r := end.files[p.path], end.receiver.result;
            && (r == SizeError <==> |content| != p.size)
            && (r == HashError <==> |content| == p.size && p.digest(content) != p.sum)
            && (r == Accepted <==> |content| == p.size && p.digest(content) == p.sum)
  {
    StartInv(p);
    RunInv(p, p.Start(), steps, end);
    GateDiscipline(p, steps, end);
    WholeData(p);
    hide Leads, Plan.Hits, Plan.Data, Plan.Stream, Overlay;
  }
}
