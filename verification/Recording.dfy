/**
 The recording session (service/recording_windows.go, service/recording.go) as an interleaved step system:
 any number of concurrent start and stop requests, the mutex, the progress reader of each session, and the
 globals reader and status. Creating the listener, the process and the connection may each fail.
 */
module Recording {
  import opened Options

  type Session = nat
  type Caller = nat

  /** The status text, with the session that wrote it. */
  datatype Status =
    | Idle | Starting(session: Session) | Recording(session: Session) | Stopping | Finish(session: Session)

  /** Where a request is: rec_start up to Releasing, then rec_stop; the mutex is held from Checking on. */
  datatype Request =
    | StartWaiting | StartChecking | StartListening | StartProcess(id: Session) | StartSpawning(id: Session)
    | StartMarking(id: Session)
    | StopWaiting | StopChecking | StopWriting
    | Releasing

  /** Where the progress reader of a session is. */
  datatype Reader = Accepting | Reading | Marking | Waiting | Finishing | Leaving

  datatype Holder = ByCaller(c: Caller) | ByReader(id: Session)

  /** The last two fields are history: the number of sessions begun, and the sessions that wrote their finish. */
  datatype State = State(
    lock: Option<Holder>,
    reader: Option<Session>,
    status: Status,
    requests: map<Caller, Request>,
    readers: map<Session, Reader>,
    begun: nat,
    finished: set<Session>)

  const START := State(None, None, Idle, map[], map[], 0, {})

  datatype Step =
    | CallStart(c: Caller) | CallStop(c: Caller) | Acquire(c: Caller) | Check(c: Caller)
    | Listen(c: Caller, ok: bool) | Launch(c: Caller, ok: bool) | Spawn(c: Caller) | MarkStarting(c: Caller)
    | WriteQuit(c: Caller) | Release(c: Caller)
    | Accept(id: Session, ok: bool) | Line(id: Session) | MarkRecording(id: Session) | ReadFails(id: Session)
    | TakeLock(id: Session) | MarkFinish(id: Session) | Leave(id: Session)

  predicate Doing(s: State, c: Caller, r: Request) { c in s.requests && s.requests[c] == r }

  predicate ReaderAt(s: State, id: Session, r: Reader) { id in s.readers && s.readers[id] == r }

  predicate Enabled(s: State, step: Step) {
    match step
    case CallStart(c) => c !in s.requests
    case CallStop(c) => c !in s.requests
    case Acquire(c) => (Doing(s, c, StartWaiting) || Doing(s, c, StopWaiting)) && s.lock == None
    case Check(c) => Doing(s, c, StartChecking) || Doing(s, c, StopChecking)
    case Listen(c, _) => Doing(s, c, StartListening)
    case Launch(c, _) => c in s.requests && s.requests[c].StartProcess?
    case Spawn(c) => c in s.requests && s.requests[c].StartSpawning?
    case MarkStarting(c) => c in s.requests && s.requests[c].StartMarking?
    case WriteQuit(c) => Doing(s, c, StopWriting)
    case Release(c) => Doing(s, c, Releasing)
    case Accept(id, _) => ReaderAt(s, id, Accepting)
    case Line(id) => ReaderAt(s, id, Reading)
    case MarkRecording(id) => ReaderAt(s, id, Marking)
    case ReadFails(id) => ReaderAt(s, id, Reading)
    case TakeLock(id) => ReaderAt(s, id, Waiting) && s.lock == None
    case MarkFinish(id) => ReaderAt(s, id, Finishing)
    case Leave(id) => ReaderAt(s, id, Leaving)
  }

  function Goes(s: State, c: Caller, r: Request): State { s.(requests := s.requests[c := r]) }

  function Apply(s: State, step: Step): State
    requires Enabled(s, step)
  {
    match step
    case CallStart(c) => Goes(s, c, StartWaiting)
    case CallStop(c) => Goes(s, c, StopWaiting)
    case Acquire(c) =>
      Goes(s, c, if s.requests[c] == StartWaiting then StartChecking else StopChecking).(lock := Some(ByCaller(c)))
    case Check(c) =>
      if s.requests[c] == StartChecking then Goes(s, c, if s.reader.Some? then Releasing else StartListening)
      else if s.status == Stopping then Goes(s, c, Releasing)
      else Goes(s, c, StopWriting).(status := Stopping)
    case Listen(c, ok) =>
      if ok then Goes(s, c, StartProcess(s.begun)).(reader := Some(s.begun), begun := s.begun + 1)
      else Goes(s, c, Releasing)
    case Launch(c, ok) => Goes(s, c, if ok then StartSpawning(s.requests[c].id) else Releasing)
    case Spawn(c) => Goes(s, c, StartMarking(s.requests[c].id)).(readers := s.readers[s.requests[c].id := Accepting])
    case MarkStarting(c) => Goes(s, c, Releasing).(status := Starting(s.requests[c].id))
    case WriteQuit(c) => Goes(s, c, Releasing)
    case Release(c) => s.(requests := s.requests - {c}, lock := None)
    case Accept(id, ok) => s.(readers := if ok then s.readers[id := Reading] else s.readers - {id})
    // the test of the status and the write are separate and not protected by the mutex
    case Line(id) => if s.status.Recording? then s else s.(readers := s.readers[id := Marking])
    case MarkRecording(id) => s.(status := Recording(id), readers := s.readers[id := Reading])
    case ReadFails(id) => s.(readers := s.readers[id := Waiting])
    case TakeLock(id) => s.(lock := Some(ByReader(id)), readers := s.readers[id := Finishing])
    case MarkFinish(id) =>
      s.(status := Finish(id), reader := None, readers := s.readers[id := Leaving], finished := s.finished + {id})
    case Leave(id) => s.(lock := None, readers := s.readers - {id})
  }

  ghost predicate Leads(s: State, steps: seq<Step>, end: State)
    decreases |steps|
  {
    if steps == [] then end == s
    else Enabled(s, steps[0]) && Leads(Apply(s, steps[0]), steps[1..], end)
  }

  predicate Holding(r: Request) { r != StartWaiting && r != StopWaiting }

  predicate InSession(r: Request) { r.StartProcess? || r.StartSpawning? || r.StartMarking? }

  /** The mutex is held by exactly the request, or the reader, that is past its acquisition. */
  ghost predicate LockInv(s: State) {
    && (forall c :: c in s.requests ==> (Holding(s.requests[c]) <==> s.lock == Some(ByCaller(c))))
    && (forall id :: id in s.readers ==> (s.readers[id] in {Finishing, Leaving} <==> s.lock == Some(ByReader(id))))
    && (s.lock.Some? && s.lock.value.ByCaller? ==> s.lock.value.c in s.requests)
    && (s.lock.Some? && s.lock.value.ByReader? ==> s.lock.value.id in s.readers)
  }

  /** A reader runs for the current session only; one that has given it up is just about to leave. */
  ghost predicate ReaderInv(s: State) {
    && (forall id :: id in s.readers ==> if s.readers[id] == Leaving then s.reader == None else s.reader == Some(id))
    && (s.reader.Some? ==> s.reader.value + 1 == s.begun && s.reader.value !in s.finished)
    && (forall id :: id in s.finished ==> id < s.begun)
  }

  /** A start in the middle of setting up belongs to the current session. */
  ghost predicate StartInv(s: State) {
    forall c :: c in s.requests ==>
      && (InSession(s.requests[c]) ==> s.reader == Some(s.requests[c].id))
      && (s.requests[c].StartProcess? || s.requests[c].StartSpawning? ==> s.readers == map[])
      && (s.requests[c].StartListening? ==> s.reader == None)
  }

  ghost predicate StatusInv(s: State) {
    s.status.Finish? ==> s.status.session in s.finished
  }

  ghost predicate Inv(s: State) {
    LockInv(s) && ReaderInv(s) && StartInv(s) && StatusInv(s)
  }

  /** Steps of a progress reader; the others belong to a request. */
  predicate OfReader(step: Step) {
    || step.Accept? || step.Line? || step.MarkRecording? || step.ReadFails?
    || step.TakeLock? || step.MarkFinish? || step.Leave?
  }

  lemma ReaderStepLock(s: State, step: Step)
    requires Inv(s) && Enabled(s, step) && OfReader(step)
    ensures LockInv(Apply(s, step))
  {
    hide StartInv, StatusInv;
  }

  lemma RequestStepLock(s: State, step: Step)
    requires Inv(s) && Enabled(s, step) && !OfReader(step)
    ensures LockInv(Apply(s, step))
  {
    hide StatusInv;
  }

  lemma ReaderStepStart(s: State, step: Step)
    requires Inv(s) && Enabled(s, step) && OfReader(step)
    ensures StartInv(Apply(s, step))
  {
    hide StatusInv;
  }

  lemma RequestStepStart(s: State, step: Step)
    requires Inv(s) && Enabled(s, step) && !OfReader(step)
    ensures StartInv(Apply(s, step))
  {
    hide StatusInv;
  }

  lemma ReaderStepReader(s: State, step: Step)
    requires Inv(s) && Enabled(s, step) && OfReader(step)
    ensures ReaderInv(Apply(s, step))
  {
    hide StatusInv, StartInv;
  }

  lemma RequestStepReader(s: State, step: Step)
    requires Inv(s) && Enabled(s, step) && !OfReader(step)
    ensures ReaderInv(Apply(s, step))
  {
    hide StatusInv;
  }

  lemma StepStatus(s: State, step: Step)
    requires Inv(s) && Enabled(s, step)
    ensures StatusInv(Apply(s, step))
  {
    hide LockInv, ReaderInv, StartInv;
  }

  lemma StepInv(s: State, step: Step)
    requires Inv(s) && Enabled(s, step)
    ensures Inv(Apply(s, step))
  {
    hide LockInv, ReaderInv, StartInv, StatusInv;
    if OfReader(step) {
      ReaderStepLock(s, step);
      ReaderStepReader(s, step);
      ReaderStepStart(s, step);
    } else {
      RequestStepLock(s, step);
      RequestStepReader(s, step);
      RequestStepStart(s, step);
    }
    StepStatus(s, step);
  }

  lemma {:induction false} RunInv(s: State, steps: seq<Step>, end: State)
    requires Inv(s) && Leads(s, steps, end)
    ensures Inv(end)
    decreases |steps|
  {
    if steps != [] {
      StepInv(s, steps[0]);
      RunInv(Apply(s, steps[0]), steps[1..], end);
    }
  }

  ghost predicate Reachable(s: State) {
    exists steps :: Leads(START, steps, s)
  }

  lemma ReachableInv(s: State)
    requires Reachable(s)
    ensures Inv(s)
  {
    var steps :| Leads(START, steps, s);
    RunInv(START, steps, s);
  }

  // ---------------------------------------------------------------- sessions

  /** On every interleaving at most one progress reader exists. */
  lemma AtMostOneReader(s: State)
    requires Reachable(s)
    ensures forall id, id' :: id in s.readers && id' in s.readers ==> id == id'
  {
    ReachableInv(s);
  }

  /**
   While the global is nil no reader can touch the status any more: the only one that may still exist has
   written its finish and is about to release the mutex it holds.
   */
  lemma NilReaderMeansNoneLive(s: State, id: Session)
    requires Reachable(s) && s.reader == None && id in s.readers
    ensures s.readers[id] == Leaving && s.lock == Some(ByReader(id))
  {
    ReachableInv(s);
  }

  /** The session on whose behalf a step writes the status, if it is one that does. */
  function WritesFor(s: State, step: Step): Option<Session>
    requires Enabled(s, step)
  {
    match step
    case MarkStarting(c) => Some(s.requests[c].id)
    case MarkRecording(id) => Some(id)
    case MarkFinish(id) => Some(id)
    case _ => None
  }

  /**
   Which steps write the status, and what: a start its starting, the reader its recording and its finish, and a
   stop request stopping unless that is the status already.
   */
  lemma StatusAfter(s: State, step: Step)
    requires Enabled(s, step)
    ensures var status := Apply(s, step).status;
            && (step.MarkStarting? ==> s.requests[step.c].StartMarking? && status == Starting(s.requests[step.c].id))
            && (step.MarkRecording? ==> status == Recording(step.id))
            && (step.MarkFinish? ==> status == Finish(step.id))
            && (step.Check? && s.requests[step.c] == StopChecking ==> status == Stopping)
            && (status != s.status ==>
                  || step.MarkStarting? || step.MarkRecording? || step.MarkFinish?
                  || (step.Check? && s.requests[step.c] == StopChecking))
  {
  }

  /** A reader that ends has written its finish and cleared the global, unless its connection was never accepted. */
  lemma ReaderEnds(s: State, step: Step)
    requires Enabled(s, step)
    ensures step.MarkFinish? ==> var s' := Apply(s, step); s'.reader == None && step.id in s'.finished
    ensures forall id :: id in s.readers && id !in Apply(s, step).readers ==>
      (step == Accept(id, false)) || (step == Leave(id) && s.readers[id] == Leaving)
    ensures forall id :: id in Apply(s, step).finished && id !in s.finished ==> step == MarkFinish(id)
    ensures forall id :: id in s.readers && s.readers[id] != Leaving && ReaderAt(Apply(s, step), id, Leaving) ==>
      step == MarkFinish(id)
  {
  }

  /** A start is refused exactly while a session is current, and a stop exactly while one is pending. */
  lemma RefusedIff(s: State, c: Caller)
    requires Enabled(s, Check(c))
    ensures var next := Apply(s, Check(c)).requests[c];
            && (s.requests[c] == StartChecking ==> next == if s.reader.Some? then Releasing else StartListening)
            && (s.requests[c] == StopChecking ==> next == if s.status == Stopping then Releasing else StopWriting)
  {
  }

  /** After a progress line the status says recording, or the reader is about to make it say so. */
  lemma LineShows(s: State, id: Session)
    requires Enabled(s, Line(id))
    ensures var s' := Apply(s, Line(id));
            && (s.status.Recording? ==> s' == s)
            && (!s.status.Recording? ==> s'.status == s.status && Enabled(s', MarkRecording(id)))
  {
  }

  /**
   After a session's finish the status changes only through a stop request or on behalf of a session begun
   later; in particular the session's own starting cannot come after its finish.
   */
  lemma FinishStands(s: State, step: Step)
    requires Reachable(s) && s.status.Finish? && Enabled(s, step)
    requires Apply(s, step).status != s.status
    ensures (step.Check? && s.requests[step.c] == StopChecking)
            || (WritesFor(s, step).Some? && WritesFor(s, step).value > s.status.session)
  {
    ReachableInv(s);
  }

  /** Nothing a session writes comes after its own finish. */
  lemma FinishIsLastWrite(s: State, step: Step)
    requires Reachable(s) && Enabled(s, step) && WritesFor(s, step).Some?
    ensures WritesFor(s, step).value !in s.finished
  {
    ReachableInv(s);
  }

  ghost predicate NoStops(s: State) {
    forall c :: c in s.requests ==> s.requests[c] !in {StopWaiting, StopChecking, StopWriting}
  }

  /** Without a current session the status is the finish of the last one, or idle before the first. */
  ghost predicate ShowsFinish(s: State) {
    s.reader == None ==> s.status == if s.begun == 0 then Idle else Finish(s.begun - 1)
  }

  lemma FinishStep(s: State, step: Step)
    requires Inv(s) && NoStops(s) && ShowsFinish(s) && Enabled(s, step) && !step.CallStop?
    ensures NoStops(Apply(s, step)) && ShowsFinish(Apply(s, step))
  {
    hide LockInv, StatusInv;
  }

  lemma {:induction false} FinishRun(s: State, steps: seq<Step>, end: State)
    requires Inv(s) && NoStops(s) && ShowsFinish(s) && Leads(s, steps, end)
    requires forall i :: 0 <= i < |steps| ==> !steps[i].CallStop?
    ensures ShowsFinish(end)
    decreases |steps|
  {
    if steps != [] {
      FinishStep(s, steps[0]);
      StepInv(s, steps[0]);
      FinishRun(Apply(s, steps[0]), steps[1..], end);
    }
  }

  /** On every run without stop requests, finish is what the status says whenever no session is current. */
  lemma FinishShows(steps: seq<Step>, end: State)
    requires Leads(START, steps, end) && forall i :: 0 <= i < |steps| ==> !steps[i].CallStop?
    requires end.reader == None
    ensures end.status == if end.begun == 0 then Idle else Finish(end.begun - 1)
  {
    FinishRun(START, steps, end);
  }

  // ---------------------------------------------------------------- sessions nobody ends

  predicate BeforeReader(r: Request) { r.StartProcess? || r.StartSpawning? }

  /** Some start is about to create the reader of its session. */
  ghost predicate ReaderToCome(s: State) {
    exists c :: c in s.requests && BeforeReader(s.requests[c])
  }

  /** The global names a session that has no reader and will get none. */
  ghost predicate Abandoned(s: State) {
    s.reader.Some? && s.readers == map[] && !ReaderToCome(s)
  }

  lemma NoReaders(m: map<Session, Reader>, id: Session)
    requires id in m
    ensures m != map[]
  {
  }

  /** Launching or accepting fails. */
  predicate Breaks(step: Step) {
    (step.Launch? && !step.ok) || (step.Accept? && !step.ok)
  }

  lemma StepAbandons(s: State, step: Step)
    requires Inv(s) && Enabled(s, step) && !Abandoned(s)
    ensures Abandoned(Apply(s, step)) <==> Breaks(step)
  {
    var s' := Apply(s, step);
    if step.Launch? || step.Listen? {
      assert step.ok ==> BeforeReader(s'.requests[step.c]);
    } else if step.Spawn? {
      NoReaders(s'.readers, s.requests[step.c].id);
    } else if step.Accept? {
      assert forall i :: i in s.readers ==> i == step.id;
      if step.ok { NoReaders(s'.readers, step.id); }
    } else if step.Line? || step.MarkRecording? || step.ReadFails? || step.TakeLock? {
      NoReaders(s'.readers, step.id);
    } else if ReaderToCome(s) {
      ReaderStillToCome(s, step);
    }
  }

  /** A session is abandoned exactly when launching its process fails or accepting its connection does. */
  lemma AbandonedIff(s: State, step: Step)
    requires Reachable(s) && Enabled(s, step) && !Abandoned(s)
    ensures Abandoned(Apply(s, step)) <==> Breaks(step)
  {
    ReachableInv(s);
    StepAbandons(s, step);
  }

  lemma ReaderStillToCome(s: State, step: Step)
    requires Inv(s) && Enabled(s, step) && ReaderToCome(s) && !step.Launch? && !step.Spawn?
    ensures ReaderToCome(Apply(s, step))
  {
    var c :| c in s.requests && BeforeReader(s.requests[c]);
    assert c in Apply(s, step).requests && BeforeReader(Apply(s, step).requests[c]);
  }

  /** An abandoned session is never cleared: every later start is refused, and no session begins again. */
  lemma {:induction false} AbandonedForever(s: State, steps: seq<Step>, end: State)
    requires Inv(s) && Abandoned(s) && Leads(s, steps, end)
    ensures Abandoned(end) && end.reader == s.reader && end.begun == s.begun
    decreases |steps|
  {
    if steps != [] {
      StepInv(s, steps[0]);
      var s' := Apply(s, steps[0]);
      assert Abandoned(s') && s'.reader == s.reader && s'.begun == s.begun;
      AbandonedForever(s', steps[1..], end);
    }
  }

  /** A whole run leaves an abandoned session exactly when some launch or accept in it failed. */
  lemma {:induction false} RunAbandonsIff(s: State, steps: seq<Step>, end: State)
    requires Inv(s) && !Abandoned(s) && Leads(s, steps, end)
    ensures Abandoned(end) <==> exists i :: 0 <= i < |steps| && Breaks(steps[i])
    decreases |steps|
  {
    if steps != [] {
      var s' := Apply(s, steps[0]);
      StepInv(s, steps[0]);
      StepAbandons(s, steps[0]);
      if Abandoned(s') {
        AbandonedForever(s', steps[1..], end);
      } else {
        RunAbandonsIff(s', steps[1..], end);
        assert forall i :: 0 <= i < |steps| - 1 ==> steps[1..][i] == steps[i + 1];
        if exists i :: 0 <= i < |steps| && Breaks(steps[i]) {
          var i :| 0 <= i < |steps| && Breaks(steps[i]);
          assert Breaks(steps[1..][i - 1]);
        }
      }
    }
  }

  // ---------------------------------------------------------------- sessions that can begin again

  function RequestRank(r: Request): nat {
    match r
    case StartProcess(_) => 13
    case StartSpawning(_) => 12
    case StartMarking(_) => 2
    case StartChecking => 3
    case StopChecking => 3
    case StopWriting => 2
    case Releasing => 1
    case _ => 0
  }

  function ReaderRank(r: Reader): nat {
    match r
    case Accepting => 6
    case Marking => 5
    case Reading => 4
    case Waiting => 3
    case Finishing => 2
    case Leaving => 1
  }

  /** Steps that the holder of the mutex and the reader still need, when nothing fails. */
  function Rank(s: State): nat {
    (match s.lock
     case Some(ByCaller(c)) => if c in s.requests then RequestRank(s.requests[c]) else 0
     case Some(ByReader(id)) => if s.reader == None && id in s.readers then ReaderRank(s.readers[id]) else 0
     case None => 0)
    + match s.reader
      case Some(id) => if id in s.readers then ReaderRank(s.readers[id]) else 0
      case None => 0
  }

  /** The next step of a request that holds the mutex. */
  function RequestNext(c: Caller, r: Request): Step {
    match r
    case StartListening => Listen(c, true)
    case StartProcess(_) => Launch(c, true)
    case StartSpawning(_) => Spawn(c)
    case StartMarking(_) => MarkStarting(c)
    case StopWriting => WriteQuit(c)
    case Releasing => Release(c)
    case _ => Check(c)
  }

  function ReaderNext(id: Session, r: Reader): Step {
    match r
    case Accepting => Accept(id, true)
    case Reading => ReadFails(id)
    case Marking => MarkRecording(id)
    case Waiting => TakeLock(id)
    case Finishing => MarkFinish(id)
    case Leaving => Leave(id)
  }

  /** Neither a holder of the mutex nor a current session. */
  predicate Free(s: State) { s.lock == None && s.reader == None }

  /** The step that brings the mutex and the session closer to being free. */
  function Next(s: State): Step
    requires !Free(s)
  {
    match s.lock
    case Some(ByCaller(c)) => RequestNext(c, if c in s.requests then s.requests[c] else Releasing)
    case Some(ByReader(id)) => ReaderNext(id, if id in s.readers then s.readers[id] else Leaving)
    case None =>
      var id := s.reader.value;
      ReaderNext(id, if id in s.readers then s.readers[id] else Leaving)
  }

  lemma NextOfRequest(s: State, c: Caller)
    requires Inv(s) && s.lock == Some(ByCaller(c))
    ensures Enabled(s, Next(s)) && !Breaks(Next(s))
    ensures var s' := Apply(s, Next(s)); s'.begun > s.begun || (s'.begun == s.begun && Rank(s') < Rank(s))
  {
    hide StatusInv;
    assert c in s.requests && Holding(s.requests[c]);
  }

  lemma NextOfHolder(s: State, id: Session)
    requires Inv(s) && s.lock == Some(ByReader(id))
    ensures Enabled(s, Next(s)) && !Breaks(Next(s))
    ensures var s' := Apply(s, Next(s)); s'.begun == s.begun && Rank(s') < Rank(s)
  {
    hide StatusInv, StartInv;
    assert id in s.readers;
  }

  lemma NextOfReader(s: State, id: Session)
    requires Inv(s) && s.lock == None && s.reader == Some(id) && id in s.readers
    ensures Enabled(s, Next(s)) && !Breaks(Next(s))
    ensures var s' := Apply(s, Next(s)); s'.begun == s.begun && Rank(s') < Rank(s)
  {
    hide StatusInv, StartInv;
  }

  /** While nobody holds the mutex, a current session that is not abandoned has its reader. */
  lemma ReaderAtWork(s: State)
    requires Inv(s) && !Abandoned(s) && s.lock == None && s.reader.Some?
    ensures s.reader.value in s.readers
  {
    assert s.readers != map[];
    var id :| id in s.readers;
  }

  lemma {:induction false} FreshCaller(callers: set<Caller>) returns (c: Caller)
    ensures forall k :: k in callers ==> k < c
  {
    if callers == {} {
      c := 0;
    } else {
      var k :| k in callers;
      var c' := FreshCaller(callers - {k});
      c := if c' > k then c' else k + 1;
      forall k' | k' in callers ensures k' < c {
        assert k' == k || k' in callers - {k};
      }
    }
  }

  lemma LeadsCons(s: State, step: Step, steps: seq<Step>, end: State)
    requires Enabled(s, step) && Leads(Apply(s, step), steps, end)
    ensures Leads(s, [step] + steps, end)
  {
    assert ([step] + steps)[1..] == steps;
  }

  /** With mutex and session free, a new start begins a session. */
  lemma FreeCanBegin(s: State) returns (steps: seq<Step>, end: State)
    requires Inv(s) && Free(s)
    ensures Leads(s, steps, end) && end.begun > s.begun
  {
    var c := FreshCaller(s.requests.Keys);
    assert c !in s.requests;
    var s1 := Apply(s, CallStart(c));
    var s2 := Apply(s1, Acquire(c));
    var s3 := Apply(s2, Check(c));
    end := Apply(s3, Listen(c, true));
    hide Apply, Enabled;
    LeadsCons(s3, Listen(c, true), [], end);
    LeadsCons(s2, Check(c), [Listen(c, true)], end);
    LeadsCons(s1, Acquire(c), [Check(c)] + [Listen(c, true)], end);
    steps := [CallStart(c)] + ([Acquire(c)] + ([Check(c)] + [Listen(c, true)]));
    LeadsCons(s, CallStart(c), [Acquire(c)] + ([Check(c)] + [Listen(c, true)]), end);
  }

  /** From every state that is not abandoned a further session can begin. */
  lemma {:induction false} CanBegin(s: State) returns (steps: seq<Step>, end: State)
    requires Inv(s) && !Abandoned(s)
    ensures Leads(s, steps, end) && end.begun > s.begun
    decreases Rank(s)
  {
    if Free(s) {
      steps, end := FreeCanBegin(s);
    } else {
      var step := Next(s);
      NextStep(s);
      var s' := Apply(s, step);
      StepInv(s, step);
      StepAbandons(s, step);
      hide Inv, Apply, Enabled, Abandoned, Next, Rank, Free;
      if s'.begun > s.begun {
        steps, end := [step], s';
        LeadsCons(s, step, [], s');
      } else {
        var rest, e := CanBegin(s');
        steps, end := [step] + rest, e;
        LeadsCons(s, step, rest, e);
      }
    }
  }

  lemma NextStep(s: State)
    requires Inv(s) && !Abandoned(s) && !Free(s)
    ensures Enabled(s, Next(s)) && !Breaks(Next(s))
    ensures var s' := Apply(s, Next(s)); s'.begun > s.begun || (s'.begun == s.begun && Rank(s') < Rank(s))
  {
    hide Inv, Apply, Enabled, Abandoned, Next, Rank;
    match s.lock {
      case Some(ByCaller(c)) => NextOfRequest(s, c);
      case Some(ByReader(id)) => NextOfHolder(s, id);
      case None =>
        ReaderAtWork(s);
        NextOfReader(s, s.reader.value);
    }
  }

  /** No continuation of any length begins a session. */
  ghost predicate NeverBegins(s: State) {
    forall steps, end :: Leads(s, steps, end) ==> end.begun == s.begun
  }

  /** No session ever begins again if and only if the current one is abandoned. */
  lemma NeverBeginsIff(s: State)
    requires Inv(s)
    ensures NeverBegins(s) <==> Abandoned(s)
  {
    hide Inv, Abandoned;
    if Abandoned(s) {
      forall steps, end | Leads(s, steps, end) ensures end.begun == s.begun {
        AbandonedForever(s, steps, end);
      }
    } else {
      var steps, end := CanBegin(s);
      assert Leads(s, steps, end);
    }
  }

  /** Over a whole run: no session can begin after it if and only if some launch or accept in it failed. */
  lemma BlockedIff(steps: seq<Step>, end: State)
    requires Leads(START, steps, end)
    ensures NeverBegins(end) <==> exists i :: 0 <= i < |steps| && Breaks(steps[i])
  {
    RunInv(START, steps, end);
    RunAbandonsIff(START, steps, end);
    NeverBeginsIff(end);
  }

  /** Outside a start, a session is current exactly when its reader is at work or it has been abandoned. */
  lemma CurrentIff(s: State)
    requires Reachable(s)
    requires forall c :: c in s.requests ==> !InSession(s.requests[c])
    ensures s.reader.Some? <==> (exists id :: id in s.readers && s.readers[id] != Leaving) || Abandoned(s)
  {
    ReachableInv(s);
    if s.reader.Some? && s.readers != map[] {
      var id :| id in s.readers;
      assert s.readers[id] != Leaving;
    }
  }
}
