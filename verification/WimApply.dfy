/**
 The rendezvous between the goroutine of Apply with its progress callback (tools/wim/wim.go) and the select
 loop of ApplyImage2 (service/maintenance_linux.go), over two unbuffered channels. The library is reduced
 to the sequence of callbacks it makes and its result.
 */
module WimApply {
  import opened Options

  /** A progress message, the end message, or a callback that produces no text. */
  datatype Callback = Note(text: string) | End | Silent

  const END_TEXT := "Image applied successfully"

  /** The extraction result: success, or a failure with the error the runtime attaches, which may be nil. */
  datatype Extraction = Ok | Failure(error: Option<string>)

  datatype Worker =
    | Preparing | SendingFailure(cause: string)
    | Extracting | SendingEnd | SendingError(error: Option<string>)
    | Unmounting | ClosingFinish | ClosingProgress | Exited

  datatype Handler = Calling | Selecting | Forwarding(text: string) | Returned(error: Option<string>)

  datatype State = State(
    script: seq<Callback>,
    result: Extraction,
    worker: Worker,
    handler: Handler,
    finishClosed: bool,
    progressClosed: bool,
    unmounts: nat,
    emitted: seq<string>,
    delivered: seq<string>)

  datatype Step =
    | Prepare(failure: Option<string>)
    | Emit(taken: bool)
    | TakeFinish
    | Finish
    | Unmount | CloseFinish | CloseProgress
    | SeeFinishClosed
    | SeeProgressClosed
    | Forward

  function Start(script: seq<Callback>, result: Extraction): State {
    State(script, result, Preparing, Calling, false, false, 0, [], [])
  }

  /** The non-blocking send can only be taken by a handler that stands at its select. */
  predicate Enabled(s: State, step: Step) {
    match step
    case Prepare(_) => s.worker == Preparing
    case Emit(taken) =>
      s.worker == Extracting && s.script != [] && (taken ==> s.handler == Selecting && !s.script[0].Silent?)
    case TakeFinish =>
      s.handler == Selecting && (s.worker == SendingEnd || s.worker.SendingError? || s.worker.SendingFailure?)
    case Finish => s.worker == Extracting && s.script == []
    case Unmount => s.worker == Unmounting
    case CloseFinish => s.worker == ClosingFinish
    case CloseProgress => s.worker == ClosingProgress
    case SeeFinishClosed => s.handler == Selecting && s.finishClosed
    case SeeProgressClosed => s.handler == Selecting && s.progressClosed
    case Forward => s.handler.Forwarding?
  }

  function Text(c: Callback): string {
    match c
    case Note(text) => text
    case End => END_TEXT
    case Silent => ""
  }

  function Apply(s: State, step: Step): State
    requires Enabled(s, step)
  {
    match step
    // the preparation runs inside the call; the handler reaches its select when the call has returned
    case Prepare(failure) =>
      if failure == None then s.(worker := Extracting, handler := Selecting)
      else s.(worker := SendingFailure(failure.value))
    case Emit(taken) =>
      var c := s.script[0];
      s.(script := s.script[1..],
         worker := if c == End then SendingEnd else Extracting,
         emitted := if c == Silent then s.emitted else s.emitted + [Text(c)],
         handler := if taken then Forwarding(Text(c)) else s.handler)
    case TakeFinish =>
      if s.worker == SendingEnd then s.(handler := Returned(None), worker := Extracting)
      else if s.worker.SendingFailure? then s.(handler := Returned(Some(s.worker.cause)), worker := Exited)
      else s.(handler := Returned(s.worker.error), worker := Unmounting)
    case Finish =>
      s.(worker := if s.result == Ok then Unmounting else SendingError(s.result.error))
    case Unmount => s.(worker := ClosingFinish, unmounts := s.unmounts + 1)
    case CloseFinish => s.(worker := ClosingProgress, finishClosed := true)
    case CloseProgress => s.(worker := Exited, progressClosed := true)
    case SeeFinishClosed => s.(handler := Returned(None))
    // receiving from the closed progress channel yields an empty text
    case SeeProgressClosed => s.(handler := Forwarding(""))
    case Forward => s.(handler := Selecting, delivered := s.delivered + [s.handler.text])
  }

  ghost predicate Leads(s: State, steps: seq<Step>, end: State)
    decreases |steps|
  {
    if steps == [] then end == s
    else Enabled(s, steps[0]) && Leads(Apply(s, steps[0]), steps[1..], end)
  }

  // ---------------------------------------------------------------- counting the blocking sends

  function Ends(script: seq<Callback>): nat {
    if script == [] then 0 else (if script[0] == End then 1 else 0) + Ends(script[1..])
  }

  /** Blocking sends on the finish channel that a run has before it, counting the one it may stand at. */
  function SendsOf(script: seq<Callback>, result: Extraction): nat {
    Ends(script) + (if result == Ok then 0 else 1)
  }

  function SendsLeft(s: State): nat {
    match s.worker
    case Extracting => SendsOf(s.script, s.result)
    case SendingEnd => 1 + SendsOf(s.script, s.result)
    case SendingError(_) => 1
    case _ => 0
  }

  /** Exactly one send finds a receiver; the handler is gone after it. */
  ghost predicate Inv(s: State, total: nat) {
    && (s.worker.SendingFailure? || s.worker == Preparing ==>
          s.handler == Calling && s.unmounts == 0 && !s.finishClosed && !s.progressClosed)
    && (s.worker == Preparing ==> total == SendsOf(s.script, s.result))
    && (s.worker.SendingError? ==> s.result == Failure(s.worker.error))
    && (s.worker != Preparing && !s.worker.SendingFailure? ==>
          && s.handler != Calling
          && (s.finishClosed <==> s.worker in {ClosingProgress, Exited})
          && (s.progressClosed <==> s.worker == Exited)
          && s.unmounts == (if s.worker in {ClosingFinish, ClosingProgress, Exited} then 1 else 0)
          && (SendsLeft(s) == total || (SendsLeft(s) + 1 == total && s.handler.Returned?))
          && (s.handler.Returned? ==> SendsLeft(s) + 1 == total || (total == 0 && s.finishClosed)))
  }

  lemma StepInv(s: State, step: Step, total: nat)
    requires Inv(s, total) && Enabled(s, step)
    ensures Inv(Apply(s, step), total)
  {
  }

  lemma {:induction false} RunInv(s: State, steps: seq<Step>, end: State, total: nat)
    requires Inv(s, total) && Leads(s, steps, end)
    ensures Inv(end, total)
    decreases |steps|
  {
    if steps != [] {
      StepInv(s, steps[0], total);
      RunInv(Apply(s, steps[0]), steps[1..], end, total);
    }
  }

  /** Nothing can move any more. */
  ghost predicate Halted(s: State) {
    forall step :: !Enabled(s, step)
  }

  /**
   Wherever a run that got past its preparation comes to rest, the handler has returned; and the mount was
   undone, once, if and only if the end messages and a failing result together make at most one send.
   */
  lemma RestsUnmountedIff(script: seq<Callback>, result: Extraction, steps: seq<Step>, end: State)
    requires Leads(Start(script, result), steps, end) && Halted(end)
    requires !end.worker.SendingFailure?
    ensures end.handler.Returned?
    ensures end.unmounts == if SendsOf(script, result) <= 1 then 1 else 0
    ensures end.unmounts == 1 <==> end.worker == Exited
  {
    RunInv(Start(script, result), steps, end, SendsOf(script, result));
    hide Apply, Leads, SendsOf, Start;
    assert !Enabled(end, Prepare(None)) && !Enabled(end, Emit(false)) && !Enabled(end, Finish);
    assert !Enabled(end, TakeFinish) && !Enabled(end, Unmount) && !Enabled(end, CloseFinish);
    assert !Enabled(end, CloseProgress) && !Enabled(end, SeeFinishClosed) && !Enabled(end, Forward);
  }

  /** What the handler is to return: the error of a failure not preceded by an end message, else nil. */
  function Verdict(script: seq<Callback>, result: Extraction): Option<string> {
    if result.Failure? && Ends(script) == 0 then result.error else None
  }

  ghost predicate VerdictInv(s: State, verdict: Option<string>) {
    match s.handler
    case Returned(e) => e == verdict
    case _ =>
      match s.worker {
        case Preparing => verdict == Verdict(s.script, s.result)
        case Extracting => verdict == Verdict(s.script, s.result)
        case SendingEnd => verdict == None
        case SendingError(e) => verdict == e
        case SendingFailure(_) => true
        case _ => verdict == None
      }
  }

  lemma {:induction false} VerdictRun(s: State, steps: seq<Step>, end: State, total: nat, verdict: Option<string>)
    requires Inv(s, total) && VerdictInv(s, verdict) && Leads(s, steps, end)
    ensures VerdictInv(end, verdict)
    decreases |steps|
  {
    if steps != [] {
      StepInv(s, steps[0], total);
      assert VerdictInv(Apply(s, steps[0]), verdict);
      VerdictRun(Apply(s, steps[0]), steps[1..], end, total, verdict);
    }
  }

  /**
   The handler returns the error of a failed extraction unless an end message came before it. A failure is
   therefore reported as success exactly when an end message preceded it or its attached error is nil.
   */
  lemma ReturnedVerdict(script: seq<Callback>, result: Extraction, steps: seq<Step>, end: State)
    requires Leads(Start(script, result), steps, end) && end.handler.Returned?
    ensures end.handler.error == Verdict(script, result)
    ensures result.Failure? ==> (end.handler.error == None <==> Ends(script) > 0 || result.error == None)
  {
    VerdictRun(Start(script, result), steps, end, SendsOf(script, result), Verdict(script, result));
  }

  /**
   The error of a failed preparation is sent while the handler, in the same call, is not at its select yet: no
   receiver ever comes, the call never returns, and nothing more happens.
   */
  lemma FailedPreparationHangs(script: seq<Callback>, result: Extraction, steps: seq<Step>, end: State)
    requires Leads(Start(script, result), steps, end) && steps != [] && steps[0].Prepare? && steps[0].failure.Some?
    ensures end == Apply(Start(script, result), steps[0])
    ensures Halted(end) && end.handler == Calling
  {
    var s := Apply(Start(script, result), steps[0]);
    StepInv(Start(script, result), steps[0], SendsOf(script, result));
    assert Halted(s);
    assert steps[1..] == [];
  }

  // ---------------------------------------------------------------- termination

  /** Steps still to come, not counting empty texts read from the closed progress channel. */
  function Rank(s: State): nat {
    (match s.worker
     case Preparing => 3 * |s.script| + 7
     case SendingFailure(_) => 0
     case Extracting => 3 * |s.script| + 5
     case SendingEnd => 3 * |s.script| + 6
     case SendingError(_) => 4
     case Unmounting => 3
     case ClosingFinish => 2
     case ClosingProgress => 1
     case Exited => 0)
    + (match s.handler case Forwarding(_) => 1 case Selecting => 0 case Calling => 0 case Returned(_) => 0)
    + (if s.handler.Returned? then 0 else 1)
  }

  /**
   Every step brings the run closer to its end, except reading the closed progress channel; whenever that
   is possible the handler could return instead.
   */
  lemma StepsEnd(s: State, step: Step, total: nat)
    requires Inv(s, total) && Enabled(s, step)
    ensures step != SeeProgressClosed ==> Rank(Apply(s, step)) < Rank(s)
    ensures step == SeeProgressClosed ==> Rank(Apply(s, step)) == Rank(s) + 1 && Enabled(s, SeeFinishClosed)
  {
  }

  function Detours(steps: seq<Step>): nat {
    if steps == [] then 0 else (if steps[0] == SeeProgressClosed then 1 else 0) + Detours(steps[1..])
  }

  /** A run is bounded by the number of callbacks and the number of times the select prefers the closed channel. */
  lemma {:induction false} RunsAreBounded(s: State, steps: seq<Step>, end: State, total: nat)
    requires Inv(s, total) && Leads(s, steps, end)
    ensures |steps| + Rank(end) <= Rank(s) + 2 * Detours(steps)
    decreases |steps|
  {
    if steps != [] {
      StepInv(s, steps[0], total);
      StepsEnd(s, steps[0], total);
      RunsAreBounded(Apply(s, steps[0]), steps[1..], end, total);
    }
  }

  // ---------------------------------------------------------------- infinite runs

  /** An execution that goes on forever: state i takes step i. */
  ghost predicate InfiniteRun(script: seq<Callback>, result: Extraction, states: nat -> State, steps: nat -> Step) {
    states(0) == Start(script, result) && forall i: nat :: StepAt(states, steps, i)
  }

  ghost predicate StepAt(states: nat -> State, steps: nat -> Step, i: nat) {
    Enabled(states(i), steps(i)) && states(i + 1) == Apply(states(i), steps(i))
  }

  /** The closed finish channel can be seen again and again. */
  ghost predicate OftenFinished(states: nat -> State) {
    forall i: nat :: FinishedAfter(states, i)
  }

  ghost predicate FinishedAfter(states: nat -> State, i: nat) {
    exists j: nat :: i <= j && Enabled(states(j), SeeFinishClosed)
  }

  /** The select does not pass over the closed finish channel forever. */
  ghost predicate FairSelect(states: nat -> State, steps: nat -> Step) {
    OftenFinished(states) ==> exists j: nat :: steps(j) == SeeFinishClosed
  }

  lemma {:induction false} InfiniteInv(script: seq<Callback>, result: Extraction, states: nat -> State,
                                       steps: nat -> Step, i: nat)
    requires InfiniteRun(script, result, states, steps)
    ensures Inv(states(i), SendsOf(script, result)) && Enabled(states(i), steps(i))
  {
    assert StepAt(states, steps, i);
    if i > 0 {
      InfiniteInv(script, result, states, steps, i - 1);
      assert StepAt(states, steps, i - 1);
      hide Inv, Apply, Enabled;
      StepInv(states(i - 1), steps(i - 1), SendsOf(script, result));
    }
  }

  /** The closed progress channel is read again and again: nothing else can go on forever. */
  lemma {:induction false} DetourAfter(script: seq<Callback>, result: Extraction, states: nat -> State,
                                       steps: nat -> Step, i: nat) returns (j: nat)
    requires InfiniteRun(script, result, states, steps)
    ensures i <= j && steps(j) == SeeProgressClosed
    decreases Rank(states(i))
  {
    if steps(i) == SeeProgressClosed {
      j := i;
    } else {
      InfiniteInv(script, result, states, steps, i);
      hide Inv, Apply, Enabled, Rank;
      StepsEnd(states(i), steps(i), SendsOf(script, result));
      assert StepAt(states, steps, i);
      j := DetourAfter(script, result, states, steps, i + 1);
    }
  }

  lemma {:induction false} ReturnedStays(script: seq<Callback>, result: Extraction, states: nat -> State,
                                         steps: nat -> Step, i: nat, j: nat)
    requires InfiniteRun(script, result, states, steps) && states(i).handler.Returned? && i <= j
    ensures states(j).handler.Returned?
    decreases j - i
  {
    if i < j {
      ReturnedStays(script, result, states, steps, i, j - 1);
      InfiniteInv(script, result, states, steps, j - 1);
      assert StepAt(states, steps, j - 1);
      ReturnedStep(states(j - 1), steps(j - 1), SendsOf(script, result));
    }
  }

  lemma ReturnedStep(s: State, step: Step, total: nat)
    requires Inv(s, total) && s.handler.Returned? && Enabled(s, step)
    ensures Apply(s, step).handler.Returned?
  {
  }

  /** No execution goes on forever if the select does not pass over the closed finish channel forever. */
  lemma FairRunsEnd(script: seq<Callback>, result: Extraction, states: nat -> State, steps: nat -> Step)
    requires InfiniteRun(script, result, states, steps)
    ensures !FairSelect(states, steps)
  {
    forall i: nat ensures FinishedAfter(states, i) {
      var j := DetourAfter(script, result, states, steps, i);
      InfiniteInv(script, result, states, steps, j);
      StepsEnd(states(j), steps(j), SendsOf(script, result));
    }
    if j: nat :| steps(j) == SeeFinishClosed {
      assert StepAt(states, steps, j);
      var l := DetourAfter(script, result, states, steps, j + 1);
      InfiniteInv(script, result, states, steps, l);
      ReturnedStays(script, result, states, steps, j + 1, l);
    }
  }

  lemma LeadsCons(s: State, step: Step, steps: seq<Step>, end: State)
    requires Enabled(s, step) && Leads(Apply(s, step), steps, end)
    ensures Leads(s, [step] + steps, end)
  {
    assert ([step] + steps)[1..] == steps;
  }

  /** Every state has a run to rest; one past its preparation stays so. */
  lemma {:induction false} RunToRest(s: State, total: nat) returns (steps: seq<Step>, end: State)
    requires Inv(s, total)
    ensures Leads(s, steps, end) && Halted(end)
    ensures s.handler != Calling ==> end.handler != Calling
    decreases Rank(s)
  {
    if Halted(s) {
      steps, end := [], s;
    } else {
      var step :| Enabled(s, step);
      StepsEnd(s, step, total);
      if step == SeeProgressClosed {
        step := SeeFinishClosed;
        StepsEnd(s, step, total);
      }
      StepInv(s, step, total);
      assert s.handler != Calling ==> Apply(s, step).handler != Calling;
      steps, end := RunToRest(Apply(s, step), total);
      LeadsCons(s, step, steps, end);
      steps := [step] + steps;
    }
  }

  /** A run that is past its preparation and at rest with the image still mounted. */
  ghost predicate LeavesMounted(script: seq<Callback>, result: Extraction, steps: seq<Step>, end: State) {
    && Leads(Start(script, result), steps, end) && Halted(end)
    && !end.worker.SendingFailure? && end.unmounts == 0
  }

  /** Some run leaves the image mounted if and only if the end messages and a failing result make two sends or more. */
  lemma LeftMountedIff(script: seq<Callback>, result: Extraction)
    ensures (exists steps, end :: LeavesMounted(script, result, steps, end)) <==> SendsOf(script, result) >= 2
  {
    var total := SendsOf(script, result);
    if total >= 2 {
      var s := Start(script, result);
      var s' := Apply(s, Prepare(None));
      StepInv(s, Prepare(None), total);
      var steps, end := RunToRest(s', total);
      LeadsCons(s, Prepare(None), steps, end);
      RunInv(s', steps, end, total);
      RestsUnmountedIff(script, result, [Prepare(None)] + steps, end);
      assert LeavesMounted(script, result, [Prepare(None)] + steps, end);
    } else {
      forall steps, end ensures !LeavesMounted(script, result, steps, end) {
        if LeavesMounted(script, result, steps, end) {
          RestsUnmountedIff(script, result, steps, end);
        }
      }
    }
  }

  // ---------------------------------------------------------------- delivered progress

  /** a is obtained from b by leaving elements out. */
  ghost predicate Subsequence(a: seq<string>, b: seq<string>) {
    a == [] ||
    (b != [] && (Subsequence(a, b[..|b| - 1])
                 || (a[|a| - 1] == b[|b| - 1] && Subsequence(a[..|a| - 1], b[..|b| - 1]))))
  }

  lemma SubsequenceSkip(a: seq<string>, b: seq<string>, x: string)
    requires Subsequence(a, b)
    ensures Subsequence(a, b + [x])
  {
    assert (b + [x])[..|b|] == b;
  }

  lemma SubsequenceTake(a: seq<string>, b: seq<string>, x: string)
    requires Subsequence(a, b)
    ensures Subsequence(a + [x], b + [x])
  {
    assert (b + [x])[..|b|] == b && (a + [x])[..|a|] == a;
  }

  function Proper(texts: seq<string>): seq<string> {
    if texts == [] then []
    else Proper(texts[..|texts| - 1]) + (if texts[|texts| - 1] == "" then [] else [texts[|texts| - 1]])
  }

  lemma ProperSnoc(texts: seq<string>, x: string)
    ensures Proper(texts + [x]) == if x == "" then Proper(texts) else Proper(texts) + [x]
  {
    assert (texts + [x])[..|texts|] == texts;
  }

  /** Texts handed to the client, with the one the handler is about to send. */
  function Handed(s: State): seq<string> {
    s.delivered + (if s.handler.Forwarding? then [s.handler.text] else [])
  }

  /** The library's messages have text. */
  ghost predicate Worded(script: seq<Callback>) {
    forall c :: c in script && c.Note? ==> c.text != ""
  }

  /** What the library says over a whole script. */
  function Spoken(script: seq<Callback>): seq<string> {
    if script == [] then []
    else (match script[0]
          case Note(text) => [text]
          case End => ["Image applied successfully"]
          case Silent => []) + Spoken(script[1..])
  }

  lemma {:induction false} SpokenRun(s: State, steps: seq<Step>, end: State)
    requires Leads(s, steps, end)
    ensures end.emitted + Spoken(end.script) == s.emitted + Spoken(s.script)
    decreases |steps|
  {
    if steps != [] {
      SpokenStep(s, steps[0]);
      SpokenRun(Apply(s, steps[0]), steps[1..], end);
    }
  }

  lemma SpokenStep(s: State, step: Step)
    requires Enabled(s, step)
    ensures Apply(s, step).emitted + Spoken(Apply(s, step).script) == s.emitted + Spoken(s.script)
  {
    if step.Emit? && s.script[0] != Silent {
      assert Spoken(s.script) == [Text(s.script[0])] + Spoken(s.script[1..]);
    }
  }

  /** The texts emitted are the ones the library says, in order; all of them once the script is through. */
  lemma EmittedIsSpoken(script: seq<Callback>, result: Extraction, steps: seq<Step>, end: State)
    requires Leads(Start(script, result), steps, end)
    ensures end.emitted <= Spoken(script)
    ensures end.script == [] ==> end.emitted == Spoken(script)
  {
    SpokenRun(Start(script, result), steps, end);
    assert [] + Spoken(script) == Spoken(script);
  }

  ghost predicate DeliveryInv(s: State, total: nat) {
    && Worded(s.script)
    && Subsequence(Proper(Handed(s)), s.emitted)
    && (total > 0 || s.worker != Exited ==> "" !in Handed(s))
  }

  /** A callback is emitted, and handed over or dropped. */
  lemma EmitDelivers(s: State, taken: bool, total: nat)
    requires Inv(s, total) && DeliveryInv(s, total) && Enabled(s, Emit(taken))
    ensures DeliveryInv(Apply(s, Emit(taken)), total)
  {
    hide Inv, Subsequence, Proper, Ends, SendsOf;
    var s' := Apply(s, Emit(taken));
    var c := s.script[0];
    assert s.script == [c] + s'.script;
    assert c in s.script;
    if c != Silent {
      assert Text(c) != "";
      SubsequenceSkip(Proper(Handed(s)), s.emitted, Text(c));
      SubsequenceTake(Proper(Handed(s)), s.emitted, Text(c));
      ProperSnoc(s.delivered, Text(c));
      assert s.handler == Selecting ==> Handed(s) == s.delivered;
    }
  }

  lemma DeliveryStep(s: State, step: Step, total: nat)
    requires Inv(s, total) && DeliveryInv(s, total) && Enabled(s, step)
    ensures DeliveryInv(Apply(s, step), total)
  {
    hide Subsequence, Proper, Ends, SendsOf;
    match step {
      case Emit(taken) =>
        EmitDelivers(s, taken, total);
      case SeeProgressClosed =>
        ProperSnoc(s.delivered, "");
        assert Handed(s) == s.delivered;
      case _ =>
        assert Handed(Apply(s, step)) == Handed(s);
    }
  }

  lemma {:induction false} DeliveryRun(s: State, steps: seq<Step>, end: State, total: nat)
    requires Inv(s, total) && DeliveryInv(s, total) && Leads(s, steps, end)
    ensures DeliveryInv(end, total)
    decreases |steps|
  {
    if steps != [] {
      StepInv(s, steps[0], total);
      DeliveryStep(s, steps[0], total);
      DeliveryRun(Apply(s, steps[0]), steps[1..], end, total);
    }
  }

  /**
   On every interleaving what the client gets is a subsequence of what was emitted, apart from empty texts,
   and there are no empty texts if the library sends an end message or fails.
   */
  lemma DeliveredIsSubsequence(script: seq<Callback>, result: Extraction, steps: seq<Step>, end: State)
    requires Worded(script) && Leads(Start(script, result), steps, end)
    ensures Subsequence(Proper(end.delivered), end.emitted)
    ensures SendsOf(script, result) > 0 ==> "" !in end.delivered
  {
    DeliveryRun(Start(script, result), steps, end, SendsOf(script, result));
    if end.handler.Forwarding? {
      ProperSnoc(end.delivered, end.handler.text);
      if end.handler.text != "" {
        DropLast(Proper(end.delivered), end.handler.text, end.emitted);
      }
    } else {
      assert Handed(end) == end.delivered;
    }
  }

  lemma {:induction false} DropLast(a: seq<string>, x: string, b: seq<string>)
    requires Subsequence(a + [x], b)
    ensures Subsequence(a, b)
    decreases |b|
  {
    var init := b[..|b| - 1];
    assert (a + [x])[..|a|] == a;
    if Subsequence(a + [x], init) {
      DropLast(a, x, init);
    }
    assert b == init + [b[|b| - 1]];
    SubsequenceSkip(a, init, b[|b| - 1]);
  }

  /** A run that drops all progress, lets the goroutine exit, and then picks the closed progress channel. */
  lemma {:induction false} DetourFrom(s: State) returns (steps: seq<Step>, end: State)
    requires s.worker == Extracting && s.handler == Selecting && SendsOf(s.script, s.result) == 0
    ensures Leads(s, steps, end) && "" in end.delivered
    decreases |s.script|
  {
    if s.script != [] {
      steps, end := DetourFrom(Apply(s, Emit(false)));
      LeadsCons(s, Emit(false), steps, end);
      steps := [Emit(false)] + steps;
    } else {
      steps, end := DetourAtEnd(s);
    }
  }

  lemma DetourAtEnd(s: State) returns (steps: seq<Step>, end: State)
    requires s.worker == Extracting && s.handler == Selecting && s.script == [] && s.result == Ok
    ensures Leads(s, steps, end) && "" in end.delivered
  {
    var s1 := Apply(s, Finish);
    var s2 := Apply(s1, Unmount);
    var s3 := Apply(s2, CloseFinish);
    var s4 := Apply(s3, CloseProgress);
    var s5 := Apply(s4, SeeProgressClosed);
    end := Apply(s5, Forward);
    assert end.delivered[|end.delivered| - 1] == "";
    hide Apply, Enabled, Leads;
    LeadsNothing(end);
    LeadsCons(s5, Forward, [], end);
    LeadsCons(s4, SeeProgressClosed, [Forward] + [], end);
    LeadsCons(s3, CloseProgress, [SeeProgressClosed] + ([Forward] + []), end);
    steps := [CloseProgress] + ([SeeProgressClosed] + ([Forward] + []));
    LeadsCons(s2, CloseFinish, steps, end);
    LeadsCons(s1, Unmount, [CloseFinish] + steps, end);
    LeadsCons(s, Finish, [Unmount] + ([CloseFinish] + steps), end);
    steps := [Finish] + ([Unmount] + ([CloseFinish] + steps));
  }

  lemma LeadsNothing(s: State)
    ensures Leads(s, [], s)
  {
  }

  /** A run that delivers an empty text. */
  ghost predicate DeliversEmptyText(script: seq<Callback>, result: Extraction, steps: seq<Step>, end: State) {
    Leads(Start(script, result), steps, end) && "" in end.delivered
  }

  /** Some interleaving delivers an empty text exactly when the library neither sends an end message nor fails. */
  lemma EmptyTextPossibleIff(script: seq<Callback>, result: Extraction)
    requires Worded(script)
    ensures (exists steps, end :: DeliversEmptyText(script, result, steps, end)) <==> SendsOf(script, result) == 0
  {
    if SendsOf(script, result) == 0 {
      var steps, end := DetourFrom(Apply(Start(script, result), Prepare(None)));
      LeadsCons(Start(script, result), Prepare(None), steps, end);
      assert DeliversEmptyText(script, result, [Prepare(None)] + steps, end);
    } else {
      forall steps, end | Leads(Start(script, result), steps, end) ensures "" !in end.delivered {
        DeliveredIsSubsequence(script, result, steps, end);
      }
    }
  }

  // ---------------------------------------------------------------- what can be delivered

  /** The callbacks up to the first end message, that one included. */
  function UpToEnd(script: seq<Callback>): seq<Callback> {
    if script == [] then [] else [script[0]] + if script[0] == End then [] else UpToEnd(script[1..])
  }

  /** Some interleaving forwards everything the library says up to its first end message. */
  lemma AllCanBeDelivered(script: seq<Callback>, result: Extraction) returns (steps: seq<Step>, end: State)
    ensures Leads(Start(script, result), steps, end) && end.delivered == Spoken(UpToEnd(script))
  {
    var s := Start(script, result);
    steps, end := DeliverFrom(Apply(s, Prepare(None)));
    LeadsCons(s, Prepare(None), steps, end);
    steps := [Prepare(None)] + steps;
  }

  lemma {:induction false} DeliverFrom(s: State) returns (steps: seq<Step>, end: State)
    requires s.worker == Extracting && s.handler == Selecting
    ensures Leads(s, steps, end) && end.delivered == s.delivered + Spoken(UpToEnd(s.script))
    decreases |s.script|
  {
    hide Apply, Enabled, Leads, Spoken, UpToEnd, Text;
    if s.script == [] {
      LeadsNothing(s);
      assert UpToEnd(s.script) == [] && Spoken([]) == [] by { NothingSpoken(); }
      steps, end := [], s;
      return;
    }
    SpokenFirst(s.script);
    var c := s.script[0];
    if c == Silent {
      SilentStep(s);
      var s1 := Apply(s, Emit(false));
      steps, end := DeliverFrom(s1);
      LeadsCons(s, Emit(false), steps, end);
      steps := [Emit(false)] + steps;
    } else {
      var s2 := ForwardStep(s);
      if c == End {
        steps, end := [], s2;
        LeadsNothing(s2);
      } else {
        steps, end := DeliverFrom(s2);
      }
      LeadsCons(Apply(s, Emit(true)), Forward, steps, end);
      LeadsCons(s, Emit(true), [Forward] + steps, end);
      steps := [Emit(true)] + ([Forward] + steps);
    }
  }

  lemma NothingSpoken()
    ensures UpToEnd([]) == [] && Spoken([]) == []
  {
  }

  lemma SilentStep(s: State)
    requires s.worker == Extracting && s.handler == Selecting && s.script != [] && s.script[0] == Silent
    ensures Enabled(s, Emit(false)) && Apply(s, Emit(false)) == s.(script := s.script[1..])
  {
  }

  /** The handler takes a text from its select and comes back to it. */
  lemma ForwardStep(s: State) returns (s': State)
    requires s.worker == Extracting && s.handler == Selecting && s.script != [] && s.script[0] != Silent
    ensures Enabled(s, Emit(true)) && Enabled(Apply(s, Emit(true)), Forward)
    ensures s' == Apply(Apply(s, Emit(true)), Forward)
    ensures s'.script == s.script[1..] && s'.handler == Selecting
    ensures s'.worker == if s.script[0] == End then SendingEnd else Extracting
    ensures s'.delivered == s.delivered +
      [if s.script[0] == End then "Image applied successfully" else s.script[0].text]
  {
    s' := Apply(Apply(s, Emit(true)), Forward);
  }

  lemma SpokenFirst(script: seq<Callback>)
    requires script != []
    ensures var rest := Spoken(UpToEnd(script[1..]));
            Spoken(UpToEnd(script)) == match script[0]
                                       case Note(text) => [text] + rest
                                       case End => ["Image applied successfully"]
                                       case Silent => rest
  {
    var heard := UpToEnd(script);
    assert heard[0] == script[0];
    assert heard[1..] == if script[0] == End then [] else UpToEnd(script[1..]);
  }
}
