/**
 The chunked upload protocol (service/deployment.go): the receive loop, the progress goroutines, the mutex
 that gates hashing, the unbuffered stop channel, and the file opened without truncation, as a step system.
 Recv consumes a given stream; opening and writing may fail at any time; the digest is an arbitrary function.
 */
module Upload {
  import opened Machine
  import opened Options
  import opened Files

  type uint32 = x: int | 0 <= x < TWO_32

  datatype Message = Info(size: uint32, path: string) | Chunk(data: Bytes) | Hash(sum: string) | Unset

  /** The data of all chunks in a stretch of the stream. */
  function ChunkData(ms: seq<Message>): Bytes {
    if ms == [] then []
    else ChunkData(ms[..|ms| - 1]) + (if ms[|ms| - 1].Chunk? then ms[|ms| - 1].data else [])
  }

  lemma ChunkDataSnoc(ms: seq<Message>, m: Message)
    ensures ChunkData(ms + [m]) == if m.Chunk? then ChunkData(ms) + m.data else ChunkData(ms)
  {
    assert (ms + [m])[..|ms|] == ms;
  }

  datatype Result =
    | Accepted | RecvError | OpenError | LockError | WriteError | SeekError | SizeError | HashError
    | Fault

  /** Where the receive loop is. */
  datatype Receiver =
    | Receiving
    | Comparing
    | Stopping
    | Unlocking
    | Locking(sum: string)
    | Checking(sum: string)
    | Returned(result: Result)

  /** Where a progress goroutine is. */
  datatype Progress = Selecting | Sending | Sleeping | FinalSending | Gone

  datatype Handle = Handle(path: string, pos: nat)

  /** The last two fields are history: stop handshakes done, and file positions at which the gate was opened. */
  datatype State = State(
    inbox: seq<Message>,
    files: map<string, Bytes>,
    open: Option<Handle>,
    total: uint32,
    received: uint32,
    locked: bool,
    receiver: Receiver,
    progress: seq<Progress>,
    reports: seq<int>,
    handshakes: nat,
    completions: seq<nat>)

  datatype Step =
    | Receive
    | OpenFails
    | WriteFails(kept: nat)
    | Compare
    | Handshake(g: nat)
    | Unlock
    | Lock
    | Check
    | Poll(g: nat)
    | Report(g: nat)
    | Wake(g: nat)
    | FinalReport(g: nat)

  function Init(stream: seq<Message>, files: map<string, Bytes>): State {
    State(stream, files, None, 0, 0, false, Receiving, [], [], 0, [])
  }

  /** An open file exists and the offset lies inside it. */
  ghost predicate Sound(s: State) {
    s.open.Some? ==> s.open.value.path in s.files && s.open.value.pos <= |s.files[s.open.value.path]|
  }

  /** The goroutine g is at the given place. */
  predicate At(s: State, g: nat, p: Progress) {
    g < |s.progress| && s.progress[g] == p
  }

  predicate Enabled(s: State, step: Step) {
    s.receiver != Returned(Fault) &&
    match step
    case Receive => s.receiver == Receiving
    case OpenFails => s.receiver == Receiving && s.inbox != [] && s.inbox[0].Info?
    case WriteFails(kept) =>
      s.receiver == Receiving && s.inbox != [] && s.inbox[0].Chunk? && s.open.Some? && kept <= |s.inbox[0].data|
    case Compare => s.receiver == Comparing
    case Handshake(g) => s.receiver == Stopping && At(s, g, Selecting)
    case Unlock => s.receiver == Unlocking
    case Lock => s.receiver.Locking? && !s.locked
    case Check => s.receiver.Checking?
    // the select takes the stop case when a sender is waiting, the default case otherwise
    case Poll(g) => At(s, g, Selecting) && s.receiver != Stopping
    case Report(g) => At(s, g, Sending)
    case Wake(g) => At(s, g, Sleeping)
    case FinalReport(g) => At(s, g, FinalSending)
  }

  function Written(s: State, data: Bytes): State
    requires Sound(s) && s.open.Some?
  {
    var h := s.open.value;
    s.(files := s.files[h.path := WriteAt(s.files[h.path], h.pos, data)], open := Some(Handle(h.path, h.pos + |data|)))
  }

  /** One turn of the switch on the received message. */
  function Dispatch(s: State, m: Message): State
    requires Sound(s)
  {
    match m
    case Info(size, path) =>
      var s' := s.(total := size, open := Some(Handle(path, 0)),
                   files := if path in s.files then s.files else s.files[path := []]);
      if s.locked then s'.(receiver := Returned(LockError))
      else if size == 0 then s'.(receiver := Returned(Accepted))
      else s'.(locked := true, progress := s.progress + [Selecting])
    case Chunk(data) =>
      if s.open.None? then s.(receiver := Returned(WriteError))
      else Written(s, data).(received := ToUint32(s.received + |data|), receiver := Comparing)
    case Hash(sum) => s.(receiver := Locking(sum))
    case Unset => s
  }

  /** Seek, copy into the digest, and the two comparisons; the deferred unlock runs on every way out. */
  function Verdict(s: State, digest: Bytes -> string, sum: string): Result
    requires Sound(s)
  {
    if s.open.None? then SeekError
    else
      var content := s.files[s.open.value.path];
      if |content| != s.total then SizeError
      else if digest(content) != sum then HashError
      else Accepted
  }

  /** A progress message; the percentage divides by the current total. */
  function Reported(s: State, g: nat, next: Progress): State
    requires g < |s.progress|
  {
    if s.total == 0 then s.(receiver := Returned(Fault))
    else s.(reports := s.reports + [s.received * 100 / s.total], progress := s.progress[g := next])
  }

  function Apply(s: State, step: Step, digest: Bytes -> string): State
    requires Sound(s) && Enabled(s, step)
  {
    match step
    case Receive =>
      if s.inbox == [] then s.(receiver := Returned(RecvError))
      else Dispatch(s.(inbox := s.inbox[1..]), s.inbox[0])
    case OpenFails => s.(inbox := s.inbox[1..], total := s.inbox[0].size, receiver := Returned(OpenError))
    case WriteFails(kept) =>
      Written(s, s.inbox[0].data[..kept]).(inbox := s.inbox[1..], receiver := Returned(WriteError))
    case Compare => s.(receiver := if s.received == s.total then Stopping else Receiving)
    case Handshake(g) =>
      s.(receiver := Unlocking, progress := s.progress[g := FinalSending], handshakes := s.handshakes + 1)
    case Unlock =>
      // unlocking an unlocked mutex is a fatal error of the runtime
      if !s.locked then s.(receiver := Returned(Fault))
      else s.(locked := false, receiver := Receiving,
              completions := s.completions + [if s.open.Some? then s.open.value.pos else 0])
    case Lock => s.(locked := true, receiver := Checking(s.receiver.sum))
    case Check => s.(locked := false, receiver := Returned(Verdict(s, digest, s.receiver.sum)))
    case Poll(g) => s.(progress := s.progress[g := Sending])
    case Report(g) => Reported(s, g, Sleeping)
    case Wake(g) => s.(progress := s.progress[g := Selecting])
    case FinalReport(g) => Reported(s, g, Gone)
  }

  /** The step that returns from the receive loop decides the result: each one has its own cause. */
  lemma VerdictIff(s: State, step: Step, digest: Bytes -> string)
    requires Sound(s) && Enabled(s, step) && !s.receiver.Returned?
    ensures var r := Apply(s, step, digest).receiver;
            && (r == Returned(RecvError) <==> step == Receive && s.inbox == [])
            && (r == Returned(OpenError) <==> step == OpenFails)
            && (r == Returned(LockError) <==> step == Receive && s.inbox != [] && s.inbox[0].Info? && s.locked)
            && (r == Returned(WriteError) <==>
                  step.WriteFails? || (step == Receive && s.inbox != [] && s.inbox[0].Chunk? && s.open.None?))
            && (r == Returned(Fault) <==>
                  (step == Unlock && !s.locked) || ((step.Report? || step.FinalReport?) && s.total == 0))
  {
    hide WriteAt, ToUint32;
  }

  lemma AcceptedWithoutCheckIff(s: State, step: Step, digest: Bytes -> string)
    requires Sound(s) && Enabled(s, step) && !s.receiver.Returned? && step != Check
    ensures Apply(s, step, digest).receiver == Returned(Accepted) <==>
            step == Receive && s.inbox != [] && s.inbox[0].Info? && s.inbox[0].size == 0 && !s.locked
    ensures Apply(s, step, digest).receiver !in {Returned(SeekError), Returned(SizeError), Returned(HashError)}
  {
    hide Verdict, WriteAt, ToUint32;
  }

  /** The check compares the length before the digest. */
  lemma CheckIff(s: State, digest: Bytes -> string)
    requires Sound(s) && Enabled(s, Check)
    ensures var r := Apply(s, Check, digest).receiver;
            && !Apply(s, Check, digest).locked
            && (r == Returned(SeekError) <==> s.open.None?)
            && (s.open.Some? ==>
                  var content := s.files[s.open.value.path];
                  && (r == Returned(SizeError) <==> |content| != s.total)
                  && (r == Returned(HashError) <==> |content| == s.total && digest(content) != s.receiver.sum)
                  && (r == Returned(Accepted) <==> |content| == s.total && digest(content) == s.receiver.sum))
  {
  }

  /** An Info of size zero met with a free mutex is accepted; its file exists afterwards, with what it held. */
  lemma ReceiveEmptyInfo(s: State, digest: Bytes -> string)
    requires Sound(s) && Enabled(s, Receive) && s.inbox != [] && s.inbox[0].Info? && s.inbox[0].size == 0 && !s.locked
    ensures var path := s.inbox[0].path;
            Apply(s, Receive, digest) == s.(
              inbox := s.inbox[1..], total := 0, open := Some(Handle(path, 0)),
              files := if path in s.files then s.files else s.files[path := []],
              receiver := Returned(Accepted))
  {
  }

  /** What receiving an Info of nonzero size does when the mutex is free. */
  lemma ReceiveInfo(s: State, digest: Bytes -> string)
    requires Sound(s) && Enabled(s, Receive) && s.inbox != [] && s.inbox[0].Info? && s.inbox[0].size > 0 && !s.locked
    ensures var path := s.inbox[0].path;
            Apply(s, Receive, digest) == s.(
              inbox := s.inbox[1..], total := s.inbox[0].size, open := Some(Handle(path, 0)),
              files := if path in s.files then s.files else s.files[path := []],
              locked := true, progress := s.progress + [Selecting])
  {
  }

  /** What receiving a chunk does. */
  lemma ReceiveChunk(s: State, digest: Bytes -> string)
    requires Sound(s) && Enabled(s, Receive) && s.inbox != [] && s.inbox[0].Chunk?
    ensures var data := s.inbox[0].data;
            Apply(s, Receive, digest) ==
              if s.open.None? then s.(inbox := s.inbox[1..], receiver := Returned(WriteError))
              else Written(s, data).(inbox := s.inbox[1..], receiver := Comparing,
                                     received := ToUint32(s.received + |data|))
  {
  }

  /** What receiving anything but an Info or a chunk does. */
  lemma ReceiveOther(s: State, digest: Bytes -> string)
    requires Sound(s) && Enabled(s, Receive) && s.inbox != [] && (s.inbox[0].Hash? || s.inbox[0].Unset?)
    ensures Apply(s, Receive, digest) ==
      s.(inbox := s.inbox[1..], receiver := if s.inbox[0].Hash? then Locking(s.inbox[0].sum) else Receiving)
  {
  }

  /** A write that fails part way leaves the part it wrote over the file, and every byte behind it. */
  lemma FailedWrite(s: State, kept: nat, digest: Bytes -> string)
    requires Sound(s) && Enabled(s, WriteFails(kept))
    ensures var path, pos, before := s.open.value.path, s.open.value.pos, s.files[s.open.value.path];
            var after := Apply(s, WriteFails(kept), digest).files;
            && after == s.files[path := after[path]]
            && after[path][..pos] == before[..pos]
            && after[path][pos..pos + kept] == s.inbox[0].data[..kept]
            && after[path][pos + kept..] == if pos + kept <= |before| then before[pos + kept..] else []
  {
  }

  lemma StepSound(s: State, step: Step, digest: Bytes -> string)
    requires Sound(s) && Enabled(s, step)
    ensures Sound(Apply(s, step, digest))
  {
  }

  /** Every step of the schedule is enabled where it is taken, and the schedule leads from s to the end. */
  ghost predicate Leads(s: State, steps: seq<Step>, end: State, digest: Bytes -> string)
    requires Sound(s)
    decreases |steps|
  {
    if steps == [] then end == s
    else
      && Enabled(s, steps[0])
      && (StepSound(s, steps[0], digest); Leads(Apply(s, steps[0], digest), steps[1..], end, digest))
  }

  lemma AtRest(s: State, steps: seq<Step>, end: State, digest: Bytes -> string)
    requires Sound(s) && Leads(s, steps, end, digest) && s.receiver.Returned? && s.progress == []
    ensures steps == [] && end == s
  {
  }

  /**
   Every schedule of a stream that begins with an Info of size zero: at most one step, which accepts unless the file
   cannot be opened. An existing file is unchanged, a missing one is created empty, and no goroutine starts.
   */
  lemma EmptyUploadIff(path: string, rest: seq<Message>, files: map<string, Bytes>, steps: seq<Step>, end: State,
                       digest: Bytes -> string)
    requires Leads(Init([Info(0, path)] + rest, files), steps, end, digest)
    ensures |steps| <= 1 && end.progress == []
    ensures end.receiver.Returned? <==> steps != []
    ensures end.receiver == Returned(Accepted) <==> steps == [Receive]
    ensures end.receiver.Returned? && end.receiver != Returned(Accepted) ==>
      steps == [OpenFails] && end.receiver == Returned(OpenError) && end.files == files
    ensures end.receiver == Returned(Accepted) ==>
      && path in end.files
      && (path in files ==> end.files == files)
      && (path !in files ==> end.files == files[path := []])
  {
    var s := Init([Info(0, path)] + rest, files);
    if steps != [] {
      assert steps[0] == Receive || steps[0] == OpenFails;
      if steps[0] == Receive {
        ReceiveEmptyInfo(s, digest);
      }
      AtRest(Apply(s, steps[0], digest), steps[1..], end, digest);
      assert steps == [steps[0]] + steps[1..];
    }
  }
}
