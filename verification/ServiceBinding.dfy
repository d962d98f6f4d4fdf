/**
 The gRPC service as an observer of the network (service/service.go), alone and composed with the notifier.
 A listen attempt may fail any number of times; bindInterface retries until one succeeds.
 */
module ServiceBinding {
  import opened Options
  import opened Notifier

  type Listener = nat

  datatype Reaction = Handled | StillListening | NilListener

  /** The count tells how many listeners have been overwritten without being closed. */
  class ServiceCtxt {
    var listener: Option<Listener>
    var forgotten: nat

    constructor ()
      ensures listener == None && forgotten == 0
    {
      listener, forgotten := None, 0;
    }

    /** The retry loop, over the attempts the system grants it; it has not returned when they run out. */
    method BindInterface(attempts: seq<Option<Listener>>) returns (bound: bool)
      modifies this
      ensures bound <==> exists i :: 0 <= i < |attempts| && attempts[i].Some?
      ensures bound ==> exists i :: 0 <= i < |attempts| && attempts[i].Some? && listener == attempts[i]
                                    && forall j :: 0 <= j < i ==> attempts[j].None?
      ensures !bound ==> listener == old(listener)
      ensures forgotten == old(forgotten) + if bound && old(listener.Some?) then 1 else 0
    {
      var i := 0;
      while i < |attempts|
        invariant 0 <= i <= |attempts|
        invariant forall j :: 0 <= j < i ==> attempts[j].None?
        invariant listener == old(listener) && forgotten == old(forgotten)
      {
        if attempts[i].None? {
          i := i + 1;
          continue;
        }
        forgotten := forgotten + if listener.Some? then 1 else 0;
        listener := attempts[i];
        return true;
      }
      return false;
    }

    /** Stops serving, closes the listener and forgets it; closing a missing one is a nil dereference. */
    method UnbindInterface() returns (ok: bool)
      modifies this
      ensures ok == old(listener.Some?)
      ensures listener == None && forgotten == old(forgotten)
    {
      if listener.None? {
        return false;
      }
      listener := None;
      return true;
    }

    method NetworkChanged(up: bool, attempts: seq<Option<Listener>>) returns (r: Reaction)
      modifies this
      ensures !up ==> listener == None && r == if old(listener.Some?) then Handled else NilListener
      ensures up ==> (r == Handled <==> exists i :: 0 <= i < |attempts| && attempts[i].Some?)
      ensures up && r == Handled ==> exists i :: 0 <= i < |attempts| && attempts[i].Some? && listener == attempts[i]
                                                 && forall j :: 0 <= j < i ==> attempts[j].None?
      ensures up && r != Handled ==> r == StillListening && listener == old(listener)
      ensures forgotten == old(forgotten) + if up && r == Handled && old(listener.Some?) then 1 else 0
    {
      if up {
        var bound := BindInterface(attempts);
        return if bound then Handled else StillListening;
      } else {
        var ok := UnbindInterface();
        return if ok then Handled else NilListener;
      }
    }
  }

  // ---------------------------------------------------------------- notifier and service together

  /** The notifier's status for the service, the service's fields, and an Up call that has not returned. */
  datatype State =
    State(status: Option<Address>, listener: Option<Listener>, forgotten: nat, binding: bool, crashed: bool)

  datatype Event = Poll(polled: Option<Address>) | ListenFails | ListenSucceeds(listener: Listener)

  const START := State(None, None, 0, false, false)

  /** The notifier polls again only when the call it made has returned. */
  predicate Enabled(s: State, e: Event) {
    !s.crashed && (if e.Poll? then !s.binding else s.binding)
  }

  function Apply(s: State, e: Event): State
    requires Enabled(s, e)
  {
    match e
    case ListenFails => s
    case ListenSucceeds(l) =>
      s.(listener := Some(l), forgotten := s.forgotten + (if s.listener.Some? then 1 else 0), binding := false)
    case Poll(p) =>
      var s' := s.(status := p);
      if Delta(s.status, p) == [] then s'
      else if p.Some? then s'.(binding := true)
      else if s.listener.None? then s'.(crashed := true)
      else s'.(listener := None)
  }

  /** What each event does; a poll that finds the address gone dereferences nil exactly without a listener. */
  lemma EventMeaning(s: State, e: Event)
    requires Enabled(s, e)
    ensures var s' := Apply(s, e);
            match e
            case ListenFails => s' == s
            case ListenSucceeds(l) => s'.listener == Some(l) && !s'.binding && s'.status == s.status && !s'.crashed
            case Poll(p) =>
              && s'.status == p
              && (s'.crashed <==> s.status.Some? && p.None? && s.listener.None?)
              && (s'.binding <==> p.Some? && s.status != p)
              && s'.listener == (if s.status.Some? && p.None? then None else s.listener)
  {
  }

  ghost predicate Leads(s: State, events: seq<Event>, end: State)
    decreases |events|
  {
    if events == [] then end == s
    else Enabled(s, events[0]) && Leads(Apply(s, events[0]), events[1..], end)
  }

  ghost predicate Inv(s: State) {
    && !s.crashed
    && (s.binding ==> s.status.Some?)
    && (!s.binding ==> (s.status.Some? <==> s.listener.Some?))
  }

  lemma {:induction false} RunInv(s: State, events: seq<Event>, end: State)
    requires Inv(s) && Leads(s, events, end)
    ensures Inv(end)
    decreases |events|
  {
    if events != [] {
      RunInv(Apply(s, events[0]), events[1..], end);
    }
  }

  /**
   Whatever the network events and failed listen attempts: unbinding always finds a listener, and between
   calls the notifier reports the network up exactly when the service has one. A status without a listener
   exists exactly while the first successful listen after a Down is still being waited for.
   */
  lemma BindDiscipline(events: seq<Event>, end: State)
    requires Leads(START, events, end)
    ensures !end.crashed
    ensures !end.binding ==> (end.status.Some? <==> end.listener.Some?)
    ensures (end.status.Some? ==> end.listener.Some?) <==> !(end.binding && end.listener.None?)
  {
    RunInv(START, events, end);
  }

  /** The values polled along a run. */
  function Polls(events: seq<Event>): seq<Option<Address>>
    decreases |events|
  {
    if events == [] then []
    else (if events[0].Poll? then [events[0].polled] else []) + Polls(events[1..])
  }

  /** The composition reaches the last polled status whatever happens in between, so it refines the notifier. */
  lemma {:induction false} StatusIsLastPoll(s: State, events: seq<Event>, end: State)
    requires Inv(s) && Leads(s, events, end)
    ensures end.status == LastOf(s.status, Polls(events))
    decreases |events|
  {
    if events != [] {
      var s' := Apply(s, events[0]);
      StatusIsLastPoll(s', events[1..], end);
      if events[0].Poll? {
        assert Polls(events) == [events[0].polled] + Polls(events[1..]);
      } else {
        assert Polls(events) == Polls(events[1..]);
      }
    }
  }

  /** Polls that find the service under another address than the poll before. */
  function AddressChanges(start: Option<Address>, polls: seq<Option<Address>>): nat
    decreases |polls|
  {
    if polls == [] then 0
    else (if start.Some? && polls[0].Some? && start != polls[0] then 1 else 0) + AddressChanges(polls[0], polls[1..])
  }

  /** A listener that is about to be overwritten. */
  function Doomed(s: State): nat {
    if s.binding && s.listener.Some? then 1 else 0
  }

  lemma {:induction false} RunForgets(s: State, events: seq<Event>, end: State)
    requires Inv(s) && Leads(s, events, end)
    ensures end.forgotten + Doomed(end) == s.forgotten + Doomed(s) + AddressChanges(s.status, Polls(events))
    decreases |events|
  {
    if events != [] {
      RunForgets(Apply(s, events[0]), events[1..], end);
      if events[0].Poll? {
        assert Polls(events) == [events[0].polled] + Polls(events[1..]);
      } else {
        assert Polls(events) == Polls(events[1..]);
      }
    }
  }

  /**
   One listener is overwritten without being closed for each change of the address, except the one still open
   while the listen for the latest change is awaited; so none is exactly when the address never changed in one go.
   */
  lemma ForgottenIff(events: seq<Event>, end: State)
    requires Leads(START, events, end)
    ensures end.forgotten + Doomed(end) == AddressChanges(None, Polls(events))
    ensures !end.binding ==> (end.forgotten == 0 <==> AddressChanges(None, Polls(events)) == 0)
  {
    RunForgets(START, events, end);
  }
}
