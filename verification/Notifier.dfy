/** Network change notification (util/util.go, util/network_change.go). */
module Notifier {
  import opened Options

  type Address = string

  /** Addrs() of an interface may fail. */
  datatype Interface = Interface(up: bool, running: bool, addresses: Option<seq<Address>>)

  /** What net.Interfaces() returns, None for an error. */
  type Snapshot = Option<seq<Interface>>

  predicate Hit(ifs: seq<Interface>, prefix: string, i: nat, a: nat) {
    i < |ifs| && ifs[i].addresses.Some? && a < |ifs[i].addresses.value| && prefix <= ifs[i].addresses.value[a]
  }

  /** Position (i, a) comes before position (j, b) in the order of the search. */
  predicate Before(i: nat, a: nat, j: nat, b: nat) {
    i < j || (i == j && a < b)
  }

  /** The first interface, and on it the first address, that has the prefix. */
  ghost predicate FirstHit(ifs: seq<Interface>, prefix: string, i: nat, a: nat) {
    Hit(ifs, prefix, i, a) && forall j: nat, b: nat :: Hit(ifs, prefix, j, b) ==> !Before(j, b, i, a)
  }

  function FindAddress(addresses: seq<Address>, prefix: string, a: nat): Option<nat>
    decreases |addresses| - a
  {
    if a >= |addresses| then None
    else if prefix <= addresses[a] then Some(a)
    else FindAddress(addresses, prefix, a + 1)
  }

  /** The search from interface i on. */
  function Find(ifs: seq<Interface>, prefix: string, i: nat): Option<(nat, nat)>
    decreases |ifs| - i
  {
    if i >= |ifs| then None
    else if ifs[i].addresses.None? then Find(ifs, prefix, i + 1)
    else match FindAddress(ifs[i].addresses.value, prefix, 0)
      case Some(a) => Some((i, a))
      case None => Find(ifs, prefix, i + 1)
  }

  lemma {:induction false} FindAddressIsFirst(addresses: seq<Address>, prefix: string, a: nat)
    ensures match FindAddress(addresses, prefix, a)
      case None => forall b: nat :: a <= b < |addresses| ==> !(prefix <= addresses[b])
      case Some(f) => a <= f < |addresses| && prefix <= addresses[f]
                      && forall b: nat :: a <= b < f ==> !(prefix <= addresses[b])
    decreases |addresses| - a
  {
    if a < |addresses| && !(prefix <= addresses[a]) {
      FindAddressIsFirst(addresses, prefix, a + 1);
    }
  }

  /** The search finds the first hit from interface i on, and fails exactly when there is none. */
  lemma {:induction false} FindIsFirst(ifs: seq<Interface>, prefix: string, i: nat)
    ensures match Find(ifs, prefix, i)
      case None => forall j: nat, b: nat :: i <= j ==> !Hit(ifs, prefix, j, b)
      case Some(h) => i <= h.0 && Hit(ifs, prefix, h.0, h.1)
                      && forall j: nat, b: nat :: i <= j && Hit(ifs, prefix, j, b) ==> !Before(j, b, h.0, h.1)
    decreases |ifs| - i
  {
    if i < |ifs| {
      FindIsFirst(ifs, prefix, i + 1);
      if ifs[i].addresses.Some? {
        FindAddressIsFirst(ifs[i].addresses.value, prefix, 0);
      }
    }
  }

  /** The nested search loops. */
  method InterfaceByAddress(snapshot: Snapshot, prefix: string) returns (found: Option<(Interface, Address)>)
    ensures found == Lookup(snapshot, prefix)
    ensures snapshot.None? ==> found.None?
    ensures snapshot.Some? && found.None? ==> forall i: nat, a: nat :: !Hit(snapshot.value, prefix, i, a)
    ensures snapshot.Some? && found.Some? ==>
      (exists i: nat, a: nat ::
         FirstHit(snapshot.value, prefix, i, a)
         && found.value == (snapshot.value[i], snapshot.value[i].addresses.value[a]))
  {
    if snapshot.None? {
      return None;
    }
    var ifs := snapshot.value;
    FindIsFirst(ifs, prefix, 0);
    var i := 0;
    while i < |ifs|
      invariant 0 <= i <= |ifs|
      invariant Find(ifs, prefix, 0) == Find(ifs, prefix, i)
    {
      if ifs[i].addresses.None? {
        i := i + 1;
        continue;
      }
      var addrs := ifs[i].addresses.value;
      var ai := 0;
      while ai < |addrs|
        invariant 0 <= ai <= |addrs|
        invariant FindAddress(addrs, prefix, 0) == FindAddress(addrs, prefix, ai)
      {
        if prefix <= addrs[ai] {
          assert FirstHit(ifs, prefix, i, ai);
          return Some((ifs[i], addrs[ai]));
        }
        ai := ai + 1;
      }
      i := i + 1;
    }
    return None;
  }

  function Lookup(snapshot: Snapshot, prefix: string): Option<(Interface, Address)> {
    if snapshot.None? then None
    else
      FindIsFirst(snapshot.value, prefix, 0);
      match Find(snapshot.value, prefix, 0)
      case None => None
      case Some(h) => Some((snapshot.value[h.0], snapshot.value[h.0].addresses.value[h.1]))
  }

  /** The optional address an observer is polled for: that of the first hit, if its interface is up and running. */
  function Polled(snapshot: Snapshot, prefix: string): Option<Address> {
    match Lookup(snapshot, prefix)
    case Some(f) => if f.0.up && f.0.running then Some(f.1) else None
    case None => None
  }

  /** An address with the prefix, on an interface whose addresses could be read. */
  ghost predicate Carries(ifs: seq<Interface>, prefix: string, i: nat, a: nat, x: Address) {
    && i < |ifs| && ifs[i].addresses.Some? && a < |ifs[i].addresses.value|
    && ifs[i].addresses.value[a] == x && prefix <= x
  }

  /**
   A poll yields an address exactly when the interfaces could be listed and the first address with the prefix, by
   interface and then by position, is on an interface that is both up and running.
   */
  ghost predicate Offers(snapshot: Snapshot, prefix: string, x: Address) {
    snapshot.Some? && exists i: nat, a: nat ::
      && Carries(snapshot.value, prefix, i, a, x)
      && snapshot.value[i].up && snapshot.value[i].running
      && forall j: nat, b: nat, y: Address :: Carries(snapshot.value, prefix, j, b, y) ==> i < j || (i == j && a <= b)
  }

  lemma PolledIff(snapshot: Snapshot, prefix: string, x: Address)
    ensures Polled(snapshot, prefix) == Some(x) <==> Offers(snapshot, prefix, x)
  {
    if snapshot.Some? {
      var ifs := snapshot.value;
      FindIsFirst(ifs, prefix, 0);
      var h := Find(ifs, prefix, 0);
      hide Find;
      forall j: nat, b: nat, y: Address | Carries(ifs, prefix, j, b, y) ensures Hit(ifs, prefix, j, b) {
      }
      if h.Some? {
        var y := ifs[h.value.0].addresses.value[h.value.1];
        assert Carries(ifs, prefix, h.value.0, h.value.1, y);
        assert forall j: nat, b: nat, z: Address :: Carries(ifs, prefix, j, b, z) ==>
          h.value.0 < j || (h.value.0 == j && h.value.1 <= b);
      }
    }
  }

  // ---------------------------------------------------------------- changes

  datatype Call = Up(address: Address) | Down

  /** The call that tells an observer of a change; none without a change. */
  function Delta(previous: Option<Address>, current: Option<Address>): seq<Call> {
    if previous == current then []
    else match current
      case Some(a) => [Up(a)]
      case None => [Down]
  }

  /** The changes along a sequence of polled values, starting from the given one. */
  function Changes(start: Option<Address>, polls: seq<Option<Address>>): seq<Call>
    decreases |polls|
  {
    if polls == [] then [] else Delta(start, polls[0]) + Changes(polls[0], polls[1..])
  }

  function LastOf(start: Option<Address>, polls: seq<Option<Address>>): Option<Address> {
    if polls == [] then start else polls[|polls| - 1]
  }

  /** Over consecutive stretches the calls add up, and a single poll makes one call if it changes anything. */
  lemma {:induction false} ChangesSplit(start: Option<Address>, a: seq<Option<Address>>, b: seq<Option<Address>>)
    ensures Changes(start, a + b) == Changes(start, a) + Changes(if a == [] then start else a[|a| - 1], b)
    decreases |a|
  {
    if a == [] {
      assert a + b == b;
    } else {
      assert (a + b)[1..] == a[1..] + b;
      ChangesSplit(a[0], a[1..], b);
    }
  }

  lemma OneChange(start: Option<Address>, poll: Option<Address>)
    ensures Changes(start, []) == []
    ensures poll == start ==> Changes(start, [poll]) == []
    ensures poll != start && poll.Some? ==> Changes(start, [poll]) == [Up(poll.value)]
    ensures poll != start && poll.None? ==> Changes(start, [poll]) == [Down]
  {
    assert [poll][1..] == [];
  }

  /** What an observer knows after some calls. */
  function Known(start: Option<Address>, calls: seq<Call>): Option<Address> {
    if calls == [] then start
    else match calls[|calls| - 1]
      case Up(a) => Some(a)
      case Down => None
  }

  lemma ChangesSnoc(start: Option<Address>, polls: seq<Option<Address>>, p: Option<Address>)
    ensures Changes(start, polls + [p]) == Changes(start, polls) + Delta(LastOf(start, polls), p)
  {
    hide Delta;
    ChangesSplit(start, polls, [p]);
    assert [p][1..] == [];
  }

  /** Each call differs from what the observer knew before it; in particular Down only follows an Up. */
  ghost predicate Informative(start: Option<Address>, calls: seq<Call>) {
    forall i :: 0 <= i < |calls| ==> Known(start, calls[..i + 1]) != Known(start, calls[..i])
  }

  lemma InformsFurther(start: Option<Address>, calls: seq<Call>, p: Option<Address>)
    requires Informative(start, calls)
    ensures var calls' := calls + Delta(Known(start, calls), p);
            Informative(start, calls') && Known(start, calls') == p
  {
    var calls' := calls + Delta(Known(start, calls), p);
    forall i | 0 <= i < |calls'| ensures Known(start, calls'[..i + 1]) != Known(start, calls'[..i]) {
      if i < |calls| {
        assert calls'[..i + 1] == calls[..i + 1] && calls'[..i] == calls[..i];
      } else {
        assert calls'[..i] == calls && calls'[..i + 1] == calls';
      }
    }
  }

  /** The calls made along any polls say something new each time and add up to the last poll. */
  lemma {:induction false} ChangesInform(start: Option<Address>, polls: seq<Option<Address>>)
    ensures Known(start, Changes(start, polls)) == LastOf(start, polls)
    ensures Informative(start, Changes(start, polls))
    decreases |polls|
  {
    if polls != [] {
      var n := |polls| - 1;
      hide Known, Informative, Delta;
      ChangesInform(start, polls[..n]);
      assert polls[..n] + [polls[n]] == polls;
      ChangesSnoc(start, polls[..n], polls[n]);
      InformsFurther(start, Changes(start, polls[..n]), polls[n]);
    }
  }

  /** From no address, Down is never first and never comes twice in a row. */
  lemma DownIsNeverRepeated(polls: seq<Option<Address>>)
    ensures var calls := Changes(None, polls);
            && (calls != [] ==> calls[0] != Down)
            && forall i :: 0 <= i < |calls| - 1 ==> !(calls[i] == Down && calls[i + 1] == Down)
  {
    hide Changes, Informative;
    ChangesInform(None, polls);
    NeverTwiceDown(Changes(None, polls));
  }

  lemma NeverTwiceDown(calls: seq<Call>)
    requires Informative(None, calls)
    ensures calls != [] ==> calls[0] != Down
    ensures forall i :: 0 <= i < |calls| - 1 ==> !(calls[i] == Down && calls[i + 1] == Down)
  {
    hide Informative;
    if calls != [] {
      SaysNew(calls, 0);
    }
    forall i | 0 <= i < |calls| - 1 ensures !(calls[i] == Down && calls[i + 1] == Down) {
      SaysNew(calls, i + 1);
    }
  }

  lemma SaysNew(calls: seq<Call>, i: nat)
    requires Informative(None, calls) && i < |calls|
    ensures Known(None, calls[..i + 1]) != Known(None, calls[..i])
  {
  }

  /** One poll of one observer: the new status, and the call that tells of a change. */
  ghost predicate Answered(snapshot: Snapshot, prefix: string, before: Option<Address>, after: Option<Address>,
                        log: seq<Call>, log': seq<Call>)
  {
    && (forall x :: after == Some(x) <==> Offers(snapshot, prefix, x))
    && (after == before ==> log' == log)
    && (after != before && after.Some? ==> log' == log + [Up(after.value)])
    && (after != before && after.None? ==> log' == log + [Down])
  }

  lemma AnswerSpelled(snapshot: Snapshot, prefix: string, before: Option<Address>, log: seq<Call>)
    ensures var after := Polled(snapshot, prefix);
            Answered(snapshot, prefix, before, after, log, log + Delta(before, after))
  {
    hide Polled, Offers;
    forall x ensures Polled(snapshot, prefix) == Some(x) <==> Offers(snapshot, prefix, x) {
      PolledIff(snapshot, prefix, x);
    }
  }

  /** The observers outside the set have been polled, each with the new status and its change logged. */
  ghost predicate Notified<L>(observers: map<L, string>, seen: map<L, Snapshot>, left: set<L>,
                              before: map<L, Option<Address>>, after: map<L, Option<Address>>,
                              log: map<L, seq<Call>>, log': map<L, seq<Call>>)
  {
    && observers.Keys <= seen.Keys && left <= observers.Keys
    && before.Keys == after.Keys == log.Keys == log'.Keys == observers.Keys
    && forall k :: k in observers ==>
         if k in left then after[k] == before[k] && log'[k] == log[k]
         else after[k] == Polled(seen[k], observers[k]) && log'[k] == log[k] + Delta(before[k], after[k])
  }

  lemma Untouched<L>(observers: map<L, string>, seen: map<L, Snapshot>, status: map<L, Option<Address>>,
                     log: map<L, seq<Call>>)
    requires observers.Keys <= seen.Keys && status.Keys == log.Keys == observers.Keys
    ensures Notified(observers, seen, observers.Keys, status, status, log, log)
  {
  }

  lemma NotifiedOne<L>(observers: map<L, string>, seen: map<L, Snapshot>, left: set<L>, k: L,
                       before: map<L, Option<Address>>, after: map<L, Option<Address>>,
                       log: map<L, seq<Call>>, log': map<L, seq<Call>>)
    requires Notified(observers, seen, left, before, after, log, log') && k in left
    ensures var p := Polled(seen[k], observers[k]);
            Notified(observers, seen, left - {k}, before, after[k := p], log, log'[k := log'[k] + Delta(after[k], p)])
  {
    hide Polled, Delta;
  }

  lemma AllSpelled<L>(observers: map<L, string>, seen: map<L, Snapshot>, before: map<L, Option<Address>>,
                      after: map<L, Option<Address>>, log: map<L, seq<Call>>, log': map<L, seq<Call>>)
    requires Notified(observers, seen, {}, before, after, log, log')
    ensures after.Keys == log'.Keys == before.Keys == log.Keys == observers.Keys <= seen.Keys
    ensures forall k :: k in observers ==>
      && after[k] == Polled(seen[k], observers[k])
      && log'[k] == log[k] + Delta(before[k], Polled(seen[k], observers[k]))
      && Answered(seen[k], observers[k], before[k], after[k], log[k], log'[k])
  {
    hide Polled, Delta, Answered;
    forall k | k in observers ensures Answered(seen[k], observers[k], before[k], after[k], log[k], log'[k]) {
      AnswerSpelled(seen[k], observers[k], before[k], log[k]);
    }
  }

  // ---------------------------------------------------------------- the notifier

  /** The log records the calls issued to each observer, in order. */
  class NetworkChangeNotifier<L(==)> {
    var observers: map<L, string>
    var status: map<L, Option<Address>>
    var log: map<L, seq<Call>>

    ghost predicate Valid()
      reads this
    {
      status.Keys == observers.Keys && log.Keys == observers.Keys
    }

    constructor ()
      ensures Valid() && observers == map[]
    {
      observers, status, log := map[], map[], map[];
    }

    method Subscribe(observer: L, address: string)
      requires Valid()
      modifies this
      ensures Valid()
      ensures observers == old(observers)[observer := address]
      ensures status == old(status)[observer := None]
      ensures log == old(log)[observer := if observer in old(log) then old(log)[observer] else []]
    {
      log := log[observer := if observer in log then log[observer] else []];
      observers := observers[observer := address];
      status := status[observer := None];
    }

    /** One poll of all observers, in any order; each looks at the interfaces as they are at its turn. */
    method NetworkChanged(seen: map<L, Snapshot>)
      requires Valid() && observers.Keys <= seen.Keys
      modifies this
      ensures Valid() && observers == old(observers)
      ensures forall k :: k in observers ==> status[k] == Polled(seen[k], observers[k])
      ensures forall k :: k in observers ==>
        log[k] == old(log[k]) + Delta(old(status[k]), Polled(seen[k], observers[k]))
      ensures forall k :: k in observers ==>
        Answered(seen[k], observers[k], old(status[k]), status[k], old(log[k]), log[k])
    {
      hide Polled, Delta, Answered;
      ghost var status0, log0 := status, log;
      var left := observers.Keys;
      Untouched(observers, seen, status, log);
      hide Notified;
      while left != {}
        invariant Valid() && observers == old(observers) && left <= observers.Keys
        invariant Notified(observers, seen, left, status0, status, log0, log)
        decreases |left|
      {
        var k :| k in left;
        NotifiedOne(observers, seen, left, k, status0, status, log0, log);
        left := left - {k};
        NotifyOne(k, seen[k]);
      }
      AllSpelled(observers, seen, status0, status, log0, log);
    }

    /** The body of the loop over the observers. */
    method NotifyOne(k: L, snapshot: Snapshot)
      requires Valid() && k in observers
      modifies this
      ensures Valid() && observers == old(observers)
      ensures status == old(status)[k := Polled(snapshot, observers[k])]
      ensures log == old(log)[k := old(log[k]) + Delta(old(status[k]), Polled(snapshot, observers[k]))]
    {
      var found := InterfaceByAddress(snapshot, observers[k]);
      assert log[k] + [] == log[k];
      if found.Some? && found.value.0.up && found.value.0.running {
        var addr := found.value.1;
        if status[k] == None || status[k].value != addr {
          status := status[k := Some(addr)];
          log := log[k := log[k] + [Up(addr)]];
        }
      } else {
        if status[k] != None {
          status := status[k := None];
          log := log[k := log[k] + [Down]];
        }
      }
    }

    /** The goroutine that polls on every emitted event. */
    method Serve(events: seq<map<L, Snapshot>>)
      requires Valid()
      requires forall i :: 0 <= i < |events| ==> observers.Keys <= events[i].Keys
      modifies this
      ensures Valid() && observers == old(observers)
      ensures forall k :: k in observers ==>
        && log[k] == old(log[k]) + Changes(old(status[k]), Trace(events, k, observers[k]))
        && status[k] == LastOf(old(status[k]), Trace(events, k, observers[k]))
    {
      hide Changes, LastOf, Trace, Polled, Delta, Answered;
      var i := 0;
      forall k | k in observers
        ensures Changes(status[k], Trace(events[..0], k, observers[k])) == []
        ensures LastOf(status[k], Trace(events[..0], k, observers[k])) == status[k]
      {
        NothingYet(events, k, observers[k], status[k]);
      }
      while i < |events|
        invariant 0 <= i <= |events|
        invariant Valid() && observers == old(observers)
        invariant forall k :: k in observers ==>
          && log[k] == old(log[k]) + Changes(old(status[k]), Trace(events[..i], k, observers[k]))
          && status[k] == LastOf(old(status[k]), Trace(events[..i], k, observers[k]))
      {
        ghost var status', log' := status, log;
        NetworkChanged(events[i]);
        forall k | k in observers
          ensures log[k] == old(log[k]) + Changes(old(status[k]), Trace(events[..i + 1], k, observers[k]))
          ensures status[k] == LastOf(old(status[k]), Trace(events[..i + 1], k, observers[k]))
        {
          Advance(events, i, k, observers[k], old(status[k]));
          var change := Delta(status'[k], Polled(events[i][k], observers[k]));
          assert log[k] == log'[k] + change;
        }
        i := i + 1;
      }
      assert events[..i] == events;
    }
  }

  lemma NothingYet<L>(events: seq<map<L, Snapshot>>, k: L, prefix: string, start: Option<Address>)
    ensures Changes(start, Trace(events[..0], k, prefix)) == [] && LastOf(start, Trace(events[..0], k, prefix)) == start
  {
  }

  function At<L>(seen: map<L, Snapshot>, k: L): Snapshot {
    if k in seen then seen[k] else None
  }

  /** The values one observer is polled for along the events. */
  function Trace<L>(events: seq<map<L, Snapshot>>, k: L, prefix: string): seq<Option<Address>> {
    seq(|events|, i requires 0 <= i < |events| => Polled(At(events[i], k), prefix))
  }

  lemma Advance<L>(events: seq<map<L, Snapshot>>, i: nat, k: L, prefix: string, start: Option<Address>)
    requires i < |events| && k in events[i]
    ensures var seen, p := Trace(events[..i], k, prefix), Polled(events[i][k], prefix);
            && Changes(start, Trace(events[..i + 1], k, prefix)) == Changes(start, seen) + Delta(LastOf(start, seen), p)
            && LastOf(start, Trace(events[..i + 1], k, prefix)) == p
  {
    var seen, p := Trace(events[..i], k, prefix), Polled(events[i][k], prefix);
    assert Trace(events[..i + 1], k, prefix) == seen + [p];
    ChangesSnoc(start, seen, p);
  }
}
