// The request side of src/Blocxxi/P2P/kademlia/mainline_node.cpp: queries sent,
// the callbacks waiting for their answers, their timers, and the bootstrap
// queries. A callback is identified by the number of the SendQuery call that
// registered it. Everything the network and the timers may do is an event, in
// any order: send completions, timer expiries (also after the timer was
// cancelled), replies with any transaction id, Stop and Start.
module Requests {
  import opened Wrappers
  import opened Bencode

  datatype Outcome = SendFailed | TimedOut | Answered

  datatype Firing = Firing(request: nat, outcome: Outcome)

  datatype Event =
    | Send
    | SendCompleted(id: string, failed: bool)
    | TimerExpired(id: string, aborted: bool)
    | Reply(id: string)
    | Start(bootstraps: seq<string>)
    | Stop

  // `fired` and `dropped` record what has happened to requests: callbacks
  // invoked, and callbacks discarded by Stop.
  datatype State = State(
    pending: map<string, nat>, timers: set<string>, bootstraps: map<string, string>, next: nat, started: bool,
    fired: seq<Firing>, dropped: set<nat>)

  const INITIAL: State := State(map[], {}, map[], 0, false, [], {})

  // NextTransactionId
  function RequestId(n: nat): string { "q" + Decimal(n) }

  function BootstrapId(index: nat): string { "b" + [Digit(index % 10)] }

  // TakePendingRequest, followed by the callback if there is one.
  function Take(s: State, id: string, outcome: Outcome): State {
    if id in s.pending then
      s.(pending := s.pending - {id}, timers := s.timers - {id}, fired := s.fired + [Firing(s.pending[id], outcome)])
    else s.(timers := s.timers - {id})
  }

  // `emplace` keeps the first endpoint registered under an id.
  function AddBootstraps(known: map<string, string>, endpoints: seq<string>, index: nat): map<string, string>
    decreases |endpoints|
  {
    if endpoints == [] then known
    else
      var id := BootstrapId(index);
      AddBootstraps(if id in known then known else known[id := endpoints[0]], endpoints[1..], index + 1)
  }

  function Step(s: State, e: Event): State {
    match e
    case Send =>
      var id := RequestId(s.next);
      s.(pending := if id in s.pending then s.pending else s.pending[id := s.next],
         timers := s.timers + {id}, next := s.next + 1)
    case SendCompleted(id, failed) => if failed then Take(s, id, SendFailed) else s
    case TimerExpired(id, aborted) => if aborted then s else Take(s, id, TimedOut)
    case Reply(id) =>
      if id in s.bootstraps then s.(bootstraps := s.bootstraps - {id}) else Take(s, id, Answered)
    case Start(endpoints) =>
      if s.started then s else s.(started := true, bootstraps := AddBootstraps(s.bootstraps, endpoints, 0))
    case Stop =>
      s.(started := false, pending := map[], timers := {}, dropped := s.dropped + s.pending.Values)
  }

  function Run(s: State, events: seq<Event>): State
    decreases |events|
  {
    if events == [] then s else Step(Run(s, events[..|events| - 1]), events[|events| - 1])
  }

  // ----- what every step keeps -----

  ghost predicate OnceEach(fired: seq<Firing>) {
    forall i, j :: 0 <= i < j < |fired| ==> fired[i].request != fired[j].request
  }

  ghost predicate HasFired(s: State, n: nat) { exists i :: 0 <= i < |s.fired| && s.fired[i].request == n }

  ghost predicate IsPending(s: State, n: nat) { RequestId(n) in s.pending }

  ghost predicate Invariant(s: State) {
    && s.pending.Keys == s.timers
    && (forall id :: id in s.pending ==> s.pending[id] < s.next && id == RequestId(s.pending[id]))
    && (forall id :: id in s.bootstraps ==> |id| > 0 && id[0] == 'b')
    && OnceEach(s.fired)
    // every request ever sent is waiting, or fired, or was dropped; never two of these
    && (forall n: nat :: IsPending(s, n) || HasFired(s, n) || n in s.dropped <==> n < s.next)
    && (forall n: nat :: !(IsPending(s, n) && HasFired(s, n)))
    && (forall n :: n in s.dropped ==> !IsPending(s, n) && !HasFired(s, n))
  }

  lemma RequestIdInjective(m: nat, n: nat)
    requires RequestId(m) == RequestId(n)
    ensures m == n
  {
    assert RequestId(m)[1..] == Decimal(m) && RequestId(n)[1..] == Decimal(n);
    DecimalInjective(m, n);
  }

  lemma InitiallyHolds()
    ensures Invariant(INITIAL)
  {
    forall n: nat ensures !IsPending(INITIAL, n) && !HasFired(INITIAL, n) { }
  }

  lemma SendHolds(s: State)
    requires Invariant(s)
    ensures Invariant(Step(s, Send))
    ensures RequestId(s.next) !in s.pending
  {
    hide RequestId;
    var t := Step(s, Send);
    assert !IsPending(s, s.next);
    forall n: nat ensures IsPending(t, n) <==> IsPending(s, n) || n == s.next {
      if RequestId(n) == RequestId(s.next) { RequestIdInjective(n, s.next); }
    }
    forall n: nat ensures HasFired(t, n) <==> HasFired(s, n) { }
  }

  lemma TakeHolds(s: State, id: string, outcome: Outcome)
    requires Invariant(s)
    ensures Invariant(Take(s, id, outcome))
  {
    hide RequestId;
    var t := Take(s, id, outcome);
    if id in s.pending {
      var taken := s.pending[id];
      assert IsPending(s, taken) && !HasFired(s, taken);
      forall n: nat ensures IsPending(t, n) <==> IsPending(s, n) && n != taken {
        if RequestId(n) == id { RequestIdInjective(n, taken); }
      }
      forall n: nat ensures HasFired(t, n) <==> HasFired(s, n) || n == taken {
        if HasFired(s, n) {
          var i :| 0 <= i < |s.fired| && s.fired[i].request == n;
          assert t.fired[i].request == n;
        }
        assert t.fired[|s.fired|].request == taken;
      }
    } else {
      assert t == s;
    }
  }

  lemma {:induction false} BootstrapsHold(known: map<string, string>, endpoints: seq<string>, index: nat)
    requires forall id :: id in known ==> |id| > 0 && id[0] == 'b'
    ensures forall id :: id in AddBootstraps(known, endpoints, index) ==> |id| > 0 && id[0] == 'b'
    decreases |endpoints|
  {
    if endpoints != [] {
      var id := BootstrapId(index);
      BootstrapsHold(if id in known then known else known[id := endpoints[0]], endpoints[1..], index + 1);
    }
  }

  lemma StopHolds(s: State)
    requires Invariant(s)
    ensures Invariant(Step(s, Stop))
  {
    hide RequestId;
    var t := Step(s, Stop);
    forall n: nat ensures n in t.dropped <==> n in s.dropped || IsPending(s, n) {
      if IsPending(s, n) {
        RequestIdOf(s, n);
        assert s.pending[RequestId(n)] == n;
        assert n in s.pending.Values;
      }
      if n in s.pending.Values {
        var id :| id in s.pending && s.pending[id] == n;
        assert id == RequestId(n);
      }
    }
    forall n: nat ensures HasFired(t, n) <==> HasFired(s, n) { }
    forall n: nat ensures !IsPending(t, n) { }
  }

  lemma RequestIdOf(s: State, n: nat)
    requires Invariant(s) && IsPending(s, n)
    ensures s.pending[RequestId(n)] == n
  {
    RequestIdInjective(n, s.pending[RequestId(n)]);
  }

  lemma StepHolds(s: State, e: Event)
    requires Invariant(s)
    ensures Invariant(Step(s, e))
  {
    match e
    case Send => SendHolds(s);
    case SendCompleted(id, failed) => TakeHolds(s, id, SendFailed);
    case TimerExpired(id, aborted) => TakeHolds(s, id, TimedOut);
    case Reply(id) =>
      TakeHolds(s, id, Answered);
      SameRequests(s, s.(bootstraps := s.bootstraps - {id}));
    case Start(endpoints) =>
      BootstrapsHold(s.bootstraps, endpoints, 0);
      SameRequests(s, s.(started := true, bootstraps := AddBootstraps(s.bootstraps, endpoints, 0)));
    case Stop => StopHolds(s);
  }

  lemma SameRequests(s: State, t: State)
    requires Invariant(s) && t == s.(bootstraps := t.bootstraps, started := t.started)
    requires forall id :: id in t.bootstraps ==> |id| > 0 && id[0] == 'b'
    ensures Invariant(t)
  {
    hide RequestId;
    forall n: nat ensures (IsPending(t, n) <==> IsPending(s, n)) && (HasFired(t, n) <==> HasFired(s, n)) { }
  }

  // ----- over every interleaving -----

  lemma {:induction false} RunHolds(events: seq<Event>)
    ensures Invariant(Run(INITIAL, events))
    decreases |events|
  {
    if events == [] {
      InitiallyHolds();
    } else {
      RunHolds(events[..|events| - 1]);
      StepHolds(Run(INITIAL, events[..|events| - 1]), events[|events| - 1]);
    }
  }

  // Each callback is invoked at most once, requests and timers are registered
  // under the same ids, and every request sent is accounted for exactly once:
  // waiting, fired or dropped.
  lemma CallbacksFireAtMostOnce(events: seq<Event>)
    ensures
      var s := Run(INITIAL, events);
      && OnceEach(s.fired)
      && s.pending.Keys == s.timers
      && (forall n: nat :: IsPending(s, n) || HasFired(s, n) || n in s.dropped <==> n < s.next)
      && (forall n: nat :: !(IsPending(s, n) && HasFired(s, n)) && !(n in s.dropped && (IsPending(s, n) || HasFired(s, n))))
  {
    RunHolds(events);
  }

  // A transaction id is handed out once, and is never the id of a bootstrap query.
  lemma IdsAreFresh(m: nat, n: nat, index: nat)
    ensures m != n ==> RequestId(m) != RequestId(n)
    ensures RequestId(m) != BootstrapId(index)
  {
    if RequestId(m) == RequestId(n) { RequestIdInjective(m, n); }
    assert RequestId(m)[0] == 'q' && BootstrapId(index)[0] == 'b';
  }

  // What has been dropped by Stop, or has fired, stays so whatever happens next.
  lemma {:induction false} SettledForGood(s: State, events: seq<Event>, n: nat)
    requires Invariant(s)
    ensures Invariant(Run(s, events))
    ensures n in s.dropped ==> n in Run(s, events).dropped && !HasFired(Run(s, events), n)
    ensures s.fired <= Run(s, events).fired
    decreases |events|
  {
    hide Invariant, Step, HasFired;
    if events != [] {
      var before := events[..|events| - 1];
      SettledForGood(s, before, n);
      StepHolds(Run(s, before), events[|events| - 1]);
      StepGrows(Run(s, before), events[|events| - 1]);
    }
    if n in s.dropped { DroppedNeverFires(Run(s, events), n); }
  }

  lemma StepGrows(s: State, e: Event)
    ensures s.dropped <= Step(s, e).dropped && s.fired <= Step(s, e).fired
  {
  }

  lemma DroppedNeverFires(s: State, n: nat)
    requires Invariant(s) && n in s.dropped
    ensures !HasFired(s, n)
  {
  }

  // ----- delivery -----

  // How an event ends a request with this id, if it does: a reply, a send that
  // failed, or a timer that was not cancelled.
  function Ends(e: Event, id: string): Option<Outcome> {
    if e == Reply(id) then Some(Answered)
    else if e == SendCompleted(id, true) then Some(SendFailed)
    else if e == TimerExpired(id, false) then Some(TimedOut)
    else None
  }

  lemma RequestIsNoBootstrap(s: State, n: nat)
    requires Invariant(s)
    ensures RequestId(n) !in s.bootstraps
  {
    assert RequestId(n)[0] == 'q';
  }

  // A request that has been sent waits for its end.
  lemma SentWaits(s: State)
    requires Invariant(s)
    ensures IsPending(Step(s, Send), s.next) && RequestId(s.next) in Step(s, Send).timers
    ensures Step(s, Send).next == s.next + 1 && Step(s, Send).fired == s.fired
  {
    SendHolds(s);
  }

  // It waits until an event ends it or Stop drops it; one that ends it invokes
  // its callback with that outcome and no other callback.
  lemma WaitingEnds(s: State, e: Event, n: nat)
    requires Invariant(s) && IsPending(s, n)
    ensures Ends(e, RequestId(n)).None? && e != Stop ==> IsPending(Step(s, e), n)
    ensures e == Stop ==> n in Step(s, e).dropped && Step(s, e).fired == s.fired
    ensures Ends(e, RequestId(n)).Some? ==>
              && !IsPending(Step(s, e), n)
              && Step(s, e).fired == s.fired + [Firing(n, Ends(e, RequestId(n)).value)]
  {
    hide RequestId;
    RequestIsNoBootstrap(s, n);
    RequestIdOf(s, n);
    if e == Send { SendHolds(s); }
    if e == Stop { assert s.pending[RequestId(n)] in s.pending.Values; }
  }

  // No other event invokes a callback.
  lemma OnlyEndsFire(s: State, e: Event)
    requires forall id :: id in s.pending ==> Ends(e, id).None?
    ensures Step(s, e).fired == s.fired
  {
  }

  lemma {:induction false} RunFollows(before: seq<Event>, e: Event, after: seq<Event>)
    ensures Run(INITIAL, before + [e] + after) == Run(Step(Run(INITIAL, before), e), after)
    decreases |after|
  {
    hide Step;
    var all := before + [e] + after;
    if after == [] {
      assert all[..|all| - 1] == before;
    } else {
      var m := |after| - 1;
      assert all[..|all| - 1] == before + [e] + after[..m];
      RunFollows(before, e, after[..m]);
    }
  }

  // Over every run: a request that is waiting when an event ends it has fired
  // with that outcome, whatever happens before and after.
  lemma Delivered(before: seq<Event>, e: Event, after: seq<Event>, n: nat)
    requires IsPending(Run(INITIAL, before), n) && Ends(e, RequestId(n)).Some?
    ensures Firing(n, Ends(e, RequestId(n)).value) in Run(INITIAL, before + [e] + after).fired
  {
    hide Invariant, Step, RequestId, IsPending, Ends;
    var s := Run(INITIAL, before);
    RunHolds(before);
    WaitingEnds(s, e, n);
    StepHolds(s, e);
    SettledForGood(Step(s, e), after, n);
    RunFollows(before, e, after);
    var fired := Step(s, e).fired;
    assert fired[|s.fired|] == Firing(n, Ends(e, RequestId(n)).value);
  }

  // A node starts once; after Stop it can start again, and requests are unaffected.
  lemma StartsOnce(s: State, endpoints: seq<string>)
    ensures s.started ==> Step(s, Start(endpoints)) == s
    ensures Step(s, Start(endpoints)).started && !Step(s, Stop).started
    ensures Step(s, Start(endpoints)) == s.(started := true, bootstraps := Step(s, Start(endpoints)).bootstraps)
    ensures Step(s, Stop).pending == map[] && Step(s, Stop).timers == {}
    ensures Step(s, Stop).bootstraps == s.bootstraps && Step(s, Stop).next == s.next
  {
  }

  lemma KnownIds()
    ensures RequestId(0) == "q0" && RequestId(42) == "q42" && BootstrapId(3) == "b3" && BootstrapId(13) == "b3"
  {
    assert Decimal(42) == Decimal(4) + ['2'];
  }

  // ----- bootstrap queries -----

  // The ids of bootstrap queries have one digit: of a node that knows none, the
  // first ten endpoints are registered, each under its own.
  lemma {:induction false} TenBootstraps(endpoints: seq<string>, index: nat, known: map<string, string>)
    requires forall i: nat :: i < 10 ==> (BootstrapId(i) in known <==> i < index)
    requires index <= 10
    ensures
      var r := AddBootstraps(known, endpoints, index);
      && (forall id :: id in known ==> id in r && r[id] == known[id])
      && (forall i: nat :: i < 10 ==> (BootstrapId(i) in r <==> i < index + |endpoints|))
      && (forall i: nat :: index <= i < 10 && i < index + |endpoints| ==> r[BootstrapId(i)] == endpoints[i - index])
    decreases |endpoints|
  {
    if endpoints != [] && index < 10 {
      var id := BootstrapId(index);
      forall i: nat | i < 10 && i != index ensures BootstrapId(i) != id { BootstrapIdDistinct(i, index); }
      hide BootstrapId;
      TenBootstraps(endpoints[1..], index + 1, known[id := endpoints[0]]);
    } else if endpoints != [] {
      AllKnown(endpoints, index, known);
    }
  }

  lemma BootstrapIdDistinct(i: nat, j: nat)
    requires i < 10 && j < 10 && i != j
    ensures BootstrapId(i) != BootstrapId(j)
  {
    assert BootstrapId(i)[1] == Digit(i) && BootstrapId(j)[1] == Digit(j);
  }

  lemma {:induction false} AllKnown(endpoints: seq<string>, index: nat, known: map<string, string>)
    requires forall i: nat :: i < 10 ==> BootstrapId(i) in known
    ensures AddBootstraps(known, endpoints, index) == known
    decreases |endpoints|
  {
    if endpoints != [] {
      assert BootstrapId(index) == BootstrapId(index % 10);
      AllKnown(endpoints[1..], index + 1, known);
    }
  }
}
