/**
 * The Worker's registry of credential broker requests in flight. A call is a promise: it is resolved
 * by a matching result, by its abort signal, by closing the registry, or at once when it is never sent.
 */
module CredentialBroker {

  import opened BrokerIdentity

  datatype Request = Request(requestId: string, identity: Fields)

  /** The outcome codes; the registry itself authors only the first three, the Manager may send any. */
  datatype OutcomeCode = FailedPreDispatch | Cancelled | Indeterminate | Completed | Failed | Reconciled

  /** A result, whether authored by the Manager or by the registry itself. */
  datatype Result = Result(requestId: string, identity: Fields, ok: bool, code: OutcomeCode)

  datatype Signal = NoSignal | Live | AlreadyAborted

  /** What the outside world sees of one call, in order. */
  datatype Event = PayloadSent | CancelSent | ResolvedHere(result: Result) | ResolvedByManager(result: Result)

  /** One call ever made: its request, whether its abort listener is attached, and its events so far. */
  datatype Call = Made(request: Request, listening: bool, events: seq<Event>)

  /** The `pending` map, from request ids to call numbers, and every call made so far. */
  datatype Ledger = Ledger(pending: map<string, nat>, calls: seq<Call>)

  function Local(request: Request, code: OutcomeCode): Event {
    ResolvedHere(Result(request.requestId, request.identity, false, code))
  }

  /** The call gets the events, leaves the map and detaches its listener. */
  function Resolve(l: Ledger, call: nat, events: seq<Event>): Ledger
    requires call < |l.calls|
  {
    var c := l.calls[call];
    Ledger(l.pending - {c.request.requestId}, l.calls[call := c.(listening := false, events := c.events + events)])
  }

  // ---------------------------------------------------------------- what each operation does

  function Called(l: Ledger, request: Request, sendOk: bool, signal: Signal): Ledger {
    if request.requestId in l.pending then
      l.(calls := l.calls + [Made(request, false, [Local(request, FailedPreDispatch)])])
    else if signal == AlreadyAborted then
      l.(calls := l.calls + [Made(request, false, [Local(request, Cancelled)])])
    else if sendOk then
      Ledger(l.pending[request.requestId := |l.calls|], l.calls + [Made(request, signal == Live, [PayloadSent])])
    else
      l.(calls := l.calls + [Made(request, false, [Local(request, FailedPreDispatch)])])
  }

  /** The abort event of the signal given to a call; the listener runs at most once. */
  function Aborted(l: Ledger, call: nat, cancelOk: bool): Ledger {
    if call >= |l.calls| || !l.calls[call].listening then l
    else
      var c := l.calls[call];
      var sent := if cancelOk then [CancelSent] else [];
      if c.request.requestId in l.pending && l.pending[c.request.requestId] == call then
        Resolve(l, call, sent + [Local(c.request, Indeterminate)])
      else l.(calls := l.calls[call := c.(listening := false, events := c.events + sent)])
  }

  predicate Accepts(l: Ledger, result: Result) {
    && result.requestId in l.pending && l.pending[result.requestId] < |l.calls|
    && Matches(l.calls[l.pending[result.requestId]].request.identity, result.identity)
  }

  function Settled(l: Ledger, result: Result): Ledger {
    if !Accepts(l, result) then l
    else Resolve(l, l.pending[result.requestId], [ResolvedByManager(result)])
  }

  /** Every pending call is resolved as indeterminate and the map is emptied. */
  function Closed(l: Ledger): Ledger {
    Ledger(map[], seq(|l.calls|, i requires 0 <= i < |l.calls| => ClosedCall(l, i)))
  }

  function ClosedCall(l: Ledger, i: nat): Call
    requires i < |l.calls|
  {
    var c := l.calls[i];
    if c.request.requestId in l.pending && l.pending[c.request.requestId] == i then
      c.(listening := false, events := c.events + [Local(c.request, Indeterminate)])
    else c
  }

  // ---------------------------------------------------------------- runs

  datatype Action =
    | DoCall(request: Request, sendOk: bool, signal: Signal)
    | DoAbort(call: nat, cancelOk: bool)
    | DoSettle(result: Result)
    | DoClose

  function Step(l: Ledger, a: Action): Ledger {
    match a
    case DoCall(request, sendOk, signal) => Called(l, request, sendOk, signal)
    case DoAbort(call, cancelOk) => Aborted(l, call, cancelOk)
    case DoSettle(result) => Settled(l, result)
    case DoClose => Closed(l)
  }

  function Run(actions: seq<Action>): Ledger {
    if actions == [] then Ledger(map[], [])
    else Step(Run(actions[..|actions| - 1]), actions[|actions| - 1])
  }

  predicate IsResolution(e: Event) {
    e.ResolvedHere? || e.ResolvedByManager?
  }

  /** A call that is over: the only five histories it can have. */
  ghost predicate Over(c: Call) {
    var e := c.events;
    && !c.listening
    && (e == [Local(c.request, FailedPreDispatch)]
        || e == [Local(c.request, Cancelled)]
        || (|e| == 2 && e[0] == PayloadSent && e[1].ResolvedByManager?
            && e[1].result.requestId == c.request.requestId && SameFields(c.request.identity, e[1].result.identity))
        || e == [PayloadSent, Local(c.request, Indeterminate)]
        || e == [PayloadSent, CancelSent, Local(c.request, Indeterminate)])
  }

  predicate IsPending(l: Ledger, i: nat)
    requires i < |l.calls|
  {
    l.calls[i].request.requestId in l.pending && l.pending[l.calls[i].request.requestId] == i
  }

  ghost predicate CallInv(l: Ledger, i: nat)
    requires i < |l.calls|
  {
    if IsPending(l, i) then l.calls[i].events == [PayloadSent] else Over(l.calls[i])
  }

  /** Calls that are over. */
  function OverCount(calls: seq<Call>): nat {
    if calls == [] then 0
    else OverCount(calls[..|calls| - 1]) + if calls[|calls| - 1].events == [PayloadSent] then 0 else 1
  }

  ghost predicate CallsInv(l: Ledger) {
    forall i :: 0 <= i < |l.calls| ==> CallInv(l, i)
  }

  ghost predicate MapInv(l: Ledger) {
    forall id :: id in l.pending ==> l.pending[id] < |l.calls| && l.calls[l.pending[id]].request.requestId == id
  }

  ghost predicate Inv(l: Ledger) {
    CallsInv(l) && MapInv(l) && OverCount(l.calls) + |l.pending| == |l.calls|
  }

  lemma {:induction false} OverCountUpdate(calls: seq<Call>, i: nat, c: Call)
    requires i < |calls| && calls[i].events == [PayloadSent] && c.events != [PayloadSent]
    ensures OverCount(calls[i := c]) == OverCount(calls) + 1
  {
    var n := |calls| - 1;
    if i == n {
      assert calls[i := c][..n] == calls[..n];
    } else {
      assert calls[i := c][..n] == calls[..n][i := c];
      OverCountUpdate(calls[..n], i, c);
    }
  }

  lemma OverCountAppend(calls: seq<Call>, c: Call)
    ensures OverCount(calls + [c]) == OverCount(calls) + if c.events == [PayloadSent] then 0 else 1
  {
    assert (calls + [c])[..|calls|] == calls;
  }

  lemma RemoveKey(m: map<string, nat>, id: string)
    requires id in m
    ensures |m - {id}| == |m| - 1
  {
    assert m.Keys == (m - {id}).Keys + {id};
  }

  lemma SameCall(l: Ledger, t: Ledger, i: nat)
    requires i < |l.calls| && i < |t.calls| && t.calls[i] == l.calls[i]
    requires IsPending(t, i) == IsPending(l, i) && CallInv(l, i)
    ensures CallInv(t, i)
  {
    hide Over;
  }

  lemma OverKeepsCalls(l: Ledger, c: Call)
    requires CallsInv(l) && MapInv(l) && Over(c)
    ensures CallsInv(l.(calls := l.calls + [c]))
  {
    var t := l.(calls := l.calls + [c]);
    forall i | 0 <= i < |t.calls|
      ensures CallInv(t, i)
    {
      if i < |l.calls| { SameCall(l, t, i); }
    }
  }

  lemma OverKeepsInv(l: Ledger, c: Call)
    requires Inv(l) && Over(c)
    ensures Inv(l.(calls := l.calls + [c]))
  {
    OverKeepsCalls(l, c);
    OverCountAppend(l.calls, c);
    hide CallsInv;
  }

  lemma PendingKeepsCalls(l: Ledger, c: Call)
    requires CallsInv(l) && c.events == [PayloadSent] && c.request.requestId !in l.pending
    ensures CallsInv(Ledger(l.pending[c.request.requestId := |l.calls|], l.calls + [c]))
  {
    var t := Ledger(l.pending[c.request.requestId := |l.calls|], l.calls + [c]);
    hide Over;
    forall i | 0 <= i < |t.calls|
      ensures CallInv(t, i)
    {
      if i < |l.calls| { SameCall(l, t, i); }
    }
  }

  lemma PendingKeepsInv(l: Ledger, c: Call)
    requires Inv(l) && c.events == [PayloadSent] && c.request.requestId !in l.pending
    ensures Inv(Ledger(l.pending[c.request.requestId := |l.calls|], l.calls + [c]))
  {
    PendingKeepsCalls(l, c);
    OverCountAppend(l.calls, c);
    assert l.pending[c.request.requestId := |l.calls|].Keys == l.pending.Keys + {c.request.requestId};
    hide CallsInv;
  }

  lemma CalledKeepsInv(l: Ledger, request: Request, sendOk: bool, signal: Signal)
    requires Inv(l)
    ensures Inv(Called(l, request, sendOk, signal))
  {
    if request.requestId !in l.pending && signal != AlreadyAborted && sendOk {
      PendingKeepsInv(l, Made(request, signal == Live, [PayloadSent]));
    } else {
      OverKeepsInv(l, Made(request, false, [Local(request, FailedPreDispatch)]));
      OverKeepsInv(l, Made(request, false, [Local(request, Cancelled)]));
    }
    hide Inv;
  }

  /** Resolving a pending call with a history that is over keeps the ledger. */
  lemma ResolveKeepsInv(l: Ledger, call: nat, events: seq<Event>)
    requires Inv(l) && call < |l.calls| && IsPending(l, call) && events != []
    requires Over(l.calls[call].(listening := false, events := [PayloadSent] + events))
    ensures Inv(Resolve(l, call, events))
  {
    var t := Resolve(l, call, events);
    assert CallInv(l, call);
    OverCountUpdate(l.calls, call, t.calls[call]);
    RemoveKey(l.pending, l.calls[call].request.requestId);
    forall i | 0 <= i < |t.calls|
      ensures CallInv(t, i)
    {
      assert CallInv(l, i);
    }
  }

  lemma AbortedKeepsInv(l: Ledger, call: nat, cancelOk: bool)
    requires Inv(l)
    ensures Inv(Aborted(l, call, cancelOk))
  {
    if call < |l.calls| && l.calls[call].listening {
      assert CallInv(l, call);
      var sent := if cancelOk then [CancelSent] else [];
      ResolveKeepsInv(l, call, sent + [Local(l.calls[call].request, Indeterminate)]);
      hide Inv, Resolve;
    }
  }

  lemma SettledKeepsInv(l: Ledger, result: Result)
    requires Inv(l)
    ensures Inv(Settled(l, result))
  {
    if Accepts(l, result) {
      var call := l.pending[result.requestId];
      MatchesExactly(l.calls[call].request.identity, result.identity);
      ResolveKeepsInv(l, call, [ResolvedByManager(result)]);
      hide Inv, Resolve;
    }
  }

  lemma {:induction false} AllOver(calls: seq<Call>)
    requires forall c :: c in calls ==> c.events != [PayloadSent]
    ensures OverCount(calls) == |calls|
  {
    if calls != [] {
      AllOver(calls[..|calls| - 1]);
    }
  }

  lemma ClosedKeepsInv(l: Ledger)
    requires Inv(l)
    ensures Inv(Closed(l))
  {
    var t := Closed(l);
    forall i | 0 <= i < |t.calls|
      ensures Over(t.calls[i])
    {
      assert CallInv(l, i);
    }
    AllOver(t.calls);
  }

  lemma StepKeepsInv(l: Ledger, a: Action)
    requires Inv(l)
    ensures Inv(Step(l, a))
  {
    hide Inv, Called, Aborted, Settled, Closed;
    match a
    case DoCall(request, sendOk, signal) => CalledKeepsInv(l, request, sendOk, signal);
    case DoAbort(call, cancelOk) => AbortedKeepsInv(l, call, cancelOk);
    case DoSettle(result) => SettledKeepsInv(l, result);
    case DoClose => ClosedKeepsInv(l);
  }

  lemma {:induction false} RunKeepsInv(actions: seq<Action>)
    ensures Inv(Run(actions))
  {
    if actions == [] {
      assert OverCount([]) == 0;
    } else {
      var before := actions[..|actions| - 1];
      RunKeepsInv(before);
      StepKeepsInv(Run(before), actions[|actions| - 1]);
      hide Inv, Step;
    }
  }

  // ---------------------------------------------------------------- what every run keeps

  /**
   * Every call of every run is either pending, with its payload sent and nothing else, or has one of
   * the five histories of `Over`; and calls made are calls over plus calls pending.
   */
  lemma EveryCallAccounted(actions: seq<Action>)
    ensures var l := Run(actions);
      && (forall i :: 0 <= i < |l.calls| ==> CallInv(l, i))
      && |l.calls| == OverCount(l.calls) + |l.pending|
  {
    RunKeepsInv(actions);
  }

  /** The resolution of a call: the last event, the only resolution, truthful about dispatch. */
  ghost predicate TruthfulResolution(c: Call, k: nat)
    requires k < |c.events| && IsResolution(c.events[k])
  {
    var result := c.events[k].result;
    && k == |c.events| - 1
    && (forall j :: 0 <= j < k ==> !IsResolution(c.events[j]))
    && SameFields(c.request.identity, result.identity) && result.requestId == c.request.requestId
    && (c.events[k].ResolvedHere? ==>
          && (result.code == FailedPreDispatch || result.code == Cancelled || result.code == Indeterminate)
          && (result.code == Indeterminate <==> PayloadSent in c.events))
    && (c.events[k].ResolvedByManager? ==> PayloadSent in c.events)
    && !c.listening
  }

  lemma OverIsTruthful(c: Call, k: nat)
    requires k < |c.events| && IsResolution(c.events[k]) && Over(c)
    ensures TruthfulResolution(c, k)
  {
    if |c.events| > 1 { assert c.events[0] == PayloadSent; }
    hide SameFields;
  }

  /** At most one resolution and nothing after it, with a code that is truthful about dispatch. */
  lemma ResolutionsAreTruthful(actions: seq<Action>, i: nat, k: nat)
    requires i < |Run(actions).calls| && k < |Run(actions).calls[i].events|
    requires IsResolution(Run(actions).calls[i].events[k])
    ensures TruthfulResolution(Run(actions).calls[i], k)
  {
    RunKeepsInv(actions);
    var l := Run(actions);
    hide Run, TruthfulResolution, Over;
    assert CallInv(l, i);
    OverIsTruthful(l.calls[i], k);
  }

  /** Closing leaves no call waiting. */
  lemma CloseResolvesAll(actions: seq<Action>, i: nat)
    requires i < |Run(actions + [DoClose]).calls|
    ensures var l := Run(actions + [DoClose]);
      l.pending == map[] && Over(l.calls[i]) && IsResolution(l.calls[i].events[|l.calls[i].events| - 1])
  {
    assert (actions + [DoClose])[..|actions|] == actions;
    RunKeepsInv(actions + [DoClose]);
    assert CallInv(Run(actions + [DoClose]), i);
  }

  // ---------------------------------------------------------------- one call after the other

  lemma RunNext(actions: seq<Action>, a: Action)
    ensures Run(actions + [a]) == Step(Run(actions), a)
  {
    assert (actions + [a])[..|actions|] == actions;
  }

  /** Could this end the given call? Closing does, its abort, or a result with its id and identity. */
  ghost predicate Concerns(a: Action, call: nat, request: Request) {
    match a
    case DoCall(_, _, _) => false
    case DoAbort(i, _) => i == call
    case DoSettle(result) => result.requestId == request.requestId && SameFields(request.identity, result.identity)
    case DoClose => true
  }

  /** A call of which nothing has been heard: the payload is sent, and a live signal is listened to. */
  ghost predicate Waiting(l: Ledger, call: nat, request: Request, signal: Signal) {
    && call < |l.calls| && l.calls[call] == Made(request, signal == Live, [PayloadSent])
    && request.requestId in l.pending && l.pending[request.requestId] == call
  }

  lemma StepKeepsWaiting(l: Ledger, a: Action, call: nat, request: Request, signal: Signal)
    requires Inv(l) && Waiting(l, call, request, signal) && !Concerns(a, call, request)
    ensures Waiting(Step(l, a), call, request, signal)
  {
    hide CallsInv, SameFields, Matches;
    match a
    case DoSettle(result) =>
      if Accepts(l, result) {
        MatchesExactly(l.calls[l.pending[result.requestId]].request.identity, result.identity);
      }
    case _ =>
  }

  /**
   * A sent call waits, through whatever else the registry does, until it is aborted or settled with its own
   * id and identity, or the registry is closed.
   */
  lemma {:induction false} SentCallWaits(actions: seq<Action>, request: Request, signal: Signal, more: seq<Action>)
    requires request.requestId !in Run(actions).pending && signal != AlreadyAborted
    requires forall a :: a in more ==> !Concerns(a, |Run(actions).calls|, request)
    ensures Waiting(Run(actions + [DoCall(request, true, signal)] + more), |Run(actions).calls|, request, signal)
  {
    var call, made := |Run(actions).calls|, actions + [DoCall(request, true, signal)];
    if more == [] {
      assert made + [] == made;
      RunNext(actions, DoCall(request, true, signal));
    } else {
      var before, last := more[..|more| - 1], more[|more| - 1];
      assert last in more && forall a :: a in before ==> a in more;
      hide Concerns, Step, Waiting, Run;
      SentCallWaits(actions, request, signal, before);
      RunKeepsInv(made + before);
      RunNext(made + before, last);
      assert made + more == made + before + [last];
      StepKeepsWaiting(Run(made + before), last, call, request, signal);
    }
  }

  /**
   * The abort of a live signal: the cancel message is sent, if it can be, the promise is resolved as
   * indeterminate, and the call is out of the map. Nobody else's call changes.
   */
  lemma AbortResolves(actions: seq<Action>, request: Request, more: seq<Action>, cancelOk: bool)
    requires request.requestId !in Run(actions).pending
    requires forall a :: a in more ==> !Concerns(a, |Run(actions).calls|, request)
    ensures var call, past := |Run(actions).calls|, actions + [DoCall(request, true, Live)] + more;
      var l, t := Run(past), Run(past + [DoAbort(call, cancelOk)]);
      && call < |t.calls| && |t.calls| == |l.calls| && t.pending == l.pending - {request.requestId}
      && t.calls[call].events
         == [PayloadSent] + (if cancelOk then [CancelSent] else [])
            + [ResolvedHere(Result(request.requestId, request.identity, false, Indeterminate))]
      && forall i :: 0 <= i < |l.calls| && i != call ==> t.calls[i] == l.calls[i]
  {
    var call, past := |Run(actions).calls|, actions + [DoCall(request, true, Live)] + more;
    SentCallWaits(actions, request, Live, more);
    hide Run;
    RunNext(past, DoAbort(call, cancelOk));
  }

  /** Without a signal, or once the call is over, the abort event does nothing. */
  lemma AbortIgnored(actions: seq<Action>, call: nat, cancelOk: bool)
    requires call < |Run(actions).calls| ==> !Run(actions).calls[call].listening
    ensures Run(actions + [DoAbort(call, cancelOk)]) == Run(actions)
  {
    RunNext(actions, DoAbort(call, cancelOk));
  }

  /** A result with the id and the identity of a waiting call resolves it, and no other call. */
  lemma SettleResolves(actions: seq<Action>, request: Request, signal: Signal, more: seq<Action>, result: Result)
    requires request.requestId !in Run(actions).pending && signal != AlreadyAborted
    requires forall a :: a in more ==> !Concerns(a, |Run(actions).calls|, request)
    requires result.requestId == request.requestId && SameFields(request.identity, result.identity)
    ensures var call, past := |Run(actions).calls|, actions + [DoCall(request, true, signal)] + more;
      var l, t := Run(past), Run(past + [DoSettle(result)]);
      && call < |t.calls| && |t.calls| == |l.calls| && t.pending == l.pending - {request.requestId}
      && t.calls[call].events == [PayloadSent, ResolvedByManager(result)] && !t.calls[call].listening
      && forall i :: 0 <= i < |l.calls| && i != call ==> t.calls[i] == l.calls[i]
  {
    var past := actions + [DoCall(request, true, signal)] + more;
    SentCallWaits(actions, request, signal, more);
    MatchesExactly(request.identity, result.identity);
    hide Run, Matches, SameFields;
    RunNext(past, DoSettle(result));
  }

  /** A result without a waiting call of its id, or with another identity, changes nothing. */
  lemma SettleIgnored(actions: seq<Action>, result: Result)
    requires var l := Run(actions);
      result.requestId in l.pending ==>
        && l.pending[result.requestId] < |l.calls|
        && !SameFields(l.calls[l.pending[result.requestId]].request.identity, result.identity)
    ensures Run(actions + [DoSettle(result)]) == Run(actions)
  {
    var l := Run(actions);
    if result.requestId in l.pending {
      MatchesExactly(l.calls[l.pending[result.requestId]].request.identity, result.identity);
    }
    hide Run, Matches, SameFields;
    RunNext(actions, DoSettle(result));
  }

  /**
   * A call that is not sent is resolved at once, leaves the map as it is and every other call alone: as
   * failed before dispatch when its id is in use or the payload cannot be sent, as cancelled when its signal
   * has been aborted already.
   */
  lemma UnsentCall(actions: seq<Action>, request: Request, sendOk: bool, signal: Signal)
    requires request.requestId in Run(actions).pending || signal == AlreadyAborted || !sendOk
    ensures var l, t := Run(actions), Run(actions + [DoCall(request, sendOk, signal)]);
      var code := if request.requestId !in l.pending && signal == AlreadyAborted then Cancelled else FailedPreDispatch;
      && t.pending == l.pending
      && t.calls == l.calls + [Made(request, false, [ResolvedHere(Result(request.requestId, request.identity, false, code))])]
  {
    RunNext(actions, DoCall(request, sendOk, signal));
  }

  /** Closing while a call waits: its promise is resolved as indeterminate, without a cancel message. */
  lemma CloseResolvesWaiting(actions: seq<Action>, request: Request, signal: Signal, more: seq<Action>)
    requires request.requestId !in Run(actions).pending && signal != AlreadyAborted
    requires forall a :: a in more ==> !Concerns(a, |Run(actions).calls|, request)
    ensures var call, past := |Run(actions).calls|, actions + [DoCall(request, true, signal)] + more;
      var t := Run(past + [DoClose]);
      && call < |t.calls| && t.pending == map[] && !t.calls[call].listening
      && t.calls[call].events
         == [PayloadSent, ResolvedHere(Result(request.requestId, request.identity, false, Indeterminate))]
  {
    var past := actions + [DoCall(request, true, signal)] + more;
    SentCallWaits(actions, request, signal, more);
    hide Run;
    RunNext(past, DoClose);
  }

  // ---------------------------------------------------------------- the registry

  class CredentialBrokerRequestRegistry {
    /** From request ids to call numbers. */
    var pending: map<string, nat>
    /** Every call made, which stands for its promise and its abort listener. */
    var calls: seq<Call>

    ghost function Contents(): Ledger
      reads this
    {
      Ledger(pending, calls)
    }

    /** Every id in the map belongs to a call that was made with it. */
    predicate Valid()
      reads this
    {
      forall id :: id in pending ==> pending[id] < |calls| && calls[pending[id]].request.requestId == id
    }

    constructor ()
      ensures Valid() && Contents() == Run([])
    {
      pending, calls := map[], [];
    }

    method Record(call: nat, e: Event)
      requires call < |calls|
      modifies this`calls
      ensures calls == old(calls)[call := old(calls)[call].(events := old(calls)[call].events + [e])]
      ensures old(calls)[call].events == [] ==> calls[call].events == [e]
    {
      calls := calls[call := calls[call].(events := calls[call].events + [e])];
    }

    method RemoveAbortListener(call: nat)
      requires call < |calls|
      modifies this`calls
      ensures calls == old(calls)[call := old(calls)[call].(listening := false)]
    {
      calls := calls[call := calls[call].(listening := false)];
    }

    method Call(request: Request, sendOk: bool, signal: Signal)
      requires Valid()
      modifies this
      ensures Valid() && Contents() == Called(old(Contents()), request, sendOk, signal)
    {
      var call := |calls|;
      calls := calls + [Made(request, false, [])];
      if request.requestId in pending {
        Record(call, Local(request, FailedPreDispatch));
        assert calls == old(calls) + [Made(request, false, [Local(request, FailedPreDispatch)])];
        return;
      }
      if signal == AlreadyAborted {
        Record(call, Local(request, Cancelled));
        assert calls == old(calls) + [Made(request, false, [Local(request, Cancelled)])];
        return;
      }
      if signal == Live {
        calls := calls[call := calls[call].(listening := true)];
      }
      pending := pending[request.requestId := call];
      if sendOk {
        Record(call, PayloadSent);
        assert calls == old(calls) + [Made(request, signal == Live, [PayloadSent])];
      } else {
        pending := pending - {request.requestId};
        RemoveAbortListener(call);
        Record(call, Local(request, FailedPreDispatch));
        assert calls == old(calls) + [Made(request, false, [Local(request, FailedPreDispatch)])];
        assert pending == old(pending);
      }
    }

    /** The abort event fires on the signal of a call. */
    method OnAbort(call: nat, cancelOk: bool)
      requires Valid()
      modifies this
      ensures Valid() && Contents() == Aborted(old(Contents()), call, cancelOk)
    {
      if call >= |calls| || !calls[call].listening {
        return;
      }
      RemoveAbortListener(call);
      var request := calls[call].request;
      ghost var l, before := old(Contents()), calls[call].events;
      ghost var sent := if cancelOk then [CancelSent] else [];
      if cancelOk {
        Record(call, CancelSent);
      }
      assert before + [] == before;
      assert calls[call].events == before + sent;
      if request.requestId in pending && pending[request.requestId] == call {
        pending := pending - {request.requestId};
        RemoveAbortListener(call);
        Record(call, Local(request, Indeterminate));
        assert calls[call].events == before + (sent + [Local(request, Indeterminate)]);
        assert Contents() == Resolve(l, call, sent + [Local(request, Indeterminate)]);
      } else {
        assert calls == l.calls[call := l.calls[call].(listening := false, events := before + sent)];
      }
    }

    method Settle(result: Result) returns (settled: bool)
      requires Valid()
      modifies this
      ensures Valid() && Contents() == Settled(old(Contents()), result)
      ensures settled <==>
                && result.requestId in old(pending)
                && SameFields(old(calls)[old(pending)[result.requestId]].request.identity, result.identity)
    {
      hide SameFields;
      if result.requestId !in pending {
        return false;
      }
      var call := pending[result.requestId];
      MatchesExactly(calls[call].request.identity, result.identity);
      if !Matches(calls[call].request.identity, result.identity) {
        return false;
      }
      pending := pending - {result.requestId};
      RemoveAbortListener(call);
      Record(call, ResolvedByManager(result));
      return true;
    }

    method Close()
      requires Valid()
      modifies this
      ensures Valid() && Contents() == Closed(old(Contents()))
    {
      ghost var was := Contents();
      for call := 0 to |calls|
        invariant pending == was.pending && |calls| == |was.calls|
        invariant forall i :: 0 <= i < call ==> calls[i] == ClosedCall(was, i)
        invariant forall i :: call <= i < |calls| ==> calls[i] == was.calls[i]
      {
        var request := calls[call].request;
        if request.requestId in pending && pending[request.requestId] == call {
          RemoveAbortListener(call);
          Record(call, Local(request, Indeterminate));
        }
      }
      pending := map[];
      assert calls == Closed(was).calls;
    }
  }
}
