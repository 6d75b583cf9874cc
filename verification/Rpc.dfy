/**
  The RPC protocol between a client and a server over one channel, as a state machine: one event at a
  time, as the event loop of the channel runs them. A request is known by its position among the
  requests sent, and so is its callback; on the wire there is only its id.
 */
module Rpc {
  import opened Results

  type Body = seq<bv8>

  /** A Java `long`. */
  type Id = n: int | -0x8000_0000_0000_0000 <= n <= 0x7fff_ffff_ffff_ffff

  datatype Outcome = Success(body: Body) | Failure(reason: string)

  datatype Message = RpcResponse(requestId: Id, body: Body) | RpcFailure(requestId: Id, errorString: string)

  /** One invocation of a callback. */
  datatype Firing = Firing(request: nat, outcome: Outcome)

  // ----- The table of outstanding callbacks

  /** The table, and the callbacks invoked so far in order. */
  datatype Table = Table(outstanding: map<Id, nat>, fired: seq<Firing>)

  function OutcomeOf(m: Message): Outcome {
    match m
    case RpcResponse(_, body) => Success(body)
    case RpcFailure(_, error) => Failure(error)
  }

  /** A reply to a request that is not outstanding is ignored. */
  function Handled(t: Table, m: Message): Table {
    if m.requestId !in t.outstanding then t
    else Table(t.outstanding - {m.requestId}, t.fired + [Firing(t.outstanding[m.requestId], OutcomeOf(m))])
  }

  /** The callback of a failed write is invoked whether or not it was still outstanding. */
  function WriteFailed(t: Table, id: Id, request: nat, reason: string): Table {
    Table(t.outstanding - {id}, t.fired + [Firing(request, Failure(reason))])
  }

  /** Every outstanding callback fails once, in an order the hash map decides. */
  ghost predicate FailedAll(t: Table, reason: string, t': Table) {
    && t'.outstanding == map[]
    && exists order | ListsKeys(order, t.outstanding) :: t'.fired == t.fired + FailuresOf(t.outstanding, order, reason)
  }

  ghost predicate ListsKeys(order: seq<Id>, outstanding: map<Id, nat>) {
    && (forall id :: id in order <==> id in outstanding)
    && (forall i, j | 0 <= i < j < |order| :: order[i] != order[j])
  }

  function FailuresOf(outstanding: map<Id, nat>, order: seq<Id>, reason: string): seq<Firing>
    requires forall id | id in order :: id in outstanding
  {
    seq(|order|, i requires 0 <= i < |order| => Firing(outstanding[order[i]], Failure(reason)))
  }

  // ----- Objects

  class TransportResponseHandler {
    var outstandingRpcs: map<Id, nat>
    var fired: seq<Firing>

    ghost function Model(): Table
      reads this
    {
      Table(outstandingRpcs, fired)
    }

    constructor ()
      ensures Model() == Table(map[], [])
    {
      outstandingRpcs, fired := map[], [];
    }

    method AddRpcRequest(requestId: Id, callback: nat)
      modifies this`outstandingRpcs
      ensures outstandingRpcs == old(outstandingRpcs)[requestId := callback]
    {
      outstandingRpcs := outstandingRpcs[requestId := callback];
    }

    method RemoveRpcRequest(requestId: Id)
      modifies this`outstandingRpcs
      ensures outstandingRpcs == old(outstandingRpcs) - {requestId}
    {
      outstandingRpcs := outstandingRpcs - {requestId};
    }

    method Handle(message: Message)
      modifies this
      ensures Model() == Handled(old(Model()), message)
    {
      if message.requestId in outstandingRpcs {
        var listener := outstandingRpcs[message.requestId];
        outstandingRpcs := outstandingRpcs - {message.requestId};
        fired := fired + [Firing(listener, OutcomeOf(message))];
      }
    }

    method ChannelInactive()
      modifies this
      ensures FailedAll(old(Model()), "Connection closed", Model())
    {
      FailOutstandingRequests("Connection closed");
    }

    method ExceptionCaught(cause: string)
      modifies this
      ensures FailedAll(old(Model()), cause, Model())
    {
      FailOutstandingRequests(cause);
    }

    method FailOutstandingRequests(cause: string)
      modifies this
      ensures FailedAll(old(Model()), cause, Model())
    {
      var entries := outstandingRpcs.Keys;
      ghost var order: seq<Id> := [];
      while entries != {}
        invariant outstandingRpcs == old(outstandingRpcs) && entries <= outstandingRpcs.Keys
        invariant forall id :: id in order <==> id in outstandingRpcs && id !in entries
        invariant forall i, j | 0 <= i < j < |order| :: order[i] != order[j]
        invariant fired == old(fired) + FailuresOf(outstandingRpcs, order, cause)
        decreases entries
      {
        var id: Id :| id in entries;
        fired := fired + [Firing(outstandingRpcs[id], Failure(cause))];
        entries := entries - {id};
        order := order + [id];
      }
      assert ListsKeys(order, old(outstandingRpcs));
      outstandingRpcs := map[];
    }
  }

  class TransportClient {
    const handler: TransportResponseHandler
    var open: bool

    constructor (handler: TransportResponseHandler)
      ensures this.handler == handler && open
    {
      this.handler, open := handler, true;
    }

    /** The callback is registered before the request is written. */
    method Send(requestId: Id, callback: nat) returns (request: Id)
      modifies handler`outstandingRpcs
      ensures handler.outstandingRpcs == old(handler.outstandingRpcs)[requestId := callback] && request == requestId
    {
      handler.AddRpcRequest(requestId, callback);
      return requestId;
    }

    /** The listener of the write. */
    method WriteCompleted(requestId: Id, callback: nat, success: bool, cause: string)
      modifies this`open, handler
      ensures success ==> handler.Model() == old(handler.Model()) && open == old(open)
      ensures !success ==> handler.Model() == WriteFailed(old(handler.Model()), requestId, callback, cause) && !open
    {
      if !success {
        handler.RemoveRpcRequest(requestId);
        open := false;
        handler.fired := handler.fired + [Firing(callback, Failure(cause))];
      }
    }
  }

  /** What the application does with a request: replies, then possibly an exception. */
  datatype Action = Reply(body: Body) | SendFailure(error: string)

  class TransportRequestHandler {
    var written: seq<Message>

    /** Every reply carries the id of the request it answers; an exception is one more failure reply. */
    method Handle(requestId: Id, actions: seq<Action>, thrown: Option<string>)
      modifies this
      ensures written == old(written)
                       + seq(|actions|, i requires 0 <= i < |actions| => MessageFor(requestId, actions[i]))
                       + if thrown.Some? then [RpcFailure(requestId, thrown.value)] else []
    {
      for k := 0 to |actions|
        invariant written == old(written) + seq(k, i requires 0 <= i < k => MessageFor(requestId, actions[i]))
      {
        written := written + [MessageFor(requestId, actions[k])];
      }
      if thrown.Some? {
        written := written + [RpcFailure(requestId, thrown.value)];
      }
    }
  }

  function MessageFor(requestId: Id, action: Action): Message {
    match action
    case Reply(body) => RpcResponse(requestId, body)
    case SendFailure(error) => RpcFailure(requestId, error)
  }

  // ----- The protocol

  /** A reply on the wire, with the request the server wrote it for. */
  datatype Packet = Packet(request: nat, message: Message)

  datatype State = State(
    table: Table,
    ids: seq<Id>,                // the ids of the requests sent
    writing: set<nat>,            // requests whose write has not completed
    failedWrites: set<nat>,
    received: set<nat>,           // requests the server has received
    replies: set<Packet>)         // everything the server has written

  datatype Event =
    | Send(id: Id)
    | WriteDone(request: nat)
    | WriteError(request: nat, reason: string)
    | Deliver(request: nat)
    | Answer(request: nat, action: Action)
    | Receive(packet: Packet)
    | ChannelInactive
    | ExceptionCaught(reason: string)

  const INITIAL: State := State(Table(map[], []), [], {}, {}, {}, {})

  /** A packet may arrive any number of times; a request may be delivered although its write fails. */
  ghost predicate Step(s: State, e: Event, s': State) {
    match e
    case Send(id) =>
      var r := |s.ids|;
      s' == s.(table := s.table.(outstanding := s.table.outstanding[id := r]), ids := s.ids + [id],
               writing := s.writing + {r})
    case WriteDone(r) =>
      r in s.writing && s' == s.(writing := s.writing - {r})
    case WriteError(r, reason) =>
      && r in s.writing && r < |s.ids|
      && s' == s.(table := WriteFailed(s.table, s.ids[r], r, reason), writing := s.writing - {r},
                  failedWrites := s.failedWrites + {r})
    case Deliver(r) =>
      r < |s.ids| && s' == s.(received := s.received + {r})
    case Answer(r, action) =>
      && r in s.received && r < |s.ids|
      && s' == s.(replies := s.replies + {Packet(r, MessageFor(s.ids[r], action))})
    case Receive(packet) =>
      packet in s.replies && s' == s.(table := Handled(s.table, packet.message))
    case ChannelInactive =>
      exists t | FailedAll(s.table, "Connection closed", t) :: s' == s.(table := t)
    case ExceptionCaught(reason) =>
      exists t | FailedAll(s.table, reason, t) :: s' == s.(table := t)
  }

  ghost predicate Fresh(s: State, e: Event) {
    e.Send? ==> e.id !in s.ids
  }

  /** A run with fresh request ids. */
  ghost predicate Run(states: seq<State>, events: seq<Event>) {
    && |states| == |events| + 1 && states[0] == INITIAL
    && forall i | 0 <= i < |events| :: Step(states[i], events[i], states[i + 1]) && Fresh(states[i], events[i])
  }

  ghost predicate Outstanding(s: State, r: nat) {
    r < |s.ids| && s.ids[r] in s.table.outstanding && s.table.outstanding[s.ids[r]] == r
  }

  /** The future of `sendSync` keeps the outcome its callback is first invoked with. */
  function FutureOf(fired: seq<Firing>, r: nat): Option<Outcome> {
    if fired == [] then None
    else if fired[0].request == r then Some(fired[0].outcome)
    else FutureOf(fired[1..], r)
  }

  function Firings(fired: seq<Firing>, r: nat): nat {
    if fired == [] then 0 else (if fired[0].request == r then 1 else 0) + Firings(fired[1..], r)
  }

  // ----- Firings

  lemma {:induction false} FiringsConcat(a: seq<Firing>, b: seq<Firing>, r: nat)
    ensures Firings(a + b, r) == Firings(a, r) + Firings(b, r)
    ensures FutureOf(a + b, r) == if FutureOf(a, r).Some? then FutureOf(a, r) else FutureOf(b, r)
    ensures FutureOf(a, r).Some? <==> Firings(a, r) > 0
  {
    if a == [] {
      assert a + b == b;
    } else {
      FiringsConcat(a[1..], b, r);
      assert (a + b)[1..] == a[1..] + b;
    }
  }

  lemma {:induction false} FailuresCount(outstanding: map<Id, nat>, order: seq<Id>, reason: string, r: nat)
    requires forall i | 0 <= i < |order| :: order[i] in outstanding
    requires forall i, j | 0 <= i < j < |order| :: outstanding[order[i]] != outstanding[order[j]]
    ensures Firings(FailuresOf(outstanding, order, reason), r) ==
            if exists id | id in order :: outstanding[id] == r then 1 else 0
  {
    var fs := FailuresOf(outstanding, order, reason);
    if order != [] {
      assert fs[1..] == FailuresOf(outstanding, order[1..], reason);
      FailuresCount(outstanding, order[1..], reason, r);
      assert order == [order[0]] + order[1..];
    }
  }

  // ----- The invariant

  ghost predicate Inv(s: State) {
    && (forall i, j | 0 <= i < j < |s.ids| :: s.ids[i] != s.ids[j])
    && (forall id | id in s.table.outstanding ::
          s.table.outstanding[id] < |s.ids| && s.ids[s.table.outstanding[id]] == id)
    && (forall f | f in s.table.fired :: f.request < |s.ids|)
    && (forall r | r in s.writing || r in s.failedWrites || r in s.received :: r < |s.ids|)
    && s.writing !! s.failedWrites
    && Ledger(s)
    && (forall p | p in s.replies :: p.request in s.received && p.message.requestId == s.ids[p.request])
    && (forall f | f in s.table.fired && f.outcome.Success? :: Replied(s, f.request, f.outcome.body))
  }

  /** A request is outstanding and its callback silent, or its callback was invoked, twice only after a failed write. */
  ghost predicate Ledger(s: State) {
    forall r | 0 <= r < |s.ids| ::
      var n := Firings(s.table.fired, r);
      if Outstanding(s, r) then n == 0 && r !in s.failedWrites else 1 <= n <= (if r in s.failedWrites then 2 else 1)
  }

  ghost predicate Replied(s: State, r: nat, body: Body) {
    r < |s.ids| && Packet(r, RpcResponse(s.ids[r], body)) in s.replies
  }

  /** One if the request ceases to be outstanding. */
  ghost function Settled(s: State, s': State, r: nat): nat {
    if Outstanding(s, r) && !Outstanding(s', r) then 1 else 0
  }

  lemma SendKeepsInv(s: State, id: Id, s': State)
    requires Inv(s) && Step(s, Send(id), s') && id !in s.ids
    ensures Inv(s')
  {
    var n := |s.ids|;
    assert s'.ids[n] == id && forall r | 0 <= r < n :: s'.ids[r] == s.ids[r];
    assert id !in s.table.outstanding;
    assert Firings(s.table.fired, n) == 0 by { NotFired(s.table.fired, n); }
    forall r | 0 <= r < n ensures Outstanding(s', r) <==> Outstanding(s, r) {
    }
    forall f | f in s'.table.fired && f.outcome.Success? ensures Replied(s', f.request, f.outcome.body) {
      assert Replied(s, f.request, f.outcome.body);
    }
  }

  lemma {:induction false} NotFired(fired: seq<Firing>, r: nat)
    requires forall f | f in fired :: f.request < r
    ensures Firings(fired, r) == 0
  {
    if fired != [] {
      NotFired(fired[1..], r);
    }
  }

  lemma WriteErrorKeepsInv(s: State, r: nat, reason: string, s': State)
    requires Inv(s) && Step(s, WriteError(r, reason), s')
    ensures Inv(s')
    ensures forall k | 0 <= k < |s.ids| ::
              Firings(s'.table.fired, k) == Firings(s.table.fired, k) + if k == r then 1 else 0
  {
    forall k | 0 <= k < |s.ids|
      ensures Firings(s'.table.fired, k) == Firings(s.table.fired, k) + if k == r then 1 else 0
      ensures Outstanding(s', k) <==> Outstanding(s, k) && k != r
    {
      FiringsConcat(s.table.fired, [Firing(r, Failure(reason))], k);
    }
    forall f | f in s'.table.fired && f.outcome.Success? ensures Replied(s', f.request, f.outcome.body) {
      assert Replied(s, f.request, f.outcome.body);
    }
  }

  lemma ReceiveKeepsInv(s: State, p: Packet, s': State)
    requires Inv(s) && Step(s, Receive(p), s')
    ensures Inv(s')
    ensures forall k | 0 <= k < |s.ids| :: Firings(s'.table.fired, k) == Firings(s.table.fired, k) + Settled(s, s', k)
  {
    var id := p.message.requestId;
    if id in s.table.outstanding {
      var r := s.table.outstanding[id];
      assert r == p.request;
      forall k | 0 <= k < |s.ids|
        ensures Firings(s'.table.fired, k) == Firings(s.table.fired, k) + if k == r then 1 else 0
        ensures Outstanding(s', k) <==> Outstanding(s, k) && k != r
      {
        FiringsConcat(s.table.fired, [Firing(r, OutcomeOf(p.message))], k);
      }
      forall f | f in s'.table.fired && f.outcome.Success? ensures Replied(s', f.request, f.outcome.body) {
        if f in s.table.fired {
          assert Replied(s, f.request, f.outcome.body);
        } else {
          assert p == Packet(r, RpcResponse(s.ids[r], f.outcome.body));
        }
      }
    }
  }

  lemma FailedAllKeepsInv(s: State, reason: string, s': State)
    requires Inv(s) && FailedAll(s.table, reason, s'.table) && s' == s.(table := s'.table)
    ensures Inv(s')
    ensures forall r | 0 <= r < |s.ids| :: !Outstanding(s', r)
    ensures forall k | 0 <= k < |s.ids| :: Firings(s'.table.fired, k) == Firings(s.table.fired, k) + Settled(s, s', k)
  {
    var outstanding := s.table.outstanding;
    var order :| ListsKeys(order, outstanding)
                 && s'.table.fired == s.table.fired + FailuresOf(outstanding, order, reason);
    var extra := FailuresOf(outstanding, order, reason);
    forall i, j | 0 <= i < j < |order| ensures outstanding[order[i]] != outstanding[order[j]] {
      assert order[i] in outstanding && order[j] in outstanding;
    }
    forall k | 0 <= k < |s.ids|
      ensures Firings(s'.table.fired, k) == Firings(s.table.fired, k) + if Outstanding(s, k) then 1 else 0
    {
      FiringsConcat(s.table.fired, extra, k);
      FailuresCount(outstanding, order, reason, k);
      if Outstanding(s, k) {
        assert s.ids[k] in order;
      }
    }
    forall f | f in s'.table.fired ensures f in s.table.fired || (f.request < |s.ids| && f.outcome.Failure?) {
      if f in extra {
        var i :| 0 <= i < |order| && f == extra[i];
        assert order[i] in outstanding;
      }
    }
    forall f | f in s'.table.fired && f.outcome.Success? ensures Replied(s', f.request, f.outcome.body) {
      assert Replied(s, f.request, f.outcome.body);
    }
  }

  lemma AnswerKeepsInv(s: State, r: nat, action: Action, s': State)
    requires Inv(s) && Step(s, Answer(r, action), s')
    ensures Inv(s')
  {
    forall f | f in s'.table.fired && f.outcome.Success? ensures Replied(s', f.request, f.outcome.body) {
      assert Replied(s, f.request, f.outcome.body);
    }
    assert forall k :: Outstanding(s', k) <==> Outstanding(s, k);
  }

  /** A write error invokes the callback, a second time exactly if the request was no longer outstanding. */
  lemma WriteErrorFiresAgain(s: State, r: nat, reason: string, s': State)
    requires Inv(s) && Step(s, WriteError(r, reason), s')
    ensures Firings(s'.table.fired, r) == if Outstanding(s, r) then 1 else 2
  {
    WriteErrorKeepsInv(s, r, reason, s');
  }

  /** Any other step invokes the callback of a request once if it settles the request, and else not at all. */
  lemma OtherStepFires(s: State, e: Event, s': State, r: nat)
    requires Inv(s) && Step(s, e, s') && Fresh(s, e) && r < |s.ids|
    requires e.WriteError? ==> e.request != r
    ensures Firings(s'.table.fired, r) == Firings(s.table.fired, r) + Settled(s, s', r)
  {
    match e
    case Send(id) => assert s'.ids[r] == s.ids[r] && id !in s.table.outstanding;
    case WriteError(k, reason) => WriteErrorKeepsInv(s, k, reason, s');
    case Receive(p) => ReceiveKeepsInv(s, p, s');
    case ChannelInactive => FailedAllKeepsInv(s, "Connection closed", s');
    case ExceptionCaught(reason) => FailedAllKeepsInv(s, reason, s');
    case _ =>
  }

  /** The write of the request fails when it is no longer outstanding. */
  ghost predicate FailsLate(s: State, e: Event, r: nat) {
    e.WriteError? && e.request == r && !Outstanding(s, r)
  }

  /** Only such a step takes the callback from one invocation to more. */
  ghost predicate LateOnly(s: State, e: Event, s': State, r: nat) {
    Firings(s'.table.fired, r) <= 1 <==> Firings(s.table.fired, r) <= 1 && !FailsLate(s, e, r)
  }

  ghost predicate AllLateOnly(s: State, e: Event, s': State) {
    forall r: nat | r < |s.ids| :: LateOnly(s, e, s', r)
  }

  lemma LateStep(s: State, e: Event, s': State, r: nat)
    requires Inv(s) && Step(s, e, s') && Fresh(s, e) && r < |s.ids|
    ensures LateOnly(s, e, s', r)
  {
    if e.WriteError? && e.request == r {
      WriteErrorFiresAgain(s, r, e.reason, s');
    } else {
      OtherStepFires(s, e, s', r);
    }
  }

  /** Every step of the protocol keeps the invariant, as long as a request id is never used twice. */
  lemma StepKeepsInv(s: State, e: Event, s': State)
    requires Inv(s) && Step(s, e, s') && Fresh(s, e)
    ensures Inv(s')
    ensures AllLateOnly(s, e, s')
  {
    forall r: nat | r < |s.ids| ensures LateOnly(s, e, s', r) {
      LateStep(s, e, s', r);
    }
    match e
    case Send(id) => SendKeepsInv(s, id, s');
    case WriteError(r, reason) => WriteErrorKeepsInv(s, r, reason, s');
    case Receive(p) => ReceiveKeepsInv(s, p, s');
    case ChannelInactive => FailedAllKeepsInv(s, "Connection closed", s');
    case ExceptionCaught(reason) => FailedAllKeepsInv(s, reason, s');
    case Answer(r, action) => AnswerKeepsInv(s, r, action, s');
    case _ =>
      assert forall k :: Outstanding(s', k) <==> Outstanding(s, k);
      forall f | f in s'.table.fired && f.outcome.Success? ensures Replied(s', f.request, f.outcome.body) {
        assert Replied(s, f.request, f.outcome.body);
      }
  }

  lemma {:induction false} RunKeepsInv(states: seq<State>, events: seq<Event>, i: nat)
    requires Run(states, events) && i < |states|
    ensures Inv(states[i])
    ensures i > 0 ==> AllLateOnly(states[i - 1], events[i - 1], states[i])
    decreases i
  {
    if i > 0 {
      RunKeepsInv(states, events, i - 1);
      StepKeepsInv(states[i - 1], events[i - 1], states[i]);
    }
  }

  // ----- Theorems about runs

  /**
    In every state of every run, a request that was sent is outstanding or completed, and never
    both; its callback was invoked at most once, or twice if and only if its write failed when it was
    no longer outstanding; and a success carries a body that the server replied for that same request.
   */
  lemma OutstandingOrCompleted(states: seq<State>, events: seq<Event>, i: nat, r: nat)
    requires Run(states, events) && i < |states| && r < |states[i].ids|
    ensures var s := states[i];
            && (Outstanding(s, r) <==> FutureOf(s.table.fired, r).None?)
            && Firings(s.table.fired, r) <= 2
            && (Firings(s.table.fired, r) == 2 <==> FailedLate(states, events, i, r))
            && (forall body | FutureOf(s.table.fired, r) == Some(Success(body)) :: Replied(s, r, body))
  {
    RunKeepsInv(states, events, i);
    FiredTwiceAfterLateFailure(states, events, i, r);
    var fired := states[i].table.fired;
    FiringsConcat(fired, [], r);
    if FutureOf(fired, r).Some? {
      FutureWasFired(fired, r);
    }
  }

  ghost predicate FailedLate(states: seq<State>, events: seq<Event>, i: nat, r: nat)
    requires i < |states| && i <= |events|
  {
    exists k | 0 <= k < i :: FailsLate(states[k], events[k], r)
  }

  /**
    In every state of every run, the callback of a request was invoked more than once if and only if
    its write had failed when the request was no longer outstanding; and then it was invoked twice.
   */
  lemma {:induction false} FiredTwiceAfterLateFailure(states: seq<State>, events: seq<Event>, i: nat, r: nat)
    requires Run(states, events) && i < |states| && r < |states[i].ids|
    ensures Firings(states[i].table.fired, r) > 1 <==> FailedLate(states, events, i, r)
    ensures Firings(states[i].table.fired, r) <= 2
    decreases i
  {
    AtMostTwice(states, events, i, r);
    LastEvent(states, events, i, r);
    if r < |states[i - 1].ids| {
      FiredTwiceAfterLateFailure(states, events, i - 1, r);
      LateStepOfRun(states, events, i, r);
    } else {
      JustSent(states, events, i, r);
    }
  }

  lemma AtMostTwice(states: seq<State>, events: seq<Event>, i: nat, r: nat)
    requires Run(states, events) && i < |states| && r < |states[i].ids|
    ensures i > 0 && Firings(states[i].table.fired, r) <= 2
  {
    RunKeepsInv(states, events, i);
  }

  lemma LateStepOfRun(states: seq<State>, events: seq<Event>, i: nat, r: nat)
    requires Run(states, events) && 0 < i < |states| && r < |states[i - 1].ids|
    ensures LateOnly(states[i - 1], events[i - 1], states[i], r)
  {
    RunKeepsInv(states, events, i);
  }

  lemma LastEvent(states: seq<State>, events: seq<Event>, i: nat, r: nat)
    requires 0 < i < |states| && i <= |events|
    ensures FailedLate(states, events, i, r) <==>
            FailedLate(states, events, i - 1, r) || FailsLate(states[i - 1], events[i - 1], r)
  {
  }

  lemma JustSent(states: seq<State>, events: seq<Event>, i: nat, r: nat)
    requires Run(states, events) && 0 < i < |states| && |states[i - 1].ids| <= r < |states[i].ids|
    ensures !FailedLate(states, events, i, r) && Firings(states[i].table.fired, r) == 0
  {
    NothingFired(states, events, i, r);
    forall k | 0 <= k < i ensures !FailsLate(states[k], events[k], r) {
      SentGrows(states, events, k, i - 1);
      assert Step(states[k], events[k], states[k + 1]);
    }
  }

  lemma NothingFired(states: seq<State>, events: seq<Event>, i: nat, r: nat)
    requires Run(states, events) && 0 < i < |states| && |states[i - 1].ids| <= r < |states[i].ids|
    ensures Firings(states[i].table.fired, r) == 0
  {
    var s, e, s' := states[i - 1], events[i - 1], states[i];
    assert Step(s, e, s') && e.Send?;
    assert forall f | f in s.table.fired :: f.request < |s.ids| by {
      RunKeepsInv(states, events, i - 1);
    }
    NotFired(s.table.fired, r);
  }

  lemma {:induction false} SentGrows(states: seq<State>, events: seq<Event>, i: nat, j: nat)
    requires Run(states, events) && i <= j < |states|
    ensures |states[i].ids| <= |states[j].ids|
    decreases j
  {
    if i < j {
      SentGrows(states, events, i, j - 1);
      assert Step(states[j - 1], events[j - 1], states[j]);
    }
  }

  /** Such a run exists: the channel fails after a request is sent, and then the write of the request fails. */
  lemma LateFailureHappens(id: Id, reason: string) returns (states: seq<State>, events: seq<Event>)
    ensures Run(states, events) && events == [Send(id), ExceptionCaught(reason), WriteError(0, reason)]
    ensures Firings(states[3].table.fired, 0) == 2
  {
    var sent := State(Table(map[id := 0], []), [id], {0}, {}, {}, {});
    var lost := sent.(table := Table(map[], [Firing(0, Failure(reason))]));
    var failed := lost.(table := WriteFailed(lost.table, id, 0, reason), writing := {}, failedWrites := {0});
    states, events := [INITIAL, sent, lost, failed], [Send(id), ExceptionCaught(reason), WriteError(0, reason)];
    assert ListsKeys([id], sent.table.outstanding);
    assert lost.table.fired == sent.table.fired + FailuresOf(sent.table.outstanding, [id], reason);
    assert FailedAll(sent.table, reason, lost.table);
    assert Step(INITIAL, Send(id), sent) && Step(sent, ExceptionCaught(reason), lost);
    assert Step(lost, WriteError(0, reason), failed);
    assert Run(states, events);
    RunKeepsInv(states, events, 2);
    WriteErrorFiresAgain(lost, 0, reason, failed);
  }

  lemma {:induction false} FutureWasFired(fired: seq<Firing>, r: nat)
    requires FutureOf(fired, r).Some?
    ensures Firing(r, FutureOf(fired, r).value) in fired
  {
    if fired[0].request != r {
      FutureWasFired(fired[1..], r);
    }
  }

  lemma StepOnlyFires(s: State, e: Event, s': State)
    requires Step(s, e, s')
    ensures s.table.fired <= s'.table.fired
  {
  }

  /** A future never changes after its first outcome: not by duplicate replies, late write errors or channel loss. */
  lemma {:induction false} FutureIsFinal(states: seq<State>, events: seq<Event>, i: nat, j: nat, r: nat)
    requires Run(states, events) && i <= j < |states| && FutureOf(states[i].table.fired, r).Some?
    ensures FutureOf(states[j].table.fired, r) == FutureOf(states[i].table.fired, r)
    decreases j
  {
    if i < j {
      FutureIsFinal(states, events, i, j - 1, r);
      StepOnlyFires(states[j - 1], events[j - 1], states[j]);
      var before, after := states[j - 1].table.fired, states[j].table.fired;
      assert after == before + after[|before|..];
      FiringsConcat(before, after[|before|..], r);
    }
  }

  /** When the channel is lost or fails, no request stays without an outcome. */
  lemma NothingOutstandingAfterLoss(states: seq<State>, events: seq<Event>, i: nat, r: nat)
    requires Run(states, events) && i < |events| && r < |states[i].ids|
    requires events[i].ChannelInactive? || events[i].ExceptionCaught?
    ensures FutureOf(states[i + 1].table.fired, r).Some?
  {
    RunKeepsInv(states, events, i);
    var reason := if events[i].ChannelInactive? then "Connection closed" else events[i].reason;
    FailedAllKeepsInv(states[i], reason, states[i + 1]);
    OutstandingOrCompleted(states, events, i + 1, r);
  }

  /** Each request is outstanding or completed. */
  ghost predicate NoneLost(s: State) {
    forall r | 0 <= r < |s.ids| :: Outstanding(s, r) || FutureOf(s.table.fired, r).Some?
  }

  /**
    Sending loses no earlier request if and only if the new id is not the id of an outstanding one:
    otherwise the earlier callback is dropped from the table without ever being invoked.
   */
  lemma SendLosesNoRequest(s: State, id: Id, s': State)
    requires Inv(s) && Step(s, Send(id), s')
    ensures NoneLost(s') <==> id !in s.table.outstanding
  {
    var n := |s.ids|;
    forall r | 0 <= r < n ensures s'.ids[r] == s.ids[r] && (Outstanding(s, r) <==> FutureOf(s.table.fired, r).None?) {
      FiringsConcat(s.table.fired, [], r);
    }
    if id in s.table.outstanding {
      var r := s.table.outstanding[id];
      assert Outstanding(s, r) && !Outstanding(s', r);
    } else {
      forall r | 0 <= r < |s'.ids| ensures Outstanding(s', r) || FutureOf(s'.table.fired, r).Some? {
        if r < n { assert Outstanding(s, r) ==> Outstanding(s', r); }
      }
    }
  }

  // ----- Ids that are used again

  /** These events lead from one state to the next. */
  ghost predicate IsPath(states: seq<State>, events: seq<Event>) {
    |states| == |events| + 1 && forall i | 0 <= i < |events| :: Step(states[i], events[i], states[i + 1])
  }

  /** Every body given to a callback is one the server replied for that request. */
  ghost predicate Truthful(s: State) {
    forall f | f in s.table.fired && f.outcome.Success? :: Replied(s, f.request, f.outcome.body)
  }

  /** A reply completes a request other than its own, with a body the server has not replied for that one. */
  ghost predicate Misleads(s: State, e: Event) {
    && e.Receive? && e.packet.message.RpcResponse? && e.packet.message.requestId in s.table.outstanding
    && var r := s.table.outstanding[e.packet.message.requestId];
       e.packet.request != r && !Replied(s, r, e.packet.message.body)
  }

  ghost predicate Labelled(s: State) {
    forall p | p in s.replies :: p.request < |s.ids| && p.message.requestId == s.ids[p.request]
  }

  lemma StepStaysTruthful(s: State, e: Event, s': State)
    requires Step(s, e, s') && Labelled(s) && Truthful(s)
    ensures Truthful(s') <==> !Misleads(s, e)
  {
    forall f | f in s.table.fired && f.outcome.Success? ensures Replied(s', f.request, f.outcome.body) {
      assert Replied(s, f.request, f.outcome.body);
    }
    forall f | f in s'.table.fired && f !in s.table.fired && f.outcome.Success?
      ensures e.Receive? && e.packet.message == RpcResponse(e.packet.message.requestId, f.outcome.body)
      ensures e.packet.message.requestId in s.table.outstanding
      ensures f.request == s.table.outstanding[e.packet.message.requestId]
    {
      NewFirings(s, e, s', f);
    }
    if Misleads(s, e) {
      var id, body := e.packet.message.requestId, e.packet.message.body;
      var f := Firing(s.table.outstanding[id], Success(body));
      assert s'.table.fired[|s.table.fired|] == f;
      assert !Replied(s', f.request, body);
    }
  }

  lemma NewFirings(s: State, e: Event, s': State, f: Firing)
    requires Step(s, e, s') && f in s'.table.fired && f !in s.table.fired && f.outcome.Success?
    ensures e.Receive? && e.packet.message == RpcResponse(e.packet.message.requestId, f.outcome.body)
    ensures e.packet.message.requestId in s.table.outstanding
    ensures f.request == s.table.outstanding[e.packet.message.requestId]
  {
  }

  /**
    Whatever ids are used again: callbacks are given only bodies the server replied for their
    requests, at all times of the run, if and only if no reply is ever taken for another request that
    the server has not given the same body.
   */
  lemma {:induction false} RunStaysTruthful(states: seq<State>, events: seq<Event>, n: nat)
    requires IsPath(states, events) && states[0] == INITIAL && n <= |events|
    ensures Labelled(states[n])
    ensures (forall i | 0 <= i <= n :: Truthful(states[i])) <==>
            forall i | 0 <= i < n :: !Misleads(states[i], events[i])
  {
    if n > 0 {
      RunStaysTruthful(states, events, n - 1);
      assert Step(states[n - 1], events[n - 1], states[n - 1 + 1]);
      if Truthful(states[n - 1]) {
        StepStaysTruthful(states[n - 1], events[n - 1], states[n]);
      }
    }
  }

  function Answered(id: Id, body: Body): State {
    State(Table(map[id := 0], []), [id], {0}, {}, {0}, {Packet(0, RpcResponse(id, body))})
  }

  function Completed(id: Id, body: Body): State {
    Answered(id, body).(table := Table(map[], [Firing(0, Success(body))]))
  }

  lemma OneMoreStep(states: seq<State>, events: seq<Event>, e: Event, s: State)
    requires IsPath(states, events) && Step(states[|events|], e, s)
    ensures IsPath(states + [s], events + [e])
  {
  }

  lemma FirstIsCompleted(id: Id, body: Body) returns (states: seq<State>, events: seq<Event>)
    ensures IsPath(states, events) && states[0] == INITIAL && states[|events|] == Completed(id, body)
    ensures events == [Send(id), Deliver(0), Answer(0, Reply(body)), Receive(Packet(0, RpcResponse(id, body)))]
  {
    var sent := State(Table(map[id := 0], []), [id], {0}, {}, {}, {});
    states, events := [INITIAL], [];
    OneMoreStep(states, events, Send(id), sent);
    states, events := states + [sent], events + [Send(id)];
    OneMoreStep(states, events, Deliver(0), sent.(received := {0}));
    states, events := states + [sent.(received := {0})], events + [Deliver(0)];
    OneMoreStep(states, events, Answer(0, Reply(body)), Answered(id, body));
    states, events := states + [Answered(id, body)], events + [Answer(0, Reply(body))];
    var reply := Receive(Packet(0, RpcResponse(id, body)));
    OneMoreStep(states, events, reply, Completed(id, body));
    states, events := states + [Completed(id, body)], events + [reply];
  }

  /** The id is free again, and the reply arrives once more. */
  lemma SecondIsCompleted(id: Id, body: Body) returns (again: State, wrong: State)
    ensures Step(Completed(id, body), Send(id), again) && Step(again, Receive(Packet(0, RpcResponse(id, body))), wrong)
    ensures |wrong.ids| == 2 && FutureOf(wrong.table.fired, 1) == Some(Success(body)) && !Replied(wrong, 1, body)
  {
    var done := Completed(id, body);
    again := done.(table := done.table.(outstanding := map[id := 1]), ids := [id, id], writing := {0, 1});
    wrong := again.(table := Table(map[], [Firing(0, Success(body)), Firing(1, Success(body))]));
    assert wrong.table.fired[1..] == [Firing(1, Success(body))];
  }

  /**
    An id that is used again, if only after its request was completed, lets a late duplicate of the
    first reply complete the second request, with a body the server never replied for that one.
   */
  lemma DuplicateCompletesAnother(id: Id, body: Body) returns (states: seq<State>, events: seq<Event>)
    ensures IsPath(states, events) && states[0] == INITIAL
    ensures forall i | 0 <= i < |events| && events[i].Send? :: events[i].id !in states[i].table.outstanding
    ensures var s := states[|events|];
            |s.ids| == 2 && FutureOf(s.table.fired, 1) == Some(Success(body)) && !Replied(s, 1, body)
  {
    var packet := Packet(0, RpcResponse(id, body));
    var first, start := FirstIsCompleted(id, body);
    var again, wrong := SecondIsCompleted(id, body);
    OneMoreStep(first, start, Send(id), again);
    OneMoreStep(first + [again], start + [Send(id)], Receive(packet), wrong);
    states, events := first + [again] + [wrong], start + [Send(id)] + [Receive(packet)];
  }
}
