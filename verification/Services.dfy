/**
  The lifecycle of services: single ones, which may throw, and composites that start their children
  in order, roll back when one fails, and stop them in reverse order. Here on values; the class
  `ServiceNode` is proved to compute these functions.
 */
module Services {

  datatype State = NOTINITED | INITED | STARTED | STOPPED

  /** Whether an operation of a single service throws, before or after the change of state. */
  datatype Fault = Fine | Before | After

  datatype Service =
    | Single(state: State, onInit: Fault, onStart: Fault, onStop: Fault)
    | Composite(state: State, children: seq<Service>)

  datatype Call = StartCall(child: nat) | StopCall(child: nat)

  /** The service after an operation, whether it returned normally, and the calls to its children in order. */
  datatype Outcome = Outcome(service: Service, ok: bool, calls: seq<Call>)

  // ----- init

  function Init(s: Service): Outcome {
    match s
    case Single(state, onInit, onStart, onStop) =>
      if onInit == Before || state != NOTINITED then Outcome(s, false, [])
      else Outcome(Single(INITED, onInit, onStart, onStop), onInit != After, [])
    case Composite(state, children) =>
      var f := InitFailure(children);
      var tried := InitedTo(children, f);
      if f < |children| || state != NOTINITED then Outcome(Composite(state, tried), false, [])
      else Outcome(Composite(INITED, tried), true, [])
  }

  /** The children up to this one after their `init`. */
  function InitedTo(children: seq<Service>, f: nat): (tried: seq<Service>)
    ensures |tried| == |children|
  {
    seq(|children|, i requires 0 <= i < |children| => if i <= f then Init(children[i]).service else children[i])
  }

  /** The first child whose `init` throws. */
  function InitFailure(children: seq<Service>): (f: nat)
    ensures f <= |children|
  {
    if children == [] then 0
    else if !Init(children[0]).ok then 0
    else 1 + InitFailure(children[1..])
  }

  // ----- stop

  function Stop(s: Service): Outcome {
    match s
    case Single(state, onInit, onStart, onStop) =>
      if onStop == Before then Outcome(s, false, [])
      else Outcome(if state == STARTED then Single(STOPPED, onInit, onStart, onStop) else s, onStop != After, [])
    case Composite(state, children) =>
      if state == STOPPED then Outcome(s, true, [])
      else
        var stopped := seq(|children|, i requires 0 <= i < |children| => Stop(children[i]).service);
        Outcome(Composite(if state == STARTED then STOPPED else state, stopped), true, StopCalls(|children|))
  }

  /** Calls to the first `n` children, the last one first. */
  function StopCalls(n: nat): seq<Call> {
    seq(n, i requires 0 <= i < n => StopCall(n - 1 - i))
  }

  /** The first `n` children stopped; what they throw is swallowed. */
  function StoppedFirst(children: seq<Service>, n: nat): seq<Service> {
    seq(|children|, i requires 0 <= i < |children| => if i < n then Stop(children[i]).service else children[i])
  }

  // ----- start

  function Start(s: Service): Outcome {
    match s
    case Single(state, onInit, onStart, onStop) =>
      if onStart == Before || state != INITED then Outcome(s, false, [])
      else Outcome(Single(STARTED, onInit, onStart, onStop), onStart != After, [])
    case Composite(state, children) =>
      var f := StartFailure(children);
      var tried := StartedTo(children, f);
      if f < |children| then
        // the failed child is stopped as well
        Outcome(Composite(state, StoppedFirst(tried, f + 1)), false, StartCalls(f + 1) + StopCalls(f + 1))
      else if state == INITED then
        Outcome(Composite(STARTED, tried), true, StartCalls(|children|))
      else
        // the rollback begins past the last child, and fails at once
        Outcome(Composite(state, tried), false, StartCalls(|children|))
  }

  /** The children up to this one after their `start`. */
  function StartedTo(children: seq<Service>, f: nat): (tried: seq<Service>)
    ensures |tried| == |children|
  {
    seq(|children|, i requires 0 <= i < |children| => if i <= f then Start(children[i]).service else children[i])
  }

  function StartCalls(n: nat): seq<Call> {
    seq(n, i requires 0 <= i < n => StartCall(i))
  }

  lemma StartCallsSnoc(n: nat)
    ensures StartCalls(n + 1) == StartCalls(n) + [StartCall(n)]
  {
  }

  /** The first child whose `start` throws. */
  function StartFailure(children: seq<Service>): (f: nat)
    ensures f <= |children|
  {
    if children == [] then 0
    else if !Start(children[0]).ok then 0
    else 1 + StartFailure(children[1..])
  }

  lemma {:induction false} StartFailureIsFirst(children: seq<Service>, f: nat)
    requires f <= |children| && forall i | 0 <= i < f :: Start(children[i]).ok
    requires f < |children| ==> !Start(children[f]).ok
    ensures StartFailure(children) == f
    decreases f
  {
    if f > 0 {
      StartFailureIsFirst(children[1..], f - 1);
    }
  }

  lemma {:induction false} StartsBeforeFailure(children: seq<Service>, i: nat)
    requires i < |children|
    ensures i < StartFailure(children) ==> Start(children[i]).ok
    ensures i == StartFailure(children) ==> !Start(children[i]).ok
    decreases i
  {
    if i > 0 {
      StartsBeforeFailure(children[1..], i - 1);
    }
  }

  lemma {:induction false} InitFailureIsFirst(children: seq<Service>, f: nat)
    requires f <= |children| && forall i | 0 <= i < f :: Init(children[i]).ok
    requires f < |children| ==> !Init(children[f]).ok
    ensures InitFailure(children) == f
    decreases f
  {
    if f > 0 {
      InitFailureIsFirst(children[1..], f - 1);
    }
  }

  // ----- States of whole trees

  predicate All(s: Service, states: set<State>) {
    s.state in states && (s.Composite? ==> forall c | c in s.children :: All(c, states))
  }

  /** No service of the tree is started. */
  predicate NoneStarted(s: Service) {
    All(s, {NOTINITED, INITED, STOPPED})
  }

  /** Once a composite has been started, every service below it has been started as well. */
  predicate Coherent(s: Service) {
    s.Composite? ==>
      && (s.state in {STARTED, STOPPED} ==> forall c | c in s.children :: All(c, {STARTED, STOPPED}))
      && forall c | c in s.children :: Coherent(c)
  }

  /** No single service throws in `stop` before changing its state. */
  predicate StopsCleanly(s: Service) {
    match s
    case Single(_, _, _, onStop) => onStop != Before
    case Composite(_, children) => forall c | c in children :: StopsCleanly(c)
  }

  lemma {:induction false} AllWider(s: Service, states: set<State>, wider: set<State>)
    requires All(s, states) && states <= wider
    ensures All(s, wider)
  {
    if s.Composite? {
      forall c | c in s.children ensures All(c, wider) {
        AllWider(c, states, wider);
      }
    }
  }

  lemma {:induction false} AllBoth(s: Service, a: set<State>, b: set<State>)
    requires All(s, a) && All(s, b)
    ensures All(s, a * b)
  {
    if s.Composite? {
      forall c | c in s.children ensures All(c, a * b) {
        AllBoth(c, a, b);
      }
    }
  }

  // ----- Starting

  /** A normal return means that every service of the tree is started. */
  lemma {:induction false} StartedMeansAll(s: Service)
    requires Start(s).ok
    ensures All(Start(s).service, {STARTED})
  {
    if s.Composite? {
      var tried := Start(s).service.children;
      forall i | 0 <= i < |s.children| ensures All(tried[i], {STARTED}) {
        StartsBeforeFailure(s.children, i);
        StartedMeansAll(s.children[i]);
      }
    }
  }

  /** Starting a tree whose services are all stopped fails and changes nothing. */
  lemma {:induction false} StartOfStopped(s: Service)
    requires All(s, {STOPPED})
    ensures !Start(s).ok && Start(s).service == s
  {
    if s.Composite? && s.children != [] {
      StartOfStopped(s.children[0]);
      StopOfNoneStarted(s.children[0]);
    }
  }

  /** Stopping a tree without a started service changes nothing. */
  lemma {:induction false} StopOfNoneStarted(s: Service)
    requires NoneStarted(s) || All(s, {STOPPED})
    ensures Stop(s).service == s
  {
    if s.Composite? {
      forall i | 0 <= i < |s.children| ensures Stop(s.children[i]).service == s.children[i] {
        StopOfNoneStarted(s.children[i]);
      }
    }
  }

  /** A stop undoes a start, complete or not. */
  lemma {:induction false} StopUndoesStart(s: Service)
    requires NoneStarted(s) && Coherent(s) && StopsCleanly(s)
    ensures NoneStarted(Stop(Start(s).service).service)
  {
    if s.Composite? {
      if s.state == STOPPED {
        AllChildrenStopped(s);
        StartOfStopped(s);
      } else {
        var started := Start(s).service;
        var after := Stop(started).service;
        forall i | 0 <= i < |s.children| ensures NoneStarted(after.children[i]) {
          var c := s.children[i];
          StopUndoesStart(c);
          StopOfNoneStarted(c);
          StopOfNoneStarted(Stop(Start(c).service).service);
        }
      }
    }
  }

  lemma AllChildrenStopped(s: Service)
    requires s.Composite? && s.state == STOPPED && NoneStarted(s) && Coherent(s)
    ensures All(s, {STOPPED})
  {
    forall c | c in s.children ensures All(c, {STOPPED}) {
      AllBoth(c, {NOTINITED, INITED, STOPPED}, {STARTED, STOPPED});
      assert {NOTINITED, INITED, STOPPED} * {STARTED, STOPPED} == {STOPPED};
    }
  }

  /** Starting is all or nothing: everything is started, or the call failed and nothing is. */
  ghost predicate AllOrNothing(s: Service) {
    if Start(s).ok then All(Start(s).service, {STARTED}) else NoneStarted(Start(s).service)
  }

  /** A failed child: the children from it down to the first are stopped, once each and in that order. */
  lemma FailedChildIsRolledBack(s: Service)
    requires s.Composite? && StartFailure(s.children) < |s.children|
    ensures var f, o := StartFailure(s.children), Start(s);
            && !o.ok && o.service.state == s.state
            && o.calls == seq(f + 1, i requires 0 <= i => StartCall(i))
                          + seq(f + 1, i requires 0 <= i <= f => StopCall(f - i))
            && (forall i | 0 <= i <= f :: o.service.children[i] == Stop(Start(s.children[i]).service).service)
            && (forall i | f < i < |s.children| :: o.service.children[i] == s.children[i])
            && !Start(s.children[f]).ok && (forall i | 0 <= i < f :: Start(s.children[i]).ok)
  {
    var f := StartFailure(s.children);
    forall i | 0 <= i <= f ensures if i < f then Start(s.children[i]).ok else !Start(s.children[i]).ok {
      StartsBeforeFailure(s.children, i);
    }
    assert StopCalls(f + 1) == seq(f + 1, i requires 0 <= i <= f => StopCall(f - i));
    assert StartCalls(f + 1) == seq(f + 1, i requires 0 <= i => StartCall(i));
  }

  /** The composite itself cannot start: its children have, and no rollback happens. */
  lemma FailureAfterChildrenIsNotRolledBack(s: Service)
    requires s.Composite? && s.state != INITED && StartFailure(s.children) == |s.children|
    ensures !Start(s).ok && Start(s).calls == StartCalls(|s.children|)
    ensures forall i | 0 <= i < |s.children| :: All(Start(s).service.children[i], {STARTED})
  {
    forall i | 0 <= i < |s.children| ensures All(Start(s.children[i]).service, {STARTED}) {
      StartsBeforeFailure(s.children, i);
      StartedMeansAll(s.children[i]);
    }
  }

  /**
    For a composite below which nothing is started, starting is all or nothing if and only if it is
    not the case that the composite is in the wrong state while it has children that all start.
   */
  lemma StartIsAllOrNothing(s: Service)
    requires s.Composite? && NoneStarted(s) && Coherent(s) && StopsCleanly(s)
    ensures AllOrNothing(s) <==>
            s.state == INITED || s.children == [] || StartFailure(s.children) < |s.children|
  {
    var o, f := Start(s), StartFailure(s.children);
    if o.ok {
      StartedMeansAll(s);
    } else if f < |s.children| {
      FailedChildIsRolledBack(s);
      forall i | 0 <= i < |s.children| ensures NoneStarted(o.service.children[i]) {
        StopUndoesStart(s.children[i]);
      }
    } else if s.children != [] {
      FailureAfterChildrenIsNotRolledBack(s);
      var c := o.service.children[0];
      assert All(c, {STARTED}) && !NoneStarted(c) && c in o.service.children;
      assert !NoneStarted(o.service);
    }
  }

  /** A stopped composite above a service that starts starts it, throws, and does not stop it again. */
  lemma StoppedAboveStarted(child: Service)
    requires Start(child).ok
    ensures var o := Start(Composite(STOPPED, [child]));
            && !o.ok && |o.service.children| == 1 && All(o.service.children[0], {STARTED})
            && Stop(o.service).service == o.service
  {
    var inner := Composite(STOPPED, [child]);
    StartFailureIsFirst(inner.children, 1);
    FailureAfterChildrenIsNotRolledBack(inner);
    var started := Start(inner).service.children;
    assert All(started[0], {STARTED});
  }

  /**
    Without coherence the rollback may miss a service: whatever starts below a stopped composite
    stays started after the composite above that one has failed and rolled back.
   */
  lemma StoppedCompositeHidesStarted(child: Service)
    requires NoneStarted(child) && StopsCleanly(child) && Start(child).ok
    ensures var s := Composite(INITED, [Composite(STOPPED, [child])]);
            NoneStarted(s) && StopsCleanly(s) && !Start(s).ok && !NoneStarted(Start(s).service)
  {
    var inner := Composite(STOPPED, [child]);
    var s := Composite(INITED, [inner]);
    StoppedAboveStarted(child);
    StartFailureIsFirst(s.children, 0);
    FailedChildIsRolledBack(s);
    var after := Start(s).service.children[0];
    assert after == Start(inner).service;
    var hidden := after.children[0];
    assert hidden in after.children && after in Start(s).service.children;
    assert !NoneStarted(hidden) && !NoneStarted(after);
  }

  // ----- Runs

  datatype Op = InitOp | StartOp | StopOp

  function Apply(s: Service, op: Op): Service {
    match op
    case InitOp => Init(s).service
    case StartOp => Start(s).service
    case StopOp => Stop(s).service
  }

  /** An operation called on the service at this path. */
  function ApplyAt(s: Service, path: seq<nat>, op: Op): Service
    decreases |path|
  {
    if path == [] then Apply(s, op)
    else if s.Single? || path[0] >= |s.children| then s
    else s.(children := s.children[path[0] := ApplyAt(s.children[path[0]], path[1..], op)])
  }

  function ApplyAll(s: Service, ops: seq<(seq<nat>, Op)>): Service
    decreases |ops|
  {
    if ops == [] then s else ApplyAll(ApplyAt(s, ops[0].0, ops[0].1), ops[1..])
  }

  const SETTLED: set<State> := {STARTED, STOPPED}

  lemma {:induction false} StopKeeps(s: Service)
    ensures Coherent(s) ==> Coherent(Stop(s).service)
    ensures All(s, SETTLED) ==> All(Stop(s).service, SETTLED)
  {
    if s.Composite? && s.state != STOPPED {
      var after := Stop(s).service;
      forall i | 0 <= i < |s.children|
        ensures Coherent(s.children[i]) ==> Coherent(after.children[i])
        ensures All(s.children[i], SETTLED) ==> All(after.children[i], SETTLED)
      {
        StopKeeps(s.children[i]);
      }
    }
  }

  lemma {:induction false} StartKeeps(s: Service)
    ensures Coherent(s) ==> Coherent(Start(s).service)
    ensures All(s, SETTLED) ==> All(Start(s).service, SETTLED)
  {
    if s.Composite? {
      var after := Start(s).service;
      forall i | 0 <= i < |s.children|
        ensures Coherent(s.children[i]) ==> Coherent(after.children[i])
        ensures All(s.children[i], SETTLED) ==> All(after.children[i], SETTLED)
      {
        StartKeeps(s.children[i]);
        StopKeeps(Start(s.children[i]).service);
      }
      if Start(s).ok {
        StartedMeansAll(s);
        forall c | c in after.children ensures All(c, SETTLED) {
          AllWider(c, {STARTED}, SETTLED);
        }
      }
    }
  }

  lemma {:induction false} InitKeeps(s: Service)
    ensures Coherent(s) ==> Coherent(Init(s).service)
    ensures All(s, SETTLED) ==> All(Init(s).service, SETTLED)
  {
    if s.Composite? {
      var after := Init(s).service;
      forall i | 0 <= i < |s.children|
        ensures Coherent(s.children[i]) ==> Coherent(after.children[i])
        ensures All(s.children[i], SETTLED) ==> All(after.children[i], SETTLED)
      {
        InitKeeps(s.children[i]);
      }
    }
  }

  lemma {:induction false} ApplyAtKeeps(s: Service, path: seq<nat>, op: Op)
    ensures Coherent(s) ==> Coherent(ApplyAt(s, path, op))
    ensures All(s, SETTLED) ==> All(ApplyAt(s, path, op), SETTLED)
    decreases |path|
  {
    if path == [] {
      match op
      case InitOp => InitKeeps(s);
      case StartOp => StartKeeps(s);
      case StopOp => StopKeeps(s);
    } else if s.Composite? && path[0] < |s.children| {
      var c := s.children[path[0]];
      assert c in s.children;
      ApplyAtKeeps(c, path[1..], op);
      var after := ApplyAt(s, path, op);
      forall d | d in after.children ensures d in s.children || d == ApplyAt(c, path[1..], op) {
      }
    }
  }

  /** Whatever is called on whichever services of a new tree, in whatever order, the tree stays coherent. */
  lemma {:induction false} RunsAreCoherent(s: Service, ops: seq<(seq<nat>, Op)>)
    requires All(s, {NOTINITED}) || Coherent(s)
    ensures Coherent(ApplyAll(s, ops))
    decreases |ops|
  {
    if !Coherent(s) {
      NewIsCoherent(s);
    }
    if ops != [] {
      ApplyAtKeeps(s, ops[0].0, ops[0].1);
      RunsAreCoherent(ApplyAt(s, ops[0].0, ops[0].1), ops[1..]);
    }
  }

  lemma {:induction false} NewIsCoherent(s: Service)
    requires All(s, {NOTINITED})
    ensures Coherent(s)
  {
    if s.Composite? {
      forall c | c in s.children ensures Coherent(c) {
        NewIsCoherent(c);
      }
    }
  }
}
