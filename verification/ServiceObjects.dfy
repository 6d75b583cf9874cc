/** Services as objects in a tree, proved to compute the functions of `Services`. */
module ServiceObjects {
  import opened Services

  class ServiceNode {
    const composite: bool
    const onInit: Fault            // what the overriding code of a single service does
    const onStart: Fault
    const onStop: Fault
    const serviceList: seq<ServiceNode>
    var state: State
    ghost const height: nat
    ghost const repr: set<ServiceNode>

    /** The services below are a finite tree without sharing. */
    ghost predicate Tree()
      decreases height
    {
      && this in repr
      && (forall i | 0 <= i < |serviceList| ::
            && serviceList[i].height < height && serviceList[i].repr <= repr && this !in serviceList[i].repr
            && serviceList[i].Tree())
      && (forall i, j | 0 <= i < j < |serviceList| :: serviceList[i].repr !! serviceList[j].repr)
    }

    ghost function Model(): Service
      requires Tree()
      reads repr
      decreases height
    {
      if composite then
        Composite(state, seq(|serviceList|, i requires 0 <= i < |serviceList| reads repr => serviceList[i].Model()))
      else Single(state, onInit, onStart, onStop)
    }

    constructor Leaf(onInit: Fault, onStart: Fault, onStop: Fault)
      ensures Tree() && repr == {this} && Model() == Single(NOTINITED, onInit, onStart, onStop)
    {
      composite, serviceList, state := false, [], NOTINITED;
      this.onInit, this.onStart, this.onStop := onInit, onStart, onStop;
      height, repr := 0, {this};
    }

    constructor Composed(services: seq<ServiceNode>)
      requires forall i | 0 <= i < |services| :: services[i].Tree()
      requires forall i, j | 0 <= i < j < |services| :: services[i].repr !! services[j].repr
      ensures Tree() && serviceList == services && composite && state == NOTINITED
      ensures repr == {this} + Union(services)
    {
      composite, serviceList, state := true, services, NOTINITED;
      onInit, onStart, onStop := Fine, Fine, Fine;
      height, repr := MaxHeight(services) + 1, {this} + Union(services);
      new;
      HeightsAndReprs(services);
    }

    ghost static function Union(services: seq<ServiceNode>): set<ServiceNode> {
      if services == [] then {} else services[0].repr + Union(services[1..])
    }

    ghost static function MaxHeight(services: seq<ServiceNode>): nat {
      if services == [] then 0
      else var rest := MaxHeight(services[1..]); if services[0].height > rest then services[0].height else rest
    }

    static lemma {:induction false} HeightsAndReprs(services: seq<ServiceNode>)
      ensures forall i | 0 <= i < |services| ::
                services[i].height <= MaxHeight(services) && services[i].repr <= Union(services)
    {
      if services != [] {
        HeightsAndReprs(services[1..]);
      }
    }

    /** `AbstractService.init` and `start`: a change from one state to the next, or an exception. */
    method Change(from: State, to: State) returns (ok: bool)
      modifies this`state
      ensures ok == (old(state) == from) && state == if ok then to else old(state)
    {
      ok := state == from;
      if ok {
        state := to;
      }
    }

    method Init() returns (ok: bool)
      requires Tree()
      modifies repr`state
      ensures Model() == Services.Init(old(Model())).service && ok == Services.Init(old(Model())).ok
      decreases height, 1
    {
      if !composite {
        if onInit == Before {
          return false;
        }
        ok := Change(NOTINITED, INITED);
        return ok && onInit != After;
      }
      var f := InitChildren();
      if f < |serviceList| {
        return false;
      }
      ghost var tried := Model().children;
      ok := Change(NOTINITED, INITED);
      assert Model() == Composite(state, tried);
    }

    /** The loop of `init`; the result is the index of the service that threw, if one did. */
    method InitChildren() returns (f: nat)
      requires Tree() && composite
      modifies (repr - {this})`state
      ensures var cs := old(Model()).children;
              f == InitFailure(cs) && Model() == Composite(state, InitedTo(cs, f))
      decreases height, 0
    {
      ghost var cs := Model().children;
      for i := 0 to |serviceList|
        invariant forall j | 0 <= j < i ::
                    serviceList[j].Model() == Services.Init(cs[j]).service && Services.Init(cs[j]).ok
        invariant forall j | i <= j < |serviceList| :: serviceList[j].Model() == cs[j]
      {
        var ok := serviceList[i].Init();
        if !ok {
          InitFailureIsFirst(cs, i);
          assert Model().children == InitedTo(cs, i);
          return i;
        }
      }
      InitFailureIsFirst(cs, |cs|);
      assert Model().children == InitedTo(cs, |cs|);
      return |serviceList|;
    }

    /** Returns the calls made to the services of the list, in order. */
    method Start() returns (ok: bool, calls: seq<Call>)
      requires Tree()
      modifies repr`state
      ensures Outcome(Model(), ok, calls) == Services.Start(old(Model()))
      decreases height, 1
    {
      calls := [];
      if !composite {
        if onStart == Before {
          return false, [];
        }
        ok := Change(INITED, STARTED);
        return ok && onStart != After, [];
      }
      var f: nat;
      f, calls := StartChildren();
      ghost var tried := Model().children;
      if f < |serviceList| {
        var stops := StopFrom(f);
        return false, calls + stops;
      }
      ok := Change(INITED, STARTED);
      assert Model() == Composite(state, tried);
      // where this fails, the rollback starts at an index past the end and throws at once
    }

    /** The loop of `start`; the result is the index of the service that threw, if one did. */
    method StartChildren() returns (f: nat, calls: seq<Call>)
      requires Tree() && composite
      modifies (repr - {this})`state
      ensures var cs := old(Model()).children;
              && f == StartFailure(cs) && Model() == Composite(state, StartedTo(cs, f))
              && calls == StartCalls(if f < |cs| then f + 1 else |cs|)
      decreases height, 0
    {
      calls := [];
      ghost var cs := Model().children;
      for i := 0 to |serviceList|
        invariant calls == StartCalls(i)
        invariant forall j | 0 <= j < i ::
                    serviceList[j].Model() == Services.Start(cs[j]).service && Services.Start(cs[j]).ok
        invariant forall j | i <= j < |serviceList| :: serviceList[j].Model() == cs[j]
      {
        var ok, inner := serviceList[i].Start();
        StartCallsSnoc(i);
        calls := calls + [StartCall(i)];
        if !ok {
          StartFailureIsFirst(cs, i);
          f := i;
          assert Model().children == StartedTo(cs, f);
          return;
        }
      }
      StartFailureIsFirst(cs, |cs|);
      f := |serviceList|;
      assert Model().children == StartedTo(cs, f);
    }

    method Stop() returns (ok: bool, calls: seq<Call>)
      requires Tree()
      modifies repr`state
      ensures Outcome(Model(), ok, calls) == Services.Stop(old(Model()))
      decreases height, 1
    {
      calls := [];
      if !composite {
        if onStop == Before {
          return false, [];
        }
        SuperStop();
        return onStop != After, [];
      }
      if state == STOPPED {
        return true, [];
      }
      ghost var cs := Model().children;
      if |serviceList| > 0 {
        calls := StopFrom(|serviceList| - 1);
      }
      assert Model() == Composite(state, StoppedFirst(cs, |cs|));
      assert Services.Stop(old(Model())).service.children == StoppedFirst(cs, |cs|);
      SuperStop();
      return true, calls;
    }

    /** `AbstractService.stop`: only a started service changes. */
    method SuperStop()
      modifies this`state
      ensures state == if old(state) == STARTED then STOPPED else old(state)
    {
      if state == STOPPED || state == INITED || state == NOTINITED {
        return;
      }
      state := STOPPED;
    }

    /** Stops the services up to the last one started, in reverse order; what they throw is swallowed. */
    method StopFrom(last: nat) returns (calls: seq<Call>)
      requires Tree() && composite && last < |serviceList|
      modifies (repr - {this})`state
      ensures Model() == Composite(state, StoppedFirst(old(Model()).children, last + 1))
      ensures calls == StopCalls(last + 1)
      decreases height, 0
    {
      calls := [];
      ghost var cs := Model().children;
      for i := last + 1 downto 0
        invariant calls == StopCalls(last + 1)[..last + 1 - i]
        invariant forall j | 0 <= j < i || last < j < |serviceList| :: serviceList[j].Model() == cs[j]
        invariant forall j | i <= j <= last :: serviceList[j].Model() == Services.Stop(cs[j]).service
      {
        var ok, inner := serviceList[i].Stop();
        calls := calls + [StopCall(i)];
      }
      assert StopCalls(last + 1)[..last + 1] == StopCalls(last + 1);
    }
  }
}
