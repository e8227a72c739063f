/**
 What every event keeps, whatever the peer sends and in whatever order: the list nodes are
 conserved, and no completion callback is called more often than it was registered.
 */
module BuilderInvariants {
  import opened Wrappers
  import opened GattContainer
  import opened ServiceBuilder

  /** The peer's answers, one response entry at a time. */
  datatype Event =
    | ServiceEvent(error: ErrorCode, first: Handle, last: Handle, uuid: Uuid, responseEnd: bool, reaction: Reaction)
    | CharacteristicEvent(error: ErrorCode, declaration: Handle, value: Handle, uuid: Uuid, responseEnd: bool,
                          stray: Handle, reaction: Reaction)
    | DescriptorEvent(error: ErrorCode, handle: Handle, responseEnd: bool, stray: Handle, reaction: Reaction)

  function Deliver(b: Builder, e: Event): Outcome {
    match e
    case ServiceEvent(error, first, last, uuid, responseEnd, reaction) =>
      ServiceDiscovered(b, error, first, last, uuid, responseEnd, reaction)
    case CharacteristicEvent(error, declaration, value, uuid, responseEnd, stray, reaction) =>
      CharacteristicDiscovered(b, error, declaration, value, uuid, responseEnd, stray, reaction)
    case DescriptorEvent(error, handle, responseEnd, stray, reaction) =>
      DescriptorDiscovered(b, error, handle, responseEnd, stray, reaction)
  }

  function DeliverAll(b: Builder, events: seq<Event>): Outcome
    decreases |events|
  {
    if events == [] then Next(b)
    else
      var next := Deliver(b, events[0]);
      if next.Fault? then Fault else DeliverAll(next.builder, events[1..])
  }

  // ----- The engine and its containers -----

  /** The engine, all containers discoveries are made into, and the one the engine holds. */
  datatype World = World(builder: Builder, using: Option<nat>, containers: seq<seq<Service>>) {
    ghost predicate Synced() {
      match using
      case None => builder.container == None
      case Some(c) => c < |containers| && builder.container == Some(containers[c])
    }
  }

  datatype WorldEvent =
    | Started(container: nat, first: Handle, last: Handle, notify: Option<Registration>, accepted: bool)
    | Delivered(event: Event)

  /** The containers after the engine has changed the one it holds. */
  function Stored(w: World, b: Builder): seq<seq<Service>> {
    if w.using.Some? && w.using.value < |w.containers| && b.container.Some? then
      w.containers[w.using.value := b.container.value]
    else w.containers
  }

  /** `None` is undefined behaviour; a container that does not exist cannot be passed. */
  function StepWorld(w: World, e: WorldEvent): Option<World> {
    match e
    case Started(container, first, last, notify, accepted) =>
      if container >= |w.containers| then Some(w)
      else
        var b := DiscoverServices(w.builder, w.containers[container], first, last, notify, accepted);
        Some(w.(builder := b, using := if accepted then Some(container) else w.using))
    case Delivered(event) =>
      match Deliver(w.builder, event)
      case Fault => None
      case Next(b) => Some(w.(builder := b, containers := Stored(w, b)))
  }

  function RunWorld(w: World, events: seq<WorldEvent>): Option<World>
    decreases |events|
  {
    if events == [] then Some(w)
    else
      var next := StepWorld(w, events[0]);
      if next.None? then None else RunWorld(next.value, events[1..])
  }

  // ----- Errors, refusals and reactions, one event at a time -----

  /**
   An error ends the discovery: the callback is called with that error, and nothing else happens; without a
   callback nothing does.
   */
  lemma FailureReported(b: Builder, e: Event, code: nat)
    requires e.error == Failure(code) && e.reaction == Return
    ensures b.completion.Some? ==>
              Deliver(b, e) == Next(b.(completion := None,
                                       calls := b.calls + [Notified(b.completion.value, Failure(code))]))
    ensures b.completion.None? ==> Deliver(b, e) == Next(b)
  {
  }

  /** A refused request changes nothing but the log of calls. */
  lemma RefusedStart(b: Builder, services: seq<Service>, first: Handle, last: Handle, notify: Option<Registration>)
    ensures DiscoverServices(b, services, first, last, notify, false)
         == b.(calls := b.calls + [Requested(PrimaryServices(first, last))])
  {
  }

  /** An accepted one replaces container, range and callback. */
  lemma AcceptedStart(b: Builder, services: seq<Service>, first: Handle, last: Handle, notify: Option<Registration>)
    ensures DiscoverServices(b, services, first, last, notify, true)
         == Builder(b.free, Some(services), first, last, b.cursor, notify,
                    b.calls + [Requested(PrimaryServices(first, last))])
  {
  }

  /**
   What a callback does before it returns happens after everything else the event causes, and only if the
   callback is called: an event is the same event with an idle callback, then the reaction.
   */
  lemma ReactionFollows(b: Builder, e: Event)
    ensures Deliver(b, e) ==
            match Deliver(b, e.(reaction := Return))
            case Fault => Fault
            case Next(b') => Next(if b.completion.Some? && b'.completion.None? then React(b', e.reaction) else b')
  {
    hide NextOpen, HandleRange, Decrement, Increment, FindService;
  }

  /** A restart from inside the callback is a discovery started into the same container. */
  lemma RestartIsStart(b: Builder, first: Handle, last: Handle, notify: Option<Registration>, accepted: bool)
    requires b.container.Some?
    ensures React(b, Restart(first, last, notify, accepted))
         == b.(rangeFirst := if accepted then first else b.rangeFirst, rangeLast := if accepted then last
               else b.rangeLast,
               completion := if accepted then notify else b.completion,
               calls := b.calls + [Requested(PrimaryServices(first, last))])
    ensures React(b, Return) == b
  {
  }

  /** That nothing was found ends the response, whatever else the event carries. */
  lemma AbsenceEndsResponse(b: Builder, first: Handle, last: Handle, uuid: Uuid, end: bool, stray: Handle,
                            reaction: Reaction)
    ensures Deliver(b, ServiceEvent(AttributeNotFound, first, last, uuid, end, reaction))
         == Next(b.(calls := b.calls + [Requested(Characteristics(b.rangeFirst, b.rangeLast))]))
    ensures Deliver(b, CharacteristicEvent(AttributeNotFound, first, last, uuid, end, stray, reaction))
         == Deliver(b, CharacteristicEvent(AttributeNotFound, 0, 0, 0, true, stray, reaction))
    ensures Deliver(b, DescriptorEvent(AttributeNotFound, first, end, stray, reaction))
         == Deliver(b, DescriptorEvent(AttributeNotFound, 0, true, stray, reaction))
  {
  }

  /** Without descriptors at the cursor the engine goes on to the next open characteristic, or finishes. */
  lemma AbsenceOfDescriptors(b: Builder, p: Position, stray: Handle)
    requires b.container.Some? && b.cursor == Some(p) && At(b.container.value, p)
    ensures var services := b.container.value;
            Increment(services, p) == End(services) || At(services, Increment(services, p))
    ensures var services := b.container.value;
            var q := NextOpen(services, Increment(services, p), stray);
            var o := Deliver(b, DescriptorEvent(AttributeNotFound, 0, true, stray, Return));
            if q != End(services) then
              var range := HandleRange(services, q, stray);
              o == Next(b.(cursor := Some(q), calls := b.calls + [Requested(Descriptors(range.0, range.1))]))
            else if services[|services| - 1].characteristics == [] then o == Fault
            else
              && o.Next? && o.builder.container == b.container && o.builder.free == b.free
                 && o.builder.completion == None
              && o.builder.calls
                 == b.calls + match b.completion case None => [] case Some(r) => [Notified(r, AttributeNotFound)]
  {
    IncrementIsLeastAfter(b.container.value, p);
  }

  // ----- The log of calls -----

  /** The same builder with another log before what it calls from now on. */
  function Relogged(o: Outcome, before: nat, log: seq<OutCall>): Outcome
    requires o.Next? ==> before <= |o.builder.calls|
  {
    match o
    case Fault => Fault
    case Next(b) => Next(b.(calls := log + b.calls[before..]))
  }

  /** Nothing depends on the log: it is only added to. */
  ghost predicate LogIndependent(b: Builder, o: Outcome, log: seq<OutCall>, o': Outcome) {
    && (o.Next? ==> |b.calls| <= |o.builder.calls| && o.builder.calls[..|b.calls|] == b.calls)
    && o' == Relogged(o, |b.calls|, log)
  }

  lemma DiscoverLogs(b: Builder, services: seq<Service>, first: Handle, last: Handle, notify: Option<Registration>,
                     accepted: bool, log: seq<OutCall>)
    ensures LogIndependent(b, Next(DiscoverServices(b, services, first, last, notify, accepted)), log,
                           Next(DiscoverServices(b.(calls := log), services, first, last, notify, accepted)))
  {
    var out := [Requested(PrimaryServices(first, last))];
    assert (b.calls + out)[|b.calls|..] == out;
  }

  lemma NotifyLogs(b: Builder, error: ErrorCode, reaction: Reaction, log: seq<OutCall>)
    ensures LogIndependent(b, Next(Notify(b, error, reaction)), log, Next(Notify(b.(calls := log), error, reaction)))
  {
    if b.completion.None? {
      assert b.calls[|b.calls|..] == [] && log + [] == log;
    } else {
      var out := [Notified(b.completion.value, error)];
      assert (b.calls + out)[|b.calls|..] == out;
      if reaction.Restart? && b.container.Some? {
        var asked := [Requested(PrimaryServices(reaction.first, reaction.last))];
        assert ((b.calls + out) + asked)[|b.calls|..] == out + asked;
        assert (log + out) + asked == log + (out + asked);
      }
    }
  }

  lemma AskLogs(b: Builder, request: Request, log: seq<OutCall>)
    ensures LogIndependent(b, Next(Ask(b, request)), log, Next(Ask(b.(calls := log), request)))
  {
    assert (b.calls + [Requested(request)])[|b.calls|..] == [Requested(request)];
  }

  lemma QuietLogs(b: Builder, log: seq<OutCall>)
    ensures LogIndependent(b, Next(b), log, Next(b.(calls := log)))
  {
    assert b.calls[|b.calls|..] == [] && log + [] == log;
  }

  lemma FromLogs(b: Builder, p: Position, stray: Handle, error: ErrorCode, reaction: Reaction, log: seq<OutCall>)
    requires b.container.Some?
    ensures LogIndependent(b, DescriptorsFrom(b, p, stray, error, reaction), log,
                           DescriptorsFrom(b.(calls := log), p, stray, error, reaction))
  {
    var services := b.container.value;
    if p == End(services) || At(services, p) {
      var open := NextOpen(services, p, stray);
      var b' := b.(cursor := Some(open));
      if open == End(services) {
        if EndsInCharacteristic(services) {
          var last := LastHandle(CharacteristicAt(services, Decrement(services, End(services))));
          hide Notify;
          NotifyLogs(b'.(rangeLast := last), error, reaction, log);
        }
      } else {
        var range := HandleRange(services, open, stray);
        hide Ask;
        AskLogs(b', Descriptors(range.0, range.1), log);
      }
    }
  }

  lemma ServiceLogs(b: Builder, e: Event, log: seq<OutCall>)
    requires e.ServiceEvent?
    ensures LogIndependent(b, Deliver(b, e), log, Deliver(b.(calls := log), e))
  {
    var placed := if e.error.Success? then PlaceService(b, e.first, e.uuid) else Next(b);
    var last := if e.error.Success? then e.last else HANDLE_MAXIMUM;
    hide Notify, Ask, LogIndependent;
    NotifyLogs(b, e.error, e.reaction, log);
    if placed.Next? {
      QuietLogs(placed.builder, log);
      AskLogs(placed.builder, Characteristics(b.rangeFirst, b.rangeLast), log);
      AskLogs(placed.builder, PrimaryServices(HandleAfter(last), b.rangeLast), log);
      SameLog(b, placed.builder);
    }
    FaultLogs(b, log);
  }

  lemma FaultLogs(b: Builder, log: seq<OutCall>)
    ensures LogIndependent(b, Fault, log, Fault)
  {
  }

  lemma SameLog(b: Builder, b1: Builder)
    ensures b1.calls == b.calls ==>
              forall o, log, o' :: LogIndependent(b1, o, log, o') <==> LogIndependent(b, o, log, o')
  {
  }

  lemma CharacteristicLogs(b: Builder, e: Event, log: seq<OutCall>)
    requires e.CharacteristicEvent?
    ensures LogIndependent(b, Deliver(b, e), log, Deliver(b.(calls := log), e))
  {
    var placed := if e.error.Success? then PlaceCharacteristic(b, e.declaration, e.value, e.uuid) else Next(b);
    var last := if e.error.Success? then e.value else HANDLE_MAXIMUM;
    hide Notify, Ask, LogIndependent, DescriptorsFrom;
    NotifyLogs(b, e.error, e.reaction, log);
    if placed.Next? {
      QuietLogs(placed.builder, log);
      AskLogs(placed.builder, Characteristics(HandleAfter(last), b.rangeLast), log);
      if placed.builder.container.Some? {
        FromLogs(placed.builder, Begin(placed.builder.container.value), e.stray, e.error, e.reaction, log);
      }
      SameLog(b, placed.builder);
    }
    FaultLogs(b, log);
  }

  lemma DescriptorLogs(b: Builder, e: Event, log: seq<OutCall>)
    requires e.DescriptorEvent?
    ensures LogIndependent(b, Deliver(b, e), log, Deliver(b.(calls := log), e))
  {
    var placed := if e.error.Success? then PlaceDescriptor(b, e.handle) else Next(b);
    hide Notify, LogIndependent, DescriptorsFrom, Increment;
    NotifyLogs(b, e.error, e.reaction, log);
    if placed.Next? {
      var b1 := placed.builder;
      QuietLogs(b1, log);
      if b1.container.Some? && b1.cursor.Some? && At(b1.container.value, b1.cursor.value) {
        FromLogs(b1, Increment(b1.container.value, b1.cursor.value), e.stray, e.error, e.reaction, log);
      }
      SameLog(b, b1);
    }
    FaultLogs(b, log);
  }

  lemma DeliverLogs(b: Builder, e: Event, log: seq<OutCall>)
    ensures LogIndependent(b, Deliver(b, e), log, Deliver(b.(calls := log), e))
  {
    hide Deliver, LogIndependent;
    match e
    case ServiceEvent(_, _, _, _, _, _) => ServiceLogs(b, e, log);
    case CharacteristicEvent(_, _, _, _, _, _, _) => CharacteristicLogs(b, e, log);
    case DescriptorEvent(_, _, _, _, _) => DescriptorLogs(b, e, log);
  }

  lemma {:induction false} DeliverAllLogs(b: Builder, events: seq<Event>, log: seq<OutCall>)
    ensures LogIndependent(b, DeliverAll(b, events), log, DeliverAll(b.(calls := log), events))
    decreases |events|
  {
    if events == [] {
      QuietLogs(b, log);
    } else {
      DeliverLogs(b, events[0], log);
      var next := Deliver(b, events[0]);
      if next.Next? {
        var b1 := next.builder;
        DeliverAllLogs(b1, events[1..], log + b1.calls[|b.calls|..]);
        hide Deliver;
        var o := DeliverAll(b1, events[1..]);
        if o.Next? {
          LogsCompose(b.calls, b1.calls, o.builder.calls, log);
        }
      }
    }
  }

  lemma LogsCompose(a: seq<OutCall>, b: seq<OutCall>, c: seq<OutCall>, log: seq<OutCall>)
    requires |a| <= |b| && b[..|a|] == a && |b| <= |c| && c[..|b|] == b
    ensures |a| <= |c| && c[..|a|] == a
    ensures (log + b[|a|..]) + c[|b|..] == log + c[|a|..]
  {
    assert c[..|a|] == c[..|b|][..|a|];
    assert c[|a|..] == c[..|b|][|a|..] + c[|b|..];
  }

  /** A discovery that is refused while another runs leaves the other one's whole course as it was. */
  lemma RefusedStartHarmless(b: Builder, services: seq<Service>, first: Handle, last: Handle,
                             notify: Option<Registration>, events: seq<Event>)
    ensures var refused := DiscoverServices(b, services, first, last, notify, false);
            LogIndependent(b, DeliverAll(b, events), b.calls + [Requested(PrimaryServices(first, last))],
                           DeliverAll(refused, events))
  {
    RefusedStart(b, services, first, last, notify);
    DeliverAllLogs(b, events, b.calls + [Requested(PrimaryServices(first, last))]);
  }

  // ----- Node conservation -----

  /** The sum of `f` over the elements. */
  ghost function Total<T>(s: seq<T>, f: T -> nat): nat {
    if s == [] then 0 else f(s[0]) + Total(s[1..], f)
  }

  lemma {:induction false} TotalAppend<T>(s: seq<T>, x: T, f: T -> nat)
    ensures Total(s + [x], f) == Total(s, f) + f(x)
  {
    if s == [] {
      assert s + [x] == [x] && [x][1..] == [];
    } else {
      assert (s + [x])[1..] == s[1..] + [x];
      TotalAppend(s[1..], x, f);
    }
  }

  lemma {:induction false} TotalUpdate<T>(s: seq<T>, i: nat, x: T, f: T -> nat)
    requires i < |s|
    ensures Total(s[i := x], f) + f(s[i]) == Total(s, f) + f(x)
  {
    if i == 0 {
      assert s[i := x][1..] == s[1..];
    } else {
      assert s[i := x][1..] == s[1..][i - 1 := x];
      TotalUpdate(s[1..], i - 1, x, f);
    }
  }

  // How often a node occurs in an element of each kind of list.

  ghost function InPool(node: NodeId): NodeId -> nat {
    n => if n == node then 1 else 0
  }

  ghost function InDescriptor(node: NodeId): Descriptor -> nat {
    (d: Descriptor) => if d.node == node then 1 else 0
  }

  ghost function InDescriptors(node: NodeId): Characteristic -> nat {
    (c: Characteristic) => Total(c.descriptors, InDescriptor(node))
  }

  ghost function InCharacteristic(node: NodeId): Characteristic -> nat {
    (c: Characteristic) => (if c.node == node then 1 else 0) + Total(c.descriptors, InDescriptor(node))
  }

  ghost function AsService(node: NodeId): Service -> nat {
    (s: Service) => if s.node == node then 1 else 0
  }

  ghost function WithinService(node: NodeId): Service -> nat {
    (s: Service) => Total(s.characteristics, InCharacteristic(node))
  }

  ghost function DescriptorsOfService(node: NodeId): Service -> nat {
    (s: Service) => Total(s.characteristics, InDescriptors(node))
  }

  ghost function InContainer(b: Builder): seq<Service> {
    if b.container.None? then [] else b.container.value
  }

  /** Occurrences of a node in the service pool and as a service of the container. */
  ghost function ServiceStock(b: Builder, node: NodeId): nat {
    Total(b.free.services, InPool(node)) + Total(InContainer(b), AsService(node))
  }

  /** Occurrences of a node in the characteristic pool and within the container's services. */
  ghost function CharacteristicStock(b: Builder, node: NodeId): nat {
    Total(b.free.characteristics, InPool(node)) + Total(InContainer(b), WithinService(node))
  }

  /** The intended counterpart for descriptors. */
  ghost function DescriptorStock(b: Builder, node: NodeId): nat {
    Total(b.free.descriptors, InPool(node)) + Total(InContainer(b), DescriptorsOfService(node))
  }

  ghost predicate SameStock(b: Builder, b': Builder, node: NodeId) {
    && ServiceStock(b', node) == ServiceStock(b, node)
    && CharacteristicStock(b', node) == CharacteristicStock(b, node)
    && b'.free.descriptors == b.free.descriptors
  }

  /** Requests, notifications and bookkeeping move no node. */
  ghost predicate Untouched(b: Builder, b': Builder) {
    b'.free == b.free && b'.container == b.container
  }

  lemma NotifyMovesNothing(b: Builder, error: ErrorCode, reaction: Reaction)
    ensures Untouched(b, Notify(b, error, reaction))
  {
  }

  lemma ContinuationsMoveNothing(b: Builder, last: Handle, stray: Handle, error: ErrorCode, reaction: Reaction)
    ensures Untouched(b, ServicesContinue(b, last))
    ensures var o := CharacteristicsContinue(b, last, stray, error, reaction); o.Next? ==> Untouched(b, o.builder)
    ensures var o := DescriptorsContinue(b, stray, error, reaction); o.Next? ==> Untouched(b, o.builder)
  {
    if b.container.Some? {
      FromMovesNothing(b, Begin(b.container.value), stray, error, reaction);
      if b.cursor.Some? && At(b.container.value, b.cursor.value) {
        FromMovesNothing(b, Increment(b.container.value, b.cursor.value), stray, error, reaction);
      }
    }
    hide DescriptorsFrom, Increment;
  }

  lemma FromMovesNothing(b: Builder, p: Position, stray: Handle, error: ErrorCode, reaction: Reaction)
    requires b.container.Some?
    ensures var o := DescriptorsFrom(b, p, stray, error, reaction); o.Next? ==> Untouched(b, o.builder)
  {
  }

  lemma PlaceServiceConserves(b: Builder, first: Handle, uuid: Uuid, node: NodeId)
    ensures var o := PlaceService(b, first, uuid); o.Next? ==> SameStock(b, o.builder, node)
  {
    if b.free.services != [] && b.container.Some? {
      var service := Service(b.free.services[0], first, uuid, []);
      TotalAppend(b.container.value, service, AsService(node));
      TotalAppend(b.container.value, service, WithinService(node));
    }
  }

  lemma PlaceCharacteristicConserves(b: Builder, declaration: Handle, value: Handle, uuid: Uuid, node: NodeId)
    ensures var o := PlaceCharacteristic(b, declaration, value, uuid); o.Next? ==> SameStock(b, o.builder, node)
  {
    if b.container.Some? && b.free.characteristics != [] {
      var services := b.container.value;
      var assoc := FindService(services, declaration);
      if assoc.Some? {
        var c := Characteristic(b.free.characteristics[0], declaration, value, uuid, []);
        AddingCharacteristic(services, assoc.value, c, node);
      }
    }
  }

  lemma AddingCharacteristic(services: seq<Service>, s: nat, c: Characteristic, node: NodeId)
    requires s < |services|
    ensures var services' := AddCharacteristic(services, s, c);
            && Total(services', AsService(node)) == Total(services, AsService(node))
            && Total(services', WithinService(node)) == Total(services, WithinService(node)) + InCharacteristic(node)(c)
  {
    var service := services[s].(characteristics := services[s].characteristics + [c]);
    TotalAppend(services[s].characteristics, c, InCharacteristic(node));
    TotalUpdate(services, s, service, AsService(node));
    TotalUpdate(services, s, service, WithinService(node));
  }

  lemma PlaceDescriptorConserves(b: Builder, handle: Handle, node: NodeId)
    ensures var o := PlaceDescriptor(b, handle); o.Next? ==> SameStock(b, o.builder, node)
  {
    var o := PlaceDescriptor(b, handle);
    if b.free.descriptors != [] && o.Next? {
      AddingDescriptor(b.container.value, b.cursor.value, Descriptor(b.free.characteristics[0], handle), node);
    }
  }

  lemma AddingDescriptor(services: seq<Service>, p: Position, d: Descriptor, node: NodeId)
    requires At(services, p)
    ensures var services' := AddDescriptor(services, p, d);
            && Total(services', AsService(node)) == Total(services, AsService(node))
            && Total(services', WithinService(node)) == Total(services, WithinService(node)) + InDescriptor(node)(d)
            && Total(services', DescriptorsOfService(node))
               == Total(services, DescriptorsOfService(node)) + InDescriptor(node)(d)
  {
    var c := CharacteristicAt(services, p);
    var c' := c.(descriptors := c.descriptors + [d]);
    var list := services[p.service].characteristics;
    var service := services[p.service].(characteristics := list[p.characteristic := c']);
    TotalAppend(c.descriptors, d, InDescriptor(node));
    TotalUpdate(list, p.characteristic, c', InCharacteristic(node));
    TotalUpdate(list, p.characteristic, c', InDescriptors(node));
    TotalUpdate(services, p.service, service, AsService(node));
    TotalUpdate(services, p.service, service, WithinService(node));
    TotalUpdate(services, p.service, service, DescriptorsOfService(node));
  }

  lemma DeliverConserves(b: Builder, e: Event, node: NodeId)
    ensures var o := Deliver(b, e); o.Next? ==> SameStock(b, o.builder, node)
  {
    match e
    case ServiceEvent(error, first, last, uuid, responseEnd, reaction) =>
      ServiceEventConserves(b, error, first, last, uuid, responseEnd, reaction, node);
    case CharacteristicEvent(error, declaration, value, uuid, responseEnd, stray, reaction) =>
      CharacteristicEventConserves(b, error, declaration, value, uuid, responseEnd, stray, reaction, node);
    case DescriptorEvent(error, handle, responseEnd, stray, reaction) =>
      DescriptorEventConserves(b, error, handle, responseEnd, stray, reaction, node);
  }

  lemma ServiceEventConserves(b: Builder, error: ErrorCode, first: Handle, last: Handle, uuid: Uuid, responseEnd: bool,
                              reaction: Reaction, node: NodeId)
    ensures var o := ServiceDiscovered(b, error, first, last, uuid, responseEnd, reaction);
            o.Next? ==> SameStock(b, o.builder, node)
  {
    PlaceServiceConserves(b, first, uuid, node);
    NotifyMovesNothing(b, error, reaction);
    var placed := PlaceService(b, first, uuid);
    if placed.Next? {
      ContinuationsMoveNothing(placed.builder, last, 0, error, reaction);
    }
    ContinuationsMoveNothing(b, HANDLE_MAXIMUM, 0, error, reaction);
    hide PlaceService, Notify, ServicesContinue, CharacteristicsContinue, DescriptorsContinue, Total;
  }

  lemma CharacteristicEventConserves(b: Builder, error: ErrorCode, declaration: Handle, value: Handle, uuid: Uuid,
                                     responseEnd: bool, stray: Handle, reaction: Reaction, node: NodeId)
    ensures var o := CharacteristicDiscovered(b, error, declaration, value, uuid, responseEnd, stray, reaction);
            o.Next? ==> SameStock(b, o.builder, node)
  {
    PlaceCharacteristicConserves(b, declaration, value, uuid, node);
    NotifyMovesNothing(b, error, reaction);
    var placed := PlaceCharacteristic(b, declaration, value, uuid);
    if error.Success? && placed.Next? {
      ContinuationsMoveNothing(placed.builder, value, stray, error, reaction);
    } else {
      ContinuationsMoveNothing(b, HANDLE_MAXIMUM, stray, error, reaction);
    }
  }

  lemma DescriptorEventConserves(b: Builder, error: ErrorCode, handle: Handle, responseEnd: bool, stray: Handle,
                                 reaction: Reaction, node: NodeId)
    ensures var o := DescriptorDiscovered(b, error, handle, responseEnd, stray, reaction);
            o.Next? ==> SameStock(b, o.builder, node)
  {
    PlaceDescriptorConserves(b, handle, node);
    NotifyMovesNothing(b, error, reaction);
    var placed := PlaceDescriptor(b, handle);
    if error.Success? && placed.Next? {
      ContinuationsMoveNothing(placed.builder, 0, stray, error, reaction);
    } else {
      ContinuationsMoveNothing(b, 0, stray, error, reaction);
    }
  }

  /** No event takes the container away or sets one. */
  lemma DeliverKeepsContainer(b: Builder, e: Event)
    ensures var o := Deliver(b, e); o.Next? ==> (o.builder.container.Some? <==> b.container.Some?)
  {
  }

  ghost function AsServiceOf(node: NodeId): seq<Service> -> nat {
    (c: seq<Service>) => Total(c, AsService(node))
  }

  ghost function WithinContainer(node: NodeId): seq<Service> -> nat {
    (c: seq<Service>) => Total(c, WithinService(node))
  }

  /** Occurrences of a node in the service pool and as a service of any container. */
  ghost function AllServiceStock(w: World, node: NodeId): nat {
    Total(w.builder.free.services, InPool(node)) + Total(w.containers, AsServiceOf(node))
  }

  /** Occurrences of a node in the characteristic pool and within the services of any container. */
  ghost function AllCharacteristicStock(w: World, node: NodeId): nat {
    Total(w.builder.free.characteristics, InPool(node)) + Total(w.containers, WithinContainer(node))
  }

  /** In how many places a node is. */
  ghost function Occurrences(w: World, node: NodeId): nat {
    AllServiceStock(w, node) + AllCharacteristicStock(w, node) + Total(w.builder.free.descriptors, InPool(node))
  }

  ghost predicate Conserved(w: World, w': World, node: NodeId) {
    && w'.Synced() && |w'.containers| == |w.containers|
    && AllServiceStock(w', node) == AllServiceStock(w, node)
    && AllCharacteristicStock(w', node) == AllCharacteristicStock(w, node)
    && w'.builder.free.descriptors == w.builder.free.descriptors
  }

  lemma StepConserves(w: World, e: WorldEvent, node: NodeId)
    requires w.Synced()
    ensures var next := StepWorld(w, e); next.Some? ==> Conserved(w, next.value, node)
  {
    match e
    case Started(_, _, _, _, _) =>
    case Delivered(event) =>
      DeliverConserves(w.builder, event, node);
      DeliverKeepsContainer(w.builder, event);
      var o := Deliver(w.builder, event);
      if o.Next? {
        StoringConserves(w, o.builder, node);
      }
  }

  lemma StoringConserves(w: World, b: Builder, node: NodeId)
    requires w.Synced() && SameStock(w.builder, b, node) && (b.container.Some? <==> w.builder.container.Some?)
    ensures Conserved(w, w.(builder := b, containers := Stored(w, b)), node)
  {
    hide Total;
    if w.using.Some? {
      var c := w.using.value;
      TotalUpdate(w.containers, c, b.container.value, AsServiceOf(node));
      TotalUpdate(w.containers, c, b.container.value, WithinContainer(node));
    }
  }

  /**
   Over every sequence of discoveries, into whatever containers, and of answers the nodes of the service
   pool and of the characteristic pool are each conserved between the free list and the containers; the
   descriptor pool is never drawn on.
   */
  lemma {:induction false} NodesConserved(w: World, events: seq<WorldEvent>, node: NodeId)
    requires w.Synced()
    ensures var after := RunWorld(w, events); after.Some? ==> Conserved(w, after.value, node)
    decreases |events|
  {
    if events != [] {
      StepConserves(w, events[0], node);
      var next := StepWorld(w, events[0]);
      if next.Some? {
        NodesConserved(next.value, events[1..], node);
      }
    }
  }

  /** A node that is in one list stays in exactly one list. */
  lemma EachNodeInOneList(w: World, events: seq<WorldEvent>, node: NodeId)
    requires w.Synced() && Occurrences(w, node) == 1
    ensures var after := RunWorld(w, events); after.Some? ==> Occurrences(after.value, node) == 1
  {
    NodesConserved(w, events, node);
  }

  /**
   The intended law, that a descriptor response is handled and the container's descriptors come from the
   descriptor pool, holds exactly when that pool is empty, so that nothing is placed.
   */
  lemma DescriptorPoolExact(b: Builder, handle: Handle)
    ensures var o := PlaceDescriptor(b, handle);
            (o.Next? && forall node :: DescriptorStock(o.builder, node) == DescriptorStock(b, node))
            <==> b.free.descriptors == []
  {
    var o := PlaceDescriptor(b, handle);
    if b.free.descriptors != [] && o.Next? {
      var taken := b.free.characteristics[0];
      AddingDescriptor(b.container.value, b.cursor.value, Descriptor(taken, handle), taken);
      assert DescriptorStock(o.builder, taken) == DescriptorStock(b, taken) + 1;
    }
  }

  /** Node 7 is free for descriptors, yet the descriptor is built from characteristic node 4. */
  lemma DescriptorTakesCharacteristicNode()
    ensures var c := Characteristic(3, 2, 3, 0, []);
            var b := Builder(Pools([], [4], [7]), Some([Service(1, 1, 0, [c])]), 1, 9, Some(Position(0, 0)), None, []);
            PlaceDescriptor(b, 4) == Next(b.(free := Pools([], [], [7]),
                                             container := Some([Service(1, 1, 0,
                                                 [c.(descriptors := [Descriptor(4, 4)])])])))
  {
    var c := Characteristic(3, 2, 3, 0, []);
    var service := Service(1, 1, 0, [c]);
    var services := [service];
    var c' := c.(descriptors := [Descriptor(4, 4)]);
    assert [c][0 := c'] == [c'];
    assert services[0 := service.(characteristics := [c'])] == [service.(characteristics := [c'])];
    assert c.descriptors + [Descriptor(4, 4)] == [Descriptor(4, 4)];
    assert At(services, Position(0, 0));
  }

  // ----- Completion callbacks -----

  /** How often callback `r` has been called. */
  function Calls(calls: seq<OutCall>, r: Registration): nat {
    if calls == [] then 0
    else
      var last := |calls| - 1;
      Calls(calls[..last], r) + if calls[last].Notified? && calls[last].registration == r then 1 else 0
  }

  /** Calls made and the call still owed. */
  function Owed(b: Builder, r: Registration): nat {
    Calls(b.calls, r) + if b.completion == Some(r) then 1 else 0
  }

  function Offer(reaction: Reaction, r: Registration): nat {
    if reaction.Restart? && reaction.notify == Some(r) then 1 else 0
  }

  /** How often a callback caused by the event hands `r` to a new discovery. */
  function Offered(e: Event, r: Registration): nat {
    match e
    case ServiceEvent(_, _, _, _, _, reaction) => Offer(reaction, r)
    case CharacteristicEvent(_, _, _, _, _, _, reaction) => Offer(reaction, r)
    case DescriptorEvent(_, _, _, _, reaction) => Offer(reaction, r)
  }

  /** How often `r` is handed over in the course of the events. */
  function OfferedBy(events: seq<WorldEvent>, r: Registration): nat {
    if events == [] then 0
    else
      (match events[0]
       case Started(_, _, _, notify, _) => if notify == Some(r) then 1 else 0
       case Delivered(e) => Offered(e, r))
      + OfferedBy(events[1..], r)
  }

  lemma CallsAppend(calls: seq<OutCall>, out: OutCall, r: Registration)
    ensures Calls(calls + [out], r) == Calls(calls, r) + if out.Notified? && out.registration == r then 1 else 0
  {
    assert (calls + [out])[..|calls|] == calls;
  }

  lemma ReactOwes(b: Builder, reaction: Reaction, r: Registration)
    ensures Owed(React(b, reaction), r) <= Owed(b, r) + Offer(reaction, r)
  {
    if reaction.Restart? {
      CallsAppend(b.calls, Requested(PrimaryServices(reaction.first, reaction.last)), r);
    }
  }

  lemma NotifyOwes(b: Builder, error: ErrorCode, reaction: Reaction, r: Registration)
    ensures Owed(Notify(b, error, reaction), r) <= Owed(b, r) + Offer(reaction, r)
  {
    if b.completion.Some? {
      var out := Notified(b.completion.value, error);
      CallsAppend(b.calls, out, r);
      ReactOwes(b.(completion := None, calls := b.calls + [out]), reaction, r);
    }
  }

  lemma AskOwes(b: Builder, request: Request, r: Registration)
    ensures Owed(Ask(b, request), r) == Owed(b, r)
  {
    CallsAppend(b.calls, Requested(request), r);
  }

  lemma DescriptorsFromOwes(b: Builder, p: Position, stray: Handle, error: ErrorCode, reaction: Reaction,
                            r: Registration)
    requires b.container.Some? && DescriptorsFrom(b, p, stray, error, reaction).Next?
    ensures Owed(DescriptorsFrom(b, p, stray, error, reaction).builder, r) <= Owed(b, r) + Offer(reaction, r)
  {
    var services := b.container.value;
    var open := NextOpen(services, p, stray);
    var b' := b.(cursor := Some(open));
    if open == End(services) {
      var last := Decrement(services, End(services));
      NotifyOwes(b'.(rangeLast := LastHandle(CharacteristicAt(services, last))), error, reaction, r);
    } else {
      var range := HandleRange(services, open, stray);
      AskOwes(b', Descriptors(range.0, range.1), r);
    }
  }

  lemma CharacteristicsContinueOwes(b: Builder, last: Handle, stray: Handle, error: ErrorCode, reaction: Reaction,
                                    r: Registration)
    requires CharacteristicsContinue(b, last, stray, error, reaction).Next?
    ensures Owed(CharacteristicsContinue(b, last, stray, error, reaction).builder, r) <= Owed(b, r) + Offer(reaction, r)
  {
    if !RangeDone(b, last) {
      AskOwes(b, Characteristics(HandleAfter(last), b.rangeLast), r);
    } else {
      DescriptorsFromOwes(b, Begin(b.container.value), stray, error, reaction, r);
    }
  }

  lemma ServiceOwes(b: Builder, error: ErrorCode, first: Handle, last: Handle, uuid: Uuid, responseEnd: bool,
                    reaction: Reaction, r: Registration)
    ensures var o := ServiceDiscovered(b, error, first, last, uuid, responseEnd, reaction);
            o.Next? ==> Owed(o.builder, r) <= Owed(b, r) + Offer(reaction, r)
  {
    NotifyOwes(b, error, reaction, r);
    ServicesContinueOwes(b, HANDLE_MAXIMUM, r);
    var placed := PlaceService(b, first, uuid);
    if placed.Next? {
      ServicesContinueOwes(placed.builder, last, r);
      assert Owed(placed.builder, r) == Owed(b, r);
    }
    hide Notify, ServicesContinue, PlaceService, Owed;
  }

  lemma ServicesContinueOwes(b: Builder, last: Handle, r: Registration)
    ensures Owed(ServicesContinue(b, last), r) == Owed(b, r)
  {
    AskOwes(b, Characteristics(b.rangeFirst, b.rangeLast), r);
    AskOwes(b, PrimaryServices(HandleAfter(last), b.rangeLast), r);
  }

  lemma CharacteristicOwes(b: Builder, error: ErrorCode, declaration: Handle, value: Handle, uuid: Uuid,
                           responseEnd: bool,
                           stray: Handle, reaction: Reaction, r: Registration)
    requires CharacteristicDiscovered(b, error, declaration, value, uuid, responseEnd, stray, reaction).Next?
    ensures Owed(CharacteristicDiscovered(b, error, declaration, value, uuid, responseEnd, stray, reaction).builder, r)
         <= Owed(b, r) + Offer(reaction, r)
  {
    var placed := PlaceCharacteristic(b, declaration, value, uuid);
    assert placed.Next? ==> Owed(placed.builder, r) == Owed(b, r);
    hide Notify, CharacteristicsContinue, PlaceCharacteristic, Owed;
    if error.Failure? {
      NotifyOwes(b, error, reaction, r);
    } else if error.AttributeNotFound? {
      CharacteristicsContinueOwes(b, HANDLE_MAXIMUM, stray, error, reaction, r);
    } else if responseEnd {
      CharacteristicsContinueOwes(placed.builder, value, stray, error, reaction, r);
    }
  }

  lemma DescriptorOwes(b: Builder, error: ErrorCode, handle: Handle, responseEnd: bool, stray: Handle,
                       reaction: Reaction,
                       r: Registration)
    requires DescriptorDiscovered(b, error, handle, responseEnd, stray, reaction).Next?
    ensures Owed(DescriptorDiscovered(b, error, handle, responseEnd, stray, reaction).builder, r)
         <= Owed(b, r) + Offer(reaction, r)
  {
    var placed := PlaceDescriptor(b, handle);
    assert placed.Next? ==> Owed(placed.builder, r) == Owed(b, r);
    hide Notify, PlaceDescriptor, Owed, DescriptorsFrom, Increment;
    if error.Failure? {
      NotifyOwes(b, error, reaction, r);
    } else if error.AttributeNotFound? || responseEnd {
      var b' := if error.Success? then placed.builder else b;
      DescriptorsFromOwes(b', Increment(b'.container.value, b'.cursor.value), stray, error, reaction, r);
    }
  }

  lemma DeliverOwes(b: Builder, e: Event, r: Registration)
    requires Deliver(b, e).Next?
    ensures Owed(Deliver(b, e).builder, r) <= Owed(b, r) + Offered(e, r)
  {
    hide Owed, ServiceDiscovered, CharacteristicDiscovered, DescriptorDiscovered;
    match e
    case ServiceEvent(error, first, last, uuid, responseEnd, reaction) =>
      ServiceOwes(b, error, first, last, uuid, responseEnd, reaction, r);
    case CharacteristicEvent(error, declaration, value, uuid, responseEnd, stray, reaction) =>
      CharacteristicOwes(b, error, declaration, value, uuid, responseEnd, stray, reaction, r);
    case DescriptorEvent(error, handle, responseEnd, stray, reaction) =>
      DescriptorOwes(b, error, handle, responseEnd, stray, reaction, r);
  }

  lemma StartOwes(b: Builder, services: seq<Service>, first: Handle, last: Handle, notify: Option<Registration>,
                  accepted: bool, r: Registration)
    ensures Owed(DiscoverServices(b, services, first, last, notify, accepted), r)
         <= Owed(b, r) + if notify == Some(r) then 1 else 0
  {
    CallsAppend(b.calls, Requested(PrimaryServices(first, last)), r);
  }

  lemma {:induction false} RunOwes(w: World, events: seq<WorldEvent>, r: Registration)
    requires RunWorld(w, events).Some?
    ensures Owed(RunWorld(w, events).value.builder, r) <= Owed(w.builder, r) + OfferedBy(events, r)
    decreases |events|
  {
    if events != [] {
      match events[0] {
        case Started(c, first, last, notify, accepted) =>
          if c < |w.containers| {
            StartOwes(w.builder, w.containers[c], first, last, notify, accepted, r);
          }
        case Delivered(e) => DeliverOwes(w.builder, e, r);
      }
      RunOwes(StepWorld(w, events[0]).value, events[1..], r);
    }
  }

  /**
   A callback handed over once, before or during the events, is called at most once, whatever happens,
   restarts from inside callbacks included.
   */
  lemma CalledAtMostOnce(w: World, events: seq<WorldEvent>, r: Registration)
    requires Owed(w.builder, r) + OfferedBy(events, r) <= 1
    requires RunWorld(w, events).Some?
    ensures Calls(RunWorld(w, events).value.builder.calls, r) <= 1
  {
    RunOwes(w, events, r);
  }
}
