/**
 The GATT client discovery engine of ble/gattc_service_builder.cc.

 `Builder` is the value of the engine and the functions on it say what each event does to it.  The
 class `ServiceBuilder` updates the source's fields in place and is proved equal to them.

 `Fault` is the outcome of an event the C++ leaves undefined or asserts on: a null container or
 iterator, an empty list popped, a position dereferenced that denotes no characteristic.  One such read
 is no `Fault` here: that of `handle_range` through the end position, which every discovery makes for
 the last characteristic; it yields `stray` (`EndReadExact`).
 */
module ServiceBuilder {
  import opened Wrappers
  import opened GattContainer

  datatype ErrorCode = Success | AttributeNotFound | Failure(code: nat)

  /** Requests to the peer, each over an inclusive range of handles. */
  datatype Request =
    | PrimaryServices(first: Handle, last: Handle)
    | Characteristics(first: Handle, last: Handle)
    | Descriptors(first: Handle, last: Handle)

  /** A completion callback, identified by the registration it came with. */
  type Registration = nat

  /** Outgoing calls, in the order they are made. */
  datatype OutCall =
    | Requested(request: Request)
    | Notified(registration: Registration, error: ErrorCode)

  /** The free lists. */
  datatype Pools = Pools(services: seq<NodeId>, characteristics: seq<NodeId>, descriptors: seq<NodeId>)

  datatype Builder = Builder(
    free: Pools,
    container: Option<seq<Service>>,
    rangeFirst: Handle,
    rangeLast: Handle,
    cursor: Option<Position>,
    completion: Option<Registration>,
    calls: seq<OutCall>)

  datatype Outcome = Fault | Next(builder: Builder)

  /** What a completion callback does before it returns: nothing, or start a new discovery. */
  datatype Reaction = Return | Restart(first: Handle, last: Handle, notify: Option<Registration>, accepted: bool)

  /** `accepted` is whether the vendor call returned success. */
  function DiscoverServices(b: Builder, services: seq<Service>, first: Handle, last: Handle,
                            notify: Option<Registration>, accepted: bool): Builder
  {
    var asked := b.(calls := b.calls + [Requested(PrimaryServices(first, last))]);
    if accepted then
      asked.(container := Some(services), rangeFirst := first, rangeLast := last, completion := notify)
    else asked
  }

  function React(b: Builder, reaction: Reaction): Builder {
    match reaction
    case Return => b
    case Restart(first, last, notify, accepted) =>
      if b.container.None? then b
      else DiscoverServices(b, b.container.value, first, last, notify, accepted)
  }

  /** The stored pointer is cleared, then called; the callback may start over at once. */
  function Notify(b: Builder, error: ErrorCode, reaction: Reaction): Builder {
    match b.completion
    case None => b
    case Some(registration) => React(b.(completion := None, calls := b.calls + [Notified(registration, error)]),
                                     reaction)
  }

  /** `+ 1u` on a 16-bit handle. */
  function HandleAfter(handle: Handle): Handle {
    ToHandle(handle + 1)
  }

  /** The response reached the end of the range: nothing is left to request. */
  predicate RangeDone(b: Builder, last: Handle) {
    last == HANDLE_MAXIMUM || HandleAfter(last) > b.rangeLast
  }

  function Ask(b: Builder, request: Request): Builder {
    b.(calls := b.calls + [Requested(request)])
  }

  // ----- Services -----

  function PlaceService(b: Builder, first: Handle, uuid: Uuid): Outcome {
    if b.free.services == [] then Next(b)
    else if b.container.None? then Fault
    else
      var service := Service(b.free.services[0], first, uuid, []);
      Next(b.(free := b.free.(services := b.free.services[1..]), container := Some(b.container.value + [service])))
  }

  function ServicesContinue(b: Builder, last: Handle): Builder {
    if RangeDone(b, last) then Ask(b, Characteristics(b.rangeFirst, b.rangeLast))
    else Ask(b, PrimaryServices(HandleAfter(last), b.rangeLast))
  }

  function ServiceDiscovered(b: Builder, error: ErrorCode, first: Handle, last: Handle, uuid: Uuid,
                             responseEnd: bool, reaction: Reaction): Outcome
  {
    match error
    case Success =>
      var placed := PlaceService(b, first, uuid);
      if placed.Next? && responseEnd then Next(ServicesContinue(placed.builder, last)) else placed
    case AttributeNotFound => Next(ServicesContinue(b, HANDLE_MAXIMUM))
    case Failure(_) => Next(Notify(b, error, reaction))
  }

  // ----- Characteristics -----

  function AddCharacteristic(services: seq<Service>, s: nat, c: Characteristic): seq<Service>
    requires s < |services|
  {
    services[s := services[s].(characteristics := services[s].characteristics + [c])]
  }

  /** A characteristic below every service, or without a free node, is dropped. */
  function PlaceCharacteristic(b: Builder, declaration: Handle, value: Handle, uuid: Uuid): Outcome {
    if b.container.None? then Fault
    else
      var assoc := FindService(b.container.value, declaration);
      if assoc.None? || b.free.characteristics == [] then Next(b)
      else
        var c := Characteristic(b.free.characteristics[0], declaration, value, uuid, []);
        Next(b.(free := b.free.(characteristics := b.free.characteristics[1..]),
                container := Some(AddCharacteristic(b.container.value, assoc.value, c))))
  }

  /** The last handle of a characteristic's last descriptor, or else of its value. */
  function LastHandle(c: Characteristic): Handle {
    if c.descriptors == [] then c.valueHandle else c.descriptors[|c.descriptors| - 1].handle
  }

  /** Whether `--discovery_end()` denotes a characteristic. */
  predicate EndsInCharacteristic(services: seq<Service>) {
    services != [] && services[|services| - 1].characteristics != []
  }

  /** `trim_discovery_handle_range` and the notification of success. */
  function Finish(b: Builder, error: ErrorCode, reaction: Reaction): Outcome
    requires b.container.Some?
  {
    var services := b.container.value;
    if !EndsInCharacteristic(services) then Fault
    else
      var last := Decrement(services, End(services));
      Next(Notify(b.(rangeLast := LastHandle(CharacteristicAt(services, last))), error, reaction))
  }

  /** From position `p`, ask for the descriptors of the next open characteristic, or finish. */
  function DescriptorsFrom(b: Builder, p: Position, stray: Handle, error: ErrorCode, reaction: Reaction): Outcome
    requires b.container.Some?
  {
    var services := b.container.value;
    if p != End(services) && !At(services, p) then Fault
    else
      var open := NextOpen(services, p, stray);
      var b' := b.(cursor := Some(open));
      if open == End(services) then Finish(b', error, reaction)
      else
        var range := HandleRange(services, open, stray);
        Next(Ask(b', Descriptors(range.0, range.1)))
  }

  function CharacteristicsContinue(b: Builder, last: Handle, stray: Handle, error: ErrorCode,
                                   reaction: Reaction): Outcome {
    if !RangeDone(b, last) then Next(Ask(b, Characteristics(HandleAfter(last), b.rangeLast)))
    else if b.container.None? then Fault
    else DescriptorsFrom(b, Begin(b.container.value), stray, error, reaction)
  }

  function CharacteristicDiscovered(b: Builder, error: ErrorCode, declaration: Handle, value: Handle, uuid: Uuid,
                                    responseEnd: bool, stray: Handle, reaction: Reaction): Outcome
  {
    match error
    case Success =>
      var placed := PlaceCharacteristic(b, declaration, value, uuid);
      if placed.Next? && responseEnd then CharacteristicsContinue(placed.builder, value, stray, error, reaction)
          else placed
    case AttributeNotFound => CharacteristicsContinue(b, HANDLE_MAXIMUM, stray, error, reaction)
    case Failure(_) => Next(Notify(b, error, reaction))
  }

  // ----- Descriptors -----

  function AddDescriptor(services: seq<Service>, p: Position, d: Descriptor): seq<Service>
    requires At(services, p)
  {
    var c := CharacteristicAt(services, p);
    var characteristics := services[p.service].characteristics[p.characteristic := c.(descriptors := c.descriptors
        + [d])];
    services[p.service := services[p.service].(characteristics := characteristics)]
  }

  /** The test is on the descriptor pool, the node comes from the characteristic pool. */
  function PlaceDescriptor(b: Builder, handle: Handle): Outcome {
    if b.free.descriptors == [] then Next(b)
    else if b.free.characteristics == [] || b.container.None? || b.cursor.None? then Fault
    else if !At(b.container.value, b.cursor.value) then Fault
    else
      var d := Descriptor(b.free.characteristics[0], handle);
      Next(b.(free := b.free.(characteristics := b.free.characteristics[1..]),
              container := Some(AddDescriptor(b.container.value, b.cursor.value, d))))
  }

  function DescriptorsContinue(b: Builder, stray: Handle, error: ErrorCode, reaction: Reaction): Outcome {
    if b.container.None? || b.cursor.None? then Fault
    else if !At(b.container.value, b.cursor.value) then Fault
    else
      IncrementIsLeastAfter(b.container.value, b.cursor.value);
      DescriptorsFrom(b, Increment(b.container.value, b.cursor.value), stray, error, reaction)
  }

  function DescriptorDiscovered(b: Builder, error: ErrorCode, handle: Handle,
                                responseEnd: bool, stray: Handle, reaction: Reaction): Outcome
  {
    match error
    case Success =>
      var placed := PlaceDescriptor(b, handle);
      if placed.Next? && responseEnd then DescriptorsContinue(placed.builder, stray, error, reaction) else placed
    case AttributeNotFound => DescriptorsContinue(b, stray, error, reaction)
    case Failure(_) => Next(Notify(b, error, reaction))
  }

  // ----- The class -----

  class ServiceBuilder {
    var freeServices: seq<NodeId>
    var freeCharacteristics: seq<NodeId>
    var freeDescriptors: seq<NodeId>
    var serviceContainer: ServiceContainer?
    var rangeFirst: Handle
    var rangeLast: Handle
    var discoveryIterator: Option<Position>
    var completionNotification: Option<Registration>
    var calls: seq<OutCall>

    function View(): Builder
      reads this, serviceContainer
    {
      Builder(Pools(freeServices, freeCharacteristics, freeDescriptors),
              if serviceContainer == null then None else Some(serviceContainer.services),
              rangeFirst, rangeLast, discoveryIterator, completionNotification, calls)
    }

    constructor (services: seq<NodeId>, characteristics: seq<NodeId>, descriptors: seq<NodeId>)
      ensures View() == Builder(Pools(services, characteristics, descriptors), None, 0, 0, None, None, [])
    {
      freeServices, freeCharacteristics, freeDescriptors := services, characteristics, descriptors;
      serviceContainer := null;
      rangeFirst, rangeLast := 0, 0;
      discoveryIterator := None;
      completionNotification := None;
      calls := [];
    }

    method Discover(container: ServiceContainer, first: Handle, last: Handle, notify: Option<Registration>,
                    accepted: bool)
      modifies this
      ensures View() == DiscoverServices(old(View()), container.services, first, last, notify, accepted)
      ensures serviceContainer == if accepted then container else old(serviceContainer)
    {
      Call(Requested(PrimaryServices(first, last)));
      if accepted {
        serviceContainer := container;
        rangeFirst, rangeLast := first, last;
        completionNotification := notify;
      }
    }

    /** An outgoing call; the vendor's answer to a continuation request is only logged by the source. */
    method Call(out: OutCall)
      modifies this`calls
      ensures calls == old(calls) + [out]
    {
      calls := calls + [out];
    }

    method NotifyCompletion(error: ErrorCode, reaction: Reaction)
      modifies this
      ensures View() == Notify(old(View()), error, reaction)
      ensures serviceContainer == old(serviceContainer)
    {
      if completionNotification.Some? {
        var registration := completionNotification.value;
        completionNotification := None;
        Call(Notified(registration, error));
        if reaction.Restart? && serviceContainer != null {
          Discover(serviceContainer, reaction.first, reaction.last, reaction.notify, reaction.accepted);
        }
      }
    }

    method OnServiceDiscovered(error: ErrorCode, first: Handle, last: Handle, uuid: Uuid, responseEnd: bool,
                               reaction: Reaction)
      requires ServiceDiscovered(View(), error, first, last, uuid, responseEnd, reaction).Next?
      modifies this, serviceContainer
      ensures View() == ServiceDiscovered(old(View()), error, first, last, uuid, responseEnd, reaction).builder
      ensures serviceContainer == old(serviceContainer)
    {
      var ended, handleLast := responseEnd, last;
      if error.Success? {
        if freeServices != [] {
          var node := freeServices[0];
          freeServices := freeServices[1..];
          serviceContainer.PushBack(Service(node, first, uuid, []));
        }
      } else if error.AttributeNotFound? {
        ended, handleLast := true, HANDLE_MAXIMUM;
      } else {
        NotifyCompletion(error, reaction);
        return;
      }
      if ended {
        var handleNext := HandleAfter(handleLast);
        if handleLast == HANDLE_MAXIMUM || handleNext > rangeLast {
          Call(Requested(Characteristics(rangeFirst, rangeLast)));
        } else {
          Call(Requested(PrimaryServices(handleNext, rangeLast)));
        }
      }
    }

    method OnCharacteristicDiscovered(error: ErrorCode, declaration: Handle, value: Handle, uuid: Uuid,
                                      responseEnd: bool, stray: Handle, reaction: Reaction)
      requires CharacteristicDiscovered(View(), error, declaration, value, uuid, responseEnd, stray, reaction).Next?
      modifies this, serviceContainer
      ensures View() == CharacteristicDiscovered(old(View()), error, declaration, value, uuid, responseEnd, stray,
                                                 reaction).builder
      ensures serviceContainer == old(serviceContainer)
    {
      var ended, handleLast := responseEnd, value;
      if error.Success? {
        AddToService(declaration, value, uuid);
      } else if error.AttributeNotFound? {
        ended, handleLast := true, HANDLE_MAXIMUM;
      } else {
        NotifyCompletion(error, reaction);
        return;
      }
      if ended {
        var handleNext := HandleAfter(handleLast);
        if handleLast == HANDLE_MAXIMUM || handleNext > rangeLast {
          VisitFrom(Begin(serviceContainer.services), stray, error, reaction);
        } else {
          Call(Requested(Characteristics(handleNext, rangeLast)));
        }
      }
    }

    /** Move a node from the free list to the service the handle belongs to, if there are both. */
    method AddToService(declaration: Handle, value: Handle, uuid: Uuid)
      requires serviceContainer != null
      modifies this, serviceContainer
      ensures Next(View()) == PlaceCharacteristic(old(View()), declaration, value, uuid)
      ensures serviceContainer == old(serviceContainer)
    {
      var assoc := serviceContainer.FindServiceByHandle(declaration);
      if assoc.Some? {
        if freeCharacteristics != [] {
          var node := freeCharacteristics[0];
          freeCharacteristics := freeCharacteristics[1..];
          serviceContainer.services := AddCharacteristic(serviceContainer.services, assoc.value,
                                                         Characteristic(node, declaration, value, uuid, []));
        }
      }
    }

    method OnDescriptorDiscovered(error: ErrorCode, handle: Handle, responseEnd: bool, stray: Handle,
                                  reaction: Reaction)
      requires DescriptorDiscovered(View(), error, handle, responseEnd, stray, reaction).Next?
      modifies this, serviceContainer
      ensures View() == DescriptorDiscovered(old(View()), error, handle, responseEnd, stray, reaction).builder
      ensures serviceContainer == old(serviceContainer)
    {
      var ended := responseEnd;
      if error.Success? {
        if freeDescriptors != [] {
          var node := freeCharacteristics[0];
          freeCharacteristics := freeCharacteristics[1..];
          serviceContainer.services := AddDescriptor(serviceContainer.services, discoveryIterator.value,
                                                     Descriptor(node, handle));
        }
      } else if error.AttributeNotFound? {
        ended := true;
      } else {
        NotifyCompletion(error, reaction);
        return;
      }
      if ended {
        var cursor := new DiscoveryIterator(serviceContainer, discoveryIterator.value);
        cursor.Advance();
        VisitFrom(cursor.position, stray, error, reaction);
      }
    }

    /** The common tail of the characteristic and the descriptor handlers. */
    method VisitFrom(start: Position, stray: Handle, error: ErrorCode, reaction: Reaction)
      requires serviceContainer != null && DescriptorsFrom(View(), start, stray, error, reaction).Next?
      modifies this
      ensures View() == DescriptorsFrom(old(View()), start, stray, error, reaction).builder
      ensures serviceContainer == old(serviceContainer)
    {
      var open := serviceContainer.NextOpenCharacteristic(start, stray);
      discoveryIterator := Some(open);
      if open == End(serviceContainer.services) {
        TrimDiscoveryHandleRange();
        NotifyCompletion(error, reaction);
      } else {
        var range := HandleRange(serviceContainer.services, open, stray);
        Call(Requested(Descriptors(range.0, range.1)));
      }
    }

    /** The range's end becomes the last handle of the last characteristic. */
    method TrimDiscoveryHandleRange()
      requires serviceContainer != null && EndsInCharacteristic(serviceContainer.services)
      modifies this`rangeLast
      ensures var services := serviceContainer.services;
              At(services, Decrement(services, End(services)))
              && rangeLast == LastHandle(CharacteristicAt(services, Decrement(services, End(services))))
    {
      var services := serviceContainer.services;
      var cursor := new DiscoveryIterator(serviceContainer, End(services));
      cursor.Retreat();
      rangeLast := LastHandle(CharacteristicAt(services, cursor.position));
    }
  }
}
