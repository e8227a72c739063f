/**
 The two-level container of discovered services (ble/gatt_service_container.cc) and the iterator
 over its characteristics (ble/gatt_service_discovery_iterator.cc).

 The intrusive lists are circular: stepping past the last element reaches the list's end position
 and stepping on from there reaches the first element again.  In a list of n elements a position is
 therefore an index in 0..n, where n is the end position; in an empty list begin, end and the
 position after the end are all 0.
 */
module GattContainer {
  import opened Wrappers

  type Handle = x: int | 0 <= x <= 0xFFFF

  const HANDLE_MAXIMUM: Handle := 0xFFFF

  /** UUIDs are compared and copied, never computed with. */
  type Uuid = nat

  /** The identity of a statically allocated list node. */
  type NodeId = nat

  datatype Descriptor = Descriptor(node: NodeId, handle: Handle)

  datatype Characteristic = Characteristic(node: NodeId, handle: Handle, valueHandle: Handle, uuid: Uuid,
                                           descriptors: seq<Descriptor>)

  datatype Service = Service(node: NodeId, handle: Handle, uuid: Uuid, characteristics: seq<Characteristic>)

  function ToHandle(x: int): Handle {
    x % 0x1_0000
  }

  // ----- Services by handle -----

  /** The first of the services with the greatest handle not above `handle`. */
  function FindService(services: seq<Service>, handle: Handle): (found: Option<nat>)
    ensures found == None <==> forall i :: 0 <= i < |services| ==> handle < services[i].handle
    ensures found.Some? ==>
              && found.value < |services| && services[found.value].handle <= handle
              && (forall i :: 0 <= i < |services| && services[i].handle <= handle ==>
                    services[i].handle <= services[found.value].handle)
              && (forall i :: 0 <= i < found.value ==>
                    services[i].handle < services[found.value].handle || handle < services[i].handle)
  {
    if services == [] then None
    else
      var last := |services| - 1;
      var assoc := FindService(services[..last], handle);
      if services[last].handle <= handle && (assoc.Some? ==> services[assoc.value].handle < services[last].handle)
      then Some(last) else assoc
  }

  ghost predicate Increasing(services: seq<Service>) {
    forall i, j :: 0 <= i < j < |services| ==> services[i].handle < services[j].handle
  }

  function ServiceHandleRange(services: seq<Service>, i: nat): (Handle, Handle)
    requires i < |services|
  {
    (services[i].handle, if i + 1 == |services| then HANDLE_MAXIMUM else ToHandle(services[i + 1].handle - 1))
  }

  predicate InRange(handle: Handle, range: (Handle, Handle)) {
    range.0 <= handle <= range.1
  }

  /** With handles in increasing order a service's range ends where the next service begins. */
  lemma RangeIs(services: seq<Service>, i: nat, handle: Handle)
    requires Increasing(services) && i < |services|
    ensures InRange(handle, ServiceHandleRange(services, i))
      <==> services[i].handle <= handle && (i + 1 < |services| ==> handle < services[i + 1].handle)
  {
    if i + 1 < |services| {
      assert services[i].handle < services[i + 1].handle;
    }
  }

  /** With handles in increasing order the ranges partition the handles from the first service on. */
  lemma RangesPartition(services: seq<Service>, handle: Handle)
    requires Increasing(services)
    ensures forall i :: 0 <= i < |services| ==> (FindService(services, handle) == Some(i)
                                                 <==> InRange(handle, ServiceHandleRange(services, i)))
    ensures FindService(services, handle) == None <==> services == [] || handle < services[0].handle
    ensures forall i, j :: 0 <= i < j < |services| ==>
              !(InRange(handle, ServiceHandleRange(services, i)) && InRange(handle, ServiceHandleRange(services, j)))
  {
    var found := FindService(services, handle);
    forall i | 0 <= i < |services|
      ensures found == Some(i) <==> InRange(handle, ServiceHandleRange(services, i))
    {
      RangeIs(services, i, handle);
      if found.Some? && found.value != i {
        assert services[found.value].handle <= handle;
      }
    }
  }

  // ----- Positions -----

  datatype Position = Position(service: nat, characteristic: nat)

  function Length(services: seq<Service>, s: nat): nat
    requires s < |services|
  {
    |services[s].characteristics|
  }

  /** `discovery_end`: past the last service, on the sentinel list. */
  function End(services: seq<Service>): Position {
    Position(|services|, 0)
  }

  /** `discovery_begin`: the first element of the first service's list, which is its end when the list is empty. */
  function Begin(services: seq<Service>): Position {
    Position(0, 0)
  }

  /** The position denotes a characteristic. */
  predicate At(services: seq<Service>, p: Position) {
    p.service < |services| && p.characteristic < Length(services, p.service)
  }

  /** Positions the iterator can be on: a characteristic, or the one position of an empty list. */
  predicate Placed(services: seq<Service>, p: Position) {
    p.service < |services| && (p.characteristic < Length(services, p.service)
                               || (p.characteristic == 0 && Length(services, p.service) == 0))
  }

  function CharacteristicAt(services: seq<Service>, p: Position): Characteristic
    requires At(services, p)
  {
    services[p.service].characteristics[p.characteristic]
  }

  predicate Before(p: Position, q: Position) {
    p.service < q.service || (p.service == q.service && p.characteristic < q.characteristic)
  }

  /** `++` on a circular list of `length` elements. */
  function CircularNext(c: nat, length: nat): nat
    requires c <= length
  {
    if c == length then 0 else c + 1
  }

  /** `--` on a circular list of `length` elements. */
  function CircularPrevious(c: nat, length: nat): nat
    requires c <= length
  {
    if c == 0 then length else c - 1
  }

  function Increment(services: seq<Service>, p: Position): (q: Position)
    requires p.service < |services| && p.characteristic <= Length(services, p.service)
    decreases |services| - p.service
  {
    var c := CircularNext(p.characteristic, Length(services, p.service));
    if c != Length(services, p.service) then Position(p.service, c)
    else if p.service + 1 == |services| then End(services)
    else if Length(services, p.service + 1) == 0 then Increment(services, Position(p.service + 1, 0))
    else Position(p.service + 1, 0)
  }

  /** At the first position of the first service the source asserts; on an empty container it leaves the list. */
  function Decrement(services: seq<Service>, p: Position): Position
    requires p == End(services) || (p.service < |services| && p.characteristic <= Length(services, p.service))
    requires p.characteristic == 0 ==> p.service > 0
  {
    if p.service == |services| then
      Position(p.service - 1, CircularPrevious(Length(services, p.service - 1), Length(services, p.service - 1)))
    else if p.characteristic == 0 then
      Position(p.service - 1, CircularPrevious(Length(services, p.service - 1), Length(services, p.service - 1)))
    else
      Position(p.service, CircularPrevious(p.characteristic, Length(services, p.service)))
  }

  /** The next position is the least characteristic after `p`, or the end when there is none. */
  lemma {:induction false} IncrementIsLeastAfter(services: seq<Service>, p: Position)
    requires Placed(services, p)
    ensures var q := Increment(services, p);
            && (q == End(services) || At(services, q))
            && Before(p, q)
            && forall r :: At(services, r) && Before(p, r) ==> r == q || Before(q, r)
    decreases |services| - p.service
  {
    if p.service + 1 < |services| && Length(services, p.service + 1) == 0
        && CircularNext(p.characteristic, Length(services, p.service)) == Length(services, p.service) {
      IncrementIsLeastAfter(services, Position(p.service + 1, 0));
    }
  }

  /** Going back undoes going forward exactly when no empty service was stepped over. */
  lemma DecrementUndoes(services: seq<Service>, p: Position)
    requires At(services, p)
    ensures var q := Increment(services, p);
            && (q == End(services) || At(services, q)) && (q.characteristic == 0 ==> q.service > 0)
            && (Decrement(services, q) == p
                <==>
                p.characteristic + 1 < Length(services, p.service) || p.service + 1 == |services|
                || Length(services, p.service + 1) > 0)
  {
    IncrementIsLeastAfter(services, p);
    if p.characteristic + 1 == Length(services, p.service) && p.service + 1 < |services|
        && Length(services, p.service + 1) == 0 {
      IncrementIsLeastAfter(services, Position(p.service + 1, 0));
    }
  }

  // ----- The whole walk -----

  /** The positions `c` and up of a service with `n` characteristics. */
  ghost function Row(s: nat, c: nat, n: nat): seq<Position>
    requires c <= n
    decreases n - c
  {
    if c == n then [] else [Position(s, c)] + Row(s, c + 1, n)
  }

  /** The positions of the characteristics of services `s` and up, service by service. */
  ghost function PositionsFrom(services: seq<Service>, s: nat): seq<Position>
    requires s <= |services|
    decreases |services| - s
  {
    if s == |services| then []
    else Row(s, 0, Length(services, s)) + PositionsFrom(services, s + 1)
  }

  /** The positions visited by `++` from `p` until the end. */
  ghost function Walk(services: seq<Service>, p: Position): seq<Position>
    requires p == End(services) || Placed(services, p)
    decreases |services| - p.service, if p.service < |services| then Length(services, p.service) - p.characteristic
              else 0
  {
    if p == End(services) then []
    else
      IncrementIsLeastAfter(services, p);
      [p] + Walk(services, Increment(services, p))
  }

  /** Either `++` stays in the service, or it goes to the front of a later one. */
  lemma {:induction false} IncrementCases(services: seq<Service>, p: Position)
    requires Placed(services, p)
    ensures var q := Increment(services, p);
            if p.characteristic + 1 < Length(services, p.service) then q == Position(p.service, p.characteristic + 1)
            else p.service < q.service <= |services| && q.characteristic == 0
    decreases |services| - p.service
  {
    if p.characteristic + 1 >= Length(services, p.service) && p.service + 1 < |services|
        && Length(services, p.service + 1) == 0 {
      IncrementCases(services, Position(p.service + 1, 0));
    }
  }

  /** What the walk still has to visit after `p`. */
  ghost function RestAfter(services: seq<Service>, p: Position): seq<Position>
    requires Placed(services, p)
  {
    (if At(services, p) then Row(p.service, p.characteristic + 1, Length(services, p.service)) else [])
    + PositionsFrom(services, p.service + 1)
  }

  /** The walk from the next position is what comes after `p`. */
  lemma NextIsRest(services: seq<Service>, p: Position, q: Position)
    requires Placed(services, p) && q == Increment(services, p)
    requires q == End(services) || At(services, q)
    ensures q == End(services) ==> RestAfter(services, p) == []
    ensures q != End(services) ==> RestAfter(services, p) == [q] + RestAfter(services, q)
  {
    NextPlace(services, p, q);
    hide *;
    if q.service == p.service {
      NextInService(services, p, q);
    } else {
      LastOfService(services, p);
      FirstAfterService(services, p.service, q);
      if q == End(services) {
        assert PositionsFrom(services, p.service + 1) == [];
      }
    }
  }

  /** Where the next position is: in the same service, or first of all behind it. */
  lemma NextPlace(services: seq<Service>, p: Position, q: Position)
    requires Placed(services, p) && q == Increment(services, p)
    ensures if q.service == p.service then At(services, p) && At(services, q)
            && q == Position(p.service, p.characteristic + 1)
            else
              && p.characteristic + 1 >= Length(services, p.service)
              && p.service < q.service <= |services| && q.characteristic == 0
              && forall r :: At(services, r) && p.service < r.service ==> r == q || Before(q, r)
    ensures p.service < |services|
    ensures q.service == p.service ==> q != End(services)
  {
    IncrementIsLeastAfter(services, p);
    IncrementCases(services, p);
    hide Increment;
  }

  lemma NextInService(services: seq<Service>, p: Position, q: Position)
    requires At(services, p) && At(services, q) && q == Position(p.service, p.characteristic + 1)
    ensures RestAfter(services, p) == [q] + RestAfter(services, q)
  {
    RowAndRest(q, Length(services, q.service), PositionsFrom(services, p.service + 1));
  }

  /** `q` is the first characteristic behind service `s`. */
  lemma FirstAfterService(services: seq<Service>, s: nat, q: Position)
    requires s < q.service <= |services| && q.characteristic == 0
    requires q == End(services) || At(services, q)
    requires forall r :: At(services, r) && s < r.service ==> r == q || Before(q, r)
    ensures PositionsFrom(services, s + 1) == if q == End(services) then [] else [q] + RestAfter(services, q)
  {
    assert forall r :: At(services, r) && s + 1 <= r.service ==> q.service <= r.service;
    SkipEmpty(services, s + 1, q.service);
    if q != End(services) {
      FirstOfService(services, q);
    }
  }

  lemma FirstOfService(services: seq<Service>, q: Position)
    requires At(services, q) && q.characteristic == 0
    ensures PositionsFrom(services, q.service) == [q] + RestAfter(services, q)
  {
    RowAndRest(q, Length(services, q.service), PositionsFrom(services, q.service + 1));
  }

  lemma LastOfService(services: seq<Service>, p: Position)
    requires Placed(services, p) && p.characteristic + 1 >= Length(services, p.service)
    ensures RestAfter(services, p) == PositionsFrom(services, p.service + 1)
  {
    if At(services, p) {
      assert Row(p.service, p.characteristic + 1, Length(services, p.service)) == [];
    }
  }

  lemma RowAndRest(q: Position, n: nat, rest: seq<Position>)
    requires q.characteristic < n
    ensures Row(q.service, q.characteristic, n) + rest == [q] + (Row(q.service, q.characteristic + 1, n) + rest)
  {
  }

  lemma {:induction false} WalkFrom(services: seq<Service>, p: Position)
    requires Placed(services, p)
    ensures Walk(services, p) == [p] + RestAfter(services, p)
    decreases |services| - p.service, Length(services, p.service) - p.characteristic
  {
    var q := Increment(services, p);
    IncrementIsLeastAfter(services, p);
    NextIsRest(services, p, q);
    if q != End(services) {
      WalkFrom(services, q);
    }
  }

  /** Services without characteristics contribute no positions. */
  lemma {:induction false} SkipEmpty(services: seq<Service>, s: nat, t: nat)
    requires s <= t <= |services|
    requires forall r :: At(services, r) && s <= r.service ==> t <= r.service
    ensures PositionsFrom(services, s) == PositionsFrom(services, t)
    decreases t - s
  {
    if s < t {
      assert !At(services, Position(s, 0));
      SkipEmpty(services, s + 1, t);
      assert PositionsFrom(services, s) == [] + PositionsFrom(services, s + 1);
    }
  }

  /**
   From `discovery_begin` the iterator visits every characteristic, in order, once, and nothing
   else, exactly when the first service is not empty: `discovery_begin` does not skip an empty
   first service, so there the walk begins on a position that denotes no characteristic.
   */
  lemma WalkVisitsAll(services: seq<Service>)
    ensures Begin(services) == End(services) || Placed(services, Begin(services))
    ensures Walk(services, Begin(services)) == PositionsFrom(services, 0)
      <==> services == [] || Length(services, 0) > 0
    ensures services != [] && Length(services, 0) == 0
            ==> Walk(services, Begin(services)) == [Begin(services)] + PositionsFrom(services, 0)
  {
    if services != [] {
      WalkFrom(services, Begin(services));
      if Length(services, 0) == 0 {
        assert PositionsFrom(services, 0) == [] + PositionsFrom(services, 1);
        assert |Walk(services, Begin(services))| == |PositionsFrom(services, 0)| + 1;
      }
    }
  }

  /** The listing contains exactly the characteristics of the container, each once. */
  lemma {:induction false} PositionsComplete(services: seq<Service>, s: nat, p: Position)
    requires s <= |services|
    ensures multiset(PositionsFrom(services, s))[p] == if At(services, p) && s <= p.service then 1 else 0
    decreases |services| - s
  {
    if s < |services| {
      PositionsComplete(services, s + 1, p);
      RowComplete(s, 0, Length(services, s), p);
    }
  }

  lemma {:induction false} RowComplete(s: nat, c: nat, n: nat, p: Position)
    requires c <= n
    ensures multiset(Row(s, c, n))[p] == if p.service == s && c <= p.characteristic < n then 1 else 0
    decreases n - c
  {
    if c < n {
      RowComplete(s, c + 1, n, p);
    }
  }

  // ----- Handle ranges and open characteristics -----

  /**
   The range from the characteristic's declaration up to the next declaration.  For the last
   characteristic the source reads the declaration handle through `discovery_end`, where no
   characteristic is stored: `stray` is whatever 16-bit value that read yields.
   */
  function HandleRange(services: seq<Service>, p: Position, stray: Handle): (Handle, Handle)
    requires At(services, p)
  {
    IncrementIsLeastAfter(services, p);
    var next := Increment(services, p);
    (CharacteristicAt(services, p).handle,
     ToHandle((if next == End(services) then stray else CharacteristicAt(services, next).handle) - 1))
  }

  /** There is room for an attribute besides the declaration and the value. */
  predicate Open(services: seq<Service>, p: Position, stray: Handle)
    requires At(services, p)
  {
    var range := HandleRange(services, p, stray);
    range.1 >= range.0 + 2
  }

  /** The first open characteristic from `p` on, or the end. */
  function NextOpen(services: seq<Service>, p: Position, stray: Handle): (q: Position)
    requires p == End(services) || At(services, p)
    ensures q == End(services) || (At(services, q) && Open(services, q, stray))
    ensures q == p || Before(p, q)
    ensures forall r :: At(services, r) && (r == p || Before(p, r)) && Before(r, q) ==> !Open(services, r, stray)
    decreases |services| - p.service, if p.service < |services| then Length(services, p.service) - p.characteristic
              else 0
  {
    if p == End(services) || Open(services, p, stray) then p
    else
      IncrementIsLeastAfter(services, p);
      NextOpen(services, Increment(services, p), stray)
  }

  /** The range depends on what is read through `discovery_end` exactly for the last characteristic. */
  lemma EndReadExact(services: seq<Service>, p: Position)
    requires At(services, p)
    ensures (forall a: Handle, b: Handle :: HandleRange(services, p, a) == HandleRange(services, p, b))
      <==> Increment(services, p) != End(services)
  {
    assert HandleRange(services, p, 1).1 == 0 || Increment(services, p) != End(services);
    assert HandleRange(services, p, 2).1 == 1 || Increment(services, p) != End(services);
  }

  /** And there it alone decides whether the characteristic is asked for descriptors. */
  lemma EndReadDecides(services: seq<Service>, p: Position)
    requires At(services, p) && Increment(services, p) == End(services)
    ensures NextOpen(services, p, 1) == End(services)
    ensures NextOpen(services, p, 0) == if CharacteristicAt(services, p).handle + 2 <= HANDLE_MAXIMUM then p
            else End(services)
  {
  }

  // ----- The classes -----

  class ServiceContainer {
    var services: seq<Service>

    constructor ()
      ensures services == []
    {
      services := [];
    }

    method PushBack(service: Service)
      modifies this
      ensures services == old(services) + [service]
    {
      services := services + [service];
    }

    method FindServiceByHandle(handle: Handle) returns (assoc: Option<nat>)
      ensures assoc == FindService(services, handle)
    {
      assoc := None;
      for i := 0 to |services|
        invariant assoc == FindService(services[..i], handle)
      {
        assert services[..i + 1][..i] == services[..i];
        if services[i].handle <= handle {
          if assoc.Some? {
            if services[assoc.value].handle < services[i].handle {
              assoc := Some(i);
            }
          } else {
            assoc := Some(i);
          }
        }
      }
      assert services[..|services|] == services;
    }

    method NextOpenCharacteristic(start: Position, stray: Handle) returns (p: Position)
      requires start == End(services) || At(services, start)
      ensures p == NextOpen(services, start, stray)
    {
      var cursor := new DiscoveryIterator(this, start);
      while cursor.position != End(services)
        invariant cursor.container == this && fresh(cursor)
        invariant cursor.position == End(services) || At(services, cursor.position)
        invariant NextOpen(services, cursor.position, stray) == NextOpen(services, start, stray)
        decreases |services| - cursor.position.service,
                  if cursor.position.service < |services|
                      then Length(services, cursor.position.service) - cursor.position.characteristic else 0
      {
        if Open(services, cursor.position, stray) {
          break;
        }
        IncrementIsLeastAfter(services, cursor.position);
        cursor.Advance();
      }
      return cursor.position;
    }
  }

  class DiscoveryIterator {
    const container: ServiceContainer
    var position: Position

    constructor (container: ServiceContainer, position: Position)
      ensures this.container == container && this.position == position
    {
      this.container := container;
      this.position := position;
    }

    /** `increment`, with the source's recursion over empty services. */
    method Advance()
      requires position.service < |container.services|
               && position.characteristic <= Length(container.services, position.service)
      modifies this
      ensures position == Increment(container.services, old(position))
      decreases |container.services| - position.service
    {
      var services := container.services;
      position := position.(characteristic := CircularNext(position.characteristic,
                                                           Length(services, position.service)));
      if position.characteristic == Length(services, position.service) {
        position := position.(service := position.service + 1);
        if position.service == |services| {
          position := position.(characteristic := End(services).characteristic);
        } else {
          position := position.(characteristic := 0);
          if position.characteristic == Length(services, position.service) {
            Advance();
          }
        }
      }
    }

    /** `decrement`. */
    method Retreat()
      requires position == End(container.services)
               || (position.service < |container.services|
                   && position.characteristic <= Length(container.services, position.service))
      requires position.characteristic == 0 ==> position.service > 0
      modifies this
      ensures position == Decrement(container.services, old(position))
    {
      var services := container.services;
      if position.service == |services| {
        position := position.(service := position.service - 1);
        position := position.(characteristic := Length(services, position.service));
      } else if position.characteristic == 0 {
        position := position.(service := position.service - 1);
        position := position.(characteristic := Length(services, position.service));
      }
      position := position.(characteristic := CircularPrevious(position.characteristic,
                                                               Length(services, position.service)));
    }
  }
}
