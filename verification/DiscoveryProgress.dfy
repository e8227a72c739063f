/**
 Progress of a discovery, whatever the pools hold and whatever is in the container at the start: each
 answered request leaves less to do.  The peer's services and characteristics need only be in order.
 */
module DiscoveryProgress {
  import opened Wrappers
  import opened BuilderInvariants
  import opened DescriptorPhase
  import opened DiscoveryPhases
  import opened DiscoverySystem
  import opened GattContainer
  import opened Peer
  import opened ServiceBuilder

  ghost predicate InOrder(db: Database) {
    Ordered(db.services) && Ordered(db.characteristics)
  }

  /** The characteristics of services `s` and up. */
  ghost function CountFrom(services: seq<Service>, s: nat): nat
    requires s <= |services|
    decreases |services| - s
  {
    if s == |services| then 0 else Length(services, s) + CountFrom(services, s + 1)
  }

  /** The characteristics from position `p` on. */
  ghost function Remaining(services: seq<Service>, p: Position): nat
    requires At(services, p)
  {
    Length(services, p.service) - p.characteristic + CountFrom(services, p.service + 1)
  }

  /** The characteristics placed and those there are nodes for. */
  ghost function Stock(b: Builder): nat
    requires b.container.Some?
  {
    |b.free.characteristics| + CountFrom(b.container.value, 0)
  }

  // ----- Counting characteristics -----

  lemma {:induction false} CountByLength(a: seq<Service>, b: seq<Service>, s: nat)
    requires |a| == |b| && s <= |a| && forall i :: s <= i < |a| ==> Length(a, i) == Length(b, i)
    ensures CountFrom(a, s) == CountFrom(b, s)
    decreases |a| - s
  {
    if s < |a| {
      CountByLength(a, b, s + 1);
    }
  }

  lemma {:induction false} CountLater(services: seq<Service>, s: nat, t: nat)
    requires s <= t <= |services|
    ensures CountFrom(services, t) <= CountFrom(services, s)
    decreases t - s
  {
    if s < t {
      CountLater(services, s + 1, t);
    }
  }

  lemma {:induction false} CountAppend(services: seq<Service>, x: Service, s: nat)
    requires s <= |services|
    ensures CountFrom(services + [x], s) == CountFrom(services, s) + |x.characteristics|
    decreases |services| - s
  {
    if s < |services| {
      CountAppend(services, x, s + 1);
    }
  }

  /** One more characteristic in service `i`. */
  lemma {:induction false} CountGrows(a: seq<Service>, b: seq<Service>, i: nat, s: nat)
    requires |a| == |b| && s <= i < |a| && Length(b, i) == Length(a, i) + 1
    requires forall j :: 0 <= j < |a| && j != i ==> Length(a, j) == Length(b, j)
    ensures CountFrom(b, s) == CountFrom(a, s) + 1
    decreases i - s
  {
    if s == i {
      CountByLength(a, b, s + 1);
    } else {
      CountGrows(a, b, i, s + 1);
    }
  }

  lemma RemainingBound(services: seq<Service>, p: Position)
    requires At(services, p)
    ensures 0 < Remaining(services, p) <= CountFrom(services, 0)
  {
    CountLater(services, 0, p.service);
  }

  /** Fewer characteristics remain from a later position. */
  lemma RemainingLess(services: seq<Service>, p: Position, q: Position)
    requires At(services, p) && At(services, q) && Before(p, q)
    ensures Remaining(services, q) < Remaining(services, p)
  {
    if p.service < q.service {
      CountLater(services, p.service + 1, q.service);
    }
  }

  // ----- What handling an answer leaves alone -----

  /** The discovery is the same: its container, range and calls. */
  ghost predicate Ongoing(b: Builder, b': Builder) {
    && b.container.Some? && b'.container.Some?
    && b'.rangeFirst == b.rangeFirst && b'.rangeLast == b.rangeLast && b'.calls == b.calls
    && b'.completion == b.completion
  }

  lemma {:induction false} PlacesServices(b: Builder, items: seq<Item>)
    requires b.container.Some?
    ensures var o := PlaceServices(b, items);
            o.Next? && Ongoing(b, o.builder) && Stock(o.builder) == Stock(b)
    decreases |items|
  {
    if items != [] {
      var x := items[0];
      var b1 := PlaceService(b, x.first, x.uuid).builder;
      assert Ongoing(b, b1) && Stock(b1) == Stock(b) by {
        if b.free.services != [] {
          CountAppend(b.container.value, Service(b.free.services[0], x.first, x.uuid, []), 0);
        }
      }
      PlacesServices(b1, items[1..]);
    }
  }

  lemma PlacesCharacteristic(b: Builder, x: Item)
    requires b.container.Some?
    ensures var o := PlaceCharacteristic(b, x.first, x.last, x.uuid);
            o.Next? && Ongoing(b, o.builder) && Stock(o.builder) == Stock(b)
  {
    var services := b.container.value;
    var owner := FindService(services, x.first);
    if owner.Some? && b.free.characteristics != [] {
      var c := Characteristic(b.free.characteristics[0], x.first, x.last, x.uuid, []);
      CountGrows(services, AddCharacteristic(services, owner.value, c), owner.value, 0);
    }
  }

  lemma {:induction false} PlacesCharacteristics(b: Builder, items: seq<Item>)
    requires b.container.Some?
    ensures var o := PlaceCharacteristics(b, items);
            o.Next? && Ongoing(b, o.builder) && Stock(o.builder) == Stock(b)
    decreases |items|
  {
    if items != [] {
      var x := items[0];
      PlacesCharacteristic(b, x);
      PlacesCharacteristics(PlaceCharacteristic(b, x.first, x.last, x.uuid).builder, items[1..]);
    }
  }

  /** Descriptors change the descriptors at the cursor and nothing else, if all goes well. */
  lemma {:induction false} PlacesDescriptors(b: Builder, p: Position, items: seq<Item>)
    requires b.container.Some? && b.cursor == Some(p) && At(b.container.value, p)
    ensures var o := PlaceDescriptors(b, items);
            o.Next? ==>
              && Ongoing(b, o.builder) && o.builder.cursor == Some(p)
              && OnlyAt(b.container.value, o.builder.container.value, p)
    decreases |items|
  {
    if items != [] {
      var x := items[0];
      var o := PlaceDescriptor(b, x.first);
      if o.Next? {
        OneDescriptor(b, p, x.first);
        PlacesDescriptors(o.builder, p, items[1..]);
        var rest := PlaceDescriptors(o.builder, items[1..]);
        assert PlaceDescriptors(b, items) == rest;
        if rest.Next? {
          OnlyAtTwice(b.container.value, o.builder.container.value, rest.builder.container.value, p);
        }
      }
    }
  }

  lemma OneDescriptor(b: Builder, p: Position, handle: Handle)
    requires b.container.Some? && b.cursor == Some(p) && At(b.container.value, p)
    ensures var o := PlaceDescriptor(b, handle);
            o.Next? ==>
              && Ongoing(b, o.builder) && o.builder.cursor == Some(p)
              && OnlyAt(b.container.value, o.builder.container.value, p)
  {
  }

  lemma OnlyAtTwice(a: seq<Service>, b: seq<Service>, c: seq<Service>, p: Position)
    requires OnlyAt(a, b, p) && OnlyAt(b, c, p)
    ensures OnlyAt(a, c, p)
  {
  }

  lemma {:induction false} DescriptorFaults(b: Builder, items: seq<Item>, stray: Handle)
    requires items != [] && PlaceDescriptors(b, items).Fault?
    ensures DeliverAll(b, DescriptorEvents(items, stray)).Fault?
    decreases |items|
  {
    var x := items[0];
    var event := DescriptorEvent(Success, x.first, |items| == 1, stray, Return);
    var o := PlaceDescriptor(b, x.first);
    if |items| == 1 {
      assert items[1..] == [];
      DeliverOne(b, event);
    } else if o.Next? {
      DeliverHead(b, event, DescriptorEvents(items[1..], stray));
      DescriptorFaults(o.builder, items[1..], stray);
    } else {
      assert ([event] + DescriptorEvents(items[1..], stray))[0] == event;
    }
  }

  // ----- The invariant and the measure -----

  ghost predicate Ready(b: Builder, g: Goal) {
    b.container.Some? && b.rangeFirst == g.first && b.rangeLast == g.last
  }

  /** No characteristic of the range reaches over `cut`. */
  ghost predicate CleanCut(g: Goal, cut: int) {
    forall c :: c in g.db.characteristics && g.first <= c.first < cut ==> c.last < cut
  }

  ghost predicate InStep(s: System, g: Goal) {
    match s
    case Live(b, Some(PrimaryServices(first, last))) => Ready(b, g) && g.first <= first <= last == g.last
    case Live(b, Some(Characteristics(first, last))) =>
      Ready(b, g) && g.first <= first <= last == g.last && CleanCut(g, first)
    case Live(b, Some(Descriptors(first, last))) =>
      && b.container.Some? && b.cursor.Some? && At(b.container.value, b.cursor.value)
      && first == CharacteristicAt(b.container.value, b.cursor.value).handle && first + 2 <= last
    case _ => true
  }

  /**
   What is left to do: handles to request in this phase and the next, and characteristics that may still
   be asked for descriptors.
   */
  ghost function Left(s: System, g: Goal): nat
    requires InStep(s, g)
  {
    match s
    case Live(b, Some(PrimaryServices(first, _))) => (g.last + 1 - first) + (g.last + 1 - g.first) + Stock(b)
    case Live(b, Some(Characteristics(first, _))) => (g.last + 1 - first) + Stock(b)
    case Live(b, Some(Descriptors(_, _))) => Remaining(b.container.value, b.cursor.value)
    case _ => 0
  }

  /** How the request of `s'` comes after that of `s`; `stray` was read behind the list. */
  ghost predicate Advances(s: System, s': System, g: Goal, stray: Handle) {
    s.Live? && s.request.Some? && s'.Live? && s'.request.Some? ==>
      match s'.request.value
      case PrimaryServices(first', last') => s.request.value.PrimaryServices?
          && s.request.value.first < first' <= last' == g.last
      case Characteristics(first', last') =>
        && g.first <= first' <= last' == g.last
        && !s.request.value.Descriptors? && (s.request.value.Characteristics? ==> s.request.value.first < first')
      case Descriptors(first', last') =>
        && s'.builder.container.Some? && s'.builder.cursor.Some?
        && OpenRequest(s'.builder.container.value, s'.builder.cursor.value, stray, first', last')
        && (s.request.value.Descriptors? ==>
              s.builder.cursor.Some? && Before(s.builder.cursor.value, s'.builder.cursor.value))
  }

  /** The request is for an open characteristic, over its handle range. */
  ghost predicate OpenRequest(services: seq<Service>, p: Position, stray: Handle, first: Handle, last: Handle) {
    At(services, p) && Open(services, p, stray) && (first, last) == HandleRange(services, p, stray)
  }

  // ----- One turn in each phase -----

  /** A batch of the items in a range: in order, inside the range. */
  lemma BatchInRange(items: seq<Item>, first: Handle, last: Handle, k: nat)
    requires Ordered(items) && Between(items, first, last + 1) != []
    ensures var batch := Batch(Between(items, first, last + 1), k);
            && batch != [] && Ordered(batch)
            && forall x :: x in batch ==> x in items && first <= x.first <= last && x.first <= x.last
  {
    var between := Between(items, first, last + 1);
    var batch := Batch(between, k);
    BetweenOrdered(items, first, last + 1);
    forall x | x in batch
      ensures x in items && first <= x.first <= last && x.first <= x.last
    {
      assert x in between;
      BetweenMember(items, first, last + 1, x);
      SizeOf(items, x);
    }
  }

  /** As long as the discovery goes on the callback waits and nothing but the next request is made. */
  ghost predicate Asks(b: Builder, s': System) {
    s'.Live? && s'.request.Some? ==>
      s'.builder.completion == b.completion && s'.builder.calls == b.calls + [Requested(s'.request.value)]
  }

  /** The turn of a services request. */
  ghost predicate ServicesTurned(b: Builder, s': System, g: Goal, first: Handle)
    requires b.container.Some?
  {
    && s'.Live? && s'.request.Some? && Ready(s'.builder, g) && Stock(s'.builder) == Stock(b) && Asks(b, s')
    && match s'.request.value
       case PrimaryServices(first', last') => first < first' <= last' == g.last
       case Characteristics(first', last') => first' == g.first && last' == g.last
       case Descriptors(_, _) => false
  }

  lemma AfterServiceAnswer(b: Builder, g: Goal, first: Handle, last: Handle)
    requires Ready(b, g) && first <= last
    ensures ServicesTurned(b, AsSystem(Next(ServicesContinue(b, last)), |b.calls|), g, first)
  {
  }

  lemma ServicesProgress(b: Builder, g: Goal, first: Handle, choice: Choice)
    requires InOrder(g.db) && Ready(b, g) && g.first <= first <= g.last
    ensures b.container.Some?
    ensures ServicesTurned(b, Turn(g.db, Live(b, Some(PrimaryServices(first, g.last))), choice), g, first)
  {
    hide *;
    TurnIs(g.db, b, PrimaryServices(first, g.last), choice);
    Responses(g.db, first, g.last, choice);
    ReadyHolds(b, g, first);
    var items := Between(g.db.services, first, g.last + 1);
    if items == [] {
      NoServiceAnswer(b);
      AfterServiceAnswer(b, g, first, HANDLE_MAXIMUM);
    } else {
      ServicesBatch(b, g, first, choice, Batch(items, choice.size));
    }
  }

  lemma NoServiceAnswer(b: Builder)
    ensures DeliverAll(b, [ServiceEvent(AttributeNotFound, 0, 0, 0, true, Return)])
            == Next(ServicesContinue(b, HANDLE_MAXIMUM))
  {
    DeliverOne(b, ServiceEvent(AttributeNotFound, 0, 0, 0, true, Return));
  }

  lemma ServicesBatch(b: Builder, g: Goal, first: Handle, choice: Choice, batch: seq<Item>)
    requires InOrder(g.db) && Ready(b, g) && Between(g.db.services, first, g.last + 1) != []
    requires batch == Batch(Between(g.db.services, first, g.last + 1), choice.size)
    ensures batch != [] && ServicesTurned(b, AsSystem(DeliverAll(b, ServiceEvents(batch)), |b.calls|), g, first)
  {
    BatchInRange(g.db.services, first, g.last, choice.size);
    PlacesServices(b, batch);
    ServiceEventsDo(b, batch);
    var x, b1 := batch[|batch| - 1], PlaceServices(b, batch).builder;
    assert x in batch;
    assert Ready(b1, g) && Stock(b1) == Stock(b) && b1.calls == b.calls && first <= x.last;
    hide Between, Batch, PlaceServices, ServicesContinue, DeliverAll, ServiceEvents, Stock, Ready, NewRequest;
    AfterServiceAnswer(b1, g, first, x.last);
  }

  /** What asking for descriptors from position `p` on leads to. */
  ghost predicate DescriptorsTurned(services: seq<Service>, s': System, p: Position, stray: Handle) {
    s'.Live? && s'.request.Some? ==>
      && s'.request.value.Descriptors?
      && s'.builder.container == Some(services) && s'.builder.cursor.Some?
      && var q := s'.builder.cursor.value;
         (q == p || Before(p, q)) && OpenRequest(services, q, stray, s'.request.value.first, s'.request.value.last)
  }

  /** A discovery that ends has found no open characteristic from `p` on. */
  ghost predicate EndedFrom(services: seq<Service>, s': System, p: Position, stray: Handle) {
    s'.Live? && s'.request.None? ==>
      && s'.builder.container == Some(services)
      && forall q :: At(services, q) && (q == p || Before(p, q)) ==> !Open(services, q, stray)
  }

  lemma FromPosition(b: Builder, p: Position, stray: Handle, error: ErrorCode)
    requires b.container.Some?
    ensures var s' := AsSystem(DescriptorsFrom(b, p, stray, error, Return), |b.calls|);
            && DescriptorsTurned(b.container.value, s', p, stray) && EndedFrom(b.container.value, s', p, stray)
            && Asks(b, s')
  {
  }

  /** The turn of a characteristics request. */
  ghost predicate CharacteristicsTurned(b: Builder, s': System, g: Goal, first: Handle, stray: Handle)
    requires b.container.Some?
  {
    Asks(b, s') &&
    (s'.Live? && s'.request.Some? ==>
      match s'.request.value
      case PrimaryServices(_, _) => false
      case Characteristics(first', last') =>
        first < first' <= last' == g.last && CleanCut(g, first') && Ready(s'.builder, g)
            && Stock(s'.builder) == Stock(b)
      case Descriptors(first', last') =>
        && s'.builder.container.Some? && s'.builder.cursor.Some?
        && OpenRequest(s'.builder.container.value, s'.builder.cursor.value, stray, first', last')
        && CountFrom(s'.builder.container.value, 0) <= Stock(b))
  }

  lemma AfterCharacteristicAnswer(b: Builder, g: Goal, first: Handle, last: Handle, stray: Handle, error: ErrorCode)
    requires Ready(b, g) && first <= last && (last < g.last ==> CleanCut(g, last + 1))
    ensures CharacteristicsTurned(b, AsSystem(CharacteristicsContinue(b, last, stray, error, Return), |b.calls|), g,
                                  first, stray)
  {
    FromPosition(b, Begin(b.container.value), stray, error);
    hide DescriptorsFrom;
  }

  lemma CleanBehind(g: Goal, x: Item)
    requires Ordered(g.db.characteristics) && x in g.db.characteristics
    ensures CleanCut(g, x.last + 1)
  {
  }

  lemma CharacteristicsProgress(b: Builder, g: Goal, first: Handle, choice: Choice)
    requires InOrder(g.db) && Ready(b, g) && g.first <= first <= g.last
    ensures b.container.Some?
    ensures CharacteristicsTurned(b, Turn(g.db, Live(b, Some(Characteristics(first, g.last))), choice), g, first,
                                  choice.stray)
  {
    hide *;
    TurnIs(g.db, b, Characteristics(first, g.last), choice);
    Responses(g.db, first, g.last, choice);
    ReadyHolds(b, g, first);
    var items := Between(g.db.characteristics, first, g.last + 1);
    if items == [] {
      NoCharacteristicAnswer(b, choice.stray);
      AfterCharacteristicAnswer(b, g, first, HANDLE_MAXIMUM, choice.stray, AttributeNotFound);
    } else {
      CharacteristicsBatch(b, g, first, choice, Batch(items, choice.size));
    }
  }

  lemma ReadyHolds(b: Builder, g: Goal, first: Handle)
    requires Ready(b, g)
    ensures b.container.Some? && first <= HANDLE_MAXIMUM && g.last <= HANDLE_MAXIMUM
  {
  }

  lemma NoCharacteristicAnswer(b: Builder, stray: Handle)
    ensures DeliverAll(b, [CharacteristicEvent(AttributeNotFound, 0, 0, 0, true, stray, Return)])
         == CharacteristicsContinue(b, HANDLE_MAXIMUM, stray, AttributeNotFound, Return)
  {
    DeliverOne(b, CharacteristicEvent(AttributeNotFound, 0, 0, 0, true, stray, Return));
  }

  lemma CharacteristicsBatch(b: Builder, g: Goal, first: Handle, choice: Choice, batch: seq<Item>)
    requires InOrder(g.db) && Ready(b, g) && Between(g.db.characteristics, first, g.last + 1) != []
    requires batch == Batch(Between(g.db.characteristics, first, g.last + 1), choice.size)
    ensures batch != []
    ensures CharacteristicsTurned(b, AsSystem(DeliverAll(b, CharacteristicEvents(batch, choice.stray)), |b.calls|), g,
                                  first,
                                  choice.stray)
  {
    BatchInRange(g.db.characteristics, first, g.last, choice.size);
    PlacesCharacteristics(b, batch);
    CharacteristicEventsDo(b, batch, choice.stray);
    var x, b1 := batch[|batch| - 1], PlaceCharacteristics(b, batch).builder;
    assert x in batch;
    assert Ready(b1, g) && Stock(b1) == Stock(b) && b1.calls == b.calls && first <= x.last
           && Ordered(g.db.characteristics);
    hide *;
    CleanBehind(g, x);
    AfterCharacteristicAnswer(b1, g, first, x.last, choice.stray, Success);
    SameTurned(b, b1, AsSystem(CharacteristicsContinue(b1, x.last, choice.stray, Success, Return), |b.calls|), g,
               first, choice.stray);
  }

  lemma SameTurned(b: Builder, b1: Builder, s': System, g: Goal, first: Handle, stray: Handle)
    requires b.container.Some? && b1.container.Some? && Stock(b1) == Stock(b)
    requires b1.calls == b.calls && b1.completion == b.completion
    requires CharacteristicsTurned(b1, s', g, first, stray)
    ensures CharacteristicsTurned(b, s', g, first, stray)
  {
  }

  /** The turn of a descriptors request for the characteristic at `p`. */
  ghost predicate BehindCursor(b: Builder, s': System, p: Position, stray: Handle)
    requires b.container.Some? && At(b.container.value, p)
  {
    Asks(b, s') &&
    (s'.Live? && s'.request.Some? ==>
      && s'.request.value.Descriptors?
      && s'.builder.container.Some? && s'.builder.cursor.Some?
      && OnlyAt(b.container.value, s'.builder.container.value, p)
      && var q := s'.builder.cursor.value;
         Before(p, q) && OpenRequest(s'.builder.container.value, q, stray, s'.request.value.first,
                                     s'.request.value.last))
  }

  lemma AfterDescriptorAnswer(b: Builder, b1: Builder, p: Position, stray: Handle, error: ErrorCode)
    requires b.container.Some? && At(b.container.value, p)
    requires b1.container.Some? && b1.cursor == Some(p) && b1.calls == b.calls && b1.completion == b.completion
             && OnlyAt(b.container.value, b1.container.value, p)
    ensures BehindCursor(b, AsSystem(DescriptorsContinue(b1, stray, error, Return), |b.calls|), p, stray)
  {
    var services := b1.container.value;
    IncrementIsLeastAfter(services, p);
    FromPosition(b1, Increment(services, p), stray, error);
    hide DescriptorsFrom, Increment, OnlyAt;
  }

  lemma DescriptorsProgress(b: Builder, g: Goal, p: Position, first: Handle, last: Handle, choice: Choice)
    requires b.container.Some? && b.cursor == Some(p) && At(b.container.value, p)
    ensures BehindCursor(b, Turn(g.db, Live(b, Some(Descriptors(first, last))), choice), p, choice.stray)
  {
    TurnIs(g.db, b, Descriptors(first, last), choice);
    Responses(g.db, first, last, choice);
    var items := Between(g.db.attributes, first, last + 1);
    if items == [] {
      var event := DescriptorEvent(AttributeNotFound, 0, true, choice.stray, Return);
      DeliverOne(b, event);
      assert Deliver(b, event) == DescriptorsContinue(b, choice.stray, AttributeNotFound, Return);
      hide Turn, Respond, Between, DescriptorsContinue, Deliver;
      AfterDescriptorAnswer(b, b, p, choice.stray, AttributeNotFound);
    } else {
      BatchIsPrefix(items, choice.size);
      var batch := Batch(items, choice.size);
      hide Turn, Respond, Between, DescriptorsContinue, Batch, PlaceDescriptors, OnlyAt;
      var o := PlaceDescriptors(b, batch);
      if o.Fault? {
        DescriptorFaults(b, batch, choice.stray);
      } else {
        PlacesDescriptors(b, p, batch);
        DescriptorEventsDo(b, batch, choice.stray);
        AfterDescriptorAnswer(b, o.builder, p, choice.stray, Success);
      }
    }
  }

  // ----- Every turn -----

  lemma OpenIs(services: seq<Service>, p: Position, stray: Handle, first: Handle, last: Handle)
    requires OpenRequest(services, p, stray, first, last)
    ensures At(services, p) && first == CharacteristicAt(services, p).handle && first + 2 <= last
  {
  }

  /** `s'` is in step, has less left than `s` and asks for what comes after. */
  ghost predicate Progress(s: System, s': System, g: Goal, stray: Handle) {
    InStep(s, g) && InStep(s', g) && Left(s', g) < Left(s, g) && Advances(s, s', g, stray)
        && (s.Live? ==> Asks(s.builder, s'))
  }

  lemma ServicesAdvance(b: Builder, s': System, g: Goal, first: Handle, stray: Handle)
    requires Ready(b, g) && g.first <= first <= g.last && ServicesTurned(b, s', g, first)
    ensures Progress(Live(b, Some(PrimaryServices(first, g.last))), s', g, stray)
  {
    hide CountFrom;
  }

  lemma CharacteristicsAdvance(b: Builder, s': System, g: Goal, first: Handle, stray: Handle)
    requires Ready(b, g) && g.first <= first <= g.last && CleanCut(g, first)
             && CharacteristicsTurned(b, s', g, first, stray)
    ensures Progress(Live(b, Some(Characteristics(first, g.last))), s', g, stray)
  {
    hide CountFrom, OpenRequest, CleanCut, HandleRange;
    if s'.Live? && s'.request.Some? && s'.request.value.Descriptors? {
      var services, q := s'.builder.container.value, s'.builder.cursor.value;
      OpenIs(services, q, stray, s'.request.value.first, s'.request.value.last);
      RemainingBound(services, q);
    }
  }

  lemma DescriptorsAdvance(b: Builder, s': System, g: Goal, first: Handle, last: Handle, stray: Handle)
    requires InStep(Live(b, Some(Descriptors(first, last))), g) && BehindCursor(b, s', b.cursor.value, stray)
    ensures Progress(Live(b, Some(Descriptors(first, last))), s', g, stray)
  {
    hide CountFrom, OpenRequest, CleanCut, HandleRange;
    if s'.Live? && s'.request.Some? {
      var p, services, services', q := b.cursor.value, b.container.value, s'.builder.container.value,
          s'.builder.cursor.value;
      OpenIs(services', q, stray, s'.request.value.first, s'.request.value.last);
      RemainingLess(services', p, q);
      CountByLength(services, services', p.service + 1);
    }
  }

  /** Each answered request leaves less to do, and the next one comes later. */
  lemma TurnProgress(s: System, g: Goal, choice: Choice)
    requires InOrder(g.db) && InStep(s, g) && s.Live? && s.request.Some?
    ensures Progress(s, Turn(g.db, s, choice), g, choice.stray)
  {
    var b, s' := s.builder, Turn(g.db, s, choice);
    assert s == Live(b, Some(s.request.value));
    hide Turn, Stock, Progress, Advances, ServicesTurned, CharacteristicsTurned, BehindCursor;
    match s.request.value
    case PrimaryServices(first, last) =>
      ServicesProgress(b, g, first, choice);
      ServicesAdvance(b, s', g, first, choice.stray);
    case Characteristics(first, last) =>
      CharacteristicsProgress(b, g, first, choice);
      CharacteristicsAdvance(b, s', g, first, choice.stray);
    case Descriptors(first, last) =>
      DescriptorsProgress(b, g, b.cursor.value, first, last, choice);
      DescriptorsAdvance(b, s', g, first, last, choice.stray);
  }

  lemma StartInStep(b: Builder, services: seq<Service>, g: Goal)
    requires g.first <= g.last
    ensures InStep(Start(b, services, g), g)
    ensures Left(Start(b, services, g), g)
         == 2 * (g.last - g.first + 1) + |b.free.characteristics| + CountFrom(services, 0)
  {
  }

  lemma {:induction false} TurnsInStep(s: System, g: Goal, choices: seq<Choice>)
    requires InOrder(g.db) && InStep(s, g)
    ensures InStep(Turns(g.db, s, choices), g)
    ensures Left(s, g) <= |choices| ==> Left(Turns(g.db, s, choices), g) == 0
    decreases |choices|
  {
    if choices != [] {
      if s.Live? && s.request.Some? {
        TurnProgress(s, g, choices[0]);
      } else {
        assert Turn(g.db, s, choices[0]) == s;
      }
      hide Turn, Left, InStep;
      TurnsInStep(Turn(g.db, s, choices[0]), g, choices[1..]);
    }
  }

  lemma NothingLeft(s: System, g: Goal)
    requires InStep(s, g) && Left(s, g) == 0
    ensures s.Broken? || s.request.None?
  {
    if s.Live? && s.request.Some? && s.request.value.Descriptors? {
      RemainingBound(s.builder.container.value, s.builder.cursor.value);
    }
  }

  /**
   Every discovery ends, with whatever pools, into whatever container, and whatever the peer's attributes
   and batches: after at most two responses for each handle of the range and one for each characteristic
   that is in the container or that there is a node for.
   */
  lemma EveryDiscoveryEnds(b: Builder, services: seq<Service>, g: Goal, choices: seq<Choice>)
    requires InOrder(g.db) && g.first <= g.last
    requires |choices| >= 2 * (g.last - g.first + 1) + |b.free.characteristics| + CountFrom(services, 0)
    ensures var s := Turns(g.db, Start(b, services, g), choices);
            s.Broken? || s.request.None?
  {
    hide Turns, Start, Left, InStep, CountFrom;
    StartInStep(b, services, g);
    TurnsInStep(Start(b, services, g), g, choices);
    NothingLeft(Turns(g.db, Start(b, services, g), choices), g);
  }

  /**
   At every turn of every discovery, into whatever container: phases never go back; within a phase the
   requests advance, in the descriptor phase from one characteristic to a later one; and service and
   characteristic requests stay in the range, despite the 16-bit `+ 1u`.
   */
  lemma EveryTurnAdvances(b: Builder, services: seq<Service>, g: Goal, choices: seq<Choice>, choice: Choice)
    requires InOrder(g.db) && g.first <= g.last
    ensures var s := Turns(g.db, Start(b, services, g), choices);
            Advances(s, Turn(g.db, s, choice), g, choice.stray)
  {
    StartInStep(b, services, g);
    TurnsInStep(Start(b, services, g), g, choices);
    var s := Turns(g.db, Start(b, services, g), choices);
    if s.Live? && s.request.Some? {
      TurnProgress(s, g, choice);
    }
  }

  // ----- Declarations in order -----

  /** The declarations increase from position to position. */
  ghost predicate Declared(services: seq<Service>) {
    forall p, q :: At(services, p) && At(services, q) && Before(p, q) ==>
      CharacteristicAt(services, p).handle < CharacteristicAt(services, q).handle
  }

  /** Services below `cut`, in order and without characteristics. */
  ghost predicate Listed(services: seq<Service>, cut: int) {
    && Increasing(services)
    && forall i :: 0 <= i < |services| ==> services[i].handle < cut && services[i].characteristics == []
  }

  /** Services in order, with characteristics in order, each below `cut` and not below its service. */
  ghost predicate Sorted(services: seq<Service>, cut: int) {
    && Increasing(services) && Declared(services)
    && forall p :: At(services, p) ==> services[p.service].handle <= CharacteristicAt(services, p).handle < cut
  }

  ghost predicate Rising(s: System) {
    match s
    case Live(b, Some(PrimaryServices(first, _))) => b.container.Some? && Listed(b.container.value, first)
    case Live(b, Some(Characteristics(first, _))) => b.container.Some? && Sorted(b.container.value, first)
    case Live(b, Some(Descriptors(_, _))) => b.container.Some? && Declared(b.container.value)
    case _ => true
  }

  lemma PlacesListedOne(b: Builder, x: Item, cut: int)
    requires b.container.Some? && Listed(b.container.value, cut) && cut <= x.first <= x.last
    ensures var o := PlaceService(b, x.first, x.uuid);
            o.Next? && o.builder.container.Some? && Listed(o.builder.container.value, x.last + 1)
  {
  }

  lemma {:induction false} PlacesListed(b: Builder, items: seq<Item>, cut: int)
    requires b.container.Some? && Listed(b.container.value, cut)
    requires items != [] && Ordered(items) && forall x :: x in items ==> cut <= x.first
    ensures PlaceServices(b, items).Next? && PlaceServices(b, items).builder.container.Some?
    ensures Listed(PlaceServices(b, items).builder.container.value, items[|items| - 1].last + 1)
    decreases |items|
  {
    var x := items[0];
    OrderedTail(items);
    PlacesListedOne(b, x, cut);
    hide *;
    var b1 := PlaceService(b, x.first, x.uuid).builder;
    PlaceServicesHead(b, b1, items);
    if |items| > 1 {
      PlacesListed(b1, items[1..], x.last + 1);
    }
  }

  /** A characteristic that comes behind all others is filed behind all others. */
  lemma PlacesSortedOne(b: Builder, x: Item, cut: int)
    requires b.container.Some? && Sorted(b.container.value, cut) && cut <= x.first <= x.last
    ensures var o := PlaceCharacteristic(b, x.first, x.last, x.uuid);
            o.Next? && o.builder.container.Some? && Sorted(o.builder.container.value, x.last + 1)
  {
    var services := b.container.value;
    var owner := FindService(services, x.first);
    if owner.Some? && b.free.characteristics != [] {
      var c := Characteristic(b.free.characteristics[0], x.first, x.last, x.uuid, []);
      FilesLast(services, owner.value, c, cut);
    }
  }

  /** Behind the service a handle belongs to, services begin behind the handle. */
  lemma BehindFound(services: seq<Service>, i: nat, handle: Handle, j: nat)
    requires Increasing(services) && FindService(services, handle) == Some(i) && i < j < |services|
    ensures handle < services[j].handle
  {
  }

  lemma NoneBehind(services: seq<Service>, i: nat, handle: Handle, cut: int, p: Position)
    requires Sorted(services, cut) && cut <= handle && FindService(services, handle) == Some(i) && At(services, p)
    ensures p.service <= i < |services|
  {
    hide FindService;
    if i < p.service {
      BehindFound(services, i, handle, p.service);
      assert false;
    }
  }

  /** The characteristics after filing: the new one, and before it the old ones. */
  lemma FiledPlace(services: seq<Service>, c: Characteristic, i: nat, cut: int, p: Position)
    requires Sorted(services, cut) && cut <= c.handle && FindService(services, c.handle) == Some(i) && i < |services|
    requires At(AddCharacteristic(services, i, c), p)
    ensures var after, place := AddCharacteristic(services, i, c), Position(i, Length(services, i));
            if p == place then CharacteristicAt(after, p) == c
            else At(services, p) && CharacteristicAt(after, p) == CharacteristicAt(services, p) && Before(p, place)
  {
    var place := Position(i, Length(services, i));
    hide FindService, Sorted;
    if p != place {
      assert At(services, p);
      NoneBehind(services, i, c.handle, cut, p);
    }
  }

  lemma FilesLast(services: seq<Service>, i: nat, c: Characteristic, cut: int)
    requires Sorted(services, cut) && cut <= c.handle && FindService(services, c.handle) == Some(i) && i < |services|
    ensures Sorted(AddCharacteristic(services, i, c), c.handle + 1)
  {
    var after := AddCharacteristic(services, i, c);
    assert Increasing(after) && forall s :: 0 <= s < |services| ==> after[s].handle == services[s].handle;
    assert services[i].handle <= c.handle;
    forall p | At(after, p)
      ensures after[p.service].handle <= CharacteristicAt(after, p).handle <= c.handle
    {
      hide FindService, AddCharacteristic;
      FiledPlace(services, c, i, cut, p);
    }
    forall p, q | At(after, p) && At(after, q) && Before(p, q)
      ensures CharacteristicAt(after, p).handle < CharacteristicAt(after, q).handle
    {
      hide FindService, AddCharacteristic;
      FiledPlace(services, c, i, cut, p);
      FiledPlace(services, c, i, cut, q);
    }
    hide FindService, AddCharacteristic;
  }

  lemma {:induction false} PlacesSorted(b: Builder, items: seq<Item>, cut: int)
    requires b.container.Some? && Sorted(b.container.value, cut)
    requires items != [] && Ordered(items) && forall x :: x in items ==> cut <= x.first
    ensures PlaceCharacteristics(b, items).Next? && PlaceCharacteristics(b, items).builder.container.Some?
    ensures Sorted(PlaceCharacteristics(b, items).builder.container.value, items[|items| - 1].last + 1)
    decreases |items|
  {
    hide *;
    var x := items[0];
    OrderedTail(items);
    PlacesSortedOne(b, x, cut);
    var b1 := PlaceCharacteristic(b, x.first, x.last, x.uuid).builder;
    PlaceCharacteristicsHead(b, b1, items);
    if |items| > 1 {
      PlacesSorted(b1, items[1..], x.last + 1);
    }
  }

  lemma OnlyAtDeclared(a: seq<Service>, b: seq<Service>, p: Position)
    requires OnlyAt(a, b, p) && Declared(a)
    ensures Declared(b)
    ensures CharacteristicAt(a, p).handle == CharacteristicAt(b, p).handle
  {
    forall q | At(b, q)
      ensures At(a, q) && CharacteristicAt(a, q).handle == CharacteristicAt(b, q).handle
    {
      assert Info(CharacteristicAt(a, p)) == Info(CharacteristicAt(b, p));
      if q != p {
        assert At(a, q) && CharacteristicAt(a, q) == CharacteristicAt(b, q);
      }
    }
  }

  lemma AfterServicesRising(b: Builder, last: Handle)
    requires b.container.Some? && (RangeDone(b, last) || Listed(b.container.value, last + 1))
    requires exists cut :: Listed(b.container.value, cut)
    ensures Rising(AsSystem(Next(ServicesContinue(b, last)), |b.calls|))
  {
  }

  lemma AfterCharacteristicsRising(b: Builder, last: Handle, stray: Handle, error: ErrorCode)
    requires b.container.Some? && (RangeDone(b, last) || Sorted(b.container.value, last + 1))
             && Declared(b.container.value)
    ensures Rising(AsSystem(CharacteristicsContinue(b, last, stray, error, Return), |b.calls|))
  {
    FromPosition(b, Begin(b.container.value), stray, error);
    hide DescriptorsFrom, Sorted, Declared;
  }

  lemma ServicesRising(b: Builder, g: Goal, first: Handle, choice: Choice)
    requires InOrder(g.db) && b.container.Some? && Listed(b.container.value, first)
    ensures Rising(Turn(g.db, Live(b, Some(PrimaryServices(first, g.last))), choice))
  {
    hide *;
    TurnIs(g.db, b, PrimaryServices(first, g.last), choice);
    Responses(g.db, first, g.last, choice);
    var items := Between(g.db.services, first, g.last + 1);
    if items == [] {
      NoServiceAnswer(b);
      DoneAtMaximum(b);
      AfterServicesRising(b, HANDLE_MAXIMUM);
    } else {
      ServicesBatchRising(b, g, first, choice, Batch(items, choice.size));
    }
  }

  lemma DoneAtMaximum(b: Builder)
    ensures RangeDone(b, HANDLE_MAXIMUM)
  {
  }

  lemma OrderOf(db: Database)
    requires InOrder(db)
    ensures Ordered(db.services) && Ordered(db.characteristics)
  {
  }

  lemma OngoingIs(b: Builder, b': Builder)
    requires Ongoing(b, b')
    ensures b'.container.Some? && b'.calls == b.calls
  {
  }

  lemma ServicesBatchRising(b: Builder, g: Goal, first: Handle, choice: Choice, batch: seq<Item>)
    requires InOrder(g.db) && b.container.Some? && Listed(b.container.value, first)
    requires Between(g.db.services, first, g.last + 1) != []
    requires batch == Batch(Between(g.db.services, first, g.last + 1), choice.size)
    ensures batch != [] && Rising(AsSystem(DeliverAll(b, ServiceEvents(batch)), |b.calls|))
  {
    hide *;
    OrderOf(g.db);
    BatchInRange(g.db.services, first, g.last, choice.size);
    PlacesServices(b, batch);
    PlacesListed(b, batch, first);
    ServiceEventsDo(b, batch);
    var b1 := PlaceServices(b, batch).builder;
    OngoingIs(b, b1);
    AfterServicesRising(b1, batch[|batch| - 1].last);
  }

  lemma CharacteristicsRising(b: Builder, g: Goal, first: Handle, choice: Choice)
    requires InOrder(g.db) && b.container.Some? && Sorted(b.container.value, first)
    ensures Rising(Turn(g.db, Live(b, Some(Characteristics(first, g.last))), choice))
  {
    hide *;
    TurnIs(g.db, b, Characteristics(first, g.last), choice);
    Responses(g.db, first, g.last, choice);
    var items := Between(g.db.characteristics, first, g.last + 1);
    if items == [] {
      NoCharacteristicAnswer(b, choice.stray);
      DoneAtMaximum(b);
      SortedDeclared(b.container.value, first);
      AfterCharacteristicsRising(b, HANDLE_MAXIMUM, choice.stray, AttributeNotFound);
    } else {
      CharacteristicsBatchRising(b, g, first, choice, Batch(items, choice.size));
    }
  }

  lemma CharacteristicsBatchRising(b: Builder, g: Goal, first: Handle, choice: Choice, batch: seq<Item>)
    requires InOrder(g.db) && b.container.Some? && Sorted(b.container.value, first)
    requires Between(g.db.characteristics, first, g.last + 1) != []
    requires batch == Batch(Between(g.db.characteristics, first, g.last + 1), choice.size)
    ensures batch != [] && Rising(AsSystem(DeliverAll(b, CharacteristicEvents(batch, choice.stray)), |b.calls|))
  {
    hide *;
    OrderOf(g.db);
    BatchInRange(g.db.characteristics, first, g.last, choice.size);
    PlacesCharacteristics(b, batch);
    PlacesSorted(b, batch, first);
    CharacteristicEventsDo(b, batch, choice.stray);
    var b1, x := PlaceCharacteristics(b, batch).builder, batch[|batch| - 1];
    OngoingIs(b, b1);
    SortedDeclared(b1.container.value, x.last + 1);
    AfterCharacteristicsRising(b1, x.last, choice.stray, Success);
  }

  lemma SortedDeclared(services: seq<Service>, cut: int)
    requires Sorted(services, cut)
    ensures Declared(services)
  {
  }

  /** In the descriptor phase the handles asked for increase. */
  ghost predicate HandlesRise(s: System, s': System) {
    s.Live? && s.request.Some? && s.request.value.Descriptors? && s'.Live? && s'.request.Some? ==>
      s.request.value.first < s'.request.value.first
  }

  lemma DescriptorsRising(b: Builder, g: Goal, first: Handle, last: Handle, choice: Choice)
    requires InStep(Live(b, Some(Descriptors(first, last))), g) && Declared(b.container.value)
    ensures var s := Live(b, Some(Descriptors(first, last)));
            Rising(Turn(g.db, s, choice)) && HandlesRise(s, Turn(g.db, s, choice))
  {
    var p, s' := b.cursor.value, Turn(g.db, Live(b, Some(Descriptors(first, last))), choice);
    DescriptorsProgress(b, g, p, first, last, choice);
    hide Turn, OpenRequest, Declared, OnlyAt;
    if s'.Live? && s'.request.Some? {
      var services, q := s'.builder.container.value, s'.builder.cursor.value;
      OnlyAtDeclared(b.container.value, services, p);
      OpenIs(services, q, choice.stray, s'.request.value.first, s'.request.value.last);
      DeclaredOrder(services, p, q);
    }
  }

  lemma DeclaredOrder(services: seq<Service>, p: Position, q: Position)
    requires Declared(services) && At(services, q) && Before(p, q)
    ensures At(services, p) ==> CharacteristicAt(services, p).handle < CharacteristicAt(services, q).handle
  {
  }

  lemma TurnRising(s: System, g: Goal, choice: Choice)
    requires InOrder(g.db) && InStep(s, g) && Rising(s)
    ensures Rising(Turn(g.db, s, choice)) && HandlesRise(s, Turn(g.db, s, choice))
  {
    if s.Live? && s.request.Some? {
      var b := s.builder;
      assert s == Live(b, Some(s.request.value));
      hide Turn, Listed, Sorted, Declared;
      match s.request.value
      case PrimaryServices(first, last) => ServicesRising(b, g, first, choice);
      case Characteristics(first, last) => CharacteristicsRising(b, g, first, choice);
      case Descriptors(first, last) => DescriptorsRising(b, g, first, last, choice);
    }
  }

  lemma {:induction false} TurnsRising(s: System, g: Goal, choices: seq<Choice>)
    requires InOrder(g.db) && InStep(s, g) && Rising(s)
    ensures InStep(Turns(g.db, s, choices), g) && Rising(Turns(g.db, s, choices))
    decreases |choices|
  {
    if choices != [] {
      TurnRising(s, g, choices[0]);
      if s.Live? && s.request.Some? {
        TurnProgress(s, g, choices[0]);
      } else {
        assert Turn(g.db, s, choices[0]) == s;
      }
      hide Turn, Left, InStep, Rising;
      TurnsRising(Turn(g.db, s, choices[0]), g, choices[1..]);
    }
  }

  /**
   Into an empty container, with whatever pools: in each of the three phases every request begins at a later
   handle than the one before.
   */
  lemma RequestsAdvance(b: Builder, g: Goal, choices: seq<Choice>, choice: Choice)
    requires InOrder(g.db) && g.first <= g.last
    ensures var s := Turns(g.db, Start(b, [], g), choices);
            var s' := Turn(g.db, s, choice);
            s.Live? && s.request.Some? && s'.Live? && s'.request.Some? ==>
              match s'.request.value
              case PrimaryServices(first', last') => s.request.value.PrimaryServices?
                  && s.request.value.first < first' <= last' == g.last
              case Characteristics(first', last') =>
                && g.first <= first' <= last' == g.last
                && !s.request.value.Descriptors?
                   && (s.request.value.Characteristics? ==> s.request.value.first < first')
              case Descriptors(first', last') =>
                first' + 2 <= last' && (s.request.value.Descriptors? ==> s.request.value.first < first')
  {
    StartInStep(b, [], g);
    assert Rising(Start(b, [], g));
    TurnsRising(Start(b, [], g), g, choices);
    var s := Turns(g.db, Start(b, [], g), choices);
    if s.Live? && s.request.Some? {
      TurnProgress(s, g, choice);
      TurnRising(s, g, choice);
      hide Turn, Turns, Rising, OpenRequest, Left;
    }
  }

  // ----- Errors in the course of a discovery -----

  /** While a request is outstanding the callback waits, and it has not been called since the start. */
  ghost predicate Waiting(s: System, g: Goal, r: Registration, calls: nat) {
    s.Live? && s.request.Some? ==> s.builder.completion == g.notify && Calls(s.builder.calls, r) == calls
  }

  lemma {:induction false} TurnsWait(s: System, g: Goal, choices: seq<Choice>, r: Registration, calls: nat)
    requires InOrder(g.db) && InStep(s, g) && Waiting(s, g, r, calls)
    ensures Waiting(Turns(g.db, s, choices), g, r, calls)
    decreases |choices|
  {
    if choices != [] {
      var s' := Turn(g.db, s, choices[0]);
      if s.Live? && s.request.Some? {
        TurnProgress(s, g, choices[0]);
        StillWaiting(s, s', g, r, calls);
      } else {
        assert s' == s;
      }
      hide Turn, Left, InStep, Waiting;
      TurnsWait(s', g, choices[1..], r, calls);
    }
  }

  lemma StillWaiting(s: System, s': System, g: Goal, r: Registration, calls: nat)
    requires s.Live? && s.request.Some? && Waiting(s, g, r, calls) && Asks(s.builder, s')
    ensures Waiting(s', g, r, calls)
  {
    if s'.Live? && s'.request.Some? {
      CallsAppend(s.builder.calls, Requested(s'.request.value), r);
    }
  }

  /**
   An error in answer to any request of any discovery ends it: the callback is called with that error, it is
   its only call, and what was found stays as it is.
   */
  lemma ErrorEndsDiscovery(b: Builder, services: seq<Service>, g: Goal, choices: seq<Choice>, e: Event,
                           r: Registration, code: nat)
    requires InOrder(g.db) && g.first <= g.last && g.notify == Some(r) && Calls(b.calls, r) == 0
    requires e.error == Failure(code) && e.reaction == Return
    ensures var s := Turns(g.db, Start(b, services, g), choices);
            s.Live? && s.request.Some? ==>
              && Deliver(s.builder, e).Next?
              && var b' := Deliver(s.builder, e).builder;
                 && b'.calls == s.builder.calls + [Notified(r, Failure(code))] && Calls(b'.calls, r) == 1
                 && b'.completion == None && b'.container == s.builder.container && b'.free == s.builder.free
  {
    StartInStep(b, services, g);
    StartWaits(b, services, g, r);
    hide Turns, Start, InStep, Deliver;
    TurnsWait(Start(b, services, g), g, choices, r, 0);
    var s := Turns(g.db, Start(b, services, g), choices);
    if s.Live? && s.request.Some? {
      FailureReported(s.builder, e, code);
      CallsAppend(s.builder.calls, Notified(r, Failure(code)), r);
    }
  }

  lemma StartWaits(b: Builder, services: seq<Service>, g: Goal, r: Registration)
    ensures Waiting(Start(b, services, g), g, r, Calls(b.calls, r))
  {
    var request := PrimaryServices(g.first, g.last);
    CallsAppend(b.calls, Requested(request), r);
    AcceptedStart(b, services, g.first, g.last, g.notify);
    assert NewRequest(DiscoverServices(b, services, g.first, g.last, g.notify, true), |b.calls|) == Some(request);
    hide Calls, DiscoverServices, NewRequest;
  }
}
