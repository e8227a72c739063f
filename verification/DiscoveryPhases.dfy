/** The first two phases of a discovery against a peer: services, then characteristics. */
module DiscoveryPhases {
  import opened Wrappers
  import opened GattContainer
  import opened Numbers
  import opened ServiceBuilder
  import opened BuilderInvariants
  import opened Peer

  /** One discovery: the peer, the requested handle range and the callback. */
  datatype Goal = Goal(db: Database, first: Handle, last: Handle, notify: Option<Registration>) {
    /** The services that begin in the range. */
    function Services(): seq<Item> {
      Between(db.services, first, last + 1)
    }
  }

  function Info(c: Characteristic): Item {
    Item(c.handle, c.valueHandle, c.uuid)
  }

  function Infos(cs: seq<Characteristic>): seq<Item> {
    seq(|cs|, i requires 0 <= i < |cs| => Info(cs[i]))
  }

  /** The peer's characteristics of a service that begin before `cut`. */
  function CharacteristicsOf(g: Goal, s: Item, cut: int): seq<Item> {
    Between(g.db.characteristics, s.first, Min(s.last + 1, cut))
  }

  /** The container's services are `items`, in order. */
  ghost predicate SameServices(services: seq<Service>, items: seq<Item>) {
    && |services| == |items|
    && forall i :: 0 <= i < |items| ==> services[i].handle == items[i].first && services[i].uuid == items[i].uuid
  }

  /** A service has the peer's characteristics that begin before `cut`. */
  ghost predicate HasShare(service: Service, s: Item, g: Goal, cut: int) {
    Infos(service.characteristics) == CharacteristicsOf(g, s, cut)
  }

  /** The container holds `items`, in order, each with the peer's characteristics up to `cut`. */
  ghost predicate Matches(services: seq<Service>, items: seq<Item>, g: Goal, cut: int) {
    && SameServices(services, items)
    && forall i :: 0 <= i < |items| ==> HasShare(services[i], items[i], g, cut)
  }

  /** What stays fixed until the callback is called. */
  ghost predicate Running(b: Builder, g: Goal) {
    && b.container.Some?
    && g.first <= g.last
    && b.rangeFirst == g.first && b.rangeLast == g.last
    && b.completion == g.notify
    && forall c :: c in b.calls ==> c.Requested?
  }

  /** How many characteristic nodes the descriptor phase may take from handle `from` on. */
  ghost function DescriptorNeed(b: Builder, g: Goal, from: int): nat {
    if b.free.descriptors == [] then 0 else |Between(g.db.attributes, from, 0x1_0000)|
  }

  /** `cut` may lie beyond the range, but no item begins in between. */
  ghost predicate CutAt(items: seq<Item>, g: Goal, cut: int) {
    g.first <= cut && Between(items, g.last + 1, cut) == []
  }

  /** Services that begin before `cut` are in the container, and there are nodes for the others. */
  ghost predicate ServicesInv(b: Builder, g: Goal, cut: int) {
    && Running(b, g)
    && CutAt(g.db.services, g, cut)
    && Matches(b.container.value, Between(g.db.services, g.first, cut), g, g.first)
    && |Between(g.db.services, cut, g.last + 1)| <= |b.free.services|
    && |Between(g.db.characteristics, g.first, g.last + 1)| + DescriptorNeed(b, g, g.first) <= |b.free.characteristics|
  }

  /** All services are in the container, with their characteristics that begin before `cut`. */
  ghost predicate CharacteristicsInv(b: Builder, g: Goal, cut: int) {
    && Running(b, g)
    && CutAt(g.db.characteristics, g, cut)
    && Matches(b.container.value, g.Services(), g, cut)
    && |Between(g.db.characteristics, cut, g.last + 1)| + DescriptorNeed(b, g, g.first) <= |b.free.characteristics|
    && NoDescriptors(b.container.value)
  }

  ghost predicate NoDescriptors(services: seq<Service>) {
    forall p :: At(services, p) ==> CharacteristicAt(services, p).descriptors == []
  }

  // ----- Services -----

  lemma BeforeFirstNoCharacteristics(g: Goal, s: Item)
    requires g.first <= s.first
    ensures CharacteristicsOf(g, s, g.first) == []
  {
    BetweenNone(g.db.characteristics, s.first, Min(s.last + 1, g.first));
  }

  /** After the first remaining item the cut is behind that item. */
  lemma NextCut(items: seq<Item>, g: Goal, cut: int)
    requires Ordered(items) && CutAt(items, g, cut) && Between(items, cut, g.last + 1) != []
    ensures var x := Between(items, cut, g.last + 1)[0];
            && x in items && cut <= x.first <= x.last && x.first <= g.last
            && CutAt(items, g, x.last + 1)
            && Between(items, cut, g.last + 1)[1..] == Between(items, x.last + 1, g.last + 1)
            && Between(items, g.first, x.last + 1) == Between(items, g.first, cut) + [x]
  {
    BetweenHead(items, cut, g.last + 1);
    BetweenGrow(items, g.first, cut, g.last + 1);
    var x := Between(items, cut, g.last + 1)[0];
    if g.last <= x.last {
      BetweenSplit(items, x.first, g.last + 1, x.last + 1);
      BetweenOne(items, x, g.last + 1);
      BetweenOne(items, x, x.last + 1);
    } else {
      BetweenNone(items, g.last + 1, x.last + 1);
    }
  }

  lemma PlacingService(b: Builder, g: Goal, cut: int) returns (b1: Builder)
    requires g.db.WellFormed() && ServicesInv(b, g, cut) && Between(g.db.services, cut, g.last + 1) != []
    ensures var x := Between(g.db.services, cut, g.last + 1)[0];
            && PlaceService(b, x.first, x.uuid) == Next(b1)
            && ServicesInv(b1, g, x.last + 1) && b1.calls == b.calls
            && cut <= x.last
            && Between(g.db.services, cut, g.last + 1)[1..] == Between(g.db.services, x.last + 1, g.last + 1)
  {
    hide *;
    DatabaseOrdered(g.db);
    ServicesInvGives(b, g, cut);
    NextCut(g.db.services, g, cut);
    var x := Between(g.db.services, cut, g.last + 1)[0];
    PlacedService(b, x);
    b1 := PlaceService(b, x.first, x.uuid).builder;
    ListingKeepsInv(b, b1, g, cut, x);
  }

  lemma ServicesInvGives(b: Builder, g: Goal, cut: int)
    requires ServicesInv(b, g, cut) && Between(g.db.services, cut, g.last + 1) != []
    ensures CutAt(g.db.services, g, cut) && b.container.Some? && b.free.services != []
  {
  }

  /** With a node to spare, placing a service appends it. */
  lemma PlacedService(b: Builder, x: Item)
    requires b.container.Some? && b.free.services != []
    ensures PlaceService(b, x.first, x.uuid) == Next(b.(free := b.free.(services := b.free.services[1..]),
                                                        container := Some(b.container.value
                                                            + [Service(b.free.services[0], x.first, x.uuid, [])])))
  {
  }

  lemma ListingKeepsInv(b: Builder, b1: Builder, g: Goal, cut: int, x: Item)
    requires ServicesInv(b, g, cut) && b.container.Some? && b.free.services != []
    requires b1 == b.(free := b.free.(services := b.free.services[1..]),
                      container := Some(b.container.value + [Service(b.free.services[0], x.first, x.uuid, [])]))
    requires g.first <= x.first && CutAt(g.db.services, g, x.last + 1) && Between(g.db.services, cut, g.last + 1) != []
    requires Between(g.db.services, cut, g.last + 1)[1..] == Between(g.db.services, x.last + 1, g.last + 1)
    requires Between(g.db.services, g.first, x.last + 1) == Between(g.db.services, g.first, cut) + [x]
    ensures ServicesInv(b1, g, x.last + 1)
  {
    BeforeFirstNoCharacteristics(g, x);
    var service := Service(b.free.services[0], x.first, x.uuid, []);
    assert HasShare(service, x, g, g.first);
    assert DescriptorNeed(b1, g, g.first) == DescriptorNeed(b, g, g.first);
    hide Between, HasShare;
    OneMoreService(b.container.value, Between(g.db.services, g.first, cut), g, service, x);
  }

  lemma OneMoreService(services: seq<Service>, items: seq<Item>, g: Goal, service: Service, x: Item)
    requires Matches(services, items, g, g.first) && HasShare(service, x, g, g.first)
    requires service.handle == x.first && service.uuid == x.uuid
    ensures Matches(services + [service], items + [x], g, g.first)
  {
    hide HasShare;
  }

  function PlaceServices(b: Builder, items: seq<Item>): Outcome
    decreases |items|
  {
    if items == [] then Next(b)
    else
      var placed := PlaceService(b, items[0].first, items[0].uuid);
      if placed.Fault? then Fault else PlaceServices(placed.builder, items[1..])
  }

  /** A batch of services is placed one by one; then the engine continues after the last of them. */
  lemma {:induction false} ServiceEventsDo(b: Builder, items: seq<Item>)
    requires items != [] && PlaceServices(b, items).Next?
    ensures DeliverAll(b, ServiceEvents(items))
            == Next(ServicesContinue(PlaceServices(b, items).builder, items[|items| - 1].last))
    decreases |items|
  {
    var x := items[0];
    var event := ServiceEvent(Success, x.first, x.last, x.uuid, |items| == 1, Return);
    if |items| == 1 {
      assert items[1..] == [];
      DeliverOne(b, event);
    } else {
      DeliverHead(b, event, ServiceEvents(items[1..]));
      ServiceEventsDo(PlaceService(b, x.first, x.uuid).builder, items[1..]);
    }
  }

  lemma {:induction false} PlacingServices(b: Builder, g: Goal, cut: int, items: seq<Item>) returns (b': Builder)
    requires g.db.WellFormed() && ServicesInv(b, g, cut)
    requires items != [] && items <= Between(g.db.services, cut, g.last + 1)
    ensures PlaceServices(b, items) == Next(b')
    ensures cut <= items[|items| - 1].last
    ensures ServicesInv(b', g, items[|items| - 1].last + 1) && b'.calls == b.calls
    decreases |items|
  {
    hide *;
    var rest := Between(g.db.services, cut, g.last + 1);
    assert items[0] == rest[0];
    var b1 := PlacingService(b, g, cut);
    PlaceServicesHead(b, b1, items);
    if |items| == 1 {
      b' := b1;
    } else {
      assert items[1..] <= rest[1..];
      b' := PlacingServices(b1, g, items[0].last + 1, items[1..]);
    }
  }

  lemma PlaceServicesHead(b: Builder, b1: Builder, items: seq<Item>)
    requires items != [] && PlaceService(b, items[0].first, items[0].uuid) == Next(b1)
    ensures PlaceServices(b, items) == PlaceServices(b1, items[1..])
    ensures |items| == 1 ==> PlaceServices(b, items) == Next(b1)
  {
  }

  lemma DeliverOne(b: Builder, e: Event)
    ensures DeliverAll(b, [e]) == Deliver(b, e)
  {
    var next := Deliver(b, e);
    if next.Next? {
      assert [e][1..] == [];
    }
  }

  lemma DeliverHead(b: Builder, e: Event, rest: seq<Event>)
    requires Deliver(b, e).Next?
    ensures DeliverAll(b, [e] + rest) == DeliverAll(Deliver(b, e).builder, rest)
  {
    assert ([e] + rest)[1..] == rest;
  }

  /** With nothing left in the range, what began before the cut is what begins in the range. */
  lemma AllSeen(items: seq<Item>, g: Goal, lo: int, cut: int)
    requires Ordered(items) && CutAt(items, g, cut) && lo <= cut && lo <= g.last + 1
    requires Between(items, cut, g.last + 1) == []
    ensures Between(items, lo, cut) == Between(items, lo, g.last + 1)
  {
    if cut <= g.last + 1 {
      BetweenSame(items, lo, cut, g.last + 1);
    } else {
      BetweenSame(items, lo, g.last + 1, cut);
    }
  }

  /** With no service left to find, the container is ready for characteristics. */
  lemma ServicesDone(b: Builder, g: Goal, cut: int)
    requires g.db.WellFormed() && ServicesInv(b, g, cut) && Between(g.db.services, cut, g.last + 1) == []
    ensures CharacteristicsInv(b, g, g.first)
  {
    assert Between(g.db.services, g.first, cut) == g.Services() by {
      AllSeen(g.db.services, g, g.first, cut);
    }
    BetweenNone(g.db.characteristics, g.last + 1, g.first);
    hide Between, Database.WellFormed;
    NothingPlacedYet(b.container.value, g);
  }

  lemma NothingPlacedYet(services: seq<Service>, g: Goal)
    requires Matches(services, g.Services(), g, g.first)
    ensures NoDescriptors(services)
  {
    forall i | 0 <= i < |services|
      ensures services[i].characteristics == []
    {
      NoShareYet(services[i], g, g.Services()[i]);
    }
  }

  lemma NoShareYet(service: Service, g: Goal, s: Item)
    requires HasShare(service, s, g, g.first) && s in g.Services()
    ensures service.characteristics == []
  {
    BetweenMember(g.db.services, g.first, g.last + 1, s);
    BeforeFirstNoCharacteristics(g, s);
    assert |Infos(service.characteristics)| == 0;
  }

  // ----- Characteristics -----

  /** The engine puts a characteristic under the service whose peer range contains it, and nowhere else. */
  lemma OwnerFound(services: seq<Service>, g: Goal, x: Item, i: nat)
    requires g.db.WellFormed() && SameServices(services, g.Services()) && i < |services|
    requires x in g.db.characteristics && g.first <= x.first <= g.last
    ensures FindService(services, x.first) == Some(i) <==> g.Services()[i].first <= x.first <= g.Services()[i].last
  {
    var items := g.Services();
    var owner := OwnerOf(g.db, x);
    DatabaseOrdered(g.db);
    BetweenOrdered(g.db.services, g.first, g.last + 1);
    FoundIs(services, items, x.first, i);
    BetweenMember(g.db.services, g.first, g.last + 1, items[i]);
    BetweenMember(g.db.services, g.first, g.last + 1, owner);
    Apart(g.db.services, owner, items[i]);
    if owner in items {
      OwnerIndex(services, items, x, owner);
    }
  }

  lemma OwnerIndex(services: seq<Service>, items: seq<Item>, x: Item, owner: Item)
    requires SameServices(services, items) && Ordered(items) && owner in items && Inside(x, owner) && x.first <= x.last
    ensures exists k :: 0 <= k < |items| && items[k] == owner && FindService(services, x.first) == Some(k)
  {
    var k :| 0 <= k < |items| && items[k] == owner;
    FoundIs(services, items, x.first, k);
  }

  lemma FoundIs(services: seq<Service>, items: seq<Item>, handle: Handle, i: nat)
    requires SameServices(services, items) && Ordered(items) && i < |services|
    ensures FindService(services, handle) == Some(i)
      <==> items[i].first <= handle && (i + 1 < |items| ==> handle < items[i + 1].first)
    ensures items[i].first <= handle <= items[i].last ==> FindService(services, handle) == Some(i)
  {
    assert Increasing(services);
    RangesPartition(services, handle);
    RangeIs(services, i, handle);
  }

  /** Of a batch, as many services are placed as there are nodes for: the first ones. */
  lemma {:induction false} PlacesPrefix(b: Builder, items: seq<Item>)
    requires b.container.Some?
    ensures var n := Min(|items|, |b.free.services|);
            && PlaceServices(b, items).Next? && PlaceServices(b, items).builder.container.Some?
            && var before, after := b.container.value, PlaceServices(b, items).builder.container.value;
               |after| == |before| + n && after[..|before|] == before && SameServices(after[|before|..], items[..n])
    decreases |items|
  {
    if items != [] {
      var b1 := PlaceService(b, items[0].first, items[0].uuid).builder;
      PlacesPrefix(b1, items[1..]);
      var before, between, after := b.container.value, b1.container.value,
          PlaceServices(b, items).builder.container.value;
      assert after[..|before|] == after[..|between|][..|before|];
      assert b.free.services != [] ==> after[|before|] == after[..|between|][|before|];
    }
  }

  /**
   With too few service nodes only some of the peer's services are placed.  A characteristic then lies under
   its own service exactly when that one was placed; otherwise it is filed under an earlier service, if any.
   */
  lemma OwnerPlacedExact(services: seq<Service>, placed: seq<Item>, db: Database, x: Item, i: nat)
    requires db.WellFormed() && x in db.characteristics
    requires SameServices(services, placed) && Ordered(placed) && forall s :: s in placed ==> s in db.services
    requires i < |services| && FindService(services, x.first) == Some(i)
    ensures Inside(x, placed[i]) <==> exists s :: s in placed && Inside(x, s)
    ensures placed[i].first <= x.first
  {
    DatabaseOrdered(db);
    SizeOf(db.characteristics, x);
    if s :| s in placed && Inside(x, s) {
      OwnerIndex(services, placed, x, s);
    }
  }

  /** One service node: the characteristic at 5, of the service at [4, 9], is filed under the service at [1, 3]. */
  lemma MisfiledCharacteristic()
    ensures var db := Database([Item(1, 3, 0), Item(4, 9, 0)], [Item(5, 6, 0)], [Item(5, 5, 0)]);
            && db.WellFormed()
            && FindService([Service(0, 1, 0, [])], 5) == Some(0) && !Inside(db.characteristics[0], db.services[0])
  {
    var db := Database([Item(1, 3, 0), Item(4, 9, 0)], [Item(5, 6, 0)], [Item(5, 5, 0)]);
    assert db.services[1] in db.services && Inside(db.characteristics[0], db.services[1]);
    assert db.attributes[0] in db.attributes;
    var services := [Service(0, 1, 0, [])];
    assert FindService(services, 5) != None by {
      assert services[0].handle <= 5;
    }
  }

  /** One service's share grows by the next characteristic `x` if `x` belongs to it, and else stays. */
  lemma ShareGrows(items: seq<Item>, s: Item, cut: int, hi: int, x: Item, owner: Item)
    requires Ordered(items) && Between(items, cut, hi) != [] && x == Between(items, cut, hi)[0]
    requires Inside(x, owner) && Disjoint(owner, s)
    ensures Between(items, s.first, Min(s.last + 1, x.last + 1)) ==
            Between(items, s.first, Min(s.last + 1, cut)) + if s.first <= x.first <= s.last then [x] else []
  {
    BetweenHead(items, cut, hi);
    if x.first < s.first {
      BetweenNone(items, s.first, Min(s.last + 1, x.last + 1));
      BetweenNone(items, s.first, Min(s.last + 1, cut));
    } else if x.first <= s.last {
      ShareGrowsInside(items, s, cut, x);
    } else {
      ShareStays(items, s, cut, x);
    }
  }

  lemma ShareGrowsInside(items: seq<Item>, s: Item, cut: int, x: Item)
    requires Ordered(items) && x in items && s.first <= x.first <= x.last <= s.last && cut <= x.first
    requires Between(items, cut, x.first) == []
    ensures Between(items, s.first, x.last + 1) == Between(items, s.first, cut) + [x]
  {
    BetweenOne(items, x, x.last + 1);
    BetweenSplit(items, s.first, x.first, x.last + 1);
    if s.first <= cut {
      BetweenSplit(items, s.first, cut, x.first);
    } else {
      BetweenNone(items, s.first, cut);
      BetweenSplit(items, cut, s.first, x.first);
    }
  }

  lemma ShareStays(items: seq<Item>, s: Item, cut: int, x: Item)
    requires Ordered(items) && s.last < x.first <= x.last && cut <= x.first
    requires Between(items, cut, x.first) == []
    ensures Between(items, s.first, Min(s.last + 1, x.last + 1)) == Between(items, s.first, Min(s.last + 1, cut))
  {
    var end := s.last + 1;
    if cut < end {
      BetweenSplit(items, cut, end, x.first);
      if s.first <= cut {
        BetweenSplit(items, s.first, cut, end);
      } else {
        BetweenNone(items, s.first, cut);
        if s.first <= end {
          BetweenSplit(items, cut, s.first, end);
        } else {
          BetweenNone(items, s.first, end);
        }
      }
    }
  }

  lemma PlacingCharacteristic(b: Builder, g: Goal, cut: int) returns (b1: Builder)
    requires g.db.WellFormed() && CharacteristicsInv(b, g, cut) && Between(g.db.characteristics, cut, g.last + 1) != []
    ensures var x := Between(g.db.characteristics, cut, g.last + 1)[0];
            && PlaceCharacteristic(b, x.first, x.last, x.uuid) == Next(b1)
            && CharacteristicsInv(b1, g, x.last + 1) && b1.calls == b.calls
            && cut <= x.last
            && Between(g.db.characteristics, cut, g.last + 1)[1..]
               == Between(g.db.characteristics, x.last + 1, g.last + 1)
  {
    hide *;
    DatabaseOrdered(g.db);
    InvGives(b, g, cut);
    NextCut(g.db.characteristics, g, cut);
    var x := Between(g.db.characteristics, cut, g.last + 1)[0];
    var c := Characteristic(b.free.characteristics[0], x.first, x.last, x.uuid, []);
    InfoOf(c);
    b1 := FilingPlaces(b, c);
    FilingKeepsInv(b, b1, g, cut, c);
  }

  lemma InfoOf(c: Characteristic)
    ensures Info(c) == Item(c.handle, c.valueHandle, c.uuid)
  {
  }

  lemma InvGives(b: Builder, g: Goal, cut: int)
    requires CharacteristicsInv(b, g, cut) && Between(g.db.characteristics, cut, g.last + 1) != []
    ensures CutAt(g.db.characteristics, g, cut) && b.container.Some? && b.free.characteristics != []
  {
  }

  lemma FilingKeepsInv(b: Builder, b1: Builder, g: Goal, cut: int, c: Characteristic)
    requires g.db.WellFormed() && CharacteristicsInv(b, g, cut) && Between(g.db.characteristics, cut, g.last + 1) != []
    requires Info(c) == Between(g.db.characteristics, cut, g.last + 1)[0] && c.descriptors == []
    requires CutAt(g.db.characteristics, g, c.valueHandle + 1)
    requires Between(g.db.characteristics, cut, g.last + 1)[1..]
             == Between(g.db.characteristics, c.valueHandle + 1, g.last + 1)
    requires b1 == b.(free := b1.free, container := Some(Filed(b.container.value, c)))
    requires b1.free == b.free.(characteristics := b1.free.characteristics)
    requires |b1.free.characteristics| + 1 >= |b.free.characteristics|
    ensures CharacteristicsInv(b1, g, c.valueHandle + 1)
  {
    hide *;
    InvParts(b, g, cut);
    SharesGrow(b.container.value, g, cut, c);
    FiledHasNoDescriptors(b.container.value, c);
    StillRunning(b, b1, g);
    InvWhole(b1, g, c.valueHandle + 1);
  }

  lemma InvParts(b: Builder, g: Goal, cut: int)
    requires CharacteristicsInv(b, g, cut)
    ensures Running(b, g) && b.container.Some? && g.first <= cut
    ensures Matches(b.container.value, g.Services(), g, cut) && NoDescriptors(b.container.value)
    ensures |Between(g.db.characteristics, cut, g.last + 1)| + DescriptorNeed(b, g, g.first) <= |b.free.characteristics|
  {
    hide Matches, Between, NoDescriptors;
  }

  lemma InvWhole(b: Builder, g: Goal, cut: int)
    requires Running(b, g) && b.container.Some? && CutAt(g.db.characteristics, g, cut)
    requires Matches(b.container.value, g.Services(), g, cut) && NoDescriptors(b.container.value)
    requires |Between(g.db.characteristics, cut, g.last + 1)| + DescriptorNeed(b, g, g.first)
             <= |b.free.characteristics|
    ensures CharacteristicsInv(b, g, cut)
  {
    hide Matches, Between, NoDescriptors, CutAt;
  }

  lemma StillRunning(b: Builder, b1: Builder, g: Goal)
    requires Running(b, g) && b1 == b.(free := b1.free, container := b1.container) && b1.container.Some?
    requires b1.free.descriptors == b.free.descriptors
    ensures Running(b1, g) && DescriptorNeed(b1, g, g.first) == DescriptorNeed(b, g, g.first)
  {
  }

  /** With a node to spare, placing a characteristic files it; a node is used only if a service is found. */
  lemma FilingPlaces(b: Builder, c: Characteristic) returns (b1: Builder)
    requires b.container.Some? && b.free.characteristics != [] && c.node == b.free.characteristics[0]
             && c.descriptors == []
    ensures PlaceCharacteristic(b, c.handle, c.valueHandle, c.uuid) == Next(b1)
    ensures b1 == b.(free := b1.free, container := Some(Filed(b.container.value, c)))
    ensures b1.free == b.free.(characteristics := b1.free.characteristics)
    ensures |b1.free.characteristics| + 1 >= |b.free.characteristics|
  {
    b1 := PlaceCharacteristic(b, c.handle, c.valueHandle, c.uuid).builder;
  }

  /** The container after characteristic `c` was filed under the service its handle belongs to. */
  function Filed(services: seq<Service>, c: Characteristic): seq<Service> {
    match FindService(services, c.handle)
    case None => services
    case Some(i) => AddCharacteristic(services, i, c)
  }

  /** Placing the next characteristic moves every service's share on to the next cut. */
  lemma SharesGrow(services: seq<Service>, g: Goal, cut: int, c: Characteristic)
    requires g.db.WellFormed() && Matches(services, g.Services(), g, cut)
    requires g.first <= cut && Between(g.db.characteristics, cut, g.last + 1) != []
    requires Info(c) == Between(g.db.characteristics, cut, g.last + 1)[0]
    ensures Matches(Filed(services, c), g.Services(), g, c.valueHandle + 1)
  {
    forall i | 0 <= i < |services|
      ensures HasShare(Filed(services, c)[i], g.Services()[i], g, c.valueHandle + 1)
    {
      OneShareGrows(services, g, cut, c, i);
    }
  }

  lemma OneShareGrows(services: seq<Service>, g: Goal, cut: int, c: Characteristic, i: nat)
    requires g.db.WellFormed() && SameServices(services, g.Services()) && i < |services|
    requires HasShare(services[i], g.Services()[i], g, cut)
    requires g.first <= cut && Between(g.db.characteristics, cut, g.last + 1) != []
    requires Info(c) == Between(g.db.characteristics, cut, g.last + 1)[0]
    ensures HasShare(Filed(services, c)[i], g.Services()[i], g, c.valueHandle + 1)
  {
    var x := Info(c);
    var s := g.Services()[i];
    BetweenMember(g.db.characteristics, cut, g.last + 1, x);
    ShareOf(services, g, cut, x, i);
    OwnerFound(services, g, x, i);
    hide Between, Database.WellFormed, FindService, CharacteristicsOf;
    if FindService(services, c.handle) == Some(i) {
      assert Infos(services[i].characteristics + [c]) == Infos(services[i].characteristics) + [x];
    }
  }

  lemma FiledHasNoDescriptors(services: seq<Service>, c: Characteristic)
    requires NoDescriptors(services) && c.descriptors == []
    ensures NoDescriptors(Filed(services, c))
  {
    forall p | At(Filed(services, c), p)
      ensures CharacteristicAt(Filed(services, c), p).descriptors == []
    {
      if At(services, p) {
        assert CharacteristicAt(services, p).descriptors == [];
      }
    }
  }

  lemma ShareOf(services: seq<Service>, g: Goal, cut: int, x: Item, i: nat)
    requires g.db.WellFormed() && i < |g.Services()|
    requires g.first <= cut && Between(g.db.characteristics, cut, g.last + 1) != []
    requires x == Between(g.db.characteristics, cut, g.last + 1)[0]
    ensures var s := g.Services()[i];
            CharacteristicsOf(g, s, x.last + 1)
            == CharacteristicsOf(g, s, cut) + if s.first <= x.first <= s.last then [x] else []
  {
    var s := g.Services()[i];
    BetweenMember(g.db.characteristics, cut, g.last + 1, x);
    BetweenMember(g.db.services, g.first, g.last + 1, s);
    var owner := OwnerOf(g.db, x);
    DatabaseOrdered(g.db);
    Apart(g.db.services, owner, s);
    ShareGrows(g.db.characteristics, s, cut, g.last + 1, x, owner);
  }

  function PlaceCharacteristics(b: Builder, items: seq<Item>): Outcome
    decreases |items|
  {
    if items == [] then Next(b)
    else
      var placed := PlaceCharacteristic(b, items[0].first, items[0].last, items[0].uuid);
      if placed.Fault? then Fault else PlaceCharacteristics(placed.builder, items[1..])
  }

  /** A batch of characteristics is placed one by one; then the engine continues after the last of them. */
  lemma {:induction false} CharacteristicEventsDo(b: Builder, items: seq<Item>, stray: Handle)
    requires items != [] && PlaceCharacteristics(b, items).Next?
    ensures DeliverAll(b, CharacteristicEvents(items, stray))
         == CharacteristicsContinue(PlaceCharacteristics(b, items).builder, items[|items| - 1].last, stray, Success,
                                    Return)
    decreases |items|
  {
    var x := items[0];
    var placed := PlaceCharacteristic(b, x.first, x.last, x.uuid).builder;
    var event := CharacteristicEvent(Success, x.first, x.last, x.uuid, |items| == 1, stray, Return);
    PlaceCharacteristicsHead(b, placed, items);
    CharacteristicEventDoes(b, x, |items| == 1, stray);
    if |items| == 1 {
      DeliverOne(b, event);
    } else {
      assert CharacteristicEvents(items, stray) == [event] + CharacteristicEvents(items[1..], stray);
      hide *;
      DeliverHead(b, event, CharacteristicEvents(items[1..], stray));
      CharacteristicEventsDo(placed, items[1..], stray);
    }
  }

  lemma CharacteristicEventDoes(b: Builder, x: Item, end: bool, stray: Handle)
    requires PlaceCharacteristic(b, x.first, x.last, x.uuid).Next?
    ensures var placed := PlaceCharacteristic(b, x.first, x.last, x.uuid).builder;
            Deliver(b, CharacteristicEvent(Success, x.first, x.last, x.uuid, end, stray, Return))
            == if end then CharacteristicsContinue(placed, x.last, stray, Success, Return) else Next(placed)
  {
  }

  lemma PlaceCharacteristicsHead(b: Builder, b1: Builder, items: seq<Item>)
    requires items != [] && PlaceCharacteristic(b, items[0].first, items[0].last, items[0].uuid) == Next(b1)
    ensures PlaceCharacteristics(b, items) == PlaceCharacteristics(b1, items[1..])
    ensures |items| == 1 ==> PlaceCharacteristics(b, items) == Next(b1)
  {
  }

  lemma {:induction false} PlacingCharacteristics(b: Builder, g: Goal, cut: int, items: seq<Item>) returns (b': Builder)
    requires g.db.WellFormed() && CharacteristicsInv(b, g, cut)
    requires items != [] && items <= Between(g.db.characteristics, cut, g.last + 1)
    ensures PlaceCharacteristics(b, items) == Next(b')
    ensures cut <= items[|items| - 1].last
    ensures CharacteristicsInv(b', g, items[|items| - 1].last + 1) && b'.calls == b.calls
    decreases |items|
  {
    hide *;
    var rest := Between(g.db.characteristics, cut, g.last + 1);
    assert items[0] == rest[0];
    var b1 := PlacingCharacteristic(b, g, cut);
    PlaceCharacteristicsHead(b, b1, items);
    if |items| == 1 {
      b' := b1;
    } else {
      assert items[1..] <= rest[1..];
      b' := PlacingCharacteristics(b1, g, items[0].last + 1, items[1..]);
    }
  }

  /** With no characteristic left to find, the container is what the peer has in the range. */
  lemma CharacteristicsDone(b: Builder, g: Goal, cut: int)
    requires g.db.WellFormed() && CharacteristicsInv(b, g, cut) && Between(g.db.characteristics, cut, g.last + 1) == []
    ensures Matches(b.container.value, g.Services(), g, g.last + 1)
  {
    DatabaseOrdered(g.db);
    forall i | 0 <= i < |g.Services()|
      ensures HasShare(b.container.value[i], g.Services()[i], g, g.last + 1)
    {
      assert HasShare(b.container.value[i], g.Services()[i], g, cut);
      HasWholeShare(b.container.value[i], g, g.Services()[i], cut);
    }
  }

  lemma HasWholeShare(service: Service, g: Goal, s: Item, cut: int)
    requires Ordered(g.db.characteristics) && CutAt(g.db.characteristics, g, cut)
    requires Between(g.db.characteristics, cut, g.last + 1) == []
    requires HasShare(service, s, g, cut) && s in g.Services()
    ensures HasShare(service, s, g, g.last + 1)
  {
    BetweenMember(g.db.services, g.first, g.last + 1, s);
    ShareComplete(g, s, cut);
  }

  lemma ShareComplete(g: Goal, s: Item, cut: int)
    requires Ordered(g.db.characteristics) && CutAt(g.db.characteristics, g, cut)
    requires Between(g.db.characteristics, cut, g.last + 1) == []
    requires g.first <= s.first <= g.last
    ensures CharacteristicsOf(g, s, cut) == CharacteristicsOf(g, s, g.last + 1)
  {
    var items := g.db.characteristics;
    var a, b := Min(s.last + 1, cut), Min(s.last + 1, g.last + 1);
    var low, high := Min(a, b), if a < b then b else a;
    NothingBetween(items, g, cut, low, high);
    if low < s.first {
      BetweenNone(items, s.first, low);
      NothingWithin(items, low, s.first, high);
    } else {
      BetweenSame(items, s.first, low, high);
    }
  }

  lemma NothingBetween(items: seq<Item>, g: Goal, cut: int, low: int, high: int)
    requires CutAt(items, g, cut) && Between(items, cut, g.last + 1) == []
    requires low <= high && (low < high ==> Min(cut, g.last + 1) <= low && (high <= cut || high <= g.last + 1))
    ensures Between(items, low, high) == []
  {
    if Between(items, low, high) != [] {
      var x := Between(items, low, high)[0];
      BetweenMember(items, low, high, x);
      BetweenMember(items, cut, g.last + 1, x);
      BetweenMember(items, g.last + 1, cut, x);
    }
  }

  lemma NothingWithin(items: seq<Item>, low: int, lo: int, high: int)
    requires Between(items, low, high) == [] && low <= lo
    ensures Between(items, lo, high) == []
  {
    if Between(items, lo, high) != [] {
      var x := Between(items, lo, high)[0];
      BetweenMember(items, low, high, x);
      BetweenMember(items, lo, high, x);
    }
  }
}
