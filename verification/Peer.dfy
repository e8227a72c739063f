/**
 The peer's attribute database and how it answers discovery requests (Bluetooth Core Specification
 5.0, Vol 3, Part G, sections 4.4, 4.6 and 4.7).

 Services, characteristics and attributes are all items that occupy a range of handles.  Each
 request is answered with a non-empty batch of the first items that begin in the requested range,
 of whatever size the peer likes, or with "attribute not found" when there is none.
 */
module Peer {
  import opened GattContainer
  import opened ServiceBuilder
  import opened BuilderInvariants

  datatype Item = Item(first: Handle, last: Handle, uuid: Uuid)

  datatype Database = Database(services: seq<Item>, characteristics: seq<Item>, attributes: seq<Item>) {
    /** Each characteristic lies inside a service, after the service's declaration; its declaration is an attribute. */
    ghost predicate WellFormed() {
      && Ordered(services) && Ordered(characteristics) && Ordered(attributes)
      && (forall c :: c in characteristics ==> exists s :: s in services && Inside(c, s))
      && (forall c :: c in characteristics ==> exists a :: a in attributes && a.first == c.first)
    }
  }

  predicate Inside(c: Item, s: Item) {
    s.first < c.first && c.last <= s.last
  }

  /** The items occupy disjoint handle ranges, in increasing order. */
  ghost predicate Ordered(items: seq<Item>) {
    && (forall i :: 0 <= i < |items| ==> items[i].first <= items[i].last)
    && (forall i, j :: 0 <= i < j < |items| ==> items[i].last < items[j].first)
  }

  /** The items that begin at or after `lo` and before `hi`. */
  function Between(items: seq<Item>, lo: int, hi: int): seq<Item> {
    if items == [] then []
    else (if lo <= items[0].first < hi then [items[0]] else []) + Between(items[1..], lo, hi)
  }

  /** The first `k` items, at least one. */
  function Batch(items: seq<Item>, k: nat): seq<Item>
    requires items != []
  {
    items[..if k == 0 then 1 else if k < |items| then k else |items|]
  }

  /** What the peer and the memory behind `discovery_end` choose for one response. */
  datatype Choice = Choice(size: nat, stray: Handle)

  function ServiceEvents(items: seq<Item>): seq<Event>
    requires items != []
  {
    var x := items[0];
    if |items| == 1 then [ServiceEvent(Success, x.first, x.last, x.uuid, true, Return)]
    else [ServiceEvent(Success, x.first, x.last, x.uuid, false, Return)] + ServiceEvents(items[1..])
  }

  function CharacteristicEvents(items: seq<Item>, stray: Handle): seq<Event>
    requires items != []
  {
    var x := items[0];
    if |items| == 1 then [CharacteristicEvent(Success, x.first, x.last, x.uuid, true, stray, Return)]
    else
      [CharacteristicEvent(Success, x.first, x.last, x.uuid, false, stray, Return)]
      + CharacteristicEvents(items[1..], stray)
  }

  function DescriptorEvents(items: seq<Item>, stray: Handle): seq<Event>
    requires items != []
  {
    var x := items[0];
    if |items| == 1 then [DescriptorEvent(Success, x.first, true, stray, Return)]
    else [DescriptorEvent(Success, x.first, false, stray, Return)] + DescriptorEvents(items[1..], stray)
  }

  function Respond(db: Database, request: Request, choice: Choice): seq<Event> {
    match request
    case PrimaryServices(first, last) =>
      var items := Between(db.services, first, last + 1);
      if items == [] then [ServiceEvent(AttributeNotFound, 0, 0, 0, true, Return)]
      else ServiceEvents(Batch(items, choice.size))
    case Characteristics(first, last) =>
      var items := Between(db.characteristics, first, last + 1);
      if items == [] then [CharacteristicEvent(AttributeNotFound, 0, 0, 0, true, choice.stray, Return)]
      else CharacteristicEvents(Batch(items, choice.size), choice.stray)
    case Descriptors(first, last) =>
      var items := Between(db.attributes, first, last + 1);
      if items == [] then [DescriptorEvent(AttributeNotFound, 0, true, choice.stray, Return)]
      else DescriptorEvents(Batch(items, choice.size), choice.stray)
  }

  // ----- Facts about `Between` -----

  lemma {:induction false} BetweenMember(items: seq<Item>, lo: int, hi: int, x: Item)
    ensures x in Between(items, lo, hi) <==> x in items && lo <= x.first < hi
  {
    if items != [] {
      BetweenMember(items[1..], lo, hi, x);
      assert items == [items[0]] + items[1..];
    }
  }

  lemma {:induction false} BetweenNone(items: seq<Item>, lo: int, hi: int)
    requires forall x :: x in items ==> !(lo <= x.first < hi)
    ensures Between(items, lo, hi) == []
  {
    if items != [] {
      assert items[0] in items;
      BetweenNone(items[1..], lo, hi);
    }
  }

  function One(x: Item, lo: int, hi: int): seq<Item> {
    if lo <= x.first < hi then [x] else []
  }

  /** `Between`, unfolded once. */
  lemma BetweenStep(items: seq<Item>, lo: int, hi: int)
    requires items != []
    ensures Between(items, lo, hi) == One(items[0], lo, hi) + Between(items[1..], lo, hi)
  {
  }

  lemma OrderedTail(items: seq<Item>)
    requires Ordered(items) && items != []
    ensures Ordered(items[1..])
    ensures forall y :: y in items[1..] ==> items[0].last < y.first
    ensures items[0].first <= items[0].last
  {
  }

  lemma {:induction false} BetweenSplit(items: seq<Item>, lo: int, mid: int, hi: int)
    requires Ordered(items) && lo <= mid <= hi
    ensures Between(items, lo, hi) == Between(items, lo, mid) + Between(items, mid, hi)
  {
    hide *;
    if items == [] {
      BetweenNone(items, lo, hi);
      BetweenNone(items, lo, mid);
      BetweenNone(items, mid, hi);
    } else {
      OrderedTail(items);
      BetweenSplit(items[1..], lo, mid, hi);
      var x, first, second := items[0], Between(items[1..], lo, mid), Between(items[1..], mid, hi);
      BetweenStep(items, lo, hi);
      BetweenStep(items, lo, mid);
      BetweenStep(items, mid, hi);
      if mid <= x.first {
        BetweenNone(items[1..], lo, mid);
      }
      SplitOne(x, lo, mid, hi, first, second);
    }
  }

  lemma SplitOne(x: Item, lo: int, mid: int, hi: int, first: seq<Item>, second: seq<Item>)
    requires lo <= mid <= hi && (mid <= x.first ==> first == [])
    ensures One(x, lo, hi) + (first + second) == (One(x, lo, mid) + first) + (One(x, mid, hi) + second)
  {
  }

  lemma {:induction false} BetweenOrdered(items: seq<Item>, lo: int, hi: int)
    requires Ordered(items)
    ensures Ordered(Between(items, lo, hi))
  {
    if items != [] {
      var rest := Between(items[1..], lo, hi);
      BetweenOrdered(items[1..], lo, hi);
      forall i | 0 <= i < |rest|
        ensures items[0].last < rest[i].first
      {
        BetweenMember(items[1..], lo, hi, rest[i]);
      }
    }
  }

  /** Exactly one item begins within the range an item occupies. */
  lemma {:induction false} BetweenOne(items: seq<Item>, x: Item, hi: int)
    requires Ordered(items) && x in items && x.first < hi <= x.last + 1
    ensures Between(items, x.first, hi) == [x]
  {
    if x == items[0] {
      assert forall y :: y in items[1..] ==> x.last < y.first;
      BetweenNone(items[1..], x.first, hi);
    } else {
      assert items == [items[0]] + items[1..];
      assert items[0].last < x.first;
      BetweenOne(items[1..], x, hi);
    }
  }

  lemma SizeOf(items: seq<Item>, x: Item)
    requires Ordered(items) && x in items
    ensures x.first <= x.last
  {
  }

  /** The first of the remaining items: before it nothing is left, after it the rest. */
  lemma BetweenHead(items: seq<Item>, lo: int, hi: int)
    requires Ordered(items) && Between(items, lo, hi) != []
    ensures var x := Between(items, lo, hi)[0];
            && x in items && lo <= x.first < hi && x.first <= x.last
            && Between(items, lo, x.first) == []
            && Between(items, lo, x.last + 1) == [x]
            && Between(items, lo, hi) == [x] + Between(items, x.last + 1, hi)
  {
    hide *;
    var x := Between(items, lo, hi)[0];
    BetweenMember(items, lo, hi, x);
    SizeOf(items, x);
    BetweenSplit(items, lo, x.first, hi);
    if Between(items, lo, x.first) != [] {
      assert x == Between(items, lo, x.first)[0];
      BetweenMember(items, lo, x.first, x);
      assert false;
    }
    BetweenSplit(items, lo, x.first, x.last + 1);
    BetweenOne(items, x, x.last + 1);
    if x.last + 1 <= hi {
      BetweenSplit(items, x.first, x.last + 1, hi);
    } else {
      BetweenOne(items, x, hi);
      BetweenNone(items, x.last + 1, hi);
    }
  }

  /** What was seen before `cut` grows by the first remaining item. */
  lemma BetweenGrow(items: seq<Item>, lo: int, cut: int, hi: int)
    requires Ordered(items) && lo <= cut && Between(items, cut, hi) != []
    ensures var x := Between(items, cut, hi)[0];
            Between(items, lo, x.last + 1) == Between(items, lo, cut) + [x]
  {
    BetweenHead(items, cut, hi);
    var x := Between(items, cut, hi)[0];
    BetweenSplit(items, lo, cut, x.last + 1);
  }

  /** Nothing begins between two cuts when nothing is left after the lower one. */
  lemma BetweenSame(items: seq<Item>, lo: int, a: int, b: int)
    requires Ordered(items) && lo <= a
    requires a <= b && Between(items, a, b) == []
    ensures Between(items, lo, a) == Between(items, lo, b)
  {
    BetweenSplit(items, lo, a, b);
  }

  ghost predicate Disjoint(a: Item, b: Item) {
    a == b || a.last < b.first || b.last < a.first
  }

  /** Of two items one lies wholly before the other. */
  lemma Apart(items: seq<Item>, a: Item, b: Item)
    requires Ordered(items) && a in items && b in items
    ensures Disjoint(a, b)
  {
  }

  lemma OwnerOf(db: Database, c: Item) returns (owner: Item)
    requires db.WellFormed() && c in db.characteristics
    ensures owner in db.services && Inside(c, owner)
  {
    owner :| owner in db.services && Inside(c, owner);
  }

  lemma DatabaseOrdered(db: Database)
    requires db.WellFormed()
    ensures Ordered(db.services) && Ordered(db.characteristics) && Ordered(db.attributes)
  {
  }
}
