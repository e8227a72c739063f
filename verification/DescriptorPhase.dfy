/** The last phase of a discovery against a peer: the descriptors of the open characteristics. */
module DescriptorPhase {
  import opened Wrappers
  import opened GattContainer
  import opened Numbers
  import opened ServiceBuilder
  import opened BuilderInvariants
  import opened Peer
  import opened DiscoveryPhases
  import opened DiscoverySystem

  const BEYOND: int := 0x1_0000

  /** The container is exactly what the peer has in the range, descriptors aside. */
  ghost predicate Complete(services: seq<Service>, g: Goal) {
    Matches(services, g.Services(), g, g.last + 1)
  }

  /** The handle at which the next characteristic begins. */
  ghost function EndOf(services: seq<Service>, p: Position): int
    requires At(services, p)
  {
    IncrementIsLeastAfter(services, p);
    var next := Increment(services, p);
    if next == End(services) then BEYOND else CharacteristicAt(services, next).handle
  }

  ghost predicate IsLast(services: seq<Service>, p: Position)
    requires At(services, p)
  {
    Increment(services, p) == End(services)
  }

  /** The peer's attributes from a characteristic's declaration up to the next declaration. */
  ghost function AttributesOf(services: seq<Service>, db: Database, p: Position): seq<Item>
    requires At(services, p)
  {
    Between(db.attributes, CharacteristicAt(services, p).handle, EndOf(services, p))
  }

  /** The recorded descriptors are the first of `items`. */
  ghost predicate Recorded(descriptors: seq<Descriptor>, items: seq<Item>) {
    && |descriptors| <= |items|
    && forall i :: 0 <= i < |descriptors| ==> descriptors[i].handle == items[i].first
  }

  /** How many of `items` a peer that answers with a batch of `k` delivers. */
  function BatchSize(items: seq<Item>, k: nat): nat {
    if items == [] then 0 else |Batch(items, k)|
  }

  /**
   What a characteristic that has been passed holds: the batch with which the peer answered the one request
   for it, if there were descriptor nodes and it was asked for; and it was asked for exactly if it is open.
   The last characteristic is open or not, and its request ends, as the memory behind the list has it.
   */
  ghost predicate Visited(services: seq<Service>, db: Database, pooled: bool, answers: Answers, p: Position)
    requires At(services, p)
  {
    var c, items := CharacteristicAt(services, p), AttributesOf(services, db, p);
    && Recorded(c.descriptors, items)
    && (!IsLast(services, p) ==>
          && (p in answers <==> EndOf(services, p) >= c.handle + 3)
          && |c.descriptors| == if pooled && p in answers then BatchSize(items, answers[p]) else 0)
  }

  /** Characteristics before `upto` have been visited, the others have not been asked for. */
  ghost predicate DescriptorsSoFar(services: seq<Service>, db: Database, pooled: bool, answers: Answers,
                                   upto: Position) {
    forall p :: At(services, p) ==>
      if Before(p, upto) then Visited(services, db, pooled, answers, p) else Untouched(services, answers, p)
  }

  ghost predicate Untouched(services: seq<Service>, answers: Answers, p: Position)
    requires At(services, p)
  {
    CharacteristicAt(services, p).descriptors == [] && p !in answers
  }

  ghost predicate Pooled(b: Builder) {
    b.free.descriptors != []
  }

  ghost predicate EnoughFrom(b: Builder, g: Goal, handle: Handle) {
    DescriptorNeed(b, g, handle) <= |b.free.characteristics|
  }

  /** The engine waits for the descriptors of the characteristic at `p`. */
  ghost predicate DescriptorsInv(b: Builder, g: Goal, answers: Answers, p: Position) {
    && Running(b, g)
    && Complete(b.container.value, g)
    && b.cursor == Some(p) && At(b.container.value, p)
    && EnoughFrom(b, g, CharacteristicAt(b.container.value, p).handle)
    && DescriptorsSoFar(b.container.value, g.db, Pooled(b), answers, p)
  }

  /** The range asked for at `p`. */
  ghost predicate AskedAt(services: seq<Service>, p: Position, first: Handle, last: Handle) {
    && At(services, p)
    && first == CharacteristicAt(services, p).handle
    && last >= first + 2
    && (!IsLast(services, p) ==> last + 1 == EndOf(services, p))
  }

  // ----- Declarations are in increasing order -----

  lemma ShareMember(services: seq<Service>, g: Goal, p: Position)
    requires Complete(services, g) && At(services, p)
    ensures p.service < |g.Services()|
    ensures var s, x := g.Services()[p.service], Info(CharacteristicAt(services, p));
            && x in g.db.characteristics && s.first <= x.first <= s.last && s in g.Services()
            && g.first <= x.first <= g.last
  {
    var s, c := g.Services()[p.service], CharacteristicAt(services, p);
    assert HasShare(services[p.service], s, g, g.last + 1);
    assert Info(c) == Infos(services[p.service].characteristics)[p.characteristic];
    assert Info(c) in CharacteristicsOf(g, s, g.last + 1);
    BetweenMember(g.db.characteristics, s.first, Min(s.last + 1, g.last + 1), Info(c));
    BetweenMember(g.db.services, g.first, g.last + 1, s);
  }

  lemma DeclarationsIncrease(services: seq<Service>, g: Goal, p: Position, q: Position)
    requires g.db.WellFormed() && Complete(services, g)
    requires At(services, p) && At(services, q) && Before(p, q)
    ensures CharacteristicAt(services, p).handle < CharacteristicAt(services, q).handle
  {
    DatabaseOrdered(g.db);
    ShareMember(services, g, p);
    ShareMember(services, g, q);
    if p.service == q.service {
      var s := g.Services()[p.service];
      var items := CharacteristicsOf(g, s, g.last + 1);
      assert HasShare(services[p.service], s, g, g.last + 1);
      BetweenOrdered(g.db.characteristics, s.first, Min(s.last + 1, g.last + 1));
      assert items[p.characteristic] == Info(CharacteristicAt(services, p));
      assert items[q.characteristic] == Info(CharacteristicAt(services, q));
    } else {
      BetweenOrdered(g.db.services, g.first, g.last + 1);
    }
  }

  // ----- Going on from a position -----

  /** Only the lengths of the lists matter to the iterator. */
  lemma {:induction false} IncrementByLength(a: seq<Service>, b: seq<Service>, p: Position)
    requires |a| == |b| && forall s :: 0 <= s < |a| ==> Length(a, s) == Length(b, s)
    requires p.service < |a| && p.characteristic <= Length(a, p.service)
    ensures Increment(a, p) == Increment(b, p)
    decreases |a| - p.service
  {
    if p.service + 1 < |a| && Length(a, p.service + 1) == 0 {
      IncrementByLength(a, b, Position(p.service + 1, 0));
    }
  }

  /** The engine's range for a characteristic that is not the last ends before the next declaration. */
  lemma RangeAt(services: seq<Service>, g: Goal, p: Position, stray: Handle)
    requires g.db.WellFormed() && Complete(services, g) && At(services, p)
    ensures HandleRange(services, p, stray).0 == CharacteristicAt(services, p).handle
    ensures !IsLast(services, p) ==> HandleRange(services, p, stray).1 + 1 == EndOf(services, p)
    ensures CharacteristicAt(services, p).handle < EndOf(services, p)
  {
    IncrementIsLeastAfter(services, p);
    if !IsLast(services, p) {
      DeclarationsIncrease(services, g, p, Increment(services, p));
    }
  }

  /** Passing over closed characteristics visits them. */
  lemma ClosedVisited(services: seq<Service>, g: Goal, pooled: bool, answers: Answers, start: Position, stray: Handle)
    requires g.db.WellFormed() && Complete(services, g)
    requires start == End(services) || At(services, start)
    requires DescriptorsSoFar(services, g.db, pooled, answers, start)
    ensures DescriptorsSoFar(services, g.db, pooled, answers, NextOpen(services, start, stray))
  {
    var open := NextOpen(services, start, stray);
    forall p | At(services, p)
      ensures if Before(p, open) then Visited(services, g.db, pooled, answers, p) else Untouched(services, answers, p)
    {
      if Before(p, open) && !Before(p, start) {
        assert p == start || Before(start, p);
        assert !Open(services, p, stray);
        RangeAt(services, g, p, stray);
      }
    }
  }

  /** The engine has just asked for the descriptors at its cursor. */
  ghost predicate Asked(b': Builder, calls: seq<OutCall>) {
    && b'.container.Some? && b'.cursor.Some? && At(b'.container.value, b'.cursor.value)
    && exists first: Handle, last: Handle ::
         && AskedAt(b'.container.value, b'.cursor.value, first, last)
         && b'.calls == calls + [Requested(Descriptors(first, last))]
  }

  /** What asking for the next descriptors leads to: a request, the end of the discovery, or a fault. */
  ghost predicate Continued(o: Outcome, b: Builder, g: Goal, answers: Answers, p: Position, error: ErrorCode)
    requires b.container.Some?
  {
    match o
    case Fault => !EndsInCharacteristic(b.container.value)
    case Next(b') =>
      if b'.cursor == Some(End(b.container.value)) then Finished(b', b, g, answers, error)
      else Asked(b', b.calls) && DescriptorsInv(b', g, answers, b'.cursor.value) && !Before(b'.cursor.value, p)
  }

  /** The handle range has been cut to end with the last handle of the last characteristic of the last service. */
  ghost predicate Trimmed(b: Builder)
    requires b.container.Some?
  {
    var services := b.container.value;
    && EndsInCharacteristic(services)
    && var last := services[|services| - 1].characteristics;
       var c := last[|last| - 1];
       b.rangeLast == if c.descriptors == [] then c.valueHandle else c.descriptors[|c.descriptors| - 1].handle
  }

  /** The discovery is over: the container is complete and the callback has been called, once. */
  ghost predicate Finished(b': Builder, b: Builder, g: Goal, answers: Answers, error: ErrorCode)
    requires b.container.Some?
  {
    && b'.container == b.container && b'.free == b.free
    && Trimmed(b')
    && Complete(b.container.value, g)
    && DescriptorsSoFar(b.container.value, g.db, Pooled(b), answers, End(b.container.value))
    && b'.completion == None
    && b'.calls == b.calls + match g.notify case None => [] case Some(r) => [Notified(r, error)]
  }

  lemma Continues(b: Builder, g: Goal, answers: Answers, p: Position, stray: Handle, error: ErrorCode)
    requires g.db.WellFormed() && Running(b, g) && Complete(b.container.value, g)
    requires p == End(b.container.value) || (At(b.container.value, p)
                                             && EnoughFrom(b, g, CharacteristicAt(b.container.value, p).handle))
    requires DescriptorsSoFar(b.container.value, g.db, Pooled(b), answers, p)
    ensures Continued(DescriptorsFrom(b, p, stray, error, Return), b, g, answers, p, error)
  {
    var services := b.container.value;
    var open := NextOpen(services, p, stray);
    ClosedVisited(services, g, Pooled(b), answers, p, stray);
    if open == End(services) {
      hide Complete, DescriptorsSoFar, NextOpen;
      FinishIs(b.(cursor := Some(open)), g, error);
    } else {
      var range := HandleRange(services, open, stray);
      var b' := Ask(b.(cursor := Some(open)), Descriptors(range.0, range.1));
      assert DescriptorsFrom(b, p, stray, error, Return) == Next(b');
      hide Complete, DescriptorsSoFar, NextOpen, DescriptorsFrom, EnoughFrom;
      RangeAt(services, g, open, stray);
      EnoughLater(b, g, p, open);
      assert AskedAt(services, open, range.0, range.1);
      StillEnough(b, b', g, open);
    }
  }

  lemma StillEnough(b: Builder, b': Builder, g: Goal, p: Position)
    requires b.container.Some? && At(b.container.value, p) && b'.free == b.free
    requires EnoughFrom(b, g, CharacteristicAt(b.container.value, p).handle)
    ensures EnoughFrom(b', g, CharacteristicAt(b.container.value, p).handle) && Pooled(b') == Pooled(b)
  {
  }

  lemma FinishIs(b: Builder, g: Goal, error: ErrorCode)
    requires Running(b, g)
    ensures var o := Finish(b, error, Return);
            if EndsInCharacteristic(b.container.value) then
              && o.Next? && o.builder.container == b.container && o.builder.free == b.free
                 && o.builder.cursor == b.cursor
              && o.builder.completion == None && Trimmed(o.builder)
              && o.builder.calls == b.calls + match g.notify case None => [] case Some(r) => [Notified(r, error)]
            else o.Fault?
  {
  }

  lemma EnoughLater(b: Builder, g: Goal, p: Position, q: Position)
    requires g.db.WellFormed() && b.container.Some? && Complete(b.container.value, g)
    requires At(b.container.value, p) && At(b.container.value, q) && (q == p || Before(p, q))
    requires EnoughFrom(b, g, CharacteristicAt(b.container.value, p).handle)
    ensures EnoughFrom(b, g, CharacteristicAt(b.container.value, q).handle)
  {
    if q != p {
      DatabaseOrdered(g.db);
      DeclarationsIncrease(b.container.value, g, p, q);
      BetweenSplit(g.db.attributes, CharacteristicAt(b.container.value, p).handle,
                   CharacteristicAt(b.container.value, q).handle, BEYOND);
    }
  }

  // ----- One response -----

  function PlaceDescriptors(b: Builder, items: seq<Item>): Outcome
    decreases |items|
  {
    if items == [] then Next(b)
    else
      var placed := PlaceDescriptor(b, items[0].first);
      if placed.Fault? then Fault else PlaceDescriptors(placed.builder, items[1..])
  }

  lemma PlaceDescriptorsHead(b: Builder, b1: Builder, items: seq<Item>)
    requires items != [] && PlaceDescriptor(b, items[0].first) == Next(b1)
    ensures PlaceDescriptors(b, items) == PlaceDescriptors(b1, items[1..])
    ensures |items| == 1 ==> PlaceDescriptors(b, items) == Next(b1)
  {
  }

  lemma DescriptorEventDoes(b: Builder, x: Item, end: bool, stray: Handle)
    requires PlaceDescriptor(b, x.first).Next?
    ensures var placed := PlaceDescriptor(b, x.first).builder;
            Deliver(b, DescriptorEvent(Success, x.first, end, stray, Return))
            == if end then DescriptorsContinue(placed, stray, Success, Return) else Next(placed)
  {
  }

  /** A batch of descriptors is placed one by one; then the engine moves on from the characteristic. */
  lemma {:induction false} DescriptorEventsDo(b: Builder, items: seq<Item>, stray: Handle)
    requires items != [] && PlaceDescriptors(b, items).Next?
    ensures DeliverAll(b, DescriptorEvents(items, stray))
            == DescriptorsContinue(PlaceDescriptors(b, items).builder, stray, Success, Return)
    decreases |items|
  {
    var x := items[0];
    var placed := PlaceDescriptor(b, x.first).builder;
    var event := DescriptorEvent(Success, x.first, |items| == 1, stray, Return);
    PlaceDescriptorsHead(b, placed, items);
    DescriptorEventDoes(b, x, |items| == 1, stray);
    if |items| == 1 {
      DeliverOne(b, event);
    } else {
      assert DescriptorEvents(items, stray) == [event] + DescriptorEvents(items[1..], stray);
      hide *;
      DeliverHead(b, event, DescriptorEvents(items[1..], stray));
      DescriptorEventsDo(placed, items[1..], stray);
    }
  }

  /** The containers differ at most in the descriptors of the characteristic at `p`. */
  ghost predicate OnlyAt(a: seq<Service>, b: seq<Service>, p: Position) {
    && |a| == |b|
    && (forall s :: 0 <= s < |a| ==>
          a[s].handle == b[s].handle && a[s].uuid == b[s].uuid && Length(a, s) == Length(b, s))
    && At(a, p)
    && Info(CharacteristicAt(a, p)) == Info(CharacteristicAt(b, p))
    && forall q :: At(a, q) && q != p ==> CharacteristicAt(a, q) == CharacteristicAt(b, q)
  }

  /** `items` have been recorded at `p`, behind what was there. */
  ghost predicate Extended(a: seq<Service>, b: seq<Service>, p: Position, items: seq<Item>)
    requires OnlyAt(a, b, p)
  {
    var before, after := CharacteristicAt(a, p).descriptors, CharacteristicAt(b, p).descriptors;
    && |after| == |before| + |items|
    && after[..|before|] == before
    && forall i :: 0 <= i < |items| ==> after[|before| + i].handle == items[i].first
  }

  lemma PlacingDescriptor(b: Builder, p: Position, handle: Handle, x: Item) returns (b1: Builder)
    requires b.container.Some? && b.cursor == Some(p) && At(b.container.value, p)
    requires Pooled(b) && b.free.characteristics != [] && x.first == handle
    ensures PlaceDescriptor(b, handle) == Next(b1)
    ensures b1 == b.(free := b.free.(characteristics := b.free.characteristics[1..]), container := b1.container)
    ensures b1.container.Some? && OnlyAt(b.container.value, b1.container.value, p)
    ensures Extended(b.container.value, b1.container.value, p, [x])
  {
    b1 := PlaceDescriptor(b, handle).builder;
  }

  lemma ExtendedFurther(a: seq<Service>, b: seq<Service>, c: seq<Service>, p: Position, x: Item, items: seq<Item>)
    requires OnlyAt(a, b, p) && OnlyAt(b, c, p) && Extended(a, b, p, [x]) && Extended(b, c, p, items)
    ensures OnlyAt(a, c, p) && Extended(a, c, p, [x] + items)
  {
    var ds, ds', ds'' := CharacteristicAt(a, p).descriptors, CharacteristicAt(b, p).descriptors,
        CharacteristicAt(c, p).descriptors;
    assert ds''[..|ds|] == ds''[..|ds'|][..|ds|];
    forall i | 0 <= i < 1 + |items|
      ensures ds''[|ds| + i].handle == ([x] + items)[i].first
    {
      if i == 0 {
        assert ds''[|ds|] == ds''[..|ds'|][|ds|];
      }
    }
  }

  lemma {:induction false} PlacingDescriptors(b: Builder, p: Position, items: seq<Item>) returns (b1: Builder)
    requires b.container.Some? && b.cursor == Some(p) && At(b.container.value, p) && items != []
    requires Pooled(b) && |items| <= |b.free.characteristics|
    ensures PlaceDescriptors(b, items) == Next(b1)
    ensures b1 == b.(free := b.free.(characteristics := b.free.characteristics[|items|..]), container := b1.container)
    ensures b1.container.Some? && OnlyAt(b.container.value, b1.container.value, p)
    ensures Extended(b.container.value, b1.container.value, p, items)
    decreases |items|
  {
    var x := items[0];
    b1 := PlacingDescriptor(b, p, x.first, x);
    PlaceDescriptorsHead(b, b1, items);
    if |items| == 1 {
      assert items == [x];
    } else {
      var b2 := PlacingDescriptors(b1, p, items[1..]);
      assert [x] + items[1..] == items;
      ExtendedFurther(b.container.value, b1.container.value, b2.container.value, p, x, items[1..]);
      b1 := b2;
    }
  }

  lemma {:induction false} PlacingNone(b: Builder, items: seq<Item>)
    requires !Pooled(b)
    ensures PlaceDescriptors(b, items) == Next(b)
    decreases |items|
  {
    if items != [] {
      PlacingNone(b, items[1..]);
    }
  }

  /** Recording descriptors changes neither services nor characteristics. */
  lemma CompleteKept(a: seq<Service>, b: seq<Service>, g: Goal, p: Position)
    requires Complete(a, g) && OnlyAt(a, b, p)
    ensures Complete(b, g)
  {
    forall s | 0 <= s < |a|
      ensures HasShare(b[s], g.Services()[s], g, g.last + 1)
    {
      assert HasShare(a[s], g.Services()[s], g, g.last + 1);
      forall c | 0 <= c < Length(a, s)
        ensures Info(a[s].characteristics[c]) == Info(b[s].characteristics[c])
      {
        assert CharacteristicAt(a, Position(s, c)) == a[s].characteristics[c];
        assert CharacteristicAt(b, Position(s, c)) == b[s].characteristics[c];
      }
      assert Infos(a[s].characteristics) == Infos(b[s].characteristics);
    }
  }

  lemma AttributesKept(a: seq<Service>, b: seq<Service>, g: Goal, p: Position, q: Position)
    requires OnlyAt(a, b, p) && At(a, q)
    ensures At(b, q) && Increment(a, q) == Increment(b, q)
    ensures CharacteristicAt(a, q).handle == CharacteristicAt(b, q).handle
    ensures EndOf(a, q) == EndOf(b, q) && IsLast(a, q) == IsLast(b, q)
    ensures AttributesOf(a, g.db, q) == AttributesOf(b, g.db, q)
  {
    IncrementByLength(a, b, q);
    IncrementIsLeastAfter(a, q);
    var next := Increment(a, q);
    if next != End(a) {
      assert At(b, next);
      assert Info(CharacteristicAt(a, next)) == Info(CharacteristicAt(b, next));
    }
    assert Info(CharacteristicAt(a, q)) == Info(CharacteristicAt(b, q));
  }

  /** A response to the request at `p` is a first part of the attributes there, and is not empty. */
  lemma AnswerIsAttributes(services: seq<Service>, g: Goal, p: Position, first: Handle, last: Handle, k: nat)
    requires g.db.WellFormed() && Complete(services, g) && AskedAt(services, p, first, last)
    ensures Between(g.db.attributes, first, last + 1) != []
    ensures Batch(Between(g.db.attributes, first, last + 1), k) <= AttributesOf(services, g.db, p)
    ensures !IsLast(services, p) ==> Between(g.db.attributes, first, last + 1) == AttributesOf(services, g.db, p)
    ensures EndOf(services, p) >= first + 3
  {
    hide Complete, Between, Ordered, Batch, Increment, IsLast;
    ShareMember(services, g, p);
    var a := DeclarationOf(g.db, Info(CharacteristicAt(services, p)));
    AskedBounds(services, p, first, last);
    AnswerFits(g.db.attributes, a, last, EndOf(services, p), k);
  }

  lemma AskedBounds(services: seq<Service>, p: Position, first: Handle, last: Handle)
    requires AskedAt(services, p, first, last)
    ensures first == CharacteristicAt(services, p).handle && first + 3 <= last + 1 <= EndOf(services, p)
    ensures !IsLast(services, p) ==> last + 1 == EndOf(services, p)
  {
  }

  /** The declaration of a characteristic is one of the attributes. */
  lemma DeclarationOf(db: Database, c: Item) returns (a: Item)
    requires db.WellFormed() && c in db.characteristics
    ensures a in db.attributes && a.first == c.first && Ordered(db.attributes)
  {
    a :| a in db.attributes && a.first == c.first;
  }

  lemma AnswerFits(items: seq<Item>, a: Item, last: Handle, end: int, k: nat)
    requires Ordered(items) && a in items && a.first <= last && last + 1 <= end
    ensures Between(items, a.first, last + 1) != []
    ensures Batch(Between(items, a.first, last + 1), k) <= Between(items, a.first, end)
  {
    BetweenMember(items, a.first, last + 1, a);
    BetweenSplit(items, a.first, last + 1, end);
  }

  /** Recording a batch of `k` at `p` visits `p`. */
  lemma RecordingVisits(a: seq<Service>, b: seq<Service>, g: Goal, answers: Answers, p: Position, items: seq<Item>,
                        k: nat)
    requires g.db.WellFormed() && Complete(a, g) && OnlyAt(a, b, p) && Extended(a, b, p, items)
    requires items <= AttributesOf(a, g.db, p) && EndOf(a, p) >= CharacteristicAt(a, p).handle + 3
    requires !IsLast(a, p) ==> |items| == BatchSize(AttributesOf(a, g.db, p), k)
    requires DescriptorsSoFar(a, g.db, true, answers, p)
    ensures Increment(a, p) == Increment(b, p)
    ensures DescriptorsSoFar(b, g.db, true, answers[p := k], Increment(b, p))
  {
    AttributesKept(a, b, g, p, p);
    IncrementIsLeastAfter(b, p);
    hide BatchSize, AttributesOf, EndOf, Increment, Visited, Untouched, Complete;
    forall q | At(b, q)
      ensures if Before(q, Increment(b, p)) then Visited(b, g.db, true, answers[p := k], q)
              else Untouched(b, answers[p := k], q)
    {
      if q == p {
        RecordedHere(a, b, g, answers, p, items, k);
      } else {
        VisitKept(a, b, g, answers, p, k, q);
      }
    }
  }

  lemma RecordedHere(a: seq<Service>, b: seq<Service>, g: Goal, answers: Answers, p: Position, items: seq<Item>, k: nat)
    requires OnlyAt(a, b, p) && Extended(a, b, p, items) && Untouched(a, answers, p)
    requires items <= AttributesOf(a, g.db, p) && EndOf(a, p) >= CharacteristicAt(a, p).handle + 3
    requires !IsLast(a, p) ==> |items| == BatchSize(AttributesOf(a, g.db, p), k)
    ensures Visited(b, g.db, true, answers[p := k], p)
  {
    hide BatchSize, AttributesOf, EndOf;
    AttributesKept(a, b, g, p, p);
  }

  lemma VisitKept(a: seq<Service>, b: seq<Service>, g: Goal, answers: Answers, p: Position, k: nat, q: Position)
    requires OnlyAt(a, b, p) && At(a, q) && q != p
    ensures At(b, q)
    ensures Visited(a, g.db, true, answers, q) ==> Visited(b, g.db, true, answers[p := k], q)
    ensures Untouched(a, answers, q) ==> Untouched(b, answers[p := k], q)
  {
    hide BatchSize, AttributesOf, EndOf, Increment;
    AttributesKept(a, b, g, p, q);
    assert CharacteristicAt(a, q) == CharacteristicAt(b, q);
  }

  /** Without nodes nothing is recorded, and `p` counts as visited. */
  lemma SkippingVisits(a: seq<Service>, g: Goal, answers: Answers, p: Position, k: nat)
    requires At(a, p) && DescriptorsSoFar(a, g.db, false, answers, p)
    requires EndOf(a, p) >= CharacteristicAt(a, p).handle + 3
    ensures DescriptorsSoFar(a, g.db, false, answers[p := k], Increment(a, p))
  {
    IncrementIsLeastAfter(a, p);
    forall q | At(a, q)
      ensures if Before(q, Increment(a, p)) then Visited(a, g.db, false, answers[p := k], q)
              else Untouched(a, answers[p := k], q)
    {
      if Before(q, Increment(a, p)) && !Before(q, p) {
        assert q == p;
        assert Untouched(a, answers, p);
      }
    }
  }

  /** The nodes that are left suffice for the characteristics behind `p`. */
  lemma EnoughBehind(b: Builder, b1: Builder, g: Goal, p: Position, items: seq<Item>)
    requires g.db.WellFormed() && b.container.Some? && Complete(b.container.value, g) && At(b.container.value, p)
    requires EnoughFrom(b, g, CharacteristicAt(b.container.value, p).handle)
    requires items <= AttributesOf(b.container.value, g.db, p)
    requires b1.free.descriptors == b.free.descriptors
    requires Pooled(b) ==>
               |items| <= |b.free.characteristics| && |b1.free.characteristics| == |b.free.characteristics| - |items|
    requires !IsLast(b.container.value, p) && At(b.container.value, Increment(b.container.value, p))
    ensures EnoughFrom(b1, g, CharacteristicAt(b.container.value, Increment(b.container.value, p)).handle)
  {
    DatabaseOrdered(g.db);
    RangeAt(b.container.value, g, p, 0);
    BetweenSplit(g.db.attributes, CharacteristicAt(b.container.value, p).handle, EndOf(b.container.value, p), BEYOND);
  }

  lemma AttributesFit(b: Builder, g: Goal, answers: Answers, p: Position, items: seq<Item>)
    requires g.db.WellFormed() && DescriptorsInv(b, g, answers, p)
             && items <= AttributesOf(b.container.value, g.db, p) && Pooled(b)
    ensures |items| <= |b.free.characteristics|
  {
    DatabaseOrdered(g.db);
    RangeAt(b.container.value, g, p, 0);
    BetweenSplit(g.db.attributes, CharacteristicAt(b.container.value, p).handle, EndOf(b.container.value, p), BEYOND);
  }

  /** After a response has been recorded at `p`. */
  ghost predicate Behind(b1: Builder, b: Builder, g: Goal, answers: Answers, p: Position) {
    && b1.container.Some? && b.container.Some? && At(b.container.value, p)
    && At(b1.container.value, p) && b1.cursor == Some(p)
    && Running(b1, g) && Complete(b1.container.value, g)
    && b1.calls == b.calls
    && Increment(b1.container.value, p) == Increment(b.container.value, p)
    && |b1.container.value| == |b.container.value|
    && (!IsLast(b1.container.value, p) ==>
          var next := Increment(b1.container.value, p);
          At(b1.container.value, next) && EnoughFrom(b1, g, CharacteristicAt(b1.container.value, next).handle))
    && DescriptorsSoFar(b1.container.value, g.db, Pooled(b1), answers, Increment(b1.container.value, p))
  }

  lemma RecordingAnswer(b: Builder, g: Goal, answers: Answers, p: Position, items: seq<Item>, k: nat)
      returns (b1: Builder)
    requires g.db.WellFormed() && DescriptorsInv(b, g, answers, p)
    requires items != [] && items <= AttributesOf(b.container.value, g.db, p)
    requires !IsLast(b.container.value, p) ==> |items| == BatchSize(AttributesOf(b.container.value, g.db, p), k)
    requires EndOf(b.container.value, p) >= CharacteristicAt(b.container.value, p).handle + 3
    ensures PlaceDescriptors(b, items) == Next(b1) && Behind(b1, b, g, answers[p := k], p)
  {
    var services := b.container.value;
    IncrementIsLeastAfter(services, p);
    hide BatchSize, DescriptorsSoFar, AttributesOf, EndOf, Increment;
    if Pooled(b) {
      AttributesFit(b, g, answers, p, items);
      b1 := PlacingDescriptors(b, p, items);
      var services1 := b1.container.value;
      CompleteKept(services, services1, g, p);
      RecordingVisits(services, services1, g, answers, p, items, k);
      AttributesKept(services, services1, g, p, p);
      if !IsLast(services, p) {
        EnoughBehind(b, b1, g, p, items);
        AttributesKept(services, services1, g, p, Increment(services, p));
      }
    } else {
      b1 := b;
      PlacingNone(b, items);
      SkippingVisits(services, g, answers, p, k);
      if !IsLast(services, p) {
        EnoughBehind(b, b, g, p, items);
      }
    }
  }

  /** One answered descriptor request: the engine records the batch, moves on, and asks again or finishes. */
  lemma DescriptorResponse(b: Builder, g: Goal, answers: Answers, p: Position, first: Handle, last: Handle,
                           choice: Choice)
    returns (b1: Builder)
    requires g.db.WellFormed() && DescriptorsInv(b, g, answers, p) && AskedAt(b.container.value, p, first, last)
    ensures Behind(b1, b, g, answers[p := choice.size], p)
    ensures Continued(DeliverAll(b, Respond(g.db, Descriptors(first, last), choice)), b1, g, answers[p := choice.size],
                      Increment(b1.container.value, p), Success)
  {
    var services := b.container.value;
    AnswerIsAttributes(services, g, p, first, last, choice.size);
    var items := Batch(Between(g.db.attributes, first, last + 1), choice.size);
    b1 := RecordingAnswer(b, g, answers, p, items, choice.size);
    assert DeliverAll(b, Respond(g.db, Descriptors(first, last), choice))
           == DescriptorsContinue(b1, choice.stray, Success, Return) by {
      Responses(g.db, first, last, choice);
      DescriptorEventsDo(b, items, choice.stray);
    }
    IncrementIsLeastAfter(b1.container.value, p);
    hide Complete, DescriptorsSoFar, Running, EnoughFrom, DescriptorsFrom, Increment, Between, DeliverAll, Respond;
    ContinuesBehind(b1, b, g, answers[p := choice.size], p, choice.stray);
  }

  lemma ContinuesBehind(b1: Builder, b: Builder, g: Goal, answers: Answers, p: Position, stray: Handle)
    requires g.db.WellFormed() && Behind(b1, b, g, answers, p)
    ensures Continued(DescriptorsContinue(b1, stray, Success, Return), b1, g, answers,
                      Increment(b1.container.value, p), Success)
  {
    IncrementIsLeastAfter(b1.container.value, p);
    hide Complete, DescriptorsSoFar, Running, EnoughFrom, DescriptorsFrom, Increment, Continued;
    Continues(b1, g, answers, Increment(b1.container.value, p), stray, Success);
  }

  // ----- Which descriptors are found -----

  /** The attributes asked for begin with the characteristic's own declaration. */
  lemma AttributesBegin(services: seq<Service>, g: Goal, p: Position)
    requires g.db.WellFormed() && Complete(services, g) && At(services, p)
    ensures var items := AttributesOf(services, g.db, p);
            items != [] && items[0].first == CharacteristicAt(services, p).handle
  {
    ShareMember(services, g, p);
    RangeAt(services, g, p, 0);
    var handle := CharacteristicAt(services, p).handle;
    var a := DeclarationOf(g.db, Info(CharacteristicAt(services, p)));
    BetweenMember(g.db.attributes, handle, EndOf(services, p), a);
    var head := AttributesOf(services, g.db, p)[0];
    BetweenMember(g.db.attributes, handle, EndOf(services, p), head);
    BetweenOrdered(g.db.attributes, handle, EndOf(services, p));
  }

  /** They go on up to the next characteristic, and so over the declaration of the next service. */
  lemma AttributesRunOn(services: seq<Service>, g: Goal, p: Position, a: Item)
    requires g.db.WellFormed() && Complete(services, g) && At(services, p)
             && p.characteristic + 1 == Length(services, p.service)
    requires p.service + 1 < |services| && a in g.db.attributes && a.first == services[p.service + 1].handle
    ensures a in AttributesOf(services, g.db, p)
  {
    ShareMember(services, g, p);
    BehindDeclaration(services, g, p);
    DatabaseOrdered(g.db);
    BetweenOrdered(g.db.services, g.first, g.last + 1);
    BetweenMember(g.db.attributes, CharacteristicAt(services, p).handle, EndOf(services, p), a);
  }

  /** Behind the last characteristic of a service the next declaration is behind that of the next service. */
  lemma BehindDeclaration(services: seq<Service>, g: Goal, p: Position)
    requires g.db.WellFormed() && Complete(services, g) && At(services, p)
             && p.characteristic + 1 == Length(services, p.service)
    requires p.service + 1 < |services|
    ensures services[p.service + 1].handle < EndOf(services, p)
  {
    IncrementCases(services, p);
    IncrementIsLeastAfter(services, p);
    var next := Increment(services, p);
    if next != End(services) {
      BetweenOrdered(g.db.services, g.first, g.last + 1);
      ShareStrict(services, g, next);
    }
  }

  /** A characteristic's declaration is behind that of its service. */
  lemma ShareStrict(services: seq<Service>, g: Goal, p: Position)
    requires g.db.WellFormed() && Complete(services, g) && At(services, p)
    ensures p.service < |g.Services()| && g.Services()[p.service].first < CharacteristicAt(services, p).handle
  {
    ShareMember(services, g, p);
    var s := g.Services()[p.service];
    BetweenMember(g.db.services, g.first, g.last + 1, s);
    var owner := OwnerOf(g.db, Info(CharacteristicAt(services, p)));
    DatabaseOrdered(g.db);
    Apart(g.db.services, owner, s);
    SizeOf(g.db.characteristics, Info(CharacteristicAt(services, p)));
  }

  /** A batch is everything exactly when the peer offers as much, or there is only one. */
  lemma BatchIsAll(items: seq<Item>, k: nat)
    requires items != []
    ensures BatchSize(items, k) == |items| <==> k >= |items| || |items| == 1
  {
  }

  /**
   A characteristic that has been visited and is not the last has all of its attributes exactly when there
   were descriptor nodes, it was open, and the peer answered the one request for it with all of them.
   */
  lemma AllDescriptorsExact(services: seq<Service>, g: Goal, pooled: bool, answers: Answers, p: Position)
    requires g.db.WellFormed() && Complete(services, g)
    requires At(services, p) && !IsLast(services, p) && Visited(services, g.db, pooled, answers, p)
    ensures var c, items := CharacteristicAt(services, p), AttributesOf(services, g.db, p);
            |c.descriptors| == |items|
            <==> pooled && p in answers && (answers[p] >= |items| || |items| == 1)
    ensures p in answers <==> EndOf(services, p) >= CharacteristicAt(services, p).handle + 3
  {
    AttributesBegin(services, g, p);
    var items := AttributesOf(services, g.db, p);
    if p in answers {
      BatchIsAll(items, answers[p]);
    }
  }

  // ----- Where the trimmed range ends -----

  /** In a container whose last service has characteristics, the last characteristic is the last of that service. */
  lemma LastPlace(services: seq<Service>, p: Position)
    requires At(services, p) && IsLast(services, p) && EndsInCharacteristic(services)
    ensures p.service + 1 == |services| && p.characteristic + 1 == Length(services, p.service)
  {
    IncrementIsLeastAfter(services, p);
    var last := Position(|services| - 1, Length(services, |services| - 1) - 1);
    assert At(services, last);
  }

  /**
   The answer for the last characteristic ends the discovery, and the range then ends with the last attribute
   of that answer, which need not reach the characteristic's value.
   */
  lemma TrimmedToAnswer(b: Builder, g: Goal, answers: Answers, p: Position, first: Handle, last: Handle, choice: Choice)
    requires g.db.WellFormed() && DescriptorsInv(b, g, answers, p) && AskedAt(b.container.value, p, first, last)
    requires Pooled(b) && IsLast(b.container.value, p) && EndsInCharacteristic(b.container.value)
    ensures Between(g.db.attributes, first, last + 1) != []
    ensures var o := DeliverAll(b, Respond(g.db, Descriptors(first, last), choice));
            var items := Batch(Between(g.db.attributes, first, last + 1), choice.size);
            o.Next? && o.builder.rangeLast == items[|items| - 1].first
  {
    hide *;
    InvAt(b, g, answers, p);
    var services := b.container.value;
    AnswerIsAttributes(services, g, p, first, last, choice.size);
    var items := Batch(Between(g.db.attributes, first, last + 1), choice.size);
    BatchIsPrefix(Between(g.db.attributes, first, last + 1), choice.size);
    AttributesFit(b, g, answers, p, items);
    var b1 := PlacingDescriptors(b, p, items);
    Responses(g.db, first, last, choice);
    DescriptorEventsDo(b, items, choice.stray);
    LastPlace(services, p);
    RecordedLast(services, b1.container.value, p, items);
    FinishedAt(b1, p, choice.stray, items);
  }

  /**
   A peer that answers one attribute at a time: the range ends with the last characteristic's declaration,
   before its value.
   */
  lemma TrimmedToDeclaration(b: Builder, g: Goal, answers: Answers, p: Position, first: Handle, last: Handle,
                             choice: Choice)
    requires g.db.WellFormed() && DescriptorsInv(b, g, answers, p) && AskedAt(b.container.value, p, first, last)
    requires Pooled(b) && IsLast(b.container.value, p) && EndsInCharacteristic(b.container.value) && choice.size == 1
    ensures var o := DeliverAll(b, Respond(g.db, Descriptors(first, last), choice));
            o.Next? && o.builder.rangeLast == CharacteristicAt(b.container.value, p).handle
  {
    hide *;
    InvAt(b, g, answers, p);
    TrimmedToAnswer(b, g, answers, p, first, last, choice);
    AnswerIsAttributes(b.container.value, g, p, first, last, choice.size);
    AttributesBegin(b.container.value, g, p);
    BatchOfOne(Between(g.db.attributes, first, last + 1));
  }

  lemma BatchOfOne(items: seq<Item>)
    requires items != []
    ensures |Batch(items, 1)| == 1
  {
  }

  lemma InvAt(b: Builder, g: Goal, answers: Answers, p: Position)
    requires DescriptorsInv(b, g, answers, p)
    ensures b.container.Some? && b.cursor == Some(p) && At(b.container.value, p) && Complete(b.container.value, g)
    ensures CharacteristicAt(b.container.value, p).descriptors == []
  {
    assert Untouched(b.container.value, answers, p);
  }

  /** What was recorded first of all ends with the last item, and the characteristic is still the last. */
  lemma RecordedLast(a: seq<Service>, b: seq<Service>, p: Position, items: seq<Item>)
    requires OnlyAt(a, b, p) && Extended(a, b, p, items) && CharacteristicAt(a, p).descriptors == [] && items != []
    requires p.service + 1 == |a| && p.characteristic + 1 == Length(a, p.service)
    ensures At(b, p) && Increment(b, p) == End(b)
    ensures p.service + 1 == |b| && p.characteristic + 1 == Length(b, p.service)
    ensures var ds := CharacteristicAt(b, p).descriptors;
            |ds| == |items| > 0 && ds[|ds| - 1].handle == items[|items| - 1].first
  {
  }

  lemma FinishedAt(b: Builder, p: Position, stray: Handle, items: seq<Item>)
    requires b.container.Some? && b.cursor == Some(p) && At(b.container.value, p)
    requires Increment(b.container.value, p) == End(b.container.value)
    requires p.service + 1 == |b.container.value| && p.characteristic + 1 == Length(b.container.value, p.service)
    requires var ds := CharacteristicAt(b.container.value, p).descriptors;
             |ds| == |items| > 0 && ds[|ds| - 1].handle == items[|items| - 1].first
    ensures var o := DescriptorsContinue(b, stray, Success, Return);
            o.Next? && o.builder.rangeLast == items[|items| - 1].first
  {
  }
}
