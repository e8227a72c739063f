/** What a discovery that ends well reports to the completion callback, in terms of the peer's database. */
module DiscoveryCompletion {
  import opened Wrappers
  import opened BuilderInvariants
  import opened DescriptorPhase
  import opened DiscoveryPhases
  import opened DiscoveryProgress
  import opened DiscoveryRun
  import opened DiscoverySystem
  import opened GattContainer
  import opened Numbers
  import opened Peer
  import opened ServiceBuilder

  /** The peer's characteristic begins in the range and belongs to a service that does. */
  ghost predicate Found(g: Goal, c: Item) {
    c in g.db.characteristics && c.first <= g.last && exists s :: s in g.Services() && s.first <= c.first <= s.last
  }

  /**
   There is room for an attribute behind the value of `c`, up to the next characteristic.  Behind the last
   characteristic the engine takes the room up to `stray`, whatever it read as the next declaration handle.
   */
  ghost predicate OpenOnPeer(g: Goal, c: Item, stray: Handle) {
    if exists d :: Found(g, d) && c.first < d.first then
      forall d :: Found(g, d) && c.first < d.first ==> c.first + 3 <= d.first
    else ToHandle(stray - 1) >= c.first + 2
  }

  /** No characteristic of the range reaches its end. */
  ghost predicate EndsBelow(g: Goal) {
    forall c :: c in g.db.characteristics && g.first <= c.first <= g.last ==> c.last < g.last
  }

  /** The error a discovery reports that finds everything. */
  ghost function Reported(g: Goal, stray: Handle): ErrorCode {
    if EndsBelow(g) && forall c :: Found(g, c) ==> !OpenOnPeer(g, c, stray) then AttributeNotFound else Success
  }

  // ----- Open characteristics, in the container and on the peer -----

  /** The container holds exactly the peer's characteristics of the range. */
  lemma FoundExact(services: seq<Service>, g: Goal, c: Item)
    requires Complete(services, g)
    ensures Found(g, c) <==> exists p :: At(services, p) && Info(CharacteristicAt(services, p)) == c
  {
    if Found(g, c) {
      var p := PlaceOf(services, g, c);
    }
    if p :| At(services, p) && Info(CharacteristicAt(services, p)) == c {
      ShareMember(services, g, p);
    }
  }

  lemma PlaceOf(services: seq<Service>, g: Goal, c: Item) returns (p: Position)
    requires Complete(services, g) && Found(g, c)
    ensures At(services, p) && Info(CharacteristicAt(services, p)) == c
  {
    var s :| s in g.Services() && s.first <= c.first <= s.last;
    var i :| 0 <= i < |g.Services()| && g.Services()[i] == s;
    assert HasShare(services[i], s, g, g.last + 1);
    BetweenMember(g.db.characteristics, s.first, Min(s.last + 1, g.last + 1), c);
    var share := Infos(services[i].characteristics);
    var j :| 0 <= j < |share| && share[j] == c;
    p := Position(i, j);
    assert Info(services[i].characteristics[j]) == c;
  }

  lemma FoundAt(services: seq<Service>, g: Goal, p: Position)
    requires Complete(services, g) && At(services, p)
    ensures Found(g, Info(CharacteristicAt(services, p)))
  {
    hide *;
    FoundExact(services, g, Info(CharacteristicAt(services, p)));
  }

  /** Behind the last characteristic the peer has none in the range. */
  lemma LastOnPeer(services: seq<Service>, g: Goal, p: Position)
    requires g.db.WellFormed() && Complete(services, g) && At(services, p)
    ensures IsLast(services, p) <==> !(exists d :: Found(g, d) && CharacteristicAt(services, p).handle < d.first)
  {
    IncrementIsLeastAfter(services, p);
    if d :| Found(g, d) && CharacteristicAt(services, p).handle < d.first {
      var q := PlaceOf(services, g, d);
      PositionsCompare(services, g, p, q);
    }
    if !IsLast(services, p) {
      var next := Increment(services, p);
      FoundAt(services, g, next);
      DeclarationsIncrease(services, g, p, next);
    }
  }

  lemma PositionsCompare(services: seq<Service>, g: Goal, p: Position, q: Position)
    requires g.db.WellFormed() && Complete(services, g) && At(services, p) && At(services, q)
    ensures Before(p, q) <==> CharacteristicAt(services, p).handle < CharacteristicAt(services, q).handle
  {
    hide Complete, Database.WellFormed;
    if Before(p, q) {
      DeclarationsIncrease(services, g, p, q);
    } else if p != q {
      DeclarationsIncrease(services, g, q, p);
    }
  }

  lemma OpenExact(services: seq<Service>, g: Goal, p: Position, stray: Handle)
    requires g.db.WellFormed() && Complete(services, g) && At(services, p)
    ensures Open(services, p, stray) <==> OpenOnPeer(g, Info(CharacteristicAt(services, p)), stray)
  {
    var handle := CharacteristicAt(services, p).handle;
    LastOnPeer(services, g, p);
    IncrementIsLeastAfter(services, p);
    var next := Increment(services, p);
    RangeAt(services, g, p, stray);
    hide Complete, Database.WellFormed, Found, Increment;
    if !IsLast(services, p) {
      FoundAt(services, g, next);
      DeclarationsIncrease(services, g, p, next);
      forall d | Found(g, d) && handle < d.first
        ensures CharacteristicAt(services, next).handle <= d.first
      {
        var q := PlaceOf(services, g, d);
        PositionsCompare(services, g, p, q);
        PositionsCompare(services, g, next, q);
      }
    }
  }

  // ----- How the characteristic phase ends -----

  /** With no characteristic left to request, none reaches the end of the range. */
  lemma NoneLeftBelow(g: Goal, first: Handle, last: Handle)
    requires g.first <= first <= last == g.last && CleanCut(g, first)
    requires Between(g.db.characteristics, first, last + 1) == []
    ensures EndsBelow(g)
  {
    forall c | c in g.db.characteristics && g.first <= c.first <= g.last
      ensures c.last < g.last
    {
      BetweenMember(g.db.characteristics, first, last + 1, c);
    }
  }

  /** When the phase ends with a batch, the last of the batch reaches the end of the range. */
  lemma BatchReachesEnd(b: Builder, g: Goal, first: Handle, choice: Choice)
    requires InOrder(g.db) && Ready(b, g) && g.first <= first <= g.last
    requires Between(g.db.characteristics, first, g.last + 1) != []
    ensures var s' := Turn(g.db, Live(b, Some(Characteristics(first, g.last))), choice);
            s'.Live? && s'.request.None? ==> !EndsBelow(g)
  {
    hide *;
    TurnIs(g.db, b, Characteristics(first, g.last), choice);
    Responses(g.db, first, g.last, choice);
    BatchEnds(b, g, first, choice, Batch(Between(g.db.characteristics, first, g.last + 1), choice.size));
  }

  lemma BatchEnds(b: Builder, g: Goal, first: Handle, choice: Choice, batch: seq<Item>)
    requires InOrder(g.db) && Ready(b, g) && g.first <= first <= g.last
    requires Between(g.db.characteristics, first, g.last + 1) != []
    requires batch == Batch(Between(g.db.characteristics, first, g.last + 1), choice.size)
    ensures batch != []
    ensures var s' := AsSystem(DeliverAll(b, CharacteristicEvents(batch, choice.stray)), |b.calls|);
            s'.Live? && s'.request.None? ==> !EndsBelow(g)
  {
    hide *;
    OrderOf(g.db);
    ReadyHolds(b, g, first);
    BatchInRange(g.db.characteristics, first, g.last, choice.size);
    PlacesCharacteristics(b, batch);
    CharacteristicEventsDo(b, batch, choice.stray);
    var x: Item := batch[|batch| - 1];
    assert x in batch;
    ReachesEnd(b, PlaceCharacteristics(b, batch).builder, g, x, choice.stray);
  }

  lemma ReachesEnd(b: Builder, b1: Builder, g: Goal, x: Item, stray: Handle)
    requires Ready(b, g) && Ongoing(b, b1) && x in g.db.characteristics && g.first <= x.first <= g.last
    ensures var s' := AsSystem(CharacteristicsContinue(b1, x.last, stray, Success, Return), |b.calls|);
            s'.Live? && s'.request.None? ==> !EndsBelow(g)
  {
    if RangeDone(b1, x.last) {
      assert g.last <= x.last;
      hide DescriptorsFrom;
    }
  }

  /** When a discovery ends with the characteristic phase, no characteristic is open. */
  lemma EndsWithNoneOpen(b: Builder, g: Goal, first: Handle, choice: Choice)
    requires InOrder(g.db) && Ready(b, g) && g.first <= first <= g.last
    ensures var s' := Turn(g.db, Live(b, Some(Characteristics(first, g.last))), choice);
            s'.Live? && s'.request.None? ==>
              s'.builder.container.Some? && NoneOpen(s'.builder.container.value, choice.stray)
  {
    hide *;
    TurnIs(g.db, b, Characteristics(first, g.last), choice);
    Responses(g.db, first, g.last, choice);
    OrderOf(g.db);
    ReadyHolds(b, g, first);
    var items := Between(g.db.characteristics, first, g.last + 1);
    if items == [] {
      NoCharacteristicAnswer(b, choice.stray);
      EndsFromBegin(b, HANDLE_MAXIMUM, choice.stray, AttributeNotFound);
    } else {
      var batch := Batch(items, choice.size);
      BatchInRange(g.db.characteristics, first, g.last, choice.size);
      PlacesCharacteristics(b, batch);
      CharacteristicEventsDo(b, batch, choice.stray);
      var b1 := PlaceCharacteristics(b, batch).builder;
      OngoingIs(b, b1);
      EndsFromBegin(b1, batch[|batch| - 1].last, choice.stray, Success);
    }
  }

  ghost predicate NoneOpen(services: seq<Service>, stray: Handle) {
    forall p :: At(services, p) ==> !Open(services, p, stray)
  }

  lemma EndsFromBegin(b: Builder, last: Handle, stray: Handle, error: ErrorCode)
    requires b.container.Some?
    ensures var s' := AsSystem(CharacteristicsContinue(b, last, stray, error, Return), |b.calls|);
            s'.Live? && s'.request.None? ==> s'.builder.container.Some? && NoneOpen(s'.builder.container.value, stray)
  {
    FromPosition(b, Begin(b.container.value), stray, error);
    hide DescriptorsFrom, Open;
  }

  lemma NoneOpenOnPeer(services: seq<Service>, g: Goal, stray: Handle)
    requires g.db.WellFormed() && Complete(services, g)
    ensures NoneOpen(services, stray) <==> forall c :: Found(g, c) ==> !OpenOnPeer(g, c, stray)
  {
    hide Complete, Database.WellFormed, Found, OpenOnPeer, Open;
    forall c | Found(g, c)
      ensures exists p :: At(services, p) && (Open(services, p, stray) <==> OpenOnPeer(g, c, stray))
    {
      var p := PlaceOf(services, g, c);
      OpenExact(services, g, p, stray);
    }
    forall p | At(services, p)
      ensures exists c :: Found(g, c) && (Open(services, p, stray) <==> OpenOnPeer(g, c, stray))
    {
      FoundAt(services, g, p);
      OpenExact(services, g, p, stray);
    }
  }

  // ----- Whole runs -----

  /** What holds along a run in which the memory behind the list always reads `stray`. */
  ghost predicate Settled(s: System, g: Goal, stray: Handle) {
    match s
    case Live(b, None) => Reports(s, g, Reported(g, stray))
    case Live(b, Some(Descriptors(first, last))) =>
      b.container.Some? && b.cursor.Some? && OpenRequest(b.container.value, b.cursor.value, stray, first, last)
    case _ => true
  }

  lemma CharacteristicsSettle(b: Builder, g: Goal, answers: Answers, first: Handle, last: Handle, choice: Choice)
    requires g.db.WellFormed() && InOrder(g.db)
    requires var s := Live(b, Some(Characteristics(first, last))); Good(s, g, answers) && InStep(s, g)
    ensures Settled(Turn(g.db, Live(b, Some(Characteristics(first, last))), choice), g, choice.stray)
  {
    hide *;
    InStepGives(b, g, first, last);
    var s' := Turn(g.db, Live(b, Some(Characteristics(first, last))), choice);
    if s'.Live? && s'.request.None? {
      EndSettled(b, g, answers, first, choice);
    } else {
      CharacteristicsProgress(b, g, first, choice);
      SettledBefore(b, s', g, first, choice.stray);
    }
  }

  lemma EndSettled(b: Builder, g: Goal, answers: Answers, first: Handle, choice: Choice)
    requires g.db.WellFormed() && InOrder(g.db) && Good(Live(b, Some(Characteristics(first, g.last))), g, answers)
    requires Ready(b, g) && g.first <= first <= g.last && CleanCut(g, first)
    requires var s' := Turn(g.db, Live(b, Some(Characteristics(first, g.last))), choice); s'.Live? && s'.request.None?
    ensures Settled(Turn(g.db, Live(b, Some(Characteristics(first, g.last))), choice), g, choice.stray)
  {
    hide *;
    var s' := Turn(g.db, Live(b, Some(Characteristics(first, g.last))), choice);
    var unanswered := Between(g.db.characteristics, first, g.last + 1) == [];
    CharacteristicsTurn(b, g, answers, first, g.last, choice);
    UnansweredExact(b, g, first, choice);
    EndedIsGood(b, g, answers, first, g.last, choice);
    EndsWithNoneOpen(b, g, first, choice);
    NoneOpenOnPeer(s'.builder.container.value, g, choice.stray);
    SettledAtEnd(s', g, choice.stray, unanswered);
  }

  lemma UnansweredExact(b: Builder, g: Goal, first: Handle, choice: Choice)
    requires InOrder(g.db) && Ready(b, g) && g.first <= first <= g.last && CleanCut(g, first)
    requires var s' := Turn(g.db, Live(b, Some(Characteristics(first, g.last))), choice); s'.Live? && s'.request.None?
    ensures Between(g.db.characteristics, first, g.last + 1) == [] <==> EndsBelow(g)
  {
    hide *;
    if Between(g.db.characteristics, first, g.last + 1) == [] {
      NoneLeftBelow(g, first, g.last);
    } else {
      BatchReachesEnd(b, g, first, choice);
    }
  }

  lemma InStepGives(b: Builder, g: Goal, first: Handle, last: Handle)
    requires InStep(Live(b, Some(Characteristics(first, last))), g)
    ensures Ready(b, g) && b.container.Some? && g.first <= first <= last == g.last && CleanCut(g, first)
  {
  }

  lemma EndedIsGood(b: Builder, g: Goal, answers: Answers, first: Handle, last: Handle, choice: Choice)
    requires g.db.WellFormed() && Good(Live(b, Some(Characteristics(first, last))), g, answers)
    ensures var s' := Turn(g.db, Live(b, Some(Characteristics(first, last))), choice);
            s'.Live? && s'.request.None? ==> s'.builder.container.Some? && Complete(s'.builder.container.value, g)
  {
    CharacteristicsTurn(b, g, answers, first, last, choice);
    hide Turn, CharacteristicsInv;
  }

  lemma SettledAtEnd(s: System, g: Goal, stray: Handle, unanswered: bool)
    requires s.Live? && s.request.None? && Reports(s, g, if unanswered then AttributeNotFound else Success)
    requires (forall c :: Found(g, c) ==> !OpenOnPeer(g, c, stray)) && (unanswered <==> EndsBelow(g))
    ensures Settled(s, g, stray)
  {
    hide EndsBelow, Found, OpenOnPeer, Reports;
  }

  lemma SettledBefore(b: Builder, s': System, g: Goal, first: Handle, stray: Handle)
    requires b.container.Some? && CharacteristicsTurned(b, s', g, first, stray) && !(s'.Live? && s'.request.None?)
    ensures Settled(s', g, stray)
  {
    hide OpenRequest, CleanCut, Stock;
  }

  lemma DescriptorsSettle(b: Builder, g: Goal, answers: Answers, first: Handle, last: Handle, choice: Choice)
    requires g.db.WellFormed()
    requires var s := Live(b, Some(Descriptors(first, last))); Good(s, g, answers) && Settled(s, g, choice.stray)
    ensures Settled(Turn(g.db, Live(b, Some(Descriptors(first, last))), choice), g, choice.stray)
  {
    var p, services := b.cursor.value, b.container.value;
    assert Complete(services, g) && Open(services, p, choice.stray) && At(services, p);
    DescriptorsTurn(b, g, answers, first, last, choice);
    DescriptorsProgress(b, g, p, first, last, choice);
    OpenExact(services, g, p, choice.stray);
    FoundAt(services, g, p);
    hide Turn, Found, OpenOnPeer, Open, Complete, Database.WellFormed, OpenRequest, Good, OnlyAt;
  }

  lemma TurnSettles(s: System, g: Goal, answers: Answers, choice: Choice)
    requires g.db.WellFormed() && InOrder(g.db) && Good(s, g, answers) && InStep(s, g) && Settled(s, g, choice.stray)
    ensures Settled(Turn(g.db, s, choice), g, choice.stray)
  {
    if s.Live? && s.request.Some? {
      assert s == Live(s.builder, Some(s.request.value));
      hide Good, InStep, Settled, Database.WellFormed, Turn;
      match s.request.value
      case PrimaryServices(first, last) => ServicesSettle(s.builder, g, answers, first, last, choice);
      case Characteristics(first, last) => CharacteristicsSettle(s.builder, g, answers, first, last, choice);
      case Descriptors(first, last) => DescriptorsSettle(s.builder, g, answers, first, last, choice);
    } else {
      NoTurn(g.db, s, choice);
    }
  }

  lemma ServicesSettle(b: Builder, g: Goal, answers: Answers, first: Handle, last: Handle, choice: Choice)
    requires g.db.WellFormed() && InOrder(g.db)
    requires var s := Live(b, Some(PrimaryServices(first, last))); Good(s, g, answers) && InStep(s, g)
    ensures Settled(Turn(g.db, Live(b, Some(PrimaryServices(first, last))), choice), g, choice.stray)
  {
    hide Turn, Good, Database.WellFormed;
    ServicesProgress(b, g, first, choice);
  }

  lemma {:induction false} TurnsSettle(s: System, g: Goal, answers: Answers, choices: seq<Choice>, stray: Handle)
    requires g.db.WellFormed() && InOrder(g.db) && Good(s, g, answers) && InStep(s, g) && Settled(s, g, stray)
    requires forall c :: c in choices ==> c.stray == stray
    ensures Settled(Turns(g.db, s, choices), g, stray)
    decreases |choices|
  {
    if choices != [] {
      var choice := choices[0];
      assert choice in choices && forall c :: c in choices[1..] ==> c in choices;
      TurnSettles(s, g, answers, choice);
      TurnIsGood(s, g, answers, choice);
      TurnsInStep(s, g, [choice]);
      assert Turns(g.db, s, [choice]) == Turn(g.db, s, choice) by {
        assert [choice][1..] == [];
      }
      hide Good, InStep, Settled, Database.WellFormed, Turn;
      TurnsSettle(Turn(g.db, s, choice), g, Answered(s, choice, answers), choices[1..], stray);
    }
  }

  /**
   A discovery that ends well has found everything, yet it reports `attribute_not_found` exactly when no
   characteristic of the range reaches the end of the range and none is open, however the peer batches its
   answers; and else `success`.
   */
  lemma CompletionErrorExact(b: Builder, g: Goal, choices: seq<Choice>, stray: Handle)
    requires g.db.WellFormed() && g.first <= g.last && EnoughNodes(b, g) && b.calls == [] && EndsCovered(g)
    requires |choices| >= 2 * (g.last - g.first + 1) + |b.free.characteristics|
    requires g.notify.Some? && forall c :: c in choices ==> c.stray == stray
    ensures var s := Turns(g.db, Start(b, [], g), choices);
            && s.Live? && s.request == None && s.builder.container.Some? && Complete(s.builder.container.value, g)
            && s.builder.calls != []
            && s.builder.calls[|s.builder.calls| - 1] == Notified(g.notify.value, Reported(g, stray))
  {
    assert InOrder(g.db);
    DiscoveryEnds(b, g, choices);
    assert Settled(Start(b, [], g), g, stray);
    hide Turns, Start, Good, EnoughNodes, AllAnswers, InStep, Complete, Database.WellFormed, Reported, EndsCovered,
         DescriptorsSoFar;
    StartIsGood(b, g);
    StartInStep(b, [], g);
    TurnsSettle(Start(b, [], g), g, map[], choices, stray);
  }
}
