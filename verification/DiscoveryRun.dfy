/**
 Whole discoveries: the engine of ble/gattc_service_builder.cc against an arbitrary well-formed
 peer that batches its responses as it likes.
 */
module DiscoveryRun {
  import opened Wrappers
  import opened BuilderInvariants
  import opened DescriptorPhase
  import opened DiscoveryPhases
  import opened DiscoveryProgress
  import opened DiscoverySystem
  import opened GattContainer
  import opened Peer
  import opened ServiceBuilder

  /** Enough list nodes for what the peer has in the range. */
  ghost predicate EnoughNodes(b: Builder, g: Goal) {
    && |g.Services()| <= |b.free.services|
    && |Between(g.db.characteristics, g.first, g.last + 1)| + DescriptorNeed(b, g, g.first) <= |b.free.characteristics|
  }

  /** The first of the peer's services in the range, if any, has characteristics in the range. */
  predicate FirstCovered(g: Goal) {
    g.Services() != [] ==> CharacteristicsOf(g, g.Services()[0], g.last + 1) != []
  }

  /** The peer's services in the range begin and end with one that has characteristics in the range. */
  predicate EndsCovered(g: Goal) {
    && FirstCovered(g)
    && g.Services() != []
    && CharacteristicsOf(g, g.Services()[|g.Services()| - 1], g.last + 1) != []
  }

  // ----- The invariant of a run -----

  ghost predicate Good(s: System, g: Goal, answers: Answers) {
    match s
    case Broken => !EndsCovered(g)
    case Live(b, None) => Over(b, g, answers)
    case Live(b, Some(PrimaryServices(first, last))) =>
      ServicesInv(b, g, first) && last == g.last && first <= last && answers == map[]
    case Live(b, Some(Characteristics(first, last))) =>
      CharacteristicsInv(b, g, first) && last == g.last && first <= last && answers == map[]
    case Live(b, Some(Descriptors(first, last))) =>
      && FirstCovered(g)
      && b.cursor.Some? && DescriptorsInv(b, g, answers, b.cursor.value)
      && AskedAt(b.container.value, b.cursor.value, first, last)
  }

  /**
   A discovery that has ended: the container is the peer's, the range is trimmed, the callback was called once,
   with `success` or `attribute_not_found`.
   */
  ghost predicate Over(b: Builder, g: Goal, answers: Answers) {
    && EndsCovered(g)
    && b.container.Some? && Complete(b.container.value, g)
    && DescriptorsSoFar(b.container.value, g.db, Pooled(b), answers, End(b.container.value))
    && Trimmed(b)
    && b.completion == None
    && match g.notify
       case None => forall c :: c in b.calls ==> c.Requested?
       case Some(r) =>
         && b.calls != []
         && (forall c :: c in b.calls[..|b.calls| - 1] ==> c.Requested?)
         && (b.calls[|b.calls| - 1] == Notified(r, Success) || b.calls[|b.calls| - 1] == Notified(r, AttributeNotFound))
  }

  /** If the discovery has ended, the callback was passed `error`. */
  ghost predicate Reports(s: System, g: Goal, error: ErrorCode) {
    s.Live? && s.request.None? && g.notify.Some? ==>
      s.builder.calls != [] && s.builder.calls[|s.builder.calls| - 1] == Notified(g.notify.value, error)
  }

  lemma StartIsGood(b: Builder, g: Goal)
    requires g.db.WellFormed() && g.first <= g.last && EnoughNodes(b, g) && b.calls == []
    ensures Good(Start(b, [], g), g, map[])
  {
    BetweenNone(g.db.services, g.first, g.first);
    BetweenNone(g.db.services, g.last + 1, g.first);
  }

  // ----- One turn in each phase -----

  lemma GoodServices(b: Builder, g: Goal, answers: Answers, first: Handle, last: Handle)
    requires Good(Live(b, Some(PrimaryServices(first, last))), g, answers)
    ensures ServicesInv(b, g, first) && last == g.last && answers == map[]
  {
    hide ServicesInv;
  }

  lemma GoodCharacteristics(b: Builder, g: Goal, answers: Answers, first: Handle, last: Handle)
    requires Good(Live(b, Some(Characteristics(first, last))), g, answers)
    ensures CharacteristicsInv(b, g, first) && last == g.last && answers == map[]
  {
    hide CharacteristicsInv;
  }

  /** The engine goes on to the next services or to the characteristics. */
  lemma AfterServices(b: Builder, g: Goal, cut: int, last: Handle)
    requires g.db.WellFormed() && ServicesInv(b, g, cut)
    requires cut == last + 1 || (last == HANDLE_MAXIMUM && Between(g.db.services, cut, g.last + 1) == [])
    ensures var b' := ServicesContinue(b, last);
            var s := AsSystem(Next(b'), |b.calls|);
            s.Live? && s.request.Some? && Good(s, g, map[])
  {
    ServicesInvGives(b, g, cut);
    if RangeDone(b, last) {
      NoServiceBehind(b, g, cut, last);
      ServicesEnd(b, g, cut, last);
    } else {
      MoreServices(b, g, cut, last);
    }
  }

  lemma NoServiceBehind(b: Builder, g: Goal, cut: int, last: Handle)
    requires ServicesInv(b, g, cut) && RangeDone(b, last)
    requires cut == last + 1 || (last == HANDLE_MAXIMUM && Between(g.db.services, cut, g.last + 1) == [])
    ensures Between(g.db.services, cut, g.last + 1) == []
  {
    if cut == last + 1 {
      BetweenNone(g.db.services, cut, g.last + 1);
    }
  }

  lemma ServicesEnd(b: Builder, g: Goal, cut: int, last: Handle)
    requires g.db.WellFormed() && ServicesInv(b, g, cut) && RangeDone(b, last)
    requires Between(g.db.services, cut, g.last + 1) == []
    ensures var s := AsSystem(Next(ServicesContinue(b, last)), |b.calls|);
            s.Live? && s.request.Some? && Good(s, g, map[])
  {
    ServicesInvGives(b, g, cut);
    hide ServicesInv, CharacteristicsInv, Between, Database.WellFormed;
    ServicesDone(b, g, cut);
    AskKeeps(b, g, g.first, Characteristics(g.first, g.last));
  }

  lemma MoreServices(b: Builder, g: Goal, cut: int, last: Handle)
    requires ServicesInv(b, g, cut) && !RangeDone(b, last) && cut == last + 1
    ensures var s := AsSystem(Next(ServicesContinue(b, last)), |b.calls|);
            s.Live? && s.request.Some? && Good(s, g, map[])
  {
    ServicesInvGives(b, g, cut);
    hide ServicesInv;
    AskKeeps(b, g, cut, PrimaryServices(HandleAfter(last), g.last));
  }

  lemma ServicesInvGives(b: Builder, g: Goal, cut: int)
    requires ServicesInv(b, g, cut)
    ensures b.rangeFirst == g.first <= g.last == b.rangeLast && g.first <= cut
  {
  }

  /** The invariants do not depend on the requests made. */
  lemma AskKeeps(b: Builder, g: Goal, cut: int, request: Request)
    ensures ServicesInv(b, g, cut) ==> ServicesInv(Ask(b, request), g, cut)
    ensures CharacteristicsInv(b, g, cut) ==> CharacteristicsInv(Ask(b, request), g, cut)
    ensures NewRequest(Ask(b, request), |b.calls|) == Some(request)
  {
  }

  lemma ServicesTurn(b: Builder, g: Goal, answers: Answers, first: Handle, last: Handle, choice: Choice)
    requires g.db.WellFormed() && Good(Live(b, Some(PrimaryServices(first, last))), g, answers)
    ensures answers == map[]
    ensures var s' := Turn(g.db, Live(b, Some(PrimaryServices(first, last))), choice);
            Good(s', g, answers) && s'.Live? && s'.request.Some?
  {
    hide *;
    GoodServices(b, g, answers, first, last);
    TurnIs(g.db, b, PrimaryServices(first, last), choice);
    ServicesAnswered(b, g, first, choice);
  }

  lemma ServicesAnswered(b: Builder, g: Goal, first: Handle, choice: Choice)
    requires g.db.WellFormed() && ServicesInv(b, g, first)
    ensures var s' := AsSystem(DeliverAll(b, Respond(g.db, PrimaryServices(first, g.last), choice)), |b.calls|);
            Good(s', g, map[]) && s'.Live? && s'.request.Some?
  {
    hide *;
    var items := Between(g.db.services, first, g.last + 1);
    Responses(g.db, first, g.last, choice);
    if items == [] {
      NoServiceAnswer(b);
      AfterServices(b, g, first, HANDLE_MAXIMUM);
    } else {
      BatchIsPrefix(items, choice.size);
      var batch := Batch(items, choice.size);
      var b1 := PlacingServices(b, g, first, batch);
      ServiceEventsDo(b, batch);
      AfterServices(b1, g, batch[|batch| - 1].last + 1, batch[|batch| - 1].last);
    }
  }

  lemma EndsCoveredIs(services: seq<Service>, g: Goal)
    requires Complete(services, g)
    ensures FirstCovered(g) ==> (EndsInCharacteristic(services) <==> EndsCovered(g))
    ensures FirstCovered(g) <==> (services != [] ==> services[0].characteristics != [])
    ensures |services| == |g.Services()|
  {
    if services != [] {
      var last := |services| - 1;
      assert HasShare(services[last], g.Services()[last], g, g.last + 1);
      assert HasShare(services[0], g.Services()[0], g, g.last + 1);
      assert |Infos(services[last].characteristics)| == |services[last].characteristics|;
      assert |Infos(services[0].characteristics)| == |services[0].characteristics|;
    }
  }

  lemma ContinuedIsGood(o: Outcome, b: Builder, g: Goal, answers: Answers, p: Position, error: ErrorCode)
    requires g.db.WellFormed() && Running(b, g) && Complete(b.container.value, g)
    requires Continued(o, b, g, answers, p, error) && !error.Failure?
    requires p == End(b.container.value) || At(b.container.value, p)
    requires FirstCovered(g)
    ensures var s := AsSystem(o, |b.calls|);
            && Good(s, g, answers) && Reports(s, g, error)
            && (s.Live? && s.request.Some? ==> s.request.value.Descriptors?)
  {
    EndsCoveredIs(b.container.value, g);
    if o.Next? {
      var b' := o.builder;
      if b'.cursor == Some(End(b.container.value)) {
        FinishedIsOver(b', b, g, answers, error);
      } else {
        AskedIsGood(b', b, g, answers);
      }
    }
  }

  lemma FinishedIsOver(b': Builder, b: Builder, g: Goal, answers: Answers, error: ErrorCode)
    requires Running(b, g) && Finished(b', b, g, answers, error) && !error.Failure? && EndsCovered(g)
    ensures Over(b', g, answers) && NewRequest(b', |b.calls|) == None && Reports(Live(b', None), g, error)
  {
    if g.notify.Some? {
      assert b'.calls[..|b'.calls| - 1] == b.calls;
    } else {
      assert b'.calls == b.calls;
    }
  }

  lemma AskedIsGood(b': Builder, b: Builder, g: Goal, answers: Answers)
    requires g.db.WellFormed() && b.container.Some? && Asked(b', b.calls)
    requires DescriptorsInv(b', g, answers, b'.cursor.value) && FirstCovered(g)
    ensures var request := NewRequest(b', |b.calls|);
            Good(Live(b', request), g, answers) && request.Some? && request.value.Descriptors?
  {
  }

  /** The engine goes on to the next characteristics, or from the last of them to the descriptors. */
  lemma AfterCharacteristics(b: Builder, g: Goal, cut: int, last: Handle, stray: Handle, error: ErrorCode)
    requires g.db.WellFormed() && CharacteristicsInv(b, g, cut) && !error.Failure?
    requires cut == last + 1 || (last == HANDLE_MAXIMUM && Between(g.db.characteristics, cut, g.last + 1) == [])
    ensures var s := AsSystem(CharacteristicsContinue(b, last, stray, error, Return), |b.calls|);
            Good(s, g, map[]) && Reports(s, g, error)
  {
    if RangeDone(b, last) {
      NothingBehind(b, g, cut, last);
      CharacteristicsEnd(b, g, cut);
      CharacteristicsInvGives(b, g, cut);
      ContinueWithDescriptors(b, last, stray, error);
      hide *;
      BeginDescriptors(b, g, stray, error);
    } else {
      MoreCharacteristics(b, g, cut, last, stray, error);
    }
  }

  lemma NothingBehind(b: Builder, g: Goal, cut: int, last: Handle)
    requires CharacteristicsInv(b, g, cut) && RangeDone(b, last)
    requires cut == last + 1 || (last == HANDLE_MAXIMUM && Between(g.db.characteristics, cut, g.last + 1) == [])
    ensures Between(g.db.characteristics, cut, g.last + 1) == []
  {
    if cut == last + 1 {
      BetweenNone(g.db.characteristics, cut, g.last + 1);
    }
  }

  lemma CharacteristicsEnd(b: Builder, g: Goal, cut: int)
    requires g.db.WellFormed() && CharacteristicsInv(b, g, cut) && Between(g.db.characteristics, cut, g.last + 1) == []
    ensures Complete(b.container.value, g)
  {
    hide CharacteristicsInv, Matches;
    CharacteristicsDone(b, g, cut);
  }

  lemma CharacteristicsInvGives(b: Builder, g: Goal, cut: int)
    requires CharacteristicsInv(b, g, cut)
    ensures Running(b, g) && b.container.Some? && NoDescriptors(b.container.value)
    ensures DescriptorNeed(b, g, g.first) <= |b.free.characteristics|
  {
  }

  lemma ContinueWithDescriptors(b: Builder, last: Handle, stray: Handle, error: ErrorCode)
    requires b.container.Some? && RangeDone(b, last)
    ensures CharacteristicsContinue(b, last, stray, error, Return)
         == DescriptorsFrom(b, Begin(b.container.value), stray, error, Return)
  {
  }

  lemma MoreCharacteristics(b: Builder, g: Goal, cut: int, last: Handle, stray: Handle, error: ErrorCode)
    requires CharacteristicsInv(b, g, cut) && !RangeDone(b, last) && cut == last + 1
    ensures var s := AsSystem(CharacteristicsContinue(b, last, stray, error, Return), |b.calls|);
            Good(s, g, map[]) && Reports(s, g, error)
  {
    AskKeeps(b, g, cut, Characteristics(HandleAfter(last), g.last));
    assert b.rangeLast == g.last;
    hide CharacteristicsInv;
  }

  lemma BeginDescriptors(b: Builder, g: Goal, stray: Handle, error: ErrorCode)
    requires g.db.WellFormed() && Running(b, g) && Complete(b.container.value, g) && NoDescriptors(b.container.value)
             && !error.Failure?
    requires DescriptorNeed(b, g, g.first) <= |b.free.characteristics|
    ensures var s := AsSystem(DescriptorsFrom(b, Begin(b.container.value), stray, error, Return), |b.calls|);
            Good(s, g, map[]) && Reports(s, g, error)
  {
    var services := b.container.value;
    var begin := Begin(services);
    EndsCoveredIs(services, g);
    if begin == End(services) || At(services, begin) {
      if At(services, begin) {
        DatabaseOrdered(g.db);
        ShareMember(services, g, begin);
        BetweenSplit(g.db.attributes, g.first, CharacteristicAt(services, begin).handle, BEYOND);
      }
      assert DescriptorsSoFar(services, g.db, Pooled(b), map[], begin);
      hide DescriptorsSoFar, DescriptorsFrom, Complete, Between;
      Continues(b, g, map[], begin, stray, error);
      ContinuedIsGood(DescriptorsFrom(b, begin, stray, error, Return), b, g, map[], begin, error);
    }
  }

  lemma CharacteristicsTurn(b: Builder, g: Goal, answers: Answers, first: Handle, last: Handle, choice: Choice)
    requires g.db.WellFormed() && Good(Live(b, Some(Characteristics(first, last))), g, answers)
    ensures answers == map[]
    ensures var s' := Turn(g.db, Live(b, Some(Characteristics(first, last))), choice);
            && Good(s', g, answers)
            && Reports(s', g, if Between(g.db.characteristics, first, last + 1) == [] then AttributeNotFound
                       else Success)
  {
    hide *;
    GoodCharacteristics(b, g, answers, first, last);
    TurnIs(g.db, b, Characteristics(first, last), choice);
    CharacteristicsAnswered(b, g, first, choice);
  }

  lemma CharacteristicsAnswered(b: Builder, g: Goal, first: Handle, choice: Choice)
    requires g.db.WellFormed() && CharacteristicsInv(b, g, first)
    ensures var s' := AsSystem(DeliverAll(b, Respond(g.db, Characteristics(first, g.last), choice)), |b.calls|);
            && Good(s', g, map[])
            && Reports(s', g, if Between(g.db.characteristics, first, g.last + 1) == [] then AttributeNotFound
                       else Success)
  {
    hide *;
    var items := Between(g.db.characteristics, first, g.last + 1);
    Responses(g.db, first, g.last, choice);
    if items == [] {
      NoCharacteristicAnswer(b, choice.stray);
      AfterCharacteristics(b, g, first, HANDLE_MAXIMUM, choice.stray, AttributeNotFound);
    } else {
      BatchIsPrefix(items, choice.size);
      var batch := Batch(items, choice.size);
      var b1 := PlacingCharacteristics(b, g, first, batch);
      CharacteristicEventsDo(b, batch, choice.stray);
      var last: Handle := batch[|batch| - 1].last;
      var cut: int := last as int + 1;
      AfterCharacteristics(b1, g, cut, last, choice.stray, Success);
    }
  }

  lemma DescriptorsTurn(b: Builder, g: Goal, answers: Answers, first: Handle, last: Handle, choice: Choice)
    requires g.db.WellFormed() && Good(Live(b, Some(Descriptors(first, last))), g, answers)
    ensures var s := Live(b, Some(Descriptors(first, last)));
            Good(Turn(g.db, s, choice), g, Answered(s, choice, answers)) && Reports(Turn(g.db, s, choice), g, Success)
  {
    var p := b.cursor.value;
    var b1 := DescriptorResponse(b, g, answers, p, first, last, choice);
    var services := b1.container.value;
    IncrementIsLeastAfter(services, p);
    TurnIs(g.db, b, Descriptors(first, last), choice);
    hide Turn, Respond, DeliverAll, Increment, Complete, DescriptorsSoFar, Continued, Reports, Between,
         Database.WellFormed;
    ContinuedIsGood(DeliverAll(b, Respond(g.db, Descriptors(first, last), choice)), b1, g, answers[p := choice.size],
                    Increment(services, p), Success);
  }

  // ----- Whole runs -----

  lemma TurnIsGood(s: System, g: Goal, answers: Answers, choice: Choice)
    requires g.db.WellFormed() && Good(s, g, answers)
    ensures Good(Turn(g.db, s, choice), g, Answered(s, choice, answers))
  {
    hide Turn, Over, Database.WellFormed, ServicesInv, CharacteristicsInv, DescriptorsInv;
    if s.Live? && s.request.Some? {
      assert s == Live(s.builder, Some(s.request.value));
      hide Good;
      match s.request.value
      case PrimaryServices(first, last) => ServicesTurn(s.builder, g, answers, first, last, choice);
      case Characteristics(first, last) => CharacteristicsTurn(s.builder, g, answers, first, last, choice);
      case Descriptors(first, last) => DescriptorsTurn(s.builder, g, answers, first, last, choice);
    } else {
      NoTurn(g.db, s, choice);
    }
  }

  lemma NoTurn(db: Database, s: System, choice: Choice)
    requires s.Broken? || s.request.None?
    ensures Turn(db, s, choice) == s
  {
  }

  lemma {:induction false} TurnsAreGood(s: System, g: Goal, answers: Answers, choices: seq<Choice>)
    requires g.db.WellFormed() && Good(s, g, answers)
    ensures Good(Turns(g.db, s, choices), g, AllAnswers(g.db, s, choices, answers))
    decreases |choices|
  {
    if choices != [] {
      hide Good, Turn;
      TurnIsGood(s, g, answers, choices[0]);
      TurnsAreGood(Turn(g.db, s, choices[0]), g, Answered(s, choices[0], answers), choices[1..]);
    }
  }

  /**
   The main theorem.  Whatever the peer's database and its batching, a discovery with enough nodes into an
   empty container has ended after the responses it takes at most (`EveryDiscoveryEnds`); it meets a `Fault`
   exactly when the first or the last of the peer's services in the range has no characteristic there (or
   there is no service); and otherwise the container is the peer's services with their characteristics, in
   order, each characteristic that is not the last holds what the peer answered to the one request for it,
   and the callback has been called exactly once.
   */
  lemma DiscoveryEnds(b: Builder, g: Goal, choices: seq<Choice>)
    requires g.db.WellFormed() && g.first <= g.last && EnoughNodes(b, g) && b.calls == []
    requires |choices| >= 2 * (g.last - g.first + 1) + |b.free.characteristics|
    ensures var s := Turns(g.db, Start(b, [], g), choices);
            if EndsCovered(g) then
              s.Live? && s.request == None && Over(s.builder, g, AllAnswers(g.db, Start(b, [], g), choices, map[]))
            else s == Broken
  {
    assert InOrder(g.db);
    assert CountFrom([], 0) == 0;
    hide Turns, Start, Good, EnoughNodes, AllAnswers, InOrder, Database.WellFormed;
    StartIsGood(b, g);
    TurnsAreGood(Start(b, [], g), g, map[], choices);
    EveryDiscoveryEnds(b, [], g, choices);
    EndedIs(Turns(g.db, Start(b, [], g), choices), g, AllAnswers(g.db, Start(b, [], g), choices, map[]));
  }

  lemma EndedIs(s: System, g: Goal, answers: Answers)
    requires Good(s, g, answers) && (s.Broken? || s.request.None?)
    ensures if EndsCovered(g) then s.Live? && s.request == None && Over(s.builder, g, answers) else s == Broken
  {
  }

  /**
   Of the characteristics that are not the last, exactly those are found with all of their attributes that are
   open and whose one request the peer answered with all of them, provided there were descriptor nodes.
   Those without room have only declaration and value, and get none.
   */
  lemma DescriptorsExact(b: Builder, g: Goal, choices: seq<Choice>, p: Position)
    requires g.db.WellFormed() && g.first <= g.last && EnoughNodes(b, g) && b.calls == [] && EndsCovered(g)
    requires |choices| >= 2 * (g.last - g.first + 1) + |b.free.characteristics|
    ensures var s := Turns(g.db, Start(b, [], g), choices);
            var answers := AllAnswers(g.db, Start(b, [], g), choices, map[]);
            && s.Live? && s.builder.container.Some?
            && var services := s.builder.container.value;
               At(services, p) && !IsLast(services, p) ==>
                 var c, items := CharacteristicAt(services, p), AttributesOf(services, g.db, p);
                 && (p in answers <==> EndOf(services, p) >= c.handle + 3)
                 && Recorded(c.descriptors, items)
                 && (|c.descriptors| == |items|
                     <==> Pooled(s.builder) && p in answers && (answers[p] >= |items| || |items| == 1))
  {
    DiscoveryEnds(b, g, choices);
    hide Turns, Start, AllAnswers, EnoughNodes, EndsCovered, Complete, AttributesOf, EndOf, Recorded,
         Database.WellFormed;
    var s := Turns(g.db, Start(b, [], g), choices);
    var services := s.builder.container.value;
    if At(services, p) && !IsLast(services, p) {
      EndIsBehind(services, p);
      AllDescriptorsExact(services, g, Pooled(s.builder), AllAnswers(g.db, Start(b, [], g), choices, map[]), p);
    }
  }

  lemma EndIsBehind(services: seq<Service>, p: Position)
    requires At(services, p)
    ensures Before(p, End(services))
  {
  }

  /**
   A peer that always answers with batches of `k` leaves exactly the open characteristics with more attributes
   incomplete.
   */
  lemma DescriptorsOfUniformPeer(b: Builder, g: Goal, choices: seq<Choice>, k: nat, p: Position)
    requires g.db.WellFormed() && g.first <= g.last && EnoughNodes(b, g) && b.calls == [] && EndsCovered(g)
    requires |choices| >= 2 * (g.last - g.first + 1) + |b.free.characteristics|
    requires forall c :: c in choices ==> c.size == k
    ensures var s := Turns(g.db, Start(b, [], g), choices);
            && s.Live? && s.builder.container.Some?
            && var services := s.builder.container.value;
               At(services, p) && !IsLast(services, p) ==>
                 var c, items := CharacteristicAt(services, p), AttributesOf(services, g.db, p);
                 && Recorded(c.descriptors, items)
                 && (|c.descriptors| == |items|
                     <==> Pooled(s.builder) && EndOf(services, p) >= c.handle + 3 && (k >= |items| || |items| == 1))
  {
    hide *;
    DescriptorsExact(b, g, choices, p);
    AnswersAreChoices(g.db, Start(b, [], g), choices, map[], {k});
  }

  /**
   A discovery that ends reports `attribute_not_found` exactly when its last answer was that no characteristic
   is left.
   */
  lemma LastAnswerReported(b: Builder, g: Goal, choices: seq<Choice>, choice: Choice)
    requires g.db.WellFormed() && g.first <= g.last && EnoughNodes(b, g) && b.calls == [] && g.notify.Some?
    ensures var s := Turns(g.db, Start(b, [], g), choices);
            var s' := Turn(g.db, s, choice);
            s.Live? && s.request.Some? && s'.Live? && s'.request.None? ==>
              && s'.builder.calls != []
              && s'.builder.calls[|s'.builder.calls| - 1] == Notified(g.notify.value, LastError(g, s.request.value))
  {
    var s := Turns(g.db, Start(b, [], g), choices);
    hide Turns, Turn, Good, EnoughNodes, Start, Over, Between, Database.WellFormed;
    StartIsGood(b, g);
    TurnsAreGood(Start(b, [], g), g, map[], choices);
    if s.Live? && s.request.Some? {
      LastTurnReports(s, g, AllAnswers(g.db, Start(b, [], g), choices, map[]), choice);
    }
  }

  /** The error in the peer's last entry of an answer, if it has none of services. */
  function LastError(g: Goal, request: Request): ErrorCode {
    if request.Characteristics? && Between(g.db.characteristics, request.first, request.last + 1) == []
        then AttributeNotFound
    else Success
  }

  lemma LastTurnReports(s: System, g: Goal, answers: Answers, choice: Choice)
    requires g.db.WellFormed() && Good(s, g, answers) && s.Live? && s.request.Some?
    ensures Reports(Turn(g.db, s, choice), g, LastError(g, s.request.value))
  {
    hide *;
    var request := s.request.value;
    assert s == Live(s.builder, Some(request));
    LastErrorIs(g, request);
    match request
    case PrimaryServices(first, last) =>
      ServicesTurn(s.builder, g, answers, first, last, choice);
      NothingReported(Turn(g.db, s, choice), g, LastError(g, request));
    case Characteristics(first, last) => CharacteristicsTurn(s.builder, g, answers, first, last, choice);
    case Descriptors(first, last) => DescriptorsTurn(s.builder, g, answers, first, last, choice);
  }

  lemma LastErrorIs(g: Goal, request: Request)
    ensures match request
            case Characteristics(first, last) =>
              LastError(g, request) == if Between(g.db.characteristics, first, last + 1) == [] then AttributeNotFound
                  else Success
            case _ => LastError(g, request) == Success
  {
  }

  lemma NothingReported(s: System, g: Goal, error: ErrorCode)
    requires s.Live? && s.request.Some?
    ensures Reports(s, g, error)
  {
  }

  /**
   At every moment before the descriptor phase begins or after it, the container is a faithful part of the
   peer's database.
   */
  lemma NeverWrong(b: Builder, g: Goal, choices: seq<Choice>)
    requires g.db.WellFormed() && g.first <= g.last && EnoughNodes(b, g) && b.calls == []
    ensures match Turns(g.db, Start(b, [], g), choices)
            case Broken => !EndsCovered(g)
            case Live(b', Some(PrimaryServices(first, _))) =>
              b'.container.Some? && Matches(b'.container.value, Between(g.db.services, g.first, first), g, g.first)
            case Live(b', Some(Characteristics(first, _))) =>
              b'.container.Some? && Matches(b'.container.value, g.Services(), g, first)
            case Live(b', _) => b'.container.Some? && Complete(b'.container.value, g)
  {
    StartIsGood(b, g);
    TurnsAreGood(Start(b, [], g), g, map[], choices);
    hide Turns, Start, AllAnswers;
  }

  // ----- The range the central asks for -----

  lemma {:induction false} BetweenAll(items: seq<Item>, lo: int, hi: int)
    requires forall x :: x in items ==> lo <= x.first < hi
    ensures Between(items, lo, hi) == items
  {
    if items != [] {
      assert items == [items[0]] + items[1..];
      BetweenAll(items[1..], lo, hi);
    }
  }

  /** The container holds the peer's services with all of their characteristics. */
  ghost predicate HoldsAll(found: seq<Service>, db: Database) {
    && |found| == |db.services|
    && forall i :: 0 <= i < |found| ==>
         && found[i].handle == db.services[i].first && found[i].uuid == db.services[i].uuid
         && Infos(found[i].characteristics) == Between(db.characteristics, db.services[i].first, db.services[i].last
                                                       + 1)
  }

  lemma CompleteHoldsAll(found: seq<Service>, db: Database, notify: Option<Registration>)
    requires Complete(found, Goal(db, 1, HANDLE_MAXIMUM, notify))
    requires forall s :: s in db.services ==> 1 <= s.first
    ensures HoldsAll(found, db)
  {
    var g := Goal(db, 1, HANDLE_MAXIMUM, notify);
    BetweenAll(db.services, 1, BEYOND);
    forall i | 0 <= i < |found|
      ensures Infos(found[i].characteristics) == Between(db.characteristics, db.services[i].first, db.services[i].last
                                                         + 1)
    {
      assert HasShare(found[i], g.Services()[i], g, BEYOND);
      WholeShare(found[i], db.services[i], g);
    }
    hide Between, Infos;
  }

  lemma WholeShare(service: Service, s: Item, g: Goal)
    requires HasShare(service, s, g, BEYOND)
    ensures Infos(service.characteristics) == Between(g.db.characteristics, s.first, s.last + 1)
  {
    hide Between, Infos;
  }

  /** Over `[0x0001, 0xFFFF]` a discovery finds every service of the peer, with all of its characteristics. */
  lemma WholeDatabaseFound(b: Builder, db: Database, notify: Option<Registration>, choices: seq<Choice>)
    requires db.WellFormed() && (forall s :: s in db.services ==> 1 <= s.first)
    requires var g := Goal(db, 1, HANDLE_MAXIMUM, notify); EnoughNodes(b, g) && EndsCovered(g)
    requires b.calls == [] && |choices| >= 2 * HANDLE_MAXIMUM + |b.free.characteristics|
    ensures var s := Turns(db, Start(b, [], Goal(db, 1, HANDLE_MAXIMUM, notify)), choices);
            s.Live? && s.request == None && s.builder.container.Some? && HoldsAll(s.builder.container.value, db)
  {
    var g := Goal(db, 1, HANDLE_MAXIMUM, notify);
    hide Turns, Start, EnoughNodes, EndsCovered, Database.WellFormed, Complete, HoldsAll;
    DiscoveryEnds(b, g, choices);
    CompleteHoldsAll(Turns(db, Start(b, [], g), choices).builder.container.value, db, notify);
  }

  // ----- Peers that do not keep to the protocol -----

  /**
   Against any response at all a continuation stays in the range; it begins after the request it
   answers, so that the discovery progresses, exactly when the last handle reported does not lie
   before that request.
   */
  lemma ContinuationAdvances(b: Builder, from: Handle, last: Handle)
    requires !RangeDone(b, last)
    ensures HandleAfter(last) == last + 1 <= b.rangeLast
    ensures from < HandleAfter(last) <==> from <= last
  {
  }

  /** `n` responses that each report a service just below the requested range. */
  function Stale(from: Handle, uuid: Uuid, n: nat): seq<Event>
    requires from >= 1
  {
    if n == 0 then [] else [ServiceEvent(Success, from - 1, from - 1, uuid, true, Return)] + Stale(from, uuid, n - 1)
  }

  /** `n` times the same request. */
  function Again(request: Request, n: nat): seq<OutCall> {
    if n == 0 then [] else [Requested(request)] + Again(request, n - 1)
  }

  /** A peer that goes on reporting a service below the requested range is asked the same thing for ever. */
  lemma {:induction false} StuckOnStaleService(b: Builder, from: Handle, uuid: Uuid, n: nat)
    requires b.container.Some? && 1 <= from <= b.rangeLast
    ensures var o := DeliverAll(b, Stale(from, uuid, n));
            o.Next? && o.builder.calls == b.calls + Again(PrimaryServices(from, b.rangeLast), n)
    decreases n
  {
    if n == 0 {
      assert b.calls + [] == b.calls;
    } else {
      var event := ServiceEvent(Success, from - 1, from - 1, uuid, true, Return);
      var request := PrimaryServices(from, b.rangeLast);
      var b1 := Deliver(b, event).builder;
      assert b1.calls == b.calls + [Requested(request)];
      DeliverHead(b, event, Stale(from, uuid, n - 1));
      StuckOnStaleService(b1, from, uuid, n - 1);
      assert (b.calls + [Requested(request)]) + Again(request, n - 1) == b.calls + Again(request, n);
    }
  }
}
