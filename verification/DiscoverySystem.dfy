/** The discovery engine of ble/gattc_service_builder.cc connected to a peer that answers its requests. */
module DiscoverySystem {
  import opened Wrappers
  import opened BuilderInvariants
  import opened DiscoveryPhases
  import opened GattContainer
  import opened Peer
  import opened ServiceBuilder

  /** The engine and the request it waits on, if any; or the engine has run into undefined behaviour. */
  datatype System = Broken | Live(builder: Builder, request: Option<Request>)

  /** The request among the calls made since there were `before` of them. */
  function NewRequest(b: Builder, before: nat): Option<Request> {
    if before < |b.calls| && b.calls[|b.calls| - 1].Requested? then Some(b.calls[|b.calls| - 1].request) else None
  }

  /** What an event has led to, as a system. */
  function AsSystem(o: Outcome, before: nat): System {
    match o
    case Fault => Broken
    case Next(b) => Live(b, NewRequest(b, before))
  }

  /** The peer answers the outstanding request. */
  function Turn(db: Database, s: System, choice: Choice): System {
    if s.Broken? || s.request.None? then s
    else AsSystem(DeliverAll(s.builder, Respond(db, s.request.value, choice)), |s.builder.calls|)
  }

  function Turns(db: Database, s: System, choices: seq<Choice>): System
    decreases |choices|
  {
    if choices == [] then s else Turns(db, Turn(db, s, choices[0]), choices[1..])
  }

  /** An accepted discovery into a container that holds `services`. */
  function Start(b: Builder, services: seq<Service>, g: Goal): System {
    AsSystem(Next(DiscoverServices(b, services, g.first, g.last, g.notify, true)), |b.calls|)
  }

  /** The batch sizes with which descriptor requests were answered, by the characteristic they were for. */
  type Answers = map<Position, nat>

  function Answered(s: System, choice: Choice, answers: Answers): Answers {
    if s.Live? && s.request.Some? && s.request.value.Descriptors? && s.builder.cursor.Some? then
      answers[s.builder.cursor.value := choice.size]
    else answers
  }

  function AllAnswers(db: Database, s: System, choices: seq<Choice>, answers: Answers): Answers
    decreases |choices|
  {
    if choices == [] then answers
    else AllAnswers(db, Turn(db, s, choices[0]), choices[1..], Answered(s, choices[0], answers))
  }

  /** Every recorded size is one that the peer chose. */
  lemma {:induction false} AnswersAreChoices(db: Database, s: System, choices: seq<Choice>, answers: Answers,
                                             sizes: set<nat>)
    requires forall p :: p in answers ==> answers[p] in sizes
    requires forall c :: c in choices ==> c.size in sizes
    ensures forall p :: p in AllAnswers(db, s, choices, answers) ==> AllAnswers(db, s, choices, answers)[p] in sizes
    decreases |choices|
  {
    if choices != [] {
      assert choices[0] in choices && forall c :: c in choices[1..] ==> c in choices;
      hide Turn;
      AnswersAreChoices(db, Turn(db, s, choices[0]), choices[1..], Answered(s, choices[0], answers), sizes);
    }
  }

  lemma TurnIs(db: Database, b: Builder, request: Request, choice: Choice)
    ensures Turn(db, Live(b, Some(request)), choice) == AsSystem(DeliverAll(b, Respond(db, request, choice)), |b.calls|)
  {
  }

  lemma {:induction false} TurnsLast(db: Database, s: System, choices: seq<Choice>, choice: Choice)
    ensures Turns(db, s, choices + [choice]) == Turn(db, Turns(db, s, choices), choice)
    decreases |choices|
  {
    if choices == [] {
      assert choices + [choice] == [choice] && [choice][1..] == [];
    } else {
      assert (choices + [choice])[0] == choices[0] && (choices + [choice])[1..] == choices[1..] + [choice];
      hide Turn;
      TurnsLast(db, Turn(db, s, choices[0]), choices[1..], choice);
    }
  }

  /** The peer may answer with any non-empty first part of what there is. */
  lemma AnyBatchPossible(db: Database, first: Handle, last: Handle, k: nat, stray: Handle)
    requires 1 <= k
    ensures k <= |Between(db.services, first, last + 1)| ==>
              Respond(db, PrimaryServices(first, last), Choice(k, stray))
              == ServiceEvents(Between(db.services, first, last + 1)[..k])
    ensures k <= |Between(db.characteristics, first, last + 1)| ==>
              Respond(db, Characteristics(first, last), Choice(k, stray))
              == CharacteristicEvents(Between(db.characteristics, first, last + 1)[..k], stray)
    ensures k <= |Between(db.attributes, first, last + 1)| ==>
              Respond(db, Descriptors(first, last), Choice(k, stray))
              == DescriptorEvents(Between(db.attributes, first, last + 1)[..k], stray)
  {
    var s, c, d := Between(db.services, first, last + 1), Between(db.characteristics, first, last + 1),
        Between(db.attributes, first, last + 1);
    hide Between, ServiceEvents, CharacteristicEvents, DescriptorEvents;
    assert s[..|s|] == s && c[..|c|] == c && d[..|d|] == d;
  }

  lemma BatchIsPrefix(items: seq<Item>, k: nat)
    requires items != []
    ensures Batch(items, k) != [] && Batch(items, k) <= items
  {
  }

  /** `Respond`, unfolded. */
  lemma Responses(db: Database, first: Handle, last: Handle, choice: Choice)
    ensures var items := Between(db.services, first, last + 1);
            Respond(db, PrimaryServices(first, last), choice)
            == if items == [] then [ServiceEvent(AttributeNotFound, 0, 0, 0, true, Return)]
               else ServiceEvents(Batch(items, choice.size))
    ensures var items := Between(db.characteristics, first, last + 1);
            Respond(db, Characteristics(first, last), choice)
            == if items == [] then [CharacteristicEvent(AttributeNotFound, 0, 0, 0, true, choice.stray, Return)]
               else CharacteristicEvents(Batch(items, choice.size), choice.stray)
    ensures var items := Between(db.attributes, first, last + 1);
            Respond(db, Descriptors(first, last), choice)
            == if items == [] then [DescriptorEvent(AttributeNotFound, 0, true, choice.stray, Return)]
               else DescriptorEvents(Batch(items, choice.size), choice.stray)
  {
  }
}
