/** Two peers on which a discovery falls short of its intent, whatever the nodes that are free. */
module DiscoveryExamples {
  import opened Wrappers
  import opened BuilderInvariants
  import opened DescriptorPhase
  import opened DiscoveryCompletion
  import opened DiscoveryPhases
  import opened DiscoveryRun
  import opened DiscoverySystem
  import opened GattContainer
  import opened Peer
  import opened ServiceBuilder

  const CCCD: Uuid := 0x2902

  // ----- A lost descriptor -----

  /** One service over [1, 7]; the characteristic at 2, with its value at 3, has a configuration descriptor at 4. */
  function Heart(): Database {
    Database(
      [Item(1, 7, 0x180D)],
      [Item(2, 3, 0x2A37), Item(5, 6, 0x2A38)],
      [Item(1, 1, 0x2800), Item(2, 2, 0x2803), Item(3, 3, 0x2A37), Item(4, 4, CCCD), Item(5, 5, 0x2803),
       Item(6, 6, 0x2A38)])
  }

  lemma HeartWellFormed()
    ensures Heart().WellFormed()
  {
    var db := Heart();
    assert db.services[0] in db.services && Inside(db.characteristics[0], db.services[0])
           && Inside(db.characteristics[1], db.services[0]);
    assert db.attributes[1] in db.attributes && db.attributes[4] in db.attributes;
  }

  lemma HeartCovered(g: Goal, b: Builder)
    requires g == Goal(Heart(), 1, HANDLE_MAXIMUM, g.notify)
    requires |b.free.services| >= 1 && |b.free.characteristics| >= 8
    ensures g.Services() == Heart().services && EndsCovered(g) && EnoughNodes(b, g)
    ensures CharacteristicsOf(g, Heart().services[0], g.last + 1) == Heart().characteristics
  {
    BetweenAll(Heart().services, 1, 0x1_0000);
    BetweenAll(Heart().characteristics, 1, 8);
    BetweenAll(Heart().characteristics, 1, 0x1_0000);
    BetweenAll(Heart().attributes, 1, 0x1_0000);
  }

  /** What every complete container of this peer looks like. */
  lemma HeartFound(services: seq<Service>, g: Goal)
    requires g == Goal(Heart(), 1, HANDLE_MAXIMUM, g.notify) && Complete(services, g)
    requires g.Services() == Heart().services
    requires CharacteristicsOf(g, Heart().services[0], g.last + 1) == Heart().characteristics
    ensures At(services, Position(0, 0)) && CharacteristicAt(services, Position(0, 0)).handle == 2
    ensures !IsLast(services, Position(0, 0)) && EndOf(services, Position(0, 0)) == 5
    ensures |AttributesOf(services, Heart(), Position(0, 0))| >= 2
    ensures Heart().attributes[3] in AttributesOf(services, Heart(), Position(0, 0))
  {
    assert HasShare(services[0], g.Services()[0], g, g.last + 1);
    var found := services[0].characteristics;
    assert Infos(found) == Heart().characteristics && |found| == 2;
    assert Info(found[0]) == Heart().characteristics[0] && Info(found[1]) == Heart().characteristics[1];
    var items := AttributesOf(services, Heart(), Position(0, 0));
    BetweenMember(Heart().attributes, 2, 5, Heart().attributes[1]);
    BetweenMember(Heart().attributes, 2, 5, Heart().attributes[3]);
    assert Heart().attributes[1] != Heart().attributes[3];
  }

  /**
   A peer that answers one attribute at a time: the engine records the characteristic's own declaration and
   never asks again, so that the configuration descriptor at handle 4 is not found.
   */
  lemma ConfigurationDescriptorLost(b: Builder, g: Goal, choices: seq<Choice>)
    requires g == Goal(Heart(), 1, HANDLE_MAXIMUM, g.notify) && b.calls == []
    requires |b.free.services| >= 1 && |b.free.characteristics| >= 8
    requires |choices| >= 2 * HANDLE_MAXIMUM + |b.free.characteristics| && forall c :: c in choices ==> c.size == 1
    ensures var s := Turns(Heart(), Start(b, [], g), choices);
            && s.Live? && s.request == None && s.builder.container.Some?
            && var services := s.builder.container.value;
               && At(services, Position(0, 0)) && CharacteristicAt(services, Position(0, 0)).handle == 2
               && forall d :: d in CharacteristicAt(services, Position(0, 0)).descriptors ==> d.handle == 2
  {
    hide *;
    HeartGoal(g);
    HeartWellFormed();
    HeartCovered(g, b);
    DiscoveryEnds(b, g, choices);
    var s := Turns(Heart(), Start(b, [], g), choices);
    var answers := AllAnswers(Heart(), Start(b, [], g), choices, map[]);
    AnswersAreChoices(Heart(), Start(b, [], g), choices, map[], {1});
    OneByOne(s.builder, g, answers);
  }

  lemma OneByOne(b: Builder, g: Goal, answers: Answers)
    requires g == Goal(Heart(), 1, HANDLE_MAXIMUM, g.notify) && Over(b, g, answers)
    requires g.Services() == Heart().services
    requires CharacteristicsOf(g, Heart().services[0], g.last + 1) == Heart().characteristics
    requires forall p :: p in answers ==> answers[p] in {1}
    ensures b.container.Some? && At(b.container.value, Position(0, 0))
            && CharacteristicAt(b.container.value, Position(0, 0)).handle == 2
    ensures forall d :: d in CharacteristicAt(b.container.value, Position(0, 0)).descriptors ==> d.handle == 2
  {
    hide *;
    HeartGoal(g);
    HeartWellFormed();
    OverIs(b, g, answers);
    HeartFound(b.container.value, g);
    OnlyDeclaration(b.container.value, g, b, answers);
  }

  lemma HeartGoal(g: Goal)
    requires g == Goal(Heart(), 1, HANDLE_MAXIMUM, g.notify)
    ensures g.db == Heart() && g.first == 1 && g.last == HANDLE_MAXIMUM == 0xFFFF
  {
  }

  lemma OverIs(b: Builder, g: Goal, answers: Answers)
    requires Over(b, g, answers)
    ensures b.container.Some? && Complete(b.container.value, g)
    ensures DescriptorsSoFar(b.container.value, g.db, Pooled(b), answers, End(b.container.value))
  {
  }

  lemma OnlyDeclaration(services: seq<Service>, g: Goal, b: Builder, answers: Answers)
    requires g.db.WellFormed() && Complete(services, g) && At(services, Position(0, 0))
             && !IsLast(services, Position(0, 0))
    requires DescriptorsSoFar(services, g.db, Pooled(b), answers, End(services))
    requires forall p :: p in answers ==> answers[p] in {1}
    ensures forall d :: d in CharacteristicAt(services, Position(0, 0)).descriptors ==>
              d.handle == CharacteristicAt(services, Position(0, 0)).handle
  {
    var p := Position(0, 0);
    AttributesBegin(services, g, p);
    EndIsBehind(services, p);
    assert Visited(services, g.db, Pooled(b), answers, p);
  }

  // ----- A complete discovery reported as a failure -----

  /** One service over [1, 3] with one characteristic, the last attribute of the peer. */
  function Battery(): Database {
    Database([Item(1, 3, 0x180F)], [Item(2, 3, 0x2A19)], [Item(1, 1, 0x2800), Item(2, 2, 0x2803), Item(3, 3, 0x2A19)])
  }

  lemma BatteryCovered(g: Goal, b: Builder)
    requires g == Goal(Battery(), 1, HANDLE_MAXIMUM, g.notify)
    requires |b.free.services| >= 1 && |b.free.characteristics| >= 4
    ensures g.db.WellFormed() && EndsCovered(g) && EnoughNodes(b, g)
  {
    BatteryWellFormed();
    hide Database.WellFormed;
    BetweenAll(Battery().services, 1, 0x1_0000);
    BetweenAll(Battery().characteristics, 1, 4);
    BetweenAll(Battery().characteristics, 1, 0x1_0000);
    BetweenAll(Battery().attributes, 1, 0x1_0000);
    hide Between;
  }

  lemma BatteryWellFormed()
    ensures Battery().WellFormed()
  {
    var db := Battery();
    assert db.services[0] in db.services && Inside(db.characteristics[0], db.services[0]);
    assert db.attributes[1] in db.attributes;
  }

  lemma BatteryReported(g: Goal)
    requires g == Goal(Battery(), 1, HANDLE_MAXIMUM, g.notify)
    ensures Reported(g, 1) == AttributeNotFound
  {
  }

  /** However it batches its answers, this peer is found completely and the callback is passed `attribute_not_found`. */
  lemma CompleteYetNotFound(b: Builder, g: Goal, choices: seq<Choice>)
    requires g == Goal(Battery(), 1, HANDLE_MAXIMUM, g.notify) && g.notify.Some? && b.calls == []
    requires |b.free.services| >= 1 && |b.free.characteristics| >= 4
    requires |choices| >= 2 * HANDLE_MAXIMUM + |b.free.characteristics| && forall c :: c in choices ==> c.stray == 1
    ensures var s := Turns(Battery(), Start(b, [], g), choices);
            && s.Live? && s.request == None && s.builder.container.Some? && Complete(s.builder.container.value, g)
            && s.builder.calls != [] && s.builder.calls[|s.builder.calls| - 1]
               == Notified(g.notify.value, AttributeNotFound)
  {
    BatteryCovered(g, b);
    BatteryReported(g);
    hide Turns, Start, Reported, EndsCovered, EnoughNodes, Complete, Battery, Database.WellFormed;
    CompletionErrorExact(b, g, choices, 1);
  }
}
