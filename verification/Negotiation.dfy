/**
 Connection negotiation of the central: the pending flags of
 ble/gap_connection_negotiation_state.cc, the handle and flag resets of ble/gap_connection.cc, and
 the events of ble_central/ble_gap_connection.cc and ble_central/ble_gattc_observer.cc that set and
 clear flags.  When the last pending update completes, service discovery starts.
 */
module Negotiation {
  type ConnectionHandle = x: int | 0 <= x < 0x1_0000

  const HANDLE_INVALID: ConnectionHandle := 0xFFFF

  // ----- The pending flags -----

  datatype Pending = Pending(mtu: bool, parameters: bool, linkLayer: bool, phy: bool) {
    predicate Any() {
      mtu || parameters || linkLayer || phy
    }
  }

  /** Each of the four flags counts. */
  lemma AnyExact(p: Pending)
    ensures p.Any() <==> p != Pending(false, false, false, false)
  {
  }

  const NOTHING: Pending := Pending(false, false, false, false)

  /** Each setter calls the completion observer, as its last act, when `completed`. */
  class NegotiationState {
    var mtu: bool
    var parameters: bool
    var linkLayer: bool
    var phy: bool

    function View(): Pending
      reads this
    {
      Pending(mtu, parameters, linkLayer, phy)
    }

    constructor ()
      ensures View() == NOTHING
    {
      mtu, parameters, linkLayer, phy := false, false, false, false;
    }

    method ClearAllPending()
      modifies this
      ensures View() == NOTHING
    {
      mtu, parameters, linkLayer, phy := false, false, false, false;
    }

    method SetMtuExchangePending(isPending: bool) returns (completed: bool)
      modifies this
      ensures View() == old(View()).(mtu := isPending)
      ensures completed <==> old(View()).Any() && !View().Any()
    {
      var updatesArePending := View().Any();
      mtu := isPending;
      completed := updatesArePending && !View().Any();
    }

    method SetConnectionParametersPending(isPending: bool) returns (completed: bool)
      modifies this
      ensures View() == old(View()).(parameters := isPending)
      ensures completed <==> old(View()).Any() && !View().Any()
    {
      var updatesArePending := View().Any();
      parameters := isPending;
      completed := updatesArePending && !View().Any();
    }

    method SetLinkLayerPending(isPending: bool) returns (completed: bool)
      modifies this
      ensures View() == old(View()).(linkLayer := isPending)
      ensures completed <==> old(View()).Any() && !View().Any()
    {
      var updatesArePending := View().Any();
      linkLayer := isPending;
      completed := updatesArePending && !View().Any();
    }

    method SetPhyLayerPending(isPending: bool) returns (completed: bool)
      modifies this
      ensures View() == old(View()).(phy := isPending)
      ensures completed <==> old(View()).Any() && !View().Any()
    {
      var updatesArePending := View().Any();
      phy := isPending;
      completed := updatesArePending && !View().Any();
    }
  }

  // ----- The central -----

  /** What can happen to the central; `Unrelated` are the events whose handlers set no flag. */
  datatype Event =
    | Connected(handle: ConnectionHandle)
    | Disconnected
    | ParametersUpdated
    | MtuExchanged
    | Unrelated

  /** The connection handle, the flags, and the connections on which discovery was started. */
  datatype Central = Central(handle: ConnectionHandle, pending: Pending, started: seq<ConnectionHandle>)

  const IDLE: Central := Central(HANDLE_INVALID, NOTHING, [])

  function Update(c: Central, pending: Pending): Central {
    c.(pending := pending, started := if c.pending.Any() && !pending.Any() then c.started + [c.handle] else c.started)
  }

  function Step(c: Central, e: Event): Central {
    match e
    case Connected(handle) =>
      Update(Update(c.(handle := handle, pending := NOTHING), NOTHING.(parameters := true)),
             NOTHING.(parameters := true, mtu := true))
    case Disconnected => c.(handle := HANDLE_INVALID, pending := NOTHING)
    case ParametersUpdated => Update(c, c.pending.(parameters := false))
    case MtuExchanged => Update(c, c.pending.(mtu := false))
    case Unrelated => c
  }

  class CentralConnection {
    var handle: ConnectionHandle
    const negotiation: NegotiationState
    var started: seq<ConnectionHandle>

    function View(): Central
      reads this, negotiation
    {
      Central(handle, negotiation.View(), started)
    }

    constructor ()
      ensures View() == IDLE && fresh(negotiation)
    {
      handle := HANDLE_INVALID;
      negotiation := new NegotiationState();
      started := [];
    }

    /** The completion observer, if it is called: start discovering services over the whole handle range. */
    method NegotiationComplete(completed: bool)
      modifies this`started
      ensures started == if completed then old(started) + [handle] else old(started)
    {
      if completed {
        started := started + [handle];
      }
    }

    method Connect(connectionHandle: ConnectionHandle)
      modifies this, negotiation
      ensures View() == Step(old(View()), Connected(connectionHandle))
    {
      handle := connectionHandle;
      negotiation.ClearAllPending();
      var completed := negotiation.SetConnectionParametersPending(true);
      NegotiationComplete(completed);
      completed := negotiation.SetMtuExchangePending(true);
      NegotiationComplete(completed);
    }

    method Disconnect()
      modifies this, negotiation
      ensures View() == Step(old(View()), Disconnected)
    {
      handle := HANDLE_INVALID;
      negotiation.ClearAllPending();
    }

    method ConnectionParameterUpdate()
      modifies this, negotiation
      ensures View() == Step(old(View()), ParametersUpdated)
    {
      var completed := negotiation.SetConnectionParametersPending(false);
      NegotiationComplete(completed);
    }

    method ExchangeMtuResponse()
      modifies this, negotiation
      ensures View() == Step(old(View()), MtuExchanged)
    {
      var completed := negotiation.SetMtuExchangePending(false);
      NegotiationComplete(completed);
    }
  }

  // ----- Whole traces -----

  /** The central before event `i` of the trace. */
  function Before(trace: seq<Event>, i: nat): Central
    requires i <= |trace|
  {
    if i == 0 then IDLE else Step(Before(trace, i - 1), trace[i - 1])
  }

  /** Event `i` starts a discovery. */
  predicate Fires(trace: seq<Event>, i: nat)
    requires i < |trace|
  {
    |Before(trace, i + 1).started| > |Before(trace, i).started|
  }

  /** The event ends a session: no update of it is awaited any longer. */
  predicate EndsSession(e: Event) {
    e.Connected? || e.Disconnected?
  }

  /** Event `j` is the connect of the session that is open at `i`. */
  predicate SessionOf(trace: seq<Event>, j: nat, i: nat)
    requires i <= |trace|
  {
    j < i && trace[j].Connected? && forall m :: j < m < i ==> !EndsSession(trace[m])
  }

  /** The kind of event `e` happened in the session, between its connect and `i`. */
  predicate Happened(trace: seq<Event>, j: nat, i: nat, e: Event)
    requires i <= |trace|
  {
    exists m: nat :: j < m < i && trace[m] == e
  }

  /**
   The reference: event `i` completes the negotiation when it is, in an open session, the first of
   its kind and the other kind has been there already.
   */
  ghost predicate Completes(trace: seq<Event>, i: nat)
    requires i < |trace|
  {
    exists j: nat :: SessionOf(trace, j, i) &&
      ((trace[i] == ParametersUpdated && !Happened(trace, j, i, ParametersUpdated)
        && Happened(trace, j, i, MtuExchanged)) ||
       (trace[i] == MtuExchanged && !Happened(trace, j, i, MtuExchanged) && Happened(trace, j, i, ParametersUpdated)))
  }

  /**
   Between connect and disconnect the handle is that of the connect, and a flag is set exactly until its
   event happens; outside of a session there is no handle and nothing is pending.
   */
  lemma {:induction false} FlagsMeaning(trace: seq<Event>, i: nat)
    requires i <= |trace|
    ensures var c := Before(trace, i);
            && !c.pending.linkLayer && !c.pending.phy
            && (c.pending.Any() ==> InSession(trace, i))
            && (!InSession(trace, i) ==> c.handle == 0xFFFF)
            && forall j: nat :: SessionOf(trace, j, i) ==>
                 && c.handle == trace[j].handle
                 && (c.pending.parameters <==> !Happened(trace, j, i, ParametersUpdated))
                 && (c.pending.mtu <==> !Happened(trace, j, i, MtuExchanged))
  {
    if i > 0 {
      FlagsMeaning(trace, i - 1);
      SessionStep(trace, i);
      var e, before, after := trace[i - 1], Before(trace, i - 1), Before(trace, i);
      hide InSession;
      if !EndsSession(e) {
        forall j: nat ensures SessionOf(trace, j, i) <==> SessionOf(trace, j, i - 1) {
          SessionGoesOn(trace, j, i);
        }
        forall j: nat, kind ensures Happened(trace, j, i, kind)
            <==> Happened(trace, j, i - 1, kind) || (j < i - 1 && e == kind) {
          HappenedStep(trace, j, i, kind);
        }
      } else {
        forall j: nat ensures SessionOf(trace, j, i) <==> j == i - 1 && e.Connected? {
          SessionBegins(trace, j, i);
        }
        assert !Happened(trace, i - 1, i, ParametersUpdated) && !Happened(trace, i - 1, i, MtuExchanged);
      }
    }
  }

  /** A session is open. */
  ghost predicate InSession(trace: seq<Event>, i: nat)
    requires i <= |trace|
  {
    exists j: nat :: SessionOf(trace, j, i)
  }

  lemma SessionStep(trace: seq<Event>, i: nat)
    requires 0 < i <= |trace|
    ensures InSession(trace, i)
      <==> if EndsSession(trace[i - 1]) then trace[i - 1].Connected? else InSession(trace, i - 1)
  {
    if EndsSession(trace[i - 1]) {
      SessionBegins(trace, i - 1, i);
      if j: nat :| SessionOf(trace, j, i) {
        SessionBegins(trace, j, i);
      }
    } else {
      if j: nat :| SessionOf(trace, j, i) {
        SessionGoesOn(trace, j, i);
      }
      var before := i - 1;
      if j: nat :| SessionOf(trace, j, before) {
        SessionGoesOn(trace, j, i);
      }
    }
  }

  /** After a disconnect the handle is the invalid one, whatever came before. */
  lemma DisconnectInvalidates(trace: seq<Event>, i: nat)
    requires i < |trace| && trace[i].Disconnected?
    ensures Before(trace, i + 1).handle == 0xFFFF && Before(trace, i + 1).started == Before(trace, i).started
    ensures Before(trace, i + 1).pending == Pending(false, false, false, false)
  {
  }

  lemma SessionGoesOn(trace: seq<Event>, j: nat, i: nat)
    requires 0 < i <= |trace| && !EndsSession(trace[i - 1])
    ensures SessionOf(trace, j, i) <==> SessionOf(trace, j, i - 1)
  {
  }

  lemma SessionBegins(trace: seq<Event>, j: nat, i: nat)
    requires 0 < i <= |trace| && EndsSession(trace[i - 1])
    ensures SessionOf(trace, j, i) <==> j == i - 1 && trace[i - 1].Connected?
  {
  }

  lemma HappenedStep(trace: seq<Event>, j: nat, i: nat, kind: Event)
    requires 0 < i <= |trace|
    ensures Happened(trace, j, i, kind) <==> Happened(trace, j, i - 1, kind) || (j < i - 1 && trace[i - 1] == kind)
  {
    if j < i - 1 && trace[i - 1] == kind {
      assert j < i - 1 < i;
    }
  }

  /**
   For every trace, discovery starts at exactly the events that complete a negotiation, on that session's
   connection.
   */
  lemma FiresExactly(trace: seq<Event>, i: nat)
    requires i < |trace|
    ensures Fires(trace, i) <==> Completes(trace, i)
    ensures Fires(trace, i) ==>
              exists j: nat :: SessionOf(trace, j, i)
                  && Before(trace, i + 1).started == Before(trace, i).started + [trace[j].handle]
    ensures !Fires(trace, i) ==> Before(trace, i + 1).started == Before(trace, i).started
  {
    FlagsMeaning(trace, i);
    var c := Before(trace, i);
    assert Before(trace, i + 1) == Step(c, trace[i]);
    if Fires(trace, i) {
      var j: nat :| SessionOf(trace, j, i);
      assert c.handle == trace[j].handle;
    }
  }

  /** Between two starts of discovery there is a connect. */
  lemma OncePerConnect(trace: seq<Event>, i: nat, k: nat)
    requires i < k < |trace| && Fires(trace, i) && Fires(trace, k)
    ensures exists j :: i < j < k && trace[j].Connected?
  {
    FiresExactly(trace, i);
    FiresExactly(trace, k);
    var j := CompletedSession(trace, i);
    var j' := CompletedSession(trace, k);
    if j' < i {
      BothHappened(trace, j, i, j', k);
      assert false;
    }
    assert trace[j'].Connected? && !trace[i].Connected?;
  }

  /** If event `i` completes the session that is still open at `k`, both kinds have happened in it. */
  lemma BothHappened(trace: seq<Event>, j: nat, i: nat, j': nat, k: nat)
    requires i < k <= |trace| && SessionOf(trace, j, i) && SessionOf(trace, j', k) && j' < i
    requires trace[i] == ParametersUpdated || trace[i] == MtuExchanged
    requires Happened(trace, j, i, if trace[i] == ParametersUpdated then MtuExchanged else ParametersUpdated)
    ensures Happened(trace, j', k, ParametersUpdated) && Happened(trace, j', k, MtuExchanged)
  {
    assert j <= j' by {
      if j' < j { assert EndsSession(trace[j]); }
    }
    assert j' <= j by {
      if j < j' { assert EndsSession(trace[j']); }
    }
    assert Happened(trace, j', k, trace[i]);
    var other := if trace[i] == ParametersUpdated then MtuExchanged else ParametersUpdated;
    var m: nat :| j < m < i && trace[m] == other;
    assert j' < m < k;
  }

  /**
   The session whose negotiation event `i` completes: both kinds have happened by then, this kind for the first
   time.
   */
  lemma CompletedSession(trace: seq<Event>, i: nat) returns (j: nat)
    requires i < |trace| && Completes(trace, i)
    ensures SessionOf(trace, j, i) && (trace[i] == ParametersUpdated || trace[i] == MtuExchanged)
    ensures !Happened(trace, j, i, trace[i])
    ensures Happened(trace, j, i, if trace[i] == ParametersUpdated then MtuExchanged else ParametersUpdated)
  {
    j :| SessionOf(trace, j, i) &&
      ((trace[i] == ParametersUpdated && !Happened(trace, j, i, ParametersUpdated)
        && Happened(trace, j, i, MtuExchanged)) ||
       (trace[i] == MtuExchanged && !Happened(trace, j, i, MtuExchanged) && Happened(trace, j, i, ParametersUpdated)));
  }

  /** After a disconnect nothing starts before the next connect. */
  lemma SilentAfterDisconnect(trace: seq<Event>, d: nat, i: nat)
    requires d < i < |trace| && trace[d].Disconnected?
    requires forall m :: d < m < i ==> !trace[m].Connected?
    ensures !Fires(trace, i)
  {
    FiresExactly(trace, i);
    if Completes(trace, i) {
      var j := CompletedSession(trace, i);
      SessionBehind(trace, j, i, d);
      assert false;
    }
  }

  lemma SessionBehind(trace: seq<Event>, j: nat, i: nat, d: nat)
    requires i <= |trace| && d < i && SessionOf(trace, j, i) && trace[d].Disconnected?
    ensures d < j < i && trace[j].Connected?
  {
    assert EndsSession(trace[d]);
  }
}
