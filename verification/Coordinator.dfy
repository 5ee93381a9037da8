/** The bridge state coordinator (pkg/coordinator/state_coordinator.go): what the state sent to
    the user means, in terms of the history of events. */
module Coordinator {

  datatype Component = Inbox | Sent | Breaker | OtherComponent

  datatype EventType =
    | ConnectionStarted | ConnectionEstablished | ConnectionLost | ConnectionClosed
    | IdleStarted | IdleFailed | IdleRecovered
    | CircuitOpened | CircuitClosed | CircuitHalfOpen
    | OtherEvent

  datatype Event = Event(component: Component, kind: EventType, error: string)

  datatype Circuit = OpenCircuit | ClosedCircuit | HalfOpenCircuit

  datatype BridgeState = Starting | Unreachable | TransientDisconnect | Connected

  const CONNECTION_FAILED: string := "E-EMAIL-002"
  const IDLE_FAILED: string := "E-EMAIL-003"
  const CIRCUIT_OPEN: string := "E-EMAIL-007"
  const THROTTLE: int := 30000000000     // nanoseconds

  datatype Connection = Connection(connected: bool, idle: bool, lastError: string, failures: nat)

  datatype Message = Message(state: BridgeState, error: string)

  // ---------- reading the history ----------

  /** What the latest event among those of the two kinds says; false when there is none. */
  ghost function Latest(h: seq<Event>, on: Event -> bool, off: Event -> bool): bool {
    if h == [] then false
    else if on(h[|h| - 1]) then true
    else if off(h[|h| - 1]) then false
    else Latest(h[..|h| - 1], on, off)
  }

  /** ... that is: some `on` event is not followed by an `off` event. */
  lemma {:induction false} LatestMeans(h: seq<Event>, on: Event -> bool, off: Event -> bool)
    requires forall e :: !(on(e) && off(e))
    ensures Latest(h, on, off) <==> exists n :: 0 <= n < |h| && on(h[n]) && forall k :: n < k < |h| ==> !off(h[k])
  {
    if h != [] {
      var g := h[..|h| - 1];
      LatestMeans(g, on, off);
      if on(h[|h| - 1]) {
      } else if off(h[|h| - 1]) {
      } else if Latest(h, on, off) {
        var n :| 0 <= n < |g| && on(g[n]) && forall k :: n < k < |g| ==> !off(g[k]);
        assert on(h[n]) && forall k :: n < k < |h| ==> !off(h[k]);
      } else {
        forall n | 0 <= n < |h| && on(h[n]) ensures exists k :: n < k < |h| && off(h[k]) {
          assert on(g[n]);
          var k :| n < k < |g| && off(g[k]);
          assert off(h[k]);
        }
      }
    }
  }

  ghost function IsUp(c: Component): Event -> bool {
    (e: Event) => e.component == c && e.kind == ConnectionEstablished
  }
  ghost function IsDown(c: Component): Event -> bool {
    (e: Event) => e.component == c && (e.kind == ConnectionLost || e.kind == ConnectionClosed)
  }
  ghost function IsIdle(c: Component): Event -> bool {
    (e: Event) => e.component == c && (e.kind == IdleStarted || e.kind == IdleRecovered)
  }
  ghost function IsIdleFailed(c: Component): Event -> bool {
    (e: Event) => e.component == c && e.kind == IdleFailed
  }

  ghost function LatestError(h: seq<Event>, c: Component): string {
    if h == [] then ""
    else if h[|h| - 1].component == c then h[|h| - 1].error
    else LatestError(h[..|h| - 1], c)
  }

  /** Failures of `c` since it was last established or recovered. */
  ghost function Failures(h: seq<Event>, c: Component): nat {
    if h == [] then 0 else
      var e, before := h[|h| - 1], Failures(h[..|h| - 1], c);
      if e.component != c then before
      else match e.kind
        case ConnectionEstablished => 0
        case IdleRecovered => 0
        case ConnectionLost => before + 1
        case ConnectionClosed => before + 1
        case IdleFailed => before + 1
        case _ => before
  }

  ghost function LatestCircuit(h: seq<Event>): Circuit {
    if h == [] then ClosedCircuit else
      var e := h[|h| - 1];
      if e.component == Breaker && e.kind == CircuitOpened then OpenCircuit
      else if e.component == Breaker && e.kind == CircuitClosed then ClosedCircuit
      else if e.component == Breaker && e.kind == CircuitHalfOpen then HalfOpenCircuit
      else LatestCircuit(h[..|h| - 1])
  }

  ghost function ConnectionAfter(h: seq<Event>, c: Component): Connection {
    Connection(Latest(h, IsUp(c), IsDown(c)), Latest(h, IsIdle(c), IsIdleFailed(c)), LatestError(h, c), Failures(h, c))
  }

  /** The bridge state a history calls for. */
  ghost function Meaning(h: seq<Event>): Message {
    var up := Latest(h, IsUp(Inbox), IsDown(Inbox));
    var idle := Latest(h, IsIdle(Inbox), IsIdleFailed(Inbox));
    var error := LatestError(h, Inbox);
    if LatestCircuit(h) == OpenCircuit then Message(Unreachable, CIRCUIT_OPEN)
    else if !up then Message(Unreachable, if error != "" then error else CONNECTION_FAILED)
    else if !idle then Message(TransientDisconnect, if error != "" then error else IDLE_FAILED)
    else Message(Connected, "")
  }

  /** One connection's fields after one of its own events. */
  function Updated(c: Connection, event: Event): Connection
  {
    var d := c.(lastError := event.error);
    match event.kind
    case ConnectionEstablished => d.(connected := true, failures := 0)
    case ConnectionLost => d.(connected := false, failures := d.failures + 1)
    case ConnectionClosed => d.(connected := false, failures := d.failures + 1)
    case IdleStarted => d.(idle := true)
    case IdleFailed => d.(idle := false, failures := d.failures + 1)
    case IdleRecovered => d.(idle := true, failures := 0)
    case _ => d
  }

  lemma ConnectionStep(h: seq<Event>, e: Event, c: Component)
    ensures ConnectionAfter(h + [e], c) ==
            if e.component == c then Updated(ConnectionAfter(h, c), e) else ConnectionAfter(h, c)
  {
    assert (h + [e])[..|h|] == h;
  }

  lemma CircuitStep(h: seq<Event>, e: Event)
    ensures LatestCircuit(h + [e]) ==
            if e.component != Breaker then LatestCircuit(h) else match e.kind
              case CircuitOpened => OpenCircuit
              case CircuitClosed => ClosedCircuit
              case CircuitHalfOpen => HalfOpenCircuit
              case _ => LatestCircuit(h)
  {
    assert (h + [e])[..|h|] == h;
  }

  // ---------- the coordinator ----------

  /** The branches of computeBridgeState, the last fallback included. */
  function BridgeStateOf(circuit: Circuit, inbox: Connection): Message {
    if circuit == OpenCircuit then Message(Unreachable, CIRCUIT_OPEN)
    else if !inbox.connected then
      if inbox.lastError != "" then Message(Unreachable, inbox.lastError) else Message(Unreachable, CONNECTION_FAILED)
    else if inbox.connected && !inbox.idle then
      if inbox.lastError != "" then Message(TransientDisconnect, inbox.lastError)
      else Message(TransientDisconnect, IDLE_FAILED)
    else if inbox.connected && inbox.idle then Message(Connected, "")
    else Message(Starting, "")
  }

  /** The fallback is dead: whatever the fields, the starting state is never computed, and
      Connected exactly for a connected, idling inbox behind a circuit that is not open. */
  lemma FallbackIsDead(circuit: Circuit, inbox: Connection)
    ensures BridgeStateOf(circuit, inbox).state != Starting
    ensures BridgeStateOf(circuit, inbox).state == Connected <==>
            circuit != OpenCircuit && inbox.connected && inbox.idle
  {
  }

  class StateCoordinator {
    const hasLogin: bool
    var inbox: Connection
    var sent: Connection
    var circuitState: Circuit
    var current: Message
    var lastSent: int
    var outbox: seq<Message>         // everything given to login.BridgeState.Send
    ghost var history: seq<Event>

    ghost predicate Valid()
      reads this
    {
      && inbox == ConnectionAfter(history, Inbox)
      && sent == ConnectionAfter(history, Sent)
      && circuitState == LatestCircuit(history)
      && (outbox == [] ==> current == Message(Starting, ""))
      && (outbox != [] ==> current == outbox[|outbox| - 1])
      && (!hasLogin ==> outbox == [])
      && (hasLogin && history != [] ==> outbox != [] && current == Meaning(history))
    }

    constructor (hasLogin: bool)
      ensures Valid() && this.hasLogin == hasLogin && history == [] && outbox == []
    {
      this.hasLogin := hasLogin;
      inbox, sent := Connection(false, false, "", 0), Connection(false, false, "", 0);
      circuitState, current, lastSent, outbox, history := ClosedCircuit, Message(Starting, ""), 0, [], [];
    }

    /** With a login, the last state sent is always the state the history calls for: throttling
        never hides a change, and repeats only what is already known. */
    method ReportEvent(event: Event, now: int)
      requires Valid()
      modifies this
      ensures Valid() && history == old(history) + [event]
      ensures hasLogin ==> outbox != [] && outbox[|outbox| - 1] == Meaning(history)
      ensures hasLogin ==>
        if Meaning(history) != old(current) || now - old(lastSent) > THROTTLE
        then outbox == old(outbox) + [Meaning(history)] && lastSent == now
        else outbox == old(outbox) && lastSent == old(lastSent)
      ensures !hasLogin ==> outbox == old(outbox)
    {
      UpdateComponentState(event);
      var state := ComputeBridgeState();
      assert state == Meaning(history);
      if state != current || now - lastSent > THROTTLE {
        SendBridgeState(state, now);
      }
    }

    method UpdateComponentState(event: Event)
      requires inbox == ConnectionAfter(history, Inbox) && sent == ConnectionAfter(history, Sent)
      requires circuitState == LatestCircuit(history)
      modifies `inbox, `sent, `circuitState, `history
      ensures history == old(history) + [event]
      ensures inbox == ConnectionAfter(history, Inbox) && sent == ConnectionAfter(history, Sent)
      ensures circuitState == LatestCircuit(history)
    {
      hide ConnectionAfter, LatestCircuit, Updated;
      ConnectionStep(history, event, Inbox);
      ConnectionStep(history, event, Sent);
      CircuitStep(history, event);
      history := history + [event];
      match event.component
      case Inbox => inbox := Updated(inbox, event);
      case Sent => sent := Updated(sent, event);
      case Breaker =>
        match event.kind {
          case CircuitOpened => circuitState := OpenCircuit;
          case CircuitClosed => circuitState := ClosedCircuit;
          case CircuitHalfOpen => circuitState := HalfOpenCircuit;
          case _ =>
        }
      case OtherComponent =>
    }

    function ComputeBridgeState(): Message
      reads this
    {
      BridgeStateOf(circuitState, inbox)
    }

    method SendBridgeState(m: Message, now: int)
      modifies `current, `lastSent, `outbox
      ensures if hasLogin then outbox == old(outbox) + [m] && current == m && lastSent == now
              else outbox == old(outbox) && current == old(current) && lastSent == old(lastSent)
    {
      if !hasLogin { return; }
      outbox := outbox + [m];
      current := m;
      lastSent := now;
    }
  }

  /** The n-th event opened the circuit and no later event closed or half-opened it. */
  ghost predicate OpenedLast(h: seq<Event>, n: nat) {
    n < |h| && h[n] == Event(Breaker, CircuitOpened, h[n].error) &&
    forall k :: n < k < |h| ==>
      h[k].component != Breaker || (h[k].kind != CircuitClosed && h[k].kind != CircuitHalfOpen)
  }

  lemma {:induction false} OpenCircuitMeans(h: seq<Event>)
    ensures LatestCircuit(h) == OpenCircuit <==> exists n :: OpenedLast(h, n)
  {
    if h != [] {
      var g, e := h[..|h| - 1], h[|h| - 1];
      OpenCircuitMeans(g);
      if e.component == Breaker && e.kind == CircuitOpened {
        assert OpenedLast(h, |h| - 1);
      } else if e.component == Breaker && (e.kind == CircuitClosed || e.kind == CircuitHalfOpen) {
        forall n: nat ensures !OpenedLast(h, n) { }
      } else {
        forall n: nat ensures OpenedLast(h, n) <==> OpenedLast(g, n) { }
      }
    }
  }

  /** Some establishment of the inbox connection has no later loss or closing. */
  ghost predicate InboxUp(h: seq<Event>) {
    exists n :: 0 <= n < |h| && h[n].component == Inbox && h[n].kind == ConnectionEstablished &&
      forall k :: n < k < |h| && h[k].component == Inbox ==>
        h[k].kind != ConnectionLost && h[k].kind != ConnectionClosed
  }

  /** Some start or recovery of idling has no later failure. */
  ghost predicate InboxIdle(h: seq<Event>) {
    exists n :: 0 <= n < |h| && h[n].component == Inbox && (h[n].kind == IdleStarted || h[n].kind == IdleRecovered) &&
      forall k :: n < k < |h| && h[k].component == Inbox ==> h[k].kind != IdleFailed
  }

  /** The last inbox event, if there is one, came with this error. */
  ghost predicate InboxError(h: seq<Event>, error: string) {
    if forall k :: 0 <= k < |h| ==> h[k].component != Inbox then error == ""
    else exists n :: 0 <= n < |h| && h[n].component == Inbox && error == h[n].error &&
           forall k :: n < k < |h| ==> h[k].component != Inbox
  }

  lemma {:induction false} LatestErrorMeans(h: seq<Event>)
    ensures InboxError(h, LatestError(h, Inbox))
  {
    if h != [] {
      var g := h[..|h| - 1];
      LatestErrorMeans(g);
      if h[|h| - 1].component != Inbox && exists k :: 0 <= k < |g| && g[k].component == Inbox {
        var n :| 0 <= n < |g| && g[n].component == Inbox && LatestError(g, Inbox) == g[n].error &&
          forall k :: n < k < |g| ==> g[k].component != Inbox;
        assert h[n].component == Inbox && LatestError(h, Inbox) == h[n].error;
      } else if h[|h| - 1].component != Inbox {
        assert forall k :: 0 <= k < |g| ==> h[k] == g[k];
      }
    }
  }

  /** Every state and its error, in terms of the events alone: an open circuit and a lost inbox are
      unreachable, a connection that does not idle is a transient disconnect; the error is the last
      inbox event's, or the usual one when that had none. */
  lemma MeaningMeans(h: seq<Event>, error: string)
    requires InboxError(h, error)
    ensures var open := exists n :: OpenedLast(h, n);
      Meaning(h) ==
        if open then Message(Unreachable, "E-EMAIL-007")
        else if !InboxUp(h) then Message(Unreachable, if error != "" then error else "E-EMAIL-002")
        else if !InboxIdle(h) then Message(TransientDisconnect, if error != "" then error else "E-EMAIL-003")
        else Message(Connected, "")
  {
    LatestMeans(h, IsUp(Inbox), IsDown(Inbox));
    LatestMeans(h, IsIdle(Inbox), IsIdleFailed(Inbox));
    OpenCircuitMeans(h);
    LatestErrorMeans(h);
    UpMeans(h);
    hide Latest, LatestCircuit, LatestError, OpenedLast, InboxUp, InboxIdle;
    OneError(h, error, LatestError(h, Inbox));
  }

  lemma UpMeans(h: seq<Event>)
    ensures InboxUp(h) <==>
      exists n :: 0 <= n < |h| && IsUp(Inbox)(h[n]) && forall k :: n < k < |h| ==> !IsDown(Inbox)(h[k])
    ensures InboxIdle(h) <==>
      exists n :: 0 <= n < |h| && IsIdle(Inbox)(h[n]) && forall k :: n < k < |h| ==> !IsIdleFailed(Inbox)(h[k])
  {
  }

  lemma OneError(h: seq<Event>, a: string, b: string)
    requires InboxError(h, a) && InboxError(h, b)
    ensures a == b
  {
  }

  /** Connected exactly when the latest inbox connection event, the latest inbox idle event and
      the latest circuit event all say so; and the fallback state is never reached. */
  lemma ConnectedIff(h: seq<Event>)
    ensures Meaning(h).state == Connected <==>
      && (exists n :: 0 <= n < |h| && IsUp(Inbox)(h[n]) && forall k :: n < k < |h| ==> !IsDown(Inbox)(h[k]))
      && (exists n :: 0 <= n < |h| && IsIdle(Inbox)(h[n]) && forall k :: n < k < |h| ==> !IsIdleFailed(Inbox)(h[k]))
      && !(exists n :: OpenedLast(h, n))
    ensures Meaning(h).state != Starting
  {
    LatestMeans(h, IsUp(Inbox), IsDown(Inbox));
    LatestMeans(h, IsIdle(Inbox), IsIdleFailed(Inbox));
    OpenCircuitMeans(h);
  }
}
