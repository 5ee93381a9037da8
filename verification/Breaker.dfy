/** The circuit breaker as one caller at a time sees it (pkg/reliability/circuit_breaker.go),
    together with the callback that mirrors its state into the bridge state coordinator
    (pkg/imap/client.go). Calls neither overlap nor nest here; BreakerSteps has the interleavings. */
module Breaker {
  import opened Common
  import opened BreakerSteps
  import C = Coordinator

  /** An error's category is what CategorizeError reads out of its text. */
  datatype Category = Temporary | Permanent | Authentication | Network | Timeout

  datatype Error = CircuitBreakerOpen | TooManyRequests | Other(category: Category)

  // ---------- the specification: a history of executed calls ----------

  /** One call whose function ran: did it succeed, and when was that recorded. */
  datatype Ran = Ran(ok: bool, at: int)

  /** How many of the last executed calls failed in a row. */
  ghost function Trailing(h: seq<Ran>): nat {
    if h == [] || h[|h| - 1].ok then 0 else Trailing(h[..|h| - 1]) + 1
  }

  /** May a call asked for at `now` run? */
  ghost predicate Allowed(h: seq<Ran>, maxFailures: nat, timeout: int, now: int)
    requires maxFailures > 0
  {
    TrailingIsFailed(h);
    Trailing(h) < maxFailures || now - h[|h| - 1].at > timeout
  }

  lemma TrailingIsFailed(h: seq<Ran>)
    ensures Trailing(h) > 0 ==> h != [] && !h[|h| - 1].ok
  {
  }

  /** `Trailing` is the length of the longest all-failed suffix. */
  lemma {:induction false} TrailingMeans(h: seq<Ran>, n: nat)
    requires n <= |h|
    ensures n <= Trailing(h) <==> forall i :: |h| - n <= i < |h| ==> !h[i].ok
  {
    if n > 0 {
      var g := h[..|h| - 1];
      TrailingMeans(g, n - 1);
      if !h[|h| - 1].ok && forall i :: |g| - (n - 1) <= i < |g| ==> !g[i].ok {
        assert forall i :: |h| - n <= i < |h| - 1 ==> h[i] == g[i];
      } else if h[|h| - 1].ok {
      } else {
        var i :| |g| - (n - 1) <= i < |g| && g[i].ok;
        assert h[i].ok;
      }
    }
  }

  ghost function ModeAfter(h: seq<Ran>, maxFailures: nat): Mode {
    if Trailing(h) < maxFailures then Closed else Open
  }

  // ---------- state changes and their callbacks ----------

  datatype Change = Change(before: Mode, after: Mode)

  /** Changes that lead from Closed to `m` without a gap or a repetition. */
  ghost predicate Chain(changes: seq<Change>, m: Mode) {
    if changes == [] then m == Closed
    else var last := changes[|changes| - 1];
      last.after == m && last.before != m && Chain(changes[..|changes| - 1], last.before)
  }

  function CircuitOf(m: Mode): C.Circuit {
    match m case Closed => C.ClosedCircuit case HalfOpen => C.HalfOpenCircuit case Open => C.OpenCircuit
  }

  /** What the registered callback reports for a change to `m`. */
  function EventFor(m: Mode): C.Event {
    match m
    case Closed => C.Event(C.Breaker, C.CircuitClosed, "")
    case HalfOpen => C.Event(C.Breaker, C.CircuitHalfOpen, C.CIRCUIT_OPEN)
    case Open => C.Event(C.Breaker, C.CircuitOpened, C.CIRCUIT_OPEN)
  }

  /** One report to the coordinator for each change, in order. */
  ghost function Reports(changes: seq<Change>): seq<C.Event> {
    seq(|changes|, i requires 0 <= i < |changes| => EventFor(changes[i].after))
  }

  lemma EventSetsCircuit(h: seq<C.Event>, m: Mode)
    ensures C.LatestCircuit(h + [EventFor(m)]) == CircuitOf(m)
  {
    C.CircuitStep(h, EventFor(m));
  }

  /** The changes one executed call makes. */
  ghost function ChangesOf(before: Mode, after: Mode): seq<Change> {
    if before == Open then [Change(Open, HalfOpen), Change(HalfOpen, after)]
    else if before == after then []
    else [Change(before, after)]
  }

  lemma ChainGrows(changes: seq<Change>, before: Mode, after: Mode)
    requires Chain(changes, before) && before != HalfOpen && after != HalfOpen
    ensures Chain(changes + ChangesOf(before, after), after)
  {
    var more := ChangesOf(before, after);
    if before == Open {
      var half := changes + [more[0]];
      assert half[..|half| - 1] == changes;
      var all := changes + more;
      assert all[..|all| - 1] == half;
    } else if before == after {
      assert changes + more == changes;
    } else {
      var all := changes + more;
      assert all[..|all| - 1] == changes;
    }
  }

  class CircuitBreaker {
    const maxFailures: int
    const timeout: int
    const maxHalfOpenRequests := 1
    var failures: int
    var lastFailureTime: int
    var state: Mode
    var halfOpenRequests: int
    var observer: C.StateCoordinator?       // the coordinator behind the state change callback
    ghost var history: seq<Ran>             // executed calls since the last reset
    ghost var fired: seq<Change>            // callbacks since the last reset

    /** Holds between calls. */
    ghost predicate Valid()
      reads this, observer
    {
      && maxFailures > 0 && timeout > 0
      && failures == Trailing(history)
      && state == ModeAfter(history, maxFailures)
      && (history != [] && !history[|history| - 1].ok ==> lastFailureTime == history[|history| - 1].at)
      && (halfOpenRequests == 0 || halfOpenRequests == -1)
      && Chain(fired, state)
      && (observer != null ==> observer.Valid())
    }

    /** The coordinator shows the breaker's state. */
    ghost predicate Mirrored()
      reads this, observer
    {
      observer != null ==> observer.circuitState == CircuitOf(state)
    }

    constructor (maxFailures: int, timeout: int)
      requires maxFailures > 0 && timeout > 0
      ensures Valid() && Mirrored() && observer == null
      ensures history == [] && fired == [] && this.maxFailures == maxFailures && this.timeout == timeout
    {
      this.maxFailures, this.timeout := maxFailures, timeout;
      failures, lastFailureTime, state, halfOpenRequests := 0, 0, Closed, 0;
      observer, history, fired := null, [], [];
    }

    method SetStateChangeCallback(sc: C.StateCoordinator)
      requires Valid() && sc.Valid()
      modifies `observer
      ensures Valid() && observer == sc
      ensures Mirrored() <==> sc.circuitState == CircuitOf(state)
    {
      observer := sc;
    }

    /** callback(oldState, newState), outside the lock. */
    method Fire(before: Mode, after: Mode, now: int)
      requires observer != null ==> observer.Valid()
      modifies observer, `fired
      ensures fired == old(fired) + [Change(before, after)]
      ensures observer != null ==> observer.Valid() && observer.circuitState == CircuitOf(after)
      ensures observer != null ==> observer.history == old(observer.history) + [EventFor(after)]
    {
      if observer != null {
        EventSetsCircuit(observer.history, after);
        observer.ReportEvent(EventFor(after), now);
      }
      fired := fired + [Change(before, after)];
    }

    /** Holds for any state of the breaker, half-open included: the gate opens after the timeout
        with a fresh counter, and lets at most `maxHalfOpenRequests` unreturned calls through. */
    method CheckStateAndIncrement(now: int, locked: int, reported: int)
      returns (shouldDecrement: bool, err: Option<Error>)
      requires now <= locked
      requires observer != null ==> observer.Valid()
      modifies this`state, this`halfOpenRequests, this`fired, observer
      ensures old(state).Open? && now - lastFailureTime > timeout ==>
        && state == HalfOpen && fired == old(fired) + [Change(Open, HalfOpen)]
        && (observer != null ==> observer.Valid() && observer.history == old(observer.history) + [EventFor(HalfOpen)])
        && (observer != null ==> observer.circuitState == C.HalfOpenCircuit)
      ensures !(old(state).Open? && now - lastFailureTime > timeout) ==>
        && state == old(state) && fired == old(fired)
        && (observer != null ==> observer.Valid() && observer.history == old(observer.history))
        && (observer != null ==> observer.circuitState == old(observer.circuitState))
      ensures var waiting := if old(state).Open? then 0 else old(halfOpenRequests);
        && (state == Closed ==> !shouldDecrement && err == None && halfOpenRequests == old(halfOpenRequests))
        && (state == Open ==>
              !shouldDecrement && err == Some(CircuitBreakerOpen) && halfOpenRequests == old(halfOpenRequests))
        && (state == HalfOpen ==>
              if waiting < maxHalfOpenRequests then shouldDecrement && err == None && halfOpenRequests == waiting + 1
              else !shouldDecrement && err == Some(TooManyRequests) && halfOpenRequests == waiting)
    {
      var currentState := state;
      if currentState == Open {
        if now - lastFailureTime > timeout {
          if state == Open && locked - lastFailureTime > timeout {
            state := HalfOpen;
            halfOpenRequests := 0;
            Fire(Open, HalfOpen, reported);
          }
          currentState := state;
        }
        if currentState == Open {
          return false, Some(CircuitBreakerOpen);
        }
      }
      if currentState != Closed {
        halfOpenRequests := halfOpenRequests + 1;
        if halfOpenRequests > maxHalfOpenRequests {
          halfOpenRequests := halfOpenRequests - 1;
          return false, Some(TooManyRequests);
        }
        return true, None;
      }
      return false, None;
    }

    method RecordResult(err: Option<Error>, now: int, reported: int)
      requires observer != null ==> observer.Valid()
      modifies this`failures, this`lastFailureTime, this`state, this`halfOpenRequests, this`fired, observer
      ensures err.None? ==> failures == 0 && state == Closed && lastFailureTime == old(lastFailureTime)
      ensures err.Some? ==> failures == old(failures) + 1 && lastFailureTime == now
      ensures err.Some? ==> state == if failures >= maxFailures then Open else old(state)
      ensures halfOpenRequests == if old(state) == HalfOpen && state != HalfOpen then 0 else old(halfOpenRequests)
      ensures fired == if state == old(state) then old(fired) else old(fired) + [Change(old(state), state)]
      ensures observer != null ==> observer.Valid()
      ensures observer != null && state != old(state) ==>
        && observer.circuitState == CircuitOf(state)
        && observer.history == old(observer.history) + [EventFor(state)]
      ensures observer != null && state == old(state) ==>
        && observer.circuitState == old(observer.circuitState)
        && observer.history == old(observer.history)
    {
      var oldState := state;
      if err == None {
        failures := 0;
        state := Closed;
      } else {
        failures := failures + 1;
        lastFailureTime := now;
        if failures >= maxFailures {
          state := Open;
        }
      }
      if oldState == HalfOpen && state != HalfOpen {
        halfOpenRequests := 0;
      }
      if oldState != state {
        Fire(oldState, state, reported);
      }
    }

    /** A call runs exactly when the trailing failures are below the limit or the timeout has
        passed since the last one; a refused call is always refused as open, leaves no trace, and
        tells the caller so; each state change fires one callback, and the coordinator follows. */
    method Execute(fnError: Option<Error>, now: int, locked: int, finished: int, reported: int, reportedAfter: int)
      returns (ran: bool, err: Option<Error>)
      requires Valid()
      requires now <= locked
      modifies this`failures, this`lastFailureTime, this`state, this`halfOpenRequests
      modifies this`fired, this`history, observer
      ensures Valid()
      ensures ran <==> Allowed(old(history), maxFailures, timeout, now)
      ensures err == if ran then fnError else Some(CircuitBreakerOpen)
      ensures history == if ran then old(history) + [Ran(fnError.None?, finished)] else old(history)
      ensures fired == if ran then old(fired) + ChangesOf(old(state), state) else old(fired)
      ensures observer != null ==>
        observer.history == old(observer.history) + Reports(if ran then ChangesOf(old(state), state) else [])
      ensures old(Mirrored()) ==> Mirrored()
      ensures observer != null && fired != old(fired) ==> Mirrored()
    {
      hide Chain, ChangesOf, Reports, Trailing, Allowed, ModeAfter, EventFor;
      hide C.ConnectionAfter, C.LatestCircuit, C.Meaning;
      NoReports();
      BeforeRun(history, maxFailures, timeout, now);
      var shouldDecrement, refusal := CheckStateAndIncrement(now, locked, reported);
      if refusal != None {
        return false, refusal;
      }
      RecordResult(fnError, finished, reportedAfter);
      history := history + [Ran(fnError.None?, finished)];
      AfterRun(old(history), maxFailures, fnError.None?, finished);
      if shouldDecrement {
        halfOpenRequests := halfOpenRequests - 1;
      }
      ChainGrows(old(fired), old(state), state);
      ChangesAre(old(fired), old(state), state);
      if observer != null { ReportsAre(old(observer.history), old(state), state); }
      return true, fnError;
    }

    /** Reset closes the breaker without a callback, so the coordinator keeps showing what it
        showed: it is right afterwards exactly when it showed a closed circuit before. */
    method Reset()
      requires Valid()
      modifies this`failures, this`state, this`halfOpenRequests, this`history, this`fired
      ensures Valid() && history == [] && fired == [] && state == Closed && halfOpenRequests == 0
      ensures Mirrored() <==> (observer == null || old(observer.circuitState) == C.ClosedCircuit)
    {
      failures, state, halfOpenRequests := 0, Closed, 0;
      history, fired := [], [];
    }
  }

  /** NewCircuitBreaker refuses limits that are not positive. */
  method NewCircuitBreaker(maxFailures: int, timeout: int) returns (cb: CircuitBreaker?)
    ensures cb == null <==> maxFailures <= 0 || timeout <= 0
    ensures cb != null ==> fresh(cb) && cb.Valid() && cb.history == [] && cb.observer == null
    ensures cb != null ==> cb.maxFailures == maxFailures && cb.timeout == timeout
  {
    if maxFailures <= 0 || timeout <= 0 { return null; }
    cb := new CircuitBreaker(maxFailures, timeout);
  }

  lemma BeforeRun(h: seq<Ran>, maxFailures: nat, timeout: int, now: int)
    requires maxFailures > 0
    ensures ModeAfter(h, maxFailures) == if Trailing(h) < maxFailures then Closed else Open
    ensures ModeAfter(h, maxFailures) == Open ==> h != [] && !h[|h| - 1].ok
    ensures Allowed(h, maxFailures, timeout, now) <==>
            ModeAfter(h, maxFailures) == Closed || now - h[|h| - 1].at > timeout
  {
  }

  lemma AfterRun(h: seq<Ran>, maxFailures: nat, ok: bool, at: int)
    requires maxFailures > 0
    ensures Trailing(h + [Ran(ok, at)]) == if ok then 0 else Trailing(h) + 1
    ensures ModeAfter(h + [Ran(ok, at)], maxFailures) == if ok || Trailing(h) + 1 < maxFailures then Closed else Open
  {
    var g := h + [Ran(ok, at)];
    assert g[..|g| - 1] == h;
  }

  lemma ChangesAre(fired: seq<Change>, before: Mode, after: Mode)
    ensures before == Open ==>
      (fired + [Change(Open, HalfOpen)]) + [Change(HalfOpen, after)] == fired + ChangesOf(before, after)
    ensures before != Open ==>
      (if before == after then fired else fired + [Change(before, after)]) == fired + ChangesOf(before, after)
  {
  }

  lemma NoReports()
    ensures Reports([]) == []
  {
  }

  lemma ReportsAre(h: seq<C.Event>, before: Mode, after: Mode)
    ensures before == Open ==> (h + [EventFor(HalfOpen)]) + [EventFor(after)] == h + Reports(ChangesOf(before, after))
    ensures before != Open ==>
      (if before == after then h else h + [EventFor(after)]) == h + Reports(ChangesOf(before, after))
  {
    assert before == Open ==> Reports(ChangesOf(before, after)) == [EventFor(HalfOpen), EventFor(after)];
  }
}
