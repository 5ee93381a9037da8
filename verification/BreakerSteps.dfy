/** The circuit breaker under concurrency (pkg/reliability/circuit_breaker.go). The state is
    guarded by a mutex, but the half-open counter is a bare atomic that is also changed outside
    of it, so every atomic access is a step of its own. */
module BreakerSteps {

  datatype Config = Config(maxFailures: nat, timeout: int, maxTrials: nat)

  datatype Mode = Closed | HalfOpen | Open

  /** Where one call of Execute stands; a token is one increment of the half-open counter,
      stamped with the reset epoch it was taken in. */
  datatype Call =
    | Out                            // not started, refused, or returned
    | SawOpen(last: int)             // read state Open and the last failure time
    | AtLock                         // the timeout had passed; about to take the write lock
    | Relocking                      // moved to half-open, callback done
    | AtAdd                          // about to increment the counter
    | Undo(epoch: nat)               // over the limit, about to decrement back
    | Running                        // fn runs, no token
    | Trial(epoch: nat)              // fn runs with a token
    | Releasing(epoch: nat)          // result recorded, deferred decrement to come

  datatype State = State(
    mode: Mode, failures: nat, lastFailure: int, counter: int, clock: int,
    calls: map<nat, Call>,
    epoch: nat,                      // resets of the counter so far
    stale: nat,                      // older tokens released since the last reset
    debt: nat)                       // tokens outstanding at the last reset

  datatype Action =
    | Tick(d: nat)
    | Begin(p: nat)
    | CheckTime(p: nat)
    | Lock(p: nat)
    | Relock(p: nat)
    | Add(p: nat)
    | TakeBack(p: nat)
    | Finish(p: nat, ok: bool)
    | Release(p: nat)
    | Reset

  function CallOf(s: State, p: nat): Call { if p in s.calls then s.calls[p] else Out }

  function Put(s: State, p: nat, c: Call): State { s.(calls := s.calls[p := c]) }

  predicate Holds(c: Call) { c.Undo? || c.Trial? || c.Releasing? }

  /** Calls holding a token of the current epoch, and of an older one. */
  function Current(s: State): set<nat> { set p | p in s.calls && Holds(s.calls[p]) && s.calls[p].epoch == s.epoch }
  function Older(s: State): set<nat> { set p | p in s.calls && Holds(s.calls[p]) && s.calls[p].epoch < s.epoch }

  /** atomic.StoreInt32(&halfOpenRequests, 0) */
  function ZeroCounter(s: State): State {
    s.(counter := 0, epoch := s.epoch + 1, stale := 0, debt := |Current(s)| + |Older(s)|)
  }

  /** atomic.AddInt32(&halfOpenRequests, -1) for a token of epoch `e`, and `p` is done. */
  function Returned(s: State, p: nat, e: nat): State {
    Put(s.(counter := s.counter - 1, stale := if e < s.epoch then s.stale + 1 else s.stale), p, Out)
  }

  /** The state part of recordResult, under the lock. */
  function Recorded(c: Config, s: State, ok: bool): State {
    var t :=
      if ok then s.(failures := 0, mode := Closed)
      else s.(failures := s.failures + 1, lastFailure := s.clock,
              mode := if s.failures + 1 >= c.maxFailures then Open else s.mode);
    if s.mode.HalfOpen? && !t.mode.HalfOpen? then ZeroCounter(t) else t
  }

  function Step(c: Config, s: State, a: Action): State {
    match a
    case Tick(d) => s.(clock := s.clock + d)
    case Begin(p) =>
      if !CallOf(s, p).Out? then s
      else Put(s, p, if s.mode.Closed? then Running else if s.mode.HalfOpen? then AtAdd else SawOpen(s.lastFailure))
    case CheckTime(p) =>
      if !CallOf(s, p).SawOpen? then s
      else Put(s, p, if s.clock - CallOf(s, p).last > c.timeout then AtLock else Out)
    case Lock(p) =>
      if !CallOf(s, p).AtLock? then s
      else if s.mode.Open? && s.clock - s.lastFailure > c.timeout then
        Put(ZeroCounter(s.(mode := HalfOpen)), p, Relocking)
      else Put(s, p, if s.mode.Open? then Out else AtAdd)
    case Relock(p) =>
      if !CallOf(s, p).Relocking? then s else Put(s, p, if s.mode.Open? then Out else AtAdd)
    case Add(p) =>
      if !CallOf(s, p).AtAdd? then s
      else Put(s.(counter := s.counter + 1), p, if s.counter + 1 > c.maxTrials then Undo(s.epoch) else Trial(s.epoch))
    case TakeBack(p) => if !CallOf(s, p).Undo? then s else Returned(s, p, CallOf(s, p).epoch)
    case Finish(p, ok) =>
      if CallOf(s, p).Running? then Put(Recorded(c, s, ok), p, Out)
      else if CallOf(s, p).Trial? then Put(Recorded(c, s, ok), p, Releasing(CallOf(s, p).epoch))
      else s
    case Release(p) => if !CallOf(s, p).Releasing? then s else Returned(s, p, CallOf(s, p).epoch)
    case Reset => ZeroCounter(s.(failures := 0, mode := Closed))
  }

  function Exec(c: Config, s: State, run: seq<Action>): State {
    if run == [] then s else Step(c, Exec(c, s, run[..|run| - 1]), run[|run| - 1])
  }

  function Init(): State { State(Closed, 0, 0, 0, 0, map[], 0, 0, 0) }

  // ---------- token accounting ----------

  /** Calls let through the half-open gate in the current epoch and not yet released. */
  function Admitted(s: State): set<nat> {
    set p | p in s.calls && (s.calls[p].Trial? || s.calls[p].Releasing?) && s.calls[p].epoch == s.epoch
  }

  ghost predicate Accounted(c: Config, s: State) {
    && s.counter == |Current(s)| - s.stale
    && s.stale + |Older(s)| == s.debt
    && |Admitted(s)| <= c.maxTrials + s.stale
    && (s.mode.Closed? <==> s.failures < c.maxFailures)
    && EpochsPast(s)
  }

  ghost predicate EpochsPast(s: State) {
    forall p :: p in s.calls && Holds(s.calls[p]) ==> s.calls[p].epoch <= s.epoch
  }

  /** How one goroutine changing its place changes the three sets. */
  lemma SetsAfterPut(s: State, p: nat, call: Call)
    requires Holds(call) ==> call.epoch <= s.epoch
    ensures var t := Put(s, p, call);
      && Current(t) == (Current(s) - {p}) + (if Holds(call) && call.epoch == s.epoch then {p} else {})
      && Older(t) == (Older(s) - {p}) + (if Holds(call) && call.epoch < s.epoch then {p} else {})
      && Admitted(t) == (Admitted(s) - {p}) +
                        (if (call.Trial? || call.Releasing?) && call.epoch == s.epoch then {p} else {})
  {
  }

  lemma Members(s: State, p: nat)
    ensures var call := CallOf(s, p);
      && (p in Current(s) <==> Holds(call) && call.epoch == s.epoch)
      && (p in Older(s) <==> Holds(call) && call.epoch < s.epoch)
      && (p in Admitted(s) <==> (call.Trial? || call.Releasing?) && call.epoch == s.epoch)
  {
  }

  /** The three sets depend on the calls and the epoch only. */
  lemma SameSets(s: State, t: State)
    requires s.calls == t.calls && s.epoch == t.epoch
    ensures Current(t) == Current(s) && Older(t) == Older(s) && Admitted(t) == Admitted(s)
    ensures EpochsPast(s) ==> EpochsPast(t)
  {
  }

  /** A reset turns every token into an older one. */
  lemma SetsAfterZero(c: Config, s: State)
    requires Accounted(c, s)
    ensures var t := ZeroCounter(s);
      && Current(t) == {} && Admitted(t) == {}
      && Older(t) == Current(s) + Older(s) && |Older(t)| == |Current(s)| + |Older(s)|
  {
    var t := ZeroCounter(s);
    assert Current(t) == {};
    assert Admitted(t) == {};
    assert Older(t) == Current(s) + Older(s);
    assert Current(s) !! Older(s);
  }

  lemma ZeroIsAccounted(c: Config, s: State, t: State)
    requires Accounted(c, s)
    requires t == s.(mode := t.mode, failures := t.failures, lastFailure := t.lastFailure)
    requires t.mode.Closed? <==> t.failures < c.maxFailures
    ensures Accounted(c, ZeroCounter(t))
  {
    assert Current(t) == Current(s) && Older(t) == Older(s) && Admitted(t) == Admitted(s);
    SetsAfterZero(c, t);
  }

  /** Moving on without taking or returning a token. */
  predicate SameToken(a: Call, b: Call) {
    && (Holds(a) <==> Holds(b))
    && (Holds(a) ==> a.epoch == b.epoch && (a.Undo? <==> b.Undo?))
  }

  lemma SetsAfterMove(s: State, p: nat, call: Call)
    requires SameToken(CallOf(s, p), call)
    ensures var t := Put(s, p, call); Current(t) == Current(s) && Older(t) == Older(s) && Admitted(t) == Admitted(s)
    ensures EpochsPast(s) ==> EpochsPast(Put(s, p, call))
  {
  }

  lemma PutIsAccounted(c: Config, s: State, p: nat, call: Call)
    requires Accounted(c, s) && SameToken(CallOf(s, p), call)
    ensures Accounted(c, Put(s, p, call))
  {
    hide Current, Older, Admitted, EpochsPast;
    SetsAfterMove(s, p, call);
  }

  lemma RecordedIsAccounted(c: Config, s: State, ok: bool)
    requires Accounted(c, s) && c.maxFailures > 0
    ensures Accounted(c, Recorded(c, s, ok)) && Recorded(c, s, ok).calls == s.calls
  {
    var t :=
      if ok then s.(failures := 0, mode := Closed)
      else s.(failures := s.failures + 1, lastFailure := s.clock,
              mode := if s.failures + 1 >= c.maxFailures then Open else s.mode);
    ZeroIsAccounted(c, s, t);
    assert Current(t) == Current(s) && Older(t) == Older(s) && Admitted(t) == Admitted(s);
  }

  lemma SetsAfterTake(s: State, p: nat, call: Call)
    requires !Holds(CallOf(s, p)) && Holds(call) && call.epoch == s.epoch
    ensures var t := Put(s, p, call);
      && |Current(t)| == |Current(s)| + 1 && Older(t) == Older(s)
      && (call.Undo? ==> Admitted(t) == Admitted(s)) && |Admitted(t)| <= |Current(t)|
    ensures EpochsPast(s) ==> EpochsPast(Put(s, p, call))
  {
    var t := Put(s, p, call);
    assert Current(t) == Current(s) + {p} && p !in Current(s);
    assert Older(t) == Older(s);
    assert call.Undo? ==> Admitted(t) == Admitted(s);
    assert Admitted(t) <= Current(t);
    SubsetSize(Admitted(t), Current(t));
  }

  lemma AddIsAccounted(c: Config, s: State, p: nat)
    requires Accounted(c, s) && CallOf(s, p).AtAdd?
    ensures Accounted(c, Step(c, s, Add(p)))
  {
    hide Current, Older, Admitted, EpochsPast;
    var u := s.(counter := s.counter + 1);
    SameSets(s, u);
    SetsAfterTake(u, p, if s.counter + 1 > c.maxTrials then Undo(s.epoch) else Trial(s.epoch));
  }

  lemma SubsetSize(a: set<nat>, b: set<nat>)
    requires a <= b
    ensures |a| <= |b|
  {
    if a != {} {
      var x :| x in a;
      SubsetSize(a - {x}, b - {x});
    }
  }

  lemma SetsAfterReturn(s: State, p: nat)
    requires Holds(CallOf(s, p)) && CallOf(s, p).epoch <= s.epoch
    ensures var t := Put(s, p, Out);
      && |Current(t)| == |Current(s)| - (if CallOf(s, p).epoch == s.epoch then 1 else 0)
      && |Older(t)| == |Older(s)| - (if CallOf(s, p).epoch < s.epoch then 1 else 0)
      && |Admitted(t)| <= |Admitted(s)|
    ensures EpochsPast(s) ==> EpochsPast(Put(s, p, Out))
  {
    var t := Put(s, p, Out);
    assert Current(t) == Current(s) - {p} && Older(t) == Older(s) - {p} && Admitted(t) == Admitted(s) - {p};
    Members(s, p);
    SubsetSize(Admitted(t), Admitted(s));
  }

  lemma ReturnIsAccounted(c: Config, s: State, p: nat)
    requires Accounted(c, s) && Holds(CallOf(s, p))
    ensures Accounted(c, Returned(s, p, CallOf(s, p).epoch))
  {
    EpochIsPast(s, p);
    hide Current, Older, Admitted, EpochsPast;
    var u := s.(counter := s.counter - 1, stale := if CallOf(s, p).epoch < s.epoch then s.stale + 1 else s.stale);
    SameSets(s, u);
    SetsAfterReturn(u, p);
  }

  lemma EpochIsPast(s: State, p: nat)
    requires EpochsPast(s) && Holds(CallOf(s, p))
    ensures CallOf(s, p).epoch <= s.epoch
  {
  }

  lemma StepIsAccounted(c: Config, s: State, a: Action)
    requires Accounted(c, s) && c.maxFailures > 0
    ensures Accounted(c, Step(c, s, a))
  {
    hide Accounted;
    match a {
      case Tick(d) => ClockIsIrrelevant(c, s, d);
      case Begin(p) => if CallOf(s, p).Out? { PutIsAccounted(c, s, p, CallOf(Step(c, s, a), p)); }
      case CheckTime(p) => if CallOf(s, p).SawOpen? { PutIsAccounted(c, s, p, CallOf(Step(c, s, a), p)); }
      case Lock(p) =>
        if CallOf(s, p).AtLock? {
          if s.mode.Open? && s.clock - s.lastFailure > c.timeout {
            OpenMeans(c, s);
            ZeroIsAccounted(c, s, s.(mode := HalfOpen));
            PutIsAccounted(c, ZeroCounter(s.(mode := HalfOpen)), p, Relocking);
          } else {
            PutIsAccounted(c, s, p, CallOf(Step(c, s, a), p));
          }
        }
      case Relock(p) => if CallOf(s, p).Relocking? { PutIsAccounted(c, s, p, CallOf(Step(c, s, a), p)); }
      case Add(p) => if CallOf(s, p).AtAdd? { AddIsAccounted(c, s, p); }
      case TakeBack(p) => if CallOf(s, p).Undo? { ReturnIsAccounted(c, s, p); }
      case Finish(p, ok) =>
        RecordedIsAccounted(c, s, ok);
        if CallOf(s, p).Running? || CallOf(s, p).Trial? {
          PutIsAccounted(c, Recorded(c, s, ok), p, CallOf(Step(c, s, a), p));
        }
      case Release(p) => if CallOf(s, p).Releasing? { ReturnIsAccounted(c, s, p); }
      case Reset => ZeroIsAccounted(c, s, s.(failures := 0, mode := Closed));
    }
  }

  lemma OpenMeans(c: Config, s: State)
    requires Accounted(c, s) && s.mode.Open?
    ensures s.failures >= c.maxFailures
  {
  }

  lemma ClockIsIrrelevant(c: Config, s: State, d: nat)
    requires Accounted(c, s)
    ensures Accounted(c, s.(clock := s.clock + d))
  {
    var t := s.(clock := s.clock + d);
    assert Current(t) == Current(s) && Older(t) == Older(s) && Admitted(t) == Admitted(s);
  }

  /** In every interleaving of any number of calls, resets and clock ticks: the counter is the
      unreleased tokens taken since the last reset minus the older tokens released since it;
      the trial calls let through in the current epoch exceed the limit by no more than the
      tokens that were outstanding at that reset; and the breaker is closed exactly when the
      failures are below the limit. */
  lemma {:induction false} TokensAreAccounted(c: Config, run: seq<Action>)
    requires c.maxFailures > 0
    ensures var s := Exec(c, Init(), run);
      && s.counter == |Current(s)| - s.stale
      && |Admitted(s)| <= c.maxTrials + s.stale <= c.maxTrials + s.debt
      && (s.mode.Closed? <==> s.failures < c.maxFailures)
    ensures Accounted(c, Exec(c, Init(), run))
    decreases |run|
  {
    if run == [] {
      var s := Init();
      assert Current(s) == {} && Older(s) == {} && Admitted(s) == {};
    } else {
      TokensAreAccounted(c, run[..|run| - 1]);
      StepIsAccounted(c, Exec(c, Init(), run[..|run| - 1]), run[|run| - 1]);
    }
  }

  /** The overshoot is real: with the gate full, one older token coming back lets one more
      trial call of the same epoch through. */
  lemma StaleReleaseAdmitsOneMore(c: Config, s: State, p: nat, q: nat)
    requires Accounted(c, s) && s.mode.HalfOpen? && s.counter == c.maxTrials
    requires CallOf(s, p).Releasing? && CallOf(s, p).epoch < s.epoch && CallOf(s, q).Out? && p != q
    ensures var t := Step(c, Step(c, Step(c, s, Release(p)), Begin(q)), Add(q));
      && CallOf(t, q) == Trial(s.epoch)
      && Admitted(t) == Admitted(s) + {q} && |Admitted(t)| == |Admitted(s)| + 1
  {
    hide Current, Older, Admitted, EpochsPast;
    hide Step;
    AfterStale(c, s, p);
    var s1 := Step(c, s, Release(p));
    AfterBegin(c, s1, q);
    AfterAdd(c, Step(c, s1, Begin(q)), q);
    Members(s, q);
  }

  lemma AfterStale(c: Config, s: State, p: nat)
    requires CallOf(s, p).Releasing? && CallOf(s, p).epoch < s.epoch
    ensures var t := Step(c, s, Release(p));
      && t == s.(counter := s.counter - 1, stale := s.stale + 1, calls := s.calls[p := Out])
      && Admitted(t) == Admitted(s)
  {
    var u := s.(counter := s.counter - 1, stale := s.stale + 1);
    SameSets(s, u);
    SetsAfterPut(u, p, Out);
    Members(s, p);
  }

  lemma AfterBegin(c: Config, s: State, q: nat)
    requires CallOf(s, q).Out? && s.mode.HalfOpen?
    ensures var t := Step(c, s, Begin(q));
      t == s.(calls := s.calls[q := AtAdd]) && Admitted(t) == Admitted(s)
  {
    SetsAfterMove(s, q, AtAdd);
  }

  lemma AfterAdd(c: Config, s: State, q: nat)
    requires CallOf(s, q).AtAdd? && s.counter < c.maxTrials
    ensures var t := Step(c, s, Add(q));
      CallOf(t, q) == Trial(s.epoch) && Admitted(t) == Admitted(s) + {q}
  {
    SameSets(s, s.(counter := s.counter + 1));
    SetsAfterPut(s.(counter := s.counter + 1), q, Trial(s.epoch));
    Members(s, q);
  }

  /** The counter really goes below zero: a trial call that closes the breaker resets the
      counter and then releases its token all the same. */
  lemma CounterCanBeNegative(c: Config, s: State, p: nat)
    requires Accounted(c, s) && s.mode.HalfOpen? && CallOf(s, p) == Trial(s.epoch)
    requires Current(s) == {p} && Older(s) == {}
    ensures Step(c, Step(c, s, Finish(p, true)), Release(p)).counter == -1
  {
  }

  /** While the counter is at its limit, a further call is refused and leaves everything but its
      own place as it was. The call may be nested inside the very trial that fills the gate: IDLE
      recovery runs a reconnect inside the breaker which asks the same breaker again, and its
      inner call is refused unless an older token has come back meanwhile. */
  lemma FullGateRefuses(c: Config, s: State, q: nat)
    requires s.mode.HalfOpen? && s.counter >= c.maxTrials && CallOf(s, q).Out?
    ensures var t := Step(c, Step(c, Step(c, s, Begin(q)), Add(q)), TakeBack(q));
      CallOf(Step(c, Step(c, s, Begin(q)), Add(q)), q).Undo? && t == s.(calls := s.calls[q := Out])
  {
    var a := Step(c, s, Begin(q));
    assert a == s.(calls := s.calls[q := AtAdd]);
    var b := Step(c, a, Add(q));
    assert b.calls == s.calls[q := Undo(s.epoch)];
  }
}
