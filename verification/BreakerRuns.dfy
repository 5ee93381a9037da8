/** Runs of the concurrent breaker, from its creation on, in which the half-open counter goes
    below zero and the gate lets one call too many through (pkg/reliability/circuit_breaker.go).
    The gate is the source's, for one trial call. */
module BreakerRuns {
  import opened BreakerSteps
  import B = Breaker

  lemma ExecStep(c: Config, run: seq<Action>, a: Action)
    ensures Exec(c, Init(), run + [a]) == Step(c, Exec(c, Init(), run), a)
  {
    assert (run + [a])[..|run|] == run;
  }

  lemma ExecNone(c: Config)
    ensures Exec(c, Init(), []) == Init()
  {
  }

  predicate Usual(c: Config) { c.maxFailures > 0 && c.timeout > 0 && c.maxTrials == 1 }

  /** A state, but for the stale and the debt count. */
  predicate Looks(s: State, mode: Mode, failures: nat, lastFailure: int, counter: int, clock: int,
                  calls: map<nat, Call>, epoch: nat)
  {
    s == State(mode, failures, lastFailure, counter, clock, calls, epoch, s.stale, s.debt)
  }

  /** A call that finds the breaker open and is not disturbed: it becomes the trial call of a new
      epoch if the timeout has passed since the last failure, and is refused without a trace if
      not. */
  lemma OpenGateIff(c: Config, s: State, p: nat)
    requires s.mode.Open? && CallOf(s, p).Out? && c.maxTrials >= 1
    ensures var t := Step(c, Step(c, Step(c, Step(c, Step(c, s, Begin(p)), CheckTime(p)), Lock(p)), Relock(p)), Add(p));
      if s.clock - s.lastFailure > c.timeout then
        && CallOf(t, p) == Trial(s.epoch + 1) && t.mode.HalfOpen? && t.counter == 1 && t.epoch == s.epoch + 1
        && t.failures == s.failures && t.lastFailure == s.lastFailure
      else t == s.(calls := s.calls[p := Out])
  {
    hide Current, Older;
    var a := Step(c, s, Begin(p));
    var b := Step(c, a, CheckTime(p));
    assert CallOf(a, p) == SawOpen(s.lastFailure);
    if s.clock - s.lastFailure > c.timeout {
      assert CallOf(b, p) == AtLock;
      var d := Step(c, b, Lock(p));
      assert CallOf(d, p) == Relocking && d.mode.HalfOpen? && d.counter == 0;
    } else {
      assert b == s.(calls := s.calls[p := Out]);
    }
  }

  /** Failing calls, one after the other. */
  lemma Fails(c: Config, k: nat) returns (run: seq<Action>)
    requires Usual(c) && k <= c.maxFailures
    ensures var s := Exec(c, Init(), run);
      Looks(s, if k < c.maxFailures then Closed else Open, k, 0, 0, 0, if k == 0 then map[] else map[0 := Out], 0)
  {
    hide Exec;
    if k == 0 {
      run := [];
      ExecNone(c);
    } else {
      run := Fails(c, k - 1);
      ExecStep(c, run, Begin(0)); run := run + [Begin(0)];
      ExecStep(c, run, Finish(0, false)); run := run + [Finish(0, false)];
    }
  }

  /** After the timeout, a call finds the breaker open and becomes the trial call. */
  lemma TrialBegins(c: Config, start: seq<Action>, p: nat) returns (run: seq<Action>)
    requires Usual(c)
    requires var s := Exec(c, Init(), start);
      s.mode.Open? && s.clock >= s.lastFailure && CallOf(s, p).Out?
    ensures var s := Exec(c, Init(), start); var t := Exec(c, Init(), run);
      Looks(t, HalfOpen, s.failures, s.lastFailure, 1, s.clock + c.timeout + 1,
            s.calls[p := Trial(s.epoch + 1)], s.epoch + 1)
  {
    hide Exec, Current, Older;
    var s := Exec(c, Init(), start);
    run := start;
    ExecStep(c, run, Tick(c.timeout + 1)); run := run + [Tick(c.timeout + 1)];
    ExecStep(c, run, Begin(p)); run := run + [Begin(p)];
    ExecStep(c, run, CheckTime(p)); run := run + [CheckTime(p)];
    ExecStep(c, run, Lock(p)); run := run + [Lock(p)];
    assert Looks(Exec(c, Init(), run), HalfOpen, s.failures, s.lastFailure, 0, s.clock + c.timeout + 1,
                 s.calls[p := Relocking], s.epoch + 1);
    ExecStep(c, run, Relock(p)); run := run + [Relock(p)];
    ExecStep(c, run, Add(p)); run := run + [Add(p)];
  }

  /** The counter of a new breaker reaches -1: the first trial call succeeds. */
  lemma CounterGoesNegative(c: Config) returns (run: seq<Action>)
    requires Usual(c)
    ensures var s := Exec(c, Init(), run); s.counter == -1 && s.mode.Closed?
  {
    hide Exec, Current, Older;
    run := Fails(c, c.maxFailures);
    run := TrialBegins(c, run, 0);
    ExecStep(c, run, Finish(0, true)); run := run + [Finish(0, true)];
    ExecStep(c, run, Release(0)); run := run + [Release(0)];
  }

  /** A full gate with an older token still out. */
  lemma FullGateWithOldToken(c: Config) returns (run: seq<Action>)
    requires Usual(c)
    ensures var s := Exec(c, Init(), run);
      s.mode.HalfOpen? && s.counter == 1 && s.epoch == 3 && s.calls == map[0 := Releasing(1), 1 := Trial(3)]
  {
    hide Exec, Current, Older;
    run := Fails(c, c.maxFailures);
    run := TrialBegins(c, run, 0);
    ExecStep(c, run, Finish(0, false)); run := run + [Finish(0, false)];
    var s := Exec(c, Init(), run);
    assert s.mode.Open? && s.epoch == 2 && s.calls == map[0 := Releasing(1)];
    run := TrialBegins(c, run, 1);
  }

  /** A run of a new breaker at the end of which two trial calls of the same epoch are through a
      gate for one. */
  lemma GateIsOverrun(c: Config) returns (run: seq<Action>)
    requires Usual(c)
    ensures var s := Exec(c, Init(), run);
      s.mode.HalfOpen? && Admitted(s) == {1, 2} && |Admitted(s)| == 2 > c.maxTrials
  {
    hide Exec, Current, Older, Accounted;
    run := FullGateWithOldToken(c);
    TokensAreAccounted(c, run);
    var s := Exec(c, Init(), run);
    StaleReleaseAdmitsOneMore(c, s, 0, 2);
    ExecStep(c, run, Release(0)); run := run + [Release(0)];
    ExecStep(c, run, Begin(2)); run := run + [Begin(2)];
    ExecStep(c, run, Add(2)); run := run + [Add(2)];
    assert Admitted(s) == {1};
  }

  // ---------- the state is a function of the calls that ran ----------

  /** The calls that ran to their end since the last reset, as they were recorded. */
  ghost function History(c: Config, run: seq<Action>): seq<B.Ran> {
    if run == [] then []
    else
      var front, a := run[..|run| - 1], run[|run| - 1];
      var s := Exec(c, Init(), front);
      if a.Reset? then []
      else if a.Finish? && (CallOf(s, a.p).Running? || CallOf(s, a.p).Trial?) then
        History(c, front) + [B.Ran(a.ok, s.clock)]
      else History(c, front)
  }

  ghost predicate Reads(s: State, h: seq<B.Ran>) {
    && s.failures == B.Trailing(h)
    && (h != [] && !h[|h| - 1].ok ==> s.lastFailure == h[|h| - 1].at)
  }

  lemma StepReads(c: Config, s: State, a: Action, h: seq<B.Ran>)
    requires Reads(s, h)
    ensures var t := Step(c, s, a);
      if a.Reset? then Reads(t, [])
      else if a.Finish? && (CallOf(s, a.p).Running? || CallOf(s, a.p).Trial?) then Reads(t, h + [B.Ran(a.ok, s.clock)])
      else Reads(t, h)
  {
    hide Current, Older;
    if a.Finish? { assert (h + [B.Ran(a.ok, s.clock)])[..|h|] == h; }
  }

  /** In every interleaving the failure count is that of the trailing failures, the last failure
      time is that of the last one, and the breaker is closed exactly when the count is below the
      limit: what the one-at-a-time breaker has for the same calls. */
  lemma {:induction false} HistoryIsKept(c: Config, run: seq<Action>)
    requires c.maxFailures > 0
    ensures var s, h := Exec(c, Init(), run), History(c, run);
      Reads(s, h) && (s.mode.Closed? <==> B.Trailing(h) < c.maxFailures)
    decreases |run|
  {
    hide Step, Accounted;
    if run != [] {
      HistoryIsKept(c, run[..|run| - 1]);
      StepReads(c, Exec(c, Init(), run[..|run| - 1]), run[|run| - 1], History(c, run[..|run| - 1]));
    }
    TokensAreAccounted(c, run);
    ClosedMeans(c, Exec(c, Init(), run));
  }

  lemma ClosedMeans(c: Config, s: State)
    requires Accounted(c, s)
    ensures s.mode.Closed? <==> s.failures < c.maxFailures
  {
  }

  /** Over every step: nobody comes to the gate while the breaker is open, and a call that saw it
      open is refused only while it is open, or because the timeout had not passed. */
  lemma EntryIff(c: Config, s: State, a: Action, p: nat)
    ensures var t := Step(c, s, a);
      && (CallOf(s, p) != AtAdd && CallOf(t, p) == AtAdd ==> !t.mode.Open?)
      && ((CallOf(s, p).AtLock? || CallOf(s, p).Relocking?) && CallOf(t, p).Out? ==> t.mode.Open?)
      && (CallOf(s, p).SawOpen? && CallOf(t, p).Out? ==> s.clock - CallOf(s, p).last <= c.timeout)
      && (CallOf(s, p).AtAdd? && CallOf(t, p).Trial? ==> s.counter < c.maxTrials && t.counter == s.counter + 1)
      && (CallOf(s, p).AtAdd? && CallOf(t, p).Undo? ==> s.counter >= c.maxTrials)
  {
    hide Current, Older;
  }
}
