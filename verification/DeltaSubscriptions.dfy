/** What the whole-row writes of DeltaSync do to the subscription in the row
    (pkg/connector/graph_store.go:72-89, graph_subscription.go:116-180, graph_delta.go:48-247). Every
    subscription that a creation or a renewal stores gets a version, and every copy of the row
    carries the version it was loaded with. */
module DeltaSubscriptions {
  import opened DeltaSync

  /** `subs` are all subscriptions stored by creations and renewals, oldest first; version v is
      subs[v - 1]. */
  datatype Trace = Trace(
    s: State,
    subs: seq<Subscription>,
    current: nat,                // version in the stored row, 0 when there is no row
    held: map<nat, nat>)         // version in the row each goroutine loaded last

  predicate Loads(pc: Proc) { pc.AtReconcile? || pc.Loading? || pc.AtSubscribe? || pc.AtRenew? }

  /** A stored write that changes the subscription. */
  predicate StoresSub(s: State, a: Action) {
    a.Write? && a.ok && (ProcOf(s, a.p).Renewing? || ProcOf(s, a.p).Creating?)
  }

  /** A stored write that puts back the subscription of the copy. */
  predicate WritesBack(s: State, a: Action) {
    a.Write? && a.ok && (ProcOf(s, a.p).Saving? || ProcOf(s, a.p).Clearing?)
  }

  function TStep(t: Trace, a: Action): Trace {
    var s := Step(t.s, a);
    if a.Load? && Loads(ProcOf(t.s, a.p)) then Trace(s, t.subs, t.current, t.held[a.p := t.current])
    else if StoresSub(t.s, a) then Trace(s, t.subs + [ProcOf(t.s, a.p).copy.sub], |t.subs| + 1, t.held)
    else if WritesBack(t.s, a) && a.p in t.held then Trace(s, t.subs, t.held[a.p], t.held)
    else Trace(s, t.subs, t.current, t.held)
  }

  function TExec(run: seq<Action>): Trace {
    if run == [] then Trace(Init(), [], 0, map[]) else TStep(TExec(run[..|run| - 1]), run[|run| - 1])
  }

  // ---------- versions mean what they say ----------

  ghost predicate HasVersion(t: Trace, p: nat) { p in t.held && 1 <= t.held[p] <= |t.subs| }

  ghost predicate IsVersion(t: Trace, p: nat, sub: Subscription) {
    HasVersion(t, p) && sub == t.subs[t.held[p] - 1]
  }

  /** A renewed subscription is the one of the version held, but for the expiry. */
  ghost predicate Renews(t: Trace, p: nat, sub: Subscription) {
    HasVersion(t, p) && sub == t.subs[t.held[p] - 1].(expiry := sub.expiry)
  }

  /** The copy a goroutine holds is the row of the version it holds. */
  ghost predicate Holding(t: Trace, p: nat, pc: Proc) {
    match pc
    case Fetching(walk, _, _) => walk.Reconcile? ==> IsVersion(t, p, walk.copy.sub)
    case Handing(walk, _, _, _, _, _) => walk.Reconcile? ==> IsVersion(t, p, walk.copy.sub)
    case Saving(copy) => IsVersion(t, p, copy.sub)
    case Clearing(copy) => IsVersion(t, p, copy.sub)
    case Renewing(copy) => Renews(t, p, copy.sub)
    case Subscribing(_) => p in t.held
    case Creating(_) => p in t.held
    case _ => true
  }

  ghost predicate Consistent(t: Trace) {
    && StoredIsVersion(t)
    && forall p :: p in t.s.procs ==> Holding(t, p, t.s.procs[p])
  }

  lemma HoldingGrows(t: Trace, u: Trace, p: nat, pc: Proc)
    requires Holding(t, p, pc) && t.subs <= u.subs && (p in t.held ==> p in u.held && u.held[p] == t.held[p])
    ensures Holding(u, p, pc)
  {
  }

  lemma TStepGrows(t: Trace, a: Action)
    ensures TStep(t, a).s == Step(t.s, a) && t.subs <= TStep(t, a).subs
    ensures forall q :: q in t.held && !(a.Load? && q == a.p) ==>
      q in TStep(t, a).held && TStep(t, a).held[q] == t.held[q]
  {
  }

  lemma LoadIsConsistent(t: Trace, a: Action)
    requires Consistent(t) && a.Load? && Loads(ProcOf(t.s, a.p))
    ensures var u := TStep(t, a); u.s.stored == t.s.stored && Holding(u, a.p, ProcOf(u.s, a.p))
  {
  }

  lemma FetchIsConsistent(t: Trace, a: Action)
    requires Consistent(t) && a.Fetch?
    ensures var u := TStep(t, a);
      u.s.stored == t.s.stored && u.current == t.current && u.subs == t.subs && Holding(u, a.p, ProcOf(u.s, a.p))
  {
    hide Parsed;
  }

  lemma OtherIsConsistent(t: Trace, a: Action)
    requires Consistent(t) && !a.Load? && !a.Fetch? && !a.Write? && !a.Grow?
    ensures var u := TStep(t, a);
      u.s.stored == t.s.stored && u.current == t.current && u.subs == t.subs && Holding(u, a.p, ProcOf(u.s, a.p))
  {
    hide Fetched, Loaded, Written, Parsed;
  }

  lemma WriteHolds(t: Trace, a: Action)
    requires Consistent(t) && a.Write?
    ensures var u := TStep(t, a); Holding(u, a.p, ProcOf(u.s, a.p))
  {
    hide Fetched, PageDone, Loaded, Parsed;
  }

  ghost predicate StoredIsVersion(t: Trace) {
    && t.current <= |t.subs|
    && (t.s.stored.NoRow? <==> t.current == 0)
    && (t.s.stored.Stored? && t.current > 0 ==> t.s.stored.row.sub == t.subs[t.current - 1])
  }

  lemma WriteStoresVersion(t: Trace, a: Action)
    requires Consistent(t) && a.Write?
    ensures StoredIsVersion(TStep(t, a))
  {
    hide Fetched, PageDone, Loaded, Parsed;
    var pc := ProcOf(t.s, a.p);
    assert Holding(t, a.p, pc);
    assert Step(t.s, a) == Written(t.s, a.p, pc, a.ok, a.ready);
  }

  lemma TStepIsConsistent(t: Trace, a: Action)
    requires Consistent(t)
    ensures Consistent(TStep(t, a))
  {
    var u := TStep(t, a);
    TStepGrows(t, a);
    StepExtends(t.s, a);
    if a.Load? && Loads(ProcOf(t.s, a.p)) {
      LoadIsConsistent(t, a);
    } else if a.Fetch? {
      FetchIsConsistent(t, a);
    } else if a.Write? {
      WriteHolds(t, a);
      WriteStoresVersion(t, a);
    } else if !a.Load? && !a.Grow? {
      OtherIsConsistent(t, a);
    }
    hide Holding, TStep, Step;
    forall q | q in u.s.procs && (a.Grow? || q != a.p) ensures Holding(u, q, u.s.procs[q]) {
      HoldingGrows(t, u, q, t.s.procs[q]);
    }
  }

  lemma {:induction false} TExecIsConsistent(run: seq<Action>)
    ensures Consistent(TExec(run)) && TExec(run).s == Exec(Init(), run)
    decreases |run|
  {
    if run != [] {
      hide TStep, Consistent;
      TExecIsConsistent(run[..|run| - 1]);
      TStepGrows(TExec(run[..|run| - 1]), run[|run| - 1]);
      TStepIsConsistent(TExec(run[..|run| - 1]), run[|run| - 1]);
    } else {
      assert Consistent(TExec([]));
    }
  }

  // ---------- loads, write-backs and what comes between ----------

  /** How long the run was when `p` last loaded the row. */
  ghost function LoadedAt(run: seq<Action>, p: nat): (n: nat)
    ensures n <= |run|
  {
    if run == [] then 0
    else
      var front, a := run[..|run| - 1], run[|run| - 1];
      if a.Load? && a.p == p && Loads(ProcOf(TExec(front).s, p)) then |front| else LoadedAt(front, p)
  }

  /** The row carries the subscription created or renewed last. */
  ghost predicate UpToDate(t: Trace) { t.current == |t.subs| }

  /** No subscription was stored from place `i` of the run on. */
  ghost predicate Undisturbed(run: seq<Action>, i: nat) {
    forall j :: i <= j < |run| ==> !StoresSub(TExec(run[..j]).s, run[j])
  }

  lemma {:induction false} HeldIsLoaded(run: seq<Action>, p: nat)
    requires p in TExec(run).held
    ensures LoadedAt(run, p) < |run| && TExec(run).held[p] == TExec(run[..LoadedAt(run, p)]).current
    decreases |run|
  {
    if run != [] {
      var front, a := run[..|run| - 1], run[|run| - 1];
      if !(a.Load? && a.p == p && Loads(ProcOf(TExec(front).s, p))) {
        hide Step;
        assert p in TExec(front).held && TExec(front).held[p] == TExec(run).held[p];
        HeldIsLoaded(front, p);
        assert front[..LoadedAt(front, p)] == run[..LoadedAt(front, p)];
      }
    }
  }

  /** Versions only grow, and stand still exactly while no subscription is stored. */
  lemma {:induction false} VersionsGrow(run: seq<Action>, i: nat)
    requires i <= |run|
    ensures |TExec(run[..i]).subs| <= |TExec(run).subs|
    ensures |TExec(run[..i]).subs| == |TExec(run).subs| <==> Undisturbed(run, i)
    decreases |run|
  {
    hide TStep, Undisturbed, StoresSub;
    if i == |run| {
      assert run[..i] == run;
      UndisturbedFromEnd(run);
    } else {
      var m := |run| - 1;
      assert run[..m][..i] == run[..i];
      VersionsGrow(run[..m], i);
      UndisturbedStep(run, i);
      OneVersionMore(TExec(run[..m]), run[m]);
    }
  }

  lemma UndisturbedFromEnd(run: seq<Action>)
    ensures Undisturbed(run, |run|)
  {
  }

  lemma OneVersionMore(t: Trace, a: Action)
    ensures |TStep(t, a).subs| == |t.subs| + if StoresSub(t.s, a) then 1 else 0
  {
    hide Step;
  }

  lemma UndisturbedStep(run: seq<Action>, i: nat)
    requires i < |run|
    ensures var m := |run| - 1;
      Undisturbed(run, i) <==> Undisturbed(run[..m], i) && !StoresSub(TExec(run[..m]).s, run[m])
  {
    hide TExec, StoresSub;
    var front := run[..|run| - 1];
    assert forall j :: 0 <= j < |front| ==> front[..j] == run[..j] && front[j] == run[j];
    if Undisturbed(run, i) {
      forall j | i <= j < |front| ensures !StoresSub(TExec(front[..j]).s, front[j]) {
        assert !StoresSub(TExec(run[..j]).s, run[j]);
      }
    } else {
      var j :| i <= j < |run| && StoresSub(TExec(run[..j]).s, run[j]);
      if j < |front| { assert StoresSub(TExec(front[..j]).s, front[j]); }
    }
  }

  /** In every run, the copy of a goroutine about to write is based on the subscription created
      or renewed last if and only if the row it loaded carried that one then and no
      subscription was stored since. */
  lemma BaseIsLatestIff(run: seq<Action>, p: nat)
    requires p in TExec(run).held
    ensures var t, i := TExec(run), LoadedAt(run, p);
      t.held[p] == |t.subs| <==> UpToDate(TExec(run[..i])) && Undisturbed(run, i)
  {
    var i := LoadedAt(run, p);
    hide TExec, Undisturbed, LoadedAt;
    HeldIsLoaded(run, p);
    VersionsGrow(run, i);
    TExecIsConsistent(run[..i]);
  }

  lemma TExecStep(run: seq<Action>, a: Action)
    ensures TExec(run + [a]) == TStep(TExec(run), a)
  {
    assert (run + [a])[..|run|] == run;
  }

  lemma WriteBackStep(t: Trace, p: nat, ready: bool)
    requires Consistent(t) && (ProcOf(t.s, p).Saving? || ProcOf(t.s, p).Clearing?)
    ensures HasVersion(t, p)
    ensures var u := TStep(t, Write(p, true, ready)); u.subs == t.subs && u.current == t.held[p]
  {
    hide Step;
    assert Holding(t, p, ProcOf(t.s, p));
  }

  lemma RenewalStep(t: Trace, p: nat, ready: bool)
    requires Consistent(t) && ProcOf(t.s, p).Renewing?
    ensures HasVersion(t, p)
    ensures var u := TStep(t, Write(p, true, ready));
      && UpToDate(u) && |u.subs| == |t.subs| + 1
      && u.subs == t.subs + [t.subs[t.held[p] - 1].(expiry := u.subs[|t.subs|].expiry)]
  {
    hide Step;
    assert Holding(t, p, ProcOf(t.s, p));
  }

  /** A write-back, by a reconcile, a backfill or the clearing after a resync: the row carries the
      subscription created or renewed last afterwards if and only if it did when the copy was
      loaded and no subscription was stored since. */
  lemma WriteBackKeepsIff(run: seq<Action>, p: nat, ready: bool)
    requires ProcOf(TExec(run).s, p).Saving? || ProcOf(TExec(run).s, p).Clearing?
    ensures var t, i := TExec(run + [Write(p, true, ready)]), LoadedAt(run, p);
      && t.subs == TExec(run).subs && t.subs != []
      && (UpToDate(t) <==> UpToDate(TExec(run[..i])) && Undisturbed(run, i))
      && (UpToDate(t) ==> t.s.stored.Stored? && t.s.stored.row.sub == t.subs[|t.subs| - 1])
  {
    hide TExec, TStep, Undisturbed, LoadedAt;
    TExecIsConsistent(run);
    WriteBackStep(TExec(run), p, ready);
    TExecStep(run, Write(p, true, ready));
    TExecIsConsistent(run + [Write(p, true, ready)]);
    BaseIsLatestIff(run, p);
  }

  /** A renewal stores the subscription of its own copy with a new expiry. It extends the one
      created or renewed last, rather than an older one, under the same condition. */
  lemma RenewalExtendsIff(run: seq<Action>, p: nat, ready: bool)
    requires ProcOf(TExec(run).s, p).Renewing?
    ensures var before, t, i := TExec(run), TExec(run + [Write(p, true, ready)]), LoadedAt(run, p);
      && UpToDate(t) && HasVersion(before, p) && |t.subs| == |before.subs| + 1
      && t.subs == before.subs + [before.subs[before.held[p] - 1].(expiry := t.subs[|before.subs|].expiry)]
      && (before.held[p] == |before.subs| <==> UpToDate(TExec(run[..i])) && Undisturbed(run, i))
  {
    hide TExec, TStep, Undisturbed, LoadedAt;
    TExecIsConsistent(run);
    RenewalStep(TExec(run), p, ready);
    TExecStep(run, Write(p, true, ready));
    BaseIsLatestIff(run, p);
  }

  // ---------- whole runs ----------

  /** No stored write-back of the run puts back a copy that was loaded before a subscription was
      stored. */
  ghost predicate NoStaleWriteBack(run: seq<Action>) {
    forall n :: 0 <= n < |run| && WritesBack(TExec(run[..n]).s, run[n]) ==>
      Undisturbed(run[..n], LoadedAt(run[..n], run[n].p))
  }

  ghost predicate AlwaysUpToDate(run: seq<Action>) {
    forall n :: 0 <= n <= |run| ==> UpToDate(TExec(run[..n]))
  }

  /** The row carries the subscription created or renewed last throughout a run if and only if no
      write-back of the run has a subscription stored between its load and its write. */
  lemma {:induction false} SubscriptionsSurviveIff(run: seq<Action>)
    ensures AlwaysUpToDate(run) <==> NoStaleWriteBack(run)
    decreases |run|
  {
    if run == [] {
      assert run[..0] == [];
    } else {
      var m := |run| - 1;
      var front, a := run[..m], run[m];
      SubscriptionsSurviveIff(front);
      AlwaysStep(run);
      NoStaleStep(run);
      hide AlwaysUpToDate, NoStaleWriteBack;
      if AlwaysUpToDate(front) { SurvivesStep(run); }
    }
  }

  lemma AlwaysStep(run: seq<Action>)
    requires run != []
    ensures AlwaysUpToDate(run) <==> AlwaysUpToDate(run[..|run| - 1]) && UpToDate(TExec(run))
  {
    hide TExec, UpToDate;
    var m := |run| - 1;
    var front := run[..m];
    if AlwaysUpToDate(run) {
      forall n | 0 <= n <= |front| ensures UpToDate(TExec(front[..n])) {
        assert front[..n] == run[..n];
      }
      assert run[..|run|] == run;
    }
    if AlwaysUpToDate(front) && UpToDate(TExec(run)) {
      forall n | 0 <= n <= |run| ensures UpToDate(TExec(run[..n])) {
        if n <= m { assert front[..n] == run[..n]; } else { assert run[..n] == run; }
      }
    }
  }

  lemma NoStaleStep(run: seq<Action>)
    requires run != []
    ensures var m := |run| - 1;
      NoStaleWriteBack(run) <==>
        NoStaleWriteBack(run[..m]) &&
        (WritesBack(TExec(run[..m]).s, run[m]) ==> Undisturbed(run[..m], LoadedAt(run[..m], run[m].p)))
  {
    hide TExec, WritesBack, Undisturbed, LoadedAt;
    var front := run[..|run| - 1];
    assert forall n :: 0 <= n < |front| ==> front[..n] == run[..n] && front[n] == run[n];
  }

  /** One more step of a run that was up to date so far. */
  lemma SurvivesStep(run: seq<Action>)
    requires run != [] && AlwaysUpToDate(run[..|run| - 1])
    ensures var m := |run| - 1;
      UpToDate(TExec(run)) <==>
        (WritesBack(TExec(run[..m]).s, run[m]) ==> Undisturbed(run[..m], LoadedAt(run[..m], run[m].p)))
  {
    hide TExec, TStep, Undisturbed, LoadedAt, UpToDate, WritesBack;
    var m := |run| - 1;
    var front, a := run[..m], run[m];
    TExecStep(front, a);
    assert front + [a] == run;
    if WritesBack(TExec(front).s, a) {
      WriteBackShape(TExec(front).s, a);
      WriteBackKeepsIff(front, a.p, a.ready);
    } else {
      assert front[..m] == front;
      OtherStep(TExec(front), a);
    }
  }

  lemma WriteBackShape(s: State, a: Action)
    requires WritesBack(s, a)
    ensures a.Write? && a == Write(a.p, true, a.ready) && (ProcOf(s, a.p).Saving? || ProcOf(s, a.p).Clearing?)
  {
  }

  lemma OtherStep(t: Trace, a: Action)
    requires UpToDate(t) && !WritesBack(t.s, a)
    ensures UpToDate(TStep(t, a))
  {
    hide Step;
  }
}
