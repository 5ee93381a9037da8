/** What a whole backfill or reconcile leaves in the stored row, as runs of the step machine of
    DeltaSync from the first step to the last (pkg/connector/graph_delta.go:48-247,
    graph_subscription.go:46-180), and what a server that serves its whole log gets delivered. */
module DeltaRuns {
  import opened DeltaSync
  import opened DeltaLoop

  // ---------- backfill ----------

  /** What the loop handed over, and the row as it was. */
  ghost predicate Walked(s: State, t: State, given: seq<nat>) {
    t.log == s.log && t.stored == s.stored && t.handed == s.handed + Positions(given)
  }

  lemma WalkLeaves(s: State, p: nat, walk: Walk, o: Outcome)
    ensures var t := WalkDone(s, p, walk, o);
      Walked(s, t, o.given) && ProcOf(t, p) == After(walk, o.end)
  {
  }

  /** The two steps after a backfill's last page. */
  lemma BackfillSaves(s: State, p: nat, delta: Link, loadOk: bool, saveOk: bool)
    requires ProcOf(s, p) == Loading(delta)
    ensures var t := Step(Step(s, Load(p, loadOk, true)), Write(p, saveOk, true));
      && t.log == s.log && t.handed == s.handed && ProcOf(t, p) == Idle
      && (if loadOk && saveOk then Relinked(s.stored, t.stored, delta) else t.stored == s.stored)
  {
  }

  /** A backfill from the top of its loop to its end. */
  lemma BackfillFinishes(s: State, p: nat, server: Server, loadOk: bool, saveOk: bool) returns (run: seq<Action>)
    requires ProcOf(s, p) == Fetching(Backfill, Empty, 0) && Honest(s.log, server)
    ensures var t := Exec(s, run); var o := WalkFrom(s.log, server, Empty, 0);
      && t.log == s.log && ProcOf(t, p) == Idle && t.handed == s.handed + Positions(o.given)
      && (if o.end.Done? && loadOk && saveOk then Relinked(s.stored, t.stored, o.end.delta)
          else t.stored == s.stored)
  {
    hide Exec, Step, WalkFrom, WalkDone, Relinked, ProcOf;
    var o := WalkFrom(s.log, server, Empty, 0);
    run := WalkIsRun(s, p, server);
    var mid := Exec(s, run);
    WalkLeaves(s, p, Backfill, o);
    if o.end.Done? {
      BackfillSaves(mid, p, o.end.delta, loadOk, saveOk);
      ExecSnoc(s, run, Load(p, loadOk, true));
      ExecSnoc(s, run + [Load(p, loadOk, true)], Write(p, saveOk, true));
      run := run + [Load(p, loadOk, true)] + [Write(p, saveOk, true)];
    }
  }

  lemma BackfillBegins(s: State, p: nat, ready: bool)
    requires ProcOf(s, p).Idle?
    ensures var t := Step(s, StartBackfill(p, ready));
      && t.log == s.log && t.handed == s.handed && t.stored == s.stored
      && ProcOf(t, p) == if ready then Fetching(Backfill, Empty, 0) else Idle
  {
  }

  /** A whole backfill is a run of the machine. The row it leaves has the delta link the walk ended
      with, if it ended with one and the row could be loaded and saved, and is unchanged if not. */
  lemma BackfillIsRun(s: State, p: nat, server: Server, ready: bool, loadOk: bool, saveOk: bool)
    returns (run: seq<Action>)
    requires ProcOf(s, p).Idle? && Honest(s.log, server)
    ensures var t := Exec(s, run); var o := WalkFrom(s.log, server, Empty, 0);
      && t.log == s.log && ProcOf(t, p) == Idle
      && (!ready ==> t.handed == s.handed && t.stored == s.stored)
      && (ready ==>
            && t.handed == s.handed + Positions(o.given)
            && (if o.end.Done? && loadOk && saveOk then Relinked(s.stored, t.stored, o.end.delta)
                else t.stored == s.stored))
  {
    hide Exec, Step, WalkFrom, Relinked, ProcOf;
    run := [StartBackfill(p, ready)];
    BackfillBegins(s, p, ready);
    ExecOne(s, StartBackfill(p, ready));
    if ready {
      var rest := BackfillFinishes(Exec(s, run), p, server, loadOk, saveOk);
      ExecConcat(s, run, rest);
      run := run + rest;
    }
  }

  // ---------- reconcile ----------

  lemma ReconcileBegins(s: State, p: nat, loadOk: bool, ready: bool)
    requires ProcOf(s, p).Idle?
    ensures var t := Step(Step(s, StartReconcile(p)), Load(p, loadOk, ready));
      && t.log == s.log && t.handed == s.handed && t.stored == s.stored
      && ProcOf(t, p) ==
         if !loadOk || !ready then Idle
         else if s.stored.NoRow? || s.stored.row.link.Empty? then Fetching(Backfill, Empty, 0)
         else Fetching(Reconcile(s.stored.row), s.stored.row.link, 0)
  {
  }

  lemma ReconcileSaves(s: State, p: nat, row: Row, saveOk: bool)
    requires ProcOf(s, p) == Saving(row)
    ensures var t := Step(s, Write(p, saveOk, true));
      && t.log == s.log && t.handed == s.handed && ProcOf(t, p) == Idle
      && t.stored == if saveOk then Stored(row) else s.stored
  {
  }

  lemma ReconcileClears(s: State, p: nat, row: Row, clearOk: bool)
    requires ProcOf(s, p) == Clearing(row)
    ensures var t := Step(s, Write(p, clearOk, true));
      && t.log == s.log && t.handed == s.handed && ProcOf(t, p) == Fetching(Backfill, Empty, 0)
      && t.stored == if clearOk then Stored(row) else s.stored
  {
  }

  lemma TwoGivens(a: seq<nat>, b: seq<nat>)
    ensures Positions(a + b) == Positions(a) + Positions(b)
  {
  }

  /** From the top of reconcile's own loop to the end, the backfill after a resync included. */
  lemma ReconcileFinishes(s: State, p: nat, server: Server, again: Server, row: Row,
                          saveOk: bool, clearOk: bool, reloadOk: bool) returns (run: seq<Action>)
    requires s.stored == Stored(row) && ProcOf(s, p) == Fetching(Reconcile(row), row.link, 0)
    requires Honest(s.log, server) && Honest(s.log, again)
    ensures var t := Exec(s, run);
      var o, b := WalkFrom(s.log, server, row.link, 0), WalkFrom(s.log, again, Empty, 0);
      && t.log == s.log && ProcOf(t, p) == Idle
      && match o.end
         case Stopped => t.handed == s.handed + Positions(o.given) && t.stored == s.stored
         case Done(delta) =>
           && t.handed == s.handed + Positions(o.given)
           && (if saveOk then Relinked(s.stored, t.stored, delta) else t.stored == s.stored)
         case NeedsResync =>
           && t.handed == s.handed + Positions(o.given + b.given)
           && (if b.end.Done? && reloadOk && saveOk then Relinked(s.stored, t.stored, b.end.delta)
               else if clearOk then Relinked(s.stored, t.stored, Empty)
               else t.stored == s.stored)
  {
    hide Exec, Step, WalkFrom, WalkDone, ProcOf;
    var o, b := WalkFrom(s.log, server, row.link, 0), WalkFrom(s.log, again, Empty, 0);
    run := WalkIsRun(s, p, server);
    var mid := Exec(s, run);
    WalkLeaves(s, p, Reconcile(row), o);
    match o.end
    case Stopped =>
    case Done(delta) =>
      ReconcileSaves(mid, p, row.(link := delta), saveOk);
      ExecSnoc(s, run, Write(p, saveOk, true));
      run := run + [Write(p, saveOk, true)];
    case NeedsResync =>
      ReconcileClears(mid, p, row.(link := Empty), clearOk);
      ExecSnoc(s, run, Write(p, clearOk, true));
      run := run + [Write(p, clearOk, true)];
      var rest := BackfillFinishes(Exec(s, run), p, again, reloadOk, saveOk);
      ExecConcat(s, run, rest);
      TwoGivens(o.given, b.given);
      run := run + rest;
  }

  /** A whole reconcile is a run of the machine; the row it leaves on every path. */
  lemma ReconcileIsRun(s: State, p: nat, server: Server, again: Server, loadOk: bool, ready: bool,
                       saveOk: bool, clearOk: bool, reloadOk: bool) returns (run: seq<Action>)
    requires ProcOf(s, p).Idle? && Honest(s.log, server) && Honest(s.log, again)
    ensures var t := Exec(s, run);
      && t.log == s.log && ProcOf(t, p) == Idle
      && (!loadOk || !ready ==> t.handed == s.handed && t.stored == s.stored)
      && (loadOk && ready && (s.stored.NoRow? || s.stored.row.link.Empty?) ==>
            var b := WalkFrom(s.log, again, Empty, 0);
            && t.handed == s.handed + Positions(b.given)
            && (if b.end.Done? && reloadOk && saveOk then Relinked(s.stored, t.stored, b.end.delta)
                else t.stored == s.stored))
      && (loadOk && ready && s.stored.Stored? && s.stored.row.link.At? ==>
            var o, b := WalkFrom(s.log, server, s.stored.row.link, 0), WalkFrom(s.log, again, Empty, 0);
            match o.end
            case Stopped => t.handed == s.handed + Positions(o.given) && t.stored == s.stored
            case Done(delta) =>
              && t.handed == s.handed + Positions(o.given)
              && (if saveOk then Relinked(s.stored, t.stored, delta) else t.stored == s.stored)
            case NeedsResync =>
              && t.handed == s.handed + Positions(o.given + b.given)
              && (if b.end.Done? && reloadOk && saveOk then Relinked(s.stored, t.stored, b.end.delta)
                  else if clearOk then Relinked(s.stored, t.stored, Empty)
                  else t.stored == s.stored))
  {
    hide Exec, Step, WalkFrom, Relinked, ProcOf;
    var load := Load(p, loadOk, ready);
    run := [StartReconcile(p)];
    ExecOne(s, StartReconcile(p));
    ExecSnoc(s, run, load);
    run := run + [load];
    ReconcileBegins(s, p, loadOk, ready);
    if loadOk && ready {
      var rest;
      if s.stored.NoRow? || s.stored.row.link.Empty? {
        rest := BackfillFinishes(Exec(s, run), p, again, reloadOk, saveOk);
      } else {
        rest := ReconcileFinishes(Exec(s, run), p, server, again, s.stored.row, saveOk, clearOk, reloadOk);
      }
      ExecConcat(s, run, rest);
      run := run + rest;
    }
  }

  // ---------- creations and renewals ----------

  /** A creation stores the new subscription and carries over the link of the row it loaded; a load
      that fails counts as no row. */
  lemma CreationIsRun(s: State, p: nat, loadOk: bool, created: Subscription, saveOk: bool) returns (run: seq<Action>)
    requires ProcOf(s, p).Idle?
    ensures var t := Exec(s, run);
      && t.handed == s.handed && t.log == s.log && ProcOf(t, p) == Idle
      && (!saveOk ==> t.stored == s.stored)
      && (saveOk ==>
            var link := if loadOk && s.stored.Stored? then s.stored.row.link else Empty;
            t.stored == Stored(Row(created, link)))
  {
    var load, create, write := Load(p, loadOk, true), Create(p, false, created), Write(p, saveOk, true);
    ExecOne(s, StartSubscribe(p));
    ExecSnoc(s, [StartSubscribe(p)], load);
    ExecSnoc(s, [StartSubscribe(p)] + [load], create);
    ExecSnoc(s, [StartSubscribe(p)] + [load] + [create], write);
    run := [StartSubscribe(p)] + [load] + [create] + [write];
    hide Exec;
    assert ProcOf(Step(s, StartSubscribe(p)), p) == AtSubscribe;
  }

  /** A renewal changes the expiry in the row and nothing else, if there is a row and it can be
      loaded and saved. */
  lemma RenewalIsRun(s: State, p: nat, newExpiry: int, loadOk: bool, saveOk: bool) returns (run: seq<Action>)
    requires ProcOf(s, p).Idle?
    ensures var t := Exec(s, run);
      && t.handed == s.handed && t.log == s.log && ProcOf(t, p) == Idle
      && (s.stored.NoRow? || !loadOk || !saveOk ==> t.stored == s.stored)
      && (s.stored.Stored? && loadOk && saveOk ==>
            && t.stored.Stored? && t.stored.row.link == s.stored.row.link
            && t.stored.row.sub == Subscription(s.stored.row.sub.id, newExpiry, s.stored.row.sub.clientState))
  {
    var load, write := Load(p, loadOk, true), Write(p, saveOk, true);
    ExecOne(s, StartRenew(p, newExpiry));
    ExecSnoc(s, [StartRenew(p, newExpiry)], load);
    ExecSnoc(s, [StartRenew(p, newExpiry)] + [load], write);
    run := [StartRenew(p, newExpiry)] + [load] + [write];
    hide Exec;
    assert ProcOf(Step(s, StartRenew(p, newExpiry)), p) == AtRenew(newExpiry);
  }

  // ---------- a server that serves everything ----------

  /** Every page gets on: it ends at the next link, or at the end of the log with a delta link. */
  ghost predicate Serves(log: seq<Change>, server: Server) {
    forall url, n :: Start(url) <= |log| ==>
      && server(url, n).Page?
      && var r := server(url, n);
         || (r.upto == |log| && r.delta == At(|log|) && r.next.Empty?)
         || (Start(url) < r.upto < |log| && r.delta.Empty? && r.next == At(r.upto))
  }

  lemma {:induction false} ParsedTogether(log: seq<Change>, a: nat, b: nat, c: nat)
    requires a <= b <= c <= |log|
    ensures Parsed(log, a, b) + Parsed(log, b, c) == Parsed(log, a, c)
    decreases c
  {
    if b < c { ParsedTogether(log, a, b, c - 1); }
  }

  /** A page without a delta link that leads nowhere, or back to its own link, is the last. */
  lemma StuckWalkStops(log: seq<Change>, server: Server, url: Link, pages: nat)
    requires pages < MAX_DELTA_PAGES && Obeys(log, url, server(url, pages))
    requires var r := server(url, pages); r.Page? && r.delta.Empty? && (r.next.Empty? || r.next == url)
    ensures var o := WalkFrom(log, server, url, pages);
      o.end == Stopped && o.calls == pages + 1 && o.given == Parsed(log, Start(url), server(url, pages).upto)
  {
  }

  lemma ServesTurn(log: seq<Change>, server: Server, url: Link, pages: nat)
    requires Serves(log, server) && Start(url) <= |log| && pages < MAX_DELTA_PAGES
    ensures var o, r := WalkFrom(log, server, url, pages), server(url, pages);
      && r.Page? && Start(url) <= r.upto <= |log|
      && (r.upto == |log| ==> o.end == Done(At(|log|)) && o.given == Parsed(log, Start(url), |log|))
      && (r.upto < |log| ==>
            && Start(url) < r.upto && r.next == At(r.upto)
            && var rest := WalkFrom(log, server, r.next, pages + 1);
               o.end == rest.end && o.given == Parsed(log, Start(url), r.upto) + rest.given)
  {
  }

  /** With such a server, a walk that has a page left for every change ends at the end of the log
      and hands over every readable change from its link on, once and in order. */
  lemma {:induction false} WalkCompletes(log: seq<Change>, server: Server, url: Link, pages: nat)
    requires Serves(log, server) && Start(url) <= |log| && |log| - Start(url) < MAX_DELTA_PAGES - pages
    ensures var o := WalkFrom(log, server, url, pages);
      o.end == Done(At(|log|)) && o.given == Parsed(log, Start(url), |log|)
    decreases MAX_DELTA_PAGES - pages
  {
    hide WalkFrom, Serves, Parsed;
    ServesTurn(log, server, url, pages);
    var r := server(url, pages);
    if r.upto < |log| {
      WalkCompletes(log, server, r.next, pages + 1);
      ParsedTogether(log, Start(url), r.upto, |log|);
    }
  }
}
