/** The page loops of runBackfill and reconcile as the source runs them, and the proof that one
    such loop is a run of the step machine of `DeltaSync`. */
module DeltaLoop {
  import opened DeltaSync

  /** The reply to the n-th DeltaPage call of a walk, for the link it is asked with. */
  type Server = (Link, nat) -> Reply

  ghost predicate Honest(log: seq<Change>, server: Server) {
    forall url, n :: Obeys(log, url, server(url, n))
  }

  datatype End = Stopped | Done(delta: Link) | NeedsResync

  /** How a walk ends, what it hands over in order, and how often it asks the server. */
  datatype Outcome = Outcome(end: End, given: seq<nat>, calls: nat)

  function WalkFrom(log: seq<Change>, server: Server, url: Link, pages: nat): (o: Outcome)
    requires pages <= MAX_DELTA_PAGES
    ensures o.calls <= MAX_DELTA_PAGES
    decreases MAX_DELTA_PAGES - pages
  {
    if pages == MAX_DELTA_PAGES then Outcome(Stopped, [], pages)
    else match server(url, pages)
      case Failed => Outcome(Stopped, [], pages + 1)
      case Resync => Outcome(NeedsResync, [], pages + 1)
      case Page(upto, next, delta) =>
        if !(Start(url) <= upto <= |log|) then Outcome(Stopped, [], pages + 1)
        else
          var given := Parsed(log, Start(url), upto);
          if delta.At? then Outcome(Done(delta), given, pages + 1)
          else if next.Empty? || next == url then Outcome(Stopped, given, pages + 1)
          else
            var rest := WalkFrom(log, server, next, pages + 1);
            Outcome(rest.end, given + rest.given, rest.calls)
  }

  /** One turn of the loop, from the top. */
  lemma WalkTurn(log: seq<Change>, server: Server, url: Link, pages: nat)
    requires pages <= MAX_DELTA_PAGES && Honest(log, server)
    ensures var o, reply := WalkFrom(log, server, url, pages), server(url, pages);
      && Obeys(log, url, reply)
      && (pages == MAX_DELTA_PAGES ==> o.end == Stopped && o.given == [])
      && (pages < MAX_DELTA_PAGES && reply.Failed? ==> o.end == Stopped && o.given == [])
      && (pages < MAX_DELTA_PAGES && reply.Resync? ==> o.end == NeedsResync && o.given == [])
      && (pages < MAX_DELTA_PAGES && reply.Page? ==>
            var given := Parsed(log, Start(url), reply.upto);
            if reply.delta.At? then o.end == Done(reply.delta) && o.given == given
            else if reply.next.Empty? || reply.next == url then o.end == Stopped && o.given == given
            else
              var rest := WalkFrom(log, server, reply.next, pages + 1);
              o.end == rest.end && o.given == given + rest.given)
  {
    assert Obeys(log, url, server(url, pages));
  }

  /** `rest` is what is still to come of `whole` when `before` has grown to `given`. */
  ghost predicate Follows(whole: Outcome, rest: Outcome, before: seq<nat>, given: seq<nat>) {
    whole.end == rest.end && before + whole.given == given + rest.given
  }

  ghost function Positions(s: seq<nat>): set<nat> { set i | i in s }

  /** The link in the row, and nothing else of it, becomes `link`; no row stays no row. */
  ghost predicate Relinked(before: Stored, after: Stored, link: Link) {
    && (before.NoRow? ==> after.NoRow?)
    && (before.Stored? ==> after.Stored? && after.row.sub == before.row.sub && after.row.link == link)
  }

  class Connector {
    const log: seq<Change>
    var stored: Stored
    var given: seq<nat>      // positions handed to delivery, in order

    constructor (log: seq<Change>)
      ensures this.log == log && stored == NoRow && given == []
    {
      this.log, stored, given := log, NoRow, [];
    }

    ghost function World(): State
      reads this
    {
      State(log, Positions(given), stored, map[], [])
    }

    /** The shared `for` loop. */
    method WalkPages(server: Server, start: Link) returns (end: End)
      requires Honest(log, server)
      modifies `given
      ensures var o := WalkFrom(log, server, start, 0); end == o.end && given == old(given) + o.given
    {
      hide WalkFrom, Parsed;
      var url := start;
      var pages := 0;
      ghost var whole := WalkFrom(log, server, start, 0);
      while true
        invariant pages <= MAX_DELTA_PAGES
        invariant Follows(whole, WalkFrom(log, server, url, pages), old(given), given)
        decreases MAX_DELTA_PAGES - pages
      {
        WalkTurn(log, server, url, pages);
        if pages >= MAX_DELTA_PAGES { return Stopped; }
        var reply := server(url, pages);
        if reply.Failed? { return Stopped; }
        if reply.Resync? { return NeedsResync; }
        pages := pages + 1;
        given := given + Parsed(log, Start(url), reply.upto);
        if reply.delta.At? { return Done(reply.delta); }
        if reply.next.Empty? { return Stopped; }
        if reply.next == url { return Stopped; }
        url := reply.next;
      }
    }

    method RunBackfill(server: Server, ready: bool, loadOk: bool, saveOk: bool)
      requires Honest(log, server)
      modifies this
      ensures !ready ==> stored == old(stored) && given == old(given)
      ensures ready ==>
        var o := WalkFrom(log, server, Empty, 0);
        && given == old(given) + o.given
        && (if o.end.Done? && loadOk && saveOk then Relinked(old(stored), stored, o.end.delta)
            else stored == old(stored))
      ensures Covered(old(World()), CarriedLink(old(stored))) ==> Covered(World(), CarriedLink(stored))
    {
      if !ready { return; }
      var end := WalkPages(server, Empty);
      WalkCovers(old(World()), World(), server, Empty, 0);
      if end.Done? && loadOk && stored.Stored? {
        var gs := stored.row.(link := end.delta);
        if saveOk { stored := Stored(gs); }
      }
    }

    method Reconcile(server: Server, again: Server, loadOk: bool, ready: bool,
                     saveOk: bool, clearOk: bool, reloadOk: bool)
      requires Honest(log, server) && Honest(log, again)
      modifies this
      ensures old(given) <= given
      ensures Covered(old(World()), CarriedLink(old(stored))) ==> Covered(World(), CarriedLink(stored))
      ensures !loadOk || !ready ==> stored == old(stored) && given == old(given)
      ensures loadOk && ready && CarriedLink(old(stored)).Empty? ==>
        var b := WalkFrom(log, again, Empty, 0);
        && given == old(given) + b.given
        && (if b.end.Done? && reloadOk && saveOk then Relinked(old(stored), stored, b.end.delta)
            else stored == old(stored))
      ensures loadOk && ready && CarriedLink(old(stored)).At? ==>
        var o, b := WalkFrom(log, server, CarriedLink(old(stored)), 0), WalkFrom(log, again, Empty, 0);
        match o.end
        case Stopped => given == old(given) + o.given && stored == old(stored)
        case Done(delta) =>
          && given == old(given) + o.given
          && (if saveOk then Relinked(old(stored), stored, delta) else stored == old(stored))
        case NeedsResync =>
          && given == old(given) + o.given + b.given
          && (if b.end.Done? && reloadOk && saveOk then Relinked(old(stored), stored, b.end.delta)
              else if clearOk then Relinked(old(stored), stored, Empty)
              else stored == old(stored))
    {
      if !loadOk { return; }
      hide WalkFrom;
      if stored.NoRow? || stored.row.link.Empty? {
        RunBackfill(again, ready, reloadOk, saveOk);
        return;
      }
      if !ready { return; }
      var gs := stored.row;
      var end := WalkPages(server, gs.link);
      if Covered(old(World()), CarriedLink(old(stored))) {
        WalkCovers(old(World()), World(), server, gs.link, 0);
      }
      match end
      case Done(delta) =>
        gs := gs.(link := delta);
        if saveOk { stored := Stored(gs); }
      case NeedsResync =>
        gs := gs.(link := Empty);
        if clearOk { stored := Stored(gs); }
        RunBackfill(again, ready, reloadOk, saveOk);
      case Stopped =>
    }
  }

  /** Does the loop go on after this page? */
  predicate GoesOn(url: Link, reply: Reply) {
    reply.Page? && reply.delta.Empty? && reply.next.At? && reply.next != url
  }

  // ---------- the loop keeps the cursor safe ----------

  /** After a walk everything covered before still is, and so is the delta link it ends with. */
  lemma {:induction false} WalkCovers(s: State, t: State, server: Server, url: Link, pages: nat)
    requires Honest(s.log, server) && t.log == s.log && pages <= MAX_DELTA_PAGES
    requires Covered(s, url)
    requires var o := WalkFrom(s.log, server, url, pages); t.handed == s.handed + Positions(o.given)
    ensures forall link :: Covered(s, link) ==> Covered(t, link)
    ensures var o := WalkFrom(s.log, server, url, pages); o.end.Done? ==> Covered(t, o.end.delta)
    decreases MAX_DELTA_PAGES - pages
  {
    hide WalkFrom, Parsed;
    var reply := server(url, pages);
    WalkTurn(s.log, server, url, pages);
    if pages < MAX_DELTA_PAGES && reply.Page? {
      var given := Parsed(s.log, Start(url), reply.upto);
      var mid := s.(handed := s.handed + Positions(given));
      PageCovers(s, mid, url, reply);
      if GoesOn(url, reply) {
        WalkCovers(mid, t, server, reply.next, pages + 1);
      }
    }
  }

  /** Handing over a whole page covers everything up to its end. */
  lemma PageCovers(s: State, mid: State, url: Link, reply: Reply)
    requires reply.Page? && Obeys(s.log, url, reply) && Covered(s, url)
    requires mid == s.(handed := s.handed + Positions(Parsed(s.log, Start(url), reply.upto)))
    ensures Covered(mid, At(reply.upto)) && Covered(mid, reply.next) && Covered(mid, reply.delta)
    ensures forall link :: Covered(s, link) ==> Covered(mid, link)
  {
  }

  // ---------- the loop is a run of the machine ----------

  /** Where the machine stands when the loop has returned. */
  function After(walk: Walk, end: End): Proc {
    match end
    case Stopped => Idle
    case Done(delta) => if walk.Backfill? then Loading(delta) else Saving(walk.copy.(link := delta))
    case NeedsResync => if walk.Backfill? then Idle else Clearing(walk.copy.(link := Empty))
  }

  ghost function WalkDone(s: State, p: nat, walk: Walk, o: Outcome): State {
    State(s.log, s.handed + Positions(o.given), s.stored, s.procs[p := After(walk, o.end)], s.walks + [o.calls])
  }

  /** Handing over the messages of a page, one step each. */
  lemma {:induction false} PageIsRun(s: State, p: nat) returns (run: seq<Action>)
    requires ProcOf(s, p).Handing?
    ensures var pc := ProcOf(s, p);
      Exec(s, run) == State(s.log, s.handed + Positions(pc.todo), s.stored, s.procs[p := pc.(todo := [])], s.walks)
    decreases |ProcOf(s, p).todo|
  {
    var pc := ProcOf(s, p);
    if pc.todo == [] {
      run := [];
      assert s.procs[p := pc] == s.procs;
    } else {
      var t := Step(s, HandOver(p));
      var rest := PageIsRun(t, p);
      run := [HandOver(p)] + rest;
      ExecConcat(s, [HandOver(p)], rest);
      assert Exec(s, [HandOver(p)]) == t by { assert [HandOver(p)][..0] == []; }
      assert pc.todo == [pc.todo[0]] + pc.todo[1..];
    }
  }

  lemma ExecOne(s: State, a: Action)
    ensures Exec(s, [a]) == Step(s, a)
  {
    assert [a][..0] == [];
  }

  /** The state in which a page has been handed over completely. */
  ghost function PageGiven(s: State, p: nat, pc: Proc, reply: Reply): State
    requires pc.Fetching? && reply.Page? && Obeys(s.log, pc.url, reply)
  {
    var given := Parsed(s.log, Start(pc.url), reply.upto);
    State(s.log, s.handed + Positions(given), s.stored,
          s.procs[p := Handing(pc.walk, pc.url, pc.pages + 1, [], reply.next, reply.delta)], s.walks)
  }

  lemma OnePageIsRun(s: State, p: nat, reply: Reply) returns (run: seq<Action>)
    requires ProcOf(s, p).Fetching? && ProcOf(s, p).pages < MAX_DELTA_PAGES
    requires reply.Page? && Obeys(s.log, ProcOf(s, p).url, reply)
    ensures var u := PageGiven(s, p, ProcOf(s, p), reply); Exec(s, run) == PageDone(u, p, ProcOf(u, p))
  {
    var pc := ProcOf(s, p);
    var t := Step(s, Fetch(p, reply));
    var handing := PageIsRun(t, p);
    ExecOne(s, Fetch(p, reply));
    hide Exec;
    var u := PageGiven(s, p, pc, reply);
    assert Exec(t, handing) == u;
    ExecOne(u, HandOver(p));
    ExecConcat(s, [Fetch(p, reply)], handing);
    ExecConcat(s, [Fetch(p, reply)] + handing, [HandOver(p)]);
    run := [Fetch(p, reply)] + handing + [HandOver(p)];
  }

  /** A fetch that ends the walk. */
  lemma FetchEnds(s: State, p: nat, server: Server)
    requires ProcOf(s, p).Fetching? && ProcOf(s, p).pages <= MAX_DELTA_PAGES && Honest(s.log, server)
    requires var pc := ProcOf(s, p); pc.pages == MAX_DELTA_PAGES || !server(pc.url, pc.pages).Page?
    ensures var pc := ProcOf(s, p);
      Step(s, Fetch(p, server(pc.url, pc.pages))) == WalkDone(s, p, pc.walk, WalkFrom(s.log, server, pc.url, pc.pages))
  {
    var pc := ProcOf(s, p);
    assert Obeys(s.log, pc.url, server(pc.url, pc.pages));
  }

  /** A page that ends the walk. */
  lemma PageEnds(s: State, p: nat, server: Server)
    requires ProcOf(s, p).Fetching? && ProcOf(s, p).pages < MAX_DELTA_PAGES && Honest(s.log, server)
    requires var pc := ProcOf(s, p); server(pc.url, pc.pages).Page? && !GoesOn(pc.url, server(pc.url, pc.pages))
    ensures var pc := ProcOf(s, p); var reply := server(pc.url, pc.pages);
      && Obeys(s.log, pc.url, reply)
      && var u := PageGiven(s, p, pc, reply);
         PageDone(u, p, ProcOf(u, p)) == WalkDone(s, p, pc.walk, WalkFrom(s.log, server, pc.url, pc.pages))
  {
    var pc := ProcOf(s, p);
    assert Obeys(s.log, pc.url, server(pc.url, pc.pages));
  }

  /** A page after which the loop goes on. */
  lemma PageGoesOn(s: State, p: nat, server: Server)
    requires ProcOf(s, p).Fetching? && ProcOf(s, p).pages < MAX_DELTA_PAGES && Honest(s.log, server)
    requires var pc := ProcOf(s, p); GoesOn(pc.url, server(pc.url, pc.pages))
    ensures var pc := ProcOf(s, p); var reply := server(pc.url, pc.pages);
      && Obeys(s.log, pc.url, reply)
      && var u := PageGiven(s, p, pc, reply); var v := PageDone(u, p, ProcOf(u, p));
         var rest := WalkFrom(s.log, server, reply.next, pc.pages + 1);
      && v.log == s.log && ProcOf(v, p) == Fetching(pc.walk, reply.next, pc.pages + 1)
      && WalkDone(v, p, pc.walk, rest) == WalkDone(s, p, pc.walk, WalkFrom(s.log, server, pc.url, pc.pages))
  {
    var pc := ProcOf(s, p);
    var reply := server(pc.url, pc.pages);
    assert Obeys(s.log, pc.url, reply);
    var u := PageGiven(s, p, pc, reply);
    GivenTogether(s, p, PageDone(u, p, ProcOf(u, p)), pc, reply, WalkFrom(s.log, server, reply.next, pc.pages + 1));
  }

  /** One undisturbed walk of the loop is one run of the machine, with the same messages, the
      same end and the same number of page fetches. */
  lemma {:induction false} WalkIsRun(s: State, p: nat, server: Server) returns (run: seq<Action>)
    requires ProcOf(s, p).Fetching? && ProcOf(s, p).pages <= MAX_DELTA_PAGES && Honest(s.log, server)
    ensures var pc := ProcOf(s, p);
      Exec(s, run) == WalkDone(s, p, pc.walk, WalkFrom(s.log, server, pc.url, pc.pages))
    decreases MAX_DELTA_PAGES - ProcOf(s, p).pages
  {
    hide Exec, Step, WalkDone, WalkFrom, PageDone, PageGiven;
    var pc := ProcOf(s, p);
    var reply := server(pc.url, pc.pages);
    assert Obeys(s.log, pc.url, reply);
    if pc.pages == MAX_DELTA_PAGES || !reply.Page? {
      run := [Fetch(p, reply)];
      ExecOne(s, Fetch(p, reply));
      FetchEnds(s, p, server);
    } else {
      run := OnePageIsRun(s, p, reply);
      if GoesOn(pc.url, reply) {
        PageGoesOn(s, p, server);
        var rest := WalkIsRun(Exec(s, run), p, server);
        ExecConcat(s, run, rest);
        run := run + rest;
      } else {
        PageEnds(s, p, server);
      }
    }
  }

  lemma GivenTogether(s: State, p: nat, v: State, pc: Proc, reply: Reply, rest: Outcome)
    requires pc.Fetching? && reply.Page? && Obeys(s.log, pc.url, reply)
    requires v == Put(PageGiven(s, p, pc, reply), p, Fetching(pc.walk, reply.next, pc.pages + 1))
    ensures var given := Parsed(s.log, Start(pc.url), reply.upto);
      WalkDone(v, p, pc.walk, rest) == WalkDone(s, p, pc.walk, Outcome(rest.end, given + rest.given, rest.calls))
  {
    var given := Parsed(s.log, Start(pc.url), reply.upto);
    assert Positions(given + rest.given) == Positions(given) + Positions(rest.given);
  }
}
