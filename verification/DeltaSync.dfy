/** The delta cursor of the Graph mailbox (pkg/connector/graph_delta.go,
    graph_subscription.go, graph_store.go) as a step machine: any number of backfills,
    reconciles, subscription creations and expiry renewals interleave over one stored row
    that each of them reads, modifies and replaces as a whole. */
module DeltaSync {

  const MAX_DELTA_PAGES: nat := 1000

  /** A change of the mailbox: a message, or something the page parser skips. */
  datatype Change = Message(id: nat) | Skipped

  /** A delta or next link: empty, or a URL that names a position in the change log. */
  datatype Link = Empty | At(pos: nat)

  datatype Subscription = Subscription(id: nat, expiry: int, clientState: nat)

  /** The graph_state row, and the copies of it that goroutines hold. */
  datatype Row = Row(sub: Subscription, link: Link)

  datatype Stored = NoRow | Stored(row: Row)

  /** What a DeltaPage call returns: changes up to `upto`, and links. */
  datatype Reply = Page(upto: nat, next: Link, delta: Link) | Resync | Failed

  datatype Walk = Backfill | Reconcile(copy: Row)

  datatype Proc =
    | Idle
    | AtReconcile                                        // about to load the row
    | Fetching(walk: Walk, url: Link, pages: nat)        // top of the page loop
    | Handing(walk: Walk, url: Link, pages: nat, todo: seq<nat>, next: Link, delta: Link)
    | Loading(delta: Link)                               // backfill about to load the row to save
    | Saving(copy: Row)                                  // about to write the row back
    | Clearing(copy: Row)                                // about to write the emptied link
    | AtSubscribe
    | Subscribing(before: Stored)
    | AtRenew(expiry: int)
    | Renewing(copy: Row)
    | Creating(copy: Row)                                // about to write the row of a new subscription

  datatype State = State(
    log: seq<Change>,            // the mailbox, oldest change first
    handed: set<nat>,            // positions handed to delivery
    stored: Stored,
    procs: map<nat, Proc>,
    walks: seq<nat>)             // page fetches of every finished walk

  datatype Action =
    | Grow(change: Change)
    | StartBackfill(p: nat, ready: bool)
    | StartReconcile(p: nat)
    | StartSubscribe(p: nat)
    | StartRenew(p: nat, newExpiry: int)
    | Load(p: nat, ok: bool, ready: bool)
    | Fetch(p: nat, reply: Reply)
    | HandOver(p: nat)
    | Write(p: nat, ok: bool, ready: bool)
    | Create(p: nat, stop: bool, created: Subscription)  // stop: reuse the stored one, or creation failed

  // ---------- the server ----------

  function Start(url: Link): nat { if url.Empty? then 0 else url.pos }

  /** All that is asked of the server: a page covers the log from the link on, and no link
      names a place beyond the changes served up to it. It may stop short, go back, repeat
      links, send both links or none, and fail at any time. */
  predicate Obeys(log: seq<Change>, url: Link, reply: Reply) {
    reply.Page? ==>
      && Start(url) <= reply.upto <= |log|
      && Start(reply.next) <= reply.upto && Start(reply.delta) <= reply.upto
  }

  /** The positions in [a, b) whose change the parser can read. */
  function Parsed(log: seq<Change>, a: nat, b: nat): (s: seq<nat>)
    requires a <= b <= |log|
    ensures forall i :: i in s <==> a <= i < b && log[i].Message?
    decreases b
  {
    if a == b then [] else Parsed(log, a, b - 1) + if log[b - 1].Message? then [b - 1] else []
  }

  // ---------- steps ----------

  function Put(s: State, p: nat, pc: Proc): State { s.(procs := s.procs[p := pc]) }

  function ProcOf(s: State, p: nat): Proc { if p in s.procs then s.procs[p] else Idle }

  function EndWalk(s: State, p: nat, fetches: nat): State { Put(s, p, Idle).(walks := s.walks + [fetches]) }

  /** lookupEmailClient failing keeps a walk from starting at all. */
  function BeginWalk(s: State, p: nat, walk: Walk, url: Link, ready: bool): State {
    if ready then Put(s, p, Fetching(walk, url, 0)) else Put(s, p, Idle)
  }

  function Fetched(s: State, p: nat, pc: Proc, reply: Reply): State
    requires pc.Fetching?
  {
    if pc.pages >= MAX_DELTA_PAGES then EndWalk(s, p, pc.pages)
    else if !Obeys(s.log, pc.url, reply) then s
    else match reply
      case Failed => EndWalk(s, p, pc.pages + 1)
      case Resync =>
        if pc.walk.Backfill? then EndWalk(s, p, pc.pages + 1)
        else EndWalk(s, p, pc.pages + 1).(procs := s.procs[p := Clearing(pc.walk.copy.(link := Empty))])
      case Page(upto, next, delta) =>
        Put(s, p, Handing(pc.walk, pc.url, pc.pages + 1, Parsed(s.log, Start(pc.url), upto), next, delta))
  }

  /** The end of a page: save, stop, or follow the next link. */
  function PageDone(s: State, p: nat, pc: Proc): State
    requires pc.Handing?
  {
    if pc.delta.At? then
      match pc.walk
      case Backfill => EndWalk(s, p, pc.pages).(procs := s.procs[p := Loading(pc.delta)])
      case Reconcile(copy) => EndWalk(s, p, pc.pages).(procs := s.procs[p := Saving(copy.(link := pc.delta))])
    else if pc.next.Empty? || pc.next == pc.url then EndWalk(s, p, pc.pages)
    else Put(s, p, Fetching(pc.walk, pc.next, pc.pages))
  }

  function Loaded(s: State, p: nat, pc: Proc, ok: bool, ready: bool): State {
    match pc
    case AtReconcile =>
      if !ok then Put(s, p, Idle)
      else if s.stored.NoRow? || s.stored.row.link.Empty? then BeginWalk(s, p, Backfill, Empty, ready)
      else BeginWalk(s, p, Reconcile(s.stored.row), s.stored.row.link, ready)
    case Loading(delta) =>
      if !ok || s.stored.NoRow? then Put(s, p, Idle) else Put(s, p, Saving(s.stored.row.(link := delta)))
    case AtSubscribe => Put(s, p, Subscribing(if ok then s.stored else NoRow))
    case AtRenew(expiry) =>
      if !ok || s.stored.NoRow? then Put(s, p, Idle)
      else Put(s, p, Renewing(s.stored.row.(sub := s.stored.row.sub.(expiry := expiry))))
    case _ => s
  }

  /** One whole-row write; a failing write changes nothing but is followed by the same code. */
  function Written(s: State, p: nat, pc: Proc, ok: bool, ready: bool): State {
    match pc
    case Saving(copy) => Put(if ok then s.(stored := Stored(copy)) else s, p, Idle)
    case Renewing(copy) => Put(if ok then s.(stored := Stored(copy)) else s, p, Idle)
    case Creating(copy) => Put(if ok then s.(stored := Stored(copy)) else s, p, Idle)
    case Clearing(copy) => BeginWalk(if ok then s.(stored := Stored(copy)) else s, p, Backfill, Empty, ready)
    case _ => s
  }

  /** The stored link that a new subscription row carries over. */
  function CarriedLink(stored: Stored): Link { if stored.NoRow? then Empty else stored.row.link }

  function Step(s: State, a: Action): State {
    match a
    case Grow(change) => s.(log := s.log + [change])
    case StartBackfill(p, ready) => if ProcOf(s, p).Idle? then BeginWalk(s, p, Backfill, Empty, ready) else s
    case StartReconcile(p) => if ProcOf(s, p).Idle? then Put(s, p, AtReconcile) else s
    case StartSubscribe(p) => if ProcOf(s, p).Idle? then Put(s, p, AtSubscribe) else s
    case StartRenew(p, newExpiry) => if ProcOf(s, p).Idle? then Put(s, p, AtRenew(newExpiry)) else s
    case Load(p, ok, ready) => Loaded(s, p, ProcOf(s, p), ok, ready)
    case Fetch(p, reply) => if ProcOf(s, p).Fetching? then Fetched(s, p, ProcOf(s, p), reply) else s
    case HandOver(p) =>
      var pc := ProcOf(s, p);
      if !pc.Handing? then s
      else if pc.todo == [] then PageDone(s, p, pc)
      else Put(s.(handed := s.handed + {pc.todo[0]}), p, pc.(todo := pc.todo[1..]))
    case Write(p, ok, ready) => Written(s, p, ProcOf(s, p), ok, ready)
    case Create(p, stop, created) =>
      var pc := ProcOf(s, p);
      if !pc.Subscribing? then s
      else if stop then Put(s, p, Idle)
      else Put(s, p, Creating(Row(created, CarriedLink(pc.before))))
  }

  function Exec(s: State, run: seq<Action>): State {
    if run == [] then s else Step(Exec(s, run[..|run| - 1]), run[|run| - 1])
  }

  function Init(): State { State([], {}, NoRow, map[], []) }

  // ---------- cursor safety ----------

  /** Everything the parser could read before the link has been handed to delivery. */
  ghost predicate Covered(s: State, link: Link) {
    && Start(link) <= |s.log|
    && forall i :: 0 <= i < Start(link) && s.log[i].Message? ==> i in s.handed
  }

  /** What each program point of a goroutine knows about the links it holds. */
  ghost predicate Holds(s: State, pc: Proc) {
    match pc
    case Fetching(walk, url, pages) =>
      HoldsWalk(s, walk) && Covered(s, url) && pages <= MAX_DELTA_PAGES
    case Handing(walk, url, pages, todo, next, delta) =>
      && HoldsWalk(s, walk) && pages <= MAX_DELTA_PAGES
      && (todo == [] ==> Covered(s, next) && Covered(s, delta))
      && exists upto :: PageHeld(s, todo, next, delta, upto)
    case Loading(delta) => Covered(s, delta)
    case Saving(copy) => Covered(s, copy.link)
    case Clearing(copy) => Covered(s, copy.link)
    case Subscribing(before) => Covered(s, CarriedLink(before))
    case Renewing(copy) => Covered(s, copy.link)
    case Creating(copy) => Covered(s, copy.link)
    case _ => true
  }

  ghost predicate HoldsWalk(s: State, walk: Walk) {
    walk.Reconcile? ==> Covered(s, walk.copy.link)
  }

  /** Up to `upto` only the messages still to hand over are missing. */
  ghost predicate PageHeld(s: State, todo: seq<nat>, next: Link, delta: Link, upto: nat) {
    && upto <= |s.log| && Start(next) <= upto && Start(delta) <= upto
    && forall i :: 0 <= i < upto && s.log[i].Message? ==> i in s.handed || i in todo
  }

  ghost predicate Safe(s: State) {
    && Covered(s, CarriedLink(s.stored))
    && (forall p :: p in s.procs ==> Holds(s, s.procs[p]))
    && (forall n :: 0 <= n < |s.walks| ==> s.walks[n] <= MAX_DELTA_PAGES)
  }

  ghost predicate Extends(s: State, t: State) {
    s.log <= t.log && s.handed <= t.handed
  }

  lemma HoldsGrows(s: State, t: State, pc: Proc)
    requires Extends(s, t) && Holds(s, pc)
    ensures Holds(t, pc)
  {
    if pc.Handing? {
      var upto :| PageHeld(s, pc.todo, pc.next, pc.delta, upto);
      assert PageHeld(t, pc.todo, pc.next, pc.delta, upto);
    }
  }

  /** Every step keeps the log and the handed set growing, and touches one goroutine. */
  /** From `s` to `t` only goroutine `p` moved, if any. */
  ghost predicate Alone(s: State, t: State, p: nat) {
    Extends(s, t) && forall q :: q in t.procs && q != p ==> q in s.procs && t.procs[q] == s.procs[q]
  }

  lemma ReadsAreAlone(s: State, p: nat, pc: Proc, reply: Reply)
    ensures pc.Fetching? ==> Alone(s, Fetched(s, p, pc, reply), p)
    ensures pc.Handing? && pc.todo == [] ==> Alone(s, PageDone(s, p, pc), p)
  {
    hide Parsed, Obeys;
  }

  lemma StoreIsAlone(s: State, p: nat, pc: Proc, ok: bool, ready: bool)
    ensures Alone(s, Loaded(s, p, pc, ok, ready), p) && Alone(s, Written(s, p, pc, ok, ready), p)
  {
  }

  lemma StepExtends(s: State, a: Action)
    ensures Extends(s, Step(s, a))
    ensures forall p :: p in Step(s, a).procs && (a.Grow? || p != a.p) ==>
      p in s.procs && Step(s, a).procs[p] == s.procs[p]
  {
    hide Fetched, PageDone, Loaded, Written;
    match a
    case Fetch(p, reply) => ReadsAreAlone(s, p, ProcOf(s, p), reply);
    case HandOver(p) => ReadsAreAlone(s, p, ProcOf(s, p), Failed);
    case Load(p, ok, ready) => StoreIsAlone(s, p, ProcOf(s, p), ok, ready);
    case Write(p, ok, ready) => StoreIsAlone(s, p, ProcOf(s, p), ok, ready);
    case _ =>
  }

  predicate SameWorld(s: State, t: State) { s.log == t.log && s.handed == t.handed }

  lemma FetchHolds(s: State, p: nat, pc: Proc, reply: Reply)
    requires pc.Fetching? && Holds(s, pc)
    ensures Fetched(s, p, pc, reply) == s || Holds(s, ProcOf(Fetched(s, p, pc, reply), p))
    ensures SameWorld(s, Fetched(s, p, pc, reply)) && Fetched(s, p, pc, reply).stored == s.stored
  {
    if pc.pages < MAX_DELTA_PAGES && Obeys(s.log, pc.url, reply) && reply.Page? {
      assert PageHeld(s, Parsed(s.log, Start(pc.url), reply.upto), reply.next, reply.delta, reply.upto);
    }
  }

  lemma HandOverHolds(s: State, p: nat, pc: Proc)
    requires pc.Handing? && Holds(s, pc)
    ensures pc.todo == [] ==> Holds(s, ProcOf(PageDone(s, p, pc), p))
    ensures SameWorld(s, PageDone(s, p, pc)) && PageDone(s, p, pc).stored == s.stored
    ensures pc.todo != [] ==> Holds(s.(handed := s.handed + {pc.todo[0]}), pc.(todo := pc.todo[1..]))
  {
    if pc.todo != [] {
      var upto :| PageHeld(s, pc.todo, pc.next, pc.delta, upto);
      assert pc.todo == [pc.todo[0]] + pc.todo[1..];
      assert PageHeld(s.(handed := s.handed + {pc.todo[0]}), pc.todo[1..], pc.next, pc.delta, upto);
    }
  }

  lemma LoadHolds(s: State, p: nat, pc: Proc, ok: bool, ready: bool)
    requires Holds(s, pc) && Covered(s, CarriedLink(s.stored))
    ensures Loaded(s, p, pc, ok, ready) == s || Holds(s, ProcOf(Loaded(s, p, pc, ok, ready), p))
    ensures SameWorld(s, Loaded(s, p, pc, ok, ready)) && Loaded(s, p, pc, ok, ready).stored == s.stored
  {
  }

  lemma WriteHolds(s: State, p: nat, pc: Proc, ok: bool, ready: bool)
    requires Holds(s, pc) && Covered(s, CarriedLink(s.stored))
    ensures Written(s, p, pc, ok, ready) == s || Holds(s, ProcOf(Written(s, p, pc, ok, ready), p))
    ensures SameWorld(s, Written(s, p, pc, ok, ready))
    ensures Covered(s, CarriedLink(Written(s, p, pc, ok, ready).stored))
  {
  }

  /** `Holds` looks at the log and the handed set only. */
  lemma HoldsSame(s: State, t: State, pc: Proc)
    requires SameWorld(s, t)
    ensures Holds(s, pc) <==> Holds(t, pc)
  {
    if Holds(s, pc) { HoldsGrows(s, t, pc); }
    if Holds(t, pc) { HoldsGrows(t, s, pc); }
  }

  /** What the acting goroutine knows after its step. */
  lemma ActorHolds(s: State, a: Action)
    requires Safe(s) && !a.Grow?
    ensures Holds(Step(s, a), ProcOf(Step(s, a), a.p))
    ensures Covered(Step(s, a), CarriedLink(Step(s, a).stored))
  {
    hide Fetched, PageDone, Loaded, Written;
    var pc, t := ProcOf(s, a.p), Step(s, a);
    assert Holds(s, pc);
    match a {
      case Load(p, ok, ready) => LoadHolds(s, p, pc, ok, ready);
      case Write(p, ok, ready) => WriteHolds(s, p, pc, ok, ready);
      case Fetch(p, reply) => if pc.Fetching? { FetchHolds(s, p, pc, reply); }
      case HandOver(p) => if pc.Handing? { HandOverHolds(s, p, pc); }
      case _ =>
    }
    hide Holds;
    if a.HandOver? && pc.Handing? && pc.todo != [] {
      HoldsSame(s.(handed := s.handed + {pc.todo[0]}), t, ProcOf(t, a.p));
    } else {
      HoldsSame(s, t, ProcOf(t, a.p));
    }
  }

  lemma StepIsSafe(s: State, a: Action)
    requires Safe(s)
    ensures Safe(Step(s, a))
  {
    var t := Step(s, a);
    StepExtends(s, a);
    if !a.Grow? { ActorHolds(s, a); }
    forall p | p in t.procs ensures Holds(t, t.procs[p]) {
      if a.Grow? || p != a.p { HoldsGrows(s, t, s.procs[p]); }
    }
    WalksStayBounded(s, a);
  }

  lemma WalksStayBounded(s: State, a: Action)
    requires Safe(s)
    ensures forall n :: 0 <= n < |Step(s, a).walks| ==> Step(s, a).walks[n] <= MAX_DELTA_PAGES
  {
    if !a.Grow? { assert Holds(s, ProcOf(s, a.p)); }
  }

  /** Cursor safety: after any interleaving, with any server, page errors and database errors
      anywhere, the stored link is empty or names a position before which every readable change
      was handed to delivery - also when a stale row is written back - and no walk ever fetched
      more than a thousand pages. */
  lemma {:induction false} CursorSafety(run: seq<Action>)
    ensures var s := Exec(Init(), run);
      && Covered(s, CarriedLink(s.stored))
      && forall n :: 0 <= n < |s.walks| ==> s.walks[n] <= MAX_DELTA_PAGES
    ensures Safe(Exec(Init(), run))
    decreases |run|
  {
    if run != [] {
      CursorSafety(run[..|run| - 1]);
      StepIsSafe(Exec(Init(), run[..|run| - 1]), run[|run| - 1]);
    }
  }

  // ---------- what the whole-row write does lose ----------

  lemma {:induction false} ExecConcat(s: State, a: seq<Action>, b: seq<Action>)
    ensures Exec(s, a + b) == Exec(Exec(s, a), b)
    decreases |b|
  {
    if b == [] {
      assert a + b == a;
    } else {
      assert (a + b)[..|a + b| - 1] == a + b[..|b| - 1];
      ExecConcat(s, a, b[..|b| - 1]);
    }
  }

  lemma ExecSnoc(s: State, run: seq<Action>, a: Action)
    ensures Exec(s, run + [a]) == Step(Exec(s, run), a)
  {
    assert (run + [a])[..|run|] == run;
  }

  /** From every safe state with a stored link and two idle goroutines, a reconcile that loaded
      the row before a renewal and saves after it puts the old expiry back. */
  lemma RenewalCanBeLost(s: State, newExpiry: int) returns (renewed: seq<Action>, lost: seq<Action>)
    requires Safe(s) && s.stored.Stored? && s.stored.row.link.At?
    requires ProcOf(s, 1).Idle? && ProcOf(s, 2).Idle?
    ensures Exec(s, renewed).stored == Stored(s.stored.row.(sub := s.stored.row.sub.(expiry := newExpiry)))
    ensures renewed <= lost && Exec(s, lost).stored == s.stored
  {
    var row := s.stored.row;
    var at := row.link;
    var s2, run2 := Opening(s);
    var s3, a3 := Step(s2, StartRenew(2, newExpiry)), run2 + [StartRenew(2, newExpiry)];
    var s4, a4 := Step(s3, Load(2, true, true)), a3 + [Load(2, true, true)];
    renewed := a4 + [Write(2, true, true)];
    ExecSnoc(s, run2, StartRenew(2, newExpiry));
    ExecSnoc(s, a3, Load(2, true, true));
    ExecSnoc(s, a4, Write(2, true, true));
    var s5 := Step(s4, Write(2, true, true));
    assert ProcOf(s5, 1) == Fetching(Reconcile(row), at, 0) && s5.log == s.log;
    lost := Closing(s, s5, renewed, row);
  }

  lemma Opening(s: State) returns (t: State, run: seq<Action>)
    requires s.stored.Stored? && s.stored.row.link.At? && ProcOf(s, 1).Idle? && ProcOf(s, 2).Idle?
    ensures t == Exec(s, run) && t.log == s.log && t.stored == s.stored
    ensures ProcOf(t, 1) == Fetching(Reconcile(s.stored.row), s.stored.row.link, 0) && ProcOf(t, 2).Idle?
  {
    hide Exec;
    var t1 := Step(s, StartReconcile(1));
    assert ProcOf(t1, 1) == AtReconcile && t1.stored == s.stored;
    t := Step(t1, Load(1, true, true));
    run := [] + [StartReconcile(1)] + [Load(1, true, true)];
    ExecNone(s);
    ExecSnoc(s, [], StartReconcile(1));
    ExecSnoc(s, [] + [StartReconcile(1)], Load(1, true, true));
  }

  lemma ExecNone(s: State)
    ensures Exec(s, []) == s
  {
  }

  /** The reconcile finds nothing new and saves its copy. */
  lemma Closing(s: State, t: State, run: seq<Action>, row: Row) returns (whole: seq<Action>)
    requires t == Exec(s, run) && row.link.At? && row.link.pos <= |t.log|
    requires ProcOf(t, 1) == Fetching(Reconcile(row), row.link, 0)
    ensures run <= whole && Exec(s, whole).stored == Stored(row)
  {
    var fetch := Fetch(1, Page(row.link.pos, Empty, row.link));
    assert Parsed(t.log, row.link.pos, row.link.pos) == [];
    var t1 := Step(t, fetch);
    assert ProcOf(t1, 1) == Handing(Reconcile(row), row.link, 1, [], Empty, row.link);
    var t2 := Step(t1, HandOver(1));
    assert ProcOf(t2, 1) == Saving(row);
    ExecSnoc(s, run, fetch);
    ExecSnoc(s, run + [fetch], HandOver(1));
    ExecSnoc(s, run + [fetch] + [HandOver(1)], Write(1, true, true));
    whole := run + [fetch] + [HandOver(1)] + [Write(1, true, true)];
  }

  /** Such a state is reached from the start: the first subscription, then a backfill of an empty
      mailbox; and from there a renewal is stored and undone. */
  lemma RenewalIsLostFromStart(sub: Subscription, newExpiry: int) returns (renewed: seq<Action>, lost: seq<Action>)
    ensures Exec(Init(), renewed).stored == Stored(Row(sub.(expiry := newExpiry), At(0)))
    ensures renewed <= lost && Exec(Init(), lost).stored == Stored(Row(sub, At(0)))
  {
    var start := FirstRow(sub);
    var s := Exec(Init(), start);
    CursorSafety(start);
    hide Exec;
    var a, b := RenewalCanBeLost(s, newExpiry);
    ExecConcat(Init(), start, a);
    ExecConcat(Init(), start, b);
    renewed, lost := start + a, start + b;
  }

  lemma FirstRow(sub: Subscription) returns (run: seq<Action>)
    ensures var s := Exec(Init(), run);
      s.stored == Stored(Row(sub, At(0))) && ProcOf(s, 1).Idle? && ProcOf(s, 2).Idle?
  {
    run := Subscribed(sub);
    var s := Exec(Init(), run);
    hide Exec;
    var fetch := Fetch(0, Page(0, Empty, At(0)));
    var s1 := Step(s, StartBackfill(0, true));
    var s2 := Step(s1, fetch);
    assert ProcOf(s2, 0) == Handing(Backfill, Empty, 1, [], Empty, At(0));
    var s3 := Step(s2, HandOver(0));
    var s4 := Step(s3, Load(0, true, true));
    ExecSnoc(Init(), run, StartBackfill(0, true)); run := run + [StartBackfill(0, true)];
    ExecSnoc(Init(), run, fetch); run := run + [fetch];
    ExecSnoc(Init(), run, HandOver(0)); run := run + [HandOver(0)];
    ExecSnoc(Init(), run, Load(0, true, true)); run := run + [Load(0, true, true)];
    ExecSnoc(Init(), run, Write(0, true, true)); run := run + [Write(0, true, true)];
  }

  lemma Subscribed(sub: Subscription) returns (run: seq<Action>)
    ensures Exec(Init(), run) == State([], {}, Stored(Row(sub, Empty)), map[0 := Idle], [])
  {
    hide Exec;
    ExecNone(Init());
    run := [];
    ExecSnoc(Init(), run, StartSubscribe(0)); run := run + [StartSubscribe(0)];
    ExecSnoc(Init(), run, Load(0, true, true)); run := run + [Load(0, true, true)];
    ExecSnoc(Init(), run, Create(0, false, sub)); run := run + [Create(0, false, sub)];
    ExecSnoc(Init(), run, Write(0, true, true)); run := run + [Write(0, true, true)];
  }
}
