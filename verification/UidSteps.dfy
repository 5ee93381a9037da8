/** Overlapping checks of one IMAP mailbox (pkg/imap/client.go:984-1173): the last UID is read
    under a lock at the start and written under a lock before processing, but the lock is not held
    in between. */
module UidSteps {
  import opened Common
  import opened UidCursor

  /** Where one check stands. */
  datatype Proc =
    | Idle
    | Baselining                                  // read 0, STATUS sent
    | Searching(last: nat)                        // read `last`, SEARCH sent
    | Writing(uids: seq<nat>)                     // filtered result, about to advance the cursor
    | Working(todo: seq<nat>)                     // between messages
    | Processing(uid: nat, todo: seq<nat>)        // holds `uid` in the in-flight set

  datatype State = State(last: nat, inFlight: set<nat>, procs: map<nat, Proc>, attempted: seq<nat>)

  datatype Action =
    | Read(p: nat)
    | Status(p: nat, uidNext: nat)
    | Search(p: nat, uids: seq<nat>)
    | Fail(p: nat)
    | Write(p: nat)
    | Start(p: nat)
    | End(p: nat)

  function ProcOf(s: State, p: nat): Proc { if p in s.procs then s.procs[p] else Idle }

  function Put(s: State, p: nat, c: Proc): State { s.(procs := s.procs[p := c]) }

  function Step(s: State, a: Action): State {
    match a
    case Read(p) =>
      if ProcOf(s, p) != Idle then s else Put(s, p, if s.last == 0 then Baselining else Searching(s.last))
    case Status(p, uidNext) =>
      if ProcOf(s, p) != Baselining then s else Put(s.(last := BaselineOf(uidNext)), p, Idle)
    case Search(p, uids) =>
      if !ProcOf(s, p).Searching? then s
      else
        var newer := Newer(uids, ProcOf(s, p).last);
        Put(s, p, if newer == [] then Idle else Writing(newer))
    case Fail(p) => if ProcOf(s, p) == Baselining || ProcOf(s, p).Searching? then Put(s, p, Idle) else s
    case Write(p) =>
      if !ProcOf(s, p).Writing? then s
      else
        var uids := ProcOf(s, p).uids;
        Put(s.(last := Highest(uids, 0)), p, Working(uids))
    case Start(p) =>
      if !ProcOf(s, p).Working? then s
      else
        var todo := ProcOf(s, p).todo;
        if todo == [] then Put(s, p, Idle)
        else if todo[0] in s.inFlight then Put(s, p, Working(todo[1..]))
        else
          Put(s.(inFlight := s.inFlight + {todo[0]}, attempted := s.attempted + [todo[0]]), p,
              Processing(todo[0], todo[1..]))
    case End(p) =>
      if !ProcOf(s, p).Processing? then s
      else Put(s.(inFlight := s.inFlight - {ProcOf(s, p).uid}), p, Working(ProcOf(s, p).todo))
  }

  function Exec(s: State, run: seq<Action>): State {
    if run == [] then s else Step(Exec(s, run[..|run| - 1]), run[|run| - 1])
  }

  function Init(last: nat): State { State(last, {}, map[], []) }

  // ---------- every interleaving ----------

  predicate Same(c: Proc, d: Proc) { c.Processing? && d.Processing? && c.uid == d.uid }

  /** The in-flight set holds exactly the UIDs being processed, each by one check. */
  ghost predicate Exclusive(s: State) {
    && (forall p, q :: p in s.procs && q in s.procs && Same(s.procs[p], s.procs[q]) ==> p == q)
    && (forall p :: p in s.procs && s.procs[p].Processing? ==> s.procs[p].uid in s.inFlight)
    && (forall u :: u in s.inFlight ==> exists p :: p in s.procs && s.procs[p].Processing? && s.procs[p].uid == u)
  }

  /** A move that neither starts nor ends processing. */
  lemma MoveKeepsExclusive(s: State, t: State, p: nat)
    requires Exclusive(s) && t.inFlight == s.inFlight && t.procs == s.procs[p := ProcOf(t, p)] && p in t.procs
    requires !ProcOf(s, p).Processing? && !ProcOf(t, p).Processing?
    ensures Exclusive(t)
  {
    forall u | u in t.inFlight ensures exists q :: q in t.procs && t.procs[q].Processing? && t.procs[q].uid == u {
      var q :| q in s.procs && s.procs[q].Processing? && s.procs[q].uid == u;
      assert q in t.procs && t.procs[q] == s.procs[q];
    }
  }

  lemma StartKeepsExclusive(s: State, t: State, p: nat, u: nat)
    requires Exclusive(s) && !ProcOf(s, p).Processing? && u !in s.inFlight
    requires p in t.procs && t.procs == s.procs[p := t.procs[p]] && t.procs[p].Processing? && t.procs[p].uid == u
    requires t.inFlight == s.inFlight + {u}
    ensures Exclusive(t)
  {
    forall v | v in t.inFlight ensures exists q :: q in t.procs && t.procs[q].Processing? && t.procs[q].uid == v {
      if v == u {
        assert t.procs[p].uid == v;
      } else {
        var q :| q in s.procs && s.procs[q].Processing? && s.procs[q].uid == v;
        assert q in t.procs && t.procs[q] == s.procs[q];
      }
    }
  }

  lemma EndKeepsExclusive(s: State, t: State, p: nat)
    requires Exclusive(s) && ProcOf(s, p).Processing?
    requires p in t.procs && t.procs == s.procs[p := t.procs[p]] && !t.procs[p].Processing?
    requires t.inFlight == s.inFlight - {ProcOf(s, p).uid}
    ensures Exclusive(t)
  {
    forall v | v in t.inFlight ensures exists q :: q in t.procs && t.procs[q].Processing? && t.procs[q].uid == v {
      var q :| q in s.procs && s.procs[q].Processing? && s.procs[q].uid == v;
      assert q in t.procs && t.procs[q] == s.procs[q];
    }
  }

  lemma StepKeepsExclusive(s: State, a: Action)
    requires Exclusive(s)
    ensures Exclusive(Step(s, a))
  {
    hide Exclusive, Newer, Highest, BaselineOf;
    var t, p := Step(s, a), a.p;
    if t != s {
      if a.End? {
        EndKeepsExclusive(s, t, p);
      } else if ProcOf(t, p).Processing? {
        StartKeepsExclusive(s, t, p, ProcOf(t, p).uid);
      } else {
        MoveKeepsExclusive(s, t, p);
      }
    }
  }

  /** However many checks overlap, no UID is being processed twice at one moment. */
  lemma {:induction false} NeverTwiceAtOnce(last: nat, run: seq<Action>)
    ensures Exclusive(Exec(Init(last), run))
    ensures var s := Exec(Init(last), run); forall p, q :: Same(ProcOf(s, p), ProcOf(s, q)) ==> p == q
    decreases |run|
  {
    if run != [] {
      NeverTwiceAtOnce(last, run[..|run| - 1]);
      StepKeepsExclusive(Exec(Init(last), run[..|run| - 1]), run[|run| - 1]);
    }
  }

  // ---------- checks that take turns ----------

  /** Between reading the cursor and writing it. */
  predicate InSection(c: Proc) { c.Baselining? || c.Searching? || c.Writing? }

  function Todo(c: Proc): seq<nat> { if c.Working? || c.Processing? then c.todo else [] }

  /** No check reads the cursor while another one is between its read and its write, and server
      replies are well formed. */
  ghost predicate Serial(last: nat, run: seq<Action>) {
    forall i :: 0 <= i < |run| ==> Polite(Exec(Init(last), run[..i]), run[i])
  }

  ghost predicate Polite(s: State, a: Action) {
    && (a.Read? ==> forall q :: q in s.procs ==> !InSection(s.procs[q]))
    && (a.Search? ==> Distinct(a.uids))
    && (a.Status? ==> 1 <= a.uidNext < UID_RANGE)
  }

  ghost predicate ProcOk(last: nat, attempted: seq<nat>, c: Proc) {
    match c
    case Idle => true
    case Baselining => last == 0
    case Searching(l) => l == last
    case Writing(uids) => uids != [] && Distinct(uids) && forall u :: u in uids ==> u > last
    case Working(todo) => TodoOk(last, attempted, todo)
    case Processing(_, todo) => TodoOk(last, attempted, todo)
  }

  ghost predicate TodoOk(last: nat, attempted: seq<nat>, todo: seq<nat>) {
    Distinct(todo) && forall u :: u in todo ==> u <= last && u !in attempted
  }

  ghost predicate Apart(c: Proc, d: Proc) {
    !(InSection(c) && InSection(d)) && forall u :: u in Todo(c) ==> u !in Todo(d)
  }

  ghost predicate AllOk(s: State) { forall p :: p in s.procs ==> ProcOk(s.last, s.attempted, s.procs[p]) }

  ghost predicate AllApart(s: State) {
    forall p, q :: p in s.procs && q in s.procs && p != q ==> Apart(s.procs[p], s.procs[q])
  }

  ghost predicate Orderly(s: State) {
    && Distinct(s.attempted) && (forall u :: u in s.attempted ==> u <= s.last)
    && AllOk(s) && AllApart(s)
  }

  predicate Shrinks(c: Proc, d: Proc) {
    (InSection(d) ==> InSection(c)) && forall u :: u in Todo(d) ==> u in Todo(c)
  }

  lemma ShrinkKeepsApart(s: State, p: nat, d: Proc)
    requires AllApart(s) && Shrinks(ProcOf(s, p), d)
    ensures AllApart(Put(s, p, d))
  {
  }

  lemma MoveKeepsOrder(s: State, p: nat, d: Proc)
    requires Orderly(s) && Shrinks(ProcOf(s, p), d) && ProcOk(s.last, s.attempted, d)
    ensures Orderly(Put(s, p, d))
  {
    ShrinkKeepsApart(s, p, d);
  }

  lemma ReadKeepsOrder(s: State, p: nat)
    requires Orderly(s) && Polite(s, Read(p))
    ensures Orderly(Step(s, Read(p)))
  {
  }

  lemma OkAt(s: State, p: nat)
    requires Orderly(s)
    ensures ProcOk(s.last, s.attempted, ProcOf(s, p))
  {
  }

  lemma SearchKeepsOrder(s: State, p: nat, uids: seq<nat>)
    requires Orderly(s) && Distinct(uids)
    ensures Orderly(Step(s, Search(p, uids)))
  {
    OkAt(s, p);
    if ProcOf(s, p).Searching? {
      NewerMeans(uids, s.last);
      MoveKeepsOrder(s, p, ProcOf(Step(s, Search(p, uids)), p));
    }
  }

  /** Advancing the cursor: nobody else is between a read and a write. */
  lemma AdvanceKeepsOrder(s: State, p: nat, last: nat, d: Proc)
    requires Orderly(s) && InSection(ProcOf(s, p)) && last >= s.last
    requires !InSection(d) && ProcOk(last, s.attempted, d)
    requires forall u :: u in Todo(d) ==> u > s.last
    ensures Orderly(Put(s.(last := last), p, d))
  {
    var t := Put(s.(last := last), p, d);
    forall q | q in t.procs ensures ProcOk(t.last, t.attempted, t.procs[q]) {
      if q != p {
        assert Apart(s.procs[p], s.procs[q]) && ProcOk(s.last, s.attempted, s.procs[q]);
      }
    }
    forall q, r | q in t.procs && r in t.procs && q != r ensures Apart(t.procs[q], t.procs[r]) {
      if q == p {
        assert ProcOk(s.last, s.attempted, s.procs[r]);
      } else if r == p {
        assert ProcOk(s.last, s.attempted, s.procs[q]);
      } else {
        assert Apart(s.procs[q], s.procs[r]);
      }
    }
  }

  lemma WriteKeepsOrder(s: State, p: nat)
    requires Orderly(s)
    ensures Orderly(Step(s, Write(p))) && Step(s, Write(p)).last >= s.last
  {
    OkAt(s, p);
    if ProcOf(s, p).Writing? {
      var uids := ProcOf(s, p).uids;
      HighestMeans(uids, 0);
      assert uids[0] in uids;
      forall u | u in uids ensures u !in s.attempted { }
      AdvanceKeepsOrder(s, p, Highest(uids, 0), Working(uids));
    }
  }

  lemma StatusKeepsOrder(s: State, p: nat, uidNext: nat)
    requires Orderly(s) && 1 <= uidNext < UID_RANGE
    ensures Orderly(Step(s, Status(p, uidNext))) && Step(s, Status(p, uidNext)).last >= s.last
  {
    OkAt(s, p);
    if ProcOf(s, p) == Baselining {
      AdvanceKeepsOrder(s, p, BaselineOf(uidNext), Idle);
    }
  }

  lemma AttemptKeepsOrder(s: State, p: nat)
    requires Orderly(s) && ProcOf(s, p).Working? && ProcOf(s, p).todo != []
    ensures var todo := ProcOf(s, p).todo;
      Orderly(Put(s.(inFlight := s.inFlight + {todo[0]}, attempted := s.attempted + [todo[0]]), p,
                  Processing(todo[0], todo[1..])))
  {
    var todo := ProcOf(s, p).todo;
    var u := todo[0];
    var t := Put(s.(inFlight := s.inFlight + {u}, attempted := s.attempted + [u]), p, Processing(u, todo[1..]));
    OkAt(s, p);
    DistinctTail(todo);
    assert u in todo && u !in todo[1..];
    assert forall x :: x in todo[1..] ==> x in todo;
    DistinctConcat(s.attempted, [u]);
    assert Shrinks(ProcOf(s, p), Processing(u, todo[1..]));
    ShrinkKeepsApart(s, p, Processing(u, todo[1..]));
    forall q | q in t.procs ensures ProcOk(t.last, t.attempted, t.procs[q]) {
      if q != p {
        assert Apart(s.procs[p], s.procs[q]) && ProcOk(s.last, s.attempted, s.procs[q]);
        assert u in Todo(s.procs[p]) && u !in Todo(s.procs[q]);
      }
    }
  }

  lemma StartKeepsOrder(s: State, p: nat)
    requires Orderly(s)
    ensures Orderly(Step(s, Start(p)))
  {
    OkAt(s, p);
    if ProcOf(s, p).Working? {
      var todo := ProcOf(s, p).todo;
      if todo == [] {
        MoveKeepsOrder(s, p, Idle);
      } else if todo[0] in s.inFlight {
        DistinctTail(todo);
        assert forall u :: u in todo[1..] ==> u in todo;
        MoveKeepsOrder(s, p, Working(todo[1..]));
      } else {
        AttemptKeepsOrder(s, p);
      }
    }
  }

  lemma EndKeepsOrder(s: State, p: nat)
    requires Orderly(s)
    ensures Orderly(Step(s, End(p)))
  {
    OkAt(s, p);
    if ProcOf(s, p).Processing? {
      MoveKeepsOrder(s, p, Working(ProcOf(s, p).todo));
    }
  }

  lemma StepKeepsOrder(s: State, a: Action)
    requires Orderly(s) && Polite(s, a)
    ensures Orderly(Step(s, a)) && Step(s, a).last >= s.last
  {
    hide Orderly, Highest, Newer, BaselineOf;
    match a
    case Read(p) => ReadKeepsOrder(s, p);
    case Status(p, n) => StatusKeepsOrder(s, p, n);
    case Search(p, uids) => SearchKeepsOrder(s, p, uids);
    case Fail(p) => FailKeepsOrder(s, p);
    case Write(p) => WriteKeepsOrder(s, p);
    case Start(p) => StartKeepsOrder(s, p);
    case End(p) => EndKeepsOrder(s, p);
  }

  lemma FailKeepsOrder(s: State, p: nat)
    requires Orderly(s)
    ensures Orderly(Step(s, Fail(p)))
  {
    if ProcOf(s, p) == Baselining || ProcOf(s, p).Searching? { MoveKeepsOrder(s, p, Idle); }
  }

  /** When read-to-write sections do not overlap, processing may overlap as it likes: no UID is
      attempted twice over the whole run, and the cursor never moves back. */
  lemma {:induction false} TurnsAttemptOnce(last: nat, run: seq<Action>)
    requires Serial(last, run)
    ensures Distinct(Exec(Init(last), run).attempted)
    ensures forall n :: 0 <= n <= |run| ==> Exec(Init(last), run[..n]).last <= Exec(Init(last), run).last
    ensures Orderly(Exec(Init(last), run))
    decreases |run|
  {
    if run == [] {
      assert run[..0] == run;
    } else {
      hide Exec, Step, Orderly, Polite, Serial;
      var m := |run| - 1;
      var front := run[..m];
      assert run == front + [run[m]];
      ExecStep(Init(last), front, run[m]);
      SerialFront(last, run);
      TurnsAttemptOnce(last, front);
      StepKeepsOrder(Exec(Init(last), front), run[m]);
      OrderlyIsDistinct(Exec(Init(last), run));
      forall n | 0 <= n <= |run| ensures Exec(Init(last), run[..n]).last <= Exec(Init(last), run).last {
        if n == |run| { assert run[..n] == run; } else { assert run[..n] == front[..n]; }
      }
    }
  }

  lemma SerialFront(last: nat, run: seq<Action>)
    requires Serial(last, run) && run != []
    ensures var m := |run| - 1; Serial(last, run[..m]) && Polite(Exec(Init(last), run[..m]), run[m])
  {
    hide Exec, Polite;
    var front := run[..|run| - 1];
    forall i | 0 <= i < |front| ensures Polite(Exec(Init(last), front[..i]), front[i]) {
      assert front[..i] == run[..i];
    }
  }

  lemma OrderlyIsDistinct(s: State)
    requires Orderly(s)
    ensures Distinct(s.attempted)
  {
  }

  // ---------- and checks that do not ----------

  lemma ExecStep(s: State, run: seq<Action>, a: Action)
    ensures Exec(s, run + [a]) == Step(Exec(s, run), a)
  {
    assert (run + [a])[..|run|] == run;
  }

  /** The steps that work through a to-do list. */
  function WorkOff(p: nat, n: nat): seq<Action> {
    if n == 0 then [] else [Start(p), End(p)] + WorkOff(p, n - 1)
  }

  lemma {:induction false} ExecConcat(s: State, a: seq<Action>, b: seq<Action>)
    ensures Exec(s, a + b) == Exec(Exec(s, a), b)
    decreases |b|
  {
    if b == [] {
      assert a + b == a;
    } else {
      assert (a + b)[..|a + b| - 1] == a + b[..|b| - 1];
      ExecConcat(s, a, b[..|b| - 1]);
    }
  }

  lemma ExecNone(s: State)
    ensures Exec(s, []) == s
  {
  }

  /** One message, started and ended. */
  lemma OneOff(s: State, p: nat)
    requires ProcOf(s, p).Working? && s.inFlight == {} && ProcOf(s, p).todo != []
    ensures var todo := ProcOf(s, p).todo;
      Exec(s, [Start(p), End(p)]) == State(s.last, {}, s.procs[p := Working(todo[1..])], s.attempted + [todo[0]])
  {
    hide Exec;
    ExecNone(s);
    ExecStep(s, [], Start(p));
    ExecStep(s, [Start(p)], End(p));
    assert [] + [Start(p)] == [Start(p)] && [Start(p)] + [End(p)] == [Start(p), End(p)];
  }

  /** With nothing else in flight, working off a list attempts all of it, in order. */
  lemma {:induction false} WorksOff(s: State, p: nat)
    requires ProcOf(s, p).Working? && s.inFlight == {}
    ensures var todo := ProcOf(s, p).todo;
      Exec(s, WorkOff(p, |todo|)) == State(s.last, {}, s.procs[p := Working([])], s.attempted + todo)
    decreases |ProcOf(s, p).todo|
  {
    var todo := ProcOf(s, p).todo;
    hide Exec, Step, WorkOff;
    NoWork(p);
    if todo == [] {
      ExecNone(s);
      assert s.attempted + todo == s.attempted;
      assert s.procs[p := Working([])] == s.procs;
    } else {
      var t := Exec(s, [Start(p), End(p)]);
      OneOff(s, p);
      ExecConcat(s, [Start(p), End(p)], WorkOff(p, |todo| - 1));
      WorksOff(t, p);
      MoreWork(p, |todo|);
      Onward(s, p);
    }
  }

  lemma NoWork(p: nat)
    ensures WorkOff(p, 0) == []
  {
  }

  lemma MoreWork(p: nat, n: nat)
    requires n > 0
    ensures WorkOff(p, n) == [Start(p), End(p)] + WorkOff(p, n - 1)
  {
  }

  lemma Onward(s: State, p: nat)
    requires ProcOf(s, p).Working? && ProcOf(s, p).todo != []
    ensures var todo := ProcOf(s, p).todo;
      && (s.attempted + [todo[0]]) + todo[1..] == s.attempted + todo
      && s.procs[p := Working(todo[1..])][p := Working([])] == s.procs[p := Working([])]
  {
  }

  /** Two checks that both read the cursor before either writes it; the first is done with its
      messages before the second writes. */
  function Overlap(first: seq<nat>, second: seq<nat>, last: nat): seq<Action> {
    [Read(0), Read(1), Search(0, first), Search(1, second), Write(0)] + WorkOff(0, |Newer(first, last)|)
    + ([Write(1)] + WorkOff(1, |Newer(second, last)|))
  }

  /** Such a pair attempts some message twice exactly when both replies name it, and leaves the
      cursor at the newest message of the second reply even when the first one named a newer. */
  lemma DoneFirstRepeatsIff(last: nat, first: seq<nat>, second: seq<nat>)
    requires last >= 1 && Distinct(first) && Distinct(second)
    requires Newer(first, last) != [] && Newer(second, last) != []
    ensures var s := Exec(Init(last), Overlap(first, second, last));
      && s.attempted == Newer(first, last) + Newer(second, last)
      && (Distinct(s.attempted) <==> forall u :: u in first && u in second ==> u <= last)
      && s.last == Highest(Newer(second, last), 0)
  {
    var a, b := Newer(first, last), Newer(second, last);
    var head := [Read(0), Read(1), Search(0, first), Search(1, second), Write(0)];
    OverlapHead(last, first, second);
    var s1 := Exec(Init(last), head);
    WorksOff(s1, 0);
    var s2 := Exec(s1, WorkOff(0, |a|));
    var s3 := Step(s2, Write(1));
    WorksOff(s3, 1);
    ExecStep(s2, [], Write(1));
    assert [] + [Write(1)] == [Write(1)];
    ExecConcat(s2, [Write(1)], WorkOff(1, |b|));
    ExecConcat(Init(last), head, WorkOff(0, |a|));
    ExecConcat(Init(last), head + WorkOff(0, |a|), [Write(1)] + WorkOff(1, |b|));
    assert [] + a == a;
    SharedIff(first, second, last);
  }

  lemma OverlapHead(last: nat, first: seq<nat>, second: seq<nat>)
    requires last >= 1 && Newer(first, last) != [] && Newer(second, last) != []
    ensures Exec(Init(last), [Read(0), Read(1), Search(0, first), Search(1, second), Write(0)]) ==
            State(Highest(Newer(first, last), 0), {},
                  map[0 := Working(Newer(first, last)), 1 := Writing(Newer(second, last))], [])
  {
    hide Newer, Highest;
    var s := Init(last);
    var run: seq<Action> := [];
    ExecStep(s, run, Read(0)); run := run + [Read(0)];
    ExecStep(s, run, Read(1)); run := run + [Read(1)];
    ExecStep(s, run, Search(0, first)); run := run + [Search(0, first)];
    ExecStep(s, run, Search(1, second)); run := run + [Search(1, second)];
    ExecStep(s, run, Write(0)); run := run + [Write(0)];
    assert run == [Read(0), Read(1), Search(0, first), Search(1, second), Write(0)];
  }

  lemma SharedIff(first: seq<nat>, second: seq<nat>, last: nat)
    requires Distinct(first) && Distinct(second)
    ensures Distinct(Newer(first, last) + Newer(second, last)) <==> forall u :: u in first && u in second ==> u <= last
  {
    hide Newer, Distinct;
    NewerMeans(first, last);
    NewerMeans(second, last);
    DistinctIff(Newer(first, last), Newer(second, last));
  }

  lemma DistinctIff(a: seq<nat>, b: seq<nat>)
    requires Distinct(a) && Distinct(b)
    ensures Distinct(a + b) <==> forall u :: u in a ==> u !in b
  {
    if forall u :: u in a ==> u !in b {
      DistinctConcat(a, b);
    } else {
      var u :| u in a && u in b;
      var i :| 0 <= i < |a| && a[i] == u;
      var j :| 0 <= j < |b| && b[j] == u;
      assert (a + b)[i] == (a + b)[|a| + j];
    }
  }
}
