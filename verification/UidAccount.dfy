/** What overlapping checks of an IMAP mailbox attempt, exactly (pkg/imap/client.go:1126-1164):
    an account of every UID that a check has put on its list. */
module UidAccount {
  import opened Common
  import opened UidCursor
  import opened UidSteps

  ghost function Count(s: seq<nat>, u: nat): nat { multiset(s)[u] }

  /** How often a step puts `u` on a list: the write that advances the cursor names it. */
  ghost function NamedBy(s: State, a: Action, u: nat): nat {
    if a.Write? && ProcOf(s, a.p).Writing? then Count(ProcOf(s, a.p).uids, u) else 0
  }

  /** Does a step take `u` off a list without attempting it, because another check has it in
      flight? */
  ghost function MetBy(s: State, a: Action, u: nat): nat {
    if a.Start? && ProcOf(s, a.p).Working? && ProcOf(s, a.p).todo != [] && ProcOf(s, a.p).todo[0] in s.inFlight
       && ProcOf(s, a.p).todo[0] == u
    then 1 else 0
  }

  /** How often the writes of a run name `u`. */
  ghost function Named(last: nat, run: seq<Action>, u: nat): nat {
    if run == [] then 0
    else
      var front := run[..|run| - 1];
      Named(last, front, u) + NamedBy(Exec(Init(last), front), run[|run| - 1], u)
  }

  /** How often a check comes to `u` while another one has it in flight. */
  ghost function Met(last: nat, run: seq<Action>, u: nat): nat {
    if run == [] then 0
    else
      var front := run[..|run| - 1];
      Met(last, front, u) + MetBy(Exec(Init(last), front), run[|run| - 1], u)
  }

  function At(procs: map<nat, Proc>, p: nat): Proc { if p in procs then procs[p] else Idle }

  /** How often `u` is still on the lists of the checks numbered below `n`. */
  ghost function Left(procs: map<nat, Proc>, n: nat, u: nat): nat {
    if n == 0 then 0 else Left(procs, n - 1, u) + Count(Todo(At(procs, n - 1)), u)
  }

  ghost predicate Below(procs: map<nat, Proc>, n: nat) { forall p :: p in procs ==> p < n }

  lemma {:induction false} LeftPut(procs: map<nat, Proc>, p: nat, c: Proc, n: nat, u: nat)
    ensures p >= n ==> Left(procs[p := c], n, u) == Left(procs, n, u)
    ensures p < n ==>
      Left(procs[p := c], n, u) + Count(Todo(At(procs, p)), u) == Left(procs, n, u) + Count(Todo(c), u)
  {
    hide Count, Todo;
    if n > 0 { LeftPut(procs, p, c, n - 1, u); }
  }

  /** What a step changes belongs to the acting check. */
  lemma OnePlaceChanges(s: State, a: Action)
    ensures Step(s, a) == s || Step(s, a).procs == s.procs[a.p := ProcOf(Step(s, a), a.p)]
  {
    hide Newer, Highest, BaselineOf;
  }

  /** One step: a UID newly on a list is attempted, met in flight, or left. */
  lemma StepIsAccounted(s: State, a: Action, n: nat, u: nat)
    requires Below(Step(s, a).procs, n)
    ensures Below(s.procs, n)
    ensures Count(Step(s, a).attempted, u) + MetBy(s, a, u) + Left(Step(s, a).procs, n, u) ==
            Count(s.attempted, u) + Left(s.procs, n, u) + NamedBy(s, a, u)
  {
    OnePlaceChanges(s, a);
    TodoStep(s, a, u);
    if Step(s, a) != s {
      assert a.p in Step(s, a).procs;
      assert forall q :: q in s.procs ==> q in Step(s, a).procs;
      hide Step, Left, Count, MetBy, NamedBy, Todo;
      LeftPut(s.procs, a.p, ProcOf(Step(s, a), a.p), n, u);
    }
  }

  /** The same for the acting check's own list. */
  lemma TodoStep(s: State, a: Action, u: nat)
    ensures Count(Step(s, a).attempted, u) + MetBy(s, a, u) + Count(Todo(ProcOf(Step(s, a), a.p)), u) ==
            Count(s.attempted, u) + Count(Todo(ProcOf(s, a.p)), u) + NamedBy(s, a, u)
  {
    hide Newer, Highest, BaselineOf;
    var pc := ProcOf(s, a.p);
    if a.Start? && pc.Working? && pc.todo != [] {
      assert pc.todo == [pc.todo[0]] + pc.todo[1..];
    }
  }

  /** Over every run of any number of overlapping checks: the writes that name a UID are as many
      as its attempts, plus the turns that met it in flight, plus the lists that still hold it. */
  lemma {:induction false} UidsAreAccounted(last: nat, run: seq<Action>, n: nat, u: nat)
    requires Below(Exec(Init(last), run).procs, n)
    ensures var s := Exec(Init(last), run);
      Count(s.attempted, u) + Met(last, run, u) + Left(s.procs, n, u) == Named(last, run, u)
    decreases |run|
  {
    if run == [] {
      NothingLeft(map[], n, u);
    } else {
      hide Step, Left, NamedBy, MetBy, Count, Below;
      var front, a := run[..|run| - 1], run[|run| - 1];
      StepIsAccounted(Exec(Init(last), front), a, n, u);
      UidsAreAccounted(last, front, n, u);
    }
  }

  ghost predicate Quiet(s: State) { forall p :: p in s.procs ==> Todo(s.procs[p]) == [] }

  lemma {:induction false} NothingLeft(procs: map<nat, Proc>, n: nat, u: nat)
    requires forall p :: p in procs ==> Todo(procs[p]) == []
    ensures Left(procs, n, u) == 0
  {
    if n > 0 { NothingLeft(procs, n - 1, u); }
  }

  lemma Bound(keys: set<nat>) returns (n: nat)
    ensures forall p :: p in keys ==> p < n
  {
    n := 0;
    if keys != {} {
      var q :| q in keys;
      var m := Bound(keys - {q});
      n := if q < m then m else q + 1;
      assert forall p :: p in keys ==> p == q || p in keys - {q};
    }
  }

  lemma {:induction false} DistinctMeans(s: seq<nat>)
    ensures Distinct(s) <==> forall u: nat :: Count(s, u) <= 1
  {
    if Distinct(s) {
      forall u: nat ensures Count(s, u) <= 1 {
        if Count(s, u) > 1 { CountedTwice(s, u); }
      }
    } else {
      var i, j :| 0 <= i < j < |s| && s[i] == s[j];
      assert s == s[..i] + [s[i]] + s[i + 1..j] + [s[j]] + s[j + 1..];
      assert Count(s, s[i]) >= 2;
    }
  }

  lemma {:induction false} CountedTwice(s: seq<nat>, u: nat)
    requires Count(s, u) > 1
    ensures !Distinct(s)
  {
    var front, x := s[..|s| - 1], s[|s| - 1];
    assert s == front + [x];
    if Count(front, u) > 1 {
      CountedTwice(front, u);
      var i, j :| 0 <= i < j < |front| && front[i] == front[j];
      assert s[i] == s[j];
    } else {
      assert x == u && u in multiset(front);
      var i :| 0 <= i < |front| && front[i] == u;
      assert s[i] == s[|s| - 1];
    }
  }

  /** No UID is attempted twice in a run exactly when each one was named by at most one write
      more than met it in flight or still hold it. */
  lemma AttemptedOnceIff(last: nat, run: seq<Action>, n: nat)
    requires Below(Exec(Init(last), run).procs, n)
    ensures var s := Exec(Init(last), run);
      Distinct(s.attempted) <==>
      forall u: nat :: Named(last, run, u) <= Met(last, run, u) + Left(s.procs, n, u) + 1
  {
    hide Named, Met, Left, Exec, Count, Distinct;
    var s := Exec(Init(last), run);
    DistinctMeans(s.attempted);
    if Distinct(s.attempted) {
      forall u: nat ensures Named(last, run, u) <= Met(last, run, u) + Left(s.procs, n, u) + 1 {
        UidsAreAccounted(last, run, n, u);
        assert Count(s.attempted, u) <= 1;
      }
    } else {
      var u: nat :| Count(s.attempted, u) > 1;
      UidsAreAccounted(last, run, n, u);
      assert Named(last, run, u) > Met(last, run, u) + Left(s.procs, n, u) + 1;
    }
  }

  /** With every list worked off: each UID was attempted as often as writes named it, less the
      turns that met it in flight. */
  lemma QuietAttemptedOnceIff(last: nat, run: seq<Action>)
    requires Quiet(Exec(Init(last), run))
    ensures var s := Exec(Init(last), run);
      && (forall u: nat :: Count(s.attempted, u) + Met(last, run, u) == Named(last, run, u))
      && (Distinct(s.attempted) <==> forall u: nat :: Named(last, run, u) <= Met(last, run, u) + 1)
  {
    hide Named, Met, Exec, Count, Distinct;
    var s := Exec(Init(last), run);
    DistinctMeans(s.attempted);
    var n := Bound(s.procs.Keys);
    forall u: nat ensures Count(s.attempted, u) + Met(last, run, u) == Named(last, run, u) {
      NothingLeft(s.procs, n, u);
      UidsAreAccounted(last, run, n, u);
    }
  }

  // ---------- when the cursor moves back ----------

  /** The cursor that check `p` read last. */
  ghost function ReadBy(last: nat, run: seq<Action>, p: nat): nat {
    if run == [] then 0
    else
      var front, a := run[..|run| - 1], run[|run| - 1];
      if a == Read(p) && ProcOf(Exec(Init(last), front), p) == Idle then Exec(Init(last), front).last
      else ReadBy(last, front, p)
  }

  ghost predicate KnowsRead(pc: Proc, read: nat) {
    match pc
    case Searching(l) => l == read
    case Writing(uids) => uids != [] && forall u :: u in uids ==> u > read
    case _ => true
  }

  lemma StepKnowsRead(s: State, a: Action, p: nat, read: nat)
    requires KnowsRead(ProcOf(s, p), read) && !(a == Read(p) && ProcOf(s, p) == Idle)
    ensures KnowsRead(ProcOf(Step(s, a), p), read)
  {
    if a.Search? && a.p == p && ProcOf(s, p).Searching? { NewerMeans(a.uids, read); }
  }

  lemma {:induction false} ListsAreNewer(last: nat, run: seq<Action>, p: nat)
    ensures KnowsRead(ProcOf(Exec(Init(last), run), p), ReadBy(last, run, p))
    decreases |run|
  {
    if run != [] {
      var front, a := run[..|run| - 1], run[|run| - 1];
      ListsAreNewer(last, front, p);
      var s := Exec(Init(last), front);
      if !(a == Read(p) && ProcOf(s, p) == Idle) { StepKnowsRead(s, a, p, ReadBy(last, front, p)); }
    }
  }

  /** A write moves the cursor back exactly when the cursor has passed everything the check
      found; and then somebody has moved it since the check read it. */
  lemma WriteMovesBackIff(last: nat, run: seq<Action>, p: nat)
    requires ProcOf(Exec(Init(last), run), p).Writing?
    ensures var s := Exec(Init(last), run);
      && (Step(s, Write(p)).last < s.last <==> forall u :: u in ProcOf(s, p).uids ==> u < s.last)
      && (Step(s, Write(p)).last < s.last ==> ReadBy(last, run, p) < s.last)
      && (s.last == ReadBy(last, run, p) ==> Step(s, Write(p)).last > s.last)
  {
    ListsAreNewer(last, run, p);
    var uids := ProcOf(Exec(Init(last), run), p).uids;
    hide Exec, ReadBy, Highest;
    HighestMeans(uids, 0);
    assert uids[0] in uids;
  }

  // ---------- being in flight saves the second attempt ----------

  lemma OneMore(last: nat, run: seq<Action>, a: Action, u: nat)
    ensures Exec(Init(last), run + [a]) == Step(Exec(Init(last), run), a)
    ensures Named(last, run + [a], u) == Named(last, run, u) + NamedBy(Exec(Init(last), run), a, u)
    ensures Met(last, run + [a], u) == Met(last, run, u) + MetBy(Exec(Init(last), run), a, u)
  {
    assert (run + [a])[..|run|] == run;
  }

  lemma NothingYet(last: nat, u: nat)
    ensures Exec(Init(last), []) == Init(last) && Named(last, [], u) == 0 && Met(last, [], u) == 0
  {
  }

  lemma JustOne(last: nat, u: nat)
    requires u > last
    ensures Newer([u], last) == [u] && Highest([u], 0) == u && Count([u], u) == 1
  {
    assert [u][1..] == [];
  }

  /** Two checks read the cursor, find the same message and write. */
  lemma BothName(last: nat, u: nat) returns (run: seq<Action>)
    requires 1 <= last < u
    ensures Exec(Init(last), run) == State(u, {}, map[0 := Working([u]), 1 := Working([u])], [])
    ensures Named(last, run, u) == 2 && Met(last, run, u) == 0
  {
    hide Exec, Named, Met, Newer, Highest, Count;
    NothingYet(last, u);
    JustOne(last, u);
    run := [];
    OneMore(last, run, Read(0), u); run := run + [Read(0)];
    OneMore(last, run, Read(1), u); run := run + [Read(1)];
    OneMore(last, run, Search(0, [u]), u); run := run + [Search(0, [u])];
    OneMore(last, run, Search(1, [u]), u); run := run + [Search(1, [u])];
    OneMore(last, run, Write(0), u); run := run + [Write(0)];
    OneMore(last, run, Write(1), u); run := run + [Write(1)];
  }

  /** Both checks name the message, but the second comes to it while the first is at work: it is
      attempted once. */
  lemma InFlightIsSkipped(last: nat, u: nat) returns (run: seq<Action>)
    requires 1 <= last < u
    ensures var s := Exec(Init(last), run);
      s.attempted == [u] && s.procs == map[0 := Idle, 1 := Idle] && Named(last, run, u) == 2 && Met(last, run, u) == 1
  {
    hide Exec, Named, Met;
    run := BothName(last, u);
    OneMore(last, run, Start(0), u); run := run + [Start(0)];
    OneMore(last, run, Start(1), u); run := run + [Start(1)];
    OneMore(last, run, End(0), u); run := run + [End(0)];
    OneMore(last, run, Start(0), u); run := run + [Start(0)];
    OneMore(last, run, Start(1), u); run := run + [Start(1)];
  }

  // ---------- one check alone is one call ----------

  /** The turns of one check through its list, skipping what others have in flight. */
  lemma {:induction false} WorksThrough(s: State, p: nat) returns (run: seq<Action>)
    requires ProcOf(s, p).Working?
    ensures Exec(s, run) ==
            State(s.last, s.inFlight, s.procs[p := Idle], s.attempted + Without(ProcOf(s, p).todo, s.inFlight))
    decreases |ProcOf(s, p).todo|
  {
    hide Exec;
    var todo := ProcOf(s, p).todo;
    var none := [];
    ExecNone(s);
    ExecStep(s, none, Start(p));
    var t := Exec(s, none + [Start(p)]);
    if todo == [] {
      run := none + [Start(p)];
      assert s.attempted + [] == s.attempted;
    } else {
      run := none + [Start(p)];
      if todo[0] !in s.inFlight {
        ExecStep(s, run, End(p));
        run := run + [End(p)];
        assert s.inFlight + {todo[0]} - {todo[0]} == s.inFlight;
        assert s.attempted + [todo[0]] + Without(todo[1..], s.inFlight) == s.attempted + Without(todo, s.inFlight);
      }
      var u := Exec(s, run);
      assert u.procs == s.procs[p := Working(todo[1..])] && u.inFlight == s.inFlight && u.last == s.last;
      var rest := WorksThrough(u, p);
      ExecConcat(s, run, rest);
      run := run + rest;
    }
  }

  lemma ReadStep(s: State, p: nat)
    requires ProcOf(s, p) == Idle
    ensures Step(s, Read(p)) == Put(s, p, if s.last == 0 then Baselining else Searching(s.last))
  {
  }

  lemma HighestAlike(uids: seq<nat>, last: nat)
    requires uids != [] && uids[0] > last
    ensures Highest(uids, 0) == Highest(uids, last)
  {
    HighestFrom(uids, 0);
    HighestFrom(uids, last);
  }

  /** A check that nobody disturbs, whatever is in flight, leaves what CheckNewMessagesFor does. */
  lemma SoleCheckIsRun(s: State, p: nat, status: Option<nat>, search: Option<seq<nat>>) returns (run: seq<Action>)
    requires ProcOf(s, p) == Idle
    ensures var k := CheckOf(s.last, s.inFlight, status, search);
      Exec(s, run) == State(k.last, s.inFlight, s.procs[p := Idle], s.attempted + k.attempts)
  {
    hide Exec, Newer, Highest, BaselineOf, Without;
    NothingNew(s.last, s.inFlight);
    ExecNone(s);
    ExecStep(s, [], Read(p));
    ReadStep(s, p);
    run := [] + [Read(p)];
    assert s.attempted + [] == s.attempted;
    if s.last == 0 {
      var a := if status.None? then Fail(p) else Status(p, status.value);
      ExecStep(s, run, a);
      run := run + [a];
    } else if search.None? {
      ExecStep(s, run, Fail(p));
      run := run + [Fail(p)];
    } else {
      var newer := Newer(search.value, s.last);
      ExecStep(s, run, Search(p, search.value));
      run := run + [Search(p, search.value)];
      if newer != [] {
        AllNewer(search.value, s.last);
        HighestAlike(newer, s.last);
        ExecStep(s, run, Write(p));
        run := run + [Write(p)];
        var t := Exec(s, run);
        var rest := WorksThrough(t, p);
        ExecConcat(s, run, rest);
        run := run + rest;
        assert t.procs[p := Idle] == s.procs[p := Idle];
      }
    }
  }
}
