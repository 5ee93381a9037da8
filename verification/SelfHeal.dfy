/** Self-heal (pkg/connector/graph_selfheal.go) interleaved with every other delivery path
    (pkg/connector/graph_deliver.go): who may end up twice in a room. */
module SelfHeal {

  /** One stored part of a bridged message: never sent, or sent as an event. */
  datatype Part = Fake | Real(event: nat)

  /** What sending one part comes to: the event lands, is lost although it was acknowledged,
      or is never sent. */
  datatype Sent = Landed | Lost | Unsent

  /** What a room says about an event. */
  datatype Answer = NotFound | Present | Unsure

  datatype Heal =
    | Idle
    | Looked(m: nat, last: Part)     // GetLastPartByID returned `last`
    | Confirmed(m: nat)              // decideHeal said yes; DeleteAllParts comes next

  /** `live` maps each event visible in a room to the message and part number it shows. */
  datatype State = State(parts: map<nat, seq<Part>>, live: map<nat, (nat, nat)>, nextEvent: nat, heal: Heal)

  datatype Action =
    | Deliver(m: nat, sent: seq<Sent>)      // delta, webhook or heal delivery reaches the portal
    | Vanish(e: nat)                        // a room or an event goes away
    | Look(m: nat)
    | Check(answer: Answer)
    | Delete(ok: bool)

  function DecideHeal(partExists: bool, isFake: bool, confirmedMissing: bool): (heal: bool)
    ensures heal ==> partExists && (isFake || confirmedMissing)
    ensures partExists && isFake ==> heal
  {
    if !partExists then false else isFake || confirmedMissing
  }

  // ---------- delivery with dedup on the message id ----------

  function PartsOf(sent: seq<Sent>, e: nat): (r: seq<Part>)
    ensures |r| == |sent|
    ensures forall i :: 0 <= i < |r| ==> r[i] == if sent[i].Unsent? then Fake else Real(e + i)
  {
    seq(|sent|, i requires 0 <= i < |sent| => if sent[i].Unsent? then Fake else Real(e + i))
  }

  predicate LandsAs(sent: seq<Sent>, e: nat, x: nat) {
    e <= x < e + |sent| && sent[x - e].Landed?
  }

  function Shown(m: nat, sent: seq<Sent>, e: nat): (r: map<nat, (nat, nat)>)
    ensures forall x :: x in r <==> LandsAs(sent, e, x)
    ensures forall x :: x in r ==> r[x] == (m, x - e)
  {
    map x: nat | e <= x < e + |sent| && LandsAs(sent, e, x) :: (m, x - e)
  }

  function Delivered(s: State, m: nat, sent: seq<Sent>): State {
    if m in s.parts || sent == [] then s    // handleRemoteMessage ignores a mapped id
    else s.(parts := s.parts[m := PartsOf(sent, s.nextEvent)],
            live := s.live + Shown(m, sent, s.nextEvent),
            nextEvent := s.nextEvent + |sent|)
  }

  function Step(s: State, a: Action): State {
    match a
    case Deliver(m, sent) => Delivered(s, m, sent)
    case Vanish(e) => s.(live := s.live - {e})
    case Look(m) =>
      if !s.heal.Idle? || m !in s.parts || s.parts[m] == [] then s
      else s.(heal := Looked(m, s.parts[m][|s.parts[m]| - 1]))
    case Check(answer) =>
      if !s.heal.Looked? || !Truthful(s, a) then s
      else
        var isFake := s.heal.last.Fake?;
        s.(heal := if DecideHeal(true, isFake, answer.NotFound?) then Confirmed(s.heal.m) else Idle)
    case Delete(ok) =>
      if !s.heal.Confirmed? then s
      else s.(heal := Idle, parts := if ok then s.parts - {s.heal.m} else s.parts)
  }

  /** M_NOT_FOUND is only answered for an event that is not there. */
  predicate Truthful(s: State, a: Action) {
    a.Check? && s.heal.Looked? && s.heal.last.Real? && a.answer.NotFound? ==> s.heal.last.event !in s.live
  }

  function Exec(s: State, run: seq<Action>): State {
    if run == [] then s else Step(Exec(s, run[..|run| - 1]), run[|run| - 1])
  }

  function Init(): State { State(map[], map[], 0, Idle) }

  // ---------- no duplicates ----------

  /** No part of any message is visible twice. */
  ghost predicate NoDuplicates(s: State) {
    forall x, y :: x in s.live && y in s.live && s.live[x] == s.live[y] ==> x == y
  }

  ghost predicate Gone(s: State, m: nat) { forall e :: e in s.live ==> s.live[e].0 != m }

  /** Every visible event is the one the mapping of its message names. */
  ghost predicate Mapped(s: State) {
    && (forall e :: e in s.live ==> e < s.nextEvent && ShownByMap(s, e))
    && (forall m, i :: m in s.parts && 0 <= i < |s.parts[m]| && s.parts[m][i].Real? ==> Owns(s, m, i))
    && match s.heal
       case Idle => true
       case Looked(m, last) => m in s.parts && s.parts[m] != [] && s.parts[m][|s.parts[m]| - 1] == last
       case Confirmed(m) => m in s.parts && s.parts[m] != [] && LastIsMissing(s, m)
  }

  /** The event named by a stored part is that part's own. */
  ghost predicate Owns(s: State, m: nat, i: nat)
    requires m in s.parts && i < |s.parts[m]| && s.parts[m][i].Real?
  {
    var e := s.parts[m][i].event;
    e < s.nextEvent && (e in s.live ==> s.live[e] == (m, i))
  }

  ghost predicate ShownByMap(s: State, e: nat)
    requires e in s.live
  {
    var (m, i) := s.live[e];
    m in s.parts && i < |s.parts[m]| && s.parts[m][i] == Real(e)
  }

  ghost predicate LastIsMissing(s: State, m: nat)
    requires m in s.parts && s.parts[m] != []
  {
    var last := s.parts[m][|s.parts[m]| - 1];
    last.Real? ==> last.event !in s.live
  }

  /** A heal deletion is clean when no part of the message is visible any more. */
  ghost predicate CleanDelete(s: State, a: Action) {
    a == Delete(true) && s.heal.Confirmed? ==> Gone(s, s.heal.m)
  }

  lemma DeliverShows(s: State, m: nat, sent: seq<Sent>, e: nat)
    requires Mapped(s) && m !in s.parts && e in Delivered(s, m, sent).live
    ensures e < Delivered(s, m, sent).nextEvent && ShownByMap(Delivered(s, m, sent), e)
  {
    if sent != [] && e in s.live && !LandsAs(sent, s.nextEvent, e) { assert ShownByMap(s, e); }
  }

  lemma DeliverOwns(s: State, m: nat, sent: seq<Sent>, n: nat, i: nat)
    requires Mapped(s) && m !in s.parts
    requires var t := Delivered(s, m, sent); n in t.parts && i < |t.parts[n]| && t.parts[n][i].Real?
    ensures Owns(Delivered(s, m, sent), n, i)
  {
    if n in s.parts { assert Owns(s, n, i); }
  }

  lemma DeliverKeepsMapped(s: State, m: nat, sent: seq<Sent>)
    requires Mapped(s)
    ensures Mapped(Delivered(s, m, sent))
  {
    var t := Delivered(s, m, sent);
    if m !in s.parts && sent != [] {
      hide Owns, ShownByMap;
      forall e | e in t.live ensures e < t.nextEvent && ShownByMap(t, e) { DeliverShows(s, m, sent, e); }
      forall n: nat, i: nat | n in t.parts && i < |t.parts[n]| && t.parts[n][i].Real? ensures Owns(t, n, i) {
        DeliverOwns(s, m, sent, n, i);
      }
    }
  }

  lemma StepKeepsMapped(s: State, a: Action)
    requires Mapped(s) && CleanDelete(s, a)
    ensures Mapped(Step(s, a))
  {
    var t := Step(s, a);
    if a.Deliver? {
      DeliverKeepsMapped(s, a.m, a.sent);
    } else {
      forall e | e in t.live ensures e < t.nextEvent && ShownByMap(t, e) { assert ShownByMap(s, e); }
      forall m: nat, i: nat | m in t.parts && i < |t.parts[m]| && t.parts[m][i].Real? ensures Owns(t, m, i) {
        assert Owns(s, m, i);
      }
    }
  }

  lemma MappedHasNoDuplicates(s: State)
    requires Mapped(s)
    ensures NoDuplicates(s)
  {
    forall x, y | x in s.live && y in s.live && s.live[x] == s.live[y] ensures x == y {
      assert ShownByMap(s, x) && ShownByMap(s, y);
    }
  }

  /** Whatever the interleaving of deliveries, losses and heal passes: as long as every heal
      deletion of the run is clean, no part of a message is ever visible twice. */
  lemma {:induction false} CleanRunsHaveNoDuplicates(run: seq<Action>)
    requires forall n :: 0 <= n < |run| ==> CleanDelete(Exec(Init(), run[..n]), run[n])
    ensures NoDuplicates(Exec(Init(), run))
    ensures Mapped(Exec(Init(), run))
    decreases |run|
  {
    if run != [] {
      var before := run[..|run| - 1];
      assert forall n :: 0 <= n < |before| ==> before[..n] == run[..n];
      CleanRunsHaveNoDuplicates(before);
      StepKeepsMapped(Exec(Init(), before), run[|run| - 1]);
    }
    MappedHasNoDuplicates(Exec(Init(), run));
  }

  /** ... and an unclean deletion does lead to a duplicate: as soon as the message is delivered
      again with all its parts, the part that was still visible is there twice. */
  lemma UncleanDeleteDuplicates(s: State, e: nat, sent: seq<Sent>)
    requires Mapped(s) && s.heal.Confirmed? && e in s.live && s.live[e].0 == s.heal.m
    requires |sent| > s.live[e].1 && forall i :: 0 <= i < |sent| ==> sent[i].Landed?
    ensures !NoDuplicates(Step(Step(s, Delete(true)), Deliver(s.heal.m, sent)))
  {
    var m, i := s.heal.m, s.live[e].1;
    var t := Step(Step(s, Delete(true)), Deliver(m, sent));
    var f := s.nextEvent + i;
    assert ShownByMap(s, e);
    assert f in Shown(m, sent, s.nextEvent) && t.live[f] == (m, i);
    assert e in t.live && t.live[e] == (m, i) && e != f;
  }

  /** Messages that are bridged as a single part cannot be deleted uncleanly: the one part
      that is checked is the only one there is. So their runs never duplicate. */
  lemma {:induction false} SinglePartsNeverDuplicate(run: seq<Action>)
    requires forall n :: 0 <= n < |run| && run[n].Deliver? ==> |run[n].sent| <= 1
    ensures NoDuplicates(Exec(Init(), run))
    ensures Mapped(Exec(Init(), run)) && SingleParts(Exec(Init(), run))
    decreases |run|
  {
    if run == [] {
      InitIsMapped();
    } else {
      hide Step, Mapped, SingleParts;
      SinglePartsNeverDuplicate(run[..|run| - 1]);
      SinglePartStep(Exec(Init(), run[..|run| - 1]), run[|run| - 1]);
    }
    MappedHasNoDuplicates(Exec(Init(), run));
  }

  /** With one part per message, the part a heal looked at is the only one there can be. */
  lemma SinglePartStep(s: State, a: Action)
    requires Mapped(s) && SingleParts(s) && (a.Deliver? ==> |a.sent| <= 1)
    ensures Mapped(Step(s, a)) && SingleParts(Step(s, a))
  {
    if a == Delete(true) && s.heal.Confirmed? {
      forall e | e in s.live ensures s.live[e].0 != s.heal.m { assert ShownByMap(s, e); }
    }
    StepKeepsMapped(s, a);
  }

  ghost predicate SingleParts(s: State) {
    forall m :: m in s.parts ==> |s.parts[m]| <= 1
  }

  /** With attachments it can happen: the text arrived, the last attachment did not. Only the
      last part is looked at, so the text is delivered a second time. */
  lemma TwoPartsCanDuplicate()
    ensures !NoDuplicates(Exec(Init(), TEXT_TWICE))
  {
    var s1 := Step(Init(), TEXT_TWICE[0]);
    var s2 := Step(s1, TEXT_TWICE[1]);
    var s3 := Step(s2, TEXT_TWICE[2]);
    TextOnlyArrives(s1, s2, s3);
    ExecFive(Init(), TEXT_TWICE);
    UncleanDeleteDuplicates(s3, 0, [Landed, Landed]);
  }

  lemma InitIsMapped()
    ensures Mapped(Init())
  {
  }

  lemma TextOnlyArrives(s1: State, s2: State, s3: State)
    requires s1 == Step(Init(), Deliver(5, [Landed, Unsent]))
    requires s2 == Step(s1, Look(5)) && s3 == Step(s2, Check(Unsure))
    ensures Mapped(s3) && s3.heal == Confirmed(5) && 0 in s3.live && s3.live[0] == (5, 0)
  {
    InitIsMapped();
    hide Mapped;
    assert LandsAs([Landed, Unsent], 0, 0);
    assert s1.parts[5][1] == Fake;
    StepKeepsMapped(Init(), Deliver(5, [Landed, Unsent]));
    StepKeepsMapped(s1, Look(5));
    StepKeepsMapped(s2, Check(Unsure));
  }

  const TEXT_TWICE: seq<Action> :=
    [Deliver(5, [Landed, Unsent]), Look(5), Check(Unsure), Delete(true), Deliver(5, [Landed, Landed])]

  lemma ExecFive(s: State, r: seq<Action>)
    requires |r| == 5
    ensures Exec(s, r) == Step(Step(Step(Step(Step(s, r[0]), r[1]), r[2]), r[3]), r[4])
  {
    hide Step;
    assert r[..4][..3] == r[..3] && r[..3][..2] == r[..2] && r[..2][..1] == r[..1] && r[..1][..0] == [];
    assert Exec(s, r[..1]) == Step(s, r[0]);
    assert Exec(s, r[..2]) == Step(Exec(s, r[..1]), r[1]);
    assert Exec(s, r[..3]) == Step(Exec(s, r[..2]), r[2]);
    assert Exec(s, r[..4]) == Step(Exec(s, r[..3]), r[3]);
  }

  lemma OrphanIsMissing(s: State, m: nat)
    requires Mapped(s) && m in s.parts && |s.parts[m]| == 1 && Gone(s, m)
    ensures s.parts[m][0].Real? ==> s.parts[m][0].event !in s.live
  {
    if s.parts[m][0].Real? { assert Owns(s, m, 0); }
  }

  /** The pass does heal: a message whose only event is gone, or was never sent, is visible
      exactly once after it. */
  lemma OrphanIsHealed(s: State, m: nat)
    requires Mapped(s) && s.heal.Idle? && m in s.parts && |s.parts[m]| == 1 && Gone(s, m)
    ensures var t := Step(Step(Step(Step(s, Look(m)), Check(NotFound)), Delete(true)), Deliver(m, [Landed]));
      && Mapped(t) && t.heal.Idle?
      && s.nextEvent in t.live && t.live[s.nextEvent] == (m, 0)
      && forall e :: e in t.live && t.live[e].0 == m ==> e == s.nextEvent
  {
    OrphanIsMissing(s, m);
    hide Mapped;
    var s1 := Step(s, Look(m));
    var s2 := Step(s1, Check(NotFound));
    assert s2.heal == Confirmed(m) && s2.live == s.live && s2.parts == s.parts;
    StepKeepsMapped(s, Look(m));
    StepKeepsMapped(s1, Check(NotFound));
    StepKeepsMapped(s2, Delete(true));
    StepKeepsMapped(Step(s2, Delete(true)), Deliver(m, [Landed]));
  }
}
