/** The last-seen UID of an IMAP mailbox (pkg/imap/client.go:984-1173, 1918-1943), one check at a
    time. UidSteps has the interleavings. */
module UidCursor {
  import opened Common

  const UID_RANGE: nat := 0x1_0000_0000

  function Newer(uids: seq<nat>, last: nat): seq<nat> {
    if uids == [] then []
    else if uids[0] > last then [uids[0]] + Newer(uids[1..], last)
    else Newer(uids[1..], last)
  }

  function Without(uids: seq<nat>, busy: set<nat>): seq<nat> {
    if uids == [] then []
    else if uids[0] !in busy then [uids[0]] + Without(uids[1..], busy)
    else Without(uids[1..], busy)
  }

  function Highest(uids: seq<nat>, least: nat): nat {
    if uids == [] then least
    else Highest(uids[1..], if uids[0] > least then uids[0] else least)
  }

  /** UIDNEXT - 1 on 32-bit unsigned numbers. */
  function BaselineOf(uidNext: nat): nat { (uidNext + UID_RANGE - 1) % UID_RANGE }

  lemma {:induction false} NewerMeans(uids: seq<nat>, last: nat)
    ensures forall u :: u in Newer(uids, last) <==> u in uids && u > last
    ensures Distinct(uids) ==> Distinct(Newer(uids, last))
  {
    if uids != [] {
      NewerMeans(uids[1..], last);
      assert uids == [uids[0]] + uids[1..];
      if Distinct(uids) { DistinctTail(uids); }
    }
  }

  lemma {:induction false} HighestMeans(uids: seq<nat>, least: nat)
    ensures Highest(uids, least) >= least && forall u :: u in uids ==> u <= Highest(uids, least)
    ensures Highest(uids, least) == least || Highest(uids, least) in uids
  {
    if uids != [] {
      assert uids == [uids[0]] + uids[1..];
      HighestMeans(uids[1..], if uids[0] > least then uids[0] else least);
    }
  }

  /** What is attempted: everything that is not in flight, as often as it is listed. */
  lemma {:induction false} WithoutMeans(uids: seq<nat>, busy: set<nat>)
    ensures forall u :: u in Without(uids, busy) <==> u in uids && u !in busy
    ensures Distinct(uids) ==> Distinct(Without(uids, busy))
  {
    if uids != [] {
      WithoutMeans(uids[1..], busy);
      assert uids == [uids[0]] + uids[1..];
      if Distinct(uids) { DistinctTail(uids); }
    }
  }

  lemma {:induction false} WithoutNone(uids: seq<nat>)
    ensures Without(uids, {}) == uids
  {
    if uids != [] { WithoutNone(uids[1..]); }
  }

  // ---------- the client ----------

  class Client {
    var lastInboxUID: nat
    var lastSentUID: nat
    var inFlightInbox: set<nat>
    var inFlightSent: set<nat>

    constructor ()
      ensures lastInboxUID == lastSentUID == 0 && inFlightInbox == inFlightSent == {}
    {
      lastInboxUID, lastSentUID, inFlightInbox, inFlightSent := 0, 0, {}, {};
    }

    function Last(isSent: bool): nat
      reads this
    {
      if isSent then lastSentUID else lastInboxUID
    }

    function InFlight(isSent: bool): set<nat>
      reads this
    {
      if isSent then inFlightSent else inFlightInbox
    }

    method StartUID(uid: nat, isSent: bool) returns (acquired: bool)
      modifies `inFlightInbox, `inFlightSent
      ensures acquired <==> uid !in old(InFlight(isSent))
      ensures InFlight(isSent) == old(InFlight(isSent)) + {uid} && InFlight(!isSent) == old(InFlight(!isSent))
    {
      if uid in InFlight(isSent) {
        assert InFlight(isSent) == InFlight(isSent) + {uid};
        return false;
      }
      if isSent { inFlightSent := inFlightSent + {uid}; } else { inFlightInbox := inFlightInbox + {uid}; }
      return true;
    }

    method EndUID(uid: nat, isSent: bool)
      modifies `inFlightInbox, `inFlightSent
      ensures InFlight(isSent) == old(InFlight(isSent)) - {uid} && InFlight(!isSent) == old(InFlight(!isSent))
    {
      if isSent { inFlightSent := inFlightSent - {uid}; } else { inFlightInbox := inFlightInbox - {uid}; }
    }

    method SetLast(uid: nat, isSent: bool)
      modifies `lastInboxUID, `lastSentUID
      ensures Last(isSent) == uid && Last(!isSent) == old(Last(!isSent))
    {
      if isSent { lastSentUID := uid; } else { lastInboxUID := uid; }
    }

    /** One check. `status` is the server's UIDNEXT and `search` its search result, None for an
        error or a time-out; `attempts` are the UIDs handed to processing, in order. */
    method CheckNewMessagesFor(isSent: bool, status: Option<nat>, search: Option<seq<nat>>)
      returns (failed: bool, attempts: seq<nat>)
      modifies this
      ensures Check(failed, Last(isSent), attempts) == CheckOf(old(Last(isSent)), old(InFlight(isSent)), status, search)
      ensures Last(!isSent) == old(Last(!isSent))
      ensures InFlight(isSent) == old(InFlight(isSent)) && InFlight(!isSent) == old(InFlight(!isSent))
    {
      hide Newer, Without, Highest, BaselineOf;
      attempts := [];
      var currentLastUID := Last(isSent);
      if currentLastUID == 0 {
        if status.None? {
          return true, [];
        }
        SetLast(BaselineOf(status.value), isSent);
        return false, [];
      }
      if search.None? {
        return true, [];
      }
      var newUIDs := Filter(search.value, currentLastUID);
      NothingNew(currentLastUID, InFlight(isSent));
      if |newUIDs| == 0 {
        return false, [];
      }
      var highestUID := HighestOf(newUIDs);
      AllNewer(search.value, currentLastUID);
      HighestFrom(newUIDs, currentLastUID);
      SetLast(highestUID, isSent);
      attempts := Process(newUIDs, isSent);
      failed := false;
    }

    /** The processing loop; a UID in flight elsewhere is skipped. */
    method Process(uids: seq<nat>, isSent: bool) returns (attempts: seq<nat>)
      modifies `inFlightInbox, `inFlightSent
      ensures attempts == Without(uids, old(InFlight(isSent)))
      ensures InFlight(isSent) == old(InFlight(isSent)) && InFlight(!isSent) == old(InFlight(!isSent))
    {
      attempts := [];
      var i := 0;
      while i < |uids|
        invariant 0 <= i <= |uids|
        invariant InFlight(isSent) == old(InFlight(isSent)) && InFlight(!isSent) == old(InFlight(!isSent))
        invariant attempts + Without(uids[i..], InFlight(isSent)) == Without(uids, InFlight(isSent))
      {
        var uid := uids[i];
        var acquired := StartUID(uid, isSent);
        if acquired {
          attempts := attempts + [uid];
          EndUID(uid, isSent);
        }
        i := i + 1;
      }
    }
  }

  /** The outcome of one check: did it fail, the last UID afterwards, and the UIDs attempted. */
  datatype Check = Check(failed: bool, last: nat, attempts: seq<nat>)

  function CheckOf(last: nat, busy: set<nat>, status: Option<nat>, search: Option<seq<nat>>): Check {
    if last == 0 then
      if status.None? then Check(true, 0, []) else Check(false, BaselineOf(status.value), [])
    else if search.None? then Check(true, last, [])
    else Check(false, Highest(Newer(search.value, last), last), Without(Newer(search.value, last), busy))
  }

  lemma NothingNew(last: nat, busy: set<nat>)
    ensures Highest([], last) == last && Without([], busy) == []
  {
  }

  method Filter(uids: seq<nat>, last: nat) returns (filtered: seq<nat>)
    ensures filtered == Newer(uids, last)
  {
    filtered := [];
    var i := 0;
    while i < |uids|
      invariant 0 <= i <= |uids|
      invariant filtered + Newer(uids[i..], last) == Newer(uids, last)
    {
      if uids[i] > last {
        filtered := filtered + [uids[i]];
      }
      i := i + 1;
    }
  }

  method HighestOf(uids: seq<nat>) returns (highest: nat)
    requires uids != []
    ensures highest == Highest(uids[1..], uids[0])
  {
    highest := uids[0];
    var i := 1;
    while i < |uids|
      invariant 1 <= i <= |uids|
      invariant Highest(uids[i..], highest) == Highest(uids[1..], uids[0])
    {
      if uids[i] > highest { highest := uids[i]; }
      i := i + 1;
    }
  }

  lemma HighestFrom(uids: seq<nat>, least: nat)
    requires uids != [] && uids[0] > least
    ensures Highest(uids, least) == Highest(uids[1..], uids[0])
  {
  }

  lemma AllNewer(uids: seq<nat>, last: nat)
    ensures Newer(uids, last) != [] ==> Newer(uids, last)[0] > last
  {
  }

  // ---------- whole runs ----------

  /** One check of a run: the mailbox's UIDs when the server searched, and its reply (None: the
      search failed). */
  datatype Round = Round(mailbox: set<nat>, reply: Option<seq<nat>>)

  /** The reply names every newer message, nothing that is not there, and nothing twice; it may
      name older ones, as the range n:* does. */
  ghost predicate Answers(r: Round, last: nat) {
    r.reply.Some? ==>
      && Distinct(r.reply.value)
      && (forall u :: u in r.reply.value ==> u in r.mailbox)
      && (forall u :: u in r.mailbox && u > last ==> u in r.reply.value)
  }

  /** UIDs ascend: below a UID that was there, nothing new turns up (RFC 3501, section 2.3.1.1). */
  ghost predicate Ascending(rounds: seq<Round>) {
    forall i, j, u, v :: 0 <= i < j < |rounds| && u in rounds[j].mailbox && v in rounds[i].mailbox && u <= v ==>
      u in rounds[i].mailbox
  }

  datatype Cursor = Cursor(last: nat, attempted: seq<nat>)

  /** What CheckNewMessagesFor does to a cursor that is past its first sync. */
  function Checked(c: Cursor, r: Round): Cursor {
    if r.reply.None? then c
    else Cursor(Highest(Newer(r.reply.value, c.last), c.last), c.attempted + Newer(r.reply.value, c.last))
  }

  /** A round of a run is one call of CheckNewMessagesFor with nothing else in flight. */
  lemma CheckIsRound(c: Cursor, r: Round, status: Option<nat>)
    requires c.last >= 1
    ensures var k := CheckOf(c.last, {}, status, r.reply);
      && Checked(c, r) == Cursor(k.last, c.attempted + k.attempts)
      && (k.failed <==> r.reply.None?)
  {
    if r.reply.Some? { WithoutNone(Newer(r.reply.value, c.last)); }
  }

  function Run(last: nat, rounds: seq<Round>): Cursor {
    if rounds == [] then Cursor(last, []) else Checked(Run(last, rounds[..|rounds| - 1]), rounds[|rounds| - 1])
  }

  ghost predicate AllAnswered(last: nat, rounds: seq<Round>) {
    forall i :: 0 <= i < |rounds| ==> Answers(rounds[i], Run(last, rounds[..i]).last)
  }

  /** Was `u` in the mailbox in some round whose search succeeded? */
  ghost predicate Found(rounds: seq<Round>, u: nat) {
    exists i :: 0 <= i < |rounds| && rounds[i].reply.Some? && u in rounds[i].mailbox
  }

  /** One check keeps this summary of a run. */
  ghost predicate Summary(last: nat, rounds: seq<Round>, c: Cursor) {
    && c.last >= last
    && Distinct(c.attempted)
    && (forall u: nat :: u in c.attempted <==> Found(rounds, u) && u > last)
    && (forall u :: u in c.attempted ==> u <= c.last)
    && (c.last == last || c.last in c.attempted)
  }

  /** Over any sequential run from a last UID of at least 1, with ascending UIDs and failing
      searches allowed: the UIDs attempted are exactly those beyond the first one that any
      successful search saw, each once, and the cursor is the highest of them. */
  lemma {:induction false} EachUidOnce(last: nat, rounds: seq<Round>)
    requires last >= 1 && Ascending(rounds) && AllAnswered(last, rounds)
    ensures Summary(last, rounds, Run(last, rounds))
    decreases |rounds|
  {
    if rounds != [] {
      var front := rounds[..|rounds| - 1];
      Prefix(last, rounds);
      EachUidOnce(last, front);
      RoundKeeps(last, front, rounds[|rounds| - 1], Run(last, front));
      assert front + [rounds[|rounds| - 1]] == rounds;
    }
  }

  lemma Prefix(last: nat, rounds: seq<Round>)
    requires rounds != [] && Ascending(rounds) && AllAnswered(last, rounds)
    ensures var n := |rounds| - 1;
      && Ascending(rounds[..n]) && AllAnswered(last, rounds[..n])
      && Answers(rounds[n], Run(last, rounds[..n]).last)
      && AscendsTo(rounds[..n], rounds[n])
  {
    var n := |rounds| - 1;
    forall i | 0 <= i < n ensures Answers(rounds[..n][i], Run(last, rounds[..n][..i]).last) {
      assert rounds[..n][..i] == rounds[..i];
    }
  }

  ghost predicate AscendsTo(rounds: seq<Round>, r: Round) {
    forall i, u, v :: 0 <= i < |rounds| && u in r.mailbox && v in rounds[i].mailbox && u <= v ==> u in rounds[i].mailbox
  }

  lemma FoundStep(rounds: seq<Round>, r: Round, u: nat)
    ensures Found(rounds + [r], u) <==> Found(rounds, u) || (r.reply.Some? && u in r.mailbox)
  {
    var all := rounds + [r];
    assert all[|rounds|] == r;
    if Found(rounds, u) {
      var i :| 0 <= i < |rounds| && rounds[i].reply.Some? && u in rounds[i].mailbox;
      assert all[i] == rounds[i];
    }
  }

  /** A message at or below the cursor has been seen before. */
  lemma SeenBefore(last: nat, rounds: seq<Round>, r: Round, c: Cursor, u: nat)
    requires Summary(last, rounds, c) && AscendsTo(rounds, r)
    requires u in r.mailbox && last < u <= c.last
    ensures u in c.attempted
  {
    assert Found(rounds, c.last);
    var i :| 0 <= i < |rounds| && rounds[i].reply.Some? && c.last in rounds[i].mailbox;
    assert u in rounds[i].mailbox;
    assert Found(rounds, u);
  }

  lemma RoundKeeps(last: nat, rounds: seq<Round>, r: Round, c: Cursor)
    requires Summary(last, rounds, c) && Answers(r, c.last) && AscendsTo(rounds, r)
    ensures Summary(last, rounds + [r], Checked(c, r))
  {
    hide Found, AscendsTo;
    forall u: nat ensures Found(rounds + [r], u) <==> Found(rounds, u) || (r.reply.Some? && u in r.mailbox) {
      FoundStep(rounds, r, u);
    }
    if r.reply.Some? {
      var more := Newer(r.reply.value, c.last);
      NewerMeans(r.reply.value, c.last);
      HighestMeans(more, c.last);
      forall u | u in r.mailbox && last < u <= c.last ensures u in c.attempted {
        SeenBefore(last, rounds, r, c, u);
      }
      DistinctConcat(c.attempted, more);
    }
  }

  /** The cursor never moves back. */
  lemma {:induction false} LastNeverDecreases(last: nat, rounds: seq<Round>, n: nat)
    requires n <= |rounds|
    ensures Run(last, rounds[..n]).last <= Run(last, rounds).last
    decreases |rounds|
  {
    if n < |rounds| {
      var m := |rounds| - 1;
      assert rounds[..m][..n] == rounds[..n];
      LastNeverDecreases(last, rounds[..m], n);
      var c := Run(last, rounds[..m]);
      if rounds[m].reply.Some? { HighestMeans(Newer(rounds[m].reply.value, c.last), c.last); }
    } else {
      assert rounds[..n] == rounds;
    }
  }

  // ---------- the first sync ----------

  /** The first sync leaves the cursor usable exactly when the mailbox was not empty: with
      UIDNEXT 1 it stays 0, so the next check takes a new baseline instead of searching. */
  lemma BaselineIsUsableIff(uidNext: nat)
    requires 1 <= uidNext < UID_RANGE
    ensures BaselineOf(uidNext) >= 1 <==> uidNext >= 2
    ensures BaselineOf(uidNext) == uidNext - 1
  {
  }

  /** ... and that skips mail: `n` messages that arrive after the first check of an empty mailbox
      and before the second are behind the baseline the second one takes, and no later run
      attempts them. */
  lemma EmptyMailboxSkips(n: nat, u: nat, rounds: seq<Round>)
    requires 1 <= u <= n && n + 1 < UID_RANGE
    requires Ascending(rounds) && AllAnswered(BaselineOf(n + 1), rounds)
    ensures BaselineOf(1) == 0 && u !in Run(BaselineOf(n + 1), rounds).attempted
  {
    EachUidOnce(BaselineOf(n + 1), rounds);
  }
}
