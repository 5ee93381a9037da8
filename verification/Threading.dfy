/** The thread manager (pkg/email/threading.go): two maps over one set of shared, mutable thread
    objects, with a size cap, oldest-first eviction and a periodic clean-up. */
module Threading {
  import opened Common
  import opened AgeSort

  const MAX_CACHED_THREADS: nat := 10000
  const HOUR: int := 3600000000000            // nanoseconds
  const THREAD_CACHE_TTL: int := 24 * HOUR

  /** What threading reads of an email; `people` are the lower-cased addresses of From, To and Cc,
      `fallbackID` is the id generated from subject and date, `forwarded` the verdict on subject
      and text. */
  datatype Email = Email(
    messageID: string, inReplyTo: string, references: seq<string>, subject: string,
    people: set<string>, fallbackID: string, forwarded: bool)

  /** The ids an email refers to, in the order they are looked up. */
  function Candidates(email: Email): seq<string> {
    (if email.inReplyTo != "" then [email.inReplyTo] else []) + email.references
  }

  /** The first of `ids` that is in `good`. */
  function First(ids: seq<string>, good: set<string>): (r: Option<string>)
    ensures r.Some? ==> r.value in ids && r.value in good
  {
    if ids == [] then None
    else if ids[0] in good then Some(ids[0])
    else First(ids[1..], good)
  }

  lemma {:induction false} NoneMeans(ids: seq<string>, good: set<string>)
    ensures First(ids, good).None? <==> forall id :: id in ids ==> id !in good
  {
    if ids != [] {
      assert ids == [ids[0]] + ids[1..];
      NoneMeans(ids[1..], good);
    }
  }

  lemma {:induction false} FirstOfConcat(a: seq<string>, b: seq<string>, good: set<string>)
    ensures First(a + b, good) == if First(a, good).Some? then First(a, good) else First(b, good)
  {
    if a == [] {
      assert a + b == b;
    } else {
      FirstOfConcat(a[1..], b, good);
      assert (a + b)[1..] == a[1..] + b;
    }
  }

  /** `id` is the first known id that the email refers to: In-Reply-To, else its references from
      the oldest on. */
  ghost predicate RefersFirst(email: Email, known: set<string>, id: string) {
    && id in known
    && if email.inReplyTo != "" && email.inReplyTo in known then id == email.inReplyTo
       else exists n :: 0 <= n < |email.references| && email.references[n] == id &&
              forall k :: 0 <= k < n ==> email.references[k] !in known
  }

  ghost predicate RefersNowhere(email: Email, known: set<string>) {
    && (email.inReplyTo == "" || email.inReplyTo !in known)
    && forall k :: 0 <= k < |email.references| ==> email.references[k] !in known
  }

  lemma {:induction false} FirstAt(ids: seq<string>, good: set<string>, n: nat)
    requires n < |ids| && ids[n] in good && forall k :: 0 <= k < n ==> ids[k] !in good
    ensures First(ids, good) == Some(ids[n])
  {
    if n > 0 { FirstAt(ids[1..], good, n - 1); }
  }

  lemma {:induction false} FirstIsAt(ids: seq<string>, good: set<string>) returns (n: nat)
    requires First(ids, good).Some?
    ensures n < |ids| && First(ids, good) == Some(ids[n]) && forall k :: 0 <= k < n ==> ids[k] !in good
  {
    if ids[0] in good {
      n := 0;
    } else {
      n := FirstIsAt(ids[1..], good);
      n := n + 1;
    }
  }

  /** The candidates are looked up as the header fields say. */
  lemma ReferencesAreFollowed(email: Email, known: set<string>)
    ensures First(Candidates(email), known).None? <==> RefersNowhere(email, known)
    ensures forall id :: RefersFirst(email, known, id) <==> First(Candidates(email), known) == Some(id)
  {
    var head := if email.inReplyTo != "" then [email.inReplyTo] else [];
    NoneMeans(Candidates(email), known);
    FirstOfConcat(head, email.references, known);
    if First(email.references, known).Some? {
      var n := FirstIsAt(email.references, known);
      assert email.references[n] in known;
    }
    forall n: nat | n < |email.references| && email.references[n] in known &&
      (forall k :: 0 <= k < n ==> email.references[k] !in known)
      ensures First(email.references, known) == Some(email.references[n])
    {
      FirstAt(email.references, known, n);
    }
  }

  function Answered(resolve: map<string, string>): set<string> {
    set id | id in resolve && resolve[id] != ""
  }

  class EmailThread {
    var threadID: string
    var subject: string
    var participants: set<string>
    var messageID: string
    var inReplyTo: string
    var references: seq<string>
    var added: set<string>
    var removed: set<string>
    var lastAccessed: int

    constructor (threadID: string, subject: string, participants: set<string>,
                 messageID: string, inReplyTo: string, references: seq<string>, lastAccessed: int)
      ensures this.threadID == threadID && this.messageID == messageID && this.references == references
      ensures this.participants == participants && added == {} && removed == {} && this.lastAccessed == lastAccessed
    {
      this.threadID, this.subject, this.participants := threadID, subject, participants;
      this.messageID, this.inReplyTo, this.references := messageID, inReplyTo, references;
      added, removed, this.lastAccessed := {}, {}, lastAccessed;
    }

    /** Every message id the thread contains. */
    ghost function Ids(): set<string>
      reads `references, `threadID, `messageID
    {
      (set id | id in references) + {threadID, messageID} - {""}
    }

    /** The part of addToExistingThread that changes the thread: who is in the conversation now,
        who joined, who left, and the message itself. */
    method Add(email: Email)
      modifies `participants, `added, `removed, `references
      ensures Ids() == old(Ids()) + ({email.messageID} - {""})
      ensures participants == email.people
      ensures added !! old(participants) && old(participants) + added == participants + removed
      ensures removed !! participants && removed <= old(participants) && added <= participants
    {
      added := email.people - participants;
      removed := participants - email.people;
      participants := email.people;
      if email.messageID != "" {
        references := AppendUnique(references, email.messageID);
      }
    }
  }

  function NewID(email: Email): string {
    if email.messageID != "" then email.messageID else email.fallbackID
  }

  function AppendUnique(s: seq<string>, item: string): (r: seq<string>)
    ensures forall id :: id in r <==> id in s || id == item
    ensures if item in s then r == s else |r| == |s| + 1 && s <= r
  {
    if item in s then s else s + [item]
  }

  ghost function IdsOf(threads: set<EmailThread>): set<string>
    reads threads`references, threads`threadID, threads`messageID
  {
    set t, id | t in threads && id in t.Ids() :: id
  }

  ghost function ThreadsAt(m: map<string, EmailThread>, keys: set<string>): set<EmailThread> {
    set k | k in keys && k in m :: m[k]
  }

  ghost predicate IndexSound(index: map<string, EmailThread>)
    reads index.Values`references, index.Values`threadID, index.Values`messageID
  {
    forall id :: id in index ==> id in index[id].Ids()
  }

  ghost function IndexedAt(index: map<string, EmailThread>, thread: EmailThread, ids: set<string>)
    : map<string, EmailThread>
  {
    map id | id in index.Keys + ids :: if id in ids then thread else index[id]
  }

  lemma IndexedNone(index: map<string, EmailThread>, thread: EmailThread)
    ensures IndexedAt(index, thread, {}) == index
  {
  }

  lemma IndexedMore(index: map<string, EmailThread>, thread: EmailThread, ids: set<string>, id: string)
    ensures IndexedAt(index, thread, ids)[id := thread] == IndexedAt(index, thread, ids + {id})
  {
  }

  /** The index with every id of the thread leading to it. */
  ghost function Indexed(index: map<string, EmailThread>, thread: EmailThread): map<string, EmailThread>
    reads thread`references, thread`threadID, thread`messageID
  {
    IndexedAt(index, thread, thread.Ids())
  }

  lemma IndexedMeans(index: map<string, EmailThread>, thread: EmailThread)
    ensures var after := Indexed(index, thread);
      && (forall id :: id in thread.Ids() ==> id in after && after[id] == thread)
      && (forall id :: id !in thread.Ids() ==>
            (id in after <==> id in index) && (id in after ==> after[id] == index[id]))
  {
  }

  lemma IndexedIsSound(index: map<string, EmailThread>, thread: EmailThread)
    requires IndexSound(index)
    ensures IndexSound(Indexed(index, thread))
  {
  }

  /** No id leads to one of these threads. */
  ghost predicate Unreachable(index: map<string, EmailThread>, threads: set<EmailThread>) {
    forall id :: id in index ==> index[id] !in threads
  }

  lemma WithoutIdsUnreachable(index: map<string, EmailThread>, threads: set<EmailThread>)
    requires IndexSound(index)
    ensures Unreachable(index - IdsOf(threads), threads)
    ensures IndexSound(index - IdsOf(threads))
  {
    var rest := index - IdsOf(threads);
    forall id | id in rest ensures rest[id] !in threads {
      assert id in index && index[id] == rest[id] && id in index[id].Ids();
    }
  }

  class ThreadManager {
    var knownThreads: map<string, EmailThread>
    var messageIDIndex: map<string, EmailThread>
    var lastCleanup: int

    ghost predicate Valid()
      reads this, knownThreads.Values, messageIDIndex.Values
    {
      |knownThreads| <= MAX_CACHED_THREADS && IndexSound(messageIDIndex)
    }

    constructor (now: int)
      ensures Valid() && knownThreads == map[] && messageIDIndex == map[] && lastCleanup == now
    {
      knownThreads, messageIDIndex, lastCleanup := map[], map[], now;
    }

    /** removeFromMessageIDIndex */
    method RemoveFromIndex(thread: EmailThread)
      modifies `messageIDIndex
      ensures messageIDIndex == old(messageIDIndex) - thread.Ids()
      ensures forall id :: id in messageIDIndex <==>
        id in old(messageIDIndex) &&
        !(id != "" && (id == thread.threadID || id == thread.messageID || id in thread.references))
    {
      if thread.threadID != "" { messageIDIndex := messageIDIndex - {thread.threadID}; }
      if thread.messageID != "" { messageIDIndex := messageIDIndex - {thread.messageID}; }
      var i := 0;
      ghost var gone := {thread.threadID, thread.messageID} - {""};
      assert messageIDIndex == old(messageIDIndex) - gone;
      while i < |thread.references|
        invariant 0 <= i <= |thread.references|
        invariant gone == (set id | id in thread.references[..i]) + {thread.threadID, thread.messageID} - {""}
        invariant messageIDIndex == old(messageIDIndex) - gone
      {
        var id := thread.references[i];
        assert thread.references[..i + 1] == thread.references[..i] + [id];
        if id != "" {
          messageIDIndex := messageIDIndex - {id};
          gone := gone + {id};
        }
        i := i + 1;
      }
      assert thread.references[..i] == thread.references;
    }

    /** updateMessageIDIndex */
    method UpdateIndex(thread: EmailThread)
      modifies `messageIDIndex
      ensures messageIDIndex == Indexed(old(messageIDIndex), thread)
      ensures forall id :: id != "" && (id == thread.threadID || id == thread.messageID || id in thread.references) ==>
        id in messageIDIndex && messageIDIndex[id] == thread
      ensures forall id :: id == "" || (id != thread.threadID && id != thread.messageID && id !in thread.references) ==>
        && (id in messageIDIndex <==> id in old(messageIDIndex))
        && (id in messageIDIndex ==> messageIDIndex[id] == old(messageIDIndex)[id])
    {
      hide IndexedAt;
      ghost var index, ids: set<string> := messageIDIndex, {};
      IndexedNone(index, thread);
      if thread.threadID != "" {
        IndexedMore(index, thread, ids, thread.threadID);
        messageIDIndex := messageIDIndex[thread.threadID := thread];
        ids := ids + {thread.threadID};
      }
      var i := 0;
      while i < |thread.references|
        invariant 0 <= i <= |thread.references|
        invariant ids == (set id | id in thread.references[..i]) + {thread.threadID} - {""}
        invariant messageIDIndex == IndexedAt(index, thread, ids)
      {
        var id := thread.references[i];
        assert thread.references[..i + 1] == thread.references[..i] + [id];
        if id != "" {
          IndexedMore(index, thread, ids, id);
          messageIDIndex := messageIDIndex[id := thread];
          ids := ids + {id};
        }
        i := i + 1;
      }
      assert thread.references[..i] == thread.references;
      if thread.messageID != "" && thread.messageID != thread.threadID {
        IndexedMore(index, thread, ids, thread.messageID);
        messageIDIndex := messageIDIndex[thread.messageID := thread];
        ids := ids + {thread.messageID};
      }
      assert ids == thread.Ids();
      IndexedMeans(index, thread);
    }

    /** The removal loop shared by eviction and clean-up: each entry leaves the cache, and all ids
        of its thread leave the index. */
    method DeleteEntries(keys: seq<string>)
      requires Present(keys, knownThreads)
      requires Distinct(keys)
      modifies `knownThreads, `messageIDIndex
      ensures knownThreads == old(knownThreads) - KeysOf(keys)
      ensures messageIDIndex == old(messageIDIndex) - IdsOf(ThreadsAt(old(knownThreads), KeysOf(keys)))
    {
      hide IdsOf, ThreadsAt;
      var i := 0;
      NoThreads(knownThreads);
      assert messageIDIndex - {} == messageIDIndex && knownThreads - {} == knownThreads;
      while i < |keys|
        invariant 0 <= i <= |keys|
        invariant knownThreads == old(knownThreads) - KeysOf(keys[..i])
        invariant messageIDIndex == old(messageIDIndex) - IdsOf(ThreadsAt(old(knownThreads), KeysOf(keys[..i])))
      {
        NotYet(keys, i);
        var thread := knownThreads[keys[i]];
        OneMore(old(knownThreads), keys, i);
        ghost var gone := IdsOf(ThreadsAt(old(knownThreads), KeysOf(keys[..i])));
        assert old(messageIDIndex) - (gone + thread.Ids()) == (old(messageIDIndex) - gone) - thread.Ids();
        ghost var next := IdsOf(ThreadsAt(old(knownThreads), KeysOf(keys[..i + 1])));
        assert next == gone + thread.Ids();
        RemoveFromIndex(thread);
        assert messageIDIndex == old(messageIDIndex) - next;
        knownThreads := knownThreads - {keys[i]};
        assert next == IdsOf(ThreadsAt(old(knownThreads), KeysOf(keys[..i + 1])));
        i := i + 1;
      }
      assert keys[..i] == keys;
    }

    /** ... after which the index is still sound and does not reach the removed threads. */
    method RemoveEntries(keys: seq<string>)
      requires IndexSound(messageIDIndex) && Present(keys, knownThreads) && Distinct(keys)
      modifies `knownThreads, `messageIDIndex
      ensures knownThreads == old(knownThreads) - KeysOf(keys)
      ensures Removed(old(knownThreads), old(messageIDIndex), knownThreads, messageIDIndex)
    {
      hide Removed, KeysOf, IndexSound, IdsOf, ThreadsAt, Present, Distinct;
      ghost var known, index := knownThreads, messageIDIndex;
      ghost var gone := IdsOf(ThreadsAt(known, KeysOf(keys)));
      RemovedByKeys(known, index, keys);
      DeleteEntries(keys);
      assert messageIDIndex == index - gone && knownThreads == known - KeysOf(keys);
    }

    /** Over the limit, exactly `count` entries go and none of them is younger than one that
        stays, whatever order the map is walked in; the index loses their threads' ids and
        nothing else, and no longer reaches those threads. */
    method EvictOldestThreads(count: nat)
      requires IndexSound(messageIDIndex)
      modifies `knownThreads, `messageIDIndex
      ensures |old(knownThreads)| <= count ==>
        knownThreads == old(knownThreads) && messageIDIndex == old(messageIDIndex)
      ensures |old(knownThreads)| > count ==> |old(knownThreads).Keys - knownThreads.Keys| == count
      ensures Removed(old(knownThreads), old(messageIDIndex), knownThreads, messageIDIndex)
      ensures OldestFirst(old(knownThreads), knownThreads)
    {
      hide Removed, KeysOf, IndexSound, AgesOf, OldestFirst, OldestOf, Present, Distinct;
      NothingRemoved(knownThreads, messageIDIndex);
      if |knownThreads| <= count {
        return;
      }
      var keys := OldestEntries(count);
      ghost var known := knownThreads;
      OldestGone(known, keys);
      RemoveEntries(keys);
      assert OldestFirst(known, knownThreads);
    }

    /** The keys of the `count` entries used longest ago: collect, sort, take. */
    method OldestEntries(count: nat) returns (keys: seq<string>)
      requires count <= |knownThreads|
      ensures Distinct(keys)
      ensures Present(keys, knownThreads)
      ensures |KeysOf(keys)| == count && OldestOf(keys, AgesOf(knownThreads))
    {
      hide Lists, Ordered, KeysOf, AgesOf;
      ghost var ages := AgesOf(knownThreads);
      SameKeys(knownThreads);
      var threads := CollectEntries();
      var sorted := SortEntries(threads);
      keys := seq(count, i requires 0 <= i < |sorted| => sorted[i].key);
      OldestKeys(sorted, ages, count, keys);
    }

    /** The cache entries, in whatever order the map yields them. */
    method CollectEntries() returns (threads: seq<Entry>)
      ensures |threads| == |knownThreads|
      ensures Lists(multiset(threads), AgesOf(knownThreads))
    {
      threads := [];
      var left := knownThreads.Keys;
      while left != {}
        invariant left <= knownThreads.Keys && |threads| + |left| == |knownThreads|
        invariant Lists(multiset(threads), AgesOf(knownThreads) - left)
      {
        var key :| key in left;
        threads := threads + [Entry(key, knownThreads[key].lastAccessed)];
        left := left - {key};
      }
      assert AgesOf(knownThreads) - {} == AgesOf(knownThreads);
    }

    /** Once an hour, entries not used for a day go. */
    method CleanupExpiredThreadsIfNeeded(now: int)
      requires Valid()
      modifies `knownThreads, `messageIDIndex, `lastCleanup
      ensures Valid() && Removed(old(knownThreads), old(messageIDIndex), knownThreads, messageIDIndex)
      ensures CleanedUp(old(AgesOf(knownThreads)), knownThreads.Keys, now - old(lastCleanup), now)
      ensures lastCleanup == if now - old(lastCleanup) < HOUR then old(lastCleanup) else now
    {
      hide Removed, IndexSound, AgesOf, CleanedUp;
      NothingRemoved(knownThreads, messageIDIndex);
      ghost var ages, sinceLast := AgesOf(knownThreads), now - lastCleanup;
      if now - lastCleanup < HOUR {
        StaysWithinHour(knownThreads, sinceLast, now);
        assert CleanedUp(ages, knownThreads.Keys, sinceLast, now);
        return;
      }
      lastCleanup := now;
      assert IndexSound(messageIDIndex) && AgesOf(knownThreads) == ages;
      RemoveExpired(sinceLast, now);
      assert CleanedUp(ages, knownThreads.Keys, sinceLast, now);
    }

    method RemoveExpired(ghost sinceLast: int, now: int)
      requires IndexSound(messageIDIndex) && sinceLast >= HOUR
      modifies `knownThreads, `messageIDIndex
      ensures Removed(old(knownThreads), old(messageIDIndex), knownThreads, messageIDIndex)
      ensures CleanedUp(old(AgesOf(knownThreads)), knownThreads.Keys, sinceLast, now)
      ensures |knownThreads| <= |old(knownThreads)| && IndexSound(messageIDIndex)
    {
      hide Removed, KeysOf, IndexSound, AgesOf, CleanedUp, ExactlyExpired, Present, Distinct;
      var keys := ExpiredKeys(now - THREAD_CACHE_TTL);
      ExpiredGone(knownThreads, keys, sinceLast, now);
      RemoveEntries(keys);
      RemovedIsSound(old(knownThreads), old(messageIDIndex), knownThreads, messageIDIndex);
    }

    method ExpiredKeys(cutoff: int) returns (keys: seq<string>)
      ensures Distinct(keys)
      ensures ExactlyExpired(knownThreads, keys, cutoff)
    {
      keys := [];
      var left := knownThreads.Keys;
      while left != {}
        invariant left <= knownThreads.Keys
        invariant Distinct(keys)
        invariant forall k :: k in keys <==> k in knownThreads && k !in left && knownThreads[k].lastAccessed < cutoff
      {
        var key :| key in left;
        if knownThreads[key].lastAccessed < cutoff {
          keys := keys + [key];
        }
        left := left - {key};
      }
    }

    /** The thread cached for the receiver, or under the bare id; finding it refreshes it. */
    method GetThreadByID(receiver: string, threadID: string, now: int) returns (thread: EmailThread?)
      requires Valid()
      modifies this, knownThreads.Values`lastAccessed
      ensures Valid() && Removed(old(knownThreads), old(messageIDIndex), knownThreads, messageIDIndex)
      ensures CleanedUp(old(AgesOf(knownThreads)), knownThreads.Keys, now - old(lastCleanup), now)
      ensures thread == (if receiver + "|" + threadID in knownThreads then knownThreads[receiver + "|" + threadID]
                         else if threadID in knownThreads then knownThreads[threadID] else null)
      ensures thread != null ==> thread in old(knownThreads).Values && thread.lastAccessed == now
      ensures forall t :: t in old(knownThreads).Values && t != thread ==> t.lastAccessed == old(t.lastAccessed)
    {
      hide Removed, IndexSound, CleanedUp;
      var key := receiver + "|" + threadID;
      CleanupExpiredThreadsIfNeeded(now);
      RemovedKeeps(old(knownThreads), old(messageIDIndex), knownThreads, messageIDIndex);
      if key in knownThreads {
        thread := knownThreads[key];
      } else if threadID in knownThreads {
        thread := knownThreads[threadID];
      } else {
        return null;
      }
      assert thread in old(knownThreads).Values;
      ghost var known := knownThreads;
      thread.lastAccessed := now;
      assert Removed(old(knownThreads), old(messageIDIndex), knownThreads, messageIDIndex);
      assert IndexSound(messageIDIndex);
    }

    /** The size check after an insertion. */
    method EnforceLimit()
      requires IndexSound(messageIDIndex) && |knownThreads| <= MAX_CACHED_THREADS + 1
      modifies `knownThreads, `messageIDIndex
      ensures Valid() && Limited(old(knownThreads), old(messageIDIndex), knownThreads, messageIDIndex)
    {
      hide Removed, IndexSound, OldestFirst;
      NothingRemoved(knownThreads, messageIDIndex);
      if |knownThreads| > MAX_CACHED_THREADS {
        EvictOldestThreads(MAX_CACHED_THREADS / 4);
        RemovedKeeps(old(knownThreads), old(messageIDIndex), knownThreads, messageIDIndex);
        RemovedSize(old(knownThreads), knownThreads);
      }
      RemovedIsSound(old(knownThreads), old(messageIDIndex), knownThreads, messageIDIndex);
    }

    /** A thread of its own for this email, cached under its bare id and not yet indexed. */
    method CreateNewThread(email: Email, now: int) returns (thread: EmailThread)
      requires Valid()
      modifies `knownThreads, `messageIDIndex
      ensures Valid() && fresh(thread)
      ensures NewFor(email, thread, old(knownThreads), old(messageIDIndex), knownThreads, messageIDIndex)
      ensures thread.participants == email.people && thread.lastAccessed == now
      ensures SubIndex(old(messageIDIndex), messageIDIndex) && |knownThreads| <= |old(knownThreads)| + 1
      ensures email.messageID != "" ==> email.messageID in thread.Ids()
    {
      hide Limited, IndexSound, SubIndex;
      thread := new EmailThread(NewID(email), email.subject, email.people,
                                email.messageID, email.inReplyTo, email.references, now);
      assert IndexSound(messageIDIndex);
      knownThreads := knownThreads[NewID(email) := thread];
      ghost var known := knownThreads;
      InsertSize(old(knownThreads), NewID(email), thread);
      EnforceLimit();
      LimitedKeeps(known, old(messageIDIndex), knownThreads, messageIDIndex);
    }

    /** findThreadByMessageID for In-Reply-To, then for each reference, oldest first. */
    method FindThread(email: Email) returns (thread: EmailThread?)
      requires Valid()
      ensures thread == null <==> RefersNowhere(email, messageIDIndex.Keys)
      ensures thread != null ==> thread in messageIDIndex.Values
      ensures forall id :: RefersFirst(email, messageIDIndex.Keys, id) ==>
        thread == messageIDIndex[id] && id in messageIDIndex[id].Ids()
    {
      hide RefersFirst, RefersNowhere;
      var hit := FirstIndexed(email);
      ReferencesAreFollowed(email, messageIDIndex.Keys);
      thread := if hit.Some? then messageIDIndex[hit.value] else null;
    }

    method FirstIndexed(email: Email) returns (hit: Option<string>)
      ensures hit == First(Candidates(email), messageIDIndex.Keys)
    {
      FirstOfConcat(if email.inReplyTo != "" then [email.inReplyTo] else [], email.references, messageIDIndex.Keys);
      if email.inReplyTo != "" && email.inReplyTo in messageIDIndex {
        return Some(email.inReplyTo);
      }
      var i := 0;
      while i < |email.references|
        invariant 0 <= i <= |email.references|
        invariant First(email.references, messageIDIndex.Keys) == First(email.references[i..], messageIDIndex.Keys)
      {
        if email.references[i] in messageIDIndex {
          return Some(email.references[i]);
        }
        i := i + 1;
      }
      return None;
    }

    /** The external resolver's answer for In-Reply-To, then for each reference; an empty id does
        not count. */
    method ResolveThread(email: Email, resolve: map<string, string>) returns (tid: Option<string>)
      ensures var known := set id | id in resolve && resolve[id] != "";
        && (tid.None? <==> RefersNowhere(email, known))
        && forall id :: RefersFirst(email, known, id) ==> tid == Some(resolve[id])
    {
      hide RefersFirst, RefersNowhere;
      var hit := FirstAnswered(email, resolve);
      ReferencesAreFollowed(email, Answered(resolve));
      tid := if hit.Some? then Some(resolve[hit.value]) else None;
    }

    static method FirstAnswered(email: Email, resolve: map<string, string>) returns (hit: Option<string>)
      ensures hit == First(Candidates(email), Answered(resolve))
    {
      FirstOfConcat(if email.inReplyTo != "" then [email.inReplyTo] else [], email.references, Answered(resolve));
      if email.inReplyTo != "" && email.inReplyTo in resolve && resolve[email.inReplyTo] != "" {
        return Some(email.inReplyTo);
      }
      var i := 0;
      while i < |email.references|
        invariant 0 <= i <= |email.references|
        invariant First(email.references, Answered(resolve)) == First(email.references[i..], Answered(resolve))
      {
        var id := email.references[i];
        if id in resolve && resolve[id] != "" {
          return Some(id);
        }
        i := i + 1;
      }
      return None;
    }

    method CacheThread(receiver: string, thread: EmailThread?, now: int)
      requires Valid()
      modifies this, (if thread == null then {} else {thread})`lastAccessed
      ensures Valid()
      ensures thread == null || thread.threadID == "" ==>
        knownThreads == old(knownThreads) && messageIDIndex == old(messageIDIndex)
      ensures thread != null && thread.threadID != "" ==>
        && thread.lastAccessed == now
        && Limited(old(knownThreads)[receiver + "|" + thread.threadID := thread], Indexed(old(messageIDIndex), thread),
                   knownThreads, messageIDIndex)
    {
      hide Limited, IndexSound, Indexed;
      if thread == null || thread.threadID == "" {
        return;
      }
      var key := receiver + "|" + thread.threadID;
      thread.lastAccessed := now;
      assert IndexSound(messageIDIndex);
      knownThreads := knownThreads[key := thread];
      ghost var index := messageIDIndex;
      UpdateIndex(thread);
      assert IndexSound(index);
      IndexedIsSound(index, thread);
      EnforceLimit();
    }

    /** Forwarded mail starts its own thread. Otherwise the resolver decides; when it knows none
        of the ids, the index does. */
    method DetermineThread(receiver: string, email: Email, resolve: map<string, string>, now: int)
      returns (thread: EmailThread)
      requires Valid()
      modifies this, knownThreads.Values, messageIDIndex.Values
      ensures Valid()
      ensures var known := set id | id in resolve && resolve[id] != "";
        if email.forwarded then
          fresh(thread) && NewFor(email, thread, old(knownThreads), old(messageIDIndex), knownThreads, messageIDIndex)
        else if !RefersNowhere(email, known) then
          && CleanedUp(old(AgesOf(knownThreads)), knownThreads.Keys, now - old(lastCleanup), now)
          && forall id :: RefersFirst(email, known, id) ==> Resolved(knownThreads, receiver, resolve[id], thread)
        else if !RefersNowhere(email, old(messageIDIndex).Keys) then
          && knownThreads == old(knownThreads) && messageIDIndex == old(messageIDIndex)
          && forall id :: RefersFirst(email, old(messageIDIndex).Keys, id) ==>
               thread == old(messageIDIndex)[id] && id in old(thread.Ids())
        else
          fresh(thread) && NewFor(email, thread, old(knownThreads), old(messageIDIndex), knownThreads, messageIDIndex)
      ensures fresh(thread) || thread in old(knownThreads).Values || thread in old(messageIDIndex).Values
      ensures email.messageID != "" ==> email.messageID in thread.Ids()
      ensures !fresh(thread) ==> thread.Ids() == old(thread.Ids()) + ({email.messageID} - {""})
      ensures SubIndex(old(messageIDIndex), messageIDIndex) && |knownThreads| <= |old(knownThreads)| + 1
    {
      hide IndexSound, First, EmailThread.Ids, CleanedUp, AgesOf, NewFor, Resolved, SubIndex, NewID;
      hide RefersFirst, RefersNowhere;
      if email.forwarded {
        thread := CreateNewThread(email, now);
        return;
      }
      var tid := ResolveThread(email, resolve);
      if tid.Some? {
        thread := JoinResolved(receiver, email, tid.value, now);
        return;
      }
      thread := JoinIndexed(email, now);
    }

    /** The in-memory match: the email joins the thread the index gives for its first indexed id,
        and that thread contains the id; when there is none, it starts a new thread. */
    method JoinIndexed(email: Email, now: int) returns (thread: EmailThread)
      requires Valid()
      modifies `knownThreads, `messageIDIndex
      modifies messageIDIndex.Values`participants, messageIDIndex.Values`added
      modifies messageIDIndex.Values`removed, messageIDIndex.Values`references
      ensures Valid()
      ensures !RefersNowhere(email, old(messageIDIndex).Keys) ==>
        && knownThreads == old(knownThreads) && messageIDIndex == old(messageIDIndex)
        && thread in old(messageIDIndex).Values
        && forall id :: RefersFirst(email, old(messageIDIndex).Keys, id) ==>
             thread == old(messageIDIndex)[id] && id in old(thread.Ids())
      ensures RefersNowhere(email, old(messageIDIndex).Keys) ==>
        fresh(thread) && NewFor(email, thread, old(knownThreads), old(messageIDIndex), knownThreads, messageIDIndex)
      ensures forall t :: t in old(messageIDIndex).Values && t != thread ==> unchanged(t)
      ensures email.messageID != "" ==> email.messageID in thread.Ids()
      ensures !fresh(thread) ==> thread.Ids() == old(thread.Ids()) + ({email.messageID} - {""})
      ensures SubIndex(old(messageIDIndex), messageIDIndex) && |knownThreads| <= |old(knownThreads)| + 1
    {
      hide IndexSound, First, EmailThread.Ids, NewFor, RefersFirst, RefersNowhere, NewID;
      var found := FindThread(email);
      if found != null {
        thread := JoinFound(email, found);
        return;
      }
      thread := CreateNewThread(email, now);
    }

    /** The resolver named a thread: the cached one, or a bare one made for it. */
    method JoinResolved(receiver: string, email: Email, tid: string, now: int) returns (thread: EmailThread)
      requires Valid()
      modifies this, knownThreads.Values
      ensures Valid() && SubIndex(old(messageIDIndex), messageIDIndex) && |knownThreads| <= |old(knownThreads)|
      ensures CleanedUp(old(AgesOf(knownThreads)), knownThreads.Keys, now - old(lastCleanup), now)
      ensures Resolved(knownThreads, receiver, tid, thread)
      ensures fresh(thread) || thread in old(knownThreads).Values
      ensures fresh(thread) <==> receiver + "|" + tid !in knownThreads && tid !in knownThreads
      ensures email.messageID != "" ==> email.messageID in thread.Ids()
      ensures !fresh(thread) ==> thread.Ids() == old(thread.Ids()) + ({email.messageID} - {""})
    {
      hide Removed, IndexSound, SubIndex, EmailThread.Ids, CleanedUp;
      var cached := GetThreadByID(receiver, tid, now);
      RemovedKeeps(old(knownThreads), old(messageIDIndex), knownThreads, messageIDIndex);
      if cached == null {
        thread := BareThread(tid, email, now);
        assert IndexSound(messageIDIndex);
        return;
      }
      assert cached.Ids() == old(cached.Ids());
      thread := JoinFound(email, cached);
    }

    static method BareThread(tid: string, email: Email, now: int) returns (thread: EmailThread)
      ensures fresh(thread) && thread.threadID == tid
      ensures email.messageID != "" ==> email.messageID in thread.Ids()
    {
      thread := new EmailThread(tid, email.subject, {}, "", "", [], now);
      thread.Add(email);
    }

    /** The index named a thread. */
    method JoinFound(email: Email, found: EmailThread) returns (thread: EmailThread)
      requires Valid()
      modifies found`participants, found`added, found`removed, found`references
      ensures Valid() && thread == found
      ensures thread.Ids() == old(thread.Ids()) + ({email.messageID} - {""})
    {
      hide EmailThread.Ids;
      thread := found;
      thread.Add(email);
      assert old(thread.Ids()) <= thread.Ids();
    }

    /** The processor determines a thread and caches it. `cached` is the cache right before the
        size check. Afterwards an id of the thread leads to the thread if and only if the size
        check removed no entry whose thread has that id, and to no other thread ever. */
    method Place(receiver: string, email: Email, resolve: map<string, string>, now: int)
      returns (thread: EmailThread, ghost cached: map<string, EmailThread>)
      requires Valid()
      modifies this, knownThreads.Values, messageIDIndex.Values
      ensures Valid()
      ensures fresh(thread) || thread in old(knownThreads).Values || thread in old(messageIDIndex).Values
      ensures email.messageID != "" ==> email.messageID in thread.Ids()
      ensures |cached| <= |old(knownThreads)| + 2
      ensures thread.threadID != "" ==>
        && receiver + "|" + thread.threadID in cached && cached[receiver + "|" + thread.threadID] == thread
        && (|cached| <= MAX_CACHED_THREADS ==> knownThreads == cached)
        && LeadsTo(thread, cached, knownThreads, messageIDIndex)
      ensures forall id :: id in messageIDIndex ==>
        messageIDIndex[id] == thread || (id in old(messageIDIndex) && messageIDIndex[id] == old(messageIDIndex)[id])
    {
      hide IndexSound, First, Limited, EmailThread.Ids, Indexed, LeadsTo;
      thread := DetermineThread(receiver, email, resolve, now);
      ghost var known, index := knownThreads, messageIDIndex;
      cached := known[receiver + "|" + thread.threadID := thread];
      InsertSize(known, receiver + "|" + thread.threadID, thread);
      CacheThread(receiver, thread, now);
      if thread.threadID != "" {
        LeadsToThread(cached, index, thread, knownThreads, messageIDIndex);
      }
    }

    /** A reply that names the email just placed, in In-Reply-To or in References, joins the email's
        thread when the size check removed nothing and the ids it names before that one are not
        indexed. LeadsHome has the case of an eviction. */
    method PlaceThenReply(receiver: string, email: Email, resolve: map<string, string>, now: int,
                          reply: Email, later: int)
      returns (thread: EmailThread, joined: EmailThread, ghost cached: map<string, EmailThread>,
               ghost known: map<string, EmailThread>, ghost index: map<string, EmailThread>)
      requires Valid() && email.messageID != ""
      modifies this, knownThreads.Values, messageIDIndex.Values
      ensures Valid() && |cached| <= |old(knownThreads)| + 2
      ensures thread.threadID != "" && |cached| <= MAX_CACHED_THREADS ==> known == cached
      ensures thread.threadID != "" && known == cached && Names(reply, email.messageID, index.Keys) ==> joined == thread
    {
      hide IndexSound, EmailThread.Ids, LeadsTo, RefersFirst, RefersNowhere, NewFor, SubIndex, NewID, Names;
      thread, cached := Place(receiver, email, resolve, now);
      known, index := knownThreads, messageIDIndex;
      if thread.threadID != "" && Names(reply, email.messageID, index.Keys) {
        LeadsHome(thread, cached, known, index, email.messageID, reply);
      }
      joined := JoinIndexed(reply, later);
    }
  }

  /** The email names `id`, and no other indexed id before it. */
  ghost predicate Names(email: Email, id: string, indexed: set<string>) {
    || email.inReplyTo == id
    || exists pre, post ::
         && email.references == pre + [id] + post
         && (email.inReplyTo == "" || email.inReplyTo !in indexed)
         && forall r :: r in pre ==> r !in indexed
  }

  /** The ids of `thread` lead to it, and to nothing else, unless the id is one of a thread whose
      entry is gone. */
  ghost predicate LeadsTo(thread: EmailThread, cached: map<string, EmailThread>,
                          known: map<string, EmailThread>, index: map<string, EmailThread>)
    reads thread`references, thread`threadID, thread`messageID
    reads cached.Values`references, cached.Values`threadID, cached.Values`messageID
  {
    forall id :: id in thread.Ids() ==>
      && (id in index <==> id !in IdsOf(ThreadsAt(cached, cached.Keys - known.Keys)))
      && (id in index ==> index[id] == thread)
  }

  /** A new thread with the email's ids, put into the cache under its bare id; the index gains
      nothing. */
  ghost predicate NewFor(email: Email, thread: EmailThread,
                         known0: map<string, EmailThread>, index0: map<string, EmailThread>,
                         known: map<string, EmailThread>, index: map<string, EmailThread>)
    reads thread, known0.Values, index.Values
  {
    && thread.threadID == (if email.messageID != "" then email.messageID else email.fallbackID)
    && thread.messageID == email.messageID && thread.references == email.references
    && Limited(known0[thread.threadID := thread], index0, known, index)
  }

  /** The thread for a resolved id: under the receiver's key, else under the bare id, else a
      bare one made for it. */
  ghost predicate Resolved(known: map<string, EmailThread>, receiver: string, tid: string, thread: EmailThread)
    reads thread
  {
    if receiver + "|" + tid in known then thread == known[receiver + "|" + tid]
    else if tid in known then thread == known[tid]
    else thread.threadID == tid
  }

  /** Nothing was added to the index and nothing in it changed. */
  ghost predicate SubIndex(index0: map<string, EmailThread>, index: map<string, EmailThread>) {
    forall id :: id in index ==> id in index0 && index[id] == index0[id]
  }

  /** Within the hour everything stays; after it, exactly what was used within the day. */
  ghost predicate CleanedUp(ages: map<string, int>, keys: set<string>, sinceLast: int, now: int) {
    keys <= ages.Keys &&
    forall k :: k in ages ==> (k in keys <==> sinceLast < HOUR || ages[k] >= now - THREAD_CACHE_TTL)
  }

  lemma StaysWithinHour(known: map<string, EmailThread>, sinceLast: int, now: int)
    requires sinceLast < HOUR
    ensures CleanedUp(AgesOf(known), known.Keys, sinceLast, now)
  {
  }

  ghost predicate ExactlyExpired(known: map<string, EmailThread>, keys: seq<string>, cutoff: int)
    reads known.Values`lastAccessed
  {
    forall k :: k in keys <==> k in known && known[k].lastAccessed < cutoff
  }

  lemma ExpiredGone(known: map<string, EmailThread>, keys: seq<string>, sinceLast: int, now: int)
    requires ExactlyExpired(known, keys, now - THREAD_CACHE_TTL) && sinceLast >= HOUR
    ensures Present(keys, known)
    ensures CleanedUp(AgesOf(known), (known - KeysOf(keys)).Keys, sinceLast, now)
    ensures |known - KeysOf(keys)| <= |known|
  {
    SmallerMap(known, KeysOf(keys));
  }

  lemma SmallerMap(known: map<string, EmailThread>, gone: set<string>)
    ensures |known - gone| <= |known|
    ensures gone <= known.Keys ==> |known - gone| == |known| - |gone|
  {
    assert (known - gone).Keys == known.Keys - gone;
    assert known.Keys == (known.Keys - gone) + (known.Keys * gone);
    if gone <= known.Keys { assert known.Keys * gone == gone; }
  }

  lemma RemovedIsSound(known0: map<string, EmailThread>, index0: map<string, EmailThread>,
                       known: map<string, EmailThread>, index: map<string, EmailThread>)
    requires Removed(known0, index0, known, index)
    ensures IndexSound(index)
  {
  }

  lemma RemovedKeeps(known0: map<string, EmailThread>, index0: map<string, EmailThread>,
                     known: map<string, EmailThread>, index: map<string, EmailThread>)
    requires Removed(known0, index0, known, index)
    ensures known.Keys <= known0.Keys && index.Keys <= index0.Keys
    ensures forall k :: k in known ==> known[k] == known0[k]
    ensures forall id :: id in index ==> index[id] == index0[id]
    ensures known.Values <= known0.Values
    ensures SubIndex(index0, index) && |known| <= |known0|
  {
    SmallerMap(known0, known0.Keys - known.Keys);
  }

  lemma LeadsToThread(known0: map<string, EmailThread>, index0: map<string, EmailThread>, thread: EmailThread,
                      known: map<string, EmailThread>, index: map<string, EmailThread>)
    requires Limited(known0, Indexed(index0, thread), known, index)
    ensures LeadsTo(thread, known0, known, index)
    ensures |known0| <= MAX_CACHED_THREADS ==> known == known0
    ensures forall id :: id in index ==> index[id] == thread || (id in index0 && index[id] == index0[id])
  {
    LimitedKeeps(known0, Indexed(index0, thread), known, index);
  }

  lemma NamesMeans(email: Email, id: string, indexed: set<string>)
    requires Names(email, id, indexed) && id != "" && id in indexed
    ensures RefersFirst(email, indexed, id) && !RefersNowhere(email, indexed)
  {
    if email.inReplyTo != id {
      var pre, post :| email.references == pre + [id] + post
        && (email.inReplyTo == "" || email.inReplyTo !in indexed) && forall r :: r in pre ==> r !in indexed;
      assert email.references[|pre|] == id;
      assert forall k :: 0 <= k < |pre| ==> email.references[k] == pre[k];
    }
  }

  /** A reply that names an id which leads to the thread finds the thread. */
  lemma LeadsHome(thread: EmailThread, cached: map<string, EmailThread>, known: map<string, EmailThread>,
                  index: map<string, EmailThread>, id: string, reply: Email)
    requires LeadsTo(thread, cached, known, index) && id in thread.Ids() && id != "" && Names(reply, id, index.Keys)
    ensures known == cached || id !in IdsOf(ThreadsAt(cached, cached.Keys - known.Keys)) ==>
      && id in index && index[id] == thread
      && RefersFirst(reply, index.Keys, id) && !RefersNowhere(reply, index.Keys)
  {
    hide RefersFirst, RefersNowhere, Names;
    if known == cached {
      assert cached.Keys - known.Keys == {};
      NoThreads(cached);
    }
    if id in index { NamesMeans(reply, id, index.Keys); }
  }

  lemma InsertSize(known: map<string, EmailThread>, key: string, thread: EmailThread)
    ensures |known[key := thread]| <= |known| + 1
  {
  }

  lemma LimitedKeeps(known0: map<string, EmailThread>, index0: map<string, EmailThread>,
                     known: map<string, EmailThread>, index: map<string, EmailThread>)
    requires Limited(known0, index0, known, index)
    ensures SubIndex(index0, index)
    ensures |known0| <= MAX_CACHED_THREADS ==> index == index0
    ensures |known| <= |known0|
  {
    SmallerMap(known0, known0.Keys - known.Keys);
  }

  lemma RemovedSize(known0: map<string, EmailThread>, known: map<string, EmailThread>)
    requires known == known0 - (known0.Keys - known.Keys)
    ensures |known| == |known0| - |known0.Keys - known.Keys|
  {
    SmallerMap(known0, known0.Keys - known.Keys);
  }

  /** What the size check does: nothing below the limit; above it a quarter of the limit goes,
      oldest first, out of the cache and out of the index. */
  ghost predicate Limited(known0: map<string, EmailThread>, index0: map<string, EmailThread>,
                          known: map<string, EmailThread>, index: map<string, EmailThread>)
    reads known0.Values, index.Values
  {
    && (|known0| <= MAX_CACHED_THREADS ==> known == known0 && index == index0)
    && (|known0| > MAX_CACHED_THREADS ==> |known0.Keys - known.Keys| == MAX_CACHED_THREADS / 4)
    && Removed(known0, index0, known, index)
    && OldestFirst(known0, known)
  }

  ghost function AgesOf(m: map<string, EmailThread>): map<string, int>
    reads m.Values`lastAccessed
  {
    map k | k in m :: m[k].lastAccessed
  }

  lemma SameKeys(m: map<string, EmailThread>)
    ensures AgesOf(m).Keys == m.Keys
  {
  }

  ghost predicate Lists(entries: multiset<Entry>, ages: map<string, int>) {
    forall e :: entries[e] == if e.key in ages && ages[e.key] == e.lastAccessed then 1 else 0
  }

  /** What eviction and clean-up do to the maps, given which cache entries are gone. */
  ghost predicate Removed(known0: map<string, EmailThread>, index0: map<string, EmailThread>,
                          known: map<string, EmailThread>, index: map<string, EmailThread>)
    reads known0.Values`references, known0.Values`threadID, known0.Values`messageID
    reads index.Values`references, index.Values`threadID, index.Values`messageID
  {
    var gone := ThreadsAt(known0, known0.Keys - known.Keys);
    && known == known0 - (known0.Keys - known.Keys)
    && index == index0 - IdsOf(gone)
    && IndexSound(index)
    && Unreachable(index, gone)
  }

  lemma NothingRemoved(known: map<string, EmailThread>, index: map<string, EmailThread>)
    requires IndexSound(index)
    ensures OldestFirst(known, known) && Removed(known, index, known, index)
  {
    assert known.Keys - known.Keys == {};
    assert known - {} == known && index - {} == index;
    assert ThreadsAt(known, {}) == {} && IdsOf({}) == {};
  }

  lemma RemovedByKeys(known: map<string, EmailThread>, index: map<string, EmailThread>, keys: seq<string>)
    requires IndexSound(index) && Present(keys, known)
    ensures Removed(known, index, known - KeysOf(keys), index - IdsOf(ThreadsAt(known, KeysOf(keys))))
  {
    assert known.Keys - (known - KeysOf(keys)).Keys == KeysOf(keys);
    WithoutIdsUnreachable(index, ThreadsAt(known, KeysOf(keys)));
  }

  /** Nothing that is gone was used more recently than anything that stayed. */
  ghost predicate OldestFirst(known0: map<string, EmailThread>, known: map<string, EmailThread>)
    reads known0.Values`lastAccessed
  {
    forall r, s :: r in known0 && r !in known && s in known0 && s in known ==>
      known0[r].lastAccessed <= known0[s].lastAccessed
  }

  ghost predicate OldestOf(keys: seq<string>, ages: map<string, int>) {
    && (forall k :: k in keys ==> k in ages.Keys)
    && forall r, s :: r in keys && s in ages && s !in keys ==> ages[r] <= ages[s]
  }

  lemma OldestGone(known: map<string, EmailThread>, keys: seq<string>)
    requires OldestOf(keys, AgesOf(known))
    ensures OldestFirst(known, known - KeysOf(keys))
    ensures known.Keys - (known - KeysOf(keys)).Keys == KeysOf(keys)
  {
    assert forall r :: r in known ==> AgesOf(known)[r] == known[r].lastAccessed;
  }

  lemma Twice(s: seq<Entry>, i: nat, j: nat)
    requires i < j < |s| && s[i] == s[j]
    ensures multiset(s)[s[i]] >= 2
  {
    assert s == s[..i] + [s[i]] + s[i + 1..j] + [s[j]] + s[j + 1..];
  }

  /** The first `count` keys of an ordered listing: distinct, present, and the oldest. */
  lemma OldestKeys(sorted: seq<Entry>, ages: map<string, int>, count: nat, keys: seq<string>)
    requires Ordered(sorted) && Lists(multiset(sorted), ages) && count <= |sorted|
    requires |keys| == count && forall i :: 0 <= i < count ==> keys[i] == sorted[i].key
    ensures Distinct(keys) && |KeysOf(keys)| == count && OldestOf(keys, ages)
  {
    hide Ordered, Lists, OldestOf;
    KeysDistinct(sorted, ages, keys);
    KeysOldest(sorted, ages, keys);
    DistinctSize(keys);
  }

  lemma KeysDistinct(sorted: seq<Entry>, ages: map<string, int>, keys: seq<string>)
    requires Lists(multiset(sorted), ages) && |keys| <= |sorted|
    requires forall i :: 0 <= i < |keys| ==> keys[i] == sorted[i].key
    ensures Distinct(keys)
  {
    Listed(sorted, ages);
    hide Lists;
    forall i, j | 0 <= i < j < |keys| ensures keys[i] != keys[j] {
      if keys[i] == keys[j] {
        assert sorted[i] == sorted[j];
        ListedOnce(multiset(sorted), ages, sorted[i]);
        Twice(sorted, i, j);
      }
    }
  }

  lemma ListedOnce(entries: multiset<Entry>, ages: map<string, int>, e: Entry)
    requires Lists(entries, ages)
    ensures entries[e] <= 1
  {
  }

  lemma KeysOldest(sorted: seq<Entry>, ages: map<string, int>, keys: seq<string>)
    requires Ordered(sorted) && Lists(multiset(sorted), ages) && |keys| <= |sorted|
    requires forall i :: 0 <= i < |keys| ==> keys[i] == sorted[i].key
    ensures OldestOf(keys, ages)
  {
    Listed(sorted, ages);
    hide Lists;
    forall r, s | r in keys && s in ages && s !in keys ensures ages[r] <= ages[s] {
      var i :| 0 <= i < |keys| && keys[i] == r;
      var j :| 0 <= j < |sorted| && sorted[j].key == s;
      assert j >= |keys|;
    }
  }

  lemma Listed(s: seq<Entry>, ages: map<string, int>)
    requires Lists(multiset(s), ages)
    ensures forall i :: 0 <= i < |s| ==> s[i].key in ages && ages[s[i].key] == s[i].lastAccessed
    ensures forall k :: k in ages ==> exists j :: 0 <= j < |s| && s[j].key == k
  {
    forall i | 0 <= i < |s| ensures s[i].key in ages && ages[s[i].key] == s[i].lastAccessed {
      assert s[i] in multiset(s);
    }
    forall k | k in ages ensures exists j :: 0 <= j < |s| && s[j].key == k {
      assert Entry(k, ages[k]) in multiset(s);
      assert Entry(k, ages[k]) in s;
    }
  }

  lemma DistinctSize(keys: seq<string>)
    requires Distinct(keys)
    ensures |KeysOf(keys)| == |keys|
  {
    if keys != [] {
      var n := |keys| - 1;
      DistinctSize(keys[..n]);
      NotYet(keys, n);
      assert keys[..n + 1] == keys;
    }
  }

  ghost predicate Present(keys: seq<string>, known: map<string, EmailThread>) { forall k :: k in keys ==> k in known }

  ghost function KeysOf(keys: seq<string>): set<string> { set k | k in keys }

  lemma NotYet(keys: seq<string>, i: nat)
    requires i < |keys| && Distinct(keys)
    ensures keys[i] !in KeysOf(keys[..i])
    ensures KeysOf(keys[..i + 1]) == KeysOf(keys[..i]) + {keys[i]}
  {
    assert keys[..i + 1] == keys[..i] + [keys[i]];
  }

  lemma NoThreads(m: map<string, EmailThread>)
    ensures KeysOf([]) == {} && ThreadsAt(m, {}) == {} && IdsOf({}) == {}
  {
  }

  lemma OneMore(m: map<string, EmailThread>, keys: seq<string>, i: nat)
    requires i < |keys| && keys[i] in m
    requires Distinct(keys)
    ensures IdsOf(ThreadsAt(m, KeysOf(keys[..i + 1]))) ==
            IdsOf(ThreadsAt(m, KeysOf(keys[..i]))) + m[keys[i]].Ids()
  {
    NotYet(keys, i);
    assert ThreadsAt(m, KeysOf(keys[..i]) + {keys[i]}) == ThreadsAt(m, KeysOf(keys[..i])) + {m[keys[i]]};
    IdsOfUnion(ThreadsAt(m, KeysOf(keys[..i])), m[keys[i]]);
  }

  lemma IdsOfUnion(threads: set<EmailThread>, t: EmailThread)
    ensures IdsOf(threads + {t}) == IdsOf(threads) + t.Ids()
  {
  }
}
