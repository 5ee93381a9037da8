/** The hand-written insertion sort of evictOldestThreads (pkg/email/threading.go:569-578). */
module AgeSort {

  datatype Entry = Entry(key: string, lastAccessed: int)

  /** `e` behind every trailing entry that is not younger. */
  function Insert(s: seq<Entry>, e: Entry): seq<Entry> {
    if s == [] || s[|s| - 1].lastAccessed <= e.lastAccessed then s + [e]
    else Insert(s[..|s| - 1], e) + [s[|s| - 1]]
  }

  function Sorted(s: seq<Entry>): seq<Entry> {
    if s == [] then [] else Insert(Sorted(s[..|s| - 1]), s[|s| - 1])
  }

  ghost predicate Ordered(s: seq<Entry>) {
    forall i, j :: 0 <= i <= j < |s| ==> s[i].lastAccessed <= s[j].lastAccessed
  }

  ghost predicate AtMost(s: seq<Entry>, bound: int) { forall i :: 0 <= i < |s| ==> s[i].lastAccessed <= bound }

  lemma {:induction false} InsertPermutes(s: seq<Entry>, e: Entry)
    ensures multiset(Insert(s, e)) == multiset(s) + multiset{e}
  {
    if s != [] && s[|s| - 1].lastAccessed > e.lastAccessed {
      assert s == s[..|s| - 1] + [s[|s| - 1]];
      InsertPermutes(s[..|s| - 1], e);
    }
  }

  lemma {:induction false} InsertAtMost(s: seq<Entry>, e: Entry, bound: int)
    requires AtMost(s, bound) && e.lastAccessed <= bound
    ensures AtMost(Insert(s, e), bound)
  {
    if s != [] && s[|s| - 1].lastAccessed > e.lastAccessed {
      InsertAtMost(s[..|s| - 1], e, bound);
    }
  }

  lemma AppendOrdered(s: seq<Entry>, e: Entry)
    requires Ordered(s) && AtMost(s, e.lastAccessed)
    ensures Ordered(s + [e])
  {
  }

  lemma {:induction false} InsertOrdered(s: seq<Entry>, e: Entry)
    requires Ordered(s)
    ensures Ordered(Insert(s, e))
  {
    if s == [] || s[|s| - 1].lastAccessed <= e.lastAccessed {
      AppendOrdered(s, e);
    } else {
      var front, last := s[..|s| - 1], s[|s| - 1];
      InsertOrdered(front, e);
      InsertAtMost(front, e, last.lastAccessed);
      AppendOrdered(Insert(front, e), last);
    }
  }

  /** Sorting yields an ordered permutation. */
  lemma {:induction false} SortedMeans(s: seq<Entry>)
    ensures Ordered(Sorted(s)) && multiset(Sorted(s)) == multiset(s)
  {
    if s != [] {
      assert s == s[..|s| - 1] + [s[|s| - 1]];
      SortedMeans(s[..|s| - 1]);
      InsertPermutes(Sorted(s[..|s| - 1]), s[|s| - 1]);
      InsertOrdered(Sorted(s[..|s| - 1]), s[|s| - 1]);
    }
  }

  lemma SortedLength(s: seq<Entry>)
    ensures |Sorted(s)| == |s|
  {
    SortedMeans(s);
    assert |multiset(Sorted(s))| == |multiset(s)|;
  }

  lemma InsertUnder(q: seq<Entry>, e: Entry, last: Entry)
    requires last.lastAccessed > e.lastAccessed
    ensures Insert(q + [last], e) == Insert(q, e) + [last]
  {
    assert (q + [last])[..|q|] == q;
  }

  /** Entry j of the prefix is younger than `e` and stays behind it. */
  lemma InsertStep(p: seq<Entry>, e: Entry, j: nat)
    requires j < |p| && p[j].lastAccessed > e.lastAccessed
    requires Insert(p, e) == Insert(p[..j + 1], e) + p[j + 1..]
    ensures Insert(p, e) == Insert(p[..j], e) + p[j..]
  {
    hide Insert;
    InsertUnder(p[..j], e, p[j]);
    assert p[..j + 1] == p[..j] + [p[j]] && p[j..] == [p[j]] + p[j + 1..];
  }

  lemma InsertStops(p: seq<Entry>, key: Entry, j: int)
    requires -1 <= j < |p| && (j >= 0 ==> p[j].lastAccessed <= key.lastAccessed)
    ensures Insert(p[..j + 1], key) == p[..j + 1] + [key]
  {
  }

  /** Entries j+1 .. i-1 have moved one place up; all others are where they were. */
  ghost predicate Shifted(s: seq<Entry>, was: seq<Entry>, i: nat, j: int) {
    && -1 <= j < i < |was| == |s|
    && (forall k :: 0 <= k <= j || i < k < |s| ==> s[k] == was[k])
    && (forall k :: j + 2 <= k <= i ==> s[k] == was[k - 1])
  }

  lemma ShiftOne(s: seq<Entry>, was: seq<Entry>, i: nat, j: nat)
    requires Shifted(s, was, i, j)
    ensures Shifted(s[j + 1 := s[j]], was, i, j - 1) && s[j] == was[j]
  {
  }

  lemma PutBack(s: seq<Entry>, was: seq<Entry>, i: nat, j: int)
    requires Shifted(s, was, i, j)
    ensures var r := s[j + 1 := was[i]];
      && r[..i + 1] == was[..j + 1] + [was[i]] + was[j + 1..i]
      && forall k :: i < k < |r| ==> r[k] == was[k]
  {
  }

  lemma Bounds(s: seq<Entry>, was: seq<Entry>, i: nat, j: int)
    requires Shifted(s, was, i, j)
    ensures -1 <= j < i < |was| == |s| && (j >= 0 ==> s[j] == was[j])
  {
  }

  lemma NoShift(s: seq<Entry>, i: nat)
    requires 0 < i < |s|
    ensures Shifted(s, s, i, i - 1)
  {
  }

  /** The inner loop: entry `i` moves down into the sorted prefix, in place. */
  method InsertInPlace(a: array<Entry>, i: nat)
    requires 0 < i < a.Length
    modifies a
    ensures a[..i + 1] == Insert(old(a[..i]), old(a[i]))
    ensures forall k :: i < k < a.Length ==> a[k] == old(a[k])
  {
    hide Insert, Shifted;
    var key := a[i];
    ghost var was := a[..];
    ghost var p := was[..i];
    var j := i - 1;
    NoShift(was, i);
    assert p[..j + 1] == p && p[j + 1..] == [];
    while j >= 0 && a[j].lastAccessed > key.lastAccessed
      invariant -1 <= j < i
      invariant Shifted(a[..], was, i, j)
      invariant Insert(p, key) == Insert(p[..j + 1], key) + p[j + 1..]
    {
      ghost var s := a[..];
      ShiftOne(s, was, i, j);
      InsertStep(p, key, j);
      a[j + 1] := a[j];
      assert a[..] == s[j + 1 := s[j]];
      j := j - 1;
    }
    Bounds(a[..], was, i, j);
    InsertStops(p, key, j);
    PutBack(a[..], was, i, j);
    ghost var r := a[..][j + 1 := key];
    a[j + 1] := key;
    assert a[..] == r;
    assert p[j + 1..] == was[j + 1..i] && a[..i + 1] == r[..i + 1];
  }

  lemma SortedStep(s: seq<Entry>, i: nat)
    requires i < |s|
    ensures Sorted(s[..i + 1]) == Insert(Sorted(s[..i]), s[i])
  {
    assert s[..i + 1][..i] == s[..i];
  }

  method SortByAge(a: array<Entry>)
    modifies a
    ensures a[..] == Sorted(old(a[..]))
  {
    hide Sorted, Insert;
    ghost var was := a[..];
    SortsShort(was);
    if a.Length == 0 { return; }
    var i := 1;
    while i < a.Length
      invariant 1 <= i <= a.Length
      invariant a[..i] == Sorted(was[..i])
      invariant forall k :: i <= k < a.Length ==> a[k] == was[k]
    {
      SortedStep(was, i);
      InsertInPlace(a, i);
      i := i + 1;
    }
    assert a[..i] == a[..] && was[..i] == was;
  }

  lemma SortsShort(s: seq<Entry>)
    ensures s == [] ==> Sorted(s) == s
    ensures s != [] ==> Sorted(s[..1]) == s[..1]
  {
    if s != [] { assert s[..1][..0] == []; }
  }

  /** The sort as its caller uses it, on a slice built for the purpose. */
  method SortEntries(entries: seq<Entry>) returns (sorted: seq<Entry>)
    ensures |sorted| == |entries| && Ordered(sorted) && multiset(sorted) == multiset(entries)
  {
    hide Sorted, Ordered;
    var a := new Entry[|entries|](i requires 0 <= i < |entries| => entries[i]);
    assert a[..] == entries;
    SortByAge(a);
    SortedMeans(entries);
    SortedLength(entries);
    sorted := a[..];
  }
}
