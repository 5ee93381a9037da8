/** What is left of comments, scripts and styles after all steps of boundedMinifyHTML
    (pkg/email/processor.go:1295-1326): each step alone reaches its fixed point, but a later step
    can splice together what an earlier one looks for. */
module Minify {
  import opened Utf8
  import opened Strippers

  /** Lower-case ASCII without white space: what the searched patterns are made of. */
  predicate Marks(p: bytes) { forall i :: 0 <= i < |p| ==> p[i] < 0x80 && !White(p[i]) && !(0x41 <= p[i] <= 0x5A) }

  ghost predicate Occurs(s: bytes, p: bytes) { exists i: nat :: At(Lower(s), p, i) }

  ghost predicate OccursBefore(s: bytes, p: bytes, q: bytes) {
    exists i: nat, j: nat :: At(Lower(s), p, i) && i + |p| <= j && At(Lower(s), q, j)
  }

  predicate Starts(s: bytes, p: bytes) { At(Lower(s), p, 0) }

  lemma OccursFrom(s: bytes, p: bytes, n: nat)
    requires n <= |s|
    ensures Occurs(s[n..], p) ==> Occurs(s, p)
    ensures Starts(s[n..], p) ==> Occurs(s, p)
  {
    assert Lower(s[n..]) == Lower(s)[n..];
    forall i: nat | At(Lower(s[n..]), p, i) ensures At(Lower(s), p, n + i) { AtDrop(Lower(s), p, n, i); }
  }

  lemma NotInside(s: bytes, p: bytes, n: nat, i: nat)
    requires 0 < i < n <= |s| && p != [] && Marks(p) && forall k :: 0 < k < n ==> s[k] >= 0x80
    ensures !At(Lower(s), p, i)
  {
    assert i + |p| <= |s| ==> Lower(s)[i..i + |p|][0] == Lower(s)[i];
  }

  /** An occurrence is at the front or behind the first `n` bytes, if it can not start among
      those after the first. */
  lemma OccursAt(s: bytes, p: bytes, n: nat)
    requires 0 < n <= |s| && p != [] && Marks(p)
    requires forall k :: 0 < k < n ==> s[k] >= 0x80
    ensures Occurs(s, p) <==> Starts(s, p) || Occurs(s[n..], p)
  {
    OccursFrom(s, p, n);
    assert Lower(s[n..]) == Lower(s)[n..];
    forall i: nat | At(Lower(s), p, i) ensures Starts(s, p) || Occurs(s[n..], p) {
      if i >= n {
        AtDrop(Lower(s), p, n, i - n);
      } else if i > 0 {
        NotInside(s, p, n, i);
      }
    }
  }

  lemma StartsWith(s: bytes, p: bytes)
    requires p != [] && Marks(p) && Starts(s, p)
    ensures s != [] && s[0] < 0x80 && !White(s[0]) && LowerByte(s[0]) == p[0] && Starts(s[1..], p[1..])
  {
    assert Lower(s)[0] == p[0];
    assert Lower(s[1..]) == Lower(s)[1..];
    assert Lower(s)[1..|p|] == Lower(s)[..|p|][1..];
  }

  lemma StartsOne(s: bytes, p: bytes)
    requires p != [] && s != [] && LowerByte(s[0]) == p[0] && Starts(s[1..], p[1..])
    ensures Starts(s, p)
  {
    assert Lower(s[1..]) == Lower(s)[1..];
    assert Lower(s)[..|p|] == [p[0]] + Lower(s[1..])[..|p| - 1];
  }

  lemma CollapsePlain(s: bytes, prevWS: bool)
    requires s != [] && s[0] < 0x80 && !White(s[0])
    ensures Collapsed(s, prevWS) == [s[0]] + Collapsed(s[1..], false)
  {
  }

  lemma StartFits(s: bytes, p: bytes)
    requires Starts(s, p)
    ensures |p| <= |s|
  {
  }

  /** A pattern at the front stays at the front, and what follows it is collapsed by itself. */
  lemma {:induction false} FrontStays(s: bytes, p: bytes, prevWS: bool)
    requires p != [] && Marks(p) && Starts(s, p)
    ensures Starts(Collapsed(s, prevWS), p) && |p| <= |s| && |p| <= |Collapsed(s, prevWS)|
    ensures Collapsed(s, prevWS)[|p|..] == Collapsed(s[|p|..], false)
    decreases |p|
  {
    hide Collapsed, Starts;
    StartsWith(s, p);
    StartFits(s, p);
    CollapsePlain(s, prevWS);
    var c := Collapsed(s, prevWS);
    assert c[1..] == Collapsed(s[1..], false);
    if |p| > 1 {
      assert Marks(p[1..]);
      FrontStays(s[1..], p[1..], false);
      StartFits(c[1..], p[1..]);
      assert c[1..][|p| - 1..] == c[|p|..] && s[1..][|p| - 1..] == s[|p|..];
    } else {
      StartsEmpty(c[1..], p[1..]);
    }
    StartsOne(c, p);
  }

  lemma StartsEmpty(s: bytes, p: bytes)
    requires p == []
    ensures Starts(s, p)
  {
  }

  /** And a pattern at the front of the result was at the front. */
  lemma {:induction false} FrontWas(s: bytes, p: bytes)
    requires p != [] && Marks(p) && Starts(Collapsed(s, false), p)
    ensures Starts(s, p)
    decreases |p|
  {
    var c := Collapsed(s, false);
    StartsWith(c, p);
    FirstByte(s);
    CollapsePlain(s, false);
    assert c[1..] == Collapsed(s[1..], false);
    if |p| > 1 {
      assert Marks(p[1..]);
      FrontWas(s[1..], p[1..]);
    }
    StartsOne(s, p);
  }

  /** What the first byte of the result says about the first byte. */
  lemma FirstByte(s: bytes)
    requires Collapsed(s, false) != []
    ensures s != []
    ensures var b := Collapsed(s, false)[0];
      if White(s[0]) then b == 0x20 else if s[0] >= 0x80 then b >= 0x80 else b == s[0]
  {
  }

  lemma RuneBytes(s: bytes)
    requires s != []
    ensures forall k :: 0 < k < Step(s) ==> s[k] >= 0x80
    ensures s[0] < 0x80 ==> Step(s) == 1
  {
  }

  lemma CollapseSplit(s: bytes, prevWS: bool) returns (head: bytes, n: nat, ws: bool)
    requires s != []
    ensures 0 < n <= |s| && Collapsed(s, prevWS) == head + Collapsed(s[n..], ws)
    ensures forall k :: 0 < k < n ==> s[k] >= 0x80
    ensures White(s[0]) <==> ws
    ensures if White(s[0]) then head == [] || head == [0x20]
            else if s[0] >= 0x80 then head != [] && forall k :: 0 <= k < |head| ==> head[k] >= 0x80
            else head == [s[0]]
  {
    RuneBytes(s);
    if White(s[0]) {
      head, n, ws := if prevWS then [] else [0x20], 1, true;
    } else {
      head, n, ws := Spell(s), Step(s), false;
    }
  }

  /** Collapsing white space neither makes nor breaks an occurrence. */
  lemma {:induction false} OccursIff(s: bytes, p: bytes, prevWS: bool)
    requires p != [] && Marks(p)
    ensures Occurs(Collapsed(s, prevWS), p) <==> Occurs(s, p)
    decreases |s|
  {
    if s != [] {
      var head, n, ws := CollapseSplit(s, prevWS);
      var c := Collapsed(s, prevWS);
      assert c[|head|..] == Collapsed(s[n..], ws);
      OccursIff(s[n..], p, ws);
      OccursAt(s, p, n);
      if head != [] {
        OccursAt(c, p, |head|);
        FrontIff(s, p, prevWS, head);
      } else if Starts(s, p) {
        StartsWith(s, p);
      }
    } else {
      assert Collapsed(s, prevWS) == s;
    }
  }

  lemma FrontIff(s: bytes, p: bytes, prevWS: bool, head: bytes)
    requires p != [] && Marks(p) && s != [] && head != [] && head <= Collapsed(s, prevWS)
    requires if White(s[0]) then head == [0x20] else if s[0] >= 0x80 then head[0] >= 0x80 else head == [s[0]]
    ensures Starts(Collapsed(s, prevWS), p) <==> Starts(s, p)
  {
    var c := Collapsed(s, prevWS);
    assert c[0] == head[0];
    if Starts(s, p) { FrontStays(s, p, prevWS); }
    if Starts(c, p) {
      StartsWith(c, p);
      assert s[0] < 0x80 && !White(s[0]);
      CollapsePlain(s, prevWS);
      CollapsePlain(s, false);
      FrontWas(s, p);
    }
  }

  // ---------- two patterns, one behind the other ----------

  lemma BeforeFrom(s: bytes, p: bytes, q: bytes, n: nat)
    requires n <= |s| && OccursBefore(s[n..], p, q)
    ensures OccursBefore(s, p, q)
  {
    assert Lower(s[n..]) == Lower(s)[n..];
    var i: nat, j: nat :| At(Lower(s[n..]), p, i) && i + |p| <= j && At(Lower(s[n..]), q, j);
    AtDrop(Lower(s), p, n, i);
    AtDrop(Lower(s), q, n, j);
    assert At(Lower(s), p, n + i) && At(Lower(s), q, n + j);
  }

  lemma BeforeAtFront(s: bytes, p: bytes, q: bytes)
    requires Starts(s, p) && Occurs(s[|p|..], q)
    ensures OccursBefore(s, p, q)
  {
    assert Lower(s[|p|..]) == Lower(s)[|p|..];
    var j: nat :| At(Lower(s[|p|..]), q, j);
    AtDrop(Lower(s), q, |p|, j);
    assert At(Lower(s), p, 0) && At(Lower(s), q, |p| + j);
  }

  lemma BeforeIsOneOf(s: bytes, p: bytes, q: bytes, n: nat, i: nat, j: nat)
    requires 0 < n <= |s| && p != [] && Marks(p) && forall k :: 0 < k < n ==> s[k] >= 0x80
    requires At(Lower(s), p, i) && i + |p| <= j && At(Lower(s), q, j)
    ensures (Starts(s, p) && Occurs(s[|p|..], q)) || OccursBefore(s[n..], p, q)
  {
    if i == 0 {
      assert Lower(s[|p|..]) == Lower(s)[|p|..];
      AtDrop(Lower(s), q, |p|, j - |p|);
    } else {
      if i < n { NotInside(s, p, n, i); }
      assert i >= n;
      assert Lower(s[n..]) == Lower(s)[n..];
      AtDrop(Lower(s), p, n, i - n);
      AtDrop(Lower(s), q, n, j - n);
      assert At(Lower(s[n..]), p, i - n) && At(Lower(s[n..]), q, j - n);
    }
  }

  lemma OccursBeforeAt(s: bytes, p: bytes, q: bytes, n: nat)
    requires 0 < n <= |s| && p != [] && Marks(p)
    requires forall k :: 0 < k < n ==> s[k] >= 0x80
    ensures Starts(s, p) ==> |p| <= |s|
    ensures OccursBefore(s, p, q) <==> (Starts(s, p) && Occurs(s[|p|..], q)) || OccursBefore(s[n..], p, q)
  {
    hide Marks, Lower;
    if OccursBefore(s, p, q) {
      var i: nat, j: nat :| At(Lower(s), p, i) && i + |p| <= j && At(Lower(s), q, j);
      BeforeIsOneOf(s, p, q, n, i, j);
    }
    if OccursBefore(s[n..], p, q) { BeforeFrom(s, p, q, n); }
    if Starts(s, p) && Occurs(s[|p|..], q) { BeforeAtFront(s, p, q); }
  }

  lemma {:induction false} OccursBeforeIff(s: bytes, p: bytes, q: bytes, prevWS: bool)
    requires p != [] && Marks(p) && q != [] && Marks(q)
    ensures OccursBefore(Collapsed(s, prevWS), p, q) <==> OccursBefore(s, p, q)
    decreases |s|
  {
    hide At, Occurs, OccursBefore, Marks;
    if s == [] {
      assert Collapsed(s, prevWS) == s;
    } else {
      var head, n, ws := CollapseSplit(s, prevWS);
      var c := Collapsed(s, prevWS);
      assert c[|head|..] == Collapsed(s[n..], ws);
      OccursBeforeIff(s[n..], p, q, ws);
      OccursBeforeAt(s, p, q, n);
      if Starts(s, p) {
        StartsWith(s, p);
        FrontStays(s, p, prevWS);
        StartFits(s, p);
        OccursIff(s[|p|..], q, false);
      }
      if head != [] {
        OccursBeforeAt(c, p, q, |head|);
        FrontIff(s, p, prevWS, head);
      }
    }
  }

  // ---------- the whole minifier ----------

  ghost predicate TagFree(s: bytes, tag: bytes) { !Occurs(s, OpenTag(tag)) }

  /** Lower-casing does not touch the marks of a comment. */
  lemma CommentMarks(s: bytes)
    ensures CommentFree(s) <==> !OccursBefore(s, COMMENT_OPEN, COMMENT_CLOSE)
  {
    hide At, Lower;
    forall i: nat ensures At(Lower(s), COMMENT_OPEN, i) <==> At(s, COMMENT_OPEN, i) {
      MarksAsTheyAre(s, COMMENT_OPEN, i);
    }
    forall j: nat ensures At(Lower(s), COMMENT_CLOSE, j) <==> At(s, COMMENT_CLOSE, j) {
      MarksAsTheyAre(s, COMMENT_CLOSE, j);
    }
    if OccursBefore(s, COMMENT_OPEN, COMMENT_CLOSE) {
      var i: nat, j: nat :|
        At(Lower(s), COMMENT_OPEN, i) && i + |COMMENT_OPEN| <= j && At(Lower(s), COMMENT_CLOSE, j);
      assert CompleteComment(s, i, j);
    } else {
      forall i: nat, j: nat ensures !CompleteComment(s, i, j) {
        assert CompleteComment(s, i, j) ==> At(Lower(s), COMMENT_OPEN, i) && At(Lower(s), COMMENT_CLOSE, j);
      }
    }
  }

  lemma MarksAsTheyAre(s: bytes, p: bytes, i: nat)
    requires forall k :: 0 <= k < |p| ==> p[k] < 0x41
    ensures At(Lower(s), p, i) <==> At(s, p, i)
  {
    if i + |p| <= |s| {
      var a, b := Lower(s)[i..i + |p|], s[i..i + |p|];
      assert forall k :: 0 <= k < |p| ==> a[k] == LowerByte(b[k]);
      assert forall k :: 0 <= k < |p| ==> (a[k] == p[k] <==> b[k] == p[k]);
      if a == p { assert forall k :: 0 <= k < |p| ==> b[k] == p[k]; assert b == p; }
      if b == p { assert forall k :: 0 <= k < |p| ==> a[k] == p[k]; assert a == p; }
    }
  }

  /** The text before white space is collapsed. */
  function Stripped(html: bytes): bytes { WithoutTag(WithoutTag(WithoutComments(html), SCRIPT), STYLE) }

  /** The minified text never holds a style opening. It holds a script opening, or a complete
      comment, exactly when removing elements has spliced one together; and none of the three
      when there was no element to remove. */
  lemma MinifiedMeans(html: bytes)
    ensures Valid(Minified(html)) && Tight(Minified(html), false)
    ensures TagFree(Minified(html), STYLE)
    ensures TagFree(Minified(html), SCRIPT) <==> TagFree(Stripped(html), SCRIPT)
    ensures CommentFree(Minified(html)) <==> CommentFree(Stripped(html))
    ensures TagFree(WithoutTag(WithoutComments(html), SCRIPT), STYLE) ==> TagFree(Minified(html), SCRIPT)
    ensures TagFree(WithoutComments(html), SCRIPT) && TagFree(WithoutComments(html), STYLE) ==>
      CommentFree(Minified(html)) && TagFree(Minified(html), SCRIPT)
  {
    hide Collapsed, WithoutTag, WithoutComments, CommentFree, Occurs, OccursBefore, At, Marks;
    hide Valid, Tight;
    var a := WithoutComments(html);
    var b := WithoutTag(a, SCRIPT);
    CollapseMeans(Stripped(html), false);
    MarksAre();
    OccursIff(Stripped(html), OpenTag(STYLE), false);
    OccursIff(Stripped(html), OpenTag(SCRIPT), false);
    OccursBeforeIff(Stripped(html), COMMENT_OPEN, COMMENT_CLOSE, false);
    CommentMarks(Stripped(html));
    CommentMarks(Minified(html));
    StripLeavesNone(b, STYLE);
    StripLeavesNone(a, SCRIPT);
    CommentsGo(html);
  }

  lemma MarksAre()
    ensures Marks(OpenTag(STYLE)) && Marks(OpenTag(SCRIPT)) && Marks(COMMENT_OPEN) && Marks(COMMENT_CLOSE)
  {
  }

  lemma StripLeavesNone(s: bytes, tag: bytes)
    ensures TagFree(WithoutTag(s, tag), tag)
    ensures TagFree(s, tag) ==> WithoutTag(s, tag) == s
  {
    hide At, Lower, Index;
    TagsAreGone(s, tag);
  }

  // ---------- splicing does happen ----------

  // <!<script></script>--x-->
  const HEAD: bytes := [0x3C, 0x21]
  const TAIL: bytes := [0x2D, 0x2D, 0x78, 0x2D, 0x2D, 0x3E]
  const REST: bytes := OpenTag(SCRIPT) + ([0x3E] + (CloseTag(SCRIPT) + TAIL))
  const SPLIT_COMMENT: bytes := HEAD + REST

  lemma AtMiddle(a: bytes, b: bytes, c: bytes)
    ensures At(a + (b + c), b, |a|)
  {
    assert (a + (b + c))[|a|..|a| + |b|] == b;
  }

  lemma IndexIs(s: bytes, p: bytes, n: nat)
    requires At(s, p, n) && forall i: nat :: i < n ==> !At(s, p, i)
    ensures Index(s, p) == n
  {
  }

  lemma IndexIsNone(s: bytes, p: bytes)
    requires forall i: nat :: !At(s, p, i)
    ensures Index(s, p) == -1
  {
  }

  lemma FirstTwo(s: bytes, p: bytes, i: nat)
    requires |p| >= 2 && At(s, p, i)
    ensures i + 1 < |s| && s[i] == p[0] && s[i + 1] == p[1]
    ensures |p| >= 3 ==> i + 2 < |s| && s[i + 2] == p[2]
  {
    var a := s[i..i + |p|];
    assert s[i] == a[0] && s[i + 1] == a[1];
    if |p| >= 3 { assert s[i + 2] == a[2]; }
  }

  lemma SplitHasNoComment()
    ensures WithoutComments(SPLIT_COMMENT) == SPLIT_COMMENT
  {
    hide Index;
    forall i: nat ensures !At(SPLIT_COMMENT, COMMENT_OPEN, i) {
      if At(SPLIT_COMMENT, COMMENT_OPEN, i) { FirstTwo(SPLIT_COMMENT, COMMENT_OPEN, i); }
    }
    IndexIsNone(SPLIT_COMMENT, COMMENT_OPEN);
  }

  lemma NoOpening(s: bytes, tag: bytes)
    requires tag != [] && forall i :: 0 <= i < |s| - 1 && LowerByte(s[i]) == 0x3C ==> LowerByte(s[i + 1]) != tag[0]
    ensures WithoutTag(s, tag) == s
  {
    hide Index;
    forall i: nat ensures !At(Lower(s), OpenTag(tag), i) {
      if At(Lower(s), OpenTag(tag), i) { FirstTwo(Lower(s), OpenTag(tag), i); }
    }
    IndexIsNone(Lower(s), OpenTag(tag));
  }

  lemma NoCapitals()
    ensures Lower(SPLIT_COMMENT) == SPLIT_COMMENT && Lower(REST) == REST && |SPLIT_COMMENT| == 25
  {
  }

  lemma OpeningIsFound()
    ensures TagStart(SPLIT_COMMENT, SCRIPT) == 2
  {
    hide Index, Lower;
    NoCapitals();
    var s := SPLIT_COMMENT;
    AtMiddle(HEAD, OpenTag(SCRIPT), [0x3E] + (CloseTag(SCRIPT) + TAIL));
    forall i: nat | i < 2 ensures !At(s, OpenTag(SCRIPT), i) {
      if At(s, OpenTag(SCRIPT), i) { FirstTwo(s, OpenTag(SCRIPT), i); }
    }
    IndexIs(s, OpenTag(SCRIPT), 2);
  }

  lemma ClosingIsFound()
    ensures Index(Lower(REST), CloseTag(SCRIPT)) == 8
  {
    hide Index, Lower;
    NoCapitals();
    var front := OpenTag(SCRIPT) + [0x3E];
    assert REST == front + (CloseTag(SCRIPT) + TAIL);
    AtMiddle(front, CloseTag(SCRIPT), TAIL);
    forall i: nat | i < 8 ensures !At(REST, CloseTag(SCRIPT), i) {
      if At(REST, CloseTag(SCRIPT), i) { FirstTwo(REST, CloseTag(SCRIPT), i); }
    }
    IndexIs(REST, CloseTag(SCRIPT), 8);
  }

  lemma ElementGoes()
    ensures WithoutTag(SPLIT_COMMENT, SCRIPT) == WithoutTag(HEAD + TAIL, SCRIPT)
  {
    hide Index, Lower;
    OpeningIsFound();
    ClosingIsFound();
    var s := SPLIT_COMMENT;
    assert s[2..] == REST && s[..2] == HEAD;
    assert s[19..] == TAIL;
    hide OpenTag;
    assert TagStop(s, SCRIPT) == 19;
  }

  /** Removing the script element completes a comment that was not there before, and it stays. */
  lemma CommentIsSpliced()
    ensures CommentFree(SPLIT_COMMENT) && !CommentFree(Minified(SPLIT_COMMENT))
  {
    SpliceIsComment();
    NoOpening(HEAD + TAIL, SCRIPT);
    NoOpening(HEAD + TAIL, STYLE);
    hide Index, Collapsed, Lower, WithoutComments, WithoutTag, CommentFree;
    SplitHasNoComment();
    CommentsGo(SPLIT_COMMENT);
    ElementGoes();
    MinifiedMeans(SPLIT_COMMENT);
  }

  lemma SpliceIsComment()
    ensures !CommentFree(HEAD + TAIL)
  {
    var s := HEAD + TAIL;
    assert s[0..4] == COMMENT_OPEN && s[5..8] == COMMENT_CLOSE;
    assert CompleteComment(s, 0, 5);
  }
}
