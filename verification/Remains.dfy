/** What the strippers leave (pkg/email/processor.go:1328-1362): text interleaved with comments or
    elements comes out as the text alone, byte for byte. */
module Remains {
  import opened Utf8
  import opened Strippers

  ghost predicate Lacks(s: bytes, p: bytes) { forall i: nat :: !At(s, p, i) }

  /** A pattern whose first byte does not recur in it. */
  predicate Sharp(p: bytes) { p != [] && forall k :: 0 < k < |p| ==> p[k] != p[0] }

  lemma EarlierIsInside(a: bytes, rest: bytes, p: bytes, i: nat)
    requires Sharp(p) && At(rest, p, 0) && i < |a|
    ensures At(a + rest, p, i) ==> At(a, p, i)
  {
    var s := a + rest;
    if i + |p| <= |a| {
      assert s[i..i + |p|] == a[i..i + |p|];
    } else if i + |p| <= |s| {
      assert rest[0..|p|][0] == rest[0];
      assert s[i..i + |p|][|a| - i] == s[|a|];
    }
  }

  /** Text without the pattern, and then the pattern: there is no earlier occurrence. */
  lemma NoneBefore(a: bytes, rest: bytes, p: bytes)
    requires Sharp(p) && Lacks(a, p) && At(rest, p, 0)
    ensures At(a + rest, p, |a|) && forall i: nat :: i < |a| ==> !At(a + rest, p, i)
  {
    assert (a + rest)[|a|..|a| + |p|] == rest[0..|p|];
    forall i: nat | i < |a| ensures !At(a + rest, p, i) { EarlierIsInside(a, rest, p, i); }
  }

  lemma IndexIs(s: bytes, p: bytes, n: nat)
    requires At(s, p, n) && forall i: nat :: i < n ==> !At(s, p, i)
    ensures Index(s, p) == n
  {
  }

  function Joined(texts: seq<bytes>): bytes { if texts == [] then [] else texts[0] + Joined(texts[1..]) }

  /** text, piece, text, piece, ..., text, and then `tail` */
  function Interleaved(texts: seq<bytes>, pieces: seq<bytes>, tail: bytes): bytes
    requires |texts| == |pieces| + 1
  {
    if pieces == [] then texts[0] + tail else texts[0] + pieces[0] + Interleaved(texts[1..], pieces[1..], tail)
  }

  /** With the first piece gone, its two neighbours are one text. */
  function Merged(texts: seq<bytes>): seq<bytes>
    requires |texts| >= 2
  {
    [texts[0] + texts[1]] + texts[2..]
  }

  lemma MergedMeans(texts: seq<bytes>, pieces: seq<bytes>, tail: bytes)
    requires |texts| == |pieces| + 1 && pieces != []
    ensures Interleaved(Merged(texts), pieces[1..], tail) == texts[0] + Interleaved(texts[1..], pieces[1..], tail)
    ensures Joined(Merged(texts)) == Joined(texts)
  {
    assert texts[1..][1..] == texts[2..] == Merged(texts)[1..];
    assert Joined(texts) == texts[0] + (texts[1] + Joined(texts[2..]));
    var rest, more := texts[1..], pieces[1..];
    if more != [] {
      assert Interleaved(rest, more, tail) == texts[1] + more[0] + Interleaved(rest[1..], more[1..], tail);
    } else {
      assert Interleaved(rest, more, tail) == texts[1] + tail;
    }
  }

  lemma OneText(texts: seq<bytes>)
    requires |texts| == 1
    ensures Joined(texts) == texts[0]
  {
    assert texts[1..] == [] && texts[0] + [] == texts[0];
  }

  // ---------- comments ----------

  ghost predicate IsComment(c: bytes) {
    exists body: bytes :: Lacks(body, COMMENT_CLOSE) && c == COMMENT_OPEN + body + COMMENT_CLOSE
  }

  /** The closing mark ends with a byte that does not recur in it. */
  lemma EarlierCloseIsInside(body: bytes, rest: bytes, i: nat)
    requires i < |body|
    ensures At(body + COMMENT_CLOSE + rest, COMMENT_CLOSE, i) ==> At(body, COMMENT_CLOSE, i)
  {
    var s := body + COMMENT_CLOSE + rest;
    assert s[i..i + 3][2] == s[i + 2];
    if i + 3 <= |body| { assert s[i..i + 3] == body[i..i + 3]; }
  }

  lemma CloseComesLast(body: bytes, rest: bytes)
    requires Lacks(body, COMMENT_CLOSE)
    ensures Index(body + COMMENT_CLOSE + rest, COMMENT_CLOSE) == |body|
  {
    var s := body + COMMENT_CLOSE + rest;
    assert s[|body|..|body| + 3] == COMMENT_CLOSE;
    forall i: nat | i < |body| ensures !At(s, COMMENT_CLOSE, i) { EarlierCloseIsInside(body, rest, i); }
    IndexIs(s, COMMENT_CLOSE, |body|);
  }

  /** A comment behind text without an opening mark goes, and nothing else does. */
  lemma OneCommentGoes(a: bytes, c: bytes, rest: bytes)
    requires Lacks(a, COMMENT_OPEN) && IsComment(c)
    ensures WithoutComments(a + c + rest) == WithoutComments(a + rest)
  {
    var body :| Lacks(body, COMMENT_CLOSE) && c == COMMENT_OPEN + body + COMMENT_CLOSE;
    hide Index, Lacks, WithoutComments, At;
    var s := a + c + rest;
    assert s == a + (c + rest);
    OpensHere(body, rest);
    NoneBefore(a, c + rest, COMMENT_OPEN);
    IndexIs(s, COMMENT_OPEN, |a|);
    assert s[|a| + 4..] == body + COMMENT_CLOSE + rest;
    CloseComesLast(body, rest);
    assert s[..|a|] == a && s[|a| + 4 + |body| + 3..] == rest;
    CommentStep(s);
  }

  lemma OpensHere(body: bytes, rest: bytes)
    ensures At(COMMENT_OPEN + body + COMMENT_CLOSE + rest, COMMENT_OPEN, 0)
  {
    var s := COMMENT_OPEN + body + COMMENT_CLOSE + rest;
    assert s[0..4] == COMMENT_OPEN;
  }

  lemma CommentStep(s: bytes)
    ensures HasComment(s) ==>
      WithoutComments(s) == WithoutComments(s[..CommentStart(s)] + s[CommentStart(s) + 4 + CommentEnd(s) + 3..])
  {
  }

  /** Text interleaved with comments: if the text has no opening mark, even when put together, the
      text is what is left. */
  lemma {:induction false} CommentsGoTextStays(texts: seq<bytes>, comments: seq<bytes>)
    requires |texts| == |comments| + 1
    requires Lacks(Joined(texts), COMMENT_OPEN) && forall c :: c in comments ==> IsComment(c)
    ensures WithoutComments(Interleaved(texts, comments, [])) == Joined(texts)
    decreases |comments|
  {
    hide IsComment, WithoutComments, At;
    if comments == [] {
      OneText(texts);
      assert texts[0] + [] == texts[0];
      NoOpening(texts[0]);
    } else {
      MergedMeans(texts, comments, []);
      CommentsGoTextStays(Merged(texts), comments[1..]);
      PrefixLacks(texts[0], Joined(texts[1..]), COMMENT_OPEN);
      OneCommentGoes(texts[0], comments[0], Interleaved(texts[1..], comments[1..], []));
    }
  }

  lemma NoOpening(s: bytes)
    requires Lacks(s, COMMENT_OPEN)
    ensures WithoutComments(s) == s
  {
  }

  lemma PrefixLacks(a: bytes, b: bytes, p: bytes)
    requires Lacks(a + b, p)
    ensures Lacks(a, p)
  {
    forall i: nat ensures At(a, p, i) ==> At(a + b, p, i) {
      if i + |p| <= |a| { assert (a + b)[i..i + |p|] == a[i..i + |p|]; }
    }
  }

  // ---------- elements ----------

  /** An element of this tag, in any letter case, up to its first closing tag. */
  ghost predicate IsElement(e: bytes, tag: bytes) {
    var n := |e| - |CloseTag(tag)|;
    && n >= 0
    && At(Lower(e), OpenTag(tag), 0) && At(Lower(e), CloseTag(tag), n)
    && forall i: nat :: i < n ==> !At(Lower(e), CloseTag(tag), i)
  }

  /** Nothing, or an element that is never closed. */
  ghost predicate IsOpenEnd(t: bytes, tag: bytes) {
    t == [] || (At(Lower(t), OpenTag(tag), 0) && Lacks(Lower(t), CloseTag(tag)))
  }

  lemma LowerConcat(a: bytes, b: bytes)
    ensures Lower(a + b) == Lower(a) + Lower(b)
  {
  }

  lemma AtFront(a: bytes, b: bytes, p: bytes, i: nat)
    requires i + |p| <= |a|
    ensures At(a + b, p, i) <==> At(a, p, i)
  {
    assert (a + b)[i..i + |p|] == a[i..i + |p|];
  }

  lemma TagStep(s: bytes, tag: bytes)
    ensures TagStart(s, tag) >= 0 ==>
      WithoutTag(s, tag) == WithoutTag(s[..TagStart(s, tag)] + s[TagStop(s, tag)..], tag)
    ensures TagStart(s, tag) < 0 ==> WithoutTag(s, tag) == s
  {
  }

  lemma StartIs(a: bytes, rest: bytes, tag: bytes)
    requires Sharp(OpenTag(tag)) && Lacks(Lower(a), OpenTag(tag)) && At(Lower(rest), OpenTag(tag), 0)
    ensures TagStart(a + rest, tag) == |a|
  {
    hide Index, Lower, At, Lacks, OpenTag;
    LowerConcat(a, rest);
    NoneBefore(Lower(a), Lower(rest), OpenTag(tag));
    IndexIs(Lower(a + rest), OpenTag(tag), |a|);
  }

  lemma FitsIn(s: bytes, p: bytes)
    ensures At(s, p, 0) ==> |p| <= |s|
  {
  }

  lemma OneElementGoes(a: bytes, e: bytes, rest: bytes, tag: bytes)
    requires Sharp(OpenTag(tag)) && Lacks(Lower(a), OpenTag(tag)) && IsElement(e, tag)
    ensures WithoutTag(a + e + rest, tag) == WithoutTag(a + rest, tag)
  {
    hide Index, Lower, At, Lacks, WithoutTag, OpenTag, CloseTag;
    var s, n := a + e + rest, |e| - |CloseTag(tag)|;
    assert s == a + (e + rest);
    LowerConcat(e, rest);
    FitsIn(Lower(e), OpenTag(tag));
    AtFront(Lower(e), Lower(rest), OpenTag(tag), 0);
    StartIs(a, e + rest, tag);
    assert s[|a|..] == e + rest;
    forall i: nat | i <= n ensures At(Lower(e + rest), CloseTag(tag), i) <==> At(Lower(e), CloseTag(tag), i) {
      AtFront(Lower(e), Lower(rest), CloseTag(tag), i);
    }
    IndexIs(Lower(e + rest), CloseTag(tag), n);
    assert s[..|a|] == a && s[|a| + |e|..] == rest;
    TagStep(s, tag);
  }

  lemma OpenEndGoes(a: bytes, t: bytes, tag: bytes)
    requires Sharp(OpenTag(tag)) && Lacks(Lower(a), OpenTag(tag)) && IsOpenEnd(t, tag)
    ensures WithoutTag(a + t, tag) == a
  {
    hide Index, Lower, At, Lacks, WithoutTag, OpenTag, CloseTag;
    var s := a + t;
    IndexIsNone(Lower(a), OpenTag(tag));
    TagStep(a, tag);
    if t == [] {
      assert s == a;
    } else {
      StartIs(a, t, tag);
      assert s[|a|..] == t;
      IndexIsNone(Lower(t), CloseTag(tag));
      assert s[..|a|] + s[|s|..] == a;
      TagStep(s, tag);
    }
  }

  lemma IndexIsNone(s: bytes, p: bytes)
    requires Lacks(s, p)
    ensures Index(s, p) == -1
  {
  }

  /** Text interleaved with elements of a tag, the last of them perhaps never closed: if the text
      has no opening of the tag, even when put together, the text is what is left. */
  lemma {:induction false} ElementsGoTextStays(texts: seq<bytes>, elements: seq<bytes>, tail: bytes, tag: bytes)
    requires |texts| == |elements| + 1 && 0x3C !in tag
    requires Lacks(Lower(Joined(texts)), OpenTag(tag)) && IsOpenEnd(tail, tag)
    requires forall e :: e in elements ==> IsElement(e, tag)
    ensures WithoutTag(Interleaved(texts, elements, tail), tag) == Joined(texts)
    decreases |elements|
  {
    assert Sharp(OpenTag(tag));
    hide IsElement, IsOpenEnd, WithoutTag, At, OpenTag, Lower;
    if elements == [] {
      OneText(texts);
      OpenEndGoes(texts[0], tail, tag);
    } else {
      MergedMeans(texts, elements, tail);
      ElementsGoTextStays(Merged(texts), elements[1..], tail, tag);
      LowerConcat(texts[0], Joined(texts[1..]));
      PrefixLacks(Lower(texts[0]), Lower(Joined(texts[1..])), OpenTag(tag));
      OneElementGoes(texts[0], elements[0], Interleaved(texts[1..], elements[1..], tail), tag);
    }
  }
}
