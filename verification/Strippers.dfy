/** The byte-level strippers behind boundedMinifyHTML (pkg/email/processor.go) and the log
    bounding of pkg/logging/sanitize.go. */
module Strippers {
  import opened Utf8

  // ---------- searching ----------

  predicate At(s: bytes, pat: bytes, i: nat) {
    i + |pat| <= |s| && s[i..i + |pat|] == pat
  }

  /** strings.Index */
  function Index(s: bytes, pat: bytes): (i: int)
    ensures -1 <= i <= |s|
    ensures i >= 0 ==> At(s, pat, i)
    ensures forall j: nat :: At(s, pat, j) ==> 0 <= i <= j
  {
    AtTail(s, pat);
    if At(s, pat, 0) then 0
    else if s == [] || Index(s[1..], pat) < 0 then -1
    else Index(s[1..], pat) + 1
  }

  lemma AtTail(s: bytes, pat: bytes)
    ensures s != [] ==> forall j: nat :: j > 0 ==> (At(s, pat, j) <==> At(s[1..], pat, j - 1))
  {
    if s != [] {
      forall j: nat | j > 0 ensures At(s, pat, j) <==> At(s[1..], pat, j - 1) {
        if j + |pat| <= |s| { assert s[1..][j - 1..j - 1 + |pat|] == s[j..j + |pat|]; }
      }
    }
  }

  lemma AtDrop(s: bytes, pat: bytes, k: nat, j: nat)
    requires k <= |s|
    ensures At(s[k..], pat, j) <==> At(s, pat, k + j)
  {
    if k + j + |pat| <= |s| { assert s[k..][j..j + |pat|] == s[k + j..k + j + |pat|]; }
  }

  /** `r` is what is left of `s` after deleting some bytes: nothing new, nothing moved. */
  ghost predicate Remnant(r: bytes, s: bytes) {
    r == [] || (s != [] && (Remnant(r, s[1..]) || (r[0] == s[0] && Remnant(r[1..], s[1..]))))
  }

  lemma {:induction false} RemnantOfAll(s: bytes)
    ensures Remnant(s, s)
  {
    if s != [] { RemnantOfAll(s[1..]); }
  }

  lemma {:induction false} RemnantOfSplice(r: bytes, a: bytes, mid: bytes, c: bytes)
    requires Remnant(r, a + c)
    ensures Remnant(r, a + mid + c)
    decreases |a|, |mid|
  {
    if r == [] {
    } else if a != [] {
      assert (a + c)[1..] == a[1..] + c && (a + mid + c)[1..] == a[1..] + mid + c;
      if Remnant(r, a[1..] + c) {
        RemnantOfSplice(r, a[1..], mid, c);
      } else {
        RemnantOfSplice(r[1..], a[1..], mid, c);
      }
    } else if mid == [] {
      assert a + mid + c == a + c;
    } else {
      assert (a + mid + c)[1..] == a + mid[1..] + c;
      RemnantOfSplice(r, a, mid[1..], c);
    }
  }

  // ---------- comments ----------

  const COMMENT_OPEN: bytes := [0x3C, 0x21, 0x2D, 0x2D]
  const COMMENT_CLOSE: bytes := [0x2D, 0x2D, 0x3E]

  ghost predicate CompleteComment(s: bytes, i: nat, j: nat) {
    At(s, COMMENT_OPEN, i) && i + 4 <= j && At(s, COMMENT_CLOSE, j)
  }

  /** The two searches of one turn of the loop. */
  function CommentStart(s: bytes): (i: int)
    ensures i == -1 || (0 <= i && i + 4 <= |s|)
  {
    Index(s, COMMENT_OPEN)
  }

  function CommentEnd(s: bytes): (j: int)
    requires CommentStart(s) >= 0
    ensures j == -1 || (0 <= j && CommentStart(s) + 4 + j + 3 <= |s|)
  {
    Index(s[CommentStart(s) + 4..], COMMENT_CLOSE)
  }

  predicate HasComment(s: bytes) { CommentStart(s) >= 0 && CommentEnd(s) >= 0 }

  lemma HasCommentMeans(s: bytes)
    ensures HasComment(s) <==> exists i: nat, j: nat :: CompleteComment(s, i, j)
  {
    var start := CommentStart(s);
    if start >= 0 {
      var end := CommentEnd(s);
      if end >= 0 {
        AtDrop(s, COMMENT_CLOSE, start + 4, end);
        assert CompleteComment(s, start, start + 4 + end);
      }
      forall i: nat, j: nat | CompleteComment(s, i, j) ensures end >= 0 {
        AtDrop(s, COMMENT_CLOSE, start + 4, j - (start + 4));
      }
    }
  }

  function WithoutComments(s: bytes): (r: bytes)
    decreases |s|
  {
    if !HasComment(s) then s
    else WithoutComments(s[..CommentStart(s)] + s[CommentStart(s) + 4 + CommentEnd(s) + 3..])
  }

  method RemoveHTMLComments(s0: bytes) returns (s: bytes)
    ensures s == WithoutComments(s0)
  {
    hide Index;
    s := s0;
    while true
      invariant WithoutComments(s) == WithoutComments(s0)
      decreases |s|
    {
      var start := Index(s, COMMENT_OPEN);
      if start == -1 { break; }
      var end := Index(s[start + 4..], COMMENT_CLOSE);
      if end == -1 { break; }
      end := end + start + 4;
      s := s[..start] + s[end + 3..];
    }
  }

  ghost predicate CommentFree(s: bytes) { forall i: nat, j: nat :: !CompleteComment(s, i, j) }

  lemma {:induction false} CommentsGo(s: bytes)
    ensures CommentFree(WithoutComments(s)) && Remnant(WithoutComments(s), s)
    ensures WithoutComments(WithoutComments(s)) == WithoutComments(s)
    decreases |s|
  {
    hide CommentFree, Remnant, CommentStart, CommentEnd;
    if HasComment(s) {
      var a, b := CommentStart(s), CommentStart(s) + 4 + CommentEnd(s) + 3;
      CommentsGo(s[..a] + s[b..]);
      hide HasComment;
      RemnantOfSplice(WithoutComments(s), s[..a], s[a..b], s[b..]);
      assert s[..a] + s[a..b] + s[b..] == s;
    } else {
      RemnantOfAll(s);
      NoCommentLeft(s);
    }
  }

  /** However removals splice new comments together, none survives, nothing but deletion
      happens, and a second run changes nothing. */
  lemma CommentsAreGone(s: bytes)
    ensures forall i: nat, j: nat :: !CompleteComment(WithoutComments(s), i, j)
    ensures Remnant(WithoutComments(s), s)
    ensures WithoutComments(WithoutComments(s)) == WithoutComments(s)
  {
    hide CompleteComment, WithoutComments, Remnant;
    CommentsGo(s);
  }

  lemma NoCommentLeft(s: bytes)
    requires !HasComment(s)
    ensures CommentFree(s)
    ensures WithoutComments(s) == s
  {
    hide CompleteComment, CommentStart, CommentEnd;
    HasCommentMeans(s);
  }

  // ---------- tags ----------

  /** strings.ToLower, taken as length-preserving. */
  function LowerByte(b: byte): byte { if 0x41 <= b <= 0x5A then b + 32 else b }

  function Lower(s: bytes): (r: bytes)
    ensures |r| == |s|
  {
    seq(|s|, i requires 0 <= i < |s| => LowerByte(s[i]))
  }

  function OpenTag(tag: bytes): bytes { [0x3C] + tag }
  function CloseTag(tag: bytes): bytes { [0x3C, 0x2F] + tag + [0x3E] }

  function TagStart(s: bytes, tag: bytes): (i: int)
    ensures -1 <= i <= |s|
  {
    Index(Lower(s), OpenTag(tag))
  }

  /** Where the element that opens at `TagStart` stops: after its closing tag, or at the end. */
  function TagStop(s: bytes, tag: bytes): (j: int)
    requires TagStart(s, tag) >= 0
    ensures TagStart(s, tag) < j <= |s|
  {
    var close := Index(Lower(s[TagStart(s, tag)..]), CloseTag(tag));
    if close < 0 then |s| else TagStart(s, tag) + close + |CloseTag(tag)|
  }

  function WithoutTag(s: bytes, tag: bytes): (r: bytes)
    decreases |s|
  {
    if TagStart(s, tag) < 0 then s
    else WithoutTag(s[..TagStart(s, tag)] + s[TagStop(s, tag)..], tag)
  }

  method StripTagContent(s0: bytes, tag: bytes) returns (s: bytes)
    ensures s == WithoutTag(s0, tag)
  {
    hide Index, Lower;
    var open := OpenTag(tag);
    var close := CloseTag(tag);
    s := s0;
    while true
      invariant WithoutTag(s, tag) == WithoutTag(s0, tag)
      decreases |s|
    {
      var start := Index(Lower(s), open);
      if start == -1 { break; }
      var end := Index(Lower(s[start..]), close);
      if end == -1 {
        NoOpeningBeforeFirst(s, tag);
        assert s[..start] + s[|s|..] == s[..start];
        s := s[..start];
        break;
      }
      end := start + end + |close|;
      s := s[..start] + s[end..];
    }
  }

  lemma AtPrefix(s: bytes, pat: bytes, k: nat, i: nat)
    requires k <= |s| && At(s[..k], pat, i)
    ensures At(s, pat, i) && i + |pat| <= k
  {
    assert s[..k][i..i + |pat|] == s[i..i + |pat|];
  }

  lemma NoOpeningBeforeFirst(s: bytes, tag: bytes)
    requires TagStart(s, tag) >= 0
    ensures TagStart(s[..TagStart(s, tag)], tag) == -1
  {
    hide Index;
    var start := TagStart(s, tag);
    var i := TagStart(s[..start], tag);
    assert Lower(s[..start]) == Lower(s)[..start];
    if i >= 0 { AtPrefix(Lower(s), OpenTag(tag), start, i); }
  }

  lemma {:induction false} TagsAreGone(s: bytes, tag: bytes)
    ensures forall i: nat :: !At(Lower(WithoutTag(s, tag)), OpenTag(tag), i)
    ensures Remnant(WithoutTag(s, tag), s)
    ensures WithoutTag(WithoutTag(s, tag), tag) == WithoutTag(s, tag)
    decreases |s|
  {
    hide Remnant, At, Lower, TagStop, Index, OpenTag;
    if TagStart(s, tag) < 0 {
      RemnantOfAll(s);
    } else {
      var a, b := TagStart(s, tag), TagStop(s, tag);
      TagsAreGone(s[..a] + s[b..], tag);
      RemnantOfSplice(WithoutTag(s, tag), s[..a], s[a..b], s[b..]);
      assert s[..a] + s[a..b] + s[b..] == s;
    }
  }

  /** The same byte, or a capital and its small letter. */
  predicate SameLetter(a: byte, small: byte) { a == small || (0x41 <= a <= 0x5A && a + 32 == small) }

  /** No bytes of the result spell the opening of a tag in capitals, small letters or a mixture. */
  lemma NoOpeningInAnyCase(s: bytes, tag: bytes, i: nat)
    requires i + 1 + |tag| <= |WithoutTag(s, tag)|
    requires forall k :: 0 <= k < |tag| ==> !(0x41 <= tag[k] <= 0x5A)
    ensures var r := WithoutTag(s, tag);
      !(r[i] == 0x3C && forall k :: 0 <= k < |tag| ==> SameLetter(r[i + 1 + k], tag[k]))
  {
    hide Index, WithoutTag;
    TagsAreGone(s, tag);
    var r, p := WithoutTag(s, tag), OpenTag(tag);
    if r[i] == 0x3C && forall k :: 0 <= k < |tag| ==> SameLetter(r[i + 1 + k], tag[k]) {
      SpelledOut(r, tag, i);
      assert false;
    }
  }

  lemma SpelledOut(r: bytes, tag: bytes, i: nat)
    requires i + 1 + |tag| <= |r| && r[i] == 0x3C
    requires forall k :: 0 <= k < |tag| ==> !(0x41 <= tag[k] <= 0x5A) && SameLetter(r[i + 1 + k], tag[k])
    ensures At(Lower(r), OpenTag(tag), i)
  {
    var got, p := Lower(r)[i..i + 1 + |tag|], OpenTag(tag);
    forall k | 0 <= k < |p| ensures got[k] == p[k] {
      assert got[k] == LowerByte(r[i + k]);
      assert k > 0 ==> p[k] == tag[k - 1] && SameLetter(r[i + 1 + (k - 1)], tag[k - 1]);
    }
  }

  // ---------- white space ----------

  predicate White(b: byte) { b == 0x20 || b == 0x0A || b == 0x09 || b == 0x0D }

  function Collapsed(s: bytes, prevWS: bool): (r: bytes)
    decreases |s|
  {
    if s == [] then []
    else if White(s[0]) then (if prevWS then [] else [0x20]) + Collapsed(s[1..], true)
    else Spell(s) + Collapsed(s[Step(s)..], false)
  }

  lemma CollapseTurn(s: bytes, i: nat, prevWS: bool)
    requires i < |s|
    ensures Collapsed(s[i..], prevWS) ==
      if White(s[i]) then (if prevWS then [] else [0x20]) + Collapsed(s[i + 1..], true)
      else Spell(s[i..]) + Collapsed(s[i + Step(s[i..])..], false)
  {
    hide Step, Spell, White;
    assert s[i..][1..] == s[i + 1..];
    assert s[i..][Step(s[i..])..] == s[i + Step(s[i..])..];
  }

  method CollapseWhitespace(s: bytes) returns (b: bytes)
    ensures b == Collapsed(s, false)
  {
    hide Collapsed, Step, Spell, White;
    b := [];
    var prevWS := false;
    var i := 0;
    ghost var rest := Collapsed(s[0..], false);
    assert s[0..] == s && b + rest == rest;
    while i < |s|
      invariant i <= |s|
      invariant rest == Collapsed(s[i..], prevWS)
      invariant b + rest == Collapsed(s, false)
    {
      CollapseTurn(s, i, prevWS);
      if White(s[i]) {
        if !prevWS {
          b := b + [0x20];
          prevWS := true;
        }
        i := i + 1;
      } else {
        prevWS := false;
        b := b + Spell(s[i..]);
        i := i + Step(s[i..]);
      }
      rest := Collapsed(s[i..], prevWS);
    }
    CollapseEmpty(prevWS);
    assert s[i..] == [] && b + [] == b;
  }

  lemma CollapseEmpty(prevWS: bool)
    ensures Collapsed([], prevWS) == []
  {
  }

  /** No white space but single spaces. */
  predicate Tight(s: bytes, prevWS: bool) {
    s == [] ||
    (if s[0] == 0x20 then !prevWS && Tight(s[1..], true)
     else s[0] != 0x0A && s[0] != 0x09 && s[0] != 0x0D && Tight(s[1..], false))
  }

  function Solid(s: bytes): (r: bytes) {
    if s == [] then []
    else if s[0] == 0x20 || s[0] == 0x0A || s[0] == 0x09 || s[0] == 0x0D then Solid(s[1..])
    else [s[0]] + Solid(s[1..])
  }

  lemma {:induction false} TightAfterSolid(a: bytes, s: bytes, prevWS: bool)
    requires forall i :: 0 <= i < |a| ==> !White(a[i])
    requires a != [] && Tight(s, false)
    ensures Tight(a + s, prevWS)
    decreases |a|
  {
    assert (a + s)[1..] == a[1..] + s;
    if |a| > 1 { TightAfterSolid(a[1..], s, false); } else { assert a[1..] + s == s; }
  }

  lemma {:induction false} SolidOfConcat(a: bytes, s: bytes)
    ensures Solid(a + s) == Solid(a) + Solid(s)
    decreases |a|
  {
    if a == [] {
      assert a + s == s;
    } else {
      assert (a + s)[1..] == a[1..] + s;
      SolidOfConcat(a[1..], s);
    }
  }

  /** The result is always well-formed and tight, whatever the input; for well-formed input
      only white space changes. */
  lemma {:induction false} CollapseMeans(s: bytes, prevWS: bool)
    ensures Valid(Collapsed(s, prevWS)) && Tight(Collapsed(s, prevWS), prevWS)
    ensures Valid(s) ==> Solid(Collapsed(s, prevWS)) == Solid(s)
    decreases |s|
  {
    if s == [] {
    } else if White(s[0]) {
      CollapseMeans(s[1..], true);
      CollapseWhite(s, prevWS, Collapsed(s[1..], true));
    } else {
      CollapseMeans(s[Step(s)..], false);
      CollapseRune(s, prevWS, Collapsed(s[Step(s)..], false));
    }
  }

  lemma CollapseWhite(s: bytes, prevWS: bool, t: bytes)
    requires s != [] && White(s[0])
    requires t == Collapsed(s[1..], true) && Valid(t) && Tight(t, true)
    requires Valid(s[1..]) ==> Solid(t) == Solid(s[1..])
    ensures Valid(Collapsed(s, prevWS)) && Tight(Collapsed(s, prevWS), prevWS)
    ensures Valid(s) ==> Solid(Collapsed(s, prevWS)) == Solid(s)
  {
    if prevWS {
      assert [] + t == t;
    } else {
      RuneThenValid([0x20], t);
      assert ([0x20] + t)[1..] == t;
    }
  }

  lemma CollapseRune(s: bytes, prevWS: bool, t: bytes)
    requires s != [] && !White(s[0])
    requires t == Collapsed(s[Step(s)..], false) && Valid(t) && Tight(t, false)
    requires Valid(s[Step(s)..]) ==> Solid(t) == Solid(s[Step(s)..])
    ensures Valid(Collapsed(s, prevWS)) && Tight(Collapsed(s, prevWS), prevWS)
    ensures Valid(s) ==> Solid(Collapsed(s, prevWS)) == Solid(s)
  {
    var r := Spell(s);
    assert forall i :: 0 <= i < |r| ==> !White(r[i]);
    hide RuneLen, White, Tight, Solid, Spell;
    RuneThenValid(r, t);
    TightAfterSolid(r, t, prevWS);
    SolidOfConcat(r, t);
    if Valid(s) {
      SolidOfConcat(r, s[Step(s)..]);
      assert r + s[Step(s)..] == s;
    }
  }

  /** Every byte that is no white space, and whether white space stands right before it. */
  function Spaced(s: bytes, white: bool): seq<(byte, bool)> {
    if s == [] then []
    else if s[0] == 0x20 || s[0] == 0x0A || s[0] == 0x09 || s[0] == 0x0D then Spaced(s[1..], true)
    else [(s[0], white)] + Spaced(s[1..], false)
  }

  lemma {:induction false} SpacedRune(r: bytes, s: bytes, white: bool)
    requires r != [] && forall i :: 0 <= i < |r| ==> !White(r[i])
    ensures Spaced(r + s, white) ==
            [(r[0], white)] + seq(|r| - 1, i requires 0 <= i < |r| - 1 => (r[i + 1], false)) + Spaced(s, false)
    decreases |r|
  {
    assert (r + s)[1..] == r[1..] + s;
    if |r| == 1 {
      assert r[1..] + s == s;
    } else {
      SpacedRune(r[1..], s, false);
      var rest := seq(|r| - 1, i requires 0 <= i < |r| - 1 => (r[i + 1], false));
      assert rest == [(r[1], false)] + seq(|r| - 2, i requires 0 <= i < |r| - 2 => (r[1..][i + 1], false));
    }
  }

  /** Words stay apart and together: white space is left between two characters exactly where
      there was some. */
  lemma {:induction false} CollapseKeepsGaps(s: bytes, prevWS: bool)
    requires Valid(s)
    ensures Spaced(Collapsed(s, prevWS), prevWS) == Spaced(s, prevWS)
    decreases |s|
  {
    if s != [] && White(s[0]) {
      CollapseKeepsGaps(s[1..], true);
      var t := Collapsed(s[1..], true);
      assert [0x20] + t == [0x20] + t && ([0x20] + t)[1..] == t && [] + t == t;
    } else if s != [] {
      var r, t := Spell(s), Collapsed(s[Step(s)..], false);
      assert r == s[..Step(s)] && s == r + s[Step(s)..];
      CollapseKeepsGaps(s[Step(s)..], false);
      assert forall i :: 0 <= i < |r| ==> !White(r[i]);
      hide RuneLen, Spell, Spaced, White;
      SpacedRune(r, t, prevWS);
      SpacedRune(r, s[Step(s)..], prevWS);
    }
  }

  lemma {:induction false} TightIsFixed(s: bytes, prevWS: bool)
    requires Valid(s) && Tight(s, prevWS)
    ensures Collapsed(s, prevWS) == s
    decreases |s|
  {
    if s != [] {
      if White(s[0]) {
        TightIsFixed(s[1..], true);
      } else {
        var r := Spell(s);
        assert forall i :: 0 <= i < Step(s) ==> s[i] == r[i];
        TightSuffix(s, prevWS, Step(s));
        TightIsFixed(s[Step(s)..], false);
      }
    }
  }

  lemma {:induction false} TightSuffix(s: bytes, prevWS: bool, n: nat)
    requires 0 < n <= |s| && Tight(s, prevWS)
    requires forall i :: 0 <= i < n ==> !White(s[i])
    ensures Tight(s[n..], false)
    decreases n
  {
    if n > 1 {
      TightSuffix(s[1..], false, n - 1);
      assert s[1..][n - 1..] == s[n..];
    }
  }

  lemma CollapseIsIdempotent(s: bytes)
    ensures Collapsed(Collapsed(s, false), false) == Collapsed(s, false)
  {
    CollapseMeans(s, false);
    TightIsFixed(Collapsed(s, false), false);
  }

  // ---------- the bounded minifier ----------

  const SCRIPT: bytes := [0x73, 0x63, 0x72, 0x69, 0x70, 0x74]
  const STYLE: bytes := [0x73, 0x74, 0x79, 0x6C, 0x65]
  // "\n<!-- truncated -->"
  const TRUNCATED_MARK: bytes :=
    [0x0A, 0x3C, 0x21, 0x2D, 0x2D, 0x20, 0x74, 0x72, 0x75, 0x6E, 0x63, 0x61, 0x74, 0x65, 0x64, 0x20, 0x2D, 0x2D, 0x3E]

  predicate StopsTag(b: byte) { b == 0x3E || b == 0x0A || b == 0x20 }

  function Minified(html: bytes): bytes {
    Collapsed(WithoutTag(WithoutTag(WithoutComments(html), SCRIPT), STYLE), false)
  }

  /** The cut comes right after the last tag end, newline or space within the limit, or at the
      limit when there is none. */
  ghost predicate TagCut(s: bytes, max: nat, cut: nat)
    requires max < |s|
  {
    && cut <= max
    && (StopsAt(s, cut) || (cut == max && forall j :: 0 <= j <= max ==> !StopsAt(s, j)))
    && (forall j :: cut < j <= max ==> !StopsAt(s, j))
  }

  predicate StopsAt(s: bytes, cut: nat) {
    0 < cut <= |s| && (s[cut - 1] == 0x3E || s[cut - 1] == 0x0A || s[cut - 1] == 0x20)
  }

  method BoundedMinifyHTML(html0: bytes, maxBytes: nat) returns (html: bytes, ok: bool)
    ensures ok && |html| <= maxBytes + 19
    ensures var m := Minified(html0);
      && (|m| <= maxBytes ==> html == m)
      && (|m| > maxBytes ==> exists cut: nat :: TagCut(m, maxBytes, cut) && html == m[..cut] + TRUNCATED_MARK)
  {
    hide Collapsed, WithoutTag, WithoutComments;
    html := RemoveHTMLComments(html0);
    html := StripTagContent(html, SCRIPT);
    html := StripTagContent(html, STYLE);
    html := CollapseWhitespace(html);
    if |html| <= maxBytes { return html, true; }
    var cut := maxBytes;
    while cut > 0 && !StopsTag(html[cut - 1])
      invariant 0 <= cut <= maxBytes
      invariant forall j :: cut < j <= maxBytes ==> !StopsAt(html, j)
    {
      cut := cut - 1;
    }
    if cut < 1 { cut := maxBytes; }
    assert TagCut(html, maxBytes, cut);
    return html[..cut] + TRUNCATED_MARK, true;
  }

  // ---------- bounding log values ----------

  predicate Control(b: byte) { b < 32 || b == 127 }

  /** The control-free copy of a string, stray bytes respelled. */
  function Cleaned(s: bytes): (r: bytes)
    decreases |s|
  {
    if s == [] then []
    else if Control(s[0]) then Cleaned(s[1..])
    else Spell(s) + Cleaned(s[Step(s)..])
  }

  lemma {:induction false} CleanedIsValid(s: bytes)
    ensures Valid(Cleaned(s))
    ensures forall i :: 0 <= i < |Cleaned(s)| ==> !Control(Cleaned(s)[i])
    decreases |s|
  {
    if s != [] {
      if Control(s[0]) {
        CleanedIsValid(s[1..]);
      } else {
        CleanedIsValid(s[Step(s)..]);
        RuneThenValid(Spell(s), Cleaned(s[Step(s)..]));
      }
    }
  }

  /** Everything but control characters, byte by byte. */
  function Printable(s: bytes): bytes {
    if s == [] then [] else (if s[0] < 32 || s[0] == 127 then [] else [s[0]]) + Printable(s[1..])
  }

  lemma {:induction false} PrintableConcat(a: bytes, b: bytes)
    ensures Printable(a + b) == Printable(a) + Printable(b)
    decreases |a|
  {
    if a == [] {
      assert a + b == b;
    } else {
      assert (a + b)[1..] == a[1..] + b;
      PrintableConcat(a[1..], b);
    }
  }

  lemma {:induction false} NoControlIn(r: bytes)
    requires forall i :: 0 <= i < |r| ==> r[i] >= 32 && r[i] != 127
    ensures Printable(r) == r
  {
    if r != [] { NoControlIn(r[1..]); }
  }

  /** Of well-formed text exactly the control characters go. */
  lemma {:induction false} CleanedMeans(s: bytes)
    requires Valid(s)
    ensures Cleaned(s) == Printable(s)
    decreases |s|
  {
    if s != [] {
      CleanedMeans(s[Step(s)..]);
      if !Control(s[0]) {
        var r := Spell(s);
        assert r == s[..Step(s)] && s == r + s[Step(s)..];
        hide RuneLen, Spell;
        PrintableConcat(r, s[Step(s)..]);
        NoControlIn(r);
      }
    }
  }

  method DropControls(s: bytes) returns (out: bytes)
    ensures out == Cleaned(s)
  {
    hide Step, Spell, Control;
    out := [];
    var i := 0;
    assert s[0..] == s;
    while i < |s|
      invariant i <= |s|
      invariant out + Cleaned(s[i..]) == Cleaned(s)
    {
      ghost var rest := s[i..];
      if Control(s[i]) {
        i := i + 1;
        assert s[i..] == rest[1..];
      } else {
        out := out + Spell(s[i..]);
        i := i + Step(s[i..]);
        assert s[i..] == rest[Step(rest)..];
      }
    }
  }

  /** The length of the white-space rune at the front, 0 when there is none (unicode.IsSpace). */
  function SpaceLen(s: bytes): (n: nat)
    ensures n <= |s|
  {
    if |s| >= 1 && (0x09 <= s[0] <= 0x0D || s[0] == 0x20) then 1
    else if |s| >= 2 && s[0] == 0xC2 && (s[1] == 0x85 || s[1] == 0xA0) then 2
    else if |s| >= 3 && Space3(s[0], s[1], s[2]) then 3
    else 0
  }

  /** unicode.IsSpace */
  predicate SpacePoint(cp: nat) {
    || 9 <= cp <= 13 || cp == 32 || cp == 0x85 || cp == 0xA0 || cp == 0x1680 || 0x2000 <= cp <= 0x200A
    || cp == 0x2028 || cp == 0x2029 || cp == 0x202F || cp == 0x205F || cp == 0x3000
  }

  /** White space is recognised by code point. */
  lemma SpaceIsPoint(cp: nat, rest: bytes)
    requires Scalar(cp)
    ensures SpaceLen(Encode(cp) + rest) == if SpacePoint(cp) then |Encode(cp)| else 0
  {
    var r := Encode(cp);
    var s := r + rest;
    assert forall i :: 0 <= i < |r| ==> s[i] == r[i];
    assert cp == 64 * (cp / 64) + cp % 64;
    assert cp / 64 == 64 * (cp / 64 / 64) + cp / 64 % 64;
  }

  predicate Space3(a: byte, b: byte, c: byte) {
    || (a == 0xE1 && b == 0x9A && c == 0x80)
    || (a == 0xE2 && b == 0x80 && (0x80 <= c <= 0x8A || c == 0xA8 || c == 0xA9 || c == 0xAF))
    || (a == 0xE2 && b == 0x81 && c == 0x9F)
    || (a == 0xE3 && b == 0x80 && c == 0x80)
  }

  /** The length of the white-space rune at the end. */
  function SpaceEnd(s: bytes): (n: nat)
    ensures n <= |s|
  {
    if |s| >= 1 && SpaceLen(s[|s| - 1..]) == 1 then 1
    else if |s| >= 2 && SpaceLen(s[|s| - 2..]) == 2 then 2
    else if |s| >= 3 && SpaceLen(s[|s| - 3..]) == 3 then 3
    else 0
  }

  function TrimFront(s: bytes): bytes {
    if SpaceLen(s) == 0 then s else TrimFront(s[SpaceLen(s)..])
  }

  function TrimBack(s: bytes): (r: bytes)
    ensures r <= s
  {
    if SpaceEnd(s) == 0 then s else TrimBack(s[..|s| - SpaceEnd(s)])
  }

  /** strings.TrimSpace */
  function Trimmed(s: bytes): bytes { TrimBack(TrimFront(s)) }

  /** Nothing but white-space runes. */
  predicate Spaces(s: bytes) { s == [] || (SpaceLen(s) > 0 && Spaces(s[SpaceLen(s)..])) }

  /** A white-space rune is recognised from its own bytes alone. */
  lemma SpaceIsPrefix(s: bytes, t: bytes)
    requires SpaceLen(s) > 0 && s[..SpaceLen(s)] <= t
    ensures SpaceLen(t) == SpaceLen(s)
  {
    var n := SpaceLen(s);
    assert forall k :: 0 <= k < n ==> t[k] == s[..n][k] == s[k];
  }

  lemma SpaceFirst(s: bytes, n: nat, rest: bytes)
    requires 0 < n == SpaceLen(s) && Spaces(rest)
    ensures Spaces(s[..n] + rest)
  {
    hide SpaceLen;
    SpaceIsPrefix(s, s[..n] + rest);
    assert (s[..n] + rest)[n..] == rest;
  }

  lemma {:induction false} FrontIsSpaces(s: bytes) returns (a: bytes)
    ensures Spaces(a) && s == a + TrimFront(s) && SpaceLen(TrimFront(s)) == 0
    decreases |s|
  {
    hide SpaceLen;
    var n := SpaceLen(s);
    if n == 0 {
      a := [];
    } else {
      var rest := FrontIsSpaces(s[n..]);
      SpaceFirst(s, n, rest);
      a := s[..n] + rest;
    }
  }

  lemma {:induction false} SpacesConcat(a: bytes, b: bytes)
    requires Spaces(a) && Spaces(b)
    ensures Spaces(a + b)
    decreases |a|
  {
    hide SpaceLen;
    if a == [] {
      assert a + b == b;
    } else {
      var n := SpaceLen(a);
      SpacesConcat(a[n..], b);
      SpaceFirst(a, n, a[n..] + b);
      assert a[..n] + (a[n..] + b) == a + b;
    }
  }

  lemma EndIsSpace(s: bytes)
    ensures var n := SpaceEnd(s); n > 0 ==> SpaceLen(s[|s| - n..]) == n
  {
    hide SpaceLen;
  }

  lemma {:induction false} BackIsSpaces(s: bytes) returns (b: bytes)
    ensures Spaces(b) && s == TrimBack(s) + b && SpaceEnd(TrimBack(s)) == 0
    decreases |s|
  {
    hide SpaceLen, SpaceEnd;
    var n := SpaceEnd(s);
    if n == 0 {
      b := [];
    } else {
      var rest := BackIsSpaces(s[..|s| - n]);
      var end := s[|s| - n..];
      EndIsSpace(s);
      assert end[n..] == [];
      SpacesConcat(rest, end);
      b := rest + end;
    }
  }

  /** Trimming takes white space off both ends, all of it, and nothing else. */
  lemma TrimMeans(s: bytes) returns (a: bytes, b: bytes)
    ensures Spaces(a) && Spaces(b) && s == a + Trimmed(s) + b
    ensures SpaceLen(Trimmed(s)) == 0 && SpaceEnd(Trimmed(s)) == 0
  {
    hide SpaceLen, SpaceEnd, Spaces;
    a := FrontIsSpaces(s);
    b := BackIsSpaces(TrimFront(s));
    var t, f := Trimmed(s), TrimFront(s);
    if SpaceLen(t) > 0 {
      assert t[..SpaceLen(t)] <= f;
      SpaceIsPrefix(t, f);
    }
  }

  method TrimSpace(s: bytes) returns (t: bytes)
    ensures t == Trimmed(s)
  {
    hide SpaceLen, SpaceEnd;
    var start, stop := 0, |s|;
    assert s[0..] == s;
    while SpaceLen(s[start..]) > 0
      invariant 0 <= start <= |s|
      invariant TrimFront(s) == TrimFront(s[start..])
      decreases |s| - start
    {
      assert s[start..][SpaceLen(s[start..])..] == s[start + SpaceLen(s[start..])..];
      start := start + SpaceLen(s[start..]);
    }
    assert s[start..stop] == s[start..];
    while SpaceEnd(s[start..stop]) > 0
      invariant start <= stop <= |s|
      invariant Trimmed(s) == TrimBack(s[start..stop])
      decreases stop
    {
      var n := SpaceEnd(s[start..stop]);
      assert s[start..stop][..stop - start - n] == s[start..stop - n];
      stop := stop - n;
    }
    t := s[start..stop];
  }

  method BoundAndClean(s0: bytes, max: int) returns (r: bytes)
    ensures max <= 0 || |Cleaned(Trimmed(s0))| <= max ==> r == Cleaned(Trimmed(s0))
    ensures 0 < max < |Cleaned(Trimmed(s0))| ==>
      && r <= Cleaned(Trimmed(s0)) && |r| <= max
      && (Valid(r) <==> RuneLen(Cleaned(Trimmed(s0))) <= max)
      && (max >= 4 ==> Valid(r) && |r| + 3 >= max)
  {
    hide Cleaned, Valid, RuneLen, Trimmed;
    var s := TrimSpace(s0);
    var out := DropControls(s);
    CleanedIsValid(s);
    if max > 0 && |out| > max {
      var cut := max;
      while cut > 0 && cut < |out|
        invariant 0 <= cut <= max
        invariant forall j :: cut < j <= max ==> Cont(out[j])
      {
        if out[cut] < 0x80 { break; }
        if out[cut] >= 0xC0 { break; }
        cut := cut - 1;
      }
      CutIsFloor(out, max, cut);
      if cut <= 0 { cut := max; }
      return out[..cut];
    }
    return out;
  }

  lemma CutIsFloor(s: bytes, max: nat, cut: nat)
    requires Valid(s) && 0 < max < |s| && cut <= max
    requires forall j :: cut < j <= max ==> Cont(s[j])
    requires cut == 0 || !Cont(s[cut])
    ensures cut == Floor(s, max)
    ensures cut == 0 <==> RuneLen(s) > max
    ensures Valid(s[..cut]) && cut + 3 >= max
    ensures cut == 0 ==> !Valid(s[..max])
  {
    hide RuneLen, Cont, Floor, Valid, Boundary;
    SuffixOfValid(s, cut);
    FloorIsLast(s, max, cut);
    FloorIsNear(s, max);
    var f := Floor(s, max);
    SuffixOfValid(s, f);
    BoundaryStart(s, f);
    ZeroIsBoundary(s);
    assert f == cut;
    ValidPrefixIsBoundary(s, cut);
    ValidPrefixIsBoundary(s, max);
    FloorIsLast(s, max, max);
    FloorZero(s, max);
  }

  lemma ZeroIsBoundary(s: bytes)
    ensures Boundary(s, 0)
  {
  }

  lemma FloorZero(s: bytes, k: nat)
    requires Valid(s) && s != []
    ensures Floor(s, k) == 0 <==> RuneLen(s) > k
  {
  }

  lemma BoundaryStart(s: bytes, k: nat)
    requires k < |s| && Valid(s[k..])
    ensures !Cont(s[k])
  {
    assert s[k..][0] == s[k];
  }
}
