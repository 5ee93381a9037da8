/** Which blocks the bulk pruner takes (pkg/email/extract.go:32-146), read off the tree: where its
    root is, when it goes ahead, and what happens to every node. */
module Pruning {
  import opened Dom
  import opened Tables
  import opened Extract

  /** The elements among siblings, each with its subtree. */
  function Elements(f: Forest): (s: seq<Forest>)
    ensures forall e :: e in s ==> e.Node? && e.kind.Elem? && e.id in Ids(f) && Ids(e) <= Ids(f)
  {
    match f
    case Nil => []
    case Node(i, k, kids, next) => (if k.Elem? then [Node(i, k, kids, Nil)] else []) + Elements(next)
  }

  // ---------- the root ----------

  /** `kids` are the children of the only element in `f`, a generic container that carries at least
      95% of the text of `f`. */
  ghost predicate Wraps(f: Forest, kids: Forest) {
    exists e :: Elements(f) == [e] && (Is(e.kind, Div) || Is(e.kind, Wrapper)) && kids == e.kids
      && TrimLen(TextOf(f)) > 0 && 100 * TrimLen(TextOf(kids)) >= 95 * TrimLen(TextOf(f))
  }

  lemma {:induction false} OnlyIsElements(f: Forest)
    ensures HasElem(f) <==> Elements(f) != []
    ensures if OnlyElem(f).Node? then Elements(f) == [OnlyElem(f)] else |Elements(f)| != 1
  {
    if f.Node? { OnlyIsElements(f.next); }
  }

  lemma CarriesMeans(f: Forest, kids: Forest)
    ensures Wraps(f, kids) <==> Carries(f, OnlyElem(f)) && kids == OnlyElem(f).kids
  {
    hide TrimLen, TextOf, Elements;
    OnlyIsElements(f);
    if Carries(f, OnlyElem(f)) { assert Elements(f) == [OnlyElem(f)]; }
  }

  /** The root is found by going down while there is one wrapper that carries the text, at most
      `depth` times. */
  lemma {:induction false} RootIsDescent(f: Forest, depth: nat) returns (path: seq<Forest>)
    ensures 1 <= |path| <= depth + 1 && path[0] == f && path[|path| - 1] == RootAt(f, depth)
    ensures forall i :: 0 <= i < |path| - 1 ==> Wraps(path[i], path[i + 1])
    ensures |path| == depth + 1 || forall kids :: !Wraps(RootAt(f, depth), kids)
    decreases depth
  {
    hide Wraps, Carries;
    CarriesOne(f);
    forall k ensures Wraps(f, k) <==> Carries(f, OnlyElem(f)) && k == OnlyElem(f).kids { CarriesMeans(f, k); }
    if depth == 0 || !Carries(f, OnlyElem(f)) {
      path := [f];
    } else {
      var rest := RootIsDescent(OnlyElem(f).kids, depth - 1);
      path := [f] + rest;
      forall i | 0 <= i < |path| - 1 ensures Wraps(path[i], path[i + 1]) {
        if i > 0 { assert path[i] == rest[i - 1] && path[i + 1] == rest[i]; }
      }
    }
  }

  // ---------- trimming ----------

  lemma {:induction false} AllSpace(s: string)
    requires TrimL(s) == ""
    ensures forall c :: c in s ==> IsSpace(c)
  {
    if s != "" {
      AllSpace(s[1..]);
      assert s == [s[0]] + s[1..];
    }
  }

  lemma {:induction false} TrimEnds(s: string)
    ensures TrimL(s) != "" ==> !IsSpace(TrimL(s)[0])
    ensures TrimR(s) != "" ==> !IsSpace(TrimR(s)[|TrimR(s)| - 1]) && TrimR(s)[0] == s[0]
    decreases |s|
  {
    if s != "" {
      TrimEnds(s[1..]);
      TrimEnds(s[..|s| - 1]);
    }
  }

  /** Trimming takes white space off both ends, all of it, and nothing else. */
  lemma TrimMeans(s: string) returns (a: string, b: string)
    ensures s == a + Trim(s) + b && forall c :: c in a + b ==> IsSpace(c)
    ensures Trim(s) != "" ==> !IsSpace(Trim(s)[0]) && !IsSpace(Trim(s)[|Trim(s)| - 1])
  {
    hide TrimL, TrimR, IsSpace;
    a := TrimLSplit(s);
    b := TrimRSplit(TrimL(s));
    AllSpace(a);
    AllSpace(b);
    TrimEnds(s);
    TrimEnds(TrimL(s));
  }

  // ---------- links ----------

  /** The text below anchors. */
  function TextUnder(f: Forest, inside: bool): string {
    match f
    case Nil => ""
    case Node(_, k, kids, next) =>
      (if k.Text? && inside then k.data else "") + TextUnder(kids, inside || Is(k, A)) + TextUnder(next, inside)
  }

  lemma {:induction false} TextUnderAll(f: Forest)
    ensures TextUnder(f, true) == TextOf(f)
  {
    if f.Node? { TextUnderAll(f.kids); TextUnderAll(f.next); }
  }

  lemma {:induction false} SolidTrimmed(s: string)
    ensures TrimL(s) == s || Solid(s) == Solid(TrimL(s))
    ensures ByteLen(Solid(s)) <= ByteLen(s)
    decreases |s|
  {
    if s != "" {
      SolidTrimmed(s[1..]);
      if !IsSpace(s[0]) { assert ([s[0]] + Solid(s[1..]))[1..] == Solid(s[1..]); }
    }
  }

  lemma {:induction false} SolidTrimR(s: string)
    ensures Solid(TrimR(s)) == Solid(s)
    decreases |s|
  {
    if s != "" && IsSpace(s[|s| - 1]) {
      var front, last := s[..|s| - 1], s[|s| - 1..];
      SolidTrimR(front);
      SolidConcat(front, last);
      assert s == front + last;
      assert last[1..] == "";
    }
  }

  lemma TrimLenBounds(s: string)
    ensures ByteLen(Solid(s)) <= TrimLen(s) <= ByteLen(s)
  {
    hide IsSpace, Solid, TrimL, TrimR;
    SolidTrimmed(s);
    SolidTrimR(TrimL(s));
    SolidTrimmed(Trim(s));
    var u := TrimLSplit(s);
    var v := TrimRSplit(TrimL(s));
    ByteLenConcat(u, TrimL(s));
    ByteLenConcat(Trim(s), v);
  }

  lemma SolidBytes(a: string, b: string)
    ensures ByteLen(Solid(a + b)) == ByteLen(Solid(a)) + ByteLen(Solid(b))
    ensures ByteLen(a + b) == ByteLen(a) + ByteLen(b)
  {
    hide Solid, ByteLen;
    SolidConcat(a, b);
    ByteLenConcat(Solid(a), Solid(b));
    ByteLenConcat(a, b);
  }

  /** The linked length is the text below anchors, up to white space. */
  lemma {:induction false} LinkedMeans(f: Forest)
    ensures ByteLen(Solid(TextUnder(f, false))) <= Linked(f) <= ByteLen(TextUnder(f, false))
  {
    hide Solid, ByteLen, TrimLen;
    if f.Node? {
      LinkedMeans(f.kids);
      LinkedMeans(f.next);
      TextUnderAll(f.kids);
      TrimLenBounds(TextOf(f.kids));
      SolidBytes(TextUnder(f.kids, Is(f.kind, A)), TextUnder(f.next, false));
      assert TextUnder(f, false) == TextUnder(f.kids, Is(f.kind, A)) + TextUnder(f.next, false);
    } else {
      NoBytes();
    }
  }

  lemma NoBytes()
    ensures ByteLen("") == 0 && Solid("") == "" && TextUnder(Nil, false) == ""
  {
  }

  // ---------- boilerplate ----------

  /** Block `i` of `n`: a keyword in the last three tenths, a keyword in a short text that is mostly
      links, or social names in a text that is nearly all links. */
  ghost predicate Boilerplate(e: Forest, i: nat, n: nat, w: Words)
    requires e.Node?
  {
    var text, len, linked := Trim(TextOf(e.kids)), TrimLen(TextOf(e.kids)), Linked(e.kids);
    && len > 0
    && (|| (w.keyword(text) && i >= n * 7 / 10)
        || (w.keyword(text) && 2 * linked > len && len < 200)
        || (w.social(text) && 10 * linked > 8 * len))
  }

  /** The boilerplate blocks under the root. */
  ghost function Gone(root: Forest, w: Words): set<nat> {
    var bs := Elements(root);
    set i | 0 <= i < |bs| && Boilerplate(bs[i], i, |bs|, w) :: bs[i].id
  }

  lemma {:induction false} BlocksAre(f: Forest)
    ensures |Blocks(f)| == |Elements(f)|
    ensures forall i :: 0 <= i < |Elements(f)| ==>
      Blocks(f)[i].node == Elements(f)[i] && Blocks(f)[i].text == Trim(TextOf(Elements(f)[i].kids))
  {
    hide Trim, TextOf;
    if f.Node? { BlocksAre(f.next); }
  }

  lemma DropsMeans(e: Forest, i: nat, n: nat, w: Words)
    requires e.Node?
    ensures Drops(Block(e, Trim(TextOf(e.kids))), i, n, w) <==> Boilerplate(e, i, n, w)
  {
    hide Trim, TextOf, Linked;
  }

  lemma GoneIsDropped(root: Forest, w: Words)
    requires Unique(root)
    ensures Gone(root, w) == Elems(DroppedIds(Blocks(root), |Blocks(root)|, w))
  {
    hide Drops, Boilerplate, DroppedIds, Trim, TextOf, Elements, Blocks;
    var bs, es := Blocks(root), Elements(root);
    BlocksAre(root);
    DroppedAre(bs, |bs|, w);
    forall i | 0 <= i < |bs| ensures Drops(bs[i], i, |bs|, w) <==> Boilerplate(es[i], i, |es|, w) {
      DropsMeans(es[i], i, |es|, w);
      assert bs[i] == Block(es[i], Trim(TextOf(es[i].kids)));
    }
  }

  // ---------- every node ----------

  lemma FindIn(i: nat, k: Kind, kids: Forest, next: Forest, g: nat)
    requires Unique(Node(i, k, kids, next))
    ensures var f := Node(i, k, kids, next);
      && (g == i ==> Find(f, g) == Node(i, k, kids, Nil))
      && (g in Ids(kids) ==> Find(f, g) == Find(kids, g))
      && (g in Ids(next) ==> Find(f, g) == Find(next, g))
  {
  }

  /** Is `x` in the subtree of a node of `s`? */
  ghost predicate Under(f: Forest, s: set<nat>, x: nat) {
    exists g :: g in s && g in Ids(f) && x in Ids(Find(f, g))
  }

  lemma UnderParts(f: Forest, s: set<nat>, x: nat)
    requires Unique(f) && f.Node?
    ensures Under(f, s, x) <==>
      (f.id in s && (x == f.id || x in Ids(f.kids))) || Under(f.kids, s, x) || Under(f.next, s, x)
  {
    forall g ensures
      && (g == f.id ==> Find(f, g) == Node(f.id, f.kind, f.kids, Nil))
      && (g in Ids(f.kids) ==> Find(f, g) == Find(f.kids, g))
      && (g in Ids(f.next) ==> Find(f, g) == Find(f.next, g))
    {
      FindIn(f.id, f.kind, f.kids, f.next, g);
    }
    hide Find;
    assert Ids(Node(f.id, f.kind, f.kids, Nil)) == {f.id} + Ids(f.kids) by { assert Ids(Nil) == {}; }
  }

  lemma UnderIsIn(f: Forest, s: set<nat>, x: nat)
    ensures Under(f, s, x) ==> x in Ids(f)
  {
  }

  /** Removing nodes removes exactly what is in their subtrees, and nothing else changes. */
  lemma {:induction false} WithoutMeans(f: Forest, s: set<nat>, e: Item)
    requires Unique(f)
    ensures e in Items(Without(f, s)) <==> e in Items(f) && !Under(f, s, e.id)
  {
    if f.Node? {
      WithoutMeans(f.kids, s, e);
      WithoutMeans(f.next, s, e);
      ItemIds(f.kids, e);
      ItemIds(f.next, e);
      UnderParts(f, s, e.id);
      UnderIsIn(f.kids, s, e.id);
      UnderIsIn(f.next, s, e.id);
      hide Under;
    }
  }

  lemma {:induction false} ItemIds(f: Forest, e: Item)
    ensures e in Items(f) ==> e.id in Ids(f)
  {
    if f.Node? { ItemIds(f.kids, e); ItemIds(f.next, e); }
  }

  lemma {:induction false} FindElement(f: Forest, e: Forest)
    requires Unique(f) && e in Elements(f)
    ensures Find(f, e.id) == e
  {
    if f.kind.Elem? && e == Node(f.id, f.kind, f.kids, Nil) {
    } else {
      assert e in Elements(f.next);
      FindElement(f.next, e);
      FindIn(f.id, f.kind, f.kids, f.next, e.id);
    }
  }

  lemma {:induction false} OnlyIsFound(f: Forest, x: nat)
    requires Unique(f) && OnlyElem(f).Node? && x in Ids(OnlyElem(f).kids)
    ensures Find(f, x) == Find(OnlyElem(f).kids, x) && Unique(OnlyElem(f).kids)
  {
    if f.kind.Elem? {
      FindIn(f.id, f.kind, f.kids, f.next, x);
    } else {
      OnlyIsFound(f.next, x);
      FindIn(f.id, f.kind, f.kids, f.next, x);
    }
  }

  lemma {:induction false} RootIsFound(f: Forest, depth: nat, x: nat)
    requires Unique(f) && x in Ids(RootAt(f, depth))
    ensures Find(f, x) == Find(RootAt(f, depth), x)
    decreases depth
  {
    hide Carries, Find;
    if depth > 0 && Carries(f, OnlyElem(f)) {
      CarriesOne(f);
      RootIsIn(OnlyElem(f).kids, depth - 1);
      OnlyIsFound(f, x);
      RootIsFound(OnlyElem(f).kids, depth - 1, x);
    }
  }

  lemma RootIsIn(f: Forest, depth: nat)
    ensures Ids(RootAt(f, depth)) <= Ids(f)
  {
  }

  lemma RootIsUnique(f: Forest, depth: nat)
    requires Unique(f)
    ensures Unique(RootAt(f, depth))
  {
    WrappersKeepText(f, depth, {});
  }

  lemma BlockIsFound(f: Forest, e: Forest)
    requires Unique(f) && e in Elements(RootAt(f, 10))
    ensures e.id in Ids(f) && Find(f, e.id) == e
  {
    hide RootAt, Find;
    RootIsUnique(f, 10);
    RootIsIn(f, 10);
    FindElement(RootAt(f, 10), e);
    RootIsFound(f, 10, e.id);
  }

  /** When the pruner takes anything at all, every node stays that is not in a boilerplate block
      under the root, and nothing else does. */
  lemma PrunedKeepsExactly(f: Forest, w: Words, e: Item)
    requires Unique(f) && Pruned(f, w) != f
    ensures var bs := Elements(RootAt(f, 10));
      e in Items(Pruned(f, w)) <==>
      e in Items(f) && forall i :: 0 <= i < |bs| && Boilerplate(bs[i], i, |bs|, w) ==> e.id !in Ids(bs[i])
  {
    hide RootAt, Elements, Boilerplate, Prunes, Find, Items, Unique, DroppedIds;
    var root := RootAt(f, 10);
    var bs := Elements(root);
    RootIsUnique(f, 10);
    GoneIsDropped(root, w);
    WithoutMeans(f, Gone(root, w), e);
    forall i | 0 <= i < |bs| ensures bs[i].id in Ids(f) && Find(f, bs[i].id) == bs[i] {
      assert bs[i] in bs;
      BlockIsFound(f, bs[i]);
    }
  }

  /** The fate of the single block. */
  lemma BlocksThatGo(f: Forest, w: Words, i: nat)
    requires Unique(f) && Pruned(f, w) != f && i < |Elements(RootAt(f, 10))|
    ensures var bs := Elements(RootAt(f, 10)); var e := bs[i];
      var text, len, linked := Trim(TextOf(e.kids)), TrimLen(TextOf(e.kids)), Linked(e.kids);
      var stays := e.id in Ids(Pruned(f, w));
      && (!w.keyword(text) && !w.social(text) ==> stays)
      && (len == 0 ==> stays)
      && (len > 0 && w.keyword(text) && i >= |bs| * 7 / 10 ==> !stays)
      && (len > 0 && w.keyword(text) && i < |bs| * 7 / 10 && !w.social(text) ==>
            (stays <==> 2 * linked <= len || len >= 200))
      && (len > 0 && w.social(text) && 10 * linked > 8 * len ==> !stays)
      && (!w.keyword(text) && w.social(text) && 10 * linked <= 8 * len ==> stays)
  {
    hide RootAt, Pruned, Trim, TrimLen, TextOf, Linked, Unique;
    var bs := Elements(RootAt(f, 10));
    var e := bs[i];
    BlockIsFound(f, e);
    var x := Item(e.id, e.kind);
    FoundIsItem(f, e.id);
    PrunedKeepsExactly(f, w, x);
    IdIsItem(f, Pruned(f, w), w, e);
    BlocksApart(RootAt(f, 10), i) by { RootIsUnique(f, 10); }
  }

  lemma {:induction false} FoundIsItem(f: Forest, x: nat)
    requires x in Ids(f)
    ensures Item(x, Find(f, x).kind) in Items(f)
  {
    if f.id != x {
      if x in Ids(f.kids) { FoundIsItem(f.kids, x); } else { FoundIsItem(f.next, x); }
    }
  }

  lemma {:induction false} IdHasItem(f: Forest, x: nat) returns (k: Kind)
    requires x in Ids(f)
    ensures Item(x, k) in Items(f)
  {
    FoundIsItem(f, x);
    k := Find(f, x).kind;
  }

  lemma {:induction false} OneKind(f: Forest, a: Item, b: Item)
    requires Unique(f) && a in Items(f) && b in Items(f) && a.id == b.id
    ensures a == b
  {
    ItemIds(f.kids, a);
    ItemIds(f.kids, b);
    ItemIds(f.next, a);
    ItemIds(f.next, b);
    if a in Items(f.kids) && b in Items(f.kids) { OneKind(f.kids, a, b); }
    if a in Items(f.next) && b in Items(f.next) { OneKind(f.next, a, b); }
  }

  lemma IdIsItem(f: Forest, g: Forest, w: Words, e: Forest)
    requires Unique(f) && g == Pruned(f, w) && g != f && e.Node? && Item(e.id, e.kind) in Items(f)
    ensures e.id in Ids(g) <==> Item(e.id, e.kind) in Items(g)
  {
    hide Pruned, Items, Unique, Boilerplate, RootAt;
    ItemIds(g, Item(e.id, e.kind));
    if e.id in Ids(g) {
      var k := IdHasItem(g, e.id);
      PrunedKeepsExactly(f, w, Item(e.id, k));
      OneKind(f, Item(e.id, k), Item(e.id, e.kind));
    }
  }

  lemma {:induction false} BlocksApart(f: Forest, i: nat)
    requires Unique(f) && i < |Elements(f)|
    ensures forall j :: 0 <= j < |Elements(f)| && j != i ==> Elements(f)[i].id !in Ids(Elements(f)[j])
    ensures Elements(f)[i].id in Ids(Elements(f)[i])
  {
    var es := Elements(f);
    forall j | 0 <= j < |es| && j != i ensures es[i].id !in Ids(es[j]) {
      TwoApart(f, if i < j then i else j, if i < j then j else i);
    }
  }

  lemma ElementsStep(f: Forest)
    requires f.Node?
    ensures Elements(f) ==
            if f.kind.Elem? then [Node(f.id, f.kind, f.kids, Nil)] + Elements(f.next) else Elements(f.next)
    ensures Unique(f) ==> Unique(f.next) && Ids(Node(f.id, f.kind, f.kids, Nil)) !! Ids(f.next)
  {
  }

  lemma {:induction false} TwoApart(f: Forest, i: nat, j: nat)
    requires Unique(f) && i < j < |Elements(f)|
    ensures Ids(Elements(f)[i]) !! Ids(Elements(f)[j])
  {
    ElementsStep(f);
    hide Elements, Ids, Unique;
    var es, rest := Elements(f), Elements(f.next);
    if !f.kind.Elem? {
      TwoApart(f.next, i, j);
    } else {
      assert es[j] == rest[j - 1];
      if i > 0 {
        assert es[i] == rest[i - 1];
        TwoApart(f.next, i - 1, j - 1);
      } else {
        assert rest[j - 1] in rest;
      }
    }
  }

  // ---------- when the pruner goes ahead ----------

  lemma {:induction false} SumWithoutNone(bs: seq<Block>)
    requires forall b :: b in bs ==> b.node.Node?
    ensures SumWithout(bs, {}) == Sum(bs)
    decreases |bs|
  {
    hide ByteLen;
    if bs != [] {
      var front, last := bs[..|bs| - 1], bs[|bs| - 1];
      assert bs == front + [last];
      SumWithoutNone(front);
      SumWithoutConcat(front, [last], {});
      OneBlock(last, {});
    }
  }

  lemma {:induction false} MeasuresBlock(f: Forest, i: nat)
    requires i < |Elements(f)|
    ensures Spared(f, {}) >= TrimLen(TextOf(Elements(f)[i].kids))
  {
    hide TrimLen, TextOf;
    if f.kind.Elem? {
      if i > 0 {
        assert Elements(f)[i] == Elements(f.next)[i - 1];
        MeasuresBlock(f.next, i - 1);
      }
    } else {
      assert Elements(f) == Elements(f.next);
      MeasuresBlock(f.next, i);
    }
  }

  lemma WithoutChanges(f: Forest, s: set<nat>)
    ensures (exists x :: x in s && x in Ids(f)) ==> Without(f, s) != f
    ensures (forall x :: x in s ==> x !in Ids(f)) ==> Without(f, s) == f
  {
    if forall x :: x in s ==> x !in Ids(f) { WithoutNone(f, s); }
  }

  lemma GuardMeans(root: Forest, w: Words)
    requires Unique(root)
    ensures Total(root) == Spared(root, {})
    ensures Loose(root) + Sum(Kept(Blocks(root), |Blocks(root)|, w)) == Spared(root, Gone(root, w))
  {
    hide Spared, Loose, Sum, SumWithout, Kept, DroppedIds, Drops, Gone;
    var bs := Blocks(root);
    SparedIsListed(root, {});
    SumWithoutNone(bs);
    GoneIsDropped(root, w);
    SparedIsListed(root, Gone(root, w));
    BlocksDiffer(root);
    ListedIsKept(bs, |bs|, w);
    assert bs[..|bs|] == bs;
  }

  /** The pruner takes something exactly when there are at least three blocks, one of them is
      boilerplate, and at least 40% of the measured text is outside boilerplate blocks. */
  lemma PrunesIff(f: Forest, w: Words)
    requires Unique(f)
    ensures var root := RootAt(f, 10);
      Pruned(f, w) != f <==>
        |Elements(root)| >= 3 && Gone(root, w) != {} && 100 * Spared(root, Gone(root, w)) >= 40 * Spared(root, {})
  {
    hide RootAt, Spared, Total, Loose, Sum, Kept, DroppedIds, Elements, Blocks, Boilerplate, Unique;
    var root := RootAt(f, 10);
    var gone := Gone(root, w);
    RootIsUnique(f, 10);
    RootIsIn(f, 10);
    GuardMeans(root, w);
    GoneIsDropped(root, w);
    BlocksAre(root);
    GoneIsMeasured(root, w);
    WithoutChanges(f, gone);
  }

  lemma GoneIsMeasured(root: Forest, w: Words)
    ensures Gone(root, w) <= Ids(root)
    ensures Gone(root, w) != {} ==> Spared(root, {}) > 0
  {
    hide Spared, TrimLen, TextOf, Trim;
    var bs := Elements(root);
    forall i | 0 <= i < |bs| ensures bs[i].id in Ids(root) { assert bs[i] in bs; }
    if Gone(root, w) != {} {
      var x :| x in Gone(root, w);
      var i :| 0 <= i < |bs| && Boilerplate(bs[i], i, |bs|, w) && bs[i].id == x;
      MeasuresBlock(root, i);
    }
  }
}
