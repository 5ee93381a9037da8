/** What reader mode keeps (pkg/email/readermode.go:57-86): for every pass, the nodes that are
    there afterwards, read off the tree before it, and what of a mail reaches the end. */
module Survival {
  import opened Dom
  import opened Tables
  import opened Extract
  import opened ReaderMode
  import opened Breaks
  import Pruning

  // ---------- attributes ----------

  /** Attribute number `i` is the first one, or the last one, with this key. */
  predicate FirstAt(attrs: seq<Attr>, key: Key, i: int) {
    0 <= i < |attrs| && attrs[i].key == key && forall j :: 0 <= j < i ==> attrs[j].key != key
  }

  predicate LastAt(attrs: seq<Attr>, key: Key, i: int) {
    0 <= i < |attrs| && attrs[i].key == key && forall j :: i < j < |attrs| ==> attrs[j].key != key
  }

  predicate Absent(attrs: seq<Attr>, key: Key) { forall j :: 0 <= j < |attrs| ==> attrs[j].key != key }

  lemma {:induction false} FirstMeans(attrs: seq<Attr>, key: Key)
    ensures First(attrs, key).Missing? <==> Absent(attrs, key)
    ensures forall i :: FirstAt(attrs, key, i) ==> First(attrs, key) == Found(attrs[i].val)
    ensures First(attrs, key).Found? ==> exists i :: FirstAt(attrs, key, i)
    decreases |attrs|
  {
    if attrs != [] && attrs[0].key != key {
      FirstMeans(attrs[1..], key);
      assert attrs == [attrs[0]] + attrs[1..];
      forall i | FirstAt(attrs, key, i) ensures First(attrs, key) == Found(attrs[i].val) {
        assert FirstAt(attrs[1..], key, i - 1);
      }
      if First(attrs, key).Found? {
        var i :| FirstAt(attrs[1..], key, i);
        assert FirstAt(attrs, key, i + 1);
      }
    } else if attrs != [] {
      assert FirstAt(attrs, key, 0);
    }
  }

  lemma LastStep(attrs: seq<Attr>, key: Key, i: int)
    requires attrs != []
    ensures var front, last := attrs[..|attrs| - 1], attrs[|attrs| - 1];
      if last.key == key then LastAt(attrs, key, i) <==> i == |attrs| - 1
      else LastAt(attrs, key, i) <==> LastAt(front, key, i)
  {
  }

  lemma {:induction false} LastMeans(attrs: seq<Attr>, key: Key)
    ensures Last(attrs, key).Missing? <==> Absent(attrs, key)
    ensures forall i :: LastAt(attrs, key, i) ==> 0 <= i < |attrs| && Last(attrs, key) == Found(attrs[i].val)
    ensures Last(attrs, key).Found? ==> exists i :: LastAt(attrs, key, i)
    decreases |attrs|
  {
    if attrs != [] {
      var front := attrs[..|attrs| - 1];
      LastMeans(front, key);
      forall i ensures
        if attrs[|attrs| - 1].key == key then LastAt(attrs, key, i) <==> i == |attrs| - 1
        else LastAt(attrs, key, i) <==> LastAt(front, key, i)
      {
        LastStep(attrs, key, i);
      }
      hide LastAt;
      if attrs[|attrs| - 1].key == key { assert LastAt(attrs, key, |attrs| - 1); }
    }
  }

  // ---------- which nodes the drop passes take ----------

  /** The style of an image is that of its last style attribute, or empty. */
  ghost predicate StyleReads(attrs: seq<Attr>, style: string) {
    (Absent(attrs, Style) && style == "") || exists i :: LastAt(attrs, Style, i) && attrs[i].val == style
  }

  /** A width or height up to the limit: the style's, or the last attribute's if the style has
      none. */
  ghost predicate Small(attrs: seq<Attr>, key: Key, style: string, minPx: int, r: Rules) {
    if r.dimension(style, key) >= 0 then r.dimension(style, key) <= minPx
    else exists i :: LastAt(attrs, key, i) && 0 <= r.pixels(attrs[i].val) <= minPx
  }

  ghost predicate Pixel(attrs: seq<Attr>, minPx: int, r: Rules) {
    exists style :: StyleReads(attrs, style) &&
      (r.displayNone(style) || Small(attrs, Width, style, minPx, r) || Small(attrs, Height, style, minPx, r))
  }

  ghost predicate FromMatrix(attrs: seq<Attr>, r: Rules) {
    (Absent(attrs, Src) && r.mxc("")) || exists i :: FirstAt(attrs, Src, i) && r.mxc(attrs[i].val)
  }

  ghost predicate FirstStyle(attrs: seq<Attr>, test: string -> bool) {
    exists i :: FirstAt(attrs, Style, i) && test(attrs[i].val)
  }

  /** No child element but such as are never rendered. */
  predicate Leaf(f: Forest) {
    match f
    case Nil => true
    case Node(_, k, _, next) => (k.Elem? ==> k.tag == NonRendered) && Leaf(next)
  }

  /** Never rendered, hidden by its style, a leaf with a collapsed font, or an image that is a
      tracking pixel or can not be resolved. */
  ghost predicate Unfit(k: Kind, kids: Forest, minPx: int, r: Rules) {
    k.Elem? &&
    (|| k.tag == NonRendered
     || FirstStyle(k.attrs, r.hidden)
     || (FirstStyle(k.attrs, r.fontHidden) && Leaf(kids))
     || (k.tag == Img && (Pixel(k.attrs, minPx, r) || !FromMatrix(k.attrs, r))))
  }

  /** Something to click on is left: visible text or an image, outside unfit nodes. */
  ghost predicate Shows(f: Forest, minPx: int, r: Rules) {
    match f
    case Nil => false
    case Node(_, k, kids, next) =>
      || (!Unfit(k, kids, minPx, r) && ((k.Text? && !Blank(k.data)) || Is(k, Img) || Shows(kids, minPx, r)))
      || Shows(next, minPx, r)
  }

  ghost predicate Goes(k: Kind, kids: Forest, minPx: int, r: Rules) {
    Unfit(k, kids, minPx, r) || (Is(k, A) && !Shows(kids, minPx, r))
  }

  /** The nodes that are not to go and are not below one that is. */
  ghost function Rendered(f: Forest, minPx: int, r: Rules): seq<Item> {
    match f
    case Nil => []
    case Node(i, k, kids, next) =>
      (if Goes(k, kids, minPx, r) then [] else [Item(i, k)] + Rendered(kids, minPx, r)) + Rendered(next, minPx, r)
  }

  lemma StyleMeans(attrs: seq<Attr>) returns (style: string)
    ensures StyleReads(attrs, style) && forall s :: StyleReads(attrs, s) ==> s == style
    ensures style == match Last(attrs, Style) case Missing => "" case Found(v) => v
  {
    LastMeans(attrs, Style);
    style := match Last(attrs, Style) case Missing => "" case Found(v) => v;
    hide LastAt, Absent;
    assert StyleReads(attrs, style);
  }

  lemma SmallMeans(attrs: seq<Attr>, key: Key, style: string, minPx: int, r: Rules)
    requires style == match Last(attrs, Style) case Missing => "" case Found(v) => v
    ensures 0 <= Dim(attrs, key, r) <= minPx <==> Small(attrs, key, style, minPx, r)
  {
    LastMeans(attrs, key);
    hide LastAt, Absent, Last;
  }

  lemma PixelMeans(attrs: seq<Attr>, minPx: int, r: Rules)
    ensures Tracking(attrs, minPx, r) <==> Pixel(attrs, minPx, r)
  {
    hide StyleReads, Small, Dim, Last;
    var style := StyleMeans(attrs);
    SmallMeans(attrs, Width, style, minPx, r);
    SmallMeans(attrs, Height, style, minPx, r);
  }

  lemma FromMatrixMeans(attrs: seq<Attr>, r: Rules)
    ensures Resolvable(attrs, r) <==> FromMatrix(attrs, r)
  {
    FirstMeans(attrs, Src);
    hide FirstAt, Absent, First;
  }

  lemma HidesMeans(k: Kind, r: Rules)
    ensures StyleHides(k, r) <==> k.Elem? && FirstStyle(k.attrs, r.hidden)
    ensures FontHides(k, r) <==> k.Elem? && FirstStyle(k.attrs, r.fontHidden)
  {
    if k.Elem? { FirstMeans(k.attrs, Style); }
    hide FirstAt, Absent, First;
  }

  lemma {:induction false} LeafMeans(f: Forest)
    ensures HasElem(Dropped(f, NonRenderedQ())) <==> !Leaf(f)
  {
    if f.Node? { LeafMeans(f.next); }
  }

  // ---------- five passes are one ----------

  /** Two passes one after the other, the second asked on what the first leaves. */
  lemma {:induction false} DropTwice(f: Forest, p: (Kind, Forest) -> bool, q: (Kind, Forest) -> bool,
                                     both: (Kind, Forest) -> bool)
    requires forall k, kids :: both(k, kids) <==> p(k, kids) || q(k, Dropped(kids, p))
    ensures Dropped(Dropped(f, p), q) == Dropped(f, both)
  {
    if f.Node? {
      DropTwice(f.kids, p, q, both);
      DropTwice(f.next, p, q, both);
    }
  }

  ghost function UnfitQ(minPx: int, r: Rules): (Kind, Forest) -> bool { (k, kids) => Unfit(k, kids, minPx, r) }
  ghost function GoesQ(minPx: int, r: Rules): (Kind, Forest) -> bool { (k, kids) => Goes(k, kids, minPx, r) }

  ghost function UnseenQ(r: Rules): (Kind, Forest) -> bool {
    (k, kids) => Is(k, NonRendered) || HiddenQ(r)(k, Dropped(kids, NonRenderedQ()))
  }

  ghost function UnseenOrPixelQ(minPx: int, r: Rules): (Kind, Forest) -> bool {
    (k, kids) => UnseenQ(r)(k, kids) || TrackingQ(minPx, r)(k, Nil)
  }

  lemma UnfitMeans(k: Kind, kids: Forest, minPx: int, r: Rules)
    ensures UnfitQ(minPx, r)(k, kids) <==> UnseenOrPixelQ(minPx, r)(k, kids) || UnresolvableQ(r)(k, Nil)
  {
    hide StyleHides, FontHides, Tracking, Resolvable, Pixel, FromMatrix, Leaf, HasElem, Dropped, FirstStyle;
    HidesMeans(k, r);
    if k.Elem? {
      PixelMeans(k.attrs, minPx, r);
      FromMatrixMeans(k.attrs, r);
      LeafMeans(kids);
    }
    assert HiddenQ(r)(k, Dropped(kids, NonRenderedQ())) <==>
      StyleHides(k, r) || (FontHides(k, r) && !HasElem(Dropped(kids, NonRenderedQ())));
    assert UnresolvableQ(r)(k, Nil) <==> Is(k, Img) && !Resolvable(k.attrs, r);
    assert TrackingQ(minPx, r)(k, Nil) <==> Is(k, Img) && Tracking(k.attrs, minPx, r);
    assert UnseenQ(r)(k, kids) <==> Is(k, NonRendered) || HiddenQ(r)(k, Dropped(kids, NonRenderedQ()));
    assert UnseenOrPixelQ(minPx, r)(k, kids) <==> UnseenQ(r)(k, kids) || TrackingQ(minPx, r)(k, Nil);
    assert UnfitQ(minPx, r)(k, kids) <==> Unfit(k, kids, minPx, r);
  }

  lemma FourPasses(f: Forest, minPx: int, r: Rules)
    ensures Dropped(Dropped(Dropped(Dropped(f, NonRenderedQ()), HiddenQ(r)), TrackingQ(minPx, r)), UnresolvableQ(r)) ==
            Dropped(f, UnfitQ(minPx, r))
  {
    hide Dropped, Unfit, StyleHides, FontHides, Tracking, Resolvable, HasElem;
    DropTwice(f, NonRenderedQ(), HiddenQ(r), UnseenQ(r));
    DropTwice(f, UnseenQ(r), TrackingQ(minPx, r), UnseenOrPixelQ(minPx, r));
    forall k, kids ensures
      UnfitQ(minPx, r)(k, kids) <==>
        UnseenOrPixelQ(minPx, r)(k, kids) || UnresolvableQ(r)(k, Dropped(kids, UnseenOrPixelQ(minPx, r)))
    {
      UnfitMeans(k, kids, minPx, r);
    }
    DropTwice(f, UnseenOrPixelQ(minPx, r), UnresolvableQ(r), UnfitQ(minPx, r));
  }

  lemma {:induction false} ShowsMeans(f: Forest, minPx: int, r: Rules)
    ensures var g := Dropped(f, UnfitQ(minPx, r)); Shows(f, minPx, r) <==> !Blank(TextOf(g)) || Has(g, Img)
  {
    hide Unfit, Blank, TextOf;
    if f.Node? {
      ShowsMeans(f.kids, minPx, r);
      ShowsMeans(f.next, minPx, r);
      var ks, fs := Dropped(f.kids, UnfitQ(minPx, r)), Dropped(f.next, UnfitQ(minPx, r));
      BlankText(f.id, f.kind, ks, fs);
    } else {
      NoTextIsBlank();
    }
  }

  lemma NoTextIsBlank()
    ensures Blank(TextOf(Nil))
  {
  }

  lemma CleanedIsOnePass(f: Forest, minPx: int, r: Rules)
    ensures Cleaned(f, minPx, r) == Dropped(f, GoesQ(minPx, r))
  {
    hide Dropped, Unfit, Shows, Has, Blank, TextOf, NonRenderedQ, HiddenQ, TrackingQ, UnresolvableQ;
    FourPasses(f, minPx, r);
    forall k, kids ensures
      GoesQ(minPx, r)(k, kids) <==>
        UnfitQ(minPx, r)(k, kids) || EmptyAnchorQ()(k, Dropped(kids, UnfitQ(minPx, r)))
    {
      ShowsMeans(kids, minPx, r);
    }
    DropTwice(f, UnfitQ(minPx, r), EmptyAnchorQ(), GoesQ(minPx, r));
  }

  lemma {:induction false} RenderedMeans(f: Forest, minPx: int, r: Rules)
    ensures Items(Dropped(f, GoesQ(minPx, r))) == Rendered(f, minPx, r)
  {
    hide Goes;
    if f.Node? {
      RenderedMeans(f.kids, minPx, r);
      RenderedMeans(f.next, minPx, r);
      assert [] + Rendered(f.next, minPx, r) == Rendered(f.next, minPx, r);
    }
  }

  /** The first five passes leave exactly the nodes that neither go themselves nor lie below one
      that does, in order and unchanged. */
  lemma CleanedKeepsExactly(f: Forest, minPx: int, r: Rules)
    ensures Items(Cleaned(f, minPx, r)) == Rendered(f, minPx, r)
  {
    hide Cleaned, Items, Dropped, Rendered;
    CleanedIsOnePass(f, minPx, r);
    RenderedMeans(f, minPx, r);
  }

  // ---------- text passes ----------

  /** The text nodes outside pre and code rewritten, everything else as it is. */
  function Reworded(f: Forest, verbatim: bool, m: string -> string): seq<Item> {
    match f
    case Nil => []
    case Node(i, k, kids, next) =>
      [Item(i, if k.Text? && !verbatim then Text(m(k.data)) else k)]
      + Reworded(kids, verbatim || Is(k, Pre) || Is(k, Code), m) + Reworded(next, verbatim, m)
  }

  /** `s` lists the text nodes of `f` outside pre and code. */
  ghost predicate ListsText(f: Forest, verbatim: bool, s: set<nat>) {
    forall x :: x in Ids(f) ==> (x in s <==> x in TextNodes(f, verbatim, AnyText()))
  }

  lemma ListsTextParts(f: Forest, verbatim: bool, s: set<nat>)
    requires Unique(f) && f.Node? && ListsText(f, verbatim, s)
    ensures f.id in s <==> f.kind.Text? && !verbatim
    ensures ListsText(f.kids, verbatim || Verbatim(f.kind), s) && ListsText(f.next, verbatim, s)
  {
    var a, b := TextNodes(f.kids, verbatim || Verbatim(f.kind), AnyText()), TextNodes(f.next, verbatim, AnyText());
    var own := f.kind.Text? && !verbatim;
    assert forall x :: x in TextNodes(f, verbatim, AnyText()) <==> (own && x == f.id) || x in a || x in b;
  }

  lemma {:induction false} RekindIsReworded(f: Forest, verbatim: bool, s: set<nat>, m: string -> string)
    requires Unique(f) && ListsText(f, verbatim, s)
    ensures Items(Rekind(f, s, Retext(m))) == Reworded(f, verbatim, m)
    ensures ListsText(Rekind(f, s, Retext(m)), verbatim, s)
  {
    if f.Node? {
      ListsTextParts(f, verbatim, s);
      hide ListsText;
      RekindIsReworded(f.kids, verbatim || Verbatim(f.kind), s, m);
      RekindIsReworded(f.next, verbatim, s, m);
      ListsTextWhole(f, Rekind(f, s, Retext(m)), verbatim, s);
    }
  }

  lemma ListsTextWhole(f: Forest, g: Forest, verbatim: bool, s: set<nat>)
    requires f.Node? && g.Node? && g.id == f.id && (f.id in s <==> f.kind.Text? && !verbatim)
    requires (g.kind.Text? <==> f.kind.Text?) && (Verbatim(g.kind) <==> Verbatim(f.kind))
    requires Unique(f) && Ids(g.kids) == Ids(f.kids) && Ids(g.next) == Ids(f.next)
    requires ListsText(g.kids, verbatim || Verbatim(f.kind), s) && ListsText(g.next, verbatim, s)
    ensures ListsText(g, verbatim, s)
  {
    var a, b := TextNodes(g.kids, verbatim || Verbatim(g.kind), AnyText()), TextNodes(g.next, verbatim, AnyText());
    var own := g.kind.Text? && !verbatim;
    assert forall x :: x in TextNodes(g, verbatim, AnyText()) <==> (own && x == g.id) || x in a || x in b;
  }

  lemma {:induction false} RekindTexts(f: Forest, s: set<nat>, a: string -> string, b: string -> string)
    ensures Rekind(Rekind(f, s, Retext(a)), s, Retext(b)) == Rekind(f, s, Retext((d: string) => b(a(d))))
  {
    if f.Node? { RekindTexts(f.kids, s, a, b); RekindTexts(f.next, s, a, b); }
  }

  /** Decoding and stripping touch the text outside pre and code and nothing else. */
  lemma RewordingKeepsExactly(f: Forest, a: string -> string, b: string -> string)
    requires Unique(f)
    ensures Items(Retexted(Retexted(f, a), b)) == Reworded(f, false, (d: string) => b(a(d)))
    ensures Unique(Retexted(Retexted(f, a), b))
  {
    hide Items, Reworded, Rekind, TextNodes, Unique;
    var s := Elems(TextNodes(f, false, AnyText()));
    var g := Rekind(f, s, Retext(a));
    assert ListsText(f, false, s);
    RekindIsReworded(f, false, s, a);
    RekindIsReworded(f, false, s, (d: string) => b(a(d)));
    SameTexts(f, g, s);
    RekindTexts(f, s, a, b);
    RekindUnique(f, s, Retext(a));
    RekindUnique(g, s, Retext(b));
  }

  lemma SameTexts(f: Forest, g: Forest, s: set<nat>)
    requires Ids(g) == Ids(f) && ListsText(f, false, s) && ListsText(g, false, s)
    requires s == Elems(TextNodes(f, false, AnyText()))
    ensures Elems(TextNodes(g, false, AnyText())) == s
  {
  }

  // ---------- noise ----------

  /** Nothing to see below a paragraph or division: no visible text, no image, link, rule or
      break. */
  ghost predicate Empty(k: Kind, kids: Forest) {
    && (Is(k, P) || Is(k, Div))
    && forall e :: e in Items(kids) ==>
         && (e.kind.Text? ==> Blank(e.kind.data))
         && !Is(e.kind, Img) && !Is(e.kind, A) && !Is(e.kind, Hr) && !Is(e.kind, Br)
  }

  /** What collapsing noise leaves. `raw` breaks stand just before a node: from the third one on
      they go. A separator becomes a rule before an emptied text. Empty blocks go. */
  ghost function Calm(f: Forest, raw: nat, verbatim: bool, base: nat, r: Rules): seq<Item> {
    match f
    case Nil => []
    case Node(i, k, kids, next) =>
      var run := if Is(k, Br) then raw + 1 else if k.Text? && Blank(k.data) then raw else 0;
      (if Is(k, Br) && raw >= 2 then []
       else if Empty(k, kids) then []
       else
         (if k.Text? && !verbatim && !Blank(k.data) && r.separator(k.data)
          then [Item(base + i, Elem(Hr, [])), Item(i, Text(""))]
          else [Item(i, k)])
         + Calm(kids, 0, verbatim || Is(k, Pre) || Is(k, Code), base, r))
      + Calm(next, run, verbatim, base, r)
  }

  lemma {:induction false} BareMeans(f: Forest)
    ensures Bare(f) <==> forall e :: e in Items(f) ==> BareKind(e.kind)
  {
    if f.Node? {
      BareMeans(f.kids);
      BareMeans(f.next);
      BareNode(f.id, f.kind, f.kids, f.next);
      hide Bare, BareKind;
      var own := Item(f.id, f.kind);
      assert Items(f) == [own] + Items(f.kids) + Items(f.next);
      assert own in Items(f);
    }
  }

  lemma EmptyMeans(k: Kind, kids: Forest)
    ensures EmptyBlock(k, kids) <==> Empty(k, kids)
  {
    hide Blank, Bare, TextOf, Has;
    EmptyIsBare(k, kids);
    BareMeans(kids);
  }

  /** The second and third step, on what the first one left. */
  ghost function Settled(f: Forest, seps: set<nat>, base: nat): Forest {
    Dropped(Ruled(f, seps, base), EmptyBlockQ())
  }

  lemma DroppedNode(i: nat, k: Kind, kids: Forest, next: Forest)
    ensures Items(Dropped(Node(i, k, kids, next), EmptyBlockQ())) ==
            (if EmptyBlock(k, kids) then [] else [Item(i, k)] + Items(Dropped(kids, EmptyBlockQ())))
            + Items(Dropped(next, EmptyBlockQ()))
  {
    hide EmptyBlock;
    var ks, fs := Dropped(kids, EmptyBlockQ()), Dropped(next, EmptyBlockQ());
    assert EmptyBlockQ()(k, kids) <==> EmptyBlock(k, kids);
    ItemsNode(i, k, ks, fs);
    assert [] + Items(fs) == Items(fs);
  }

  lemma RulesKeepEmpty(k: Kind, kids: Forest, seps: set<nat>, base: nat)
    requires NamesTexts(kids, seps)
    ensures EmptyBlock(k, Ruled(kids, seps, base)) <==> EmptyBlock(k, kids)
  {
    hide Bare, EmptyBlock, Ruled;
    RulesShow(kids, seps, base);
    EmptyIsBare(k, kids);
    EmptyIsBare(k, Ruled(kids, seps, base));
  }

  lemma TextIsNoBlock(k: Kind, kids: Forest)
    requires k.Text? || k == RULE
    ensures !EmptyBlock(k, kids)
  {
  }

  lemma SettledSeparator(i: nat, ks: Forest, fs: Forest, base: nat)
    ensures Items(Dropped(Node(base + i, RULE, Nil, Node(i, Text(""), ks, fs)), EmptyBlockQ())) ==
      [Item(base + i, RULE), Item(i, Text(""))] + Items(Dropped(ks, EmptyBlockQ())) + Items(Dropped(fs, EmptyBlockQ()))
  {
    hide EmptyBlock, Dropped, Items;
    TextIsNoBlock(Text(""), ks);
    TextIsNoBlock(RULE, Nil);
    NothingDropped();
    DroppedNode(i, Text(""), ks, fs);
    DroppedNode(base + i, RULE, Nil, Node(i, Text(""), ks, fs));
  }

  lemma SettledNode(i: nat, k: Kind, kids: Forest, next: Forest, seps: set<nat>, base: nat)
    requires NamesTexts(kids, seps) && (i in seps ==> k.Text?)
    ensures Items(Settled(Node(i, k, kids, next), seps, base)) ==
      (if EmptyBlock(k, kids) then []
       else (if i in seps then [Item(base + i, RULE), Item(i, Text(""))] else [Item(i, k)])
            + Items(Settled(kids, seps, base)))
      + Items(Settled(next, seps, base))
  {
    hide EmptyBlock, Dropped, Items, Ruled, NamesTexts;
    var ks, fs := Ruled(kids, seps, base), Ruled(next, seps, base);
    RuledSlot(Node(i, k, kids, next), seps, base);
    if i in seps {
      TextIsNoBlock(k, kids);
      SettledSeparator(i, ks, fs, base);
    } else {
      RulesKeepEmpty(k, kids, seps, base);
      DroppedNode(i, k, ks, fs);
    }
  }

  lemma NothingDropped()
    ensures Items(Dropped(Nil, EmptyBlockQ())) == []
  {
  }

  lemma CalmNode(f: Forest, raw: nat, verbatim: bool, base: nat, r: Rules)
    requires f.Node?
    ensures Calm(f, raw, verbatim, base, r) ==
      (if (Is(f.kind, Br) && raw >= 2) || EmptyBlock(f.kind, f.kids) then []
       else (if f.kind.Text? && !verbatim && SeparatorText(r)(f.kind.data)
             then [Item(base + f.id, RULE), Item(f.id, Text(""))] else [Item(f.id, f.kind)])
            + Calm(f.kids, 0, verbatim || Verbatim(f.kind), base, r))
      + Calm(f.next, RunAfter(f.kind, raw), verbatim, base, r)
  {
    hide Empty, EmptyBlock, Blank;
    EmptyMeans(f.kind, f.kids);
  }

  /** `seps` lists the separators of `f`. */
  ghost predicate ListsSeps(f: Forest, verbatim: bool, seps: set<nat>, r: Rules) {
    forall x :: x in Ids(f) ==> (x in seps <==> x in TextNodes(f, verbatim, SeparatorText(r)))
  }

  lemma ListsSepsParts(f: Forest, verbatim: bool, seps: set<nat>, r: Rules)
    requires Unique(f) && f.Node? && ListsSeps(f, verbatim, seps, r)
    ensures f.id in seps <==> f.kind.Text? && !verbatim && SeparatorText(r)(f.kind.data)
    ensures ListsSeps(f.kids, verbatim || Verbatim(f.kind), seps, r) && ListsSeps(f.next, verbatim, seps, r)
  {
    hide Blank;
    var t := SeparatorText(r);
    var a, b := TextNodes(f.kids, verbatim || Verbatim(f.kind), t), TextNodes(f.next, verbatim, t);
    var own := f.kind.Text? && !verbatim && t(f.kind.data);
    assert forall x :: x in TextNodes(f, verbatim, t) <==> (own && x == f.id) || x in a || x in b;
  }

  lemma SepsAreTexts(f: Forest, verbatim: bool, seps: set<nat>, r: Rules)
    requires Unique(f) && ListsSeps(f, verbatim, seps, r)
    ensures NamesTexts(f, seps)
  {
    hide Blank, TextNodes, NamesTexts;
    SeparatorsAreTexts(f, verbatim, seps, SeparatorText(r));
  }

  lemma {:induction false} SettledIsCalm(f: Forest, raw: nat, verbatim: bool, brs: set<nat>, seps: set<nat>,
                                         base: nat, r: Rules)
    requires Unique(f) && Lists(f, raw, brs) && ListsSeps(Without(f, brs), verbatim, seps, r)
    ensures Items(Settled(Without(f, brs), seps, base)) == Calm(f, raw, verbatim, base, r)
  {
    hide Calm, Settled, EmptyBlock, Lists, ListsSeps, Bare, SeparatorText, NamesTexts, BlankNode;
    if f.Node? {
      ListsParts(f, raw, brs);
      CalmNode(f, raw, verbatim, base, r);
      var ks, fs := Without(f.kids, brs), Without(f.next, brs);
      WithoutUnique(f, brs);
      WithoutUnique(f.kids, brs);
      if f.id in brs {
        SettledIsCalm(f.next, RunAfter(f.kind, raw), verbatim, brs, seps, base, r);
      } else {
        ListsSepsParts(Without(f, brs), verbatim, seps, r);
        SettledIsCalm(f.kids, 0, verbatim || Verbatim(f.kind), brs, seps, base, r);
        SettledIsCalm(f.next, RunAfter(f.kind, raw), verbatim, brs, seps, base, r);
        SepsAreTexts(ks, verbatim || Verbatim(f.kind), seps, r);
        SettledNode(f.id, f.kind, ks, fs, seps, base);
        BreaksStay(f.kids, 0, brs);
        EmptyIsBare(f.kind, f.kids);
        EmptyIsBare(f.kind, ks);
      }
    } else {
      NothingSettles(raw, verbatim, seps, base, r);
    }
  }

  lemma NothingSettles(raw: nat, verbatim: bool, seps: set<nat>, base: nat, r: Rules)
    ensures Items(Settled(Nil, seps, base)) == [] && Calm(Nil, raw, verbatim, base, r) == []
  {
  }

  /** collapseNoise as a whole. */
  lemma CollapseKeepsExactly(f: Forest, base: nat, r: Rules)
    requires Unique(f)
    ensures Items(Collapsed(f, base, r)) == Calm(f, 0, false, base, r)
  {
    hide Calm, Items, ExtraBrs, TextNodes, Dropped, Ruled, SeparatorText;
    var brs := Elems(ExtraBrs(f, 0));
    var seps := Elems(Separators(Without(f, brs), r));
    assert Lists(f, 0, brs);
    assert ListsSeps(Without(f, brs), false, seps, r);
    SettledIsCalm(f, 0, false, brs, seps, base, r);
  }

  // ---------- headings ----------

  function Level(t: Tag): nat {
    match t case H1 => 1 case H2 => 2 case H3 => 3 case H4 => 4 case H5 => 5 case H6 => 6 case _ => 0
  }

  /** Two levels down, but not below the sixth. */
  predicate Lowered(before: Kind, after: Kind) {
    if before.Elem? && Level(before.tag) > 0 then
      && after.Elem? && after.attrs == before.attrs
      && Level(after.tag) == if Level(before.tag) + 2 <= 6 then Level(before.tag) + 2 else 6
    else after == before
  }

  lemma {:induction false} HeadingsAreLowered(f: Forest, s: set<nat>)
    requires Ids(f) <= s
    ensures var a, b := Items(f), Items(Rekind(f, s, Demote));
      |a| == |b| && forall n :: 0 <= n < |a| ==> b[n].id == a[n].id && Lowered(a[n].kind, b[n].kind)
  {
    if f.Node? {
      HeadingsAreLowered(f.kids, s);
      HeadingsAreLowered(f.next, s);
      DemoteLowers(f.kind);
      hide Demote, Lowered;
    }
  }

  lemma DemoteLowers(k: Kind)
    ensures Lowered(k, Demote(k))
  {
  }

  // ---------- what reaches the end ----------

  /** The nodes that are not, and are not below, the third or a later break of a run. */
  function Unbroken(f: Forest, raw: nat): seq<Item> {
    match f
    case Nil => []
    case Node(i, k, kids, next) =>
      var run := if Is(k, Br) then raw + 1 else if k.Text? && Blank(k.data) then raw else 0;
      (if Is(k, Br) && raw >= 2 then [] else [Item(i, k)] + Unbroken(kids, 0)) + Unbroken(next, run)
  }

  lemma {:induction false} UnbrokenIsIn(f: Forest, raw: nat, e: Item)
    requires e in Unbroken(f, raw)
    ensures e in Items(f)
  {
    hide Blank;
    var run := if Is(f.kind, Br) then raw + 1 else if f.kind.Text? && Blank(f.kind.data) then raw else 0;
    if e in Unbroken(f.next, run) {
      UnbrokenIsIn(f.next, run, e);
    } else if e != Item(f.id, f.kind) {
      UnbrokenIsIn(f.kids, 0, e);
    }
  }

  /** Something to see: an image or visible text. */
  predicate Seen(k: Kind) { Is(k, Img) || (k.Text? && !Blank(k.data)) }

  ghost predicate RuledOff(e: Item, items: seq<Item>, base: nat, r: Rules) {
    e.kind.Text? && r.separator(e.kind.data) && Item(base + e.id, Elem(Hr, [])) in items
  }

  /** One node's part of what is there to see. */
  lemma CalmHas(f: Forest, raw: nat, verbatim: bool, base: nat, r: Rules, e: Item)
    requires Seen(e.kind) && f.Node?
    ensures var run := if Is(f.kind, Br) then raw + 1 else if f.kind.Text? && Blank(f.kind.data) then raw else 0;
      var calm, later := Calm(f, raw, verbatim, base, r), Calm(f.next, run, verbatim, base, r);
      var below := Calm(f.kids, 0, verbatim || Is(f.kind, Pre) || Is(f.kind, Code), base, r);
      var stays := !(Is(f.kind, Br) && raw >= 2) && !Empty(f.kind, f.kids);
      && (e in calm ==> e in later || (stays && (e in below || e == Item(f.id, f.kind))))
      && (e in later || (stays && e in below) ==> e in calm)
      && (stays && e == Item(f.id, f.kind) ==> e in calm || RuledOff(e, calm, base, r))
      && (RuledOff(e, later, base, r) || (stays && RuledOff(e, below, base, r)) ==> RuledOff(e, calm, base, r))
  {
    var run := if Is(f.kind, Br) then raw + 1 else if f.kind.Text? && Blank(f.kind.data) then raw else 0;
    var later := Calm(f.next, run, verbatim, base, r);
    var below := Calm(f.kids, 0, verbatim || Is(f.kind, Pre) || Is(f.kind, Code), base, r);
    var stays := !(Is(f.kind, Br) && raw >= 2) && !Empty(f.kind, f.kids);
    var sep := f.kind.Text? && !verbatim && !Blank(f.kind.data) && r.separator(f.kind.data);
    CalmParts(f, raw, verbatim, base, r, run, sep);
    hide Calm, Empty, Blank;
    if stays { OwnPart(f.id, f.kind, sep, base, r, below, later, e); }
    assert [] + later == later;
  }

  function OwnItems(i: nat, k: Kind, sep: bool, base: nat): seq<Item> {
    if sep then [Item(base + i, Elem(Hr, [])), Item(i, Text(""))] else [Item(i, k)]
  }

  lemma CalmParts(f: Forest, raw: nat, verbatim: bool, base: nat, r: Rules, run: nat, sep: bool)
    requires f.Node?
    requires run == if Is(f.kind, Br) then raw + 1 else if f.kind.Text? && Blank(f.kind.data) then raw else 0
    requires sep == (f.kind.Text? && !verbatim && !Blank(f.kind.data) && r.separator(f.kind.data))
    ensures Calm(f, raw, verbatim, base, r) ==
      (if (Is(f.kind, Br) && raw >= 2) || Empty(f.kind, f.kids) then []
       else OwnItems(f.id, f.kind, sep, base)
            + Calm(f.kids, 0, verbatim || Is(f.kind, Pre) || Is(f.kind, Code), base, r))
      + Calm(f.next, run, verbatim, base, r)
  {
    hide Empty, Blank;
  }

  lemma OwnPart(i: nat, k: Kind, sep: bool, base: nat, r: Rules, below: seq<Item>, later: seq<Item>, e: Item)
    requires Seen(e.kind) && (sep ==> k.Text? && r.separator(k.data))
    ensures var calm := OwnItems(i, k, sep, base) + below + later;
      && (e in calm ==> e in later || e in below || e == Item(i, k))
      && (e in later || e in below ==> e in calm)
      && (e == Item(i, k) ==> e in calm || RuledOff(e, calm, base, r))
      && (RuledOff(e, later, base, r) || RuledOff(e, below, base, r) ==> RuledOff(e, calm, base, r))
  {
    NewTextIsBlank();
    hide Blank;
    var own := OwnItems(i, k, sep, base);
    assert own[0] in own + below + later;
  }

  /** Collapsing noise takes nothing there is to see, but turns separators into rules. */
  lemma {:induction false} CalmKeepsSeen(f: Forest, raw: nat, verbatim: bool, base: nat, r: Rules, e: Item)
    requires Seen(e.kind)
    ensures var calm := Calm(f, raw, verbatim, base, r);
      && (e in calm ==> e in Unbroken(f, raw))
      && (e in Unbroken(f, raw) ==> e in calm || RuledOff(e, calm, base, r))
  {
    if f.Node? {
      hide Blank, Empty, Calm, RuledOff, Seen;
      var run := if Is(f.kind, Br) then raw + 1 else if f.kind.Text? && Blank(f.kind.data) then raw else 0;
      CalmKeepsSeen(f.kids, 0, verbatim || Is(f.kind, Pre) || Is(f.kind, Code), base, r, e);
      CalmKeepsSeen(f.next, run, verbatim, base, r, e);
      if Empty(f.kind, f.kids) && !(Is(f.kind, Br) && raw >= 2) { NothingSeenIn(f.kind, f.kids, e); }
      CalmHas(f, raw, verbatim, base, r, e);
    }
  }

  lemma NewTextIsBlank()
    ensures Blank("")
  {
  }

  lemma NothingSeenIn(k: Kind, kids: Forest, e: Item)
    requires Empty(k, kids) && Seen(e.kind)
    ensures e !in Unbroken(kids, 0) && e.kind != k
  {
    if e in Unbroken(kids, 0) { UnbrokenIsIn(kids, 0, e); }
  }

  lemma {:induction false} DroppedUnique(f: Forest, q: (Kind, Forest) -> bool)
    requires Unique(f)
    ensures Unique(Dropped(f, q))
  {
    if f.Node? { DroppedUnique(f.kids, q); DroppedUnique(f.next, q); }
  }

  lemma {:induction false} FlatUnique(f: Forest, pres: string -> bool)
    requires Unique(f)
    ensures Unique(Flat(f, pres))
  {
    if f.Node? {
      FlatUnique(f.kids, pres);
      FlatUnique(f.next, pres);
      CellsUnique(Flat(f.kids, pres));
      UniqueAppend(Cells(Flat(f.kids, pres)), Flat(f.next, pres));
    }
  }

  lemma PrunedUnique(f: Forest, w: Words)
    requires Unique(f)
    ensures Unique(Pruned(f, w))
  {
    hide RootAt, Prunes, Blocks, DroppedIds;
    var root := RootAt(f, 10);
    WithoutUnique(f, Elems(DroppedIds(Blocks(root), |Blocks(root)|, w)));
  }

  /** The tree in front of the text passes. */
  function Pared(f: Forest, o: Options, r: Rules): Forest {
    var flat := Flat(Cleaned(f, o.minImgPx, r), r.presentation);
    if o.extract then Pruned(flat, r.words) else flat
  }

  /** The tree in front of collapseNoise. */
  function Worded(f: Forest, o: Options, r: Rules): Forest {
    Retexted(Retexted(Pared(f, o, r), r.decode), r.strip)
  }

  lemma ParedUnique(f: Forest, o: Options, r: Rules)
    requires Unique(f)
    ensures Unique(Cleaned(f, o.minImgPx, r)) && Unique(Flat(Cleaned(f, o.minImgPx, r), r.presentation))
    ensures Unique(Pared(f, o, r))
  {
    hide Unique, Flat, Pruned, Dropped, Cleaned, Goes;
    CleanedIsOnePass(f, o.minImgPx, r);
    DroppedUnique(f, GoesQ(o.minImgPx, r));
    FlatUnique(Cleaned(f, o.minImgPx, r), r.presentation);
    PrunedUnique(Flat(Cleaned(f, o.minImgPx, r), r.presentation), r.words);
  }

  lemma {:induction false} SurvivorsAreIn(f: Forest, waiting: nat, pres: string -> bool, e: Item)
    requires e in Survivors(f, waiting, pres)
    ensures e in Items(f)
  {
    hide Dissolves;
    var down := Down(Dissolves(f.kind, f.kids, pres), f.kind, waiting);
    if e in Survivors(f.kids, down, pres) {
      SurvivorsAreIn(f.kids, down, pres, e);
    } else if e in Survivors(f.next, waiting, pres) {
      SurvivorsAreIn(f.next, waiting, pres, e);
    }
  }

  lemma {:induction false} PicturesKeepWords(f: Forest, verbatim: bool, m: string -> string, e: Item)
    requires !e.kind.Text?
    ensures e in Reworded(f, verbatim, m) <==> e in Items(f)
  {
    if f.Node? {
      PicturesKeepWords(f.kids, verbatim || Is(f.kind, Pre) || Is(f.kind, Code), m, e);
      PicturesKeepWords(f.next, verbatim, m, e);
    }
  }

  lemma NoHeadingIsKept(f: Forest, s: set<nat>, e: Item)
    requires Ids(f) <= s && (e.kind.Elem? ==> Level(e.kind.tag) == 0)
    ensures e in Items(Rekind(f, s, Demote)) <==> e in Items(f)
  {
    hide Level, Demote, Rekind;
    HeadingsAreLowered(f, s);
    LowestLevel();
    var a, b := Items(f), Items(Rekind(f, s, Demote));
    if e in a {
      var n :| 0 <= n < |a| && a[n] == e;
      assert b[n] == e;
    }
    if e in b {
      var n :| 0 <= n < |b| && b[n] == e;
      assert a[n] == e;
    }
  }

  lemma LowestLevel()
    ensures Level(Img) == 0 && Level(Hr) == 0
  {
  }

  /** The end of the pipeline, from the worded tree on. */
  lemma EndKeepsSeen(f: Forest, base: nat, o: Options, r: Rules, e: Item)
    requires Unique(f) && Seen(e.kind)
    ensures var end := Items(Pipeline(f, base, o, r)); var before := Unbroken(Worded(f, o, r), 0);
      && (e in end ==> e in before)
      && (e in before ==> e in end || RuledOff(e, end, base, r))
  {
    hide Blank, Calm, Unbroken, Collapsed, Retexted, Flat, Cleaned, Pruned, Rekind, Items, Unique, Level, Demote;
    ParedUnique(f, o, r);
    RewordingKeepsExactly(Pared(f, o, r), r.decode, r.strip);
    var g := Worded(f, o, r);
    CollapseKeepsExactly(g, base, r);
    CalmKeepsSeen(g, 0, false, base, r, e);
    var c := Collapsed(g, base, r);
    LowestLevel();
    NoHeadingIsKept(c, Ids(c), e);
    if e.kind.Text? { NoHeadingIsKept(c, Ids(c), Item(base + e.id, Elem(Hr, []))); }
  }

  /** An image of the mail is in the final tree if and only if it is rendered, survives flattening
      and pruning, and is not below a surplus break. */
  lemma PictureReachesEnd(f: Forest, base: nat, o: Options, r: Rules, e: Item)
    requires Unique(f) && Is(e.kind, Img)
    ensures var clean := Cleaned(f, o.minImgPx, r); var flat := Flat(clean, r.presentation);
      e in Items(Pipeline(f, base, o, r)) <==>
        && e in Rendered(f, o.minImgPx, r)
        && e in Survivors(clean, 0, r.presentation)
        && (o.extract ==> e in Items(Pruned(flat, r.words)))
        && e in Unbroken(Worded(f, o, r), 0)
  {
    hide Unbroken, Rendered, Survivors, Retexted, Flat, Cleaned, Pruned, Pipeline, Items, Unique;
    EndKeepsSeen(f, base, o, r, e);
    if e in Unbroken(Worded(f, o, r), 0) {
      UnbrokenIsIn(Worded(f, o, r), 0, e);
      PictureComesFrom(f, o, r, e);
    }
  }

  lemma PictureComesFrom(f: Forest, o: Options, r: Rules, e: Item)
    requires Unique(f) && Is(e.kind, Img) && e in Items(Worded(f, o, r))
    ensures var clean := Cleaned(f, o.minImgPx, r);
      e in Rendered(f, o.minImgPx, r) && e in Survivors(clean, 0, r.presentation) && e in Items(Pared(f, o, r))
  {
    hide Rendered, Survivors, Retexted, Flat, Cleaned, Pruned, Items, Unique, Reworded;
    var clean := Cleaned(f, o.minImgPx, r);
    var flat := Flat(clean, r.presentation);
    ParedUnique(f, o, r);
    RewordingKeepsExactly(Pared(f, o, r), r.decode, r.strip);
    PicturesKeepWords(Pared(f, o, r), false, (d: string) => r.strip(r.decode(d)), e);
    if o.extract && Pruned(flat, r.words) != flat { Pruning.PrunedKeepsExactly(flat, r.words, e); }
    FlatKeepsExactly(clean, r.presentation);
    SurvivorsAreIn(clean, 0, r.presentation, e);
    CleanedKeepsExactly(f, o.minImgPx, r);
  }

  /** Every visible text that is there after decoding and stripping, and not below a surplus break,
      is in the final tree, or a rule stands where it was a separator. */
  lemma TextReachesEnd(f: Forest, base: nat, o: Options, r: Rules, e: Item)
    requires Unique(f) && e.kind.Text? && !Blank(e.kind.data)
    requires e in Unbroken(Worded(f, o, r), 0)
    ensures e in Items(Pipeline(f, base, o, r)) || RuledOff(e, Items(Pipeline(f, base, o, r)), base, r)
    ensures e in Reworded(Pared(f, o, r), false, (d: string) => r.strip(r.decode(d)))
  {
    hide Unbroken, Retexted, Pared, Pipeline, Items, Unique, Blank, Reworded;
    EndKeepsSeen(f, base, o, r, e);
    UnbrokenIsIn(Worded(f, o, r), 0, e);
    ParedUnique(f, o, r);
    RewordingKeepsExactly(Pared(f, o, r), r.decode, r.strip);
  }
}
