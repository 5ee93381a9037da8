/** The reader-mode pipeline (toReaderModeHTML in pkg/email/readermode.go): every pass edits
    the document in place, and what a pass establishes survives all later passes. */
module ReaderMode {
  import opened Common
  import opened Dom
  import opened Tables
  import opened Extract

  /** Regular expressions and string tests on attribute values and text, left abstract. */
  datatype Rules = Rules(
    hidden: string -> bool,                // hiddenStyleRe
    fontHidden: string -> bool,            // fontSizeHiddenRe
    presentation: string -> bool,
    mxc: string -> bool,                   // the trimmed source starts with mxc://
    displayNone: string -> bool,
    pixels: string -> int,                 // parsePixels
    dimension: (string, Key) -> int,       // styleDimension
    separator: string -> bool,             // nothing is left without runs of five or more _ - =
    decode: string -> string,
    strip: string -> string,
    words: Words)

  datatype Options = Options(minImgPx: int, extract: bool)

  datatype Lookup = Missing | Found(val: string)

  /** The first attribute with this key. */
  function First(attrs: seq<Attr>, key: Key): Lookup {
    if attrs == [] then Missing
    else if attrs[0].key == key then Found(attrs[0].val)
    else First(attrs[1..], key)
  }

  /** The last one, which is what a loop that keeps assigning ends up with. */
  function Last(attrs: seq<Attr>, key: Key): Lookup {
    if attrs == [] then Missing
    else if attrs[|attrs| - 1].key == key then Found(attrs[|attrs| - 1].val)
    else Last(attrs[..|attrs| - 1], key)
  }

  // ---------- which nodes each drop pass selects ----------

  predicate StyleHides(k: Kind, r: Rules) {
    k.Elem? && First(k.attrs, Style).Found? && r.hidden(First(k.attrs, Style).val)
  }

  predicate FontHides(k: Kind, r: Rules) {
    k.Elem? && First(k.attrs, Style).Found? && r.fontHidden(First(k.attrs, Style).val)
  }

  function Dim(attrs: seq<Attr>, key: Key, r: Rules): int {
    var style := match Last(attrs, Style) case Missing => "" case Found(v) => v;
    if r.dimension(style, key) >= 0 then r.dimension(style, key)
    else match Last(attrs, key) case Missing => -1 case Found(v) => r.pixels(v)
  }

  predicate Tracking(attrs: seq<Attr>, minPx: int, r: Rules) {
    || r.displayNone(match Last(attrs, Style) case Missing => "" case Found(v) => v)
    || 0 <= Dim(attrs, Width, r) <= minPx
    || 0 <= Dim(attrs, Height, r) <= minPx
  }

  method IsTrackingImage(attrs: seq<Attr>, minPx: int, r: Rules) returns (b: bool)
    ensures b == Tracking(attrs, minPx, r)
  {
    var w, h := -1, -1;
    var style := "";
    for i := 0 to |attrs|
      invariant w == match Last(attrs[..i], Width) case Missing => -1 case Found(v) => r.pixels(v)
      invariant h == match Last(attrs[..i], Height) case Missing => -1 case Found(v) => r.pixels(v)
      invariant style == match Last(attrs[..i], Style) case Missing => "" case Found(v) => v
    {
      assert attrs[..i + 1][..i] == attrs[..i];
      match attrs[i].key
      case Width => w := r.pixels(attrs[i].val);
      case Height => h := r.pixels(attrs[i].val);
      case Style => style := attrs[i].val;
      case _ =>
    }
    assert attrs[..|attrs|] == attrs;
    if r.displayNone(style) { return true; }
    var sw, sh := r.dimension(style, Width), r.dimension(style, Height);
    if sw >= 0 { w := sw; }
    if sh >= 0 { h := sh; }
    if w >= 0 && w <= minPx { return true; }
    if h >= 0 && h <= minPx { return true; }
    return false;
  }

  predicate Resolvable(attrs: seq<Attr>, r: Rules) {
    r.mxc(match First(attrs, Src) case Missing => "" case Found(v) => v)
  }

  function NonRenderedQ(): (Kind, Forest) -> bool { (k, kids) => Is(k, NonRendered) }

  function HiddenQ(r: Rules): (Kind, Forest) -> bool {
    (k, kids) => StyleHides(k, r) || (FontHides(k, r) && !HasElem(kids))
  }

  function TrackingQ(minPx: int, r: Rules): (Kind, Forest) -> bool {
    (k, kids) => Is(k, Img) && Tracking(k.attrs, minPx, r)
  }

  function UnresolvableQ(r: Rules): (Kind, Forest) -> bool {
    (k, kids) => Is(k, Img) && !Resolvable(k.attrs, r)
  }

  function EmptyAnchorQ(): (Kind, Forest) -> bool {
    (k, kids) => Is(k, A) && Blank(TextOf(kids)) && !Has(kids, Img)
  }

  predicate EmptyBlock(k: Kind, kids: Forest) {
    && (Is(k, P) || Is(k, Div))
    && Blank(TextOf(kids)) && !Has(kids, Img) && !Has(kids, A) && !Has(kids, Hr) && !Has(kids, Br)
  }

  function EmptyBlockQ(): (Kind, Forest) -> bool { (k, kids) => EmptyBlock(k, kids) }

  // ---------- the drop passes ----------

  method DropNonRenderedElements(doc: Document)
    requires doc.Valid()
    modifies doc`top
    ensures doc.Valid() && doc.top == Dropped(old(doc.top), NonRenderedQ())
  {
    var toRemove := SelectedTop(doc.top, NonRenderedQ());
    WithoutSelectedTop(doc.top, NonRenderedQ(), Elems(toRemove));
    doc.RemoveAll(toRemove);
  }

  /** The shape of the other drop passes: a walk in document order, then the removals. */
  method DropWalked(doc: Document, q: (Kind, Forest) -> bool)
    requires doc.Valid()
    modifies doc`top
    ensures doc.Valid() && doc.top == Dropped(old(doc.top), q)
  {
    var toRemove := Selected(doc.top, q);
    WithoutSelected(doc.top, q, Elems(toRemove));
    doc.RemoveAll(toRemove);
  }

  /** The same with children collected before their parents. */
  method DropWalkedPost(doc: Document, q: (Kind, Forest) -> bool)
    requires doc.Valid()
    modifies doc`top
    ensures doc.Valid() && doc.top == Dropped(old(doc.top), q)
  {
    var toRemove := SelectedPost(doc.top, q);
    WithoutSelected(doc.top, q, Elems(toRemove));
    doc.RemoveAll(toRemove);
  }

  method DropUnresolvableImages(doc: Document, r: Rules)
    requires doc.Valid()
    modifies doc`top
    ensures doc.Valid() && doc.top == Dropped(Dropped(old(doc.top), UnresolvableQ(r)), EmptyAnchorQ())
  {
    DropWalked(doc, UnresolvableQ(r));
    DropWalkedPost(doc, EmptyAnchorQ());
  }

  // ---------- passes over text and headings ----------

  predicate Verbatim(k: Kind) { Is(k, Pre) || Is(k, Code) }

  /** Text nodes outside pre and code that satisfy `t`, in document order. */
  function TextNodes(f: Forest, inPre: bool, t: string -> bool): (s: seq<nat>)
    ensures forall x :: x in s ==> x in Ids(f)
  {
    match f
    case Nil => []
    case Node(i, k, kids, next) =>
      (if k.Text? && !inPre && t(k.data) then [i] else [])
      + TextNodes(kids, inPre || Verbatim(k), t) + TextNodes(next, inPre, t)
  }

  function Retext(m: string -> string): Kind -> Kind {
    (k: Kind) => if k.Text? then Text(m(k.data)) else k
  }

  function Demote(k: Kind): Kind {
    if !k.Elem? then k
    else match k.tag
      case H1 => Elem(H3, k.attrs)
      case H2 => Elem(H4, k.attrs)
      case H3 => Elem(H5, k.attrs)
      case H4 => Elem(H6, k.attrs)
      case H5 => Elem(H6, k.attrs)
      case _ => k
  }

  /** Change the kind of the listed nodes one after the other. */
  method RekindEach(doc: Document, ids: seq<nat>, m: Kind -> Kind)
    requires doc.Valid() && Distinct(ids)
    modifies doc`top
    ensures doc.Valid() && doc.top == Rekind(old(doc.top), Elems(ids), m)
  {
    RekindNone(doc.top, m);
    assert Elems(ids[..0]) == {};
    for n := 0 to |ids|
      invariant doc.Valid() && doc.top == Rekind(old(doc.top), Elems(ids[..n]), m)
    {
      RekindTwice(old(doc.top), Elems(ids[..n]), ids[n], m);
      RekindUnique(doc.top, {ids[n]}, m);
      doc.top := Rekind(doc.top, {ids[n]}, m);
      assert Elems(ids[..n + 1]) == Elems(ids[..n]) + {ids[n]};
    }
    assert ids[..|ids|] == ids;
  }

  lemma {:induction false} DocIdsDistinct(f: Forest)
    requires Unique(f)
    ensures Distinct(DocIds(f))
  {
    if f.Node? {
      DocIdsDistinct(f.kids);
      DocIdsDistinct(f.next);
      hide Distinct;
      assert Distinct([f.id]) by { OneIsDistinct(f.id); }
      DistinctConcat([f.id], DocIds(f.kids));
      DistinctConcat([f.id] + DocIds(f.kids), DocIds(f.next));
    }
  }

  lemma OneIsDistinct(x: nat)
    ensures Distinct([x])
  {
  }

  lemma {:induction false} TextNodesDistinct(f: Forest, inPre: bool, t: string -> bool)
    requires Unique(f)
    ensures Distinct(TextNodes(f, inPre, t))
  {
    if f.Node? {
      TextNodesDistinct(f.kids, inPre || Verbatim(f.kind), t);
      TextNodesDistinct(f.next, inPre, t);
      var own := if f.kind.Text? && !inPre && t(f.kind.data) then [f.id] else [];
      var a, b := TextNodes(f.kids, inPre || Verbatim(f.kind), t), TextNodes(f.next, inPre, t);
      assert Distinct(own);
      hide Distinct;
      assert TextNodes(f, inPre, t) == own + a + b;
      DistinctConcat(own, a);
      DistinctConcat(own + a, b);
    }
  }

  function AnyText(): string -> bool { (s: string) => true }

  function Retexted(f: Forest, m: string -> string): (r: Forest)
    ensures Ids(r) == Ids(f)
  {
    Rekind(f, Elems(TextNodes(f, false, AnyText())), Retext(m))
  }

  method RewriteText(doc: Document, m: string -> string)
    requires doc.Valid()
    modifies doc`top
    ensures doc.Valid() && doc.top == Retexted(old(doc.top), m)
  {
    TextNodesDistinct(doc.top, false, AnyText());
    RekindEach(doc, TextNodes(doc.top, false, AnyText()), Retext(m));
  }

  method DemoteHeadings(doc: Document)
    requires doc.Valid()
    modifies doc`top
    ensures doc.Valid() && doc.top == Rekind(old(doc.top), Ids(old(doc.top)), Demote)
  {
    DocIdsDistinct(doc.top);
    assert Elems(DocIds(doc.top)) == Ids(doc.top);
    RekindEach(doc, DocIds(doc.top), Demote);
  }

  // ---------- collapseNoise ----------

  predicate BlankNode(k: Kind) { k.Text? && Blank(k.data) }

  function RunAfter(k: Kind, run: nat): nat {
    if Is(k, Br) then run + 1 else if BlankNode(k) then run else 0
  }

  /** The third and later `br` of an unbroken run; `run` counts those just before `f`. */
  function ExtraBrs(f: Forest, run: nat): (s: seq<nat>)
    ensures forall x :: x in s ==> x in Ids(f)
  {
    match f
    case Nil => []
    case Node(i, k, kids, next) =>
      (if Is(k, Br) && run + 1 > 2 then [i] else [])
      + ExtraBrs(kids, 0)
      + ExtraBrs(next, RunAfter(k, run))
  }

  const RULE: Kind := Elem(Hr, [])

  /** A rule node goes before each listed text node, and the text becomes empty. */
  function Ruled(f: Forest, s: set<nat>, base: nat): (r: Forest)
    ensures Ids(r) <= Ids(f) + (set x | x in Ids(f) :: base + x)
  {
    match f
    case Nil => Nil
    case Node(i, k, kids, next) =>
      if i in s then Node(base + i, RULE, Nil, Node(i, Text(""), Ruled(kids, s, base), Ruled(next, s, base)))
      else Node(i, k, Ruled(kids, s, base), Ruled(next, s, base))
  }

  /** The edit at text node `x`: a rule inserted before it, and its text emptied. */
  function RuleAt(g: Forest, x: nat, base: nat): Forest {
    var n := Find(g, x);
    if n.Node? then Subst(g, x, Node(base + x, RULE, Nil, Node(x, Text(""), n.kids, Nil))) else g
  }

  method InsertRules(doc: Document, ids: seq<nat>)
    requires doc.Valid() && Distinct(ids)
    requires forall x :: x in ids ==> x in Ids(doc.top)
    modifies doc
    ensures doc.Valid() && doc.bound == 2 * old(doc.bound)
    ensures doc.top == Ruled(old(doc.top), Elems(ids), old(doc.bound))
  {
    hide Ruled, RuleAt, Unique;
    ghost var f := doc.top;
    var base := doc.bound;
    RuledNone(f, base);
    assert Elems(ids[..0]) == {};
    for n := 0 to |ids|
      invariant doc.top == Ruled(f, Elems(ids[..n]), base) && doc.bound == base
    {
      assert ids[n] in ids;
      RuledOneMore(f, Elems(ids[..n]), ids[n], base);
      doc.top := RuleAt(doc.top, ids[n], base);
      assert Elems(ids[..n + 1]) == Elems(ids[..n]) + {ids[n]};
    }
    assert ids[..|ids|] == ids;
    RuledUnique(f, Elems(ids), base);
    doc.bound := 2 * base;
  }

  lemma {:induction false} RuledNone(f: Forest, base: nat)
    ensures Ruled(f, {}, base) == f
  {
    if f.Node? { RuledNone(f.kids, base); RuledNone(f.next, base); }
  }

  lemma {:induction false} RuledSame(f: Forest, s: set<nat>, t: set<nat>, base: nat)
    requires t !! Ids(f)
    ensures Ruled(f, s + t, base) == Ruled(f, s, base)
  {
    if f.Node? { RuledSame(f.kids, s, t, base); RuledSame(f.next, s, t, base); }
  }

  lemma BelowParts(f: Forest, b: nat)
    requires f.Node? && Below(f, b)
    ensures f.id < b && Below(f.kids, b) && Below(f.next, b)
  {
    assert f.id in Ids(f);
    forall x | x in Ids(f.kids) + Ids(f.next) ensures x < b { assert x in Ids(f); }
  }

  lemma RuleHere(x: nat, k: Kind, ks: Forest, fs: Forest, base: nat)
    requires x !in Ids(fs)
    ensures RuleAt(Node(x, k, ks, fs), x, base) == Node(base + x, RULE, Nil, Node(x, Text(""), ks, fs))
  {
    var emptied := Node(x, Text(""), ks, Nil);
    AppendOne(x, Text(""), ks, fs);
    assert Append(Node(base + x, RULE, Nil, emptied), fs) == Node(base + x, RULE, Nil, Append(emptied, fs));
  }

  /** A listed node and its rule, or the node alone. */
  function Slot(i: nat, listed: bool, k: Kind, ks: Forest, fs: Forest, base: nat): Forest {
    if listed then Node(base + i, RULE, Nil, Node(i, Text(""), ks, fs)) else Node(i, k, ks, fs)
  }

  lemma RuleUnder(i: nat, k: Kind, ks: Forest, fs: Forest, x: nat, base: nat)
    requires i != x && x in Ids(ks) && x !in Ids(fs)
    ensures RuleAt(Node(i, k, ks, fs), x, base) == Node(i, k, RuleAt(ks, x, base), fs)
  {
  }

  lemma RuleBeside(i: nat, k: Kind, ks: Forest, fs: Forest, x: nat, base: nat)
    requires i != x && x !in Ids(ks) && x in Ids(fs)
    ensures RuleAt(Node(i, k, ks, fs), x, base) == Node(i, k, ks, RuleAt(fs, x, base))
  {
  }

  lemma RuleInside(i: nat, listed: bool, k: Kind, ks: Forest, fs: Forest, x: nat, base: nat)
    requires i != x && x < base && x in Ids(ks) && x !in Ids(fs)
    ensures RuleAt(Slot(i, listed, k, ks, fs, base), x, base) == Slot(i, listed, k, RuleAt(ks, x, base), fs, base)
  {
    hide RuleAt;
    if listed { RuleBeside(base + i, RULE, Nil, Node(i, Text(""), ks, fs), x, base); }
    RuleUnder(i, if listed then Text("") else k, ks, fs, x, base);
  }

  lemma RuleLater(i: nat, listed: bool, k: Kind, ks: Forest, fs: Forest, x: nat, base: nat)
    requires i != x && x < base && x !in Ids(ks) && x in Ids(fs)
    ensures RuleAt(Slot(i, listed, k, ks, fs, base), x, base) == Slot(i, listed, k, ks, RuleAt(fs, x, base), base)
  {
    hide RuleAt;
    if listed { RuleBeside(base + i, RULE, Nil, Node(i, Text(""), ks, fs), x, base); }
    RuleBeside(i, if listed then Text("") else k, ks, fs, x, base);
  }

  lemma RuledSlot(f: Forest, s: set<nat>, base: nat)
    requires f.Node?
    ensures Ruled(f, s, base) == Slot(f.id, f.id in s, f.kind, Ruled(f.kids, s, base), Ruled(f.next, s, base), base)
    ensures Ids(Ruled(f.kids, s, base)) + Ids(Ruled(f.next, s, base)) + {f.id} <= Ids(Ruled(f, s, base))
  {
  }

  /** One insertion, done where the node now is. */
  lemma {:induction false} RuledOneMore(f: Forest, s: set<nat>, x: nat, base: nat)
    requires Unique(f) && x in Ids(f) && x !in s && x < base && Below(f, base)
    ensures x in Ids(Ruled(f, s, base))
    ensures RuleAt(Ruled(f, s, base), x, base) == Ruled(f, s + {x}, base)
  {
    hide Below, RuleAt, Ruled;
    BelowParts(f, base);
    RuledSlot(f, s, base);
    RuledSlot(f, s + {x}, base);
    var ks, fs := Ruled(f.kids, s, base), Ruled(f.next, s, base);
    NotRuled(f.kids, s, x, base);
    NotRuled(f.next, s, x, base);
    if f.id == x {
      RuledSame(f.kids, s, {x}, base);
      RuledSame(f.next, s, {x}, base);
      RuleHere(x, f.kind, ks, fs, base);
    } else if x in Ids(f.kids) {
      RuledOneMore(f.kids, s, x, base);
      RuledSame(f.next, s, {x}, base);
      RuleInside(f.id, f.id in s, f.kind, ks, fs, x, base);
    } else {
      RuledOneMore(f.next, s, x, base);
      RuledSame(f.kids, s, {x}, base);
      RuleLater(f.id, f.id in s, f.kind, ks, fs, x, base);
    }
  }

  lemma NotRuled(f: Forest, s: set<nat>, x: nat, base: nat)
    requires x < base
    ensures x !in Ids(f) ==> x !in Ids(Ruled(f, s, base))
  {
  }

  lemma RuledBelow(f: Forest, s: set<nat>, base: nat)
    requires Below(f, base)
    ensures Below(Ruled(f, s, base), 2 * base)
  {
  }

  /** The new rules take numbers that no node has. */
  lemma RulesAreNew(f: Forest, g: Forest, s: set<nat>, base: nat)
    requires Below(f, base) && Below(g, base) && Ids(f) !! Ids(g)
    ensures Ids(Ruled(f, s, base)) !! Ids(Ruled(g, s, base))
  {
  }

  lemma RuleIsNew(f: Forest, s: set<nat>, x: nat, base: nat)
    requires Below(f, base) && x !in Ids(f) && x < base
    ensures x !in Ids(Ruled(f, s, base)) && base + x !in Ids(Ruled(f, s, base))
  {
  }

  lemma SlotUnique(i: nat, listed: bool, k: Kind, ks: Forest, fs: Forest, base: nat)
    requires Unique(ks) && Unique(fs) && Ids(ks) !! Ids(fs) && base > 0
    requires i !in Ids(ks) && i !in Ids(fs) && base + i !in Ids(ks) && base + i !in Ids(fs)
    ensures Unique(Slot(i, listed, k, ks, fs, base))
  {
  }

  lemma {:induction false} RuledUnique(f: Forest, s: set<nat>, base: nat)
    requires Unique(f) && Below(f, base)
    ensures Unique(Ruled(f, s, base)) && Below(Ruled(f, s, base), 2 * base)
  {
    RuledBelow(f, s, base);
    if f.Node? {
      BelowParts(f, base);
      RuledSlot(f, s, base);
      RuledUnique(f.kids, s, base);
      RuledUnique(f.next, s, base);
      hide Ruled, Below, Slot;
      RulesAreNew(f.kids, f.next, s, base);
      RuleIsNew(f.kids, s, f.id, base);
      RuleIsNew(f.next, s, f.id, base);
      SlotUnique(f.id, f.id in s, f.kind, Ruled(f.kids, s, base), Ruled(f.next, s, base), base);
    }
  }

  function SeparatorText(r: Rules): string -> bool { (s: string) => !Blank(s) && r.separator(s) }

  function Separators(f: Forest, r: Rules): (s: seq<nat>)
    ensures forall x :: x in s ==> x in Ids(f)
  {
    TextNodes(f, false, SeparatorText(r))
  }

  function Collapsed(f: Forest, base: nat, r: Rules): (g: Forest) {
    var f1 := Without(f, Elems(ExtraBrs(f, 0)));
    var f2 := Ruled(f1, Elems(Separators(f1, r)), base);
    Dropped(f2, EmptyBlockQ())
  }

  method CollapseNoise(doc: Document, r: Rules)
    requires doc.Valid()
    modifies doc
    ensures doc.Valid() && doc.top == Collapsed(old(doc.top), old(doc.bound), r)
  {
    var brRemove := ExtraBrs(doc.top, 0);
    doc.RemoveAll(brRemove);
    TextNodesDistinct(doc.top, false, SeparatorText(r));
    InsertRules(doc, Separators(doc.top, r));
    DropWalkedPost(doc, EmptyBlockQ());
  }

  // ---------- the pipeline ----------

  function Cleaned(f: Forest, minPx: int, r: Rules): Forest {
    var f1 := Dropped(f, NonRenderedQ());
    var f2 := Dropped(f1, HiddenQ(r));
    var f3 := Dropped(f2, TrackingQ(minPx, r));
    Dropped(Dropped(f3, UnresolvableQ(r)), EmptyAnchorQ())
  }

  function Pipeline(f: Forest, base: nat, o: Options, r: Rules): Forest {
    var f1 := Flat(Cleaned(f, o.minImgPx, r), r.presentation);
    var f2 := if o.extract then Pruned(f1, r.words) else f1;
    var f3 := Collapsed(Retexted(Retexted(f2, r.decode), r.strip), base, r);
    Rekind(f3, Ids(f3), Demote)
  }

  method ToReaderMode(doc: Document, o: Options, r: Rules)
    requires doc.Valid()
    modifies doc
    ensures doc.Valid() && doc.top == Pipeline(old(doc.top), old(doc.bound), o, r)
  {
    hide Dropped, Flat, Pruned, Retexted, Collapsed, Rekind;
    DropNonRenderedElements(doc);
    DropWalked(doc, HiddenQ(r));
    DropWalked(doc, TrackingQ(o.minImgPx, r));
    DropUnresolvableImages(doc, r);
    UnwrapLayoutTables(doc, r.presentation);
    if o.extract { PruneBulkContent(doc, r.words); }
    RewriteText(doc, r.decode);
    RewriteText(doc, r.strip);
    CollapseNoise(doc, r);
    DemoteHeadings(doc);
  }

  // ---------- what survives to the end ----------

  /** What the early passes promise about single nodes. */
  predicate Clean(k: Kind, minPx: int, r: Rules) {
    && !Is(k, NonRendered)
    && !StyleHides(k, r)
    && (Is(k, Img) ==> Resolvable(k.attrs, r) && !Tracking(k.attrs, minPx, r))
  }

  function CleanP(minPx: int, r: Rules): Kind -> bool { (k: Kind) => Clean(k, minPx, r) }

  lemma CleanedIsClean(f: Forest, minPx: int, r: Rules)
    ensures All(Cleaned(f, minPx, r), CleanP(minPx, r))
  {
    var p1 := (k: Kind) => !Is(k, NonRendered);
    var p2 := (k: Kind) => !StyleHides(k, r);
    var p3 := (k: Kind) => Is(k, Img) ==> !Tracking(k.attrs, minPx, r);
    var p4 := (k: Kind) => Is(k, Img) ==> Resolvable(k.attrs, r);
    var f1 := Dropped(f, NonRenderedQ());
    var f2 := Dropped(f1, HiddenQ(r));
    var f3 := Dropped(f2, TrackingQ(minPx, r));
    var f4 := Dropped(f3, UnresolvableQ(r));
    var f5 := Dropped(f4, EmptyAnchorQ());
    DroppedMeans(f, NonRenderedQ(), p1);
    DroppedMeans(f1, HiddenQ(r), p2);
    DroppedMeans(f2, TrackingQ(minPx, r), p3);
    DroppedMeans(f3, UnresolvableQ(r), p4);
    AllDropped(f1, HiddenQ(r), p1);
    AllDropped(f2, TrackingQ(minPx, r), p1);
    AllDropped(f2, TrackingQ(minPx, r), p2);
    AllDropped(f3, UnresolvableQ(r), p1);
    AllDropped(f3, UnresolvableQ(r), p2);
    AllDropped(f3, UnresolvableQ(r), p3);
    AllDropped(f4, EmptyAnchorQ(), p1);
    AllDropped(f4, EmptyAnchorQ(), p2);
    AllDropped(f4, EmptyAnchorQ(), p3);
    AllDropped(f4, EmptyAnchorQ(), p4);
    AllFour(f5, p1, p2, p3, p4, CleanP(minPx, r));
  }

  lemma {:induction false} AllFour(f: Forest, p1: Kind -> bool, p2: Kind -> bool,
                                      p3: Kind -> bool, p4: Kind -> bool, p: Kind -> bool)
    requires All(f, p1) && All(f, p2) && All(f, p3) && All(f, p4)
    requires forall k :: p1(k) && p2(k) && p3(k) && p4(k) ==> p(k)
    ensures All(f, p)
  {
    if f.Node? { AllFour(f.kids, p1, p2, p3, p4, p); AllFour(f.next, p1, p2, p3, p4, p); }
  }

  lemma {:induction false} AllCells(f: Forest, p: Kind -> bool)
    requires All(f, p)
    ensures All(Cells(f), p)
  {
    if f.Node? {
      AllCells(f.kids, p);
      AllCells(f.next, p);
      AllAppend(if IsCell(f.kind) then f.kids else Cells(f.kids), Cells(f.next), p);
    }
  }

  lemma {:induction false} AllFlat(f: Forest, pres: string -> bool, p: Kind -> bool)
    requires All(f, p)
    ensures All(Flat(f, pres), p)
  {
    if f.Node? {
      AllFlat(f.kids, pres, p);
      AllFlat(f.next, pres, p);
      AllCells(Flat(f.kids, pres), p);
      AllAppend(Cells(Flat(f.kids, pres)), Flat(f.next, pres), p);
    }
  }

  lemma {:induction false} AllRuled(f: Forest, s: set<nat>, base: nat, p: Kind -> bool)
    requires All(f, p) && p(RULE) && p(Text(""))
    ensures All(Ruled(f, s, base), p)
  {
    if f.Node? { AllRuled(f.kids, s, base, p); AllRuled(f.next, s, base, p); }
  }

  predicate NoEmptyBlocks(f: Forest) {
    match f
    case Nil => true
    case Node(_, k, kids, next) => !EmptyBlock(k, kids) && NoEmptyBlocks(kids) && NoEmptyBlocks(next)
  }

  predicate Visible(t: Tag) { t == Img || t == A || t == Hr || t == Br }

  lemma {:induction false} BlankText(i: nat, k: Kind, kids: Forest, next: Forest)
    ensures Blank(TextOf(Node(i, k, kids, next))) <==>
            (k.Text? ==> Blank(k.data)) && Blank(TextOf(kids)) && Blank(TextOf(next))
  {
    SolidText(i, k, kids, next);
  }

  /** Removing empty blocks never makes another block empty. */
  lemma {:induction false} EmptinessIsStable(f: Forest)
    ensures Blank(TextOf(Dropped(f, EmptyBlockQ()))) <==> Blank(TextOf(f))
    ensures forall t :: Visible(t) ==> (Has(Dropped(f, EmptyBlockQ()), t) <==> Has(f, t))
  {
    hide Blank, TextOf;
    if f.Node? {
      var ks, fs := Dropped(f.kids, EmptyBlockQ()), Dropped(f.next, EmptyBlockQ());
      EmptinessIsStable(f.kids);
      EmptinessIsStable(f.next);
      BlankText(f.id, f.kind, f.kids, f.next);
      BlankText(f.id, f.kind, ks, fs);
    }
  }

  lemma {:induction false} NoEmptyLeft(f: Forest)
    ensures NoEmptyBlocks(Dropped(f, EmptyBlockQ()))
  {
    if f.Node? {
      NoEmptyLeft(f.kids);
      NoEmptyLeft(f.next);
      EmptinessIsStable(f.kids);
    }
  }

  lemma {:induction false} DemotionKeepsText(f: Forest, s: set<nat>)
    ensures TextOf(Rekind(f, s, Demote)) == TextOf(f)
  {
    if f.Node? { DemotionKeepsText(f.kids, s); DemotionKeepsText(f.next, s); }
  }

  lemma {:induction false} DemotionKeepsVisible(f: Forest, s: set<nat>, t: Tag)
    requires Visible(t)
    ensures Has(Rekind(f, s, Demote), t) <==> Has(f, t)
  {
    if f.Node? { DemotionKeepsVisible(f.kids, s, t); DemotionKeepsVisible(f.next, s, t); }
  }

  lemma EmptyBlockDemoted(k: Kind, kids: Forest, s: set<nat>)
    ensures EmptyBlock(Demote(k), Rekind(kids, s, Demote)) <==> EmptyBlock(k, kids)
  {
    hide Has, TextOf, Blank, Rekind;
    DemotionKeepsText(kids, s);
    forall t | Visible(t) ensures Has(Rekind(kids, s, Demote), t) <==> Has(kids, t) {
      DemotionKeepsVisible(kids, s, t);
    }
  }

  lemma {:induction false} DemotionKeepsBlocks(f: Forest, s: set<nat>)
    requires Ids(f) <= s
    ensures NoEmptyBlocks(Rekind(f, s, Demote)) <==> NoEmptyBlocks(f)
  {
    if f.Node? {
      hide EmptyBlock, Demote;
      DemotionKeepsBlocks(f.kids, s);
      DemotionKeepsBlocks(f.next, s);
      EmptyBlockDemoted(f.kind, f.kids, s);
    }
  }

  lemma {:induction false} NoLoudHeadings(f: Forest, s: set<nat>)
    requires Ids(f) <= s
    ensures All(Rekind(f, s, Demote), k => !Is(k, H1) && !Is(k, H2))
  {
    if f.Node? { NoLoudHeadings(f.kids, s); NoLoudHeadings(f.next, s); }
  }

  /** The whole-pipeline guarantee, whatever the tree, the options and the regular expressions:
      the final tree has no non-rendered element, nothing hidden by its style, only mxc images
      that are neither tracking pixels nor spacers, no empty p or div, and no h1 or h2. */
  lemma PipelineGuarantee(f: Forest, base: nat, o: Options, r: Rules)
    ensures var g := Pipeline(f, base, o, r);
      && All(g, CleanP(o.minImgPx, r))
      && NoEmptyBlocks(g)
      && All(g, k => !Is(k, H1) && !Is(k, H2))
  {
    hide Cleaned, Flat, Pruned, Retexted, Collapsed, Rekind, All, NoEmptyBlocks, Clean;
    var p := CleanP(o.minImgPx, r);
    var f0 := Cleaned(f, o.minImgPx, r);
    CleanedIsClean(f, o.minImgPx, r);
    AllFlat(f0, r.presentation, p);
    var f1 := Flat(f0, r.presentation);
    var f2 := if o.extract then Pruned(f1, r.words) else f1;
    PrunedIsClean(f1, r, p);
    RetextedIsClean(f2, r.decode, o.minImgPx, r);
    var f3 := Retexted(f2, r.decode);
    RetextedIsClean(f3, r.strip, o.minImgPx, r);
    var f4 := Retexted(f3, r.strip);
    CleanRule(o.minImgPx, r);
    CollapsedIsClean(f4, base, r, p);
    DemotedIsClean(Collapsed(f4, base, r), o.minImgPx, r);
  }

  lemma CleanRule(minPx: int, r: Rules)
    ensures CleanP(minPx, r)(RULE) && CleanP(minPx, r)(Text(""))
  {
  }

  lemma RetextedIsClean(f: Forest, m: string -> string, minPx: int, r: Rules)
    requires All(f, CleanP(minPx, r))
    ensures All(Retexted(f, m), CleanP(minPx, r))
  {
    hide All, Rekind, Tracking, Resolvable;
    AllRekind(f, Elems(TextNodes(f, false, AnyText())), Retext(m), CleanP(minPx, r));
  }

  lemma CleanDemoted(k: Kind, minPx: int, r: Rules)
    requires Clean(k, minPx, r)
    ensures Clean(Demote(k), minPx, r)
  {
    hide Tracking, Resolvable;
  }

  lemma DemotedIsClean(f: Forest, minPx: int, r: Rules)
    requires All(f, CleanP(minPx, r)) && NoEmptyBlocks(f)
    ensures var g := Rekind(f, Ids(f), Demote);
      && All(g, CleanP(minPx, r))
      && NoEmptyBlocks(g)
      && All(g, k => !Is(k, H1) && !Is(k, H2))
  {
    hide All, Rekind, NoEmptyBlocks, Clean, Demote;
    forall k | CleanP(minPx, r)(k) ensures CleanP(minPx, r)(Demote(k)) { CleanDemoted(k, minPx, r); }
    AllRekind(f, Ids(f), Demote, CleanP(minPx, r));
    DemotionKeepsBlocks(f, Ids(f));
    NoLoudHeadings(f, Ids(f));
  }

  lemma PrunedIsClean(f: Forest, r: Rules, p: Kind -> bool)
    requires All(f, p)
    ensures All(Pruned(f, r.words), p)
  {
    hide Without, All, Prunes, RootAt;
    var root := RootAt(f, 10);
    AllWithout(f, Elems(DroppedIds(Blocks(root), |Blocks(root)|, r.words)), p);
  }

  lemma CollapsedIsClean(f: Forest, base: nat, r: Rules, p: Kind -> bool)
    requires All(f, p) && p(RULE) && p(Text(""))
    ensures All(Collapsed(f, base, r), p) && NoEmptyBlocks(Collapsed(f, base, r))
  {
    hide Without, All, Ruled, Dropped, NoEmptyBlocks;
    var f1 := Without(f, Elems(ExtraBrs(f, 0)));
    AllWithout(f, Elems(ExtraBrs(f, 0)), p);
    var s := Elems(Separators(f1, r));
    AllRuled(f1, s, base, p);
    AllDropped(Ruled(f1, s, base), EmptyBlockQ(), p);
    NoEmptyLeft(Ruled(f1, s, base));
  }

  // ---------- what the passes do not keep ----------

  /** Right after the br step no run of three is left ... */
  lemma {:induction false} NoLongRuns(f: Forest, run: nat, s: set<nat>)
    requires Unique(f)
    requires forall x :: x in Ids(f) ==> (x in s <==> x in ExtraBrs(f, run))
    ensures ExtraBrs(Without(f, s), if run > 2 then 2 else run) == []
  {
    if f.Node? {
      hide BlankNode;
      var a, b := ExtraBrs(f.kids, 0), ExtraBrs(f.next, RunAfter(f.kind, run));
      assert forall x :: x in ExtraBrs(f, run) <==> (Is(f.kind, Br) && run >= 2 && x == f.id) || x in a || x in b;
      NoLongRuns(f.kids, 0, s);
      NoLongRuns(f.next, RunAfter(f.kind, run), s);
    }
  }

  const BR: Kind := Elem(Br, [])

  // Two brs, an empty div, one more br; and the run that is left without the div.
  const LAST_BR: Forest := Node(4, BR, Nil, Nil)
  const SPLIT_TAIL: Forest := Node(3, Elem(Div, []), Nil, LAST_BR)
  const SPLIT_RUN: Forest := Node(1, BR, Nil, Node(2, BR, Nil, SPLIT_TAIL))
  const JOINED_RUN: Forest := Node(1, BR, Nil, Node(2, BR, Nil, LAST_BR))

  /** ... but removing empty blocks afterwards joins runs again. */
  lemma BrLimitIsNotKept(base: nat, r: Rules)
    ensures Collapsed(SPLIT_RUN, base, r) == JOINED_RUN
    ensures ExtraBrs(SPLIT_RUN, 0) == [] && ExtraBrs(JOINED_RUN, 0) == [4]
  {
    SplitHasNoExtra();
    JoinedHasExtra();
    SplitHasNoText(SeparatorText(r));
    SplitLosesDiv();
    hide ExtraBrs, TextNodes, Dropped, Without, Ruled;
    WithoutNone(SPLIT_RUN, {});
    RuledNone(SPLIT_RUN, base);
    assert Elems([]) == {};
  }

  /** The third and later `br` when empty blocks do not break a run. */
  function ExtraAcross(f: Forest, run: nat): (s: seq<nat>) {
    match f
    case Nil => []
    case Node(i, k, kids, next) =>
      if EmptyBlock(k, kids) then ExtraAcross(next, run)
      else (if Is(k, Br) && run >= 2 then [i] else []) + ExtraAcross(kids, 0) + ExtraAcross(next, RunAfter(k, run))
  }

  /** The limit is kept exactly when it already held with empty blocks not counted as breaks. */
  lemma {:induction false} BrLimitIsKeptIff(f: Forest, run: nat)
    ensures ExtraBrs(Dropped(f, EmptyBlockQ()), run) == ExtraAcross(f, run)
    ensures ExtraBrs(Dropped(f, EmptyBlockQ()), run) == [] <==> ExtraAcross(f, run) == []
  {
    if f.Node? {
      hide EmptyBlock, RunAfter;
      assert EmptyBlockQ()(f.kind, f.kids) == EmptyBlock(f.kind, f.kids);
      BrLimitIsKeptIff(f.kids, 0);
      BrLimitIsKeptIff(f.next, run);
      BrLimitIsKeptIff(f.next, RunAfter(f.kind, run));
    }
  }

  lemma SplitHasNoExtra()
    ensures ExtraBrs(SPLIT_RUN, 0) == []
  {
    assert ExtraBrs(LAST_BR, 0) == [];
    assert ExtraBrs(SPLIT_TAIL, 2) == [];
    assert ExtraBrs(SPLIT_RUN.next, 1) == [];
  }

  lemma JoinedHasExtra()
    ensures ExtraBrs(JOINED_RUN, 0) == [4]
  {
    assert ExtraBrs(LAST_BR, 2) == [4];
    assert ExtraBrs(JOINED_RUN.next, 1) == [4];
  }

  lemma SplitHasNoText(t: string -> bool)
    ensures TextNodes(SPLIT_RUN, false, t) == []
  {
    assert TextNodes(LAST_BR, false, t) == [];
    assert TextNodes(SPLIT_TAIL, false, t) == [];
    assert TextNodes(SPLIT_RUN.next, false, t) == [];
  }

  lemma SplitLosesDiv()
    ensures Dropped(SPLIT_RUN, EmptyBlockQ()) == JOINED_RUN
  {
    assert EmptyBlockQ()(SPLIT_TAIL.kind, Nil);
    assert Dropped(LAST_BR, EmptyBlockQ()) == LAST_BR;
    assert Dropped(SPLIT_TAIL, EmptyBlockQ()) == LAST_BR;
    assert Dropped(SPLIT_RUN.next, EmptyBlockQ()) == JOINED_RUN.next;
  }

  /** Some element among the siblings is not selected for removal itself. */
  predicate KeepsElem(f: Forest, r: Rules) {
    match f
    case Nil => false
    case Node(_, k, kids, next) => (k.Elem? && !HiddenQ(r)(k, kids)) || KeepsElem(next, r)
  }

  /** Every element that stays and whose style collapses its font has a child element that stays. */
  predicate NoLeafMade(f: Forest, r: Rules) {
    match f
    case Nil => true
    case Node(_, k, kids, next) =>
      && NoLeafMade(next, r)
      && (HiddenQ(r)(k, kids) || (NoLeafMade(kids, r) && (FontHides(k, r) ==> KeepsElem(kids, r))))
  }

  lemma {:induction false} KeepsElemMeans(f: Forest, r: Rules)
    ensures HasElem(Dropped(f, HiddenQ(r))) <==> KeepsElem(f, r)
  {
    if f.Node? { KeepsElemMeans(f.next, r); }
  }

  /** dropHiddenElements is stable exactly when it removed no last child element from a
      font-collapsed wrapper. */
  lemma {:induction false} HidingIsStableIff(f: Forest, r: Rules)
    ensures Dropped(Dropped(f, HiddenQ(r)), HiddenQ(r)) == Dropped(f, HiddenQ(r)) <==> NoLeafMade(f, r)
  {
    if f.Node? {
      HidingIsStableIff(f.kids, r);
      HidingIsStableIff(f.next, r);
      KeepsElemMeans(f.kids, r);
      DroppedShrinks(f.kids, HiddenQ(r));
      var g := Dropped(f.next, HiddenQ(r));
      if !HiddenQ(r)(f.kind, f.kids) && HiddenQ(r)(f.kind, Dropped(f.kids, HiddenQ(r))) {
        DroppedShrinks(g, HiddenQ(r));
        assert Size(Dropped(g, HiddenQ(r))) < Size(Dropped(f, HiddenQ(r)));
      }
    }
  }

  function Size(f: Forest): nat { match f case Nil => 0 case Node(_, _, kids, next) => 1 + Size(kids) + Size(next) }

  lemma {:induction false} DroppedShrinks(f: Forest, q: (Kind, Forest) -> bool)
    ensures Size(Dropped(f, q)) <= Size(f)
  {
    if f.Node? { DroppedShrinks(f.kids, q); DroppedShrinks(f.next, q); }
  }

  /** Such a wrapper exists as soon as one style hides and another collapses the font. */
  lemma HidingIsNotStable(r: Rules, hide1: string, font: string)
    requires r.hidden(hide1) && r.fontHidden(font) && !r.hidden(font)
    ensures exists f :: Dropped(Dropped(f, HiddenQ(r)), HiddenQ(r)) != Dropped(f, HiddenQ(r))
  {
    var inner := Node(1, Elem(P, [Attr(Style, hide1)]), Nil, Nil);
    var f := Node(0, Elem(Div, [Attr(Style, font)]), inner, Nil);
    assert First(inner.kind.attrs, Style) == Found(hide1);
    assert First(f.kind.attrs, Style) == Found(font);
    assert StyleHides(inner.kind, r) && !StyleHides(f.kind, r) && FontHides(f.kind, r);
    assert HiddenQ(r)(inner.kind, Nil) && !HiddenQ(r)(f.kind, inner) && HiddenQ(r)(f.kind, Nil);
    assert Dropped(inner, HiddenQ(r)) == Nil;
    assert Dropped(f, HiddenQ(r)) == Node(0, f.kind, Nil, Nil);
    assert Dropped(Node(0, f.kind, Nil, Nil), HiddenQ(r)) == Nil;
  }

  /** After the separator step no separator text is left outside pre and code. */
  lemma {:induction false} SeparatorsAreRules(f: Forest, inPre: bool, s: set<nat>, base: nat, t: string -> bool)
    requires Unique(f) && !t("")
    requires forall x :: x in Ids(f) ==> (x in s <==> x in TextNodes(f, inPre, t))
    ensures TextNodes(Ruled(f, s, base), inPre, t) == []
  {
    if f.Node? {
      var a, b := TextNodes(f.kids, inPre || Verbatim(f.kind), t), TextNodes(f.next, inPre, t);
      var own := f.kind.Text? && !inPre && t(f.kind.data);
      assert forall x :: x in TextNodes(f, inPre, t) <==> (own && x == f.id) || x in a || x in b;
      SeparatorsAreRules(f.kids, inPre || Verbatim(f.kind), s, base, t);
      SeparatorsAreRules(f.next, inPre, s, base, t);
      RuledTexts(f, inPre, s, base, t);
    }
  }

  lemma RuledTexts(f: Forest, inPre: bool, s: set<nat>, base: nat, t: string -> bool)
    requires f.Node? && !t("")
    requires f.id in s <==> f.kind.Text? && !inPre && t(f.kind.data)
    requires TextNodes(Ruled(f.kids, s, base), inPre || Verbatim(f.kind), t) == []
    requires TextNodes(Ruled(f.next, s, base), inPre, t) == []
    ensures TextNodes(Ruled(f, s, base), inPre, t) == []
  {
    if f.id in s {
      var emptied := Node(f.id, Text(""), Ruled(f.kids, s, base), Ruled(f.next, s, base));
      assert TextNodes(emptied, inPre, t) == [];
    }
  }
}
