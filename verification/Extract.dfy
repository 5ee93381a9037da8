/** Dropping boilerplate blocks of bulk mail (pkg/email/extract.go), with exact rationals for
    0.40, 0.95, 0.5, 0.8 and 0.7. */
module Extract {
  import opened Dom

  // ---------- trimmed lengths in bytes ----------

  function Utf8Width(c: char): (n: nat)
    ensures 1 <= n <= 4
  {
    if c as int < 0x80 then 1 else if c as int < 0x800 then 2 else if c as int < 0x10000 then 3 else 4
  }

  function ByteLen(s: string): (n: nat)
    ensures s != "" ==> n > 0
  {
    if s == "" then 0 else Utf8Width(s[0]) + ByteLen(s[1..])
  }

  function TrimL(s: string): (r: string)
    ensures |r| <= |s|
  {
    if s == "" || !IsSpace(s[0]) then s else TrimL(s[1..])
  }

  function TrimR(s: string): (r: string)
    ensures |r| <= |s|
  {
    if s == "" || !IsSpace(s[|s| - 1]) then s else TrimR(s[..|s| - 1])
  }

  /** strings.TrimSpace */
  function Trim(s: string): (r: string) { TrimR(TrimL(s)) }

  /** len(strings.TrimSpace(s)) */
  function TrimLen(s: string): nat { ByteLen(Trim(s)) }

  lemma {:induction false} ByteLenConcat(a: string, b: string)
    ensures ByteLen(a + b) == ByteLen(a) + ByteLen(b)
    decreases |a|
  {
    if a == "" { assert a + b == b; }
    else { assert (a + b)[1..] == a[1..] + b; ByteLenConcat(a[1..], b); }
  }

  lemma {:induction false} TrimLConcat(a: string, b: string)
    ensures TrimL(a + b) == if TrimL(a) == "" then TrimL(b) else TrimL(a) + b
    decreases |a|
  {
    if a == "" { assert a + b == b; }
    else { assert (a + b)[1..] == a[1..] + b; TrimLConcat(a[1..], b); }
  }

  lemma {:induction false} TrimRConcat(a: string, b: string)
    ensures TrimR(a + b) == if TrimR(b) == "" then TrimR(a) else a + TrimR(b)
    decreases |b|
  {
    if b == "" {
      assert a + b == a;
    } else {
      assert (a + b)[..|a + b| - 1] == a + b[..|b| - 1];
      TrimRConcat(a, b[..|b| - 1]);
    }
  }

  lemma EmptyTrims()
    ensures TrimL("") == "" && TrimR("") == "" && ByteLen("") == 0
  {
  }

  lemma OneSpace(c: char)
    requires IsSpace(c)
    ensures TrimL([c]) == "" && TrimR([c]) == ""
  {
    assert [c][1..] == "" && [c][..0] == "";
  }

  /** A string is its leading white space, then what `TrimL` leaves. */
  lemma {:induction false} TrimLSplit(s: string) returns (w: string)
    ensures s == w + TrimL(s) && TrimR(w) == "" && TrimL(w) == ""
    decreases |s|
  {
    hide TrimR, IsSpace;
    EmptyTrims();
    if s == "" || !IsSpace(s[0]) {
      w := "";
    } else {
      OneSpace(s[0]);
      var v := TrimLSplit(s[1..]);
      w := [s[0]] + v;
      TrimRConcat([s[0]], v);
      TrimLConcat([s[0]], v);
      assert s == [s[0]] + s[1..];
    }
  }

  lemma {:induction false} TrimRSplit(s: string) returns (w: string)
    ensures s == TrimR(s) + w && TrimR(w) == "" && TrimL(w) == ""
    decreases |s|
  {
    hide TrimL, IsSpace;
    EmptyTrims();
    if s == "" || !IsSpace(s[|s| - 1]) {
      w := "";
    } else {
      OneSpace(s[|s| - 1]);
      var v := TrimRSplit(s[..|s| - 1]);
      w := v + [s[|s| - 1]];
      TrimRConcat(v, [s[|s| - 1]]);
      TrimLConcat(v, [s[|s| - 1]]);
      assert s == s[..|s| - 1] + [s[|s| - 1]];
    }
  }

  /** Trimmed pieces are disjoint parts of the trimmed whole. */
  lemma TrimSuperadditive(a: string, b: string)
    ensures TrimLen(a + b) >= TrimLen(a) + TrimLen(b)
  {
    hide TrimL, TrimR, ByteLen;
    EmptyTrims();
    var u := TrimLSplit(a);
    var v := TrimLSplit(b);
    var x := TrimRSplit(TrimL(a));
    TrimLConcat(a, b);
    TrimRConcat(TrimL(a), b);
    TrimRConcat(v, TrimL(b));
    if TrimL(a) != "" {
      if TrimR(b) == "" {
        assert Trim(b) == "";
      } else {
        ByteLenConcat(TrimL(a), TrimR(b));
        ByteLenConcat(Trim(a), x);
        if TrimL(b) != "" && Trim(b) != "" { ByteLenConcat(v, Trim(b)); }
      }
    }
  }

  // ---------- link density ----------

  /** Trimmed bytes under the outermost anchors. */
  function Linked(f: Forest): nat {
    match f
    case Nil => 0
    case Node(_, k, kids, next) => (if Is(k, A) then TrimLen(TextOf(kids)) else Linked(kids)) + Linked(next)
  }

  /** Link density never exceeds one, for any tree. */
  lemma {:induction false} LinkedWithinText(f: Forest)
    ensures Linked(f) <= TrimLen(TextOf(f))
  {
    hide TrimLen;
    if f.Node? {
      var own := if f.kind.Text? then f.kind.data else "";
      LinkedWithinText(f.kids);
      LinkedWithinText(f.next);
      TrimSuperadditive(own, TextOf(f.kids));
      TrimSuperadditive(own + TextOf(f.kids), TextOf(f.next));
    } else {
      assert Linked(f) == 0;
    }
  }

  // ---------- the pruning root ----------

  predicate Descends(k: Kind) { Is(k, Div) || Is(k, Wrapper) }

  /** The only element among siblings, alone, or Nil when there is none or more than one. */
  function OnlyElem(f: Forest): (r: Forest)
    ensures r.Node? ==> r.next == Nil && r.kind.Elem? && Ids(r.kids) <= Ids(f) && r.kids < f
  {
    match f
    case Nil => Nil
    case Node(i, k, kids, next) =>
      if k.Elem? then (if HasElem(next) then Nil else Node(i, k, kids, Nil)) else OnlyElem(next)
  }

  predicate Carries(root: Forest, only: Forest) {
    && only.Node? && Descends(only.kind)
    && TrimLen(TextOf(root)) != 0
    && 100 * TrimLen(TextOf(only.kids)) >= 95 * TrimLen(TextOf(root))
  }

  /** The children of the pruning root, at most `depth` wrappers down. */
  function RootAt(f: Forest, depth: nat): (r: Forest)
    ensures Ids(r) <= Ids(f)
  {
    if depth == 0 || !Carries(f, OnlyElem(f)) then f else RootAt(OnlyElem(f).kids, depth - 1)
  }

  method PruningRoot(container: Forest) returns (root: Forest)
    ensures root == RootAt(container, 10)
  {
    root := container;
    var rootLen: int := -1;
    var depth := 0;
    while depth < 10
      invariant 0 <= depth <= 10
      invariant RootAt(container, 10) == RootAt(root, 10 - depth)
      invariant rootLen < 0 || rootLen == TrimLen(TextOf(root))
    {
      var only := Nil;
      var n := 0;
      var c := root;
      while c.Node?
        invariant n == 0 <==> only == Nil
        invariant n == 0 ==> OnlyElem(root) == OnlyElem(c)
        invariant n == 1 ==> OnlyElem(root) == if HasElem(c) then Nil else only
        invariant n == 1 ==> only.kind.Elem?
        invariant n > 1 ==> OnlyElem(root) == Nil
        decreases c
      {
        if c.kind.Elem? {
          only := Node(c.id, c.kind, c.kids, Nil);
          n := n + 1;
        }
        c := c.next;
      }
      if n != 1 || !Descends(only.kind) { break; }
      if rootLen < 0 { rootLen := TrimLen(TextOf(root)); }
      var wrapLen := TrimLen(TextOf(only.kids));
      if rootLen == 0 || 100 * wrapLen < 95 * rootLen { break; }
      root := only.kids;
      rootLen := wrapLen;
      depth := depth + 1;
    }
  }

  lemma {:induction false} OnlyElemText(f: Forest)
    ensures OnlyElem(f).Node? ==> TrimLen(TextOf(OnlyElem(f).kids)) <= TrimLen(TextOf(f))
  {
    hide TrimLen;
    if f.Node? {
      var own := if f.kind.Text? then f.kind.data else "";
      TrimSuperadditive(own, TextOf(f.kids));
      TrimSuperadditive(own + TextOf(f.kids), TextOf(f.next));
      OnlyElemText(f.next);
    }
  }

  lemma {:induction false} RootTextWithin(f: Forest, depth: nat)
    ensures TrimLen(TextOf(RootAt(f, depth))) <= TrimLen(TextOf(f))
  {
    if depth > 0 && Carries(f, OnlyElem(f)) {
      hide TrimLen;
      OnlyElemText(f);
      RootTextWithin(OnlyElem(f).kids, depth - 1);
    }
  }

  // ---------- scoring and the retention guard ----------

  /** footerKeywords and isSocialRow on the lower-cased block text. */
  datatype Words = Words(keyword: string -> bool, social: string -> bool)

  datatype Block = Block(node: Forest, text: string)

  function Blocks(f: Forest): (s: seq<Block>)
    ensures forall b :: b in s ==> b.node.Node? && b.node.id in Ids(f) && b.text == Trim(TextOf(b.node.kids))
  {
    match f
    case Nil => []
    case Node(i, k, kids, next) =>
      (if k.Elem? then [Block(Node(i, k, kids, Nil), Trim(TextOf(kids)))] else []) + Blocks(next)
  }

  /** Trimmed bytes of the text directly under the root. */
  function Loose(f: Forest): nat {
    match f
    case Nil => 0
    case Node(_, k, _, next) => (if k.Text? then TrimLen(k.data) else 0) + Loose(next)
  }

  function Sum(bs: seq<Block>): nat {
    if bs == [] then 0 else Sum(bs[..|bs| - 1]) + ByteLen(bs[|bs| - 1].text)
  }

  /** Block number `i` of `n` is boilerplate. */
  predicate Drops(b: Block, i: nat, n: nat, w: Words) {
    var len := ByteLen(b.text);
    var linked := if b.node.Node? then Linked(b.node.kids) else 0;
    && b.text != ""
    && (|| (w.keyword(b.text) && (i >= n * 7 / 10 || (2 * linked > len && len < 200)))
        || (10 * linked > 8 * len && w.social(b.text)))
  }

  /** The first `m` blocks, those kept and those dropped. */
  function Kept(bs: seq<Block>, m: nat, w: Words): (r: seq<Block>)
    requires m <= |bs|
  {
    if m == 0 then [] else Kept(bs, m - 1, w) + if Drops(bs[m - 1], m - 1, |bs|, w) then [] else [bs[m - 1]]
  }

  function DroppedIds(bs: seq<Block>, m: nat, w: Words): (r: seq<nat>)
    requires m <= |bs| && forall b :: b in bs ==> b.node.Node?
    ensures forall x :: x in r ==> exists b :: b in bs && b.node.id == x
  {
    if m == 0 then []
    else DroppedIds(bs, m - 1, w) + if Drops(bs[m - 1], m - 1, |bs|, w) then [bs[m - 1].node.id] else []
  }

  function Total(root: Forest): nat { Loose(root) + Sum(Blocks(root)) }

  /** The pruner goes ahead: enough structure to score, and the guard is satisfied. */
  predicate Prunes(root: Forest, w: Words) {
    var bs := Blocks(root);
    && Total(root) != 0 && |bs| >= 3
    && 100 * (Loose(root) + Sum(Kept(bs, |bs|, w))) >= 40 * Total(root)
  }

  function Pruned(f: Forest, w: Words): (r: Forest)
    ensures Ids(r) <= Ids(f)
  {
    var root := RootAt(f, 10);
    if Prunes(root, w) then Without(f, Elems(DroppedIds(Blocks(root), |Blocks(root)|, w))) else f
  }

  method PruneBulkContent(doc: Document, w: Words)
    requires doc.Valid()
    modifies doc`top
    ensures doc.Valid() && doc.top == Pruned(old(doc.top), w)
  {
    hide RootAt, Total, Loose, Blocks, Kept, Sum, DroppedIds, Drops;
    var root := PruningRoot(doc.top);
    var blocks, totalLen, textNodeLen := Measure(root);
    if totalLen == 0 || |blocks| < 3 { return; }
    var drop := Score(blocks, w);

    var kept := KeptLength(blocks, drop, w);
    kept := kept + textNodeLen;
    if 100 * kept < 40 * totalLen { return; }
    var toRemove := ToRemove(blocks, drop, w);
    doc.RemoveAll(toRemove);
  }

  ghost predicate Scored(blocks: seq<Block>, drop: seq<bool>, w: Words) {
    && |drop| == |blocks|
    && (forall b :: b in blocks ==> b.node.Node?)
    && forall i :: 0 <= i < |blocks| ==> drop[i] == Drops(blocks[i], i, |blocks|, w)
  }

  method KeptLength(blocks: seq<Block>, drop: seq<bool>, ghost w: Words) returns (kept: nat)
    requires Scored(blocks, drop, w)
    ensures kept == Sum(Kept(blocks, |blocks|, w))
  {
    hide Drops, ByteLen;
    kept := 0;
    for i := 0 to |blocks|
      invariant kept == Sum(Kept(blocks, i, w))
    {
      ghost var k := Kept(blocks, i, w);
      if !drop[i] {
        assert (k + [blocks[i]])[..|k|] == k;
        kept := kept + ByteLen(blocks[i].text);
      } else {
        assert k + [] == k;
      }
    }
  }

  method ToRemove(blocks: seq<Block>, drop: seq<bool>, ghost w: Words) returns (ids: seq<nat>)
    requires Scored(blocks, drop, w)
    ensures ids == DroppedIds(blocks, |blocks|, w)
  {
    hide Drops;
    ids := [];
    for i := 0 to |blocks|
      invariant ids == DroppedIds(blocks, i, w)
    {
      if drop[i] { ids := ids + [blocks[i].node.id]; }
    }
  }

  lemma NothingMeasured()
    ensures Blocks(Nil) == [] && Loose(Nil) == 0 && Sum([]) == 0
  {
  }

  lemma MeasureStep(c: Forest)
    requires c.Node?
    ensures Blocks(c) == if c.kind.Elem?
                         then [Block(Node(c.id, c.kind, c.kids, Nil), Trim(TextOf(c.kids)))] + Blocks(c.next)
                         else Blocks(c.next)
    ensures Loose(c) == (if c.kind.Text? then TrimLen(c.kind.data) else 0) + Loose(c.next)
  {
  }

  lemma SumSnoc(bs: seq<Block>, b: Block)
    ensures Sum(bs + [b]) == Sum(bs) + ByteLen(b.text)
  {
    assert (bs + [b])[..|bs|] == bs;
  }

  method Measure(root: Forest) returns (blocks: seq<Block>, totalLen: nat, textNodeLen: nat)
    ensures blocks == Blocks(root) && totalLen == Total(root) && textNodeLen == Loose(root)
  {
    hide TrimLen, Trim, ByteLen, TextOf, Blocks, Loose, Sum;
    blocks, totalLen, textNodeLen := [], 0, 0;
    NothingMeasured();
    var c := root;
    while c.Node?
      invariant blocks + Blocks(c) == Blocks(root)
      invariant totalLen == Sum(blocks)
      invariant textNodeLen + Loose(c) == Loose(root)
      decreases c
    {
      MeasureStep(c);
      if c.kind.Text? {
        textNodeLen := textNodeLen + TrimLen(c.kind.data);
      } else if c.kind.Elem? {
        var txt := Trim(TextOf(c.kids));
        var b := Block(Node(c.id, c.kind, c.kids, Nil), txt);
        SumSnoc(blocks, b);
        assert blocks + ([b] + Blocks(c.next)) == (blocks + [b]) + Blocks(c.next);
        blocks := blocks + [b];
        totalLen := totalLen + ByteLen(txt);
      }
      c := c.next;
    }
    assert blocks + [] == blocks;
    totalLen := totalLen + textNodeLen;
  }

  method Score(blocks: seq<Block>, w: Words) returns (drop: seq<bool>)
    requires forall b :: b in blocks ==> b.node.Node?
    ensures Scored(blocks, drop, w)
  {
    var bottomZone := |blocks| * 7 / 10;
    drop := [];
    for i := 0 to |blocks|
      invariant |drop| == i && forall j :: 0 <= j < i ==> drop[j] == Drops(blocks[j], j, |blocks|, w)
    {
      var b := blocks[i];
      var d := false;
      if b.text != "" {
        var len, linked := ByteLen(b.text), Linked(b.node.kids);
        var linkSoup := 2 * linked > len && len < 200;
        if w.keyword(b.text) && (i >= bottomZone || linkSoup) {
          d := true;
        } else if 10 * linked > 8 * len && w.social(b.text) {
          d := true;
        }
      }
      drop := drop + [d];
    }
  }

  // ---------- what the pruner guarantees ----------

  /** The measured blocks are disjoint parts of the trimmed text under the root. */
  lemma {:induction false} TotalWithinText(f: Forest)
    ensures Loose(f) + Sum(Blocks(f)) <= TrimLen(TextOf(f))
  {
    hide TrimLen, Trim, ByteLen;
    if f.Node? {
      var own := if f.kind.Text? then f.kind.data else "";
      TotalWithinText(f.next);
      TrimSuperadditive(own, TextOf(f.kids));
      TrimSuperadditive(own + TextOf(f.kids), TextOf(f.next));
      if f.kind.Elem? {
        SumCons(Block(Node(f.id, f.kind, f.kids, Nil), Trim(TextOf(f.kids))), Blocks(f.next));
        TrimLenIs(TextOf(f.kids));
      } else {
        assert [] + Blocks(f.next) == Blocks(f.next);
      }
    }
  }

  lemma TrimLenIs(s: string)
    ensures TrimLen(s) == ByteLen(Trim(s))
  {
  }

  lemma {:induction false} SumCons(b: Block, bs: seq<Block>)
    ensures Sum([b] + bs) == ByteLen(b.text) + Sum(bs)
    decreases |bs|
  {
    hide ByteLen;
    if bs == [] {
      assert [b] + bs == [b] && [b][..0] == [];
    } else {
      assert ([b] + bs)[..|bs|] == [b] + bs[..|bs| - 1];
      SumCons(b, bs[..|bs| - 1]);
    }
  }

  /** Trimmed bytes of the dropped blocks. */
  function Lost(bs: seq<Block>, m: nat, w: Words): nat
    requires m <= |bs|
  {
    if m == 0 then 0 else Lost(bs, m - 1, w) + if Drops(bs[m - 1], m - 1, |bs|, w) then ByteLen(bs[m - 1].text) else 0
  }

  /** One more block is either kept or lost. */
  lemma KeptStep(bs: seq<Block>, m: nat, w: Words)
    requires 0 < m <= |bs|
    ensures Sum(bs[..m]) == Sum(bs[..m - 1]) + ByteLen(bs[m - 1].text)
    ensures Sum(Kept(bs, m, w)) + Lost(bs, m, w) ==
            Sum(Kept(bs, m - 1, w)) + Lost(bs, m - 1, w) + ByteLen(bs[m - 1].text)
  {
    hide Drops, ByteLen, Sum;
    var k := Kept(bs, m - 1, w);
    assert bs[..m] == bs[..m - 1] + [bs[m - 1]] && k + [] == k;
    SumSnoc(bs[..m - 1], bs[m - 1]);
    SumSnoc(k, bs[m - 1]);
  }

  lemma {:induction false} KeptPlusLost(bs: seq<Block>, m: nat, w: Words)
    requires m <= |bs|
    ensures Sum(Kept(bs, m, w)) + Lost(bs, m, w) == Sum(bs[..m])
  {
    if m == 0 {
      assert bs[..0] == [];
    } else {
      hide Kept, Lost, Sum;
      KeptPlusLost(bs, m - 1, w);
      KeptStep(bs, m, w);
    }
  }

  // ---------- what is still in the tree ----------

  /** Trimmed bytes of the loose text and of the blocks that are not in `gone`. */
  function Spared(f: Forest, gone: set<nat>): nat {
    match f
    case Nil => 0
    case Node(i, k, kids, next) =>
      (if k.Text? then TrimLen(k.data) else if k.Elem? && i !in gone then TrimLen(TextOf(kids)) else 0)
      + Spared(next, gone)
  }

  /** `gone` names top-level elements only. */
  predicate TopOnly(f: Forest, gone: set<nat>) {
    match f
    case Nil => true
    case Node(i, k, kids, next) => (i in gone ==> k.Elem?) && gone !! Ids(kids) && TopOnly(next, gone)
  }

  /** Removing top-level elements leaves at least the text of the others. */
  lemma {:induction false} SparedIsLeft(f: Forest, gone: set<nat>)
    requires TopOnly(f, gone)
    ensures TrimLen(TextOf(Without(f, gone))) >= Spared(f, gone)
  {
    hide TrimLen;
    if f.Node? {
      SparedIsLeft(f.next, gone);
      WithoutNone(f.kids, gone);
      var own, rest := if f.kind.Text? then f.kind.data else "", TextOf(Without(f.next, gone));
      TrimSuperadditive(own, TextOf(f.kids));
      TrimSuperadditive(own + TextOf(f.kids), rest);
      assert "" + TextOf(f.kids) == TextOf(f.kids);
    } else {
      EmptyTrims();
    }
  }

  function BlockIds(f: Forest): (s: set<nat>)
    ensures s <= Ids(f)
  {
    match f
    case Nil => {}
    case Node(i, k, _, next) => (if k.Elem? then {i} else {}) + BlockIds(next)
  }

  lemma {:induction false} BlocksAreTop(f: Forest, gone: set<nat>)
    requires Unique(f) && gone * Ids(f) <= BlockIds(f)
    ensures TopOnly(f, gone)
  {
    if f.Node? {
      assert gone * Ids(f.next) <= BlockIds(f.next) by {
        forall x | x in gone && x in Ids(f.next) ensures x in BlockIds(f.next) { assert x in gone * Ids(f); }
      }
      BlocksAreTop(f.next, gone);
      forall x | x in gone ensures x !in Ids(f.kids) {
        assert x in Ids(f.kids) ==> x in gone * Ids(f);
      }
      if f.id in gone { assert f.id in gone * Ids(f); }
    }
  }

  /** Trimmed bytes of the listed blocks that are not in `gone`. */
  function SumWithout(bs: seq<Block>, gone: set<nat>): nat
    requires forall b :: b in bs ==> b.node.Node?
  {
    if bs == [] then 0
    else (if bs[0].node.id in gone then 0 else ByteLen(bs[0].text)) + SumWithout(bs[1..], gone)
  }

  lemma {:induction false} SparedIsListed(f: Forest, gone: set<nat>)
    ensures Spared(f, gone) == Loose(f) + SumWithout(Blocks(f), gone)
  {
    hide Trim, ByteLen, TextOf;
    if f.Node? {
      SparedIsListed(f.next, gone);
      if f.kind.Elem? {
        var b := Block(Node(f.id, f.kind, f.kids, Nil), Trim(TextOf(f.kids)));
        assert Blocks(f) == [b] + Blocks(f.next) && Blocks(f)[1..] == Blocks(f.next);
        TrimLenIs(TextOf(f.kids));
      } else {
        assert Blocks(f) == [] + Blocks(f.next) == Blocks(f.next);
      }
    }
  }

  ghost predicate IdsDiffer(bs: seq<Block>)
    requires forall b :: b in bs ==> b.node.Node?
  {
    forall i, j :: 0 <= i < j < |bs| ==> bs[i].node.id != bs[j].node.id
  }

  lemma {:induction false} BlocksDiffer(f: Forest)
    requires Unique(f)
    ensures IdsDiffer(Blocks(f))
    ensures forall b :: b in Blocks(f) ==> b.node.id in BlockIds(f)
  {
    if f.Node? {
      BlocksDiffer(f.next);
      var rest := Blocks(f.next);
      assert forall j :: 0 <= j < |rest| ==> rest[j] in rest;
    }
  }

  /** Exactly the blocks scored as boilerplate are dropped. */
  lemma {:induction false} DroppedAre(bs: seq<Block>, m: nat, w: Words)
    requires m <= |bs| && forall b :: b in bs ==> b.node.Node?
    ensures forall x :: x in DroppedIds(bs, m, w) <==>
      exists j :: 0 <= j < m && Drops(bs[j], j, |bs|, w) && bs[j].node.id == x
  {
    hide Drops;
    if m > 0 { DroppedAre(bs, m - 1, w); }
  }

  lemma {:induction false} SumWithoutConcat(a: seq<Block>, b: seq<Block>, gone: set<nat>)
    requires forall x :: x in a || x in b ==> x.node.Node?
    requires forall x :: x in a + b ==> x.node.Node?
    ensures SumWithout(a + b, gone) == SumWithout(a, gone) + SumWithout(b, gone)
  {
    hide ByteLen;
    if a == [] {
      assert a + b == b;
    } else {
      assert (a + b)[1..] == a[1..] + b;
      SumWithoutConcat(a[1..], b, gone);
    }
  }

  lemma OneBlock(b: Block, gone: set<nat>)
    requires b.node.Node?
    ensures SumWithout([b], gone) == if b.node.id in gone then 0 else ByteLen(b.text)
  {
    assert [b][1..] == [];
  }

  lemma EmptySums(gone: set<nat>)
    ensures SumWithout([], gone) == 0 && Sum([]) == 0
  {
  }

  lemma DroppedIf(bs: seq<Block>, m: nat, w: Words)
    requires m < |bs| && (forall b :: b in bs ==> b.node.Node?) && IdsDiffer(bs)
    ensures bs[m].node.id in Elems(DroppedIds(bs, |bs|, w)) <==> Drops(bs[m], m, |bs|, w)
  {
    hide Drops, DroppedIds;
    DroppedAre(bs, |bs|, w);
  }

  /** What is not dropped from the tree is what the guard counted as kept. */
  lemma {:induction false} ListedIsKept(bs: seq<Block>, m: nat, w: Words)
    requires m <= |bs| && (forall b :: b in bs ==> b.node.Node?) && IdsDiffer(bs)
    ensures SumWithout(bs[..m], Elems(DroppedIds(bs, |bs|, w))) == Sum(Kept(bs, m, w))
  {
    hide Drops, ByteLen, DroppedIds, Sum, SumWithout, IdsDiffer;
    var gone := Elems(DroppedIds(bs, |bs|, w));
    if m == 0 {
      assert bs[..0] == [];
      EmptySums(gone);
    } else {
      ListedIsKept(bs, m - 1, w);
      DroppedIf(bs, m - 1, w);
      var b, k := bs[m - 1], Kept(bs, m - 1, w);
      assert bs[..m] == bs[..m - 1] + [b] && k + [] == k;
      SumWithoutConcat(bs[..m - 1], [b], gone);
      OneBlock(b, gone);
      SumSnoc(k, b);
    }
  }

  /** Below the wrappers nothing else changes. */
  lemma {:induction false} OnlyElemWithout(f: Forest, gone: set<nat>)
    requires Unique(f) && OnlyElem(f).Node? && gone <= Ids(OnlyElem(f).kids)
    ensures Unique(OnlyElem(f).kids)
    ensures OnlyElem(Without(f, gone)).Node? && OnlyElem(Without(f, gone)).kids == Without(OnlyElem(f).kids, gone)
  {
    if f.kind.Elem? {
      WithoutNone(f.next, gone);
    } else {
      WithoutNone(f.kids, gone);
      OnlyElemWithout(f.next, gone);
    }
  }

  lemma RootStep(f: Forest, depth: nat)
    ensures RootAt(f, depth) ==
            if depth == 0 || !Carries(f, OnlyElem(f)) then f else RootAt(OnlyElem(f).kids, depth - 1)
  {
  }

  lemma CarriesOne(f: Forest)
    ensures Carries(f, OnlyElem(f)) ==> OnlyElem(f).Node?
  {
  }

  lemma {:induction false} WrappersKeepText(f: Forest, depth: nat, gone: set<nat>)
    requires Unique(f) && gone <= Ids(RootAt(f, depth))
    ensures Unique(RootAt(f, depth))
    ensures TrimLen(TextOf(Without(f, gone))) >= TrimLen(TextOf(Without(RootAt(f, depth), gone)))
  {
    hide TrimLen, Carries, RootAt, OnlyElem, Without, TextOf, Unique;
    RootStep(f, depth);
    if depth > 0 && Carries(f, OnlyElem(f)) {
      CarriesOne(f);
      var only := OnlyElem(f);
      OnlyElemWithout(f, gone);
      OnlyElemText(Without(f, gone));
      WrappersKeepText(only.kids, depth - 1, gone);
    }
  }

  /** What removal leaves under the root is at least what the guard counted. */
  lemma RootKeepsText(root: Forest, w: Words)
    requires Unique(root)
    ensures var bs := Blocks(root); var gone := Elems(DroppedIds(bs, |bs|, w));
      && gone <= Ids(root)
      && TrimLen(TextOf(Without(root, gone))) >= Loose(root) + Sum(Kept(bs, |bs|, w))
  {
    hide TrimLen, Loose, Sum, Kept, DroppedIds, Blocks, Drops, SumWithout, Spared;
    var bs := Blocks(root);
    var gone := Elems(DroppedIds(bs, |bs|, w));
    BlocksDiffer(root);
    DroppedAre(bs, |bs|, w);
    forall x | x in gone ensures x in BlockIds(root) {
      var j :| 0 <= j < |bs| && bs[j].node.id == x;
      assert bs[j] in bs;
    }
    BlocksAreTop(root, gone);
    SparedIsLeft(root, gone);
    SparedIsListed(root, gone);
    ListedIsKept(bs, |bs|, w);
    assert bs[..|bs|] == bs;
  }

  /** The pruner in doubt does nothing; otherwise the text of the pruned tree is at least 40% of
      what was measured, and the dropped blocks are at most 60% of all text. */
  lemma PruningIsBounded(f: Forest, w: Words)
    requires Unique(f)
    ensures var root := RootAt(f, 10); var bs := Blocks(root);
      || Pruned(f, w) == f
      || (&& 100 * TrimLen(TextOf(Pruned(f, w))) >= 40 * Total(root)
          && Pruned(f, w) == Without(f, Elems(DroppedIds(bs, |bs|, w)))
          && 10 * Lost(bs, |bs|, w) <= 6 * TrimLen(TextOf(f)))
  {
    hide TrimLen, Lost, Kept, RootAt, Blocks, Sum, DroppedIds;
    var root := RootAt(f, 10);
    var bs := Blocks(root);
    WrappersKeepText(f, 10, {});
    RootKeepsText(root, w);
    WrappersKeepText(f, 10, Elems(DroppedIds(bs, |bs|, w)));
    RootTextWithin(f, 10);
    TotalWithinText(root);
    KeptPlusLost(bs, |bs|, w);
    assert bs[..|bs|] == bs;
  }
}
