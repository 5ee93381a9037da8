/** How many line breaks stand in a row after collapseNoise, read off its input
    (pkg/email/readermode.go:400-462). */
module Breaks {
  import opened Dom
  import opened Tables
  import opened ReaderMode

  /** The breaks that are the third or a later one of their run in the output. `raw` counts the
      run before a node as the first step of the pass sees it; `seen` counts the breaks of the
      output, where removed breaks and empty blocks are gone. */
  function Excess(f: Forest, raw: nat, seen: nat): seq<nat> {
    match f
    case Nil => []
    case Node(i, k, kids, next) =>
      if Is(k, Br) && raw >= 2 then Excess(next, raw + 1, seen)
      else if EmptyBlock(k, kids) then Excess(next, 0, seen)
      else
        (if Is(k, Br) && seen >= 2 then [i] else []) + Excess(kids, 0, 0)
        + Excess(next, RunAfter(k, raw), RunAfter(k, seen))
  }

  /** Nothing visible: what makes a p or div an empty block. */
  predicate Bare(f: Forest) {
    Blank(TextOf(f)) && !Has(f, Img) && !Has(f, A) && !Has(f, Hr) && !Has(f, Br)
  }

  predicate BareKind(k: Kind) {
    (k.Text? ==> Blank(k.data)) && !Is(k, Img) && !Is(k, A) && !Is(k, Hr) && !Is(k, Br)
  }

  lemma BareNode(i: nat, k: Kind, kids: Forest, next: Forest)
    ensures Bare(Node(i, k, kids, next)) <==> BareKind(k) && Bare(kids) && Bare(next)
  {
    hide Blank, TextOf;
    BlankText(i, k, kids, next);
  }

  lemma EmptyIsBare(k: Kind, kids: Forest)
    ensures EmptyBlock(k, kids) <==> (Is(k, P) || Is(k, Div)) && Bare(kids)
  {
  }

  // ---------- the first step ----------

  /** `s` is the list of the first step, as far as it concerns `f`. */
  ghost predicate Lists(f: Forest, raw: nat, s: set<nat>) {
    forall x :: x in Ids(f) ==> (x in s <==> x in ExtraBrs(f, raw))
  }

  lemma ListsParts(f: Forest, raw: nat, s: set<nat>)
    requires Unique(f) && f.Node? && Lists(f, raw, s)
    ensures f.id in s <==> Is(f.kind, Br) && raw >= 2
    ensures Lists(f.kids, 0, s) && Lists(f.next, RunAfter(f.kind, raw), s)
  {
    hide RunAfter;
    var a, b := ExtraBrs(f.kids, 0), ExtraBrs(f.next, RunAfter(f.kind, raw));
    assert forall x :: x in ExtraBrs(f, raw) <==> (Is(f.kind, Br) && raw >= 2 && x == f.id) || x in a || x in b;
  }

  /** A block does not lose its last break in the first step. */
  lemma {:induction false} BreaksStay(f: Forest, raw: nat, s: set<nat>)
    requires Unique(f) && Lists(f, raw, s)
    ensures Bare(f) ==> Bare(Without(f, s))
    ensures raw < 2 ==> (Bare(f) <==> Bare(Without(f, s)))
  {
    if f.Node? {
      ListsParts(f, raw, s);
      hide Bare, Lists, ExtraBrs;
      BreaksStay(f.kids, 0, s);
      BreaksStay(f.next, RunAfter(f.kind, raw), s);
      BareNode(f.id, f.kind, f.kids, f.next);
      BareNode(f.id, f.kind, Without(f.kids, s), Without(f.next, s));
    }
  }

  lemma {:induction false} FirstStep(f: Forest, raw: nat, seen: nat, s: set<nat>)
    requires Unique(f) && Lists(f, raw, s)
    ensures ExtraAcross(Without(f, s), seen) == Excess(f, raw, seen)
  {
    if f.Node? {
      ListsParts(f, raw, s);
      hide Bare, Lists, ExtraBrs, EmptyBlock, BlankNode;
      BreaksStay(f.kids, 0, s);
      EmptyIsBare(f.kind, f.kids);
      EmptyIsBare(f.kind, Without(f.kids, s));
      FirstStep(f.kids, 0, 0, s);
      FirstStep(f.next, RunAfter(f.kind, raw), seen, s);
      FirstStep(f.next, RunAfter(f.kind, raw), RunAfter(f.kind, seen), s);
    }
  }

  // ---------- the second step ----------

  /** `s` lists visible texts only. */
  predicate NamesTexts(f: Forest, s: set<nat>) {
    match f
    case Nil => true
    case Node(i, k, kids, next) => (i in s ==> k.Text? && !Blank(k.data)) && NamesTexts(kids, s) && NamesTexts(next, s)
  }

  lemma {:induction false} SeparatorsAreTexts(f: Forest, inPre: bool, s: set<nat>, t: string -> bool)
    requires Unique(f) && forall x :: x in Ids(f) ==> (x in s ==> x in TextNodes(f, inPre, t))
    requires forall d :: t(d) ==> !Blank(d)
    ensures NamesTexts(f, s)
  {
    if f.Node? {
      hide Blank;
      var a, b := TextNodes(f.kids, inPre || Verbatim(f.kind), t), TextNodes(f.next, inPre, t);
      var own := f.kind.Text? && !inPre && t(f.kind.data);
      assert forall x :: x in TextNodes(f, inPre, t) <==> (own && x == f.id) || x in a || x in b;
      SeparatorsAreTexts(f.kids, inPre || Verbatim(f.kind), s, t);
      SeparatorsAreTexts(f.next, inPre, s, t);
    }
  }

  /** A separator becomes a rule, so a block that held one is as little empty as before. */
  lemma {:induction false} RulesShow(f: Forest, s: set<nat>, base: nat)
    requires NamesTexts(f, s)
    ensures Bare(Ruled(f, s, base)) <==> Bare(f)
  {
    if f.Node? {
      hide Bare, Blank;
      var ks, fs := Ruled(f.kids, s, base), Ruled(f.next, s, base);
      RulesShow(f.kids, s, base);
      RulesShow(f.next, s, base);
      BareNode(f.id, f.kind, f.kids, f.next);
      if f.id in s {
        BareNode(base + f.id, RULE, Nil, Node(f.id, Text(""), ks, fs));
      } else {
        BareNode(f.id, f.kind, ks, fs);
      }
    }
  }

  lemma {:induction false} SecondStep(f: Forest, s: set<nat>, base: nat, run: nat)
    requires NamesTexts(f, s)
    ensures ExtraAcross(Ruled(f, s, base), run) == ExtraAcross(f, run)
  {
    if f.Node? {
      var ks, fs := Ruled(f.kids, s, base), Ruled(f.next, s, base);
      RulesShow(f.kids, s, base);
      EmptyIsBare(f.kind, f.kids);
      EmptyIsBare(f.kind, ks);
      SecondStep(f.kids, s, base, 0);
      SecondStep(f.next, s, base, run);
      SecondStep(f.next, s, base, RunAfter(f.kind, run));
      if f.id in s { RuleBreaksRun(f.id, f.kind, f.kids, f.next, ks, fs, base, run); }
    }
  }

  lemma RuleBreaksRun(i: nat, k: Kind, kids: Forest, next: Forest, ks: Forest, fs: Forest, base: nat, run: nat)
    requires k.Text? && !Blank(k.data)
    requires ExtraAcross(ks, 0) == ExtraAcross(kids, 0) && ExtraAcross(fs, 0) == ExtraAcross(next, 0)
    ensures ExtraAcross(Node(base + i, RULE, Nil, Node(i, Text(""), ks, fs)), run) ==
            ExtraAcross(Node(i, k, kids, next), run)
  {
    assert Blank("");
    assert ExtraAcross(Node(i, Text(""), ks, fs), 0) == [] + ExtraAcross(ks, 0) + ExtraAcross(fs, 0);
    assert ExtraAcross(Nil, 0) == [];
  }

  // ---------- the whole pass ----------

  /** collapseNoise leaves a run of three breaks exactly where the input has, between the breaks
      that the first step keeps, nothing but white space, removed breaks and empty blocks. */
  lemma BreaksAfterCollapse(f: Forest, base: nat, r: Rules)
    requires Unique(f)
    ensures ExtraBrs(Collapsed(f, base, r), 0) == Excess(f, 0, 0)
    ensures ExtraBrs(Collapsed(f, base, r), 0) == [] <==> Excess(f, 0, 0) == []
  {
    hide ExtraBrs, Excess, ExtraAcross, Dropped, Ruled, TextNodes, NamesTexts, Blank;
    var brs := Elems(ExtraBrs(f, 0));
    var f1 := Without(f, brs);
    var seps := Elems(Separators(f1, r));
    assert Lists(f, 0, brs);
    FirstStep(f, 0, 0, brs);
    WithoutUnique(f, brs);
    SeparatorsAreTexts(f1, false, seps, SeparatorText(r));
    SecondStep(f1, seps, base, 0);
    BrLimitIsKeptIff(Ruled(f1, seps, base), 0);
  }
}
