/** The HTML tree behind reader mode: golang.org/x/net/html nodes in first-child /
    next-sibling form, each with an identity, and the in-place edits the passes make. */
module Dom {

  datatype Tag =
    | Img | A | Br | Hr | P | Div | Table | Td | Th | Pre | Code
    | H1 | H2 | H3 | H4 | H5 | H6
    | Wrapper            // center, section, article, main, body
    | NonRendered        // style, script, head, meta, link, title, noscript, base
    | OtherTag(name: string)

  datatype Key = Style | Role | Src | Width | Height | OtherKey(name: string)

  datatype Attr = Attr(key: Key, val: string)

  datatype Kind = Elem(tag: Tag, attrs: seq<Attr>) | Text(data: string) | Other

  /** A list of sibling trees. `id` is the identity of the node, the pointer in the source. */
  datatype Forest = Nil | Node(id: nat, kind: Kind, kids: Forest, next: Forest)

  function Append(f: Forest, g: Forest): (r: Forest)
    ensures g == Nil ==> r == f
    ensures Ids(r) == Ids(f) + Ids(g)
  {
    match f
    case Nil => g
    case Node(i, k, kids, next) => Node(i, k, kids, Append(next, g))
  }

  function Ids(f: Forest): (s: set<nat>) {
    match f
    case Nil => {}
    case Node(i, _, kids, next) => {i} + Ids(kids) + Ids(next)
  }

  /** No node occurs twice. */
  predicate Unique(f: Forest) {
    match f
    case Nil => true
    case Node(i, _, kids, next) =>
      && i !in Ids(kids) && i !in Ids(next) && Ids(kids) !! Ids(next)
      && Unique(kids) && Unique(next)
  }

  /** Identities in document order. */
  function DocIds(f: Forest): (s: seq<nat>)
    ensures forall x :: x in s <==> x in Ids(f)
  {
    match f
    case Nil => []
    case Node(i, _, kids, next) => [i] + DocIds(kids) + DocIds(next)
  }

  ghost predicate Below(f: Forest, b: nat) { forall x :: x in Ids(f) ==> x < b }

  predicate All(f: Forest, p: Kind -> bool) {
    match f
    case Nil => true
    case Node(_, k, kids, next) => p(k) && All(kids, p) && All(next, p)
  }

  function TextOf(f: Forest): string {
    match f
    case Nil => ""
    case Node(_, k, kids, next) => (if k.Text? then k.data else "") + TextOf(kids) + TextOf(next)
  }

  /** unicode.IsSpace */
  predicate IsSpace(c: char) {
    var n := c as int;
    || 9 <= n <= 13 || n == 32 || n == 0x85 || n == 0xA0 || n == 0x1680 || 0x2000 <= n <= 0x200A
    || n == 0x2028 || n == 0x2029 || n == 0x202F || n == 0x205F || n == 0x3000
  }

  function Solid(s: string): (r: string) {
    if s == "" then "" else if IsSpace(s[0]) then Solid(s[1..]) else [s[0]] + Solid(s[1..])
  }

  /** strings.TrimSpace(s) == "" */
  predicate Blank(s: string) { Solid(s) == "" }

  lemma {:induction false} BlankMeans(s: string)
    ensures Blank(s) <==> forall c :: c in s ==> IsSpace(c)
    decreases |s|
  {
    if s != "" {
      BlankMeans(s[1..]);
      assert s == [s[0]] + s[1..];
    }
  }

  lemma {:induction false} SolidConcat(a: string, b: string)
    ensures Solid(a + b) == Solid(a) + Solid(b)
    decreases |a|
  {
    if a == "" {
      assert a + b == b;
    } else {
      assert (a + b)[1..] == a[1..] + b;
      SolidConcat(a[1..], b);
    }
  }

  predicate Is(k: Kind, t: Tag) { k.Elem? && k.tag == t }

  /** hasDescendant */
  predicate Has(f: Forest, t: Tag) {
    match f
    case Nil => false
    case Node(_, k, kids, next) => Is(k, t) || Has(kids, t) || Has(next, t)
  }

  predicate HasElem(f: Forest) {
    match f
    case Nil => false
    case Node(_, k, _, next) => k.Elem? || HasElem(next)
  }

  // ---------- single edits ----------

  /** Put the forest `g` in the place of node `x`. */
  function Subst(f: Forest, x: nat, g: Forest): (r: Forest)
    ensures x !in Ids(f) ==> r == f
    ensures Ids(r) <= Ids(f) - {x} + Ids(g)
    ensures x in Ids(f) ==> Ids(g) <= Ids(r)
  {
    match f
    case Nil => Nil
    case Node(i, k, kids, next) =>
      if i == x then Append(g, Subst(next, x, g)) else Node(i, k, Subst(kids, x, g), Subst(next, x, g))
  }

  /** Node `x` with its subtree, standing alone. */
  function Find(f: Forest, x: nat): (r: Forest)
    ensures x in Ids(f) <==> r.Node?
    ensures r.Node? ==> r.id == x && r.next == Nil && Ids(r) <= Ids(f)
  {
    match f
    case Nil => Nil
    case Node(i, k, kids, next) =>
      if i == x then Node(i, k, kids, Nil)
      else if Find(kids, x).Node? then Find(kids, x) else Find(next, x)
  }

  // ---------- edits of a whole set of nodes ----------

  function Without(f: Forest, s: set<nat>): (r: Forest)
    ensures Ids(r) <= Ids(f) - s
  {
    match f
    case Nil => Nil
    case Node(i, k, kids, next) =>
      if i in s then Without(next, s) else Node(i, k, Without(kids, s), Without(next, s))
  }

  function Rekind(f: Forest, s: set<nat>, m: Kind -> Kind): (r: Forest)
    ensures Ids(r) == Ids(f)
  {
    match f
    case Nil => Nil
    case Node(i, k, kids, next) => Node(i, if i in s then m(k) else k, Rekind(kids, s, m), Rekind(next, s, m))
  }

  lemma {:induction false} WithoutOne(f: Forest, x: nat)
    ensures Without(f, {x}) == Subst(f, x, Nil)
  {
    if f.Node? { WithoutOne(f.kids, x); WithoutOne(f.next, x); }
  }

  lemma {:induction false} WithoutTwice(f: Forest, s: set<nat>, t: set<nat>)
    ensures Without(Without(f, s), t) == Without(f, s + t)
  {
    if f.Node? { WithoutTwice(f.kids, s, t); WithoutTwice(f.next, s, t); }
  }

  lemma {:induction false} WithoutNone(f: Forest, s: set<nat>)
    requires s !! Ids(f)
    ensures Without(f, s) == f
  {
    if f.Node? { WithoutNone(f.kids, s); WithoutNone(f.next, s); }
  }

  lemma {:induction false} WithoutIrrelevant(f: Forest, s: set<nat>, t: set<nat>)
    requires t !! Ids(f)
    ensures Without(f, s + t) == Without(f, s)
  {
    if f.Node? { WithoutIrrelevant(f.kids, s, t); WithoutIrrelevant(f.next, s, t); }
  }

  lemma {:induction false} WithoutUnique(f: Forest, s: set<nat>)
    requires Unique(f)
    ensures Unique(Without(f, s))
  {
    if f.Node? { WithoutUnique(f.kids, s); WithoutUnique(f.next, s); }
  }

  lemma {:induction false} RekindTwice(f: Forest, s: set<nat>, x: nat, m: Kind -> Kind)
    requires x !in s
    ensures Rekind(Rekind(f, s, m), {x}, m) == Rekind(f, s + {x}, m)
  {
    if f.Node? { RekindTwice(f.kids, s, x, m); RekindTwice(f.next, s, x, m); }
  }

  lemma {:induction false} RekindNone(f: Forest, m: Kind -> Kind)
    ensures Rekind(f, {}, m) == f
  {
    if f.Node? { RekindNone(f.kids, m); RekindNone(f.next, m); }
  }

  lemma {:induction false} RekindUnique(f: Forest, s: set<nat>, m: Kind -> Kind)
    requires Unique(f)
    ensures Unique(Rekind(f, s, m))
  {
    if f.Node? { RekindUnique(f.kids, s, m); RekindUnique(f.next, s, m); }
  }

  lemma {:induction false} AllWithout(f: Forest, s: set<nat>, p: Kind -> bool)
    requires All(f, p)
    ensures All(Without(f, s), p)
  {
    if f.Node? { AllWithout(f.kids, s, p); AllWithout(f.next, s, p); }
  }

  lemma {:induction false} AllRekind(f: Forest, s: set<nat>, m: Kind -> Kind, p: Kind -> bool)
    requires All(f, p) && forall k :: p(k) ==> p(m(k))
    ensures All(Rekind(f, s, m), p)
  {
    if f.Node? { AllRekind(f.kids, s, m, p); AllRekind(f.next, s, m, p); }
  }

  lemma {:induction false} AllAppend(f: Forest, g: Forest, p: Kind -> bool)
    ensures All(Append(f, g), p) <==> All(f, p) && All(g, p)
  {
    if f.Node? { AllAppend(f.next, g, p); }
  }

  lemma {:induction false} AppendAssoc(f: Forest, g: Forest, h: Forest)
    ensures Append(Append(f, g), h) == Append(f, Append(g, h))
  {
    if f.Node? { AppendAssoc(f.next, g, h); }
  }

  lemma {:induction false} TextAppend(f: Forest, g: Forest)
    ensures TextOf(Append(f, g)) == TextOf(f) + TextOf(g)
  {
    if f.Node? { TextAppend(f.next, g); }
  }

  lemma {:induction false} DocIdsAppend(f: Forest, g: Forest)
    ensures DocIds(Append(f, g)) == DocIds(f) + DocIds(g)
  {
    if f.Node? { DocIdsAppend(f.next, g); }
  }

  // ---------- dropping every node of a kind ----------

  /** The nodes whose kind and children satisfy `q`, in document order (children after). */
  function Selected(f: Forest, q: (Kind, Forest) -> bool): (s: seq<nat>)
    ensures forall x :: x in s ==> x in Ids(f)
  {
    match f
    case Nil => []
    case Node(i, k, kids, next) =>
      (if q(k, kids) then [i] else []) + Selected(kids, q) + Selected(next, q)
  }

  /** The same nodes with children before their parents. */
  function SelectedPost(f: Forest, q: (Kind, Forest) -> bool): (s: seq<nat>)
    ensures forall x :: x in s <==> x in Selected(f, q)
  {
    match f
    case Nil => []
    case Node(i, k, kids, next) =>
      SelectedPost(kids, q) + (if q(k, kids) then [i] else []) + SelectedPost(next, q)
  }

  /** Only the outermost of them. */
  function SelectedTop(f: Forest, q: (Kind, Forest) -> bool): (s: seq<nat>)
    ensures forall x :: x in s ==> x in Ids(f)
  {
    match f
    case Nil => []
    case Node(i, k, kids, next) =>
      (if q(k, kids) then [i] else SelectedTop(kids, q)) + SelectedTop(next, q)
  }

  /** The tree without the subtrees `q` selects, `q` being asked on the tree as it was. */
  function Dropped(f: Forest, q: (Kind, Forest) -> bool): (r: Forest)
    ensures Ids(r) <= Ids(f)
  {
    match f
    case Nil => Nil
    case Node(i, k, kids, next) =>
      if q(k, kids) then Dropped(next, q) else Node(i, k, Dropped(kids, q), Dropped(next, q))
  }

  function Elems(s: seq<nat>): (r: set<nat>)
    ensures forall x :: x in r <==> x in s
  {
    set x | x in s
  }

  /** Collect first, remove afterwards: the outcome is the structural drop, because removing
      one collected node never changes which others were collected. */
  lemma {:induction false} WithoutSelected(f: Forest, q: (Kind, Forest) -> bool, s: set<nat>)
    requires Unique(f)
    requires forall x :: x in Ids(f) ==> (x in s <==> x in Selected(f, q))
    ensures Without(f, s) == Dropped(f, q)
  {
    if f.Node? {
      WithoutSelected(f.kids, q, s);
      WithoutSelected(f.next, q, s);
    }
  }

  lemma {:induction false} WithoutSelectedTop(f: Forest, q: (Kind, Forest) -> bool, s: set<nat>)
    requires Unique(f)
    requires forall x :: x in Ids(f) ==> (x in s <==> x in SelectedTop(f, q))
    ensures Without(f, s) == Dropped(f, q)
  {
    if f.Node? {
      if !q(f.kind, f.kids) { WithoutSelectedTop(f.kids, q, s); }
      WithoutSelectedTop(f.next, q, s);
    }
  }

  lemma {:induction false} DroppedMeans(f: Forest, q: (Kind, Forest) -> bool, p: Kind -> bool)
    requires forall k, kids :: !q(k, kids) ==> p(k)
    ensures All(Dropped(f, q), p)
  {
    if f.Node? { DroppedMeans(f.kids, q, p); DroppedMeans(f.next, q, p); }
  }

  lemma {:induction false} AllDropped(f: Forest, q: (Kind, Forest) -> bool, p: Kind -> bool)
    requires All(f, p)
    ensures All(Dropped(f, q), p)
  {
    if f.Node? { AllDropped(f.kids, q, p); AllDropped(f.next, q, p); }
  }

  // ---------- the mutable document ----------

  /** The children of the container element, edited in place. */
  class Document {
    var top: Forest
    var bound: nat     // above every identity in use

    ghost predicate Valid()
      reads this
    {
      Unique(top) && Below(top, bound)
    }

    constructor (f: Forest, limit: nat)
      requires Unique(f) && Below(f, limit)
      ensures Valid() && top == f && bound == limit
    {
      top, bound := f, limit;
    }

    /** n.Parent.RemoveChild(n); nothing happens to the document when `x` is already detached. */
    method RemoveChild(x: nat)
      requires Valid()
      modifies `top
      ensures Valid() && top == Without(old(top), {x})
    {
      WithoutOne(top, x);
      WithoutUnique(top, {x});
      top := Subst(top, x, Nil);
    }

    /** The common tail of the drop passes: remove everything collected, one node at a time. */
    method RemoveAll(collected: seq<nat>)
      requires Valid()
      modifies `top
      ensures Valid() && top == Without(old(top), Elems(collected))
    {
      WithoutNone(top, {});
      assert Elems(collected[..0]) == {};
      for n := 0 to |collected|
        invariant Valid() && top == Without(old(top), Elems(collected[..n]))
      {
        WithoutTwice(old(top), Elems(collected[..n]), {collected[n]});
        RemoveChild(collected[n]);
        assert Elems(collected[..n + 1]) == Elems(collected[..n]) + {collected[n]};
      }
      assert collected[..|collected|] == collected;
    }
  }
}
