/** Flattening layout tables in place (unwrapLayoutTables, linearizeTable in
    pkg/email/readermode.go) refines a bottom-up rewrite of the tree. */
module Tables {
  import opened Dom

  /** The role attribute reads "presentation", as `pres` decides. */
  predicate Presents(k: Kind, pres: string -> bool)
    requires k.Elem?
  {
    exists i :: 0 <= i < |k.attrs| && k.attrs[i].key == Role && pres(k.attrs[i].val)
  }

  /** isLayoutTable */
  predicate IsLayout(k: Kind, kids: Forest, pres: string -> bool) {
    Is(k, Table) && (Presents(k, pres) || !Has(kids, Th))
  }

  predicate IsCell(k: Kind) { Is(k, Td) || Is(k, Th) }

  /** What linearizeTable collects: the children of the topmost cells, in document order. */
  function Cells(f: Forest): (r: Forest)
    ensures Ids(r) <= Ids(f)
  {
    match f
    case Nil => Nil
    case Node(_, k, kids, next) => Append(if IsCell(k) then kids else Cells(kids), Cells(next))
  }

  /** The rewrite: flatten inside first, then dissolve the table if it is a layout table. */
  function Flat(f: Forest, pres: string -> bool): (r: Forest)
    ensures Ids(r) <= Ids(f)
  {
    match f
    case Nil => Nil
    case Node(i, k, kids, next) =>
      var ks := Flat(kids, pres);
      if IsLayout(k, ks, pres) then Append(Cells(ks), Flat(next, pres))
      else Node(i, k, ks, Flat(next, pres))
  }

  predicate NoLayout(f: Forest, pres: string -> bool) {
    match f
    case Nil => true
    case Node(_, k, kids, next) => !IsLayout(k, kids, pres) && NoLayout(kids, pres) && NoLayout(next, pres)
  }

  // ---------- the list-driven pass ----------

  /** The collected tables, children before parents. */
  function TablesPost(f: Forest): (s: seq<nat>)
    ensures forall x :: x in s ==> x in Ids(f)
  {
    match f
    case Nil => []
    case Node(i, k, kids, next) => TablesPost(kids) + (if Is(k, Table) then [i] else []) + TablesPost(next)
  }

  function LinearizeIf(f: Forest, t: nat, pres: string -> bool): (r: Forest)
    ensures Ids(r) <= Ids(f)
  {
    var n := Find(f, t);
    if n.Node? && IsLayout(n.kind, n.kids, pres) then Subst(f, t, Cells(n.kids)) else f
  }

  function Run(f: Forest, ts: seq<nat>, pres: string -> bool): (r: Forest)
    ensures Ids(r) <= Ids(f)
    decreases |ts|
  {
    if ts == [] then f else Run(LinearizeIf(f, ts[0], pres), ts[1..], pres)
  }

  // ---------- algebra of substitution ----------

  lemma {:induction false} SubstAppend(f: Forest, g: Forest, x: nat, h: Forest)
    ensures Subst(Append(f, g), x, h) == Append(Subst(f, x, h), Subst(g, x, h))
  {
    if f.Node? {
      SubstAppend(f.next, g, x, h);
      if f.id == x { AppendAssoc(h, Subst(f.next, x, h), Subst(g, x, h)); }
    }
  }

  lemma {:induction false} FindAppend(f: Forest, g: Forest, x: nat)
    ensures Find(Append(f, g), x) == if x in Ids(f) then Find(f, x) else Find(g, x)
  {
    if f.Node? { FindAppend(f.next, g, x); }
  }

  /** Replacing the stand-in left by an earlier replacement. */
  lemma {:induction false} SubstOver(f: Forest, x: nat, g: Forest, k: Kind, ks: Forest, h: Forest)
    requires x !in Ids(g)
    ensures Subst(Subst(f, x, Append(g, Node(x, k, ks, Nil))), x, h) == Subst(f, x, Append(g, h))
  {
    if f.Node? {
      SubstOver(f.next, x, g, k, ks, h);
      if f.id == x {
        var stand := Append(g, Node(x, k, ks, Nil));
        SubstAppend(stand, Subst(f.next, x, stand), x, h);
        SubstAppend(g, Node(x, k, ks, Nil), x, h);
      } else {
        SubstOver(f.kids, x, g, k, ks, h);
      }
    }
  }

  lemma {:induction false} FindOver(f: Forest, x: nat, g: Forest, k: Kind, ks: Forest)
    requires x in Ids(f) && x !in Ids(g)
    ensures Find(Subst(f, x, Append(g, Node(x, k, ks, Nil))), x) == Node(x, k, ks, Nil)
  {
    var stand := Append(g, Node(x, k, ks, Nil));
    if f.id == x {
      FindAppend(stand, Subst(f.next, x, stand), x);
      FindAppend(g, Node(x, k, ks, Nil), x);
    } else if x in Ids(f.kids) {
      FindOver(f.kids, x, g, k, ks);
    } else {
      FindOver(f.next, x, g, k, ks);
    }
  }

  lemma AppendOne(i: nat, k: Kind, ks: Forest, g: Forest)
    ensures Append(Node(i, k, ks, Nil), g) == Node(i, k, ks, g)
  {
  }

  /** Removing a node from under `x` only changes what is under `x`. */
  lemma {:induction false} WithoutUnder(f: Forest, x: nat, y: nat, k: Kind, ks: Forest)
    requires x != y && y !in Ids(Subst(f, x, Nil))
    ensures Without(Subst(f, x, Node(x, k, ks, Nil)), {y}) == Subst(f, x, Node(x, k, Without(ks, {y}), Nil))
  {
    if f.Node? {
      WithoutUnder(f.next, x, y, k, ks);
      if f.id == x {
        AppendOne(x, k, ks, Subst(f.next, x, Node(x, k, ks, Nil)));
        AppendOne(x, k, Without(ks, {y}), Subst(f.next, x, Node(x, k, Without(ks, {y}), Nil)));
      } else {
        WithoutUnder(f.kids, x, y, k, ks);
      }
    }
  }

  lemma {:induction false} SubstSelf(f: Forest, x: nat)
    requires Unique(f) && x in Ids(f)
    ensures Subst(f, x, Find(f, x)) == f
    ensures Ids(Find(f, x).kids) !! Ids(Subst(f, x, Nil)) && x !in Ids(Find(f, x).kids)
    ensures Unique(Find(f, x).kids)
  {
    if f.id == x {
      AppendOne(x, f.kind, f.kids, f.next);
    } else if x in Ids(f.kids) {
      SubstSelf(f.kids, x);
    } else {
      SubstSelf(f.next, x);
    }
  }

  lemma {:induction false} UniqueAppend(f: Forest, g: Forest)
    ensures Unique(Append(f, g)) <==> Unique(f) && Unique(g) && Ids(f) !! Ids(g)
  {
    if f.Node? { UniqueAppend(f.next, g); }
  }

  lemma {:induction false} UniqueSubst(f: Forest, x: nat, g: Forest)
    requires Unique(f) && Unique(g) && Ids(g) !! Ids(Subst(f, x, Nil))
    ensures Unique(Subst(f, x, g))
  {
    if f.Node? {
      if f.id == x {
        UniqueAppend(g, f.next);
      } else {
        UniqueSubst(f.kids, x, g);
        UniqueSubst(f.next, x, g);
      }
    }
  }

  lemma {:induction false} CellsUnique(f: Forest)
    requires Unique(f)
    ensures Unique(Cells(f))
  {
    if f.Node? {
      CellsUnique(f.kids);
      CellsUnique(f.next);
      UniqueAppend(if IsCell(f.kind) then f.kids else Cells(f.kids), Cells(f.next));
    }
  }

  // ---------- one table, edited in place ----------

  /** linearizeTable: detach every collected node, put them before the table in order, and
      remove the table. */
  method LinearizeTable(doc: Document, t: nat)
    requires doc.Valid() && t in Ids(doc.top)
    modifies doc`top
    ensures doc.Valid() && doc.top == Subst(old(doc.top), t, Cells(Find(old(doc.top), t).kids))
  {
    ghost var f := doc.top;
    var table := Find(doc.top, t);
    var content := Cells(table.kids);
    SubstSelf(f, t);
    CellsUnique(table.kids);

    var c := content;
    ghost var ks := table.kids;
    while c.Node?
      invariant doc.Valid() && doc.top == Subst(f, t, Node(t, table.kind, ks, Nil))
      invariant Ids(c) <= Ids(content)
      decreases c
    {
      WithoutUnder(f, t, c.id, table.kind, ks);
      doc.RemoveChild(c.id);
      ks := Without(ks, {c.id});
      c := c.next;
    }

    c := content;
    ghost var moved := Nil;
    while c.Node?
      invariant doc.top == Subst(f, t, Append(moved, Node(t, table.kind, ks, Nil)))
      invariant content == Append(moved, c)
      decreases c
    {
      InsertBefore(doc, Node(c.id, c.kind, c.kids, Nil), t, f, moved, table.kind, ks);
      AppendAssoc(moved, Node(c.id, c.kind, c.kids, Nil), c.next);
      AppendAssoc(moved, Node(c.id, c.kind, c.kids, Nil), Node(t, table.kind, ks, Nil));
      moved := Append(moved, Node(c.id, c.kind, c.kids, Nil));
      c := c.next;
    }
    SubstOver(f, t, content, table.kind, ks, Nil);
    WithoutOne(doc.top, t);
    UniqueSubst(f, t, content);
    doc.top := Subst(doc.top, t, Nil);
  }

  /** parent.InsertBefore(n, ref) for a detached node `n`. */
  method InsertBefore(doc: Document, n: Forest, ref: nat,
                      ghost f: Forest, ghost moved: Forest, ghost k: Kind, ghost ks: Forest)
    requires n.Node? && n.next == Nil
    requires ref in Ids(f) && ref !in Ids(moved)
    requires doc.top == Subst(f, ref, Append(moved, Node(ref, k, ks, Nil)))
    modifies doc`top
    ensures doc.top == Subst(old(doc.top), ref, Append(n, Find(old(doc.top), ref)))
    ensures doc.top == Subst(f, ref, Append(moved, Append(n, Node(ref, k, ks, Nil))))
  {
    FindOver(f, ref, moved, k, ks);
    SubstOver(f, ref, moved, k, ks, Append(n, Node(ref, k, ks, Nil)));
    doc.top := Subst(doc.top, ref, Append(n, Find(doc.top, ref)));
  }

  method UnwrapLayoutTables(doc: Document, pres: string -> bool)
    requires doc.Valid()
    modifies doc`top
    ensures doc.Valid() && doc.top == Flat(old(doc.top), pres)
  {
    var tables := TablesPost(doc.top);
    ghost var f := doc.top;
    for n := 0 to |tables|
      invariant doc.Valid() && Run(f, tables, pres) == Run(doc.top, tables[n..], pres)
    {
      var t := tables[n];
      var node := Find(doc.top, t);
      if node.Node? && IsLayout(node.kind, node.kids, pres) {
        LinearizeTable(doc, t);
      }
      assert tables[n..][1..] == tables[n + 1..];
    }
    RunIsFlat(f, pres);
  }

  // ---------- the list-driven pass is the bottom-up rewrite ----------

  /** Tables listed from the right part leave the left part alone. */
  lemma {:induction false} RunRight(g: Forest, f: Forest, ts: seq<nat>, pres: string -> bool)
    requires forall t :: t in ts ==> t !in Ids(g)
    ensures Run(Append(g, f), ts, pres) == Append(g, Run(f, ts, pres))
    decreases |ts|
  {
    if ts != [] {
      FindAppend(g, f, ts[0]);
      SubstAppend(g, f, ts[0], Cells(if Find(f, ts[0]).Node? then Find(f, ts[0]).kids else Nil));
      RunRight(g, LinearizeIf(f, ts[0], pres), ts[1..], pres);
    }
  }

  /** Tables listed from under a node leave the node and its later siblings alone. */
  lemma {:induction false} RunUnder(i: nat, k: Kind, kids: Forest, next: Forest, ts: seq<nat>, pres: string -> bool)
    requires i !in Ids(kids) && i !in ts && Ids(kids) !! Ids(next)
    requires forall t :: t in ts ==> t !in Ids(next)
    ensures Run(Node(i, k, kids, next), ts, pres) == Node(i, k, Run(kids, ts, pres), next)
    decreases |ts|
  {
    if ts != [] {
      RunUnder(i, k, LinearizeIf(kids, ts[0], pres), next, ts[1..], pres);
    }
  }

  lemma {:induction false} RunSplit(f: Forest, ts: seq<nat>, us: seq<nat>, pres: string -> bool)
    ensures Run(f, ts + us, pres) == Run(Run(f, ts, pres), us, pres)
    decreases |ts|
  {
    if ts == [] {
      assert ts + us == us;
    } else {
      assert (ts + us)[1..] == ts[1..] + us;
      RunSplit(LinearizeIf(f, ts[0], pres), ts[1..], us, pres);
    }
  }

  lemma {:induction false} RunIsFlat(f: Forest, pres: string -> bool)
    requires Unique(f)
    ensures Run(f, TablesPost(f), pres) == Flat(f, pres)
  {
    if f.Node? {
      var i, k, kids, next := f.id, f.kind, f.kids, f.next;
      var own := if Is(k, Table) then [i] else [];
      RunIsFlat(kids, pres);
      RunIsFlat(next, pres);
      RunSplit(f, TablesPost(kids) + own, TablesPost(next), pres);
      RunSplit(f, TablesPost(kids), own, pres);
      RunUnder(i, k, kids, next, TablesPost(kids), pres);
      var ks := Flat(kids, pres);
      var here := if IsLayout(k, ks, pres) then Cells(ks) else Node(i, k, ks, Nil);
      RunOwn(i, k, ks, next, pres);
      RunRight(here, next, TablesPost(next), pres);
    }
  }

  lemma RunOwn(i: nat, k: Kind, ks: Forest, next: Forest, pres: string -> bool)
    requires i !in Ids(next)
    ensures Run(Node(i, k, ks, next), if Is(k, Table) then [i] else [], pres) ==
            Append(if IsLayout(k, ks, pres) then Cells(ks) else Node(i, k, ks, Nil), next)
  {
    if Is(k, Table) {
      var n := Node(i, k, ks, next);
      assert Run(n, [i], pres) == LinearizeIf(n, i, pres);
    }
  }

  // ---------- what flattening achieves ----------

  lemma {:induction false} NoLayoutAppend(f: Forest, g: Forest, pres: string -> bool)
    ensures NoLayout(Append(f, g), pres) <==> NoLayout(f, pres) && NoLayout(g, pres)
  {
    if f.Node? { NoLayoutAppend(f.next, g, pres); }
  }

  lemma {:induction false} NoLayoutCells(f: Forest, pres: string -> bool)
    requires NoLayout(f, pres)
    ensures NoLayout(Cells(f), pres)
  {
    if f.Node? {
      NoLayoutCells(f.kids, pres);
      NoLayoutCells(f.next, pres);
      NoLayoutAppend(if IsCell(f.kind) then f.kids else Cells(f.kids), Cells(f.next), pres);
    }
  }

  /** No layout table is left anywhere. */
  lemma {:induction false} FlatHasNoLayout(f: Forest, pres: string -> bool)
    ensures NoLayout(Flat(f, pres), pres)
  {
    if f.Node? {
      FlatHasNoLayout(f.kids, pres);
      FlatHasNoLayout(f.next, pres);
      NoLayoutCells(Flat(f.kids, pres), pres);
      NoLayoutAppend(Cells(Flat(f.kids, pres)), Flat(f.next, pres), pres);
    }
  }

  /** A second run changes nothing. */
  lemma {:induction false} FlatIsIdempotent(f: Forest, pres: string -> bool)
    ensures NoLayout(f, pres) ==> Flat(f, pres) == f
    ensures Flat(Flat(f, pres), pres) == Flat(f, pres)
    decreases f, 1
  {
    FlatHasNoLayout(f, pres);
    FlatFixed(Flat(f, pres), pres);
    if NoLayout(f, pres) { FlatFixed(f, pres); }
  }

  lemma {:induction false} FlatFixed(f: Forest, pres: string -> bool)
    requires NoLayout(f, pres)
    ensures Flat(f, pres) == f
  {
    if f.Node? { FlatFixed(f.kids, pres); FlatFixed(f.next, pres); }
  }

  ghost predicate Subsequence(a: seq<nat>, b: seq<nat>) {
    a == [] || (b != [] && (Subsequence(a, b[1..]) || (a[0] == b[0] && Subsequence(a[1..], b[1..]))))
  }

  lemma {:induction false} SubsequenceConcat(a: seq<nat>, b: seq<nat>, c: seq<nat>, d: seq<nat>)
    requires Subsequence(a, b) && Subsequence(c, d)
    ensures Subsequence(a + c, b + d)
    decreases |b|
  {
    if b == [] {
      assert a + c == c && b + d == d;
    } else {
      assert (b + d)[1..] == b[1..] + d;
      if Subsequence(a, b[1..]) {
        SubsequenceConcat(a, b[1..], c, d);
      } else {
        assert (a + c)[1..] == a[1..] + c;
        SubsequenceConcat(a[1..], b[1..], c, d);
      }
    }
  }

  lemma {:induction false} SubsequenceSelf(a: seq<nat>)
    ensures Subsequence(a, a)
  {
    if a != [] { SubsequenceSelf(a[1..]); }
  }

  lemma {:induction false} SubsequenceTrans(a: seq<nat>, b: seq<nat>, c: seq<nat>)
    requires Subsequence(a, b) && Subsequence(b, c)
    ensures Subsequence(a, c)
    decreases |c|
  {
    if a != [] {
      if Subsequence(b, c[1..]) { SubsequenceTrans(a, b, c[1..]); }
      else if Subsequence(a, b[1..]) { SubsequenceTrans(a, b[1..], c[1..]); }
      else { SubsequenceTrans(a[1..], b[1..], c[1..]); }
    }
  }

  lemma DocIdsNode(i: nat, k: Kind, kids: Forest, next: Forest)
    ensures DocIds(Node(i, k, kids, next)) == [i] + (DocIds(kids) + DocIds(next))
  {
  }

  lemma CellsOf(f: Forest)
    requires f.Node?
    ensures DocIds(Cells(f)) == DocIds(if IsCell(f.kind) then f.kids else Cells(f.kids)) + DocIds(Cells(f.next))
  {
    hide DocIds;
    DocIdsAppend(if IsCell(f.kind) then f.kids else Cells(f.kids), Cells(f.next));
  }

  lemma {:induction false} CellsInOrder(f: Forest)
    ensures Subsequence(DocIds(Cells(f)), DocIds(f))
  {
    if f.Node? {
      var here := if IsCell(f.kind) then f.kids else Cells(f.kids);
      CellsInOrder(f.kids);
      CellsInOrder(f.next);
      SubsequenceSelf(DocIds(f.kids));
      CellsOf(f);
      DocIdsNode(f.id, f.kind, f.kids, f.next);
      NothingIn([f.id]);
      hide Subsequence, DocIds, Cells;
      SubsequenceConcat(DocIds(here), DocIds(f.kids), DocIds(Cells(f.next)), DocIds(f.next));
      SubsequenceConcat([], [f.id], DocIds(Cells(f)), DocIds(f.kids) + DocIds(f.next));
      assert [] + DocIds(Cells(f)) == DocIds(Cells(f));
    }
  }

  lemma NothingIn(b: seq<nat>)
    ensures Subsequence([], b)
  {
  }

  /** Nothing is kept twice and nothing changes places: the surviving nodes stand in the
      document order they had. */
  lemma {:induction false} FlatKeepsOrder(f: Forest, pres: string -> bool)
    ensures Subsequence(DocIds(Flat(f, pres)), DocIds(f))
  {
    if f.Node? {
      var ks, fs := Flat(f.kids, pres), Flat(f.next, pres);
      FlatKeepsOrder(f.kids, pres);
      FlatKeepsOrder(f.next, pres);
      SubsequenceSelf([f.id]);
      if IsLayout(f.kind, ks, pres) {
        CellsInOrder(ks);
        SubsequenceTrans(DocIds(Cells(ks)), DocIds(ks), DocIds(f.kids));
        DocIdsAppend(Cells(ks), fs);
        SubsequenceConcat([], [f.id], DocIds(Cells(ks)), DocIds(f.kids));
        assert [] + DocIds(Cells(ks)) == DocIds(Cells(ks));
        SubsequenceConcat(DocIds(Cells(ks)), [f.id] + DocIds(f.kids), DocIds(fs), DocIds(f.next));
      } else {
        SubsequenceConcat([f.id], [f.id], DocIds(ks), DocIds(f.kids));
        SubsequenceConcat([f.id] + DocIds(ks), [f.id] + DocIds(f.kids), DocIds(fs), DocIds(f.next));
      }
    }
  }

  // ---------- what flattening keeps ----------

  datatype Item = Item(id: nat, kind: Kind)

  /** The nodes of a tree in document order. */
  function Items(f: Forest): seq<Item> {
    match f
    case Nil => []
    case Node(i, k, kids, next) => [Item(i, k)] + Items(kids) + Items(next)
  }

  /** How many dissolved tables wait for a topmost cell below a node, when `waiting` do above. */
  function Down(dissolved: bool, k: Kind, waiting: nat): nat {
    if dissolved then waiting + 1
    else if waiting > 0 && (Is(k, Td) || Is(k, Th)) then waiting - 1
    else waiting
  }

  /** The nodes that survive, read off the input: `waiting` counts the dissolved tables around a
      node for which no topmost cell has been entered yet. A node survives when it is no dissolved
      table and none is waiting. */
  function Survivors(f: Forest, waiting: nat, pres: string -> bool): seq<Item>
    decreases f, 0
  {
    match f
    case Nil => []
    case Node(i, k, kids, next) =>
      var gone := Dissolves(k, kids, pres);
      (if gone || waiting > 0 then [] else [Item(i, k)])
      + Survivors(kids, Down(gone, k, waiting), pres) + Survivors(next, waiting, pres)
  }

  /** Is this table a layout table by the time it is looked at, its inner tables being done? It is
      when its role says so, or when no header cell is left in it. */
  predicate Dissolves(k: Kind, kids: Forest, pres: string -> bool)
    decreases kids, 1
  {
    && Is(k, Table)
    && (|| (exists i :: 0 <= i < |k.attrs| && k.attrs[i].key == Role && pres(k.attrs[i].val))
        || (forall e :: e in Survivors(kids, 0, pres) ==> !Is(e.kind, Th)))
  }

  /** Entering topmost cells `n` times. */
  function Peel(f: Forest, n: nat): Forest
    decreases n
  {
    if n == 0 then f else Peel(Cells(f), n - 1)
  }

  lemma {:induction false} CellsAppend(f: Forest, g: Forest)
    ensures Cells(Append(f, g)) == Append(Cells(f), Cells(g))
  {
    if f.Node? {
      CellsAppend(f.next, g);
      AppendAssoc(if IsCell(f.kind) then f.kids else Cells(f.kids), Cells(f.next), Cells(g));
    }
  }

  lemma {:induction false} PeelAppend(f: Forest, g: Forest, n: nat)
    ensures Peel(Append(f, g), n) == Append(Peel(f, n), Peel(g, n))
    decreases n
  {
    if n > 0 {
      CellsAppend(f, g);
      PeelAppend(Cells(f), Cells(g), n - 1);
    }
  }

  lemma PeelNode(i: nat, k: Kind, ks: Forest, fs: Forest, n: nat)
    requires n > 0
    ensures Peel(Node(i, k, ks, fs), n) == Append(Peel(ks, if IsCell(k) then n - 1 else n), Peel(fs, n))
  {
    hide Append;
    PeelAppend(if IsCell(k) then ks else Cells(ks), Cells(fs), n - 1);
  }

  lemma PeelOnce(f: Forest, n: nat)
    ensures Peel(Cells(f), n) == Peel(f, n + 1)
  {
  }

  lemma {:induction false} PeelNil(n: nat)
    ensures Peel(Nil, n) == Nil
  {
    if n > 0 { PeelNil(n - 1); }
  }

  lemma {:induction false} ItemsAppend(f: Forest, g: Forest)
    ensures Items(Append(f, g)) == Items(f) + Items(g)
  {
    if f.Node? { ItemsAppend(f.next, g); }
  }

  lemma {:induction false} HasMeans(f: Forest, t: Tag)
    ensures Has(f, t) <==> exists e :: e in Items(f) && Is(e.kind, t)
  {
    if f.Node? {
      HasMeans(f.kids, t);
      HasMeans(f.next, t);
      assert Items(f) == [Item(f.id, f.kind)] + Items(f.kids) + Items(f.next);
      if Is(f.kind, t) { assert Item(f.id, f.kind) in Items(f); }
      if e :| e in Items(f.kids) && Is(e.kind, t) { assert e in Items(f); }
      if e :| e in Items(f.next) && Is(e.kind, t) { assert e in Items(f); }
    }
  }

  lemma DissolvesMeans(k: Kind, kids: Forest, pres: string -> bool)
    requires Items(Flat(kids, pres)) == Survivors(kids, 0, pres)
    ensures IsLayout(k, Flat(kids, pres), pres) <==> Dissolves(k, kids, pres)
  {
    HasMeans(Flat(kids, pres), Th);
  }

  /** What is left of a node and its later siblings after flattening and entering `n` cells. */
  lemma PeelFlat(i: nat, k: Kind, kids: Forest, next: Forest, n: nat, pres: string -> bool)
    ensures var ks, fs := Flat(kids, pres), Flat(next, pres); var gone := IsLayout(k, ks, pres);
      Items(Peel(Flat(Node(i, k, kids, next), pres), n)) ==
        (if gone || n > 0 then [] else [Item(i, k)]) + Items(Peel(ks, Down(gone, k, n))) + Items(Peel(fs, n))
  {
    hide Append, Cells, IsLayout, Flat, Peel, Items;
    var ks, fs := Flat(kids, pres), Flat(next, pres);
    FlatNode(i, k, kids, next, pres);
    if IsLayout(k, ks, pres) {
      PeelAppend(Cells(ks), fs, n);
      PeelOnce(ks, n);
      ItemsAppend(Peel(ks, n + 1), Peel(fs, n));
    } else if n > 0 {
      PeelNode(i, k, ks, fs, n);
      ItemsAppend(Peel(ks, if IsCell(k) then n - 1 else n), Peel(fs, n));
    } else {
      PeelZero(ks);
      PeelZero(fs);
      PeelZero(Node(i, k, ks, fs));
      ItemsNode(i, k, ks, fs);
    }
  }

  lemma FlatNode(i: nat, k: Kind, kids: Forest, next: Forest, pres: string -> bool)
    ensures var ks, fs := Flat(kids, pres), Flat(next, pres);
      Flat(Node(i, k, kids, next), pres) == if IsLayout(k, ks, pres) then Append(Cells(ks), fs) else Node(i, k, ks, fs)
  {
  }

  lemma ItemsNode(i: nat, k: Kind, ks: Forest, fs: Forest)
    ensures Items(Node(i, k, ks, fs)) == [Item(i, k)] + Items(ks) + Items(fs)
  {
  }

  lemma {:induction false} PeelKeeps(f: Forest, n: nat, pres: string -> bool)
    ensures Items(Peel(Flat(f, pres), n)) == Survivors(f, n, pres)
    decreases f
  {
    hide Flat, Items, Dissolves, IsLayout, Peel;
    if f.Node? {
      PeelZero(Flat(f.kids, pres));
      PeelKeeps(f.kids, 0, pres);
      DissolvesMeans(f.kind, f.kids, pres);
      PeelKeeps(f.kids, Down(Dissolves(f.kind, f.kids, pres), f.kind, n), pres);
      PeelKeeps(f.next, n, pres);
      PeelFlat(f.id, f.kind, f.kids, f.next, n, pres);
    } else {
      NoItems(pres);
      PeelNil(n);
    }
  }

  lemma NoItems(pres: string -> bool)
    ensures Flat(Nil, pres) == Nil && Items(Nil) == []
  {
  }

  lemma PeelZero(f: Forest)
    ensures Peel(f, 0) == f
  {
  }

  /** The flattened tree consists of the survivors, once each and in order, with their kinds. */
  lemma FlatKeepsExactly(f: Forest, pres: string -> bool)
    ensures Items(Flat(f, pres)) == Survivors(f, 0, pres)
  {
    PeelKeeps(f, 0, pres);
  }

  // ---------- when flattening loses text ----------

  function Own(k: Kind): string { if k.Text? then k.data else "" }

  lemma SolidText(i: nat, k: Kind, kids: Forest, next: Forest)
    ensures Solid(TextOf(Node(i, k, kids, next))) == Solid(Own(k)) + Solid(TextOf(kids)) + Solid(TextOf(next))
  {
    hide Solid;
    SolidConcat(Own(k), TextOf(kids));
    SolidConcat(Own(k) + TextOf(kids), TextOf(next));
  }

  /** The text of a list of nodes. */
  function Texts(s: seq<Item>): string { if s == [] then "" else Own(s[0].kind) + Texts(s[1..]) }

  lemma {:induction false} TextsConcat(a: seq<Item>, b: seq<Item>)
    ensures Texts(a + b) == Texts(a) + Texts(b)
  {
    if a == [] {
      assert a + b == b;
    } else {
      assert (a + b)[1..] == a[1..] + b;
      TextsConcat(a[1..], b);
    }
  }

  lemma {:induction false} ItemTexts(f: Forest)
    ensures Texts(Items(f)) == TextOf(f)
  {
    if f.Node? {
      var e := Item(f.id, f.kind);
      ItemTexts(f.kids);
      ItemTexts(f.next);
      TextsConcat([e] + Items(f.kids), Items(f.next));
      TextsConcat([e], Items(f.kids));
      assert [e][1..] == [];
    }
  }

  /** No dissolved table has text but white space outside its cells: read off the input, with
      `waiting` as in Survivors. */
  predicate Lossless(f: Forest, waiting: nat, pres: string -> bool) {
    match f
    case Nil => true
    case Node(_, k, kids, next) =>
      && (waiting > 0 ==> Blank(Own(k)))
      && Lossless(kids, Down(Dissolves(k, kids, pres), k, waiting), pres) && Lossless(next, waiting, pres)
  }

  /** The visible text of the survivors from a node on. */
  lemma SurvivorText(i: nat, k: Kind, kids: Forest, next: Forest, waiting: nat, pres: string -> bool)
    ensures var below := Survivors(kids, Down(Dissolves(k, kids, pres), k, waiting), pres);
      Solid(Texts(Survivors(Node(i, k, kids, next), waiting, pres))) ==
        (if waiting > 0 then "" else Solid(Own(k))) + Solid(Texts(below)) + Solid(Texts(Survivors(next, waiting, pres)))
  {
    TableHasNoOwn(k, kids, pres);
    hide Solid, Dissolves, Texts, Own;
    var gone := Dissolves(k, kids, pres);
    var below, rest := Survivors(kids, Down(gone, k, waiting), pres), Survivors(next, waiting, pres);
    var here := if gone || waiting > 0 then [] else [Item(i, k)];
    TextsConcat(here + below, rest);
    TextsConcat(here, below);
    OneText(Item(i, k));
    SolidConcat(Texts(here) + Texts(below), Texts(rest));
    SolidConcat(Texts(here), Texts(below));
  }

  lemma OneText(e: Item)
    ensures Texts([e]) == Own(e.kind) && Texts([]) == "" && Solid("") == ""
  {
    assert [e][1..] == [];
  }

  lemma TableHasNoOwn(k: Kind, kids: Forest, pres: string -> bool)
    ensures Dissolves(k, kids, pres) ==> Solid(Own(k)) == ""
  {
  }

  lemma {:induction false} TextLaw(f: Forest, waiting: nat, pres: string -> bool)
    ensures |Solid(Texts(Survivors(f, waiting, pres)))| <= |Solid(TextOf(f))|
    ensures |Solid(Texts(Survivors(f, waiting, pres)))| == |Solid(TextOf(f))| <==> Lossless(f, waiting, pres)
    ensures Lossless(f, waiting, pres) ==> Solid(Texts(Survivors(f, waiting, pres))) == Solid(TextOf(f))
    decreases f
  {
    hide Solid, TextOf, Texts, Survivors, Dissolves, Own, Down;
    if f.Node? {
      TextLaw(f.kids, Down(Dissolves(f.kind, f.kids, pres), f.kind, waiting), pres);
      TextLaw(f.next, waiting, pres);
      SolidText(f.id, f.kind, f.kids, f.next);
      SurvivorText(f.id, f.kind, f.kids, f.next, waiting, pres);
    } else {
      NothingSurvives(waiting, pres);
    }
  }

  lemma NothingSurvives(waiting: nat, pres: string -> bool)
    ensures Texts(Survivors(Nil, waiting, pres)) == "" && TextOf(Nil) == ""
  {
  }

  /** Flattening keeps every visible character, once and in order, exactly when no dissolved
      table has text outside its cells (a caption, say). */
  lemma FlatKeepsTextIff(f: Forest, pres: string -> bool)
    ensures Solid(TextOf(Flat(f, pres))) == Solid(TextOf(f)) <==> Lossless(f, 0, pres)
  {
    FlatKeepsExactly(f, pres);
    ItemTexts(Flat(f, pres));
    TextLaw(f, 0, pres);
  }

  /** The loss is real: the caption of a layout table disappears. */
  lemma CaptionIsLost(pres: string -> bool)
    ensures var caption := Node(1, Elem(OtherTag("caption"), []), Node(2, Text("Sale"), Nil, Nil), Nil);
      Flat(Node(0, Elem(Table, []), caption, Nil), pres) == Nil
  {
    var caption := Node(1, Elem(OtherTag("caption"), []), Node(2, Text("Sale"), Nil, Nil), Nil);
    assert Flat(caption.kids, pres) == caption.kids;
    assert Flat(caption, pres) == caption;
    assert !Has(caption.kids, Th) && !Has(caption, Th);
    assert Cells(caption.kids) == Nil && Cells(caption) == Nil;
  }
}
