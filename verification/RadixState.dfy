/** Which memories represent a routing tree, and the updates that keep them so. */
module RadixState {
  import opened Prelude
  import opened RadixTree
  import opened RadixMemory
  import opened RadixLookup
  import opened RadixUpdate

  function Zeros(w: nat): Key { seq(w, _ => false) }
  function Ones(w: nat): Key { seq(w, _ => true) }

  predicate Sentinels(t: Tree, w: nat) {
    && 1 <= w
    && Zeros(w) in Table(t) && Table(t)[Zeros(w)].root
    && Ones(w) in Table(t) && Table(t)[Ones(w)].root
    && (forall k :: k in Table(t) && Table(t)[k].root ==> k == Zeros(w) || k == Ones(w))
  }

  /** Every route's leaf has the internal node allocated with it in use. */
  predicate Paired(mem: Memory, top: Ptr) {
    forall a :: a in mem && mem[a].LeafCell? && !mem[a].root
                ==> a + 1 in mem && mem[a + 1].InnerCell? && a + 1 != top
  }

  /** The memory is exactly this tree, correctly linked, with a PATRICIA shape and both sentinels in place. */
  predicate Represents(mem: Memory, top: Ptr, tree: Tree, w: nat) {
    && Exactly(mem, tree) && tree.a == top
    && Shaped(tree, w, []) && tree.Node? && tree.q == []
    && Sentinels(tree, w)
  }

  /** Where a block goes in a list kept longest mask first; the mask itself is not in the list. */
  method Position(mk: seq<Mask>, m: Mask) returns (i: nat)
    requires forall j :: 0 <= j < |mk| ==> mk[j].idx != m.idx
    ensures i <= |mk| && (forall j :: 0 <= j < i ==> mk[j].idx > m.idx) && (i < |mk| ==> mk[i].idx < m.idx)
  {
    i := 0;
    while i < |mk| && -1 - mk[i].idx < -1 - m.idx
      invariant 0 <= i <= |mk|
      invariant forall j :: 0 <= j < i ==> mk[j].idx > m.idx
    {
      i := i + 1;
    }
  }

  /** Only the all-zero key can be a route that covers the all-zero destination. */
  lemma NoRouteCoversZeros(t: Tree, w: nat)
    requires Shaped(t, w, []) && Sentinels(t, w)
    ensures forall k :: k in RoutesOf(t) ==> !Covers(Zeros(w), k, RoutesOf(t)[k])
  {
    forall k | k in RoutesOf(t) && Covers(Zeros(w), k, RoutesOf(t)[k]) ensures false {
      KeyExtends(t, w, [], k);
      var p := MaskLen(w, RoutesOf(t)[k]);
      assert Zeros(w)[..p] == k[..p];
      CoversSame(w, Zeros(w), Zeros(w), k, p);
    }
  }

  /** Search for a key ends at a sentinel with that key exactly if the key is all zeros or all ones. */
  lemma SentinelsFound(t: Tree, w: nat, v: Key, c: Ctx, s: Tree)
    requires OnPath(t, w, v, c, s) && Sentinels(t, w) && s == RadixTree.Search(t, v) && s.Leaf?
    ensures |s.key| == w && (s.mask.Some? ==> s.mask.value <= w && !s.root)
    ensures v == Zeros(w) || v == Ones(w) <==> s.key == v && s.root
    ensures v == Zeros(w) ==> forall k :: k in RoutesOf(t) ==> !Covers(v, k, RoutesOf(t)[k])
  {
    hide Table, TableCtx, Shaped, ShapedCtx, Annotated, AnnotatedCtx, Anns, Plug, RoutesOf, RadixTree.Search;
    FocusTree(t, w, c, s);
    LeafKey(s, w, HolePre(c));
    LeafEntry(s, s.key);
    SearchExact(t, w, v);
    NoRouteCoversZeros(t, w);
  }

  /** One node up the path. */
  lemma StepUp(t: Tree, w: nat, v: Key, c: Ctx, s: Tree, k: Key)
    requires OnPath(t, w, v, c, s) && c != Top && k in Table(s)
    ensures var n := Parent(c, s);
            OnPath(t, w, v, c.up, n) && n.Node? && n.a == c.a && |n.q| == HoleLo(c) && k in Table(n)
  {
    hide Shaped, Annotated;
    ParentPlugs(c, s);
  }

  lemma SuffixSame(x: Key, y: Key, off: nat)
    requires |x| == |y| && off <= |x|
    ensures x[off..] == y[off..] <==> SameFrom(x, y, off)
  {
    if x[off..] == y[off..] {
      assert forall j :: off <= j < |x| ==> x[j] == x[off..][j - off] && y[j] == y[off..][j - off];
    }
  }

  /** The root tests the first bit, so search ends at a leaf that agrees with `v` in it. */
  lemma FirstBitAgrees(t: Tree, w: nat, v: Key)
    requires Shaped(t, w, []) && t.Node? && t.q == [] && |v| == w
    ensures var s := RadixTree.Search(t, v); s.Leaf? && |s.key| == w && s.key[0] == v[0]
  {
    var child := if v[0] then t.r else t.l;
    SearchLeaf(child, w, t.q + [v[0]], v);
    KeyExtends(child, w, t.q + [v[0]], RadixTree.Search(child, v).key);
  }

  lemma {:induction false} RootStays(c: Ctx, s: Tree, s': Tree)
    requires c != Top
    ensures Plug(c, s).Node? && Plug(c, s').Node? && Plug(c, s').q == Plug(c, s).q
  {
    match c
    case InL(a, q, mk, up, r) => if up != Top { RootStays(up, Node(a, q, s, r, mk), Node(a, q, s', r, mk)); }
    case InR(a, q, mk, up, l) => if up != Top { RootStays(up, Node(a, q, l, s, mk), Node(a, q, l, s', mk)); }
  }

  predicate SameKinds(mem: Memory, mem': Memory) {
    forall a :: a in mem && a in mem'
        ==> mem'[a].LeafCell? == mem[a].LeafCell? && (mem[a].LeafCell? ==> mem'[a].root == mem[a].root)
  }

  /** Relinking an edge through a new pair of nodes yields the joined tree. */
  lemma LinkPairHolds(mem: Memory, v: Key, b: nat, a: Ptr, c: Ctx, s: Tree)
    requires Exactly(mem, Plug(c, s)) && c != Top && Follows(c, v)
    requires c.a in mem && mem[c.a] == HoleCell(c, s.a) && s.a in mem && mem[s.a] == CellOf(s, c.a) && c.a != s.a
    requires b < |v| && a !in mem && a + 1 !in mem
    ensures var pc, xc := mem[c.a], mem[s.a];
            var mem' := mem[a := LeafCell(a + 1, -1, v, None, false, None)]
                           [a + 1 := if v[b] then InnerCell(c.a, b, s.a, a, []) else InnerCell(c.a, b, a, s.a, [])]
                           [c.a := if v[pc.b] then pc.(r := a + 1) else pc.(l := a + 1)]
                           [s.a := xc.(p := a + 1)];
            && Exactly(mem', Plug(c, Join(a + 1, v, b, s, Leaf(a, v, None, false, None), [])))
            && mem'.Keys == mem.Keys + {a, a + 1} && SameKinds(mem, mem')
  {
    hide Holds, HoldsCtx, Unaliased, UnaliasedCtx, Addrs, AddrsCtx, Plug;
    var pc, xc := mem[c.a], mem[s.a];
    var leaf := Leaf(a, v, None, false, None);
    var n := Join(a + 1, v, b, s, leaf, []);
    var mem1 := mem[a := CellOf(leaf, a + 1)][a + 1 := CellOf(n, c.a)];
    var mem' := mem1[c.a := HoleCell(c, a + 1)][s.a := CellOf(s, a + 1)];
    assert HoleCell(c, a + 1) == if v[pc.b] then pc.(r := a + 1) else pc.(l := a + 1);
    Spliced(mem, mem', c, s, n, leaf);
  }

  lemma JoinRepresents(mem: Memory, mem': Memory, top: Ptr, t: Tree, w: nat, c: Ctx, s: Tree, v: Key, b: nat, a: Ptr)
    requires Represents(mem, top, t, w) && Plug(c, s) == t && c != Top
    requires |v| == w && Diverges(s, v, b) && HoleLo(c) < b
    requires Exactly(mem', Plug(c, Join(a + 1, v, b, s, Leaf(a, v, None, false, None), [])))
    ensures var n := Join(a + 1, v, b, s, Leaf(a, v, None, false, None), []);
            Represents(mem', top, Plug(c, n), w) && Table(Plug(c, n)) == Table(t)[v := Entry(None, false)]
  {
    var leaf := Leaf(a, v, None, false, None);
    var n := Join(a + 1, v, b, s, leaf, []);
    PlugShaped(c, s, w);
    JoinShaped(c, s, w, v, b, a + 1, leaf, []);
    JoinTable(c, s, n, w, v, Entry(None, false));
    RootStays(c, s, n);
    RootOfPlug(c, s, n);
    SentinelsKept(t, Plug(c, n), w, v, None);
  }

  lemma SentinelsKept(t: Tree, t': Tree, w: nat, v: Key, m: Option<nat>)
    requires Sentinels(t, w) && v !in Table(t) && Table(t') == Table(t)[v := Entry(m, false)]
    ensures Sentinels(t', w)
  {
  }

  lemma PairedKept(mem: Memory, mem': Memory, top: Ptr, a: Ptr)
    requires mem'.Keys == mem.Keys + {a, a + 1} && SameKinds(mem, mem') && a !in mem && a + 1 !in mem
    requires mem'[a + 1].InnerCell? && top in mem
    ensures Paired(mem, top) ==> Paired(mem', top)
  {
  }

  lemma FreshHead(w: nat, base: Ptr)
    requires 1 <= w
    ensures var zero, one := Leaf(base, Zeros(w), None, true, None), Leaf(base + 2, Ones(w), None, true, None);
            var t := Node(base + 1, [], zero, one, []);
            var mem := map[base := LeafCell(base + 1, -1, Zeros(w), None, true, None),
                           base + 1 := InnerCell(base + 1, 0, base, base + 2, []),
                           base + 2 := LeafCell(base + 1, -1, Ones(w), None, true, None)];
            Represents(mem, base + 1, t, w) && Annotated(t, -1, None) && RoutesOf(t) == map[]
  {
    var zero, one := Leaf(base, Zeros(w), None, true, None), Leaf(base + 2, Ones(w), None, true, None);
    var t := Node(base + 1, [], zero, one, []);
    var mem := map[base := CellOf(zero, base + 1), base + 1 := CellOf(t, base + 1), base + 2 := CellOf(one, base + 1)];
    assert Holds(mem, zero, base + 1) && Holds(mem, one, base + 1);
    assert Holds(mem, t, base + 1);
    assert Addrs(zero) == {base} && Addrs(one) == {base + 2};
    assert Addrs(t) == {base, base + 1, base + 2} == mem.Keys;
    assert Unaliased(zero) && Unaliased(one);
    assert Unaliased(t);
    assert Exactly(mem, t);
    assert [] + [false] <= Zeros(w) && [] + [true] <= Ones(w);
    assert Anns(zero, None) == {} && Anns(one, None) == {};
    assert forall k :: k in Table(t) ==> Table(t)[k].root;
  }

  /** Overwriting one node, keeping its links and its keys, keeps the representation. */
  lemma CellRepresents(mem: Memory, top: Ptr, w: nat, c: Ctx, n: Tree, n': Tree)
    requires Represents(mem, top, Plug(c, n), w)
    requires n'.a == n.a && (n.Node? <==> n'.Node?) && (n.Node? ==> n'.l == n.l && n'.r == n.r && n'.q == n.q)
    requires Shaped(n', w, HolePre(c))
    requires n.Leaf? ==> n'.key == n.key && n'.root == n.root
    ensures n.a in mem
    ensures Represents(mem[n.a := CellOf(n', ParentAt(c, n.a))], top, Plug(c, n'), w)
    ensures SameKinds(mem, mem[n.a := CellOf(n', ParentAt(c, n.a))])
    ensures Table(Plug(c, n')) == TableCtx(c) + Table(n')
  {
    SetCell(mem, c, n, n');
    CellTable(c, n, n', w);
    CellRoot(c, n, n');
    SentinelsSame(Plug(c, n), Plug(c, n'), w);
    CellKinds(mem, c, n, n');
  }

  lemma CellRoot(c: Ctx, n: Tree, n': Tree)
    requires n'.a == n.a && (n.Node? <==> n'.Node?) && (n.Node? ==> n'.q == n.q)
    requires Plug(c, n).Node? && Plug(c, n).q == []
    ensures Plug(c, n').Node? && Plug(c, n').q == []
  {
    if c != Top {
      RootStays(c, n, n');
    }
  }

  lemma CellTable(c: Ctx, n: Tree, n': Tree, w: nat)
    requires Shaped(Plug(c, n), w, []) && Shaped(n', w, HolePre(c))
    requires (n.Node? <==> n'.Node?) && (n.Node? ==> n'.l == n.l && n'.r == n.r)
    requires n.Leaf? ==> n'.key == n.key && n'.root == n.root
    ensures Shaped(Plug(c, n'), w, [])
    ensures Table(Plug(c, n)) == TableCtx(c) + Table(n) && Table(Plug(c, n')) == TableCtx(c) + Table(n')
    ensures Table(Plug(c, n')).Keys == Table(Plug(c, n)).Keys
    ensures forall k :: k in Table(Plug(c, n)) ==> Table(Plug(c, n'))[k].root == Table(Plug(c, n))[k].root
  {
    hide Shaped, ShapedCtx, Table, TableCtx, Plug;
    PlugShaped(c, n, w);
    PlugShaped(c, n', w);
    PlugTable(c, n, w);
    PlugTable(c, n', w);
    SameKeys(n, n');
  }

  lemma SameKeys(n: Tree, n': Tree)
    requires (n.Node? <==> n'.Node?) && (n.Node? ==> n'.l == n.l && n'.r == n.r)
    requires n.Leaf? ==> n'.key == n.key && n'.root == n.root
    ensures Table(n').Keys == Table(n).Keys && forall k :: k in Table(n) ==> Table(n')[k].root == Table(n)[k].root
  {
    if n.Leaf? {
      assert Table(n') == map[n.key := Entry(n'.mask, n.root)] && Table(n) == map[n.key := Entry(n.mask, n.root)];
    }
  }

  lemma CellKinds(mem: Memory, c: Ctx, n: Tree, n': Tree)
    requires Exactly(mem, Plug(c, n))
    requires (n.Node? <==> n'.Node?) && (n.Leaf? ==> n'.root == n.root)
    ensures n.a in mem && SameKinds(mem, mem[n.a := CellOf(n', ParentAt(c, n.a))])
  {
    Focused(mem, c, n);
  }

  lemma MaskRepresents(mem: Memory, top: Ptr, w: nat, c: Ctx, n: Tree, mask: nat)
    requires Represents(mem, top, Plug(c, n), w) && n.Leaf? && !n.root && MaskFits(w, n.key, Some(mask))
    ensures n.a in mem && mem[n.a].LeafCell?
    ensures Represents(mem[n.a := mem[n.a].(mask := Some(mask), b := -1 - mask)], top, Plug(c, n.(mask := Some(mask))),
                       w)
    ensures SameKinds(mem, mem[n.a := mem[n.a].(mask := Some(mask), b := -1 - mask)])
    ensures Table(Plug(c, n.(mask := Some(mask)))) == Table(Plug(c, n))[n.key := Entry(Some(mask), false)]
  {
    var n' := n.(mask := Some(mask));
    Focused(mem, c, n);
    PlugShaped(c, n, w);
    CellRepresents(mem, top, w, c, n, n');
    assert CellOf(n', ParentAt(c, n.a)) == mem[n.a].(mask := Some(mask), b := -1 - mask);
    MaskTable(c, n, w, mask);
  }

  lemma MaskTable(c: Ctx, n: Tree, w: nat, mask: nat)
    requires Shaped(Plug(c, n), w, []) && n.Leaf? && !n.root && MaskFits(w, n.key, Some(mask))
    ensures Table(Plug(c, n.(mask := Some(mask)))) == Table(Plug(c, n))[n.key := Entry(Some(mask), false)]
  {
    PlugShaped(c, n, w);
    CellTable(c, n, n.(mask := Some(mask)), w);
    MapOver(TableCtx(c), n.key, Entry(n.mask, false), Entry(Some(mask), false));
  }

  lemma MapOver<K, V>(m: map<K, V>, k: K, e: V, e': V)
    ensures m + map[k := e'] == (m + map[k := e])[k := e']
  {
  }

  lemma SentinelsSame(t: Tree, t': Tree, w: nat)
    requires Sentinels(t, w) && Table(t').Keys == Table(t).Keys
    requires forall k :: k in Table(t) ==> Table(t')[k].root == Table(t)[k].root
    ensures Sentinels(t', w)
  {
  }

  lemma PairedSame(mem: Memory, mem': Memory, top: Ptr)
    requires mem'.Keys == mem.Keys && SameKinds(mem, mem')
    ensures Paired(mem, top) ==> Paired(mem', top)
  {
  }

  lemma LiftedEntry(c0: Ctx, leaf: Tree, c: Ctx, s: Tree, w: nat)
    requires Shaped(Plug(c0, leaf), w, []) && leaf.Leaf? && Plug(c, s) == Plug(c0, leaf)
    requires leaf.key in Table(s) 
    ensures Table(s)[leaf.key].mask == leaf.mask
  {
    PlugTable(c0, leaf, w);
    PlugTable(c, s, w);
    assert leaf.key in Table(leaf);
  }

  /** The position of the new leaf below its internal node. */
  function LeafCtx(c: Ctx, v: Key, b: nat, s: Tree, t: Ptr, mk: seq<Mask>): Ctx
    requires b < |v|
  {
    if v[b] then InR(t, v[..b], mk, c, s) else InL(t, v[..b], mk, c, s)
  }

  lemma LeafCtxPlugs(c: Ctx, v: Key, b: nat, s: Tree, leaf: Tree, t: Ptr, mk: seq<Mask>)
    requires b < |v|
    ensures Plug(LeafCtx(c, v, b, s, t, mk), leaf) == Plug(c, Join(t, v, b, s, leaf, mk))
    ensures HoleLo(LeafCtx(c, v, b, s, t, mk)) == b
  {
  }

  lemma JoinCells(mem: Memory, c: Ctx, v: Key, b: nat, s: Tree, leaf: Tree, t: Ptr)
    requires b < |v| && leaf.Leaf? && Exactly(mem, Plug(c, Join(t, v, b, s, leaf, [])))
    ensures t in mem && mem[t].InnerCell? && mem[t].b == b && s.a in mem && mem[s.a] == CellOf(s, t) && s.a != leaf.a
    ensures leaf.a in mem && mem[leaf.a] == CellOf(leaf, t)
    ensures (if mem[t].r == leaf.a then mem[t].l else mem[t].r) == s.a
  {
    Focused(mem, c, Join(t, v, b, s, leaf, []));
    RootAddr(s);
  }

  lemma LeafElsewhere(c: Ctx, leaf: Tree, w: nat)
    requires Shaped(Plug(c, leaf), w, []) && leaf.Leaf?
    ensures leaf.key !in TableCtx(c)
  {
    PlugTable(c, leaf, w);
    assert leaf.key in Table(leaf);
  }

  lemma DivergesBit(s: Tree, v: Key, b: nat)
    requires Diverges(s, v, b)
    ensures b < |v| && (s.Node? ==> b < |s.q|)
  {
  }

  lemma AbsentParts(t: Tree, c: Ctx, s: Tree, v: Key)
    requires Table(t) == TableCtx(c) + Table(s) && v !in Table(t)
    ensures v !in TableCtx(c) && v !in Table(s)
  {
  }

  lemma RoutesAdded(t: Tree, w: nat, v: Key, m: Option<nat>)
    requires Sentinels(t, w) && v != Zeros(w) && v != Ones(w)
    ensures v in RoutesOf(t) <==> v in Table(t)
    ensures v in RoutesOf(t) && RoutesOf(t)[v] == m ==> RoutesOf(t)[v := m] == RoutesOf(t)
    ensures forall t': Tree :: Table(t') == Table(t)[v := Entry(m, false)] ==> RoutesOf(t') == RoutesOf(t)[v := m]
    ensures Table(t)[v := Entry(None, false)][v := Entry(m, false)] == Table(t)[v := Entry(m, false)]
  {
    hide Table, Zeros, Ones;
  }

  // ----- deletion

  /**
   The internal node above a route's leaf is not the root: the sentinel on that side lies elsewhere below the root.
   */
  lemma ParentBelowRoot(t: Tree, w: nat, c: Ctx, leaf: Tree)
    requires Shaped(t, w, []) && t.Node? && t.q == [] && Sentinels(t, w)
    requires Plug(c, leaf) == t && leaf.Leaf? && !leaf.root
    ensures c != Top && c.up != Top
  {
    if c != Top && c.up == Top {
      var z := if c.InL? then Zeros(w) else Ones(w);
      Disjoint(t, w, []);
      KeyExtends(t, w, [], z);
      assert false;
    }
  }

  lemma UnspliceRepresents(mem: Memory, mem': Memory, top: Ptr, t: Tree, w: nat, c: Ctx, leaf: Tree)
    requires Represents(mem, top, t, w) && Plug(c, leaf) == t && leaf.Leaf? && !leaf.root && c != Top && c.up != Top
    requires mem'.Keys == mem.Keys - {c.a, leaf.a}
    requires c.up.a in mem' && mem'[c.up.a] == HoleCell(c.up, Sibling(c).a)
    requires Sibling(c).a in mem' && mem'[Sibling(c).a] == CellOf(Sibling(c), c.up.a)
    requires Same(mem, mem', mem'.Keys - {c.up.a, Sibling(c).a})
    ensures Represents(mem', top, Plug(c.up, Sibling(c)), w)
    ensures Table(Plug(c.up, Sibling(c))) == Table(t) - {leaf.key}
  {
    Unspliced(mem, mem', c.up, Sibling(c), Parent(c, leaf), leaf);
    UnspliceShaped(c, leaf, w);
    RootStays(c.up, Parent(c, leaf), Sibling(c));
    SentinelsLeft(t, Plug(c.up, Sibling(c)), c, leaf, w);
  }

  lemma SentinelsLeft(t: Tree, t': Tree, c: Ctx, leaf: Tree, w: nat)
    requires Shaped(t, w, []) && Sentinels(t, w) && Plug(c, leaf) == t && leaf.Leaf? && !leaf.root
    requires Table(t') == Table(t) - {leaf.key}
    ensures Sentinels(t', w)
  {
    PlugTable(c, leaf, w);
    assert leaf.key in Table(leaf) && !Table(t)[leaf.key].root;
  }

  /** Unlinking the leaf at `tt` and its parent: the cells afterwards. */
  function UnlinkedMem(mem: Memory, tt: Ptr): Memory
    requires tt in mem && mem[tt].LeafCell?
    requires var t := mem[tt].p; t in mem && mem[t].InnerCell?
    requires var t := mem[tt].p; var p := mem[t].p; p in mem && mem[p].InnerCell?
    requires mem[mem[tt].p].l in mem && mem[mem[tt].p].r in mem
  {
    var t := mem[tt].p;
    var x := if mem[t].l == tt then mem[t].r else mem[t].l;
    var p := mem[t].p;
    (mem - {t, tt})[p := if mem[p].r == t then mem[p].(r := x) else mem[p].(l := x)][x := mem[x].(p := p)]
  }

  lemma UnlinkCells(mem: Memory, c: Ctx, leaf: Tree)
    requires Exactly(mem, Plug(c, leaf)) && leaf.Leaf? && c != Top && c.up != Top
    ensures leaf.a in mem && mem[leaf.a] == CellOf(leaf, c.a)
    ensures c.a in mem && mem[c.a] == HoleCell(c, leaf.a) && mem[c.a].p == c.up.a
    ensures c.up.a in mem && mem[c.up.a] == HoleCell(c.up, c.a)
    ensures Sibling(c).a in mem && mem[Sibling(c).a] == CellOf(Sibling(c), c.a)
    ensures leaf.a != c.a && leaf.a != Sibling(c).a && c.a != Sibling(c).a
    ensures c.up.a != leaf.a && c.up.a != c.a && c.up.a != Sibling(c).a
    ensures c.up.InL? ==> c.up.r.a != c.a
  {
    Focused(mem, c, leaf);
    Focused(mem, c.up, Parent(c, leaf));
    RootAddr(Sibling(c));
    RootAddr(Sibling(c.up));
  }

  lemma UnlinkedMemCells(mem: Memory, tt: Ptr, t: Ptr, x: Ptr, p: Ptr)
    requires tt in mem && mem[tt].LeafCell? && mem[tt].p == t && t in mem && mem[t].InnerCell?
    requires mem[t].p == p && p in mem && mem[p].InnerCell? && mem[t].l in mem && mem[t].r in mem
    requires x == if mem[t].l == tt then mem[t].r else mem[t].l
    requires x !in {t, tt, p} && p !in {t, tt}
    ensures var mem' := UnlinkedMem(mem, tt);
            && mem'.Keys == mem.Keys - {t, tt} && SameKinds(mem, mem')
            && p in mem' && mem'[p] == (if mem[p].r == t then mem[p].(r := x) else mem[p].(l := x))
            && x in mem' && mem'[x] == mem[x].(p := p)
            && Same(mem, mem', mem'.Keys - {p, x})
  {
  }

  lemma UnlinkedHolds(mem: Memory, top: Ptr, t: Tree, w: nat, c: Ctx, leaf: Tree)
    requires Represents(mem, top, t, w) && Plug(c, leaf) == t && leaf.Leaf? && !leaf.root && c != Top && c.up != Top
    requires leaf.a in mem && mem[leaf.a] == CellOf(leaf, c.a) && c.a in mem && mem[c.a] == HoleCell(c, leaf.a)
    requires c.up.a in mem && mem[c.up.a] == HoleCell(c.up, c.a)
    requires Sibling(c).a in mem && mem[Sibling(c).a] == CellOf(Sibling(c), c.a)
    ensures var mem' := UnlinkedMem(mem, leaf.a);
            && Represents(mem', top, Plug(c.up, Sibling(c)), w)
            && Table(Plug(c.up, Sibling(c))) == Table(t) - {leaf.key}
            && mem'.Keys == mem.Keys - {c.a, leaf.a} && SameKinds(mem, mem')
  {
    UnlinkCells(mem, c, leaf);
    hide Holds, HoldsCtx, Unaliased, UnaliasedCtx, Addrs, AddrsCtx, Shaped, ShapedCtx, Table, TableCtx, Plug;
    hide SameKinds, Same;
    UnlinkedMemCells(mem, leaf.a, c.a, Sibling(c).a, c.up.a);
    hide UnlinkedMem;
    var mem' := UnlinkedMem(mem, leaf.a);
    assert mem'[c.up.a] == HoleCell(c.up, Sibling(c).a);
    UnspliceRepresents(mem, mem', top, t, w, c, leaf);
  }

  /**
   Copying the internal node at `x` to the vacant address `t` and redirecting the links to it: the cells afterwards.
   */
  function MovedMem(mem: Memory, x: Ptr, t: Ptr): Memory
    requires x in mem && mem[x].InnerCell? && mem[x].l in mem && mem[x].r in mem
    requires mem[x].p in mem && mem[mem[x].p].InnerCell? && x !in {mem[x].l, mem[x].r, mem[x].p} && t !in mem
  {
    var n := mem[x];
    var p := mem[n.p];
    (mem - {x})[t := n][n.l := mem[n.l].(p := t)][n.r := mem[n.r].(p := t)]
      [n.p := if p.l == x then p.(l := t) else p.(r := t)]
  }

  lemma MovedMemCells(mem: Memory, x: Ptr, t: Ptr)
    requires x in mem && mem[x].InnerCell? && mem[x].l in mem && mem[x].r in mem
    requires mem[x].p in mem && mem[mem[x].p].InnerCell? && x !in {mem[x].l, mem[x].r, mem[x].p} && t !in mem
    requires mem[x].l != mem[x].r && mem[x].p !in {mem[x].l, mem[x].r}
    ensures var n := mem[x];
            var mem' := MovedMem(mem, x, t);
            && mem'.Keys == mem.Keys - {x} + {t} && mem'[t] == n && SameKinds(mem, mem')
            && n.l in mem' && mem'[n.l] == mem[n.l].(p := t) && n.r in mem' && mem'[n.r] == mem[n.r].(p := t)
            && n.p in mem' && mem'[n.p] == (if mem[n.p].l == x then mem[n.p].(l := t) else mem[n.p].(r := t))
            && Same(mem, mem', mem'.Keys - {t, n.p, n.l, n.r})
  {
  }

  lemma MovedHolds(mem: Memory, top: Ptr, tree: Tree, w: nat, c: Ctx, n: Tree, t: Ptr)
    requires Represents(mem, top, tree, w) && Plug(c, n) == tree && n.Node? && n.a != top && t !in mem
    requires Annotated(tree, -1, None)
    ensures c != Top && n.a in mem && mem[n.a] == CellOf(n, c.a)
    ensures mem[n.a].l in mem && mem[n.a].r in mem && c.a in mem && mem[c.a].InnerCell?
    ensures n.a !in {mem[n.a].l, mem[n.a].r, c.a}
    ensures var mem' := MovedMem(mem, n.a, t);
            var n' := Node(t, n.q, n.l, n.r, n.mk);
            && Represents(mem', top, Plug(c, n'), w) && Annotated(Plug(c, n'), -1, None)
            && Table(Plug(c, n')) == Table(tree)
            && mem'.Keys == mem.Keys - {n.a} + {t} && mem'[t].InnerCell? && SameKinds(mem, mem')
  {
    MovedCells(mem, c, n);
    hide Holds, HoldsCtx, Unaliased, UnaliasedCtx, Addrs, AddrsCtx, Shaped, ShapedCtx, Annotated, AnnotatedCtx,
         Anns, Table, TableCtx, Plug;
    hide SameKinds, Same;
    MovedMemCells(mem, n.a, t);
    hide MovedMem;
    var mem' := MovedMem(mem, n.a, t);
    var n' := Node(t, n.q, n.l, n.r, n.mk);
    assert mem'[c.a] == HoleCell(c, t);
    Moved(mem, mem', c, n, t);
    MovedTree(tree, w, c, n, n');
  }

  lemma MovedCells(mem: Memory, c: Ctx, n: Tree)
    requires Exactly(mem, Plug(c, n)) && n.Node? && n.a != Plug(c, n).a
    ensures c != Top && n.a in mem && mem[n.a] == CellOf(n, c.a)
    ensures n.l.a in mem && n.r.a in mem && c.a in mem && mem[c.a] == HoleCell(c, n.a)
    ensures n.a !in {n.l.a, n.r.a, c.a} && n.l.a != n.r.a && c.a != n.l.a && c.a != n.r.a
    ensures mem[n.l.a] == CellOf(n.l, n.a) && mem[n.r.a] == CellOf(n.r, n.a)
    ensures c.InR? ==> c.l.a != n.a
  {
    Focused(mem, c, n);
    RootAddr(n.l);
    RootAddr(n.r);
    RootAddr(Sibling(c));
  }

  lemma MovedTree(tree: Tree, w: nat, c: Ctx, n: Tree, n': Tree)
    requires Plug(c, n) == tree && c != Top && n.Node? && n' == Node(n'.a, n.q, n.l, n.r, n.mk)
    requires Shaped(tree, w, []) && Annotated(tree, -1, None) && Sentinels(tree, w) && tree.Node? && tree.q == []
    ensures var t' := Plug(c, n');
            Shaped(t', w, []) && Annotated(t', -1, None) && Sentinels(t', w) && t'.Node? && t'.q == []
            && Table(t') == Table(tree)
  {
    hide Shaped, ShapedCtx, Annotated, AnnotatedCtx, Anns, Table, TableCtx, Plug, Sentinels;
    SameSubtree(c, n, n', w);
    PlugShaped(c, n, w);
    PlugShaped(c, n', w);
    PlugAnnotated(c, n, None);
    PlugAnnotated(c, n', None);
    PlugTable(c, n, w);
    PlugTable(c, n', w);
    RootStays(c, n, n');
    SentinelsSame(tree, Plug(c, n'), w);
  }

  lemma SameSubtree(c: Ctx, n: Tree, n': Tree, w: nat)
    requires n.Node? && n' == Node(n'.a, n.q, n.l, n.r, n.mk)
    ensures Anns(n', None) == Anns(n, None) && Table(n') == Table(n)
    ensures Shaped(n', w, HolePre(c)) <==> Shaped(n, w, HolePre(c))
    ensures Annotated(n', HoleLo(c), None) <==> Annotated(n, HoleLo(c), None)
  {
  }

  /** Deletion releases the leaf at `tt` and, directly or by moving it, the internal node at `tt + 1`. */
  lemma PairedAfter(mem: Memory, mem1: Memory, mem2: Memory, top: Ptr, tt: Ptr, t: Ptr)
    requires Paired(mem, top) && tt in mem && mem[tt].LeafCell? && !mem[tt].root && t in mem && mem[t].InnerCell?
    requires mem1.Keys == mem.Keys - {t, tt} && SameKinds(mem, mem1)
    requires if t == tt + 1 then mem2 == mem1
             else mem2.Keys == mem1.Keys - {tt + 1} + {t} && mem2[t].InnerCell? && SameKinds(mem1, mem2)
    ensures mem2.Keys == mem.Keys - {tt, tt + 1} && Paired(mem2, top)
  {
    assert SameKinds(mem, mem2);
  }

  lemma PairPresent(mem: Memory, top: Ptr, tt: Ptr)
    requires Paired(mem, top) && tt in mem && mem[tt].LeafCell? && !mem[tt].root
    ensures tt + 1 in mem && mem[tt + 1].InnerCell? && tt + 1 != top
  {
  }

  lemma InnerStays(mem: Memory, mem': Memory, a: Ptr)
    requires SameKinds(mem, mem') && a in mem && a in mem' && mem[a].InnerCell?
    ensures mem'[a].InnerCell?
  {
  }

  lemma SiblingBit(c: Ctx, w: nat)
    requires c != Top && ShapedCtx(c, w)
    ensures Sibling(c).Node? ==> |c.q| < |Sibling(c).q|
  {
  }

  lemma ParentPlugs(c: Ctx, s: Tree)
    requires c != Top
    ensures Plug(c.up, Parent(c, s)) == Plug(c, s) && Parent(c, s).Node? && Parent(c, s).a == c.a
            && Parent(c, s).mk == c.mk
  {
  }

  lemma LeavingKey(c: Ctx, s: Tree, v: Key, m: Mask)
    requires Leaving(c, s, v, m)
    ensures v in Table(s)
  {
  }

  /** A mask index is at least one. */
  lemma RouteMask(c: Ctx, leaf: Tree, w: nat)
    requires Shaped(Plug(c, leaf), w, []) && leaf.Leaf? && leaf.mask.Some?
    ensures 1 <= leaf.mask.value
  {
    PlugShaped(c, leaf, w);
  }

  lemma AllInUse(mem: Memory, t: Tree, a: Ptr)
    requires Exactly(mem, t) && a in mem
    ensures a in Addrs(t) && Plug(Top, t) == t
  {
  }

  lemma BlockNeedsMask(c: Ctx, leaf: Tree)
    requires Annotated(Plug(c, leaf), -1, None) && leaf.Leaf? && !(leaf.mask.Some? && leaf.ann.Some?)
    ensures leaf.ann == None
  {
    PlugAnnotated(c, leaf, None);
  }

  lemma RoutesRemoved(t: Tree, w: nat, c: Ctx, leaf: Tree, v: Key)
    requires Shaped(t, w, []) && Plug(c, leaf) == t && leaf.Leaf? && (leaf.key == v <==> v in Table(t))
    ensures v in RoutesOf(t) <==> leaf.key == v && !leaf.root
    ensures v !in RoutesOf(t) ==> RoutesOf(t) - {v} == RoutesOf(t)
    ensures forall t': Tree :: Table(t') == Table(t) - {v} ==> RoutesOf(t') == RoutesOf(t) - {v}
  {
    hide Table, Plug, Shaped, TableCtx;
    LeafTable(leaf);
    PlugTable(c, leaf, w);
    forall t': Tree | Table(t') == Table(t) - {v} ensures RoutesOf(t') == RoutesOf(t) - {v} {
      RoutesWithout(t, t', v);
    }
  }

  lemma LeafTable(leaf: Tree)
    requires leaf.Leaf?
    ensures leaf.key in Table(leaf) && Table(leaf)[leaf.key].root == leaf.root
  {
  }

  lemma RoutesWithout(t: Tree, t': Tree, v: Key)
    requires Table(t') == Table(t) - {v}
    ensures RoutesOf(t') == RoutesOf(t) - {v}
  {
    hide Table;
  }

  lemma KindsChain(mem: Memory, mem1: Memory, mem2: Memory)
    requires SameKinds(mem, mem1) && SameKinds(mem1, mem2) && mem2.Keys == mem1.Keys <= mem.Keys
    ensures SameKinds(mem, mem2)
  {
  }

  /** Everything that unlinking relies on, and what it establishes before the masks of the unlinked node are demoted. */
  lemma UnlinkReady(mem: Memory, top: Ptr, tree: Tree, w: nat, c: Ctx, leaf: Tree)
    requires Represents(mem, top, tree, w) && Plug(c, leaf) == tree && leaf.Leaf? && !leaf.root
    requires Annotated(tree, -1, Some(leaf.key))
    ensures c != Top && c.up != Top
    ensures leaf.a in mem && mem[leaf.a] == CellOf(leaf, c.a) && c.a in mem && mem[c.a] == HoleCell(c, leaf.a)
    ensures c.up.a in mem && mem[c.up.a] == HoleCell(c.up, c.a) && mem[c.a].p == c.up.a
    ensures Sibling(c).a in mem && (if mem[c.a].l == leaf.a then mem[c.a].r else mem[c.a].l) == Sibling(c).a
    ensures c.up.a != leaf.a && c.up.a != c.a && Sibling(c).a !in {c.up.a, c.a, leaf.a}
    ensures Represents(UnlinkedMem(mem, leaf.a), top, Plug(c.up, Sibling(c)), w)
    ensures Table(Plug(c.up, Sibling(c))) == Table(tree) - {leaf.key}
    ensures UnlinkedMem(mem, leaf.a).Keys == mem.Keys - {c.a, leaf.a} && SameKinds(mem, UnlinkedMem(mem, leaf.a))
    ensures HoleLo(c.up) < |c.q| && Annotated(Sibling(c), |c.q|, None)
    ensures Lists(c.mk, Anns(Sibling(c), None), HoleLo(c.up), |c.q|) && (Sibling(c).Node? ==> |c.q| < |Sibling(c).q|)
  {
    hide Holds, HoldsCtx, Unaliased, UnaliasedCtx, Addrs, AddrsCtx, Shaped, ShapedCtx, Annotated, AnnotatedCtx,
         Anns, Table, TableCtx, Plug, Lists, SameKinds, Same;
    ParentBelowRoot(tree, w, c, leaf);
    UnlinkCells(mem, c, leaf);
    UnlinkedHolds(mem, top, tree, w, c, leaf);
    SiblingAnnotated(c, leaf, w);
    PlugShaped(c, leaf, w);
    SiblingBit(c, w);
  }
}
