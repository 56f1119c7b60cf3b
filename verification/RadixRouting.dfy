/**
 The routing tree as the program keeps it: node structures at addresses, relinked in place.
 A route's leaf and one internal node are allocated as a pair at consecutive addresses.
 */
module RadixRouting {
  import opened Prelude
  import opened RadixTree
  import opened RadixMemory
  import opened RadixLookup
  import opened RadixUpdate
  import opened RadixState

  /** The outcome of a lookup; the two sentinel leaves are marked as root leaves. */
  datatype Found = Miss | Sentinel | Hit(key: Key, mask: Option<nat>)

  /** A table without the route for a key and a mask. */
  function Without(routes: map<Key, Option<nat>>, k: Key, mask: Option<nat>): map<Key, Option<nat>> {
    if k in routes && routes[k] == mask then routes - {k} else routes
  }

  lemma RemovalMeant(routes: map<Key, Option<nat>>, k: Key, mask: Option<nat>)
    ensures routes - {k} == Without(routes, k, mask) <==> k !in routes || routes[k] == mask
  {
    if k in routes {
      assert k !in routes - {k};
    } else {
      assert routes - {k} == routes;
    }
  }

  /** What agrees with a key below a node agrees with the bits shared there. */
  lemma PrefixAgrees(t: Tree, w: nat, v: Key, c: Ctx, n: Tree, k: Key, matched: nat, off: nat)
    requires OnPath(t, w, v, c, n) && n.Node? && k in Table(n) && SameBefore(v, k, matched) && off <= matched
             && off <= |n.q|
    ensures SameBefore(v, n.q, off)
  {
    hide Annotated, AnnotatedCtx, Anns, Plug, RoutesOf, TableCtx, Shaped;
    FocusTree(t, w, c, n);
    KeyExtends(n, w, HolePre(c), k);
  }

  class RadixHead {
    const width: nat
    var mem: Memory
    var top: Ptr
    var maskedKey: Key
    var nextId: nat
    ghost var tree: Tree

    ghost predicate Linked()
      reads this
    {
      Represents(mem, top, tree, width) && |maskedKey| == width
    }

    ghost predicate Valid()
      reads this
    {
      Linked() && Annotated(tree, -1, None) && Paired(mem, top)
    }

    ghost function Routes(): map<Key, Option<nat>>
      reads this
    {
      RoutesOf(tree)
    }

    /** A fresh head: the two sentinel leaves below a node that tests the first bit. */
    constructor (w: nat, base: Ptr)
      requires 1 <= w
      ensures Valid() && width == w && Routes() == map[] && mem.Keys == {base, base + 1, base + 2}
    {
      width := w;
      mem := map[base := LeafCell(base + 1, -1, Zeros(w), None, true, None),
                 base + 1 := InnerCell(base + 1, 0, base, base + 2, []),
                 base + 2 := LeafCell(base + 1, -1, Ones(w), None, true, None)];
      top := base + 1;
      maskedKey := Zeros(w);
      nextId := 0;
      tree := Node(base + 1, [], Leaf(base, Zeros(w), None, true, None), Leaf(base + 2, Ones(w), None, true, None), []);
      new;
      FreshHead(w, base);
    }

    /** What the invariant says about a position and its surroundings. */
    lemma Focus(c: Ctx, s: Tree)
      requires Linked() && Plug(c, s) == tree
      ensures HoldsCtx(mem, c, s.a) && Holds(mem, s, ParentAt(c, s.a))
      ensures ShapedCtx(c, width) && Shaped(s, width, HolePre(c)) && |HolePre(c)| <= width
      ensures Annotated(tree, -1, None)
              ==> AnnotatedCtx(c, Anns(s, None), None) && Annotated(s, HoleLo(c), None)
      ensures s.a in mem && mem[s.a] == CellOf(s, ParentAt(c, s.a)) && (s.a == top <==> c == Top)
      ensures c != Top ==> c.a in mem && mem[c.a] == HoleCell(c, s.a)
      ensures UnaliasedCtx(c) && Unaliased(s) && Addrs(s) !! AddrsCtx(c) && mem.Keys == AddrsCtx(c) + Addrs(s)
      ensures Table(tree) == TableCtx(c) + Table(s) && TableCtx(c).Keys !! Table(s).Keys
    {
      Focused(mem, c, s);
      FocusTree(tree, width, c, s);
    }

    /** Following `v` down from an internal node or a leaf. */
    method Search(v: Key, x: Ptr, ghost c0: Ctx, ghost s0: Tree) returns (t: Ptr, ghost c: Ctx, ghost s: Tree)
      requires Linked() && |v| == width && Plug(c0, s0) == tree && s0.a == x
      ensures s == RadixTree.Search(s0, v) && s.Leaf? && t == s.a
      ensures t in mem && mem[t] == CellOf(s, ParentAt(c, t))
      ensures Plug(c, s) == tree && (Follows(c0, v) ==> Follows(c, v))
    {
      hide Holds, HoldsCtx, Unaliased, UnaliasedCtx, Addrs, AddrsCtx, Annotated, AnnotatedCtx, Anns, Table,
           TableCtx, Sentinels, ShapedCtx;
      t, c, s := x, c0, s0;
      Focus(c, s);
      while mem[t].InnerCell?
        invariant Plug(c, s) == tree && t == s.a
        invariant t in mem && mem[t] == CellOf(s, ParentAt(c, s.a)) && Shaped(s, width, HolePre(c))
        invariant RadixTree.Search(s, v) == RadixTree.Search(s0, v)
        invariant Follows(c0, v) ==> Follows(c, v)
        decreases s
      {
        if v[mem[t].b] {
          t := mem[t].r;
          c, s := InR(s.a, s.q, s.mk, c, s.l), s.r;
        } else {
          t := mem[t].l;
          c, s := InL(s.a, s.q, s.mk, c, s.r), s.l;
        }
        Focus(c, s);
      }
    }

    /** The first bit from `from` on in which `v` and the key of the leaf at `t` differ. */
    method FirstDifference(v: Key, t: Ptr) returns (d: nat)
      requires t in mem && mem[t].LeafCell? && |mem[t].key| == |v|
      ensures d <= |v| && SameBefore(v, mem[t].key, d)
      ensures d < |v| ==> v[d] != mem[t].key[d]
      ensures d == |v| <==> v == mem[t].key
    {
      d := 0;
      while d < |v| && v[d] == mem[t].key[d]
        invariant 0 <= d <= |v| && SameBefore(v, mem[t].key, d)
      {
        d := d + 1;
      }
    }

    /** Copy `v`, masked, into the scratch key from bit `off` on; earlier bits keep what an earlier use left there. */
    method MaskInto(v: Key, off: nat, idx: nat)
      requires |v| == width == |maskedKey| && off <= width
      modifies this`maskedKey
      ensures MaskedFrom(maskedKey, v, off, idx)
    {
      var i := off;
      while i < width
        invariant off <= i <= width && |maskedKey| == width
        invariant forall j :: off <= j < i ==> maskedKey[j] == (v[j] && j < idx)
      {
        maskedKey := maskedKey[i := v[i] && i < idx];
        i := i + 1;
      }
    }

    /** Try the i-th mask listed at the internal node at `t`. */
    method TryMask(v: Key, t: Ptr, off: nat, i: nat, ghost c: Ctx, ghost n: Tree) returns (f: Found)
      requires Linked() && OnPath(tree, width, v, c, n) && n.Node? && n.a == t
      requires t in mem && mem[t].InnerCell? && mem[t].mk == n.mk && i < |n.mk|
      requires SameBefore(v, n.q, off) && Tried(tree, v, n, i)
      modifies this`maskedKey
      ensures Linked()
      ensures f.Hit? ==> Best(RoutesOf(tree), v, f.key) && RoutesOf(tree)[f.key] == f.mask
      ensures !f.Hit? ==> f.Miss? && Tried(tree, v, n, i + 1)
    {
      hide Holds, HoldsCtx, Unaliased, UnaliasedCtx, Addrs, AddrsCtx, Shaped, ShapedCtx, Annotated, AnnotatedCtx,
           Anns, Plug, RoutesOf, Sentinels, TableCtx;
      var m := mem[t].mk[i];
      FocusTree(tree, width, c, n);
      MaskInto(v, off, m.idx);
      MaskedSearchSound(n, width, HolePre(c), v, off, maskedKey, m.idx);
      var x, cx, sx := Search(maskedKey, t, c, n);
      var cell := mem[x];
      SuffixSame(maskedKey, cell.key, off);
      if cell.mask == Some(m.idx) && maskedKey[off..] == cell.key[off..] {
        HitIsBest(tree, width, v, c, n, cell.key, i);
        return Hit(cell.key, cell.mask);
      }
      MissedMask(tree, width, v, c, n, off, maskedKey, i);
      f := Miss;
    }

    /** Try, longest first, the masks listed at the internal node at `t`. */
    method TryMasks(v: Key, t: Ptr, matched: nat, ghost c: Ctx, ghost n: Tree, ghost k0: Key) returns (f: Found)
      requires Linked() && OnPath(tree, width, v, c, n) && n.Node? && n.a == t
      requires k0 in Table(n) && SameBefore(v, k0, matched) && NoneAbove(tree, v, |n.q|)
      modifies this`maskedKey
      ensures Linked()
      ensures f.Hit? ==> Best(RoutesOf(tree), v, f.key) && RoutesOf(tree)[f.key] == f.mask
      ensures !f.Hit? ==> f.Miss? && NoneAbove(tree, v, HoleLo(c))
    {
      hide Holds, HoldsCtx, Unaliased, UnaliasedCtx, Addrs, AddrsCtx, Shaped, ShapedCtx, Annotated, AnnotatedCtx,
           Anns, Plug, RoutesOf, Sentinels, TableCtx;
      Focus(c, n);
      // the comparison starts at a byte boundary, at or before both the node's bit and the mismatch
      var off := Min(mem[t].b / 8, matched / 8) * 8;
      PrefixAgrees(tree, width, v, c, n, k0, matched, off);
      hide SameBefore, OnPath, Linked, Best, Tried, NoneAbove;
      f := Miss;
      var i := 0;
      while i < |mem[t].mk|
        invariant 0 <= i <= |n.mk| && Linked() && Tried(tree, v, n, i)
        invariant f == Miss
      {
        f := TryMask(v, t, off, i, c, n);
        if f.Hit? {
          return;
        }
        i := i + 1;
      }
      AllTried(tree, width, v, c, n);
    }

    /** Whether the leaf at `t`, known to agree with `v` before bit `matched`, covers `v` by its mask. */
    method LeafCovers(v: Key, t: Ptr, matched: nat) returns (ok: bool)
      requires t in mem && mem[t].LeafCell? && |mem[t].key| == |v| && mem[t].mask.Some? && mem[t].mask.value <= |v|
      requires SameBefore(v, mem[t].key, matched)
      ensures ok <==> Covers(v, mem[t].key, mem[t].mask)
    {
      var p, k := mem[t].mask.value, mem[t].key;
      var i := matched;
      while i < |v| && !(i < p && v[i] != k[i])
        invariant matched <= i <= |v|
        invariant forall j :: 0 <= j < i && j < p ==> v[j] == k[j]
      {
        i := i + 1;
      }
      ok := i == |v|;
      if ok {
        assert v[..p] == k[..p];
      } else {
        assert v[..p][i] != k[..p][i];
      }
    }

    /**
     Longest-prefix lookup.  The answer agrees with a scan of the route table for every destination
     but the all-ones key, which is always answered by its sentinel leaf.
     */
    method Match(v: Key) returns (f: Found)
      requires Valid() && |v| == width
      modifies this`maskedKey
      ensures Valid() && Routes() == old(Routes())
      ensures f.Sentinel? <==> v == Zeros(width) || v == Ones(width)
      ensures f.Hit? ==> Best(Routes(), v, f.key) && Routes()[f.key] == f.mask
      ensures f.Hit? <==> v != Ones(width) && exists k :: k in Routes() && Covers(v, k, Routes()[k])
    {
      hide Holds, HoldsCtx, Unaliased, UnaliasedCtx, Addrs, AddrsCtx, Shaped, ShapedCtx, Annotated, AnnotatedCtx,
           Anns, Table, TableCtx, RoutesOf, Sentinels, Exactly, Paired;
      var t, c, s := Search(v, top, Top, tree);
      SentinelsFound(tree, width, v, c, s);
      var matched := FirstDifference(v, t);
      if matched == |v| {
        if mem[t].root {
          return Sentinel;
        }
        LeafIsBest(tree, width, v, c, s);
        return Hit(mem[t].key, mem[t].mask);
      }
      if mem[t].mask.Some? {
        var ok := LeafCovers(v, t, matched);
        if ok {
          LeafIsBest(tree, width, v, c, s);
          return Hit(mem[t].key, mem[t].mask);
        }
      }
      LeafFails(tree, width, v, c, s);
      f := Climb(v, t, matched, c, s);
    }

    /** Search up the tree from the leaf at `t0`. */
    method Climb(v: Key, t0: Ptr, matched: nat, ghost c0: Ctx, ghost s0: Tree) returns (f: Found)
      requires Linked() && OnPath(tree, width, v, c0, s0) && s0.Leaf? && s0.a == t0
      requires SameBefore(v, s0.key, matched) && NoneAbove(tree, v, HoleLo(c0))
      modifies this`maskedKey
      ensures Linked()
      ensures f.Hit? ==> Best(RoutesOf(tree), v, f.key) && RoutesOf(tree)[f.key] == f.mask
      ensures !f.Hit? ==> f.Miss? && forall k :: k in RoutesOf(tree) ==> !Covers(v, k, RoutesOf(tree)[k])
    {
      hide Holds, HoldsCtx, Unaliased, UnaliasedCtx, Addrs, AddrsCtx, Shaped, ShapedCtx, Annotated, AnnotatedCtx,
           Anns, Sentinels, RoutesOf, Table, TableCtx, Plug;
      var t := t0;
      ghost var c, s := c0, s0;
      Focus(c, s);
      LeafKey(s, width, HolePre(c));
      while t != top
        invariant Linked() && OnPath(tree, width, v, c, s) && t == s.a && t in mem
        invariant s0.key in Table(s) && NoneAbove(tree, v, HoleLo(c))
        decreases c
      {
        Focus(c, s);
        StepUp(tree, width, v, c, s, s0.key);
        t := mem[t].p;
        c, s := c.up, Parent(c, s);
        Focus(c, s);
        if mem[t].mk != [] {
          f := TryMasks(v, t, matched, c, s, s0.key);
          if f.Hit? {
            return;
          }
        } else {
          AllTried(tree, width, v, c, s);
        }
      }
      Focus(c, s);
      f := Miss;
    }

    /**
     Find where the new leaf's internal node goes: the first node on the path of `v` that does not test a bit before
     `b`.
     */
    method FindEdge(v: Key, b: nat, ghost s0: Tree) returns (p: Ptr, x: Ptr, ghost c: Ctx, ghost s: Tree)
      requires Linked() && |v| == width && b < width
      requires s0 == RadixTree.Search(tree, v) && s0.Leaf? && |s0.key| == width
      requires SameBefore(v, s0.key, b) && v[b] != s0.key[b]
      ensures Plug(c, s) == tree && c != Top && p == c.a && x == s.a && Follows(c, v)
      ensures Diverges(s, v, b) && HoleLo(c) < b
    {
      hide Holds, HoldsCtx, Unaliased, UnaliasedCtx, Addrs, AddrsCtx, Annotated, AnnotatedCtx, Anns, Table,
           TableCtx, Sentinels, ShapedCtx;
      FirstBitAgrees(tree, width, v);
      x, c, s := top, Top, tree;
      Focus(c, s);
      p := x;
      var go := true;
      while go
        invariant Plug(c, s) == tree && x == s.a && x in mem && mem[x] == CellOf(s, ParentAt(c, x)) && Follows(c, v)
        invariant RadixTree.Search(s, v) == s0
        invariant go ==> s.Node? && |s.q| < b
        invariant !go ==> c != Top && p == c.a && HoleLo(c) < b && (s.Node? ==> b <= |s.q|)
        decreases s, go
      {
        Focus(c, s);
        p := x;
        if v[mem[x].b] {
          x := mem[x].r;
          c, s := InR(s.a, s.q, s.mk, c, s.l), s.r;
        } else {
          x := mem[x].l;
          c, s := InL(s.a, s.q, s.mk, c, s.r), s.l;
        }
        Focus(c, s);
        go := mem[x].InnerCell? && mem[x].b < b;
      }
      Focus(c, s);
      DivergesHere(c, s, width, v, b);
    }

    /** Link the pair at `a`, `a + 1` into the edge from `p` down to `x`. */
    method LinkPair(v: Key, b: nat, a: Ptr, p: Ptr, x: Ptr, ghost c: Ctx, ghost s: Tree)
      requires Exactly(mem, Plug(c, s)) && c != Top && p == c.a && x == s.a && Follows(c, v)
      requires b < |v| && a !in mem && a + 1 !in mem
      modifies this`mem
      ensures Exactly(mem, Plug(c, Join(a + 1, v, b, s, Leaf(a, v, None, false, None), [])))
      ensures mem.Keys == old(mem).Keys + {a, a + 1} && SameKinds(old(mem), mem)
      ensures mem[a + 1].InnerCell?
    {
      hide Holds, HoldsCtx, Unaliased, UnaliasedCtx, Addrs, AddrsCtx, Annotated, AnnotatedCtx, Anns, Plug;
      Focused(mem, c, s);
      LinkPairHolds(mem, v, b, a, c, s);
      var parent, child := mem[p], mem[x];
      mem := mem[a := LeafCell(a + 1, -1, v, None, false, None)]
                [a + 1 := if v[b] then InnerCell(p, b, x, a, []) else InnerCell(p, b, a, x, [])]
                [p := if v[parent.b] then parent.(r := a + 1) else parent.(l := a + 1)]
                [x := child.(p := a + 1)];
    }

    /**
     Put a new leaf for `v`, and the internal node paired with it, into the tree at `a` and `a + 1`.
     If the key is already there nothing changes and the existing leaf is reported.
     */
    method Insert(v: Key, a: Ptr) returns (tt: Ptr, dup: bool, ghost c: Ctx, ghost s: Tree, ghost b: nat)
      requires Linked() && |v| == width && a !in mem && a + 1 !in mem
      modifies this`mem, this`tree
      ensures Linked() && (Paired(old(mem), top) ==> Paired(mem, top))
      ensures dup <==> v in Table(old(tree))
      ensures dup ==> mem == old(mem) && tree == old(tree) && tt in mem && mem[tt].LeafCell? && mem[tt].key == v
                      && Table(tree)[v] == Entry(mem[tt].mask, mem[tt].root)
      ensures !dup ==> tt == a && Plug(c, s) == old(tree) && Follows(c, v) && Diverges(s, v, b) && HoleLo(c) < b
                       && mem.Keys == old(mem).Keys + {a, a + 1}
                       && tree == Plug(c, Join(a + 1, v, b, s, Leaf(a, v, None, false, None), []))
                       && Table(tree) == Table(old(tree))[v := Entry(None, false)]
    {
      hide Holds, HoldsCtx, Unaliased, UnaliasedCtx, Addrs, AddrsCtx, Annotated, AnnotatedCtx, Anns, Shaped,
           ShapedCtx, Sentinels, Paired, Diverges, TableCtx;
      Focus(Top, tree);
      var t, c0, s0 := Search(v, top, Top, tree);
      SearchLeaf(tree, width, [], v);
      SearchExact(tree, width, v);
      KeyExtends(tree, width, [], s0.key);
      var d := FirstDifference(v, t);
      if d == |v| {
        tt, dup, c, s, b := t, true, c0, s0, 0;
        return;
      }
      b := d;
      var p, x;
      p, x, c, s := FindEdge(v, d, s0);
      tt, dup := a, false;
      LinkPair(v, d, a, p, x, c, s);
      ghost var n := Join(a + 1, v, d, s, Leaf(a, v, None, false, None), []);
      PairedKept(old(mem), mem, top, a);
      JoinRepresents(old(mem), mem, top, tree, width, c, s, v, d, a);
      tree := Plug(c, n);
    }

    /** Overwrite the mask list of the internal node at `x`. */
    method SetMasks(x: Ptr, mk: seq<Mask>, ghost c: Ctx, ghost n: Tree)
      requires Linked() && Plug(c, n) == tree && n.Node? && n.a == x
      modifies this`mem, this`tree
      ensures Linked() && tree == Plug(c, n.(mk := mk)) && Table(tree) == Table(old(tree)) && mem.Keys == old(mem).Keys
      ensures (Paired(old(mem), top) ==> Paired(mem, top)) && SameKinds(old(mem), mem)
      ensures forall y :: y in mem && y != x ==> mem[y] == old(mem)[y]
    {
      hide Holds, HoldsCtx, Unaliased, UnaliasedCtx, Addrs, AddrsCtx, Annotated, AnnotatedCtx, Anns, Sentinels,
           Paired, Plug;
      Focus(c, n);
      CellRepresents(mem, top, width, c, n, n.(mk := mk));
      mem := mem[x := mem[x].(mk := mk)];
      tree := Plug(c, n.(mk := mk));
      PairedSame(old(mem), mem, top);
    }

    /** Overwrite the annotation pointer of the leaf at `x`. */
    method SetBlock(x: Ptr, ann: Option<Mask>, ghost c: Ctx, ghost n: Tree)
      requires Linked() && Plug(c, n) == tree && n.Leaf? && n.a == x
      modifies this`mem, this`tree
      ensures Linked() && tree == Plug(c, n.(ann := ann)) && Table(tree) == Table(old(tree))
              && mem.Keys == old(mem).Keys
      ensures (Paired(old(mem), top) ==> Paired(mem, top)) && SameKinds(old(mem), mem)
      ensures forall y :: y in mem && y != x ==> mem[y] == old(mem)[y]
    {
      hide Holds, HoldsCtx, Unaliased, UnaliasedCtx, Addrs, AddrsCtx, Annotated, AnnotatedCtx, Anns, Sentinels,
           Paired, Plug;
      Focus(c, n);
      CellRepresents(mem, top, width, c, n, n.(ann := ann));
      mem := mem[x := mem[x].(ann := ann)];
      tree := Plug(c, n.(ann := ann));
      PairedSame(old(mem), mem, top);
    }

    /** Record the mask of the route at the leaf at `x`, with its index in the leaf's bit field. */
    method SetMask(x: Ptr, mask: nat, ghost c: Ctx, ghost n: Tree)
      requires Linked() && Plug(c, n) == tree && n.Leaf? && n.a == x && !n.root && MaskFits(width, n.key, Some(mask))
      modifies this`mem, this`tree
      ensures Linked() && tree == Plug(c, n.(mask := Some(mask))) && mem.Keys == old(mem).Keys
      ensures Paired(old(mem), top) ==> Paired(mem, top)
      ensures Table(tree) == Table(old(tree))[n.key := Entry(Some(mask), false)]
    {
      MaskRepresents(mem, top, width, c, n, mask);
      mem := mem[x := mem[x].(mask := Some(mask), b := -1 - mask)];
      tree := Plug(c, n.(mask := Some(mask)));
      PairedSame(old(mem), mem, top);
    }

    /** Give the leaf or node at `x` and the new node at `t` above it their annotations after promotion. */
    method SetPromoted(t: Ptr, x: Ptr, v: Key, ghost b: nat, ghost c: Ctx, ghost s: Tree, ghost leaf: Tree,
                       ann: Option<Mask>, below: seq<Mask>, above: seq<Mask>)
      requires Linked() && b < |v| && tree == Plug(c, Join(t, v, b, s, leaf, [])) && s.a == x
      modifies this`mem, this`tree
      ensures Linked() && Table(tree) == Table(old(tree)) && mem.Keys == old(mem).Keys
      ensures Paired(old(mem), top) ==> Paired(mem, top)
      ensures tree == Plug(c, Join(t, v, b, if s.Leaf? then s.(ann := ann) else s.(mk := below), leaf, above))
    {
      hide Holds, HoldsCtx, Unaliased, UnaliasedCtx, Addrs, AddrsCtx, Shaped, ShapedCtx, Annotated, AnnotatedCtx,
           Anns, Table, TableCtx, Sentinels, Paired, SameKinds;
      ghost var cs := if v[b] then InL(t, v[..b], [], c, leaf) else InR(t, v[..b], [], c, leaf);
      Focus(cs, s);
      if mem[x].LeafCell? {
        SetBlock(x, ann, cs, s);
        SetMasks(t, above, c, Join(t, v, b, s.(ann := ann), leaf, []));
      } else {
        SetMasks(x, below, cs, s);
        SetMasks(t, above, c, Join(t, v, b, s.(mk := below), leaf, []));
      }
    }

    /** Promote masks from the subtree at `x` to the new node at `t` above it. */
    method Promote(t: Ptr, x: Ptr, v: Key, ghost b: nat, ghost c: Ctx, ghost s: Tree, ghost leaf: Tree)
      returns (ghost s': Tree, ghost mk': seq<Mask>)
      requires Linked() && b < |v| && tree == Plug(c, Join(t, v, b, s, leaf, [])) && s.a == x
      requires t in mem && mem[t].InnerCell? && mem[t].b == b && x in mem && mem[x] == CellOf(s, t)
      requires HoleLo(c) < b && Annotated(s, HoleLo(c), None) && (s.Node? ==> b < |s.q|)
      modifies this`mem, this`tree, this`nextId
      ensures Linked() && tree == Plug(c, Join(t, v, b, s', leaf, mk')) && Promoted(s, s', mk', HoleLo(c), b)
      ensures Table(tree) == Table(old(tree)) && mem.Keys == old(mem).Keys
      ensures Paired(old(mem), top) ==> Paired(mem, top)
    {
      hide Holds, HoldsCtx, Unaliased, UnaliasedCtx, Addrs, AddrsCtx, Shaped, ShapedCtx, Annotated, AnnotatedCtx,
           Anns, Table, TableCtx, Plug, Promoted, Sentinels, Paired;
      ghost var lo := HoleLo(c);
      var leafBit := -1 - mem[t].b;
      s', mk' := s, [];
      if mem[x].LeafCell? {
        if s.mask.Some? {
          PromoteLeaf(s, Mask(nextId, s.mask.value), lo, b);
        } else {
          PromoteHost(s, lo, b);
        }
        if mem[x].mask.Some? && mem[x].b >= leafBit && mem[x].ann == None {
          var m := Mask(nextId, mem[x].mask.value);
          nextId := nextId + 1;
          s', mk' := s.(ann := Some(m)), [m];
          SetPromoted(t, x, v, b, c, s, leaf, Some(m), [], [m]);
        }
      } else {
        // skip over masks whose index exceeds that of the new node
        var mk := mem[x].mk;
        var i := 0;
        while i < |mk| && !(-1 - mk[i].idx >= leafBit)
          invariant 0 <= i <= |mk|
          invariant forall j :: 0 <= j < i ==> mk[j].idx > b
        {
          i := i + 1;
        }
        PromoteNode(s, i, lo, b);
        s', mk' := s.(mk := mk[..i]), mk[i..];
        SetPromoted(t, x, v, b, c, s, leaf, None, mk[..i], mk[i..]);
      }
    }

    /** The highest ancestor of the leaf at `tt` whose bit is at least `p`, given that its parent is one. */
    method Highest(tt: Ptr, p: nat, ghost c0: Ctx, ghost leaf: Tree) returns (x: Ptr, ghost c: Ctx, ghost s: Tree)
      requires Linked() && Plug(c0, leaf) == tree && leaf.Leaf? && leaf.a == tt && 1 <= p <= HoleLo(c0)
      ensures Plug(c, s) == tree && c != Top && x == c.a && HoleLo(c.up) < p <= HoleLo(c)
      ensures Under(c0, leaf, c, s)
    {
      hide Holds, HoldsCtx, Unaliased, UnaliasedCtx, Addrs, AddrsCtx, Shaped, Annotated, AnnotatedCtx, Anns, Table,
           TableCtx, Sentinels;
      Focus(c0, leaf);
      c, s := c0, leaf;
      x := mem[tt].p;
      Focus(c.up, Parent(c, s));
      var t := mem[x].p;
      while p <= mem[t].b && x != top
        invariant Plug(c, s) == tree && c != Top && x == c.a && x in mem && p <= HoleLo(c)
        invariant mem[x].InnerCell? && t == mem[x].p && t in mem && mem[t].InnerCell?
        invariant t == ParentAt(c.up, x) && (c.up != Top ==> mem[t].b == HoleLo(c.up)) && (c.up == Top <==> x == top)
        invariant Under(c0, leaf, c, s)
        decreases c
      {
        UnderUp(c0, leaf, c, s);
        c, s := c.up, Parent(c, s);
        x := t;
        Focus(c, s);
        Focus(c.up, Parent(c, s));
        t := mem[x].p;
      }
    }

    /**
     Lift the mask of the new route at leaf `tt` to the highest node it applies to.  The block is
     allocated before the climb, where the program does it after; no block of that mask is shared.
     */
    method Lift(tt: Ptr, p: nat, ghost c0: Ctx, ghost leaf: Tree)
      requires Linked() && tree == Plug(c0, leaf) && leaf.Leaf? && leaf.a == tt
      requires leaf.mask == Some(p) && leaf.ann == None && 1 <= p <= HoleLo(c0)
      requires Annotated(tree, -1, Some(leaf.key)) && leaf.key !in TableCtx(c0)
      modifies this`mem, this`tree, this`nextId
      ensures Linked() && Annotated(tree, -1, None) && Table(tree) == Table(old(tree)) && mem.Keys == old(mem).Keys
      ensures Paired(old(mem), top) ==> Paired(mem, top)
    {
      var m := Mask(nextId, p);
      nextId := nextId + 1;
      UnlistedLeaf(c0, leaf, m);
      SetBlock(tt, Some(m), c0, leaf);
      var x, c, s := Highest(tt, p, c0, leaf.(ann := Some(m)));
      UnlistedClimb(c0, leaf.(ann := Some(m)), c, s, width, leaf.key, m);
      LiftedEntry(c0, leaf.(ann := Some(m)), c, s, width);
      ListAt(x, m, leaf.key, c, s);
    }

    /** Put block `m` into the mask list at `x`, longest mask first. */
    method ListAt(x: Ptr, m: Mask, ghost v: Key, ghost c: Ctx, ghost s: Tree)
      requires Linked() && Plug(c, s) == tree && c != Top && x == c.a && Unlisted(c, s, v, m)
      requires HoleLo(c.up) < m.idx <= HoleLo(c) && Table(s)[v].mask == Some(m.idx)
      modifies this`mem, this`tree
      ensures Linked() && Annotated(tree, -1, None) && Table(tree) == Table(old(tree)) && mem.Keys == old(mem).Keys
      ensures Paired(old(mem), top) ==> Paired(mem, top)
    {
      ghost var n := Parent(c, s);
      Focus(c.up, n);
      var mk := mem[x].mk;
      forall j | 0 <= j < |mk| ensures mk[j].idx != m.idx {
        NotYetListed(c, s, width, v, m, j);
      }
      var i := Position(mk, m);
      ListBlock(c, s, width, v, m, i);
      SetMasks(x, Inserted(mk, i, m), c.up, n);
    }

    /** After the new pair is linked in and its mask recorded: promote from below, then lift the new mask. */
    method Annotate(tt: Ptr, v: Key, ghost b: nat, ghost c: Ctx, ghost s: Tree, ghost leaf: Tree)
      requires Linked() && |v| == width && b < width && HoleLo(c) < b && (s.Node? ==> b < |s.q|) && v !in Table(s)
      requires leaf.Leaf? && leaf.key == v && leaf.a == tt && leaf.ann == None && MaskFits(width, v, leaf.mask)
      requires tree == Plug(c, Join(tt + 1, v, b, s, leaf, []))
      requires AnnotatedCtx(c, Anns(s, None), None) && Annotated(s, HoleLo(c), None) && v !in TableCtx(c)
      modifies this`mem, this`tree, this`nextId
      ensures Linked() && Annotated(tree, -1, None) && Table(tree) == Table(old(tree)) && mem.Keys == old(mem).Keys
      ensures Paired(old(mem), top) ==> Paired(mem, top)
    {
      hide Holds, HoldsCtx, Unaliased, UnaliasedCtx, Addrs, AddrsCtx, Shaped, ShapedCtx, Annotated, AnnotatedCtx,
           Anns, Sentinels, Paired, Diverges, Table, TableCtx, Plug, Join, LeafCtx;
      JoinCells(mem, c, v, b, s, leaf, tt + 1);
      var t := mem[tt].p;
      var x := if mem[t].r == tt then mem[t].l else mem[t].r;
      var mask := mem[tt].mask;
      var bit := mem[t].b;
      ghost var s', mk';
      s', mk' := Promote(t, x, v, b, c, s, leaf);
      FocusTree(tree, width, c, Join(t, v, b, s', leaf, mk'));
      JoinAnnotated(c, s, s', width, v, b, t, leaf, mk');
      ghost var c0 := LeafCtx(c, v, b, s', t, mk');
      LeafCtxPlugs(c, v, b, s', leaf, t, mk');
      LeafElsewhere(c0, leaf, width);
      if mask == None || mask.value > bit {
        NotLifted(c0, leaf);
      } else {
        Lift(tt, mask.value, c0, leaf);
      }
    }

    /**
     Add the route (v, mask), with the pair of node structures at `a` and `a + 1`.
     A route that is already there is refused and nothing changes.
     */
    method AddRoute(v: Key, mask: Option<nat>, a: Ptr) returns (ok: bool)
      requires Valid() && |v| == width && MaskFits(width, v, mask) && a !in mem && a + 1 !in mem
      requires v != Zeros(width) && v != Ones(width)
      requires v in Routes() ==> Routes()[v] == mask
      modifies this
      ensures Valid() && ok == (v !in old(Routes()))
      ensures Routes() == old(Routes())[v := mask]
      ensures mem.Keys == if ok then old(mem).Keys + {a, a + 1} else old(mem).Keys
    {
      hide Holds, HoldsCtx, Unaliased, UnaliasedCtx, Addrs, AddrsCtx, Shaped, ShapedCtx, Annotated, AnnotatedCtx,
           Anns, Paired, Sentinels, Diverges, Table, TableCtx, RoutesOf, MaskFits, Plug, Join, LeafCtx;
      ghost var t0 := tree;
      RoutesAdded(tree, width, v, mask);
      var tt, dup, c, s, b := Insert(v, a);
      if dup {
        return false;
      }
      FocusTree(t0, width, c, s);
      AbsentParts(t0, c, s, v);
      DivergesBit(s, v, b);
      ghost var leaf := Leaf(a, v, None, false, None);
      LeafCtxPlugs(c, v, b, s, leaf, a + 1, []);
      LeafCtxPlugs(c, v, b, s, leaf.(mask := mask), a + 1, []);
      if mask.Some? {
        SetMask(tt, mask.value, LeafCtx(c, v, b, s, a + 1, []), leaf);
        leaf := leaf.(mask := mask);
      }
      Annotate(tt, v, b, c, s, leaf);
      ok := true;
    }

    /** Where a block is in a list it is known to be in. */
    static method FindBlock(mk: seq<Mask>, m: Mask) returns (i: nat)
      requires m in mk
      ensures i < |mk| && mk[i] == m
    {
      i := 0;
      while mk[i] != m
        invariant 0 <= i < |mk| && m in mk[i..]
        decreases |mk| - i
      {
        i := i + 1;
      }
    }

    /** Take the block of the route at leaf `tt` out of the list it was lifted to. */
    method Unlist(tt: Ptr, ghost c0: Ctx, ghost leaf: Tree)
      requires Linked() && Annotated(tree, -1, None) && Plug(c0, leaf) == tree
      requires leaf.Leaf? && leaf.a == tt && leaf.ann.Some? && tt in mem && mem[tt] == CellOf(leaf, ParentAt(c0, tt))
      modifies this`mem, this`tree
      ensures Linked() && Annotated(tree, -1, Some(leaf.key)) && Table(tree) == Table(old(tree))
              && mem.Keys == old(mem).Keys
      ensures (Paired(old(mem), top) ==> Paired(mem, top)) && tt in mem && mem[tt].LeafCell?
      ensures mem[tt] == old(mem)[tt]
    {
      hide Holds, HoldsCtx, Unaliased, UnaliasedCtx, Addrs, AddrsCtx, Shaped, ShapedCtx, Annotated, AnnotatedCtx,
           Anns, Table, TableCtx, Plug, Leaving, Sentinels, SameKinds, Paired;
      LeafElsewhere(c0, leaf, width);
      LeavingLeaf(c0, leaf);
      RouteMask(c0, leaf, width);
      var m := mem[tt].ann.value;
      var x, c, s := Highest(tt, mem[tt].mask.value, c0, leaf);
      LeavingClimb(c0, leaf, c, s, width, leaf.key, m);
      LeavingKey(c, s, leaf.key, m);
      LiftedEntry(c0, leaf, c, s, width);
      BlockIsListed(c, s, leaf.key, m);
      ParentPlugs(c, s);
      Focus(c.up, Parent(c, s));
      var mk := mem[x].mk;
      var i := FindBlock(mk, m);
      DropBlock(c, s, width, leaf.key, m, i);
      SetMasks(x, Removed(mk, i), c.up, Parent(c, s));
    }

    /**
     Bring the annotation of the node or leaf at `x` up to date after the node above it, which listed `mk`, is gone.
     */
    method Demote(x: Ptr, mk: seq<Mask>, ghost c: Ctx, ghost s: Tree, ghost b: nat) returns (ghost s': Tree)
      requires Linked() && Plug(c, s) == tree && s.a == x
      requires HoleLo(c) < b && Annotated(s, b, None) && Lists(mk, Anns(s, None), HoleLo(c), b)
               && (s.Node? ==> b < |s.q|)
      modifies this`mem, this`tree
      ensures Linked() && tree == Plug(c, s') && Demoted(s, s', HoleLo(c))
      ensures Table(tree) == Table(old(tree)) && mem.Keys == old(mem).Keys && SameKinds(old(mem), mem)
    {
      Focus(c, s);
      if mem[x].InnerCell? {
        DemoteNode(s, mk, HoleLo(c), b);
        s' := s.(mk := s.mk + mk);
        SetMasks(x, mem[x].mk + mk, c, s);
      } else {
        // each block in the list is the leaf's own, so there is at most one and none is orphaned
        DemoteLeaf(s, mk, HoleLo(c), b);
        s' := s;
        if mk != [] {
          s' := s.(ann := None);
          SetBlock(x, None, c, s);
        }
      }
    }

    /** Copy the internal node at `x` to the vacant address `t`. */
    method MoveNode(x: Ptr, t: Ptr)
      requires Linked() && Annotated(tree, -1, None) && x in mem && mem[x].InnerCell? && x != top && t !in mem
      modifies this`mem, this`tree
      ensures Linked() && Annotated(tree, -1, None) && Table(tree) == Table(old(tree))
      ensures mem.Keys == old(mem).Keys - {x} + {t} && mem[t].InnerCell? && SameKinds(old(mem), mem)
    {
      hide Holds, HoldsCtx, Unaliased, UnaliasedCtx, Addrs, AddrsCtx, Shaped, ShapedCtx, Annotated, AnnotatedCtx,
           Anns, Table, TableCtx, SameKinds, Sentinels;
      ghost var c, n := FocusAt(tree, x, Top);
      Focus(c, n);
      MovedHolds(mem, top, tree, width, c, n, t);
      var node := mem[x];
      var p := mem[node.p];
      mem := (mem - {x})[t := node][node.l := mem[node.l].(p := t)][node.r := mem[node.r].(p := t)]
             [node.p := if p.l == x then p.(l := t) else p.(r := t)];
      tree := Plug(c, Node(t, n.q, n.l, n.r, n.mk));
    }

    /** Unlink the leaf at `tt`, whose block is no longer listed, and the internal node above it. */
    method Unlink(tt: Ptr, ghost c: Ctx, ghost leaf: Tree) returns (t: Ptr)
      requires Linked() && Plug(c, leaf) == tree && leaf.Leaf? && !leaf.root && leaf.a == tt
      requires Annotated(tree, -1, Some(leaf.key))
      modifies this`mem, this`tree
      ensures Linked() && Annotated(tree, -1, None) && Table(tree) == Table(old(tree)) - {leaf.key}
      ensures tt in old(mem) && old(mem)[tt].LeafCell? && !old(mem)[tt].root && t in old(mem) && old(mem)[t].InnerCell?
      ensures mem.Keys == old(mem).Keys - {t, tt} && SameKinds(old(mem), mem)
    {
      hide Holds, HoldsCtx, Unaliased, UnaliasedCtx, Addrs, AddrsCtx, Shaped, ShapedCtx, Annotated, AnnotatedCtx,
           Anns, Table, TableCtx, Plug, Lists, Demoted, Sentinels, SameKinds;
      UnlinkReady(mem, top, tree, width, c, leaf);
      t := mem[tt].p;
      var x := if mem[t].l == tt then mem[t].r else mem[t].l;
      var p := mem[t].p;
      var mk := mem[t].mk;
      mem := (mem - {t, tt})[p := if mem[p].r == t then mem[p].(r := x) else mem[p].(l := x)][x := mem[x].(p := p)];
      tree := Plug(c.up, Sibling(c));
      ghost var mem1 := mem;
      assert mem1 == UnlinkedMem(old(mem), tt);
      ghost var s' := Demote(x, mk, c.up, Sibling(c), |c.q|);
      UnspliceAnnotated(c, leaf, width, s');
      KindsChain(old(mem), mem1, mem);
    }

    /** Eliminate the leaf at `tt`, whose block is no longer listed, and one internal node with it. */
    method Eliminate(tt: Ptr, ghost c: Ctx, ghost leaf: Tree)
      requires Linked() && Paired(mem, top) && Plug(c, leaf) == tree && leaf.Leaf? && !leaf.root && leaf.a == tt
      requires Annotated(tree, -1, Some(leaf.key))
      modifies this`mem, this`tree
      ensures Linked() && Paired(mem, top) && Annotated(tree, -1, None)
      ensures Table(tree) == Table(old(tree)) - {leaf.key} && mem.Keys == old(mem).Keys - {tt, tt + 1}
    {
      hide Holds, HoldsCtx, Unaliased, UnaliasedCtx, Addrs, AddrsCtx, Shaped, ShapedCtx, Annotated, AnnotatedCtx,
           Anns, Table, TableCtx, Plug, SameKinds, Paired, Sentinels;
      var t := Unlink(tt, c, leaf);
      PairPresent(old(mem), top, tt);
      ghost var mem1 := mem;
      // the internal node allocated with the leaf may still be in use elsewhere: it takes over the one just unlinked
      if t != tt + 1 {
        InnerStays(old(mem), mem, tt + 1);
        MoveNode(tt + 1, t);
      }
      PairedAfter(old(mem), mem1, mem, top, tt, t);
    }

    /**
     Delete the route for `v` and release the pair of node structures it was added with. A key that is not stored, or is
     a sentinel, is refused and nothing changes. The mask is looked at only for a key that is stored more than once, so
     the route goes whatever its mask; exactly if the key is not stored or the mask is the right one, this is what was
     asked for.
     */
    method Delete(v: Key, mask: Option<nat>) returns (ok: bool, tt: Ptr)
      requires Valid() && |v| == width
      modifies this`mem, this`tree
      ensures Valid() && ok == (v in old(Routes()))
      ensures Routes() == old(Routes()) - {v}
      ensures Routes() == Without(old(Routes()), v, mask) <==> v !in old(Routes()) || old(Routes())[v] == mask
      ensures !ok ==> mem == old(mem)
      ensures ok ==> tt in old(mem) && old(mem)[tt].LeafCell? && old(mem)[tt].key == v
                     && mem.Keys == old(mem).Keys - {tt, tt + 1}
    {
      ghost var c, leaf;
      tt, c, leaf := Search(v, top, Top, tree);
      SearchExact(tree, width, v);
      RoutesRemoved(tree, width, c, leaf, v);
      RemovalMeant(Routes(), v, mask);
      if mem[tt].key != v || mem[tt].root {
        return false, tt;
      }
      hide Holds, HoldsCtx, Unaliased, UnaliasedCtx, Addrs, AddrsCtx, Shaped, ShapedCtx, Annotated, AnnotatedCtx,
           Anns, Table, TableCtx, Plug, RoutesOf;
      if mem[tt].mask.Some? && mem[tt].ann.Some? {
        Unlist(tt, c, leaf);
        ghost var cell := mem[tt];
        AllInUse(mem, tree, tt);
        c, leaf := FocusAt(tree, tt, Top);
        Focused(mem, c, leaf);
      } else {
        LeafElsewhere(c, leaf, width);
        BlockNeedsMask(c, leaf);
        NoBlock(c, leaf);
      }
      Eliminate(tt, c, leaf);
      ok := true;
    }
  }

  // ----- whole runs

  datatype Request = Add(key: Key, mask: Option<nat>) | Remove(key: Key, mask: Option<nat>)

  /** What a table should hold after a run of requests. */
  function Replayed(rs: seq<Request>): map<Key, Option<nat>> {
    if rs == [] then map[]
    else
      var before := Replayed(rs[..|rs| - 1]);
      match rs[|rs| - 1]
      case Add(k, m) => before[k := m]
      case Remove(k, _) => before - {k}
  }

  /** What it would hold if a route were removed only under its own mask. */
  function Intended(rs: seq<Request>): map<Key, Option<nat>> {
    if rs == [] then map[]
    else
      var before := Intended(rs[..|rs| - 1]);
      match rs[|rs| - 1]
      case Add(k, m) => before[k := m]
      case Remove(k, m) => Without(before, k, m)
  }

  /** Every removal is of a key that is not there or of one with the mask given. */
  predicate MasksGiven(rs: seq<Request>) {
    rs == [] || (MasksGiven(rs[..|rs| - 1]) && MaskGiven(Replayed(rs[..|rs| - 1]), rs[|rs| - 1]))
  }

  predicate MaskGiven(routes: map<Key, Option<nat>>, r: Request) {
    r.Remove? ==> r.key !in routes || routes[r.key] == r.mask
  }

  /** Up to the first removal under another mask the table holds what was intended; with that one it no longer does. */
  lemma {:induction false} RunAsIntended(rs: seq<Request>)
    requires rs != [] && MasksGiven(rs[..|rs| - 1])
    ensures Replayed(rs[..|rs| - 1]) == Intended(rs[..|rs| - 1])
    ensures Replayed(rs) == Intended(rs) <==> MasksGiven(rs)
    decreases |rs|
  {
    var before, r := rs[..|rs| - 1], rs[|rs| - 1];
    if before != [] {
      RunAsIntended(before);
    }
    if r.Remove? {
      RemovalMeant(Replayed(before), r.key, r.mask);
    }
  }

  /** A request in scope: a key that is its own masked form, not a sentinel, and not already there with another mask. */
  predicate Admissible(w: nat, routes: map<Key, Option<nat>>, r: Request) {
    && |r.key| == w
    && (r.Add? ==> && MaskFits(w, r.key, r.mask) && r.key != Zeros(w) && r.key != Ones(w)
                   && (r.key in routes ==> routes[r.key] == r.mask))
  }

  predicate AdmissibleRun(w: nat, rs: seq<Request>) {
    forall i :: 0 <= i < |rs| ==> Admissible(w, Replayed(rs[..i]), rs[i])
  }

  /** Serve any run of requests from an empty table, then look up `v`: the answer is that of a scan of the table. */
  method Serve(w: nat, base: Ptr, rs: seq<Request>, v: Key) returns (f: Found)
    requires 1 <= w && |v| == w && AdmissibleRun(w, rs)
    ensures f.Hit? <==> v != Ones(w) && exists k :: k in Replayed(rs) && Covers(v, k, Replayed(rs)[k])
    ensures f.Hit? ==> Best(Replayed(rs), v, f.key) && Replayed(rs)[f.key] == f.mask
    ensures f.Sentinel? <==> v == Zeros(w) || v == Ones(w)
  {
    hide Represents, Annotated, Paired, RoutesOf, Covers, Best, MaskFits, Zeros, Ones;
    var head := new RadixHead(w, base);
    for i := 0 to |rs|
      invariant head.Valid() && head.width == w && fresh(head)
      invariant head.Routes() == Replayed(rs[..i])
      invariant forall a :: a in head.mem ==> a < base + 3 + 2 * i
    {
      assert rs[..i + 1][..i] == rs[..i];
      match rs[i] {
        case Add(k, m) => var ok := head.AddRoute(k, m, base + 3 + 2 * i);
        case Remove(k, m) => var ok, tt := head.Delete(k, m);
      }
    }
    assert rs[..|rs|] == rs;
    f := head.Match(v);
  }

  /** A route added under one mask is gone after it was deleted under another. */
  method OtherMaskExample() returns (before: Found, after: Found, k: Key)
    ensures var rs := [Add(k, Some(1)), Remove(k, Some(2))];
            AdmissibleRun(2, rs) && before == Hit(k, Some(1)) && after == Miss && !MasksGiven(rs)
            && Intended(rs) == map[k := Some(1)]
  {
    k := [true, false];
    var rs := [Add(k, Some(1)), Remove(k, Some(2))];
    assert Ones(2) == [true, true] && Zeros(2) == [false, false];
    assert rs[..0] == [] && rs[..1] == [Add(k, Some(1))] && rs[..2] == rs;
    var one := rs[..1];
    assert one[..0] == [];
    assert Replayed(one) == map[k := Some(1)] == Intended(one);
    assert Replayed(rs) == map[];
    assert AdmissibleRun(2, one) && AdmissibleRun(2, rs);
    assert rs[1].Remove?;
    before := Serve(2, 0, one, k);
    assert k in Replayed(one) && Covers(k, k, Replayed(one)[k]);
    after := Serve(2, 0, rs, k);
  }

  /** The all-ones destination is answered by its sentinel although a route covers it. */
  method AllOnesExample() returns (f: Found, k: Key)
    ensures f == Sentinel && Covers(Ones(2), k, Some(1)) && Replayed([Add(k, Some(1))]) == map[k := Some(1)]
    ensures AdmissibleRun(2, [Add(k, Some(1))])
  {
    k := [true, false];
    var rs := [Add(k, Some(1))];
    assert Ones(2) == [true, true] && Zeros(2) == [false, false];
    assert rs[..0] == [];
    f := Serve(2, 0, rs, Ones(2));
  }
}