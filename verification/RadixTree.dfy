/**
 The routing tree as a value: a PATRICIA tree over fixed-width bit strings whose
 internal nodes carry lists of mask annotations, together with one-hole contexts
 that name a position in it.  Every address of the imperative tree is kept in the
 value, so that a memory represents at most one tree.
 */
module RadixTree {
  import opened Prelude

  type Key = seq<bool>
  type Ptr = nat

  /** An annotation block: its address and the index of the mask it stands for. */
  datatype Mask = Mask(id: nat, idx: nat)

  /** `q` is the bit string shared by all keys below an internal node; the bit tested there is `|q|`. */
  datatype Tree =
    | Leaf(a: Ptr, key: Key, mask: Option<nat>, root: bool, ann: Option<Mask>)
    | Node(a: Ptr, q: Key, l: Tree, r: Tree, mk: seq<Mask>)

  /** A position in a tree: the path from a subtree up to the root. */
  datatype Ctx =
    | Top
    | InL(a: Ptr, q: Key, mk: seq<Mask>, up: Ctx, r: Tree)
    | InR(a: Ptr, q: Key, mk: seq<Mask>, up: Ctx, l: Tree)

  datatype Entry = Entry(mask: Option<nat>, root: bool)

  function Plug(c: Ctx, s: Tree): Tree {
    match c
    case Top => s
    case InL(a, q, mk, up, r) => Plug(up, Node(a, q, s, r, mk))
    case InR(a, q, mk, up, l) => Plug(up, Node(a, q, l, s, mk))
  }

  // ----- the table of leaves

  function Table(t: Tree): map<Key, Entry> {
    match t
    case Leaf(_, k, m, root, _) => map[k := Entry(m, root)]
    case Node(_, _, l, r, _) => Table(l) + Table(r)
  }

  function TableCtx(c: Ctx): map<Key, Entry> {
    match c
    case Top => map[]
    case InL(_, _, _, up, r) => Table(r) + TableCtx(up)
    case InR(_, _, _, up, l) => Table(l) + TableCtx(up)
  }

  // ----- shape: the PATRICIA invariant

  predicate ZeroFrom(k: Key, i: nat) {
    forall j :: i <= j < |k| ==> !k[j]
  }

  predicate MaskFits(w: nat, k: Key, m: Option<nat>) {
    m.Some? ==> 1 <= m.value <= w && ZeroFrom(k, m.value)
  }

  /** All keys below have width `w` and extend `pre`; bit indices grow downwards; left is 0, right is 1. */
  predicate Shaped(t: Tree, w: nat, pre: Key) {
    match t
    case Leaf(_, k, m, root, ann) =>
      |k| == w && pre <= k && MaskFits(w, k, m) && (root ==> m == None)
    case Node(_, q, l, r, _) =>
      pre <= q && |q| < w && Shaped(l, w, q + [false]) && Shaped(r, w, q + [true])
  }

  function HolePre(c: Ctx): Key {
    match c
    case Top => []
    case InL(_, q, _, _, _) => q + [false]
    case InR(_, q, _, _, _) => q + [true]
  }

  predicate ShapedCtx(c: Ctx, w: nat) {
    match c
    case Top => true
    case InL(_, q, _, up, r) =>
      HolePre(up) <= q && |q| < w && Shaped(r, w, q + [true]) && ShapedCtx(up, w)
    case InR(_, q, _, up, l) =>
      HolePre(up) <= q && |q| < w && Shaped(l, w, q + [false]) && ShapedCtx(up, w)
  }

  lemma {:induction false} PlugShaped(c: Ctx, s: Tree, w: nat)
    ensures Shaped(Plug(c, s), w, []) <==> ShapedCtx(c, w) && Shaped(s, w, HolePre(c))
  {
    match c
    case Top =>
    case InL(a, q, mk, up, r) => PlugShaped(up, Node(a, q, s, r, mk), w);
    case InR(a, q, mk, up, l) => PlugShaped(up, Node(a, q, l, s, mk), w);
  }

  lemma {:induction false} KeyExtends(t: Tree, w: nat, pre: Key, k: Key)
    requires Shaped(t, w, pre) && k in Table(t)
    ensures |k| == w && pre <= k && MaskFits(w, k, Table(t)[k].mask)
    ensures Table(t)[k].root ==> Table(t)[k].mask == None
    ensures t.Node? ==> t.q <= k && (k[|t.q|] <==> k in Table(t.r)) && (!k[|t.q|] <==> k in Table(t.l))
  {
    if t.Node? {
      if k in Table(t.r) {
        KeyExtends(t.r, w, t.q + [true], k);
        assert k[|t.q|] == (t.q + [true])[|t.q|];
      }
      if k in Table(t.l) {
        KeyExtends(t.l, w, t.q + [false], k);
        assert k[|t.q|] == (t.q + [false])[|t.q|];
      }
    }
  }

  lemma {:induction false} NonEmpty(t: Tree)
    ensures exists k :: k in Table(t)
  {
    match t
    case Leaf(_, k, _, _, _) => assert k in Table(t);
    case Node(_, _, l, r, _) =>
      NonEmpty(l);
      var k :| k in Table(l);
      assert k in Table(t);
  }

  lemma MapRotate<K, V>(x: map<K, V>, y: map<K, V>, z: map<K, V>)
    requires x.Keys !! y.Keys && x.Keys !! z.Keys && y.Keys !! z.Keys
    ensures x + (y + z) == (z + x) + y == (y + x) + z
    ensures (z + x).Keys !! y.Keys && (y + x).Keys !! z.Keys
  {
  }

  lemma {:induction false} PlugTable(c: Ctx, s: Tree, w: nat)
    requires Shaped(Plug(c, s), w, [])
    ensures Table(Plug(c, s)) == TableCtx(c) + Table(s)
    ensures TableCtx(c).Keys !! Table(s).Keys
    decreases c, 0
  {
    match c
    case Top =>
      assert TableCtx(c) + Table(s) == Table(s);
    case InL(a, q, mk, up, r) =>
      PlugTableStep(up, Node(a, q, s, r, mk), w);
      MapRotate(TableCtx(up), Table(s), Table(r));
    case InR(a, q, mk, up, l) =>
      PlugTableStep(up, Node(a, q, l, s, mk), w);
      MapRotate(TableCtx(up), Table(l), Table(s));
  }

  lemma {:induction false} PlugTableStep(up: Ctx, n: Tree, w: nat)
    requires Shaped(Plug(up, n), w, []) && n.Node?
    ensures Table(Plug(up, n)) == TableCtx(up) + (Table(n.l) + Table(n.r))
    ensures TableCtx(up).Keys !! Table(n.l).Keys && TableCtx(up).Keys !! Table(n.r).Keys
    ensures Table(n.l).Keys !! Table(n.r).Keys
    decreases up, 1
  {
    PlugTable(up, n, w);
    PlugShaped(up, n, w);
    Disjoint(n, w, HolePre(up));
  }

  lemma Disjoint(t: Tree, w: nat, pre: Key)
    requires t.Node? && Shaped(t, w, pre)
    ensures Table(t.l).Keys !! Table(t.r).Keys
  {
    forall k | k in Table(t.l) && k in Table(t.r) ensures false {
      KeyExtends(t, w, pre, k);
    }
  }

  // ----- search

  /** The leaf that following the bits of `v` leads to. */
  function Search(t: Tree, v: Key): Tree {
    match t
    case Leaf(_, _, _, _, _) => t
    case Node(_, q, l, r, _) => if |q| < |v| && v[|q|] then Search(r, v) else Search(l, v)
  }

  lemma {:induction false} SearchLeaf(t: Tree, w: nat, pre: Key, v: Key)
    requires Shaped(t, w, pre) && |v| == w
    ensures var s := Search(t, v);
            s.Leaf? && s.key in Table(t) && Table(t)[s.key] == Entry(s.mask, s.root)
  {
    if t.Node? {
      Disjoint(t, w, pre);
      if v[|t.q|] {
        SearchLeaf(t.r, w, t.q + [true], v);
      } else {
        SearchLeaf(t.l, w, t.q + [false], v);
      }
    }
  }

  /** Following a stored key leads to its own leaf. */
  lemma {:induction false} SearchFinds(t: Tree, w: nat, pre: Key, k: Key)
    requires Shaped(t, w, pre) && k in Table(t)
    ensures Search(t, k).Leaf? && Search(t, k).key == k
  {
    KeyExtends(t, w, pre, k);
    if t.Node? {
      if k[|t.q|] {
        SearchFinds(t.r, w, t.q + [true], k);
      } else {
        SearchFinds(t.l, w, t.q + [false], k);
      }
    }
  }

  /** The leaf search reaches carries the sought key exactly when the key is stored. */
  lemma SearchExact(t: Tree, w: nat, v: Key)
    requires Shaped(t, w, []) && |v| == w
    ensures Search(t, v).Leaf?
    ensures Search(t, v).key == v <==> v in Table(t)
  {
    SearchLeaf(t, w, [], v);
    if v in Table(t) {
      SearchFinds(t, w, [], v);
    }
  }

  /** `v` takes the path that `c` describes. */
  predicate Follows(c: Ctx, v: Key) {
    match c
    case Top => true
    case InL(_, q, _, up, _) => |q| < |v| && !v[|q|] && Follows(up, v)
    case InR(_, q, _, up, _) => |q| < |v| && v[|q|] && Follows(up, v)
  }

  lemma {:induction false} SearchPlug(c: Ctx, s: Tree, v: Key)
    requires Follows(c, v)
    ensures Search(Plug(c, s), v) == Search(s, v)
  {
    match c
    case Top =>
    case InL(a, q, mk, up, r) => SearchPlug(up, Node(a, q, s, r, mk), v);
    case InR(a, q, mk, up, l) => SearchPlug(up, Node(a, q, l, s, mk), v);
  }

  // ----- annotations

  function HoleLo(c: Ctx): int { |HolePre(c)| - 1 }

  /** The annotation blocks that leaves of `t`, other than the one with key `ex`, refer to. */
  function Anns(t: Tree, ex: Option<Key>): set<Mask> {
    match t
    case Leaf(_, k, _, _, ann) => if ex != Some(k) && ann.Some? then {ann.value} else {}
    case Node(_, _, l, r, _) => Anns(l, ex) + Anns(r, ex)
  }

  predicate Descending(mk: seq<Mask>) {
    forall i, j :: 0 <= i < j < |mk| ==> mk[i].idx > mk[j].idx
  }

  /** `mk` lists, longest mask first, exactly the blocks of `s` whose index is in (lo, b]. */
  ghost predicate Lists(mk: seq<Mask>, s: set<Mask>, lo: int, b: int) {
    && Descending(mk)
    && (forall m :: m in mk <==> m in s && lo < m.idx <= b)
  }

  /**
   A leaf has a block exactly when its mask index does not exceed the bit tested at its parent,
   and a block is listed at the highest node whose bit is still at least the mask index.
   The leaf with key `ex` is exempt.
   */
  ghost predicate Annotated(t: Tree, lo: int, ex: Option<Key>) {
    match t
    case Leaf(_, k, m, _, ann) =>
      && (ex == Some(k) || (ann.Some? <==> m.Some? && m.value <= lo))
      && (ann.Some? ==> m == Some(ann.value.idx))
    case Node(_, q, l, r, mk) =>
      && Lists(mk, Anns(t, ex), lo, |q|)
      && Annotated(l, |q|, ex)
      && Annotated(r, |q|, ex)
  }

  /** The same for the nodes above a hole, given the blocks referred to from the hole. */
  ghost predicate AnnotatedCtx(c: Ctx, s: set<Mask>, ex: Option<Key>) {
    match c
    case Top => true
    case InL(_, q, mk, up, r) =>
      && Lists(mk, s + Anns(r, ex), HoleLo(up), |q|)
      && Annotated(r, |q|, ex)
      && AnnotatedCtx(up, s + Anns(r, ex), ex)
    case InR(_, q, mk, up, l) =>
      && Lists(mk, Anns(l, ex) + s, HoleLo(up), |q|)
      && Annotated(l, |q|, ex)
      && AnnotatedCtx(up, Anns(l, ex) + s, ex)
  }

  lemma {:induction false} PlugAnnotated(c: Ctx, s: Tree, ex: Option<Key>)
    ensures Annotated(Plug(c, s), -1, ex) <==> AnnotatedCtx(c, Anns(s, ex), ex) && Annotated(s, HoleLo(c), ex)
  {
    match c
    case Top =>
    case InL(a, q, mk, up, r) => PlugAnnotated(up, Node(a, q, s, r, mk), ex);
    case InR(a, q, mk, up, l) => PlugAnnotated(up, Node(a, q, l, s, mk), ex);
  }

  /** Nodes above a hole only look at blocks whose index is at most the bit just above the hole. */
  lemma {:induction false} CtxSwap(c: Ctx, w: nat, s: set<Mask>, s': set<Mask>, ex: Option<Key>)
    requires ShapedCtx(c, w) && AnnotatedCtx(c, s, ex)
    requires forall m: Mask :: m.idx <= HoleLo(c) ==> (m in s <==> m in s')
    ensures AnnotatedCtx(c, s', ex)
  {
    match c
    case Top =>
    case InL(_, q, mk, up, r) =>
      assert |q| == HoleLo(c) && HoleLo(up) < |q|;
      CtxSwap(up, w, s + Anns(r, ex), s' + Anns(r, ex), ex);
    case InR(_, q, mk, up, l) =>
      assert |q| == HoleLo(c) && HoleLo(up) < |q|;
      CtxSwap(up, w, Anns(l, ex) + s, Anns(l, ex) + s', ex);
  }
}
