/**
 The tree in memory: a map from addresses to node cells, and what it means for such
 a memory to hold a tree or the surroundings of a hole.
 */
module RadixMemory {
  import opened Prelude
  import opened RadixTree

  /** A node structure.  `b` is the bit tested at an internal node, and -1 - index(mask) at a leaf. */
  datatype Cell =
    | LeafCell(p: Ptr, b: int, key: Key, mask: Option<nat>, root: bool, ann: Option<Mask>)
    | InnerCell(p: Ptr, b: int, l: Ptr, r: Ptr, mk: seq<Mask>)

  type Memory = map<Ptr, Cell>

  function LeafBit(m: Option<nat>): int {
    if m.Some? then -1 - m.value else -1
  }

  function CellOf(t: Tree, pa: Ptr): Cell {
    match t
    case Leaf(_, k, m, root, ann) => LeafCell(pa, LeafBit(m), k, m, root, ann)
    case Node(_, q, l, r, mk) => InnerCell(pa, |q|, l.a, r.a, mk)
  }

  predicate Holds(mem: Memory, t: Tree, pa: Ptr) {
    && t.a in mem
    && mem[t.a] == CellOf(t, pa)
    && (t.Node? ==> Holds(mem, t.l, t.a) && Holds(mem, t.r, t.a))
  }

  /** The parent address of the subtree at a hole; the root is its own parent. */
  function ParentAt(c: Ctx, self: Ptr): Ptr {
    match c
    case Top => self
    case InL(a, _, _, _, _) => a
    case InR(a, _, _, _, _) => a
  }

  predicate HoldsCtx(mem: Memory, c: Ctx, hole: Ptr) {
    match c
    case Top => true
    case InL(a, q, mk, up, r) =>
      && a in mem && mem[a] == InnerCell(ParentAt(up, a), |q|, hole, r.a, mk)
      && Holds(mem, r, a) && HoldsCtx(mem, up, a)
    case InR(a, q, mk, up, l) =>
      && a in mem && mem[a] == InnerCell(ParentAt(up, a), |q|, l.a, hole, mk)
      && Holds(mem, l, a) && HoldsCtx(mem, up, a)
  }

  lemma {:induction false} PlugHolds(mem: Memory, c: Ctx, s: Tree)
    ensures Holds(mem, Plug(c, s), Plug(c, s).a)
            <==> HoldsCtx(mem, c, s.a) && Holds(mem, s, ParentAt(c, s.a))
  {
    match c
    case Top =>
    case InL(a, q, mk, up, r) => PlugHolds(mem, up, Node(a, q, s, r, mk));
    case InR(a, q, mk, up, l) => PlugHolds(mem, up, Node(a, q, l, s, mk));
  }

  // ----- addresses

  function Addrs(t: Tree): set<Ptr> {
    match t
    case Leaf(a, _, _, _, _) => {a}
    case Node(a, _, l, r, _) => {a} + Addrs(l) + Addrs(r)
  }

  function AddrsCtx(c: Ctx): set<Ptr> {
    match c
    case Top => {}
    case InL(a, _, _, up, r) => {a} + Addrs(r) + AddrsCtx(up)
    case InR(a, _, _, up, l) => {a} + Addrs(l) + AddrsCtx(up)
  }

  predicate Unaliased(t: Tree) {
    match t
    case Leaf(_, _, _, _, _) => true
    case Node(a, _, l, r, _) =>
      a !in Addrs(l) && a !in Addrs(r) && Addrs(l) !! Addrs(r) && Unaliased(l) && Unaliased(r)
  }

  predicate UnaliasedCtx(c: Ctx) {
    match c
    case Top => true
    case InL(a, _, _, up, r) =>
      a !in Addrs(r) && Unaliased(r) && UnaliasedCtx(up) && a !in AddrsCtx(up) && Addrs(r) !! AddrsCtx(up)
    case InR(a, _, _, up, l) =>
      a !in Addrs(l) && Unaliased(l) && UnaliasedCtx(up) && a !in AddrsCtx(up) && Addrs(l) !! AddrsCtx(up)
  }

  lemma {:induction false} PlugAddrs(c: Ctx, s: Tree)
    ensures Addrs(Plug(c, s)) == AddrsCtx(c) + Addrs(s)
    ensures Unaliased(Plug(c, s)) <==> UnaliasedCtx(c) && Unaliased(s) && Addrs(s) !! AddrsCtx(c)
  {
    match c
    case Top =>
    case InL(a, q, mk, up, r) => PlugAddrs(up, Node(a, q, s, r, mk));
    case InR(a, q, mk, up, l) => PlugAddrs(up, Node(a, q, l, s, mk));
  }

  lemma {:induction false} RootAddr(t: Tree)
    ensures t.a in Addrs(t)
  {
  }

  // ----- framing

  predicate Same(mem: Memory, mem': Memory, s: set<Ptr>) {
    forall a :: a in s ==> a in mem && a in mem' && mem[a] == mem'[a]
  }

  lemma {:induction false} HoldsFrame(mem: Memory, mem': Memory, t: Tree, pa: Ptr)
    requires Holds(mem, t, pa) && Same(mem, mem', Addrs(t))
    ensures Holds(mem', t, pa)
  {
    RootAddr(t);
    if t.Node? {
      HoldsFrame(mem, mem', t.l, t.a);
      HoldsFrame(mem, mem', t.r, t.a);
    }
  }

  lemma {:induction false} HoldsCtxFrame(mem: Memory, mem': Memory, c: Ctx, hole: Ptr)
    requires HoldsCtx(mem, c, hole) && Same(mem, mem', AddrsCtx(c))
    ensures HoldsCtx(mem', c, hole)
  {
    match c
    case Top =>
    case InL(a, _, _, up, r) =>
      HoldsFrame(mem, mem', r, a);
      HoldsCtxFrame(mem, mem', up, a);
    case InR(a, _, _, up, l) =>
      HoldsFrame(mem, mem', l, a);
      HoldsCtxFrame(mem, mem', up, a);
  }

  // ----- in-place updates

  lemma {:induction false} RootOfPlug(c: Ctx, s: Tree, s': Tree)
    ensures c == Top ==> Plug(c, s).a == s.a
    ensures c != Top ==> Plug(c, s).a in AddrsCtx(c) && Plug(c, s).a == Plug(c, s').a
  {
    match c
    case Top =>
    case InL(a, q, mk, up, r) => RootOfPlug(up, Node(a, q, s, r, mk), Node(a, q, s', r, mk));
    case InR(a, q, mk, up, l) => RootOfPlug(up, Node(a, q, l, s, mk), Node(a, q, l, s', mk));
  }

  /** The cell just above a hole, with the hole filled by the node at `hole`. */
  function HoleCell(c: Ctx, hole: Ptr): Cell
    requires c != Top
  {
    match c
    case InL(a, q, mk, up, r) => InnerCell(ParentAt(up, a), |q|, hole, r.a, mk)
    case InR(a, q, mk, up, l) => InnerCell(ParentAt(up, a), |q|, l.a, hole, mk)
  }

  lemma Reparent(mem: Memory, mem': Memory, s: Tree, pa: Ptr, pa': Ptr)
    requires Holds(mem, s, pa) && Unaliased(s)
    requires Same(mem, mem', Addrs(s) - {s.a}) && s.a in mem' && mem'[s.a] == CellOf(s, pa')
    ensures Holds(mem', s, pa')
  {
    if s.Node? {
      HoldsFrame(mem, mem', s.l, s.a);
      HoldsFrame(mem, mem', s.r, s.a);
    }
  }

  lemma Rehole(mem: Memory, mem': Memory, c: Ctx, hole: Ptr, hole': Ptr)
    requires c != Top && HoldsCtx(mem, c, hole) && UnaliasedCtx(c)
    requires Same(mem, mem', AddrsCtx(c) - {c.a}) && c.a in mem' && mem'[c.a] == HoleCell(c, hole')
    ensures HoldsCtx(mem', c, hole')
  {
    var sib := if c.InL? then c.r else c.l;
    HoldsFrame(mem, mem', sib, c.a);
    HoldsCtxFrame(mem, mem', c.up, c.a);
  }

  /** A memory that is exactly the given tree. */
  predicate Exactly(mem: Memory, t: Tree) {
    Holds(mem, t, t.a) && Unaliased(t) && mem.Keys == Addrs(t)
  }

  lemma Focused(mem: Memory, c: Ctx, s: Tree)
    requires Exactly(mem, Plug(c, s))
    ensures HoldsCtx(mem, c, s.a) && Holds(mem, s, ParentAt(c, s.a))
    ensures UnaliasedCtx(c) && Unaliased(s) && Addrs(s) !! AddrsCtx(c) && mem.Keys == AddrsCtx(c) + Addrs(s)
    ensures c != Top ==> c.a in AddrsCtx(c) && c.a in mem && mem[c.a] == HoleCell(c, s.a)
    ensures s.a in Addrs(s) && mem[s.a] == CellOf(s, ParentAt(c, s.a))
    ensures s.a == Plug(c, s).a <==> c == Top
  {
    PlugHolds(mem, c, s);
    PlugAddrs(c, s);
    RootAddr(s);
    RootOfPlug(c, s, s);
  }

  lemma Refocused(mem: Memory, c: Ctx, s: Tree)
    requires HoldsCtx(mem, c, s.a) && Holds(mem, s, ParentAt(c, s.a))
    requires UnaliasedCtx(c) && Unaliased(s) && Addrs(s) !! AddrsCtx(c) && mem.Keys == AddrsCtx(c) + Addrs(s)
    ensures Exactly(mem, Plug(c, s))
  {
    PlugHolds(mem, c, s);
    PlugAddrs(c, s);
  }

  /** Overwriting one cell, keeping its links, changes just that node of the tree. */
  lemma SetCell(mem: Memory, c: Ctx, n: Tree, n': Tree)
    requires Exactly(mem, Plug(c, n))
    requires n'.a == n.a && (n.Node? <==> n'.Node?) && (n.Node? ==> n'.l == n.l && n'.r == n.r)
    ensures Exactly(mem[n.a := CellOf(n', ParentAt(c, n.a))], Plug(c, n'))
    ensures Plug(c, n').a == Plug(c, n).a
  {
    Focused(mem, c, n);
    var mem' := mem[n.a := CellOf(n', ParentAt(c, n.a))];
    HoldsCtxFrame(mem, mem', c, n.a);
    if n.Node? {
      HoldsFrame(mem, mem', n.l, n.a);
      HoldsFrame(mem, mem', n.r, n.a);
    }
    assert mem'.Keys == mem.Keys;
    Refocused(mem', c, n');
    RootOfPlug(c, n, n');
  }

  /** Splicing a new internal node `n`, with a new leaf on one side and `s` on the other, in above `s`. */
  lemma Spliced(mem: Memory, mem': Memory, c: Ctx, s: Tree, n: Tree, leaf: Tree)
    requires Exactly(mem, Plug(c, s)) && c != Top
    requires n.Node? && leaf.Leaf? && ((n.l == s && n.r == leaf) || (n.l == leaf && n.r == s))
    requires n.a !in mem && leaf.a !in mem && n.a != leaf.a
    requires mem'.Keys == mem.Keys + {n.a, leaf.a}
    requires mem'[leaf.a] == CellOf(leaf, n.a) && mem'[n.a] == CellOf(n, c.a)
    requires c.a in mem' && mem'[c.a] == HoleCell(c, n.a) && s.a in mem' && mem'[s.a] == CellOf(s, n.a)
    requires Same(mem, mem', mem.Keys - {c.a, s.a})
    ensures Exactly(mem', Plug(c, n)) && Plug(c, n).a == Plug(c, s).a
  {
    hide HoldsCtx, UnaliasedCtx, AddrsCtx, Plug;
    Focused(mem, c, s);
    Reparent(mem, mem', s, c.a, n.a);
    Rehole(mem, mem', c, s.a, n.a);
    assert Addrs(n) == {n.a, leaf.a} + Addrs(s);
    Refocused(mem', c, n);
    RootOfPlug(c, s, n);
  }

  /** Taking an internal node `n` and its leaf child out, leaving the other child `s` in its place. */
  lemma Unspliced(mem: Memory, mem': Memory, c: Ctx, s: Tree, n: Tree, leaf: Tree)
    requires Exactly(mem, Plug(c, n)) && c != Top
    requires n.Node? && leaf.Leaf? && ((n.l == s && n.r == leaf) || (n.l == leaf && n.r == s))
    requires mem'.Keys == mem.Keys - {n.a, leaf.a}
    requires c.a in mem' && mem'[c.a] == HoleCell(c, s.a) && s.a in mem' && mem'[s.a] == CellOf(s, c.a)
    requires Same(mem, mem', mem'.Keys - {c.a, s.a})
    ensures Exactly(mem', Plug(c, s)) && Plug(c, s).a == Plug(c, n).a
  {
    hide HoldsCtx, UnaliasedCtx, AddrsCtx, Plug;
    Focused(mem, c, n);
    assert Addrs(n) == {n.a, leaf.a} + Addrs(s);
    Reparent(mem, mem', s, n.a, c.a);
    Rehole(mem, mem', c, n.a, s.a);
    Refocused(mem', c, s);
    RootOfPlug(c, s, n);
  }

  /** Moving an internal node to a fresh address and redirecting the three links to it. */
  lemma Moved(mem: Memory, mem': Memory, c: Ctx, n: Tree, a: Ptr)
    requires Exactly(mem, Plug(c, n)) && c != Top && n.Node? && a !in mem
    requires mem'.Keys == mem.Keys - {n.a} + {a}
    requires n.a in mem && mem'[a] == mem[n.a] && c.a in mem' && mem'[c.a] == HoleCell(c, a)
    requires n.l.a in mem' && mem'[n.l.a] == CellOf(n.l, a) && n.r.a in mem' && mem'[n.r.a] == CellOf(n.r, a)
    requires Same(mem, mem', mem'.Keys - {a, c.a, n.l.a, n.r.a})
    ensures Exactly(mem', Plug(c, Node(a, n.q, n.l, n.r, n.mk)))
            && Plug(c, Node(a, n.q, n.l, n.r, n.mk)).a == Plug(c, n).a
  {
    hide HoldsCtx, UnaliasedCtx, AddrsCtx, Plug;
    Focused(mem, c, n);
    RootAddr(n.l);
    RootAddr(n.r);
    Reparent(mem, mem', n.l, n.a, a);
    Reparent(mem, mem', n.r, n.a, a);
    Rehole(mem, mem', c, n.a, a);
    Refocused(mem', c, Node(a, n.q, n.l, n.r, n.mk));
    RootOfPlug(c, n, Node(a, n.q, n.l, n.r, n.mk));
  }

  /** Every node in use can be focused on. */
  lemma {:induction false} FocusAt(t: Tree, a: Ptr, c0: Ctx) returns (c: Ctx, s: Tree)
    requires a in Addrs(t)
    ensures Plug(c, s) == Plug(c0, t) && s.a == a
    decreases t
  {
    if t.a == a {
      c, s := c0, t;
    } else if a in Addrs(t.l) {
      c, s := FocusAt(t.l, a, InL(t.a, t.q, t.mk, c0, t.r));
    } else {
      c, s := FocusAt(t.r, a, InR(t.a, t.q, t.mk, c0, t.l));
    }
  }
}
