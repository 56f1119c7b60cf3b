/** Longest-prefix matching: what a lookup should return, and why the tree's annotations find it. */
module RadixLookup {
  import opened Prelude
  import opened RadixTree

  /** Destination `v` is covered by route `k` with mask `m`; no mask means a host route. */
  predicate Covers(v: Key, k: Key, m: Option<nat>) {
    && |v| == |k|
    && match m
       case None => v == k
       case Some(p) => p <= |v| && v[..p] == k[..p]
  }

  function MaskLen(w: nat, m: Option<nat>): nat {
    match m case None => w case Some(p) => p
  }

  /** `k` is the one covering route with the longest mask, judged by a scan of the whole table. */
  ghost predicate Best(routes: map<Key, Option<nat>>, v: Key, k: Key) {
    && k in routes && Covers(v, k, routes[k])
    && forall k' :: k' in routes && k' != k && Covers(v, k', routes[k'])
                    ==> MaskLen(|v|, routes[k']) < MaskLen(|v|, routes[k])
  }

  /** Two keys that vanish beyond the shorter mask and cover a common destination are equal. */
  lemma CoversSame(w: nat, v: Key, k: Key, k': Key, p: nat)
    requires |v| == |k| == |k'| == w && p <= w
    requires ZeroFrom(k, p) && ZeroFrom(k', p)
    requires v[..p] == k[..p] && v[..p] == k'[..p]
    ensures k == k'
  {
    forall i | 0 <= i < w ensures k[i] == k'[i] {
      if i < p {
        assert k[i] == k[..p][i] && k'[i] == k'[..p][i];
      }
    }
  }

  lemma {:induction false} FollowsAgree(c: Ctx, w: nat, v: Key, k: Key)
    requires ShapedCtx(c, w) && Follows(c, v) && |v| == |k| == w
    requires |HolePre(c)| <= w && v[..|HolePre(c)|] == k[..|HolePre(c)|]
    ensures Follows(c, k)
  {
    var n := |HolePre(c)|;
    assert forall i :: 0 <= i < n ==> v[i] == v[..n][i] == k[..n][i] == k[i];
    match c
    case Top =>
    case InL(_, q, _, up, _) => FollowsAgree(up, w, v, k);
    case InR(_, q, _, up, _) => FollowsAgree(up, w, v, k);
  }

  /** A stored key that agrees with `v` on every bit tested on the way to the hole is stored below the hole. */
  lemma StoredBelow(c: Ctx, s: Tree, w: nat, v: Key, k: Key)
    requires Shaped(Plug(c, s), w, []) && Follows(c, v) && |v| == |k| == w
    requires |HolePre(c)| <= w && v[..|HolePre(c)|] == k[..|HolePre(c)|]
    requires k in Table(Plug(c, s))
    ensures k in Table(s) && Table(s)[k] == Table(Plug(c, s))[k]
  {
    PlugShaped(c, s, w);
    FollowsAgree(c, w, v, k);
    SearchPlug(c, s, k);
    SearchFinds(Plug(c, s), w, [], k);
    SearchLeaf(s, w, HolePre(c), k);
    PlugTable(c, s, w);
  }

  /** A leaf below bit `lo` whose mask index is at most `lo` has its block among those of the subtree. */
  lemma {:induction false} BlockOf(t: Tree, w: nat, pre: Key, lo: int, k: Key) returns (m: Mask)
    requires Shaped(t, w, pre) && Annotated(t, lo, None)
    requires k in Table(t) && Table(t)[k].mask.Some?
    requires Table(t)[k].mask.value <= (if t.Node? then |t.q| else lo)
    ensures m in Anns(t, None) && m.idx == Table(t)[k].mask.value
  {
    match t
    case Leaf(_, _, _, _, ann) => m := ann.value;
    case Node(_, q, l, r, _) =>
      Disjoint(t, w, pre);
      if k in Table(l) {
        m := BlockOf(l, w, q + [false], |q|, k);
      } else {
        m := BlockOf(r, w, q + [true], |q|, k);
      }
  }

  /** A leaf's block stands for the leaf's own mask. */
  predicate BlocksMatch(t: Tree) {
    match t
    case Leaf(_, _, m, _, ann) => ann.Some? ==> m == Some(ann.value.idx)
    case Node(_, _, l, r, _) => BlocksMatch(l) && BlocksMatch(r)
  }

  lemma {:induction false} AnnotatedBlocks(t: Tree, lo: int, ex: Option<Key>)
    requires Annotated(t, lo, ex)
    ensures BlocksMatch(t)
  {
    if t.Node? {
      AnnotatedBlocks(t.l, |t.q|, ex);
      AnnotatedBlocks(t.r, |t.q|, ex);
    }
  }

  /** A block of a subtree belongs to a leaf of the subtree with that mask. */
  lemma {:induction false} LeafOf(t: Tree, w: nat, pre: Key, ex: Option<Key>, m: Mask) returns (k: Key)
    requires Shaped(t, w, pre) && BlocksMatch(t) && m in Anns(t, ex)
    ensures k in Table(t) && Table(t)[k].mask == Some(m.idx) && ex != Some(k)
  {
    match t
    case Leaf(_, key, _, _, _) => k := key;
    case Node(_, q, l, r, _) =>
      Disjoint(t, w, pre);
      if m in Anns(l, ex) {
        k := LeafOf(l, w, q + [false], ex, m);
      } else {
        k := LeafOf(r, w, q + [true], ex, m);
      }
  }

  lemma {:induction false} SearchAgree(t: Tree, w: nat, pre: Key, v: Key, v': Key, off: nat)
    requires Shaped(t, w, pre) && |v| == |v'| == w
    requires t.Node? ==> off <= |t.q|
    requires forall i :: off <= i < w ==> v[i] == v'[i]
    ensures Search(t, v) == Search(t, v')
  {
    if t.Node? {
      if v[|t.q|] {
        SearchAgree(t.r, w, t.q + [true], v, v', off);
      } else {
        SearchAgree(t.l, w, t.q + [false], v, v', off);
      }
    }
  }

  /** What masking `v` from bit `off` on leaves there; the bits before `off` are left over from earlier use. */
  predicate MaskedFrom(masked: Key, v: Key, off: nat, idx: nat) {
    |masked| == |v| && forall i :: off <= i < |v| ==> masked[i] == (v[i] && i < idx)
  }

  predicate SameFrom(x: Key, y: Key, off: nat) {
    |x| == |y| && forall i :: off <= i < |x| ==> x[i] == y[i]
  }

  predicate SameBefore(x: Key, y: Key, off: nat) {
    off <= |x| && off <= |y| && forall i :: 0 <= i < off ==> x[i] == y[i]
  }

  /** A leaf with the mask in hand whose key equals the masked destination from `off` on covers it. */
  lemma MaskedSearchSound(n: Tree, w: nat, pre: Key, v: Key, off: nat, masked: Key, idx: nat)
    requires Shaped(n, w, pre) && n.Node? && |v| == w
    requires SameBefore(v, n.q, off) && MaskedFrom(masked, v, off, idx)
    ensures var x := Search(n, masked);
            && x.Leaf? && x.key in Table(n) && Table(n)[x.key] == Entry(x.mask, x.root) && |x.key| == w
            && (x.mask == Some(idx) && SameFrom(masked, x.key, off) ==> Covers(v, x.key, x.mask))
  {
    SearchLeaf(n, w, pre, masked);
    var x := Search(n, masked);
    KeyExtends(n, w, pre, x.key);
    if x.mask == Some(idx) && SameFrom(masked, x.key, off) {
      assert forall i :: 0 <= i < off ==> v[i] == n.q[i] == x.key[i];
      assert v[..idx] == x.key[..idx];
    }
  }

  /** If the node has a route with this mask that covers `v`, the masked search ends at it. */
  lemma MaskedSearchComplete(n: Tree, w: nat, pre: Key, v: Key, off: nat, masked: Key, idx: nat, k: Key)
    requires Shaped(n, w, pre) && n.Node? && |v| == w
    requires off <= |n.q| && MaskedFrom(masked, v, off, idx)
    requires k in Table(n) && Table(n)[k].mask == Some(idx) && Covers(v, k, Some(idx))
    ensures var x := Search(n, masked);
            x.Leaf? && x.key == k && x.mask == Some(idx) && SameFrom(masked, k, off)
  {
    KeyExtends(n, w, pre, k);
    forall i | off <= i < w ensures k[i] == masked[i] {
      if i < idx {
        assert k[i] == k[..idx][i] == v[..idx][i] == v[i];
      }
    }
    SearchAgree(n, w, pre, k, masked, off);
    SearchFinds(n, w, pre, k);
    SearchLeaf(n, w, pre, k);
  }

  // ----- the annotations list every route that may cover a destination

  /** The routes of a tree: its leaves other than the two sentinels. */
  function RoutesOf(t: Tree): map<Key, Option<nat>> {
    map k | k in Table(t) && !Table(t)[k].root :: Table(t)[k].mask
  }

  ghost predicate Indexed(t: Tree, w: nat) {
    Shaped(t, w, []) && Annotated(t, -1, None)
  }

  /** No route that covers `v` has a mask longer than `lo`; in particular none is a host route. */
  ghost predicate NoneAbove(t: Tree, v: Key, lo: int) {
    forall k :: k in RoutesOf(t) && Covers(v, k, RoutesOf(t)[k]) ==> RoutesOf(t)[k].Some? && RoutesOf(t)[k].value <= lo
  }

  /** No route that covers `v` has one of the first `i` masks listed at node `n`. */
  ghost predicate Tried(t: Tree, v: Key, n: Tree, i: nat)
    requires n.Node? && i <= |n.mk|
  {
    && NoneAbove(t, v, |n.q|)
    && forall k, j :: k in RoutesOf(t) && Covers(v, k, RoutesOf(t)[k]) && 0 <= j < i
         ==> RoutesOf(t)[k] != Some(n.mk[j].idx)
  }

  /** `n` sits at position `c` of the tree, on the path of `v`. */
  ghost predicate OnPath(t: Tree, w: nat, v: Key, c: Ctx, n: Tree) {
    Plug(c, n) == t && Indexed(t, w) && |v| == w && Follows(c, v)
  }

  lemma FocusTree(t: Tree, w: nat, c: Ctx, s: Tree)
    requires Shaped(t, w, []) && Plug(c, s) == t
    ensures ShapedCtx(c, w) && Shaped(s, w, HolePre(c)) && |HolePre(c)| <= w
    ensures Table(t) == TableCtx(c) + Table(s) && TableCtx(c).Keys !! Table(s).Keys
    ensures Annotated(t, -1, None) ==> AnnotatedCtx(c, Anns(s, None), None) && Annotated(s, HoleLo(c), None)
  {
    PlugShaped(c, s, w);
    PlugTable(c, s, w);
    PlugAnnotated(c, s, None);
  }

  /**
   A covering route whose mask goes beyond the bit above a position on the path is stored at or below the position.
   */
  lemma CoveringBelow(t: Tree, w: nat, v: Key, c: Ctx, s: Tree, k: Key)
    requires OnPath(t, w, v, c, s) && k in RoutesOf(t) && Covers(v, k, RoutesOf(t)[k])
             && MaskLen(w, RoutesOf(t)[k]) > HoleLo(c)
    ensures k in Table(s) && Table(s)[k] == Entry(RoutesOf(t)[k], false)
  {
    hide Table, TableCtx, Shaped, ShapedCtx, Annotated, AnnotatedCtx, Anns, Plug, RoutesOf;
    FocusTree(t, w, c, s);
    RouteFits(t, w, k);
    var p, h := MaskLen(w, RoutesOf(t)[k]), |HolePre(c)|;
    assert v[..p] == k[..p];
    PrefixAll(v, p, h);
    PrefixAll(k, p, h);
    StoredBelow(c, s, w, v, k);
  }

  lemma LeafEntry(s: Tree, k: Key)
    requires s.Leaf? && k in Table(s)
    ensures k == s.key && Table(s)[k] == Entry(s.mask, s.root)
  {
  }

  /**
   A route that covers `v` with a mask between the bit above a node on the path and the node's bit is listed at the
   node.
   */
  lemma ListedOnPath(t: Tree, w: nat, v: Key, c: Ctx, n: Tree, k: Key) returns (j: nat)
    requires OnPath(t, w, v, c, n) && n.Node?
    requires k in RoutesOf(t) && RoutesOf(t)[k].Some? && Covers(v, k, RoutesOf(t)[k])
    requires HoleLo(c) < RoutesOf(t)[k].value <= |n.q|
    ensures k in Table(n) && Table(n)[k].mask == RoutesOf(t)[k]
    ensures j < |n.mk| && n.mk[j].idx == RoutesOf(t)[k].value
  {
    hide Table, TableCtx, Shaped, ShapedCtx, AnnotatedCtx, Anns, Plug, RoutesOf, Annotated, Covers;
    CoveringBelow(t, w, v, c, n, k);
    FocusTree(t, w, c, n);
    var m := BlockOf(n, w, HolePre(c), HoleLo(c), k);
    BlockListed(n, HoleLo(c), m);
    j :| 0 <= j < |n.mk| && n.mk[j] == m;
  }

  lemma BlockListed(n: Tree, lo: int, m: Mask)
    requires n.Node? && Annotated(n, lo, None) && m in Anns(n, None) && lo < m.idx <= |n.q|
    ensures m in n.mk
  {
  }

  /** A masked search that succeeds at the i-th mask, after failing at the earlier ones, found the longest match. */
  lemma HitIsBest(t: Tree, w: nat, v: Key, c: Ctx, n: Tree, k: Key, i: nat)
    requires OnPath(t, w, v, c, n) && n.Node?
    requires i < |n.mk| && Tried(t, v, n, i)
    requires k in Table(n) && Table(n)[k].mask == Some(n.mk[i].idx) && Covers(v, k, Table(n)[k].mask)
    ensures Best(RoutesOf(t), v, k) && RoutesOf(t)[k] == Some(n.mk[i].idx)
  {
    hide Table, TableCtx, Shaped, ShapedCtx, Annotated, AnnotatedCtx, Anns, Plug, RoutesOf;
    var p := n.mk[i].idx;
    FocusTree(t, w, c, n);
    KeyExtends(n, w, HolePre(c), k);
    MasksInRange(n, HoleLo(c));
    RouteBelow(t, c, n, k);
    forall k' | k' in RoutesOf(t) && k' != k && Covers(v, k', RoutesOf(t)[k'])
      ensures MaskLen(|v|, RoutesOf(t)[k']) < p
    {
      RouteFits(t, w, k');
      if RoutesOf(t)[k'].value >= p {
        var j := ListedOnPath(t, w, v, c, n, k');
        CoversSame(w, v, k, k', p);
        assert false;
      }
    }
  }

  lemma MasksInRange(n: Tree, lo: int)
    requires n.Node? && Annotated(n, lo, None)
    ensures Descending(n.mk) && forall i :: 0 <= i < |n.mk| ==> lo < n.mk[i].idx <= |n.q|
  {
    assert forall i :: 0 <= i < |n.mk| ==> n.mk[i] in n.mk;
  }

  lemma RouteFits(t: Tree, w: nat, k: Key)
    requires Shaped(t, w, []) && k in RoutesOf(t)
    ensures k in Table(t) && |k| == w && MaskFits(w, k, RoutesOf(t)[k]) && Table(t)[k] == Entry(RoutesOf(t)[k], false)
  {
    KeyExtends(t, w, [], k);
  }

  /** An entry with a mask below a position is a route of the whole tree. */
  lemma RouteBelow(t: Tree, c: Ctx, n: Tree, k: Key)
    requires Table(t) == TableCtx(c) + Table(n) && k in Table(n) && !Table(n)[k].root
    ensures k in RoutesOf(t) && RoutesOf(t)[k] == Table(n)[k].mask
  {
  }

  /** A masked search that fails at the i-th mask rules out a covering route with that mask. */
  lemma MissedMask(t: Tree, w: nat, v: Key, c: Ctx, n: Tree, off: nat, masked: Key, i: nat)
    requires OnPath(t, w, v, c, n) && n.Node?
    requires i < |n.mk| && Tried(t, v, n, i) && off <= |n.q| && MaskedFrom(masked, v, off, n.mk[i].idx)
    requires var x := Search(n, masked); x.Leaf? ==> !(x.mask == Some(n.mk[i].idx) && SameFrom(masked, x.key, off))
    ensures Tried(t, v, n, i + 1)
  {
    FocusTree(t, w, c, n);
    assert n.mk[i] in n.mk;
    forall k | k in RoutesOf(t) && Covers(v, k, RoutesOf(t)[k]) && RoutesOf(t)[k] == Some(n.mk[i].idx) ensures false {
      var j := ListedOnPath(t, w, v, c, n, k);
      MaskedSearchComplete(n, w, HolePre(c), v, off, masked, n.mk[i].idx, k);
    }
  }

  lemma AllTried(t: Tree, w: nat, v: Key, c: Ctx, n: Tree)
    requires OnPath(t, w, v, c, n) && n.Node? && Tried(t, v, n, |n.mk|)
    ensures NoneAbove(t, v, HoleLo(c))
  {
    forall k | k in RoutesOf(t) && Covers(v, k, RoutesOf(t)[k]) ensures RoutesOf(t)[k].value <= HoleLo(c) {
      if RoutesOf(t)[k].value > HoleLo(c) {
        var j := ListedOnPath(t, w, v, c, n, k);
      }
    }
  }

  /** When the leaf that search reaches does not cover `v`, no route with a mask beyond the bit above it does. */
  lemma LeafFails(t: Tree, w: nat, v: Key, c: Ctx, s: Tree)
    requires OnPath(t, w, v, c, s) && s.Leaf?
    requires s.key != v && (s.mask.Some? ==> !Covers(v, s.key, s.mask))
    ensures NoneAbove(t, v, HoleLo(c))
  {
    hide Table, TableCtx, Shaped, ShapedCtx, Annotated, AnnotatedCtx, Anns, Plug, RoutesOf;
    FocusTree(t, w, c, s);
    forall k | k in RoutesOf(t) && Covers(v, k, RoutesOf(t)[k])
      ensures RoutesOf(t)[k].Some? && RoutesOf(t)[k].value <= HoleLo(c)
    {
      RouteFits(t, w, k);
      if MaskLen(w, RoutesOf(t)[k]) > HoleLo(c) {
        CoveringBelow(t, w, v, c, s, k);
        LeafEntry(s, k);
        WholeKey(v, k);
        assert false;
      }
      HoleInside(c, w);
    }
  }

  lemma WholeKey(v: Key, k: Key)
    requires |v| == |k|
    ensures v[..|v|] == v && k[..|k|] == k
  {
  }

  lemma HoleInside(c: Ctx, w: nat)
    requires |HolePre(c)| <= w
    ensures HoleLo(c) < w
  {
  }

  /** The leaf that search reaches, if it covers `v` by its mask or is equal to `v`, is the longest match. */
  lemma LeafIsBest(t: Tree, w: nat, v: Key, c: Ctx, s: Tree)
    requires OnPath(t, w, v, c, s) && s.Leaf? && !s.root
    requires s.key == v || (s.mask.Some? && Covers(v, s.key, s.mask))
    ensures Best(RoutesOf(t), v, s.key) && RoutesOf(t)[s.key] == s.mask
  {
    FocusTree(t, w, c, s);
    assert s.key in Table(s) && Table(t)[s.key] == Table(s)[s.key];
    KeyExtends(t, w, [], s.key);
    var p := MaskLen(w, s.mask);
    assert v[..p] == s.key[..p];
    forall k | k in RoutesOf(t) && k != s.key && Covers(v, k, RoutesOf(t)[k])
      ensures MaskLen(|v|, RoutesOf(t)[k]) < p
    {
      KeyExtends(t, w, [], k);
      var p' := MaskLen(w, RoutesOf(t)[k]);
      assert v[..p'] == k[..p'];
      if p' >= p {
        LongerMaskElsewhere(t, w, v, c, s, k);
      }
    }
  }

  /** A covering route whose mask is at least as long as that of the reached leaf, itself covering, is that leaf. */
  lemma LongerMaskElsewhere(t: Tree, w: nat, v: Key, c: Ctx, s: Tree, k: Key)
    requires OnPath(t, w, v, c, s) && s.Leaf?
    requires k in RoutesOf(t) && Covers(v, k, RoutesOf(t)[k])
    requires Covers(v, s.key, s.mask) || s.key == v
    requires MaskLen(w, RoutesOf(t)[k]) >= MaskLen(w, s.mask)
    ensures k == s.key
  {
    hide Table, TableCtx, Shaped, ShapedCtx, Annotated, AnnotatedCtx, Anns, Plug, RoutesOf;
    var p' := MaskLen(w, RoutesOf(t)[k]);
    if p' > HoleLo(c) {
      CoveringBelow(t, w, v, c, s, k);
      LeafEntry(s, k);
    } else {
      FocusTree(t, w, c, s);
      RouteFits(t, w, k);
      LeafKey(s, w, HolePre(c));
      ListedAbove(t, w, v, c, s, k, p', s.key);
      CoversSame(w, v, k, s.key, p');
    }
  }

  lemma LeafKey(s: Tree, w: nat, pre: Key)
    requires s.Leaf? && Shaped(s, w, pre)
    ensures s.key in Table(s) && |s.key| == w && MaskFits(w, s.key, s.mask) && (s.root ==> s.mask == None)
  {
  }

  lemma AgreeBelow(n: Tree, w: nat, pre: Key, k: Key, k': Key, p: nat)
    requires Shaped(n, w, pre) && n.Node? && k in Table(n) && k' in Table(n) && p <= |n.q|
    ensures |k| == |k'| == w && k'[..p] == k[..p]
  {
    KeyExtends(n, w, pre, k);
    KeyExtends(n, w, pre, k');
    assert forall i :: 0 <= i < p ==> k[i] == n.q[i] == k'[i];
  }

  /** A covering route annotated at a node fixes the mask's bits of every key below that node. */
  lemma ListedHere(t: Tree, w: nat, v: Key, c: Ctx, n: Tree, k: Key, p: nat, k': Key)
    requires OnPath(t, w, v, c, n) && n.Node? && k in Table(t) && |k| == w
    requires HoleLo(c) < p <= |n.q| && p <= w && v[..p] == k[..p] && k' in Table(n)
    ensures |k'| == w && k'[..p] == v[..p]
  {
    FocusTree(t, w, c, n);
    var h := |HolePre(c)|;
    assert v[..h] == v[..p][..h] == k[..p][..h] == k[..h];
    StoredBelow(c, n, w, v, k);
    AgreeBelow(n, w, HolePre(c), k, k', p);
  }

  /**
   If a covering route is annotated above a position on the path, all keys at the position agree with `v` on its mask.
   */
  lemma {:induction false} ListedAbove(t: Tree, w: nat, v: Key, c: Ctx, s: Tree, k: Key, p: nat, k': Key)
    requires OnPath(t, w, v, c, s) && k in Table(t) && |k| == w
    requires p <= HoleLo(c) && p <= w && v[..p] == k[..p] && k' in Table(s)
    ensures |k'| == w && k'[..p] == v[..p]
    decreases c
  {
    FocusTree(t, w, c, s);
    var n := if c.InL? then Node(c.a, c.q, s, c.r, c.mk) else Node(c.a, c.q, c.l, s, c.mk);
    assert Plug(c.up, n) == t;
    FocusTree(t, w, c.up, n);
    assert k' in Table(n);
    if p <= HoleLo(c.up) {
      ListedAbove(t, w, v, c.up, n, k, p, k');
    } else {
      ListedHere(t, w, v, c.up, n, k, p, k');
    }
  }
}
