/** What inserting, deleting, lifting and demoting do to the shape and the annotations of a tree. */
module RadixUpdate {
  import opened Prelude
  import opened RadixTree
  import opened RadixLookup

  // ----- exempting a leaf that is not there changes nothing

  lemma {:induction false} ExemptAbsent(t: Tree, lo: int, v: Key)
    requires v !in Table(t)
    ensures Anns(t, Some(v)) == Anns(t, None)
    ensures Annotated(t, lo, Some(v)) <==> Annotated(t, lo, None)
  {
    if t.Node? {
      ExemptAbsent(t.l, |t.q|, v);
      ExemptAbsent(t.r, |t.q|, v);
    }
  }

  lemma {:induction false} ExemptAbsentCtx(c: Ctx, s: set<Mask>, v: Key)
    requires v !in TableCtx(c)
    ensures AnnotatedCtx(c, s, Some(v)) <==> AnnotatedCtx(c, s, None)
  {
    match c
    case Top =>
    case InL(_, q, _, up, r) =>
      ExemptAbsent(r, |q|, v);
      ExemptAbsentCtx(up, s + Anns(r, None), v);
    case InR(_, q, _, up, l) =>
      ExemptAbsent(l, |q|, v);
      ExemptAbsentCtx(up, Anns(l, None) + s, v);
  }

  // ----- inserting a leaf

  /** A subtree all of whose keys agree with `v` before bit `b` and differ from it there. */
  ghost predicate Diverges(s: Tree, v: Key, b: nat) {
    && b < |v|
    && (forall k :: k in Table(s) ==> |k| == |v| && SameBefore(v, k, b) && k[b] != v[b])
    && (s.Node? ==> b < |s.q|)
  }

  /**
   Search for `v` passes through `s` and ends at a leaf that first differs from `v` at bit `b`; `s` tests no bit before
   `b`.
   */
  lemma DivergesHere(c: Ctx, s: Tree, w: nat, v: Key, b: nat)
    requires Shaped(s, w, HolePre(c)) && |v| == w && b < w
    requires Search(s, v).Leaf? && |Search(s, v).key| == w
    requires SameBefore(v, Search(s, v).key, b) && v[b] != Search(s, v).key[b]
    requires s.Node? ==> b <= |s.q|
    ensures Diverges(s, v, b)
  {
    var k0 := Search(s, v).key;
    SearchLeaf(s, w, HolePre(c), v);
    KeyExtends(s, w, HolePre(c), k0);
    if s.Node? {
      if b == |s.q| {
        SearchLeaf(if v[b] then s.r else s.l, w, s.q + [v[b]], v);
        assert false;
      }
      forall k | k in Table(s) ensures |k| == w && SameBefore(v, k, b) && k[b] != v[b] {
        AgreeBelow(s, w, HolePre(c), k0, k, b + 1);
        assert forall i :: 0 <= i <= b ==> k[i] == k[..b + 1][i] == k0[..b + 1][i] == k0[i];
      }
    }
  }

  /** The internal node that joins a subtree and the new leaf at the bit in which they differ. */
  function Join(a: Ptr, v: Key, b: nat, s: Tree, leaf: Tree, mk: seq<Mask>): Tree
    requires b < |v|
  {
    if v[b] then Node(a, v[..b], s, leaf, mk) else Node(a, v[..b], leaf, s, mk)
  }

  lemma Reprefix(s: Tree, w: nat, pre: Key, pre': Key)
    requires Shaped(s, w, pre) && |pre'| <= w
    requires forall k :: k in Table(s) ==> pre' <= k
    requires s.Node? ==> |pre'| <= |s.q|
    ensures Shaped(s, w, pre')
  {
    if s.Node? {
      NonEmpty(s);
      var k :| k in Table(s);
      KeyExtends(s, w, pre, k);
      assert pre' <= s.q;
    } else {
      assert s.key in Table(s);
    }
  }

  lemma DivergesPrefix(c: Ctx, s: Tree, w: nat, v: Key, b: nat)
    requires Shaped(s, w, HolePre(c)) && |v| == w && Diverges(s, v, b) && HoleLo(c) < b
    ensures HolePre(c) <= v[..b] && Shaped(s, w, v[..b] + [!v[b]]) && v !in Table(s)
  {
    hide Table, Shaped;
    NonEmpty(s);
    var k0 :| k0 in Table(s);
    KeyExtends(s, w, HolePre(c), k0);
    CommonPrefix(HolePre(c), k0, v, b);
    forall k | k in Table(s) ensures v[..b] + [!v[b]] <= k {
      DivergedPrefix(k, v, b);
    }
    Reprefix(s, w, HolePre(c), v[..b] + [!v[b]]);
  }

  lemma CommonPrefix(pre: Key, k: Key, v: Key, b: nat)
    requires pre <= k && |pre| <= b < |v| && SameBefore(v, k, b)
    ensures pre <= v[..b]
  {
    forall i | 0 <= i < |pre| ensures pre[i] == v[..b][i] {
      assert k[..|pre|][i] == k[i] && v[i] == k[i];
    }
  }

  lemma DivergedPrefix(k: Key, v: Key, b: nat)
    requires b < |v| && b < |k| && SameBefore(v, k, b) && v[b] != k[b]
    ensures v[..b] + [!v[b]] <= k
  {
    var q := v[..b] + [!v[b]];
    forall i | 0 <= i < |q| ensures q[i] == k[i] {
    }
  }

  lemma JoinShaped(c: Ctx, s: Tree, w: nat, v: Key, b: nat, a: Ptr, leaf: Tree, mk: seq<Mask>)
    requires Shaped(s, w, HolePre(c)) && |v| == w && Diverges(s, v, b) && HoleLo(c) < b
    requires leaf.Leaf? && leaf.key == v && MaskFits(w, v, leaf.mask) && !leaf.root
    ensures Shaped(Join(a, v, b, s, leaf, mk), w, HolePre(c))
    ensures v !in Table(s) && Table(Join(a, v, b, s, leaf, mk)) == Table(s)[v := Entry(leaf.mask, false)]
  {
    DivergesPrefix(c, s, w, v, b);
    JoinIsNode(s, w, HolePre(c), v, b, a, leaf, mk);
    JoinIsUpdate(s, v, b, a, leaf, mk);
  }

  lemma JoinIsUpdate(s: Tree, v: Key, b: nat, a: Ptr, leaf: Tree, mk: seq<Mask>)
    requires b < |v| && v !in Table(s) && leaf.Leaf? && leaf.key == v && !leaf.root
    ensures Table(Join(a, v, b, s, leaf, mk)) == Table(s)[v := Entry(leaf.mask, false)]
  {
    assert Table(leaf) == map[v := Entry(leaf.mask, false)];
    assert Table(leaf) + Table(s) == Table(s) + Table(leaf);
  }

  lemma JoinIsNode(s: Tree, w: nat, pre: Key, v: Key, b: nat, a: Ptr, leaf: Tree, mk: seq<Mask>)
    requires |v| == w && b < w && pre <= v[..b] && Shaped(s, w, v[..b] + [!v[b]])
    requires leaf.Leaf? && leaf.key == v && MaskFits(w, v, leaf.mask) && !leaf.root
    ensures Shaped(Join(a, v, b, s, leaf, mk), w, pre)
  {
    assert v[..b] + [v[b]] <= v;
    assert Shaped(leaf, w, v[..b] + [v[b]]);
    if v[b] {
      assert [!v[b]] == [false] && [v[b]] == [true];
    } else {
      assert [!v[b]] == [true] && [v[b]] == [false];
    }
  }

  /** The new leaf lands on the path of `v`, so every node above keeps its key set's shape. */
  lemma JoinTable(c: Ctx, s: Tree, n: Tree, w: nat, v: Key, e: Entry)
    requires Shaped(Plug(c, s), w, []) && Shaped(n, w, HolePre(c))
    requires v !in Table(s) && Table(n) == Table(s)[v := e]
    ensures Shaped(Plug(c, n), w, [])
    ensures v !in TableCtx(c) && v !in Table(Plug(c, s))
    ensures Table(Plug(c, n)) == Table(Plug(c, s))[v := e]
  {
    hide Table, TableCtx, Shaped, ShapedCtx, Plug;
    PlugShaped(c, s, w);
    PlugShaped(c, n, w);
    PlugTable(c, s, w);
    PlugTable(c, n, w);
    assert v in Table(n);
    MapUpdateUnion(TableCtx(c), Table(s), v, e);
  }

  lemma MapUpdateUnion<K, V>(x: map<K, V>, y: map<K, V>, k: K, e: V)
    ensures x + y[k := e] == (x + y)[k := e]
  {
  }

  /**
   Promotion.  The masks a subtree listed on behalf of bits up to `b` move to the new node above it;
   the split is at the first mask whose index is at most `b`.
   */
  lemma SplitLists(mk: seq<Mask>, i: nat, s: set<Mask>, lo: int, b: int, hi: int)
    requires Lists(mk, s, lo, hi) && lo < b < hi && i <= |mk|
    requires forall j :: 0 <= j < i ==> mk[j].idx > b
    requires i < |mk| ==> mk[i].idx <= b
    ensures Lists(mk[..i], s, b, hi) && Lists(mk[i..], s, lo, b)
  {
    forall m | m in s && b < m.idx <= hi ensures m in mk[..i] {
      var j :| 0 <= j < |mk| && mk[j] == m;
      assert j < i;
      assert mk[..i][j] == m;
    }
    forall m | m in s && lo < m.idx <= b ensures m in mk[i..] {
      var j :| 0 <= j < |mk| && mk[j] == m;
      assert mk[i..][j - i] == m;
    }
    forall m | m in mk[..i] ensures m in s && b < m.idx <= hi {
      assert m in mk;
    }
    forall m | m in mk[i..] ensures m in s && lo < m.idx <= b {
      assert m in mk;
    }
  }

  /** The subtree below a new node at bit `b`, with its own annotation brought up to date. */
  ghost predicate Promoted(s: Tree, s': Tree, mk: seq<Mask>, lo: int, b: int) {
    && Annotated(s', b, None)
    && Lists(mk, Anns(s', None), lo, b)
    && Table(s') == Table(s)
    && (forall m: Mask :: m.idx <= lo ==> (m in Anns(s', None) <==> m in Anns(s, None)))
  }

  lemma PromoteNode(s: Tree, i: nat, lo: int, b: int)
    requires s.Node? && Annotated(s, lo, None) && lo < b < |s.q| && i <= |s.mk|
    requires forall j :: 0 <= j < i ==> s.mk[j].idx > b
    requires i < |s.mk| ==> s.mk[i].idx <= b
    ensures Promoted(s, s.(mk := s.mk[..i]), s.mk[i..], lo, b)
  {
    SplitLists(s.mk, i, Anns(s, None), lo, b, |s.q|);
    assert Anns(s.(mk := s.mk[..i]), None) == Anns(s, None);
  }

  lemma PromoteLeaf(s: Tree, m: Mask, lo: int, b: int)
    requires s.Leaf? && Annotated(s, lo, None) && lo < b
    requires s.mask == Some(m.idx)
    ensures m.idx <= b && s.ann == None ==> Promoted(s, s.(ann := Some(m)), [m], lo, b)
    ensures !(m.idx <= b && s.ann == None) ==> Promoted(s, s, [], lo, b)
  {
    if m.idx <= b && s.ann == None {
      assert Anns(s.(ann := Some(m)), None) == {m};
    }
  }

  lemma PromoteHost(s: Tree, lo: int, b: int)
    requires s.Leaf? && Annotated(s, lo, None) && lo < b && s.mask == None
    ensures Promoted(s, s, [], lo, b)
  {
  }

  /** After promotion everything is annotated but the new leaf. */
  lemma JoinAnnotated(c: Ctx, s: Tree, s': Tree, w: nat, v: Key, b: nat, a: Ptr, leaf: Tree, mk: seq<Mask>)
    requires ShapedCtx(c, w) && b < |v| == w && HoleLo(c) < b
    requires AnnotatedCtx(c, Anns(s, None), None) && Promoted(s, s', mk, HoleLo(c), b)
    requires leaf.Leaf? && leaf.key == v && leaf.ann == None && v !in Table(s) && v !in TableCtx(c)
    ensures Annotated(Plug(c, Join(a, v, b, s', leaf, mk)), -1, Some(v))
  {
    var n := Join(a, v, b, s', leaf, mk);
    ExemptAbsent(s', b, v);
    assert Anns(n, Some(v)) == Anns(s', None);
    assert Annotated(n, HoleLo(c), Some(v));
    CtxSwap(c, w, Anns(s, None), Anns(s', None), None);
    ExemptAbsentCtx(c, Anns(s', None), v);
    PlugAnnotated(c, n, Some(v));
  }

  // ----- lifting the new leaf's mask

  /** Two different keys below a node cannot have the same mask index when it is at most the node's bit. */
  lemma NoSharedMask(n: Tree, w: nat, pre: Key, k: Key, k': Key)
    requires Shaped(n, w, pre) && n.Node? && k in Table(n) && k' in Table(n)
    requires Table(n)[k].mask.Some? && Table(n)[k'].mask == Table(n)[k].mask && Table(n)[k].mask.value <= |n.q|
    ensures k == k'
  {
    KeyExtends(n, w, pre, k);
    KeyExtends(n, w, pre, k');
    AgreeBelow(n, w, pre, k, k', Table(n)[k].mask.value);
    CoversSame(w, k, k, k', Table(n)[k].mask.value);
  }

  /** The parent of the subtree at a hole, as a tree. */
  function Parent(c: Ctx, s: Tree): Tree
    requires c != Top
  {
    match c
    case InL(a, q, mk, _, r) => Node(a, q, s, r, mk)
    case InR(a, q, mk, _, l) => Node(a, q, l, s, mk)
  }

  /**
   Everything is annotated except that block `m` of the leaf `v` inside `s` is not listed anywhere;
   that is right for `s` itself, because the block belongs above it.
   */
  ghost predicate Unlisted(c: Ctx, s: Tree, v: Key, m: Mask) {
    && AnnotatedCtx(c, Anns(s, Some(v)), None)
    && Annotated(s, HoleLo(c), None)
    && Anns(s, None) == Anns(s, Some(v)) + {m}
    && v in Table(s) && v !in TableCtx(c)
  }

  lemma UnlistedUp(c: Ctx, s: Tree, w: nat, v: Key, m: Mask)
    requires Shaped(Plug(c, s), w, []) && c != Top && Unlisted(c, s, v, m) && m.idx <= HoleLo(c.up)
    ensures Unlisted(c.up, Parent(c, s), v, m)
  {
    var n := Parent(c, s);
    ExemptAbsent(if c.InL? then c.r else c.l, |c.q|, v);
    assert Anns(n, None) == Anns(n, Some(v)) + {m};
    ParentTable(c, s, w, v);
  }

  lemma ParentTable(c: Ctx, s: Tree, w: nat, v: Key)
    requires Shaped(Plug(c, s), w, []) && c != Top && v in Table(s) && v !in TableCtx(c)
    ensures v in Table(Parent(c, s)) && v !in TableCtx(c.up)
  {
    PlugTable(c.up, Parent(c, s), w);
    if c.InL? {
      assert v in Table(s) + Table(c.r);
    }
  }

  /** `mk` with `m` put in at position `i`. */
  function Inserted(mk: seq<Mask>, i: nat, m: Mask): seq<Mask>
    requires i <= |mk|
  {
    mk[..i] + [m] + mk[i..]
  }

  lemma InsertedDescending(mk: seq<Mask>, i: nat, m: Mask)
    requires Descending(mk) && i <= |mk|
    requires forall j :: 0 <= j < i ==> mk[j].idx > m.idx
    requires i < |mk| ==> mk[i].idx < m.idx
    ensures Descending(Inserted(mk, i, m))
  {
    var mk' := Inserted(mk, i, m);
    forall j, k | 0 <= j < k < |mk'| ensures mk'[j].idx > mk'[k].idx {
      assert mk'[j] == if j < i then mk[j] else if j == i then m else mk[j - 1];
      assert mk'[k] == if k < i then mk[k] else if k == i then m else mk[k - 1];
      if i < |mk| && k > i {
        assert k - 1 == i || mk[k - 1].idx < mk[i].idx;
      }
    }
  }

  lemma InsertedMembers(mk: seq<Mask>, i: nat, m: Mask, x: Mask)
    requires i <= |mk|
    ensures x in Inserted(mk, i, m) <==> x in mk || x == m
  {
    assert mk == mk[..i] + mk[i..];
  }

  lemma InsertedLists(mk: seq<Mask>, i: nat, m: Mask, s: set<Mask>, lo: int, b: int)
    requires Lists(mk, s, lo, b) && lo < m.idx <= b && i <= |mk|
    requires forall j :: 0 <= j < i ==> mk[j].idx > m.idx
    requires i < |mk| ==> mk[i].idx < m.idx
    ensures Lists(Inserted(mk, i, m), s + {m}, lo, b)
  {
    InsertedDescending(mk, i, m);
    forall x ensures x in Inserted(mk, i, m) <==> x in s + {m} && lo < x.idx <= b {
      InsertedMembers(mk, i, m, x);
    }
  }

  /** Listing the block at the highest node whose bit is at least its index completes the annotation. */
  lemma ListBlock(c: Ctx, s: Tree, w: nat, v: Key, m: Mask, i: nat)
    requires Shaped(Plug(c, s), w, []) && c != Top && Unlisted(c, s, v, m)
    requires HoleLo(c.up) < m.idx <= HoleLo(c) && i <= |c.mk|
    requires forall j :: 0 <= j < i ==> c.mk[j].idx > m.idx
    requires i < |c.mk| ==> c.mk[i].idx < m.idx
    ensures var n := Parent(c, s);
            Annotated(Plug(c.up, n.(mk := Inserted(n.mk, i, m))), -1, None)
  {
    hide Annotated, AnnotatedCtx, Anns, Lists, Shaped, ShapedCtx, Plug, Inserted, Unlisted, Table, TableCtx;
    var n := Parent(c, s);
    var n' := n.(mk := Inserted(n.mk, i, m));
    PlugUp(c, s);
    PlugShaped(c.up, n, w);
    BlockHere(c, s, v, m, i);
    BlockAbove(c.up, w, Anns(n, Some(v)), Anns(n', None), m);
    PlugAnnotated(c.up, n', None);
  }

  lemma PlugUp(c: Ctx, s: Tree)
    requires c != Top
    ensures Plug(c, s) == Plug(c.up, Parent(c, s))
  {
  }

  /** The node that lists the block is in order, and so is what is below it. */
  lemma BlockHere(c: Ctx, s: Tree, v: Key, m: Mask, i: nat)
    requires c != Top && Unlisted(c, s, v, m) && HoleLo(c.up) < m.idx <= HoleLo(c) && i <= |c.mk|
    requires forall j :: 0 <= j < i ==> c.mk[j].idx > m.idx
    requires i < |c.mk| ==> c.mk[i].idx < m.idx
    ensures var n := Parent(c, s);
            var n' := n.(mk := Inserted(n.mk, i, m));
            && Anns(n', None) == Anns(n, Some(v)) + {m} && Annotated(n', HoleLo(c.up), None)
            && AnnotatedCtx(c.up, Anns(n, Some(v)), None)
  {
    hide Lists, Inserted;
    var sibling := if c.InL? then c.r else c.l;
    var n := Parent(c, s);
    SiblingWithout(c, v);
    ExemptAbsent(sibling, |c.q|, v);
    InsertedLists(n.mk, i, m, Anns(n, Some(v)), HoleLo(c.up), |n.q|);
  }

  lemma SiblingWithout(c: Ctx, v: Key)
    requires c != Top && v !in TableCtx(c)
    ensures v !in Table(if c.InL? then c.r else c.l)
  {
  }

  /** Further up the block does not matter. */
  lemma BlockAbove(c: Ctx, w: nat, s: set<Mask>, s': set<Mask>, m: Mask)
    requires ShapedCtx(c, w) && AnnotatedCtx(c, s, None) && s' == s + {m} && HoleLo(c) < m.idx
    ensures AnnotatedCtx(c, s', None)
  {
    hide AnnotatedCtx, ShapedCtx;
    CtxSwap(c, w, s, s', None);
  }

  /** Giving the new leaf its block starts the climb. */
  lemma UnlistedLeaf(c: Ctx, s: Tree, m: Mask)
    requires s.Leaf? && s.mask == Some(m.idx) && m.idx <= HoleLo(c)
    requires Annotated(Plug(c, s), -1, Some(s.key)) && s.key !in TableCtx(c)
    ensures Unlisted(c, s.(ann := Some(m)), s.key, m)
  {
    PlugAnnotated(c, s, Some(s.key));
    ExemptAbsentCtx(c, {}, s.key);
    assert Anns(s.(ann := Some(m)), Some(s.key)) == {};
  }

  /** A new leaf whose mask is not lifted needs no exemption. */
  lemma NotLifted(c: Ctx, s: Tree)
    requires s.Leaf? && s.ann == None && (s.mask.Some? ==> s.mask.value > HoleLo(c))
    requires Annotated(Plug(c, s), -1, Some(s.key)) && s.key !in TableCtx(c)
    ensures Annotated(Plug(c, s), -1, None)
  {
    PlugAnnotated(c, s, Some(s.key));
    PlugAnnotated(c, s, None);
    ExemptAbsentCtx(c, {}, s.key);
    assert Anns(s, None) == {} == Anns(s, Some(s.key));
  }

  /** Position (c, s) lies at or above position (c0, s0). */
  ghost predicate Under(c0: Ctx, s0: Tree, c: Ctx, s: Tree)
    decreases c0
  {
    (c0 == c && s0 == s) || (c0 != Top && Under(c0.up, Parent(c0, s0), c, s))
  }

  lemma {:induction false} UnderUp(c0: Ctx, s0: Tree, c: Ctx, s: Tree)
    requires Under(c0, s0, c, s) && c != Top
    ensures Under(c0, s0, c.up, Parent(c, s))
    decreases c0
  {
    if c0 == c && s0 == s {
      assert Under(c.up, Parent(c, s), c.up, Parent(c, s));
    } else {
      UnderUp(c0.up, Parent(c0, s0), c, s);
    }
  }

  /** Bits above a position are no larger than bits further down. */
  lemma {:induction false} UnderLo(c0: Ctx, s0: Tree, c: Ctx, s: Tree, w: nat)
    requires Under(c0, s0, c, s) && ShapedCtx(c0, w)
    ensures HoleLo(c) <= HoleLo(c0)
    decreases c0
  {
    if !(c0 == c && s0 == s) {
      UnderLo(c0.up, Parent(c0, s0), c, s, w);
    }
  }

  lemma {:induction false} UnlistedClimb(c0: Ctx, s0: Tree, c: Ctx, s: Tree, w: nat, v: Key, m: Mask)
    requires Shaped(Plug(c0, s0), w, []) && Unlisted(c0, s0, v, m) && Under(c0, s0, c, s) && m.idx <= HoleLo(c)
    ensures Unlisted(c, s, v, m)
    decreases c0
  {
    if !(c0 == c && s0 == s) {
      PlugShaped(c0, s0, w);
      UnderLo(c0.up, Parent(c0, s0), c, s, w);
      UnlistedUp(c0, s0, w, v, m);
      UnlistedClimb(c0.up, Parent(c0, s0), c, s, w, v, m);
    }
  }

  /** The node that is to list the block does not already list one with the same mask. */
  lemma NotYetListed(c: Ctx, s: Tree, w: nat, v: Key, m: Mask, i: nat)
    requires Shaped(Plug(c, s), w, []) && c != Top && Unlisted(c, s, v, m)
    requires HoleLo(c.up) < m.idx <= HoleLo(c) && i < |c.mk| && Table(s)[v].mask == Some(m.idx)
    ensures c.mk[i].idx != m.idx
  {
    if c.mk[i].idx == m.idx {
      var n := Parent(c, s);
      var sib := if c.InL? then c.r else c.l;
      PlugShaped(c.up, n, w);
      Disjoint(n, w, HolePre(c.up));
      AnnotatedBlocks(s, HoleLo(c), None);
      AnnotatedBlocks(sib, HoleLo(c), None);
      ExemptAbsent(sib, |c.q|, v);
      assert c.mk[i] in c.mk;
      var k := LeafOf(n, w, HolePre(c.up), Some(v), c.mk[i]);
      ParentTable(c, s, w, v);
      NoSharedMask(n, w, HolePre(c.up), v, k);
    }
  }

  // ----- taking a route's block out of the lists

  /** Block `m` of leaf `v` inside `s` is still listed above, where it belongs; within `s` the leaf counts no more. */
  ghost predicate Leaving(c: Ctx, s: Tree, v: Key, m: Mask) {
    && AnnotatedCtx(c, Anns(s, None), None)
    && Annotated(s, HoleLo(c), Some(v))
    && Anns(s, None) == Anns(s, Some(v)) + {m}
    && v in Table(s) && v !in TableCtx(c)
  }

  lemma LeavingLeaf(c: Ctx, s: Tree)
    requires s.Leaf? && s.ann.Some? && s.key !in TableCtx(c)
    requires Annotated(Plug(c, s), -1, None)
    ensures Leaving(c, s, s.key, s.ann.value) && s.mask == Some(s.ann.value.idx) && s.ann.value.idx <= HoleLo(c)
  {
    PlugAnnotated(c, s, None);
    assert Anns(s, Some(s.key)) == {};
  }

  lemma LeavingUp(c: Ctx, s: Tree, w: nat, v: Key, m: Mask)
    requires Shaped(Plug(c, s), w, []) && c != Top && Leaving(c, s, v, m) && m.idx <= HoleLo(c.up)
    ensures Leaving(c.up, Parent(c, s), v, m)
  {
    var n := Parent(c, s);
    ExemptAbsent(if c.InL? then c.r else c.l, |c.q|, v);
    assert Anns(n, None) == Anns(n, Some(v)) + {m};
    ParentTable(c, s, w, v);
  }

  lemma {:induction false} LeavingClimb(c0: Ctx, s0: Tree, c: Ctx, s: Tree, w: nat, v: Key, m: Mask)
    requires Shaped(Plug(c0, s0), w, []) && Leaving(c0, s0, v, m) && Under(c0, s0, c, s) && m.idx <= HoleLo(c)
    ensures Leaving(c, s, v, m)
    decreases c0
  {
    if !(c0 == c && s0 == s) {
      PlugShaped(c0, s0, w);
      UnderLo(c0.up, Parent(c0, s0), c, s, w);
      LeavingUp(c0, s0, w, v, m);
      LeavingClimb(c0.up, Parent(c0, s0), c, s, w, v, m);
    }
  }

  /** The block is in the list at the highest node whose bit is at least its index. */
  lemma BlockIsListed(c: Ctx, s: Tree, v: Key, m: Mask)
    requires c != Top && Leaving(c, s, v, m) && HoleLo(c.up) < m.idx <= HoleLo(c)
    ensures m in c.mk
  {
    assert m in Anns(s, None);
  }

  function Removed(mk: seq<Mask>, i: nat): seq<Mask>
    requires i < |mk|
  {
    mk[..i] + mk[i + 1..]
  }

  lemma RemovedMembers(mk: seq<Mask>, i: nat, x: Mask)
    requires i < |mk| && Descending(mk)
    ensures x in Removed(mk, i) <==> x in mk && x != mk[i]
  {
    assert mk == mk[..i] + [mk[i]] + mk[i + 1..];
    assert mk[i] !in mk[..i] && mk[i] !in mk[i + 1..];
  }

  lemma RemovedDescending(mk: seq<Mask>, i: nat)
    requires i < |mk| && Descending(mk)
    ensures Descending(Removed(mk, i))
  {
    var mk' := Removed(mk, i);
    forall j, k | 0 <= j < k < |mk'| ensures mk'[j].idx > mk'[k].idx {
      assert mk'[j] == if j < i then mk[j] else mk[j + 1];
      assert mk'[k] == if k < i then mk[k] else mk[k + 1];
    }
  }

  lemma RemovedLists(mk: seq<Mask>, i: nat, s: set<Mask>, s': set<Mask>, lo: int, b: int)
    requires i < |mk| && Lists(mk, s, lo, b) && s == s' + {mk[i]} && mk[i] !in s'
    ensures Lists(Removed(mk, i), s', lo, b)
  {
    RemovedDescending(mk, i);
    forall x ensures x in Removed(mk, i) <==> x in s' && lo < x.idx <= b {
      RemovedMembers(mk, i, x);
    }
  }

  /** No other leaf below the node refers to the block. */
  lemma SoleOwner(c: Ctx, s: Tree, w: nat, v: Key, m: Mask)
    requires Shaped(Plug(c, s), w, []) && c != Top && Leaving(c, s, v, m)
    requires HoleLo(c.up) < m.idx <= HoleLo(c) && Table(s)[v].mask == Some(m.idx)
    ensures m !in Anns(Parent(c, s), Some(v))
  {
    var n := Parent(c, s);
    if m in Anns(n, Some(v)) {
      var sib := if c.InL? then c.r else c.l;
      PlugShaped(c.up, n, w);
      Disjoint(n, w, HolePre(c.up));
      AnnotatedBlocks(s, HoleLo(c), Some(v));
      AnnotatedBlocks(sib, HoleLo(c), None);
      var k := LeafOf(n, w, HolePre(c.up), Some(v), m);
      ParentTable(c, s, w, v);
      NoSharedMask(n, w, HolePre(c.up), v, k);
    }
  }

  /** Dropping the block from its list leaves everything annotated but the leaf. */
  lemma DropBlock(c: Ctx, s: Tree, w: nat, v: Key, m: Mask, i: nat)
    requires Shaped(Plug(c, s), w, []) && c != Top && Leaving(c, s, v, m)
    requires HoleLo(c.up) < m.idx <= HoleLo(c) && Table(s)[v].mask == Some(m.idx)
    requires i < |c.mk| && c.mk[i] == m
    ensures var n := Parent(c, s);
            Annotated(Plug(c.up, n.(mk := Removed(n.mk, i))), -1, Some(v))
  {
    var n := Parent(c, s);
    var n' := n.(mk := Removed(n.mk, i));
    SoleOwner(c, s, w, v, m);
    ExemptAbsent(if c.InL? then c.r else c.l, |c.q|, v);
    assert Anns(n, None) == Anns(n, Some(v)) + {m};
    RemovedLists(n.mk, i, Anns(n, None), Anns(n, Some(v)), HoleLo(c.up), |n.q|);
    assert Anns(n', Some(v)) == Anns(n, Some(v));
    PlugShaped(c.up, n, w);
    CtxSwap(c.up, w, Anns(n, None), Anns(n, Some(v)), None);
    ParentTable(c, s, w, v);
    ExemptAbsentCtx(c.up, Anns(n, Some(v)), v);
    PlugAnnotated(c.up, n', Some(v));
  }

  /** A leaf without a block may be exempted. */
  lemma NoBlock(c: Ctx, s: Tree)
    requires s.Leaf? && s.ann == None && s.key !in TableCtx(c) && Annotated(Plug(c, s), -1, None)
    ensures Annotated(Plug(c, s), -1, Some(s.key))
  {
    PlugAnnotated(c, s, Some(s.key));
    PlugAnnotated(c, s, None);
    ExemptAbsentCtx(c, {}, s.key);
    assert Anns(s, None) == {} == Anns(s, Some(s.key));
  }

  // ----- removing a leaf and demoting the masks of the internal node that goes with it

  /** The other child of the internal node above a hole. */
  function Sibling(c: Ctx): Tree
    requires c != Top
  {
    if c.InL? then c.r else c.l
  }

  /** What remains below the removed node, with its own annotation brought up to date. */
  ghost predicate Demoted(s: Tree, s': Tree, lo: int) {
    && Annotated(s', lo, None)
    && (forall m: Mask :: m.idx <= lo ==> (m in Anns(s', None) <==> m in Anns(s, None)))
  }

  lemma JoinLists(mk: seq<Mask>, mk': seq<Mask>, s: set<Mask>, lo: int, b: int, hi: int)
    requires Lists(mk, s, b, hi) && Lists(mk', s, lo, b) && lo < b <= hi
    ensures Lists(mk + mk', s, lo, hi)
  {
    var all := mk + mk';
    assert forall j :: 0 <= j < |mk| ==> mk[j] in mk && all[j] == mk[j];
    assert forall j :: 0 <= j < |mk'| ==> mk'[j] in mk' && all[|mk| + j] == mk'[j];
    forall i, j | 0 <= i < j < |all| ensures all[i].idx > all[j].idx {
      if i < |mk| {
        assert mk[i] in mk;
      }
      if j >= |mk| {
        assert mk'[j - |mk|] in mk';
      }
    }
  }

  lemma DemoteNode(s: Tree, mk: seq<Mask>, lo: int, b: int)
    requires s.Node? && Annotated(s, b, None) && lo < b < |s.q| && Lists(mk, Anns(s, None), lo, b)
    ensures Demoted(s, s.(mk := s.mk + mk), lo)
  {
    JoinLists(s.mk, mk, Anns(s, None), lo, b, |s.q|);
    assert Anns(s.(mk := s.mk + mk), None) == Anns(s, None);
  }

  /** The only mask listed above a leaf on its own behalf is its own block. */
  lemma DemoteLeaf(s: Tree, mk: seq<Mask>, lo: int, b: int)
    requires s.Leaf? && Annotated(s, b, None) && lo < b && Lists(mk, Anns(s, None), lo, b)
    ensures forall i :: 0 <= i < |mk| ==> s.ann == Some(mk[i])
    ensures |mk| <= 1
    ensures Demoted(s, if mk == [] then s else s.(ann := None), lo)
  {
    assert |mk| > 1 ==> mk[0].idx > mk[1].idx;
    forall i | 0 <= i < |mk| ensures s.ann == Some(mk[i]) {
      assert mk[i] in mk;
    }
    if mk == [] {
      if s.ann.Some? {
        assert s.ann.value in Anns(s, None) && s.ann.value !in mk;
      }
    } else {
      assert mk[0] in mk && mk[0].idx > lo && s.ann == Some(mk[0]);
      assert Anns(s, None) == {mk[0]} && Anns(s.(ann := None), None) == {};
    }
  }

  /** Once the sibling is demoted into the place of the removed node, everything is annotated. */
  lemma UnspliceAnnotated(c: Ctx, leaf: Tree, w: nat, s': Tree)
    requires Shaped(Plug(c, leaf), w, []) && c != Top && leaf.Leaf?
    requires Annotated(Plug(c, leaf), -1, Some(leaf.key))
    requires Demoted(Sibling(c), s', HoleLo(c.up))
    ensures Annotated(Plug(c.up, s'), -1, None)
  {
    var n := Parent(c, leaf);
    var sib := Sibling(c);
    SiblingAnnotated(c, leaf, w);
    PlugShaped(c.up, n, w);
    CtxSwap(c.up, w, Anns(sib, None), Anns(s', None), None);
    PlugAnnotated(c.up, s', None);
  }

  lemma SiblingAnnotated(c: Ctx, leaf: Tree, w: nat)
    requires Shaped(Plug(c, leaf), w, []) && c != Top && leaf.Leaf?
    requires Annotated(Plug(c, leaf), -1, Some(leaf.key))
    ensures Annotated(Sibling(c), |c.q|, None) && Lists(c.mk, Anns(Sibling(c), None), HoleLo(c.up), |c.q|)
    ensures AnnotatedCtx(c.up, Anns(Sibling(c), None), None)
    ensures Shaped(Sibling(c), w, c.q + [c.InL?]) && HolePre(c.up) <= c.q && HoleLo(c.up) < |c.q|
    ensures leaf.key !in Table(Sibling(c)) && leaf.key !in TableCtx(c.up)
  {
    var n := Parent(c, leaf);
    var v := leaf.key;
    PlugShaped(c.up, n, w);
    PlugTable(c, leaf, w);
    assert v in Table(leaf);
    PlugAnnotated(c.up, n, Some(v));
    ExemptAbsent(Sibling(c), |c.q|, v);
    assert Anns(leaf, Some(v)) == {};
    assert Anns(n, Some(v)) == Anns(Sibling(c), None);
    ExemptAbsentCtx(c.up, Anns(Sibling(c), None), v);
  }

  /** Removing the leaf and its internal node keeps the shape and removes exactly the one key. */
  lemma UnspliceShaped(c: Ctx, leaf: Tree, w: nat)
    requires Shaped(Plug(c, leaf), w, []) && c != Top && leaf.Leaf?
    ensures Shaped(Plug(c.up, Sibling(c)), w, [])
    ensures Table(Plug(c.up, Sibling(c))) == Table(Plug(c, leaf)) - {leaf.key}
  {
    var n := Parent(c, leaf);
    var sib := Sibling(c);
    PlugShaped(c.up, n, w);
    SiblingFits(c, w);
    PlugShaped(c.up, sib, w);
    PlugTable(c, leaf, w);
    PlugTable(c.up, sib, w);
    assert Table(leaf) == map[leaf.key := Entry(leaf.mask, leaf.root)];
    TableWithout(Table(sib), TableCtx(c.up), leaf.key, Entry(leaf.mask, leaf.root));
    assert TableCtx(c) == Table(sib) + TableCtx(c.up);
  }

  lemma TableWithout(x: map<Key, Entry>, y: map<Key, Entry>, k: Key, e: Entry)
    requires x.Keys !! y.Keys && k !in x && k !in y
    ensures x + y == y + x
    ensures (x + y + map[k := e]) - {k} == x + y
  {
  }

  lemma SiblingFits(c: Ctx, w: nat)
    requires c != Top && ShapedCtx(c, w)
    ensures Shaped(Sibling(c), w, HolePre(c.up))
  {
    var sib := Sibling(c);
    var pre := c.q + [c.InL?];
    forall k | k in Table(sib) ensures HolePre(c.up) <= k {
      KeyExtends(sib, w, pre, k);
    }
    if sib.Node? {
      assert HolePre(c.up) <= c.q <= pre <= sib.q;
    }
    Reprefix(sib, w, pre, HolePre(c.up));
  }
}
