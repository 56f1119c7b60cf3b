/** Pending connections of a listening socket: two lists threaded through the sockets themselves. */
module ListenQueue {
  import opened Prelude

  const NIL: nat := 0

  /** A socket in memory: its listener, the successor in either list, and, in a listener, the lengths and the limit. */
  datatype Sock = Sock(head: nat, q0: nat, q: nat, q0len: nat, qlen: nat, qlimit: nat)

  type Memory = map<nat, Sock>

  /** Which list: that of complete connections, or that of incomplete ones. */
  function Next(s: Sock, complete: bool): nat { if complete then s.q else s.q0 }

  function WithNext(s: Sock, complete: bool, n: nat): Sock {
    if complete then Sock(s.head, s.q0, n, s.q0len, s.qlen, s.qlimit)
    else Sock(s.head, n, s.q, s.q0len, s.qlen, s.qlimit)
  }

  function Grown(s: Sock, complete: bool): Sock {
    if complete then Sock(s.head, s.q0, s.q, s.q0len, s.qlen + 1, s.qlimit)
    else Sock(s.head, s.q0, s.q, s.q0len + 1, s.qlen, s.qlimit)
  }

  function Shrunk(s: Sock, complete: bool): Sock
    requires if complete then s.qlen > 0 else s.q0len > 0
  {
    if complete then Sock(s.head, s.q0, s.q, s.q0len, s.qlen - 1, s.qlimit)
    else Sock(s.head, s.q0, s.q, s.q0len - 1, s.qlen, s.qlimit)
  }

  /** The socket before position `i` of a list. */
  function Before(head: nat, s: seq<nat>, i: nat): nat
    requires i <= |s|
  {
    if i == 0 then head else s[i - 1]
  }

  /** The link at position `i` leads to the next socket of `s`, or nowhere at its end. */
  ghost predicate Link(mem: Memory, head: nat, s: seq<nat>, complete: bool, i: nat)
    requires i <= |s|
  {
    && Before(head, s, i) in mem && (i < |s| ==> s[i] != NIL)
    && Next(mem[Before(head, s, i)], complete) == if i < |s| then s[i] else NIL
  }

  /** Following a list from the listener passes through `s` and ends. */
  ghost predicate List(mem: Memory, head: nat, s: seq<nat>, complete: bool) {
    forall i :: 0 <= i <= |s| ==> Link(mem, head, s, complete, i)
  }

  /** The listener and the members of a list are different sockets. */
  lemma BeforeDistinct(head: nat, s: seq<nat>, i: nat, j: nat)
    requires Distinct(s) && head !in s && i <= |s| && j <= |s| && i != j
    ensures Before(head, s, i) != Before(head, s, j)
  {
  }

  predicate Distinct(s: seq<nat>) {
    forall i, j :: 0 <= i < j < |s| ==> s[i] != s[j]
  }

  /** A list does not notice changes elsewhere. */
  lemma ListFrame(mem: Memory, mem': Memory, head: nat, s: seq<nat>, complete: bool)
    requires List(mem, head, s, complete) && mem.Keys <= mem'.Keys
    requires forall x :: x in mem && (x == head || x in s) ==> Next(mem'[x], complete) == Next(mem[x], complete)
    ensures List(mem', head, s, complete)
  {
    forall i | 0 <= i <= |s| ensures Link(mem', head, s, complete, i) {
      assert Link(mem, head, s, complete, i);
    }
  }

  lemma ListAppended(mem: Memory, mem': Memory, head: nat, s: seq<nat>, complete: bool, so: nat)
    requires List(mem, head, s, complete) && Distinct(s) && head !in s && so !in s && so != head && so != NIL
    requires mem'.Keys == mem.Keys && so in mem
    requires Next(mem'[so], complete) == NIL
    requires Before(head, s, |s|) in mem' && Next(mem'[Before(head, s, |s|)], complete) == so
    requires forall x :: x in mem && x != so && x != Before(head, s, |s|)
               ==> Next(mem'[x], complete) == Next(mem[x], complete)
    ensures List(mem', head, s + [so], complete)
  {
    var t := s + [so];
    forall i | 0 <= i <= |t| ensures Link(mem', head, t, complete, i) {
      if i < |s| {
        assert Link(mem, head, s, complete, i);
        BeforeDistinct(head, s, i, |s|);
      }
    }
  }

  function Removed(s: seq<nat>, k: nat): seq<nat>
    requires k < |s|
  {
    s[..k] + s[k + 1..]
  }

  lemma ListRemoved(mem: Memory, mem': Memory, head: nat, s: seq<nat>, complete: bool, k: nat)
    requires List(mem, head, s, complete) && Distinct(s) && head !in s && k < |s| && mem'.Keys == mem.Keys
    requires Before(head, s, k) in mem && s[k] in mem
    requires Next(mem'[Before(head, s, k)], complete) == Next(mem[s[k]], complete)
    requires forall x :: x in mem && x != s[k] && x != Before(head, s, k)
               ==> Next(mem'[x], complete) == Next(mem[x], complete)
    ensures List(mem', head, Removed(s, k), complete)
  {
    var t := Removed(s, k);
    forall i | 0 <= i <= |t| ensures Link(mem', head, t, complete, i) {
      if i < k {
        assert Link(mem, head, s, complete, i);
        BeforeDistinct(head, s, i, k);
        BeforeDistinct(head, s, i, k + 1);
      } else {
        assert Link(mem, head, s, complete, i + 1);
        if i > k {
          BeforeDistinct(head, s, i + 1, k);
          BeforeDistinct(head, s, i + 1, k + 1);
        }
      }
    }
  }

  // ----- the two lists together

  /** Both lists as values, and what the listener's memory says about them. */
  ghost predicate Represents(mem: Memory, head: nat, pending: seq<nat>, complete: seq<nat>) {
    && head != NIL && head in mem
    && List(mem, head, pending, false) && List(mem, head, complete, true)
    && Distinct(pending + complete) && head !in pending && head !in complete
    && (forall x :: x in mem && x != head ==> mem[x].head == if x in pending || x in complete then head else NIL)
    && mem[head].q0len == |pending| && mem[head].qlen == |complete|
    && |pending| + |complete| <= 3 * mem[head].qlimit / 2 + 1
  }

  ghost function Lists(pending: seq<nat>, complete: seq<nat>, q: bool): seq<nat> {
    if q then complete else pending
  }

  lemma DistinctParts(a: seq<nat>, b: seq<nat>)
    requires Distinct(a + b)
    ensures Distinct(a) && Distinct(b) && forall x :: x in a ==> x !in b
  {
    forall i, j | 0 <= i < j < |a| ensures a[i] != a[j] {
      assert (a + b)[i] != (a + b)[j];
    }
    forall i, j | 0 <= i < j < |b| ensures b[i] != b[j] {
      assert (a + b)[|a| + i] != (a + b)[|a| + j];
    }
    forall i, j | 0 <= i < |a| && 0 <= j < |b| ensures a[i] != b[j] {
      assert (a + b)[i] != (a + b)[|a| + j];
    }
  }

  lemma DistinctJoin(a: seq<nat>, b: seq<nat>)
    requires Distinct(a) && Distinct(b) && forall x :: x in a ==> x !in b
    ensures Distinct(a + b)
  {
    forall i, j | 0 <= i < j < |a + b| ensures (a + b)[i] != (a + b)[j] {
      if i < |a| <= j {
        assert a[i] in a && b[j - |a|] in b;
      }
    }
  }

  lemma DistinctRemoved(s: seq<nat>, k: nat)
    requires Distinct(s) && k < |s|
    ensures Distinct(Removed(s, k)) && forall x :: x in Removed(s, k) <==> x in s && x != s[k]
  {
    forall x | x in s && x != s[k] ensures x in Removed(s, k) {
      var i :| 0 <= i < |s| && s[i] == x;
      assert x == Removed(s, k)[if i < k then i else i - 1];
    }
  }

  class Listener {
    var mem: Memory
    const head: nat
    ghost var pending: seq<nat>
    ghost var complete: seq<nat>

    ghost predicate Valid()
      reads this
    {
      Represents(mem, head, pending, complete)
    }

    constructor (head: nat, qlimit: nat)
      requires head != NIL
      ensures Valid() && this.head == head && pending == [] && complete == [] && mem.Keys == {head}
              && mem[head].qlimit == qlimit
    {
      this.head := head;
      mem := map[head := Sock(NIL, NIL, NIL, 0, 0, qlimit)];
      pending, complete := [], [];
    }

    /** The last socket of a list, or the listener. */
    method End(q: bool) returns (prev: nat)
      requires List(mem, head, Lists(pending, complete, q), q)
      ensures prev == Before(head, Lists(pending, complete, q), |Lists(pending, complete, q)|)
    {
      ghost var s := Lists(pending, complete, q);
      ghost var k := 0;
      prev := head;
      assert Link(mem, head, s, q, 0);
      while Next(mem[prev], q) != NIL
        invariant 0 <= k <= |s| && prev == Before(head, s, k) && Link(mem, head, s, q, k)
        decreases |s| - k
      {
        assert Link(mem, head, s, q, k + 1);
        prev := Next(mem[prev], q);
        k := k + 1;
      }
    }

    /** Put a socket at the end of a list. */
    method Insert(so: nat, q: bool)
      requires Valid() && so in mem && so != head && so != NIL && so !in pending && so !in complete
      requires |pending| + |complete| <= 3 * mem[head].qlimit / 2
      modifies this
      ensures Valid() && mem.Keys == old(mem.Keys) && mem[head].qlimit == old(mem[head].qlimit)
      ensures pending == (if q then old(pending) else old(pending) + [so])
      ensures complete == (if q then old(complete) + [so] else old(complete))
    {
      hide Represents;
      RepresentsParts(mem, head, pending, complete);
      ghost var mem0 := mem;
      var s := mem[so];
      mem := mem[so := WithNext(Sock(head, s.q0, s.q, s.q0len, s.qlen, s.qlimit), q, NIL)];
      mem := mem[head := Grown(mem[head], q)];
      ListFrame(mem0, mem, head, Lists(pending, complete, q), q);
      var prev := End(q);
      EndThere(mem, head, Lists(pending, complete, q), q);
      mem := mem[prev := WithNext(mem[prev], q, so)];
      Inserted(mem0, mem, head, pending, complete, so, q, prev);
      if q {
        complete := complete + [so];
      } else {
        pending := pending + [so];
      }
    }

    /** Find the place of a socket in a list. */
    method Find(so: nat, q: bool) returns (found: bool, prev: nat, ghost k: nat)
      requires List(mem, head, Lists(pending, complete, q), q) && so != NIL
      ensures found <==> so in Lists(pending, complete, q)
      ensures found ==> k < |Lists(pending, complete, q)| && Lists(pending, complete, q)[k] == so
                        && prev == Before(head, Lists(pending, complete, q), k)
    {
      ghost var s := Lists(pending, complete, q);
      k, prev := 0, head;
      assert Link(mem, head, s, q, 0);
      while true
        invariant 0 <= k <= |s| && prev == Before(head, s, k) && Link(mem, head, s, q, k) && so !in s[..k]
        decreases |s| - k
      {
        var next := Next(mem[prev], q);
        if next == so {
          return true, prev, k;
        }
        if next == NIL {
          assert s[..k] == s;
          return false, prev, k;
        }
        assert Link(mem, head, s, q, k + 1);
        assert s[..k + 1] == s[..k] + [s[k]];
        prev := next;
        k := k + 1;
      }
    }

    method Unlink(so: nat, q: bool, prev: nat)
      requires so in mem && prev in mem && head in mem && so != head && so != prev
      requires if q then mem[head].qlen > 0 else mem[head].q0len > 0
      modifies this`mem
      ensures SameElsewhere(old(mem), mem, head, so, prev) && mem[so].head == NIL
      ensures Next(mem[prev], q) == Next(old(mem)[so], q) && Next(mem[prev], !q) == Next(old(mem)[prev], !q)
      ensures mem[prev].head == old(mem)[prev].head
      ensures prev != head ==> mem[head] == Shrunk(old(mem)[head], q)
      ensures prev == head ==> mem[head] == Shrunk(WithNext(old(mem)[head], q, Next(old(mem)[so], q)), q)
    {
      mem := mem[prev := WithNext(mem[prev], q, Next(mem[so], q))];
      mem := mem[head := Shrunk(mem[head], q)];
      var s := mem[so];
      mem := mem[so := Sock(NIL, NIL, NIL, s.q0len, s.qlen, s.qlimit)];
    }

    /** Take a socket off a list, if it is there. */
    method Remove(so: nat, q: bool) returns (found: bool)
      requires Valid() && so in mem && so != NIL
      modifies this
      ensures Valid() && mem.Keys == old(mem.Keys) && mem[head].qlimit == old(mem[head].qlimit)
      ensures found <==> so in Lists(old(pending), old(complete), q)
      ensures !found ==> mem == old(mem) && pending == old(pending) && complete == old(complete)
      ensures found ==> mem[so].head == NIL
                        && Without(old(pending), pending, so, !q) && Without(old(complete), complete, so, q)
    {
      hide Represents;
      RepresentsParts(mem, head, pending, complete);
      var prev;
      ghost var k;
      found, prev, k := Find(so, q);
      if !found {
        return;
      }
      ghost var mem0 := mem;
      LinkThere(mem, head, Lists(pending, complete, q), q, k);
      NotItself(head, Lists(pending, complete, q), k);
      Unlink(so, q, prev);
      Removal(mem0, mem, head, pending, complete, so, q, prev, k);
      if q {
        complete := Removed(complete, k);
      } else {
        pending := Removed(pending, k);
      }
    }

    /**
     A connection request: refused beyond the limit, otherwise a new socket is queued; if the protocol cannot attach it,
     it is taken off again.
     */
    method NewConn(so: nat, connected: bool, attaches: bool) returns (accepted: bool)
      requires Valid() && so !in mem && so != NIL
      modifies this
      ensures Valid() && mem[head].qlimit == old(mem[head].qlimit)
      ensures accepted <==> attaches && old(|pending| + |complete|) <= 3 * mem[head].qlimit / 2
      ensures accepted ==> mem.Keys == old(mem.Keys) + {so}
      ensures !accepted ==> mem.Keys == old(mem.Keys)
      ensures pending == (if accepted && !connected then old(pending) + [so] else old(pending))
      ensures complete == (if accepted && connected then old(complete) + [so] else old(complete))
    {
      hide Represents;
      RepresentsParts(mem, head, pending, complete);
      if mem[head].qlen + mem[head].q0len > 3 * mem[head].qlimit / 2 {
        return false;
      }
      NewSocket(mem, head, pending, complete, so);
      mem := mem[so := Sock(NIL, NIL, NIL, 0, 0, 0)];
      Insert(so, connected);
      if !attaches {
        var was := Remove(so, connected);
        LastGone(Lists(old(pending), old(complete), connected), Lists(pending, complete, connected), so);
        SocketGone(mem, head, pending, complete, so);
        mem := mem - {so};
        return false;
      }
      return true;
    }

    /** A connection is complete: it moves from the one list to the end of the other. */
    method IsConnected(so: nat)
      requires Valid() && so in mem && so != head && so != NIL
      modifies this
      ensures Valid() && mem.Keys == old(mem.Keys) && mem[head].qlimit == old(mem[head].qlimit)
      ensures if so in old(pending) then Without(old(pending), pending, so, true) && complete == old(complete) + [so]
              else pending == old(pending) && complete == old(complete)
    {
      hide Represents;
      RepresentsParts(mem, head, pending, complete);
      if mem[so].head != NIL {
        var found := Remove(so, false);
        if found {
          RepresentsParts(mem, head, pending, complete);
          Insert(so, true);
        }
      }
    }

    /**
     A socket goes away, unless a protocol or a descriptor still refers to it: if it has a listener it is on exactly one
     of its lists, and never on none.
     */
    method Free(so: nat, inUse: bool)
      requires Valid() && so in mem && so != head && so != NIL
      modifies this
      ensures Valid() && mem[head].qlimit == old(mem[head].qlimit)
      ensures if inUse then mem == old(mem) else mem.Keys == old(mem.Keys) - {so}
      ensures Without(old(pending), pending, so, !inUse && so in old(pending))
      ensures Without(old(complete), complete, so, !inUse && so in old(complete))
    {
      hide Represents;
      if inUse {
        return;
      }
      RepresentsParts(mem, head, pending, complete);
      if mem[so].head != NIL {
        var found := Remove(so, false);
        if !found {
          found := Remove(so, true);
          assert found;
        }
      }
      RepresentsParts(mem, head, pending, complete);
      SocketGone(mem, head, pending, complete, so);
      mem := mem - {so};
    }

    /** The connection completed first, if there is one, is handed out. */
    method Accept() returns (so: Option<nat>)
      requires Valid()
      modifies this
      ensures Valid() && mem.Keys == old(mem.Keys) && mem[head].qlimit == old(mem[head].qlimit)
              && pending == old(pending)
      ensures match so
              case None => old(complete) == [] && complete == []
              case Some(x) => old(complete) == [x] + complete && x in mem && mem[x].head == NIL
    {
      hide Represents;
      RepresentsParts(mem, head, pending, complete);
      if mem[head].qlen == 0 {
        return None;
      }
      FirstThere(mem, head, complete);
      var aso := mem[head].q;
      var found := Remove(aso, true);
      FirstGone(old(complete), complete, aso);
      return Some(aso);
    }
  }

  // ----- whole runs

  /** What happens to a listener: a request, possibly complete at once; a completion; a socket going away; an accept. */
  datatype Event =
    | Request(so: nat, connected: bool, attaches: bool)
    | Completion(so: nat)
    | Loss(so: nat, inUse: bool)
    | Acceptance

  /**
   The lists, with what there was before: every socket so far, those that completed in that order, those accepted, and
   those lost after completion.
   */
  datatype History = History(pending: seq<nat>, complete: seq<nat>, used: set<nat>, completed: seq<nat>,
                             accepted: seq<nat>, lost: set<nat>)

  const NOTHING: History := History([], [], {}, [], [], {})

  /** A list without one of its members. */
  function Minus(s: seq<nat>, x: nat): seq<nat> {
    if s == [] then [] else if s[0] == x then s[1..] else [s[0]] + Minus(s[1..], x)
  }

  function After(h: History, e: Event, limit: nat): History {
    match e
    case Request(so, connected, attaches) =>
      if !attaches || |h.pending| + |h.complete| > 3 * limit / 2 then h.(used := h.used + {so})
      else if connected then
        h.(complete := h.complete + [so], used := h.used + {so}, completed := h.completed + [so])
      else h.(pending := h.pending + [so], used := h.used + {so})
    case Completion(so) =>
      if so in h.pending then
        h.(pending := Minus(h.pending, so), complete := h.complete + [so], completed := h.completed + [so])
      else h
    case Loss(so, inUse) =>
      if inUse then h else
      h.(pending := Minus(h.pending, so), complete := Minus(h.complete, so),
         lost := if so in h.complete then h.lost + {so} else h.lost)
    case Acceptance =>
      if h.complete == [] then h else h.(complete := h.complete[1..], accepted := h.accepted + [h.complete[0]])
  }

  /** Every request brings a socket of its own. */
  predicate Fresh(h: History, e: Event) { e.Request? ==> e.so !in h.used }

  function Kept(s: seq<nat>, lost: set<nat>): seq<nat> {
    if s == [] then [] else Kept(s[..|s| - 1], lost) + if s[|s| - 1] in lost then [] else [s[|s| - 1]]
  }

  /**
   Accepted and waiting sockets, in this order, are the completed ones that were not lost, in the order of completion.
   */
  predicate Orderly(h: History, limit: nat) {
    && h.accepted + h.complete == Kept(h.completed, h.lost) && Distinct(h.completed)
    && Distinct(h.pending) && (forall x :: x in h.pending ==> x !in h.completed && x in h.used)
    && (forall x :: x in h.completed ==> x in h.used) && (forall x :: x in h.lost ==> x in h.completed)
    && |h.pending| + |h.complete| <= 3 * limit / 2 + 1
  }

  lemma {:induction false} KeptMembers(s: seq<nat>, lost: set<nat>)
    ensures forall x :: x in Kept(s, lost) <==> x in s && x !in lost
    ensures Distinct(s) ==> Distinct(Kept(s, lost))
    decreases |s|
  {
    if s != [] {
      var n := |s| - 1;
      KeptMembers(s[..n], lost);
      assert s == s[..n] + [s[n]];
      if Distinct(s) {
        assert s[n] !in s[..n];
        assert Distinct(Kept(s[..n], lost) + if s[n] in lost then [] else [s[n]]);
      }
    }
  }

  lemma KeptSnoc(s: seq<nat>, x: nat, lost: set<nat>)
    requires x !in lost
    ensures Kept(s + [x], lost) == Kept(s, lost) + [x]
  {
    assert (s + [x])[..|s|] == s;
  }

  lemma {:induction false} MinusMembers(s: seq<nat>, x: nat)
    requires Distinct(s)
    ensures forall y :: y in Minus(s, x) <==> y in s && y != x
    ensures Distinct(Minus(s, x)) && |Minus(s, x)| == if x in s then |s| - 1 else |s|
  {
    if s != [] {
      MinusMembers(s[1..], x);
      assert s == [s[0]] + s[1..];
      assert s[0] !in s[1..];
    }
  }

  lemma {:induction false} MinusConcat(s: seq<nat>, t: seq<nat>, x: nat)
    requires x !in s
    ensures Minus(s + t, x) == s + Minus(t, x)
  {
    if s == [] {
      assert s + t == t;
    } else {
      MinusConcat(s[1..], t, x);
      assert (s + t)[1..] == s[1..] + t;
    }
  }

  lemma {:induction false} MinusSnoc(s: seq<nat>, y: nat, x: nat)
    requires y != x || x !in s
    ensures Minus(s + [y], x) == if y == x then s else Minus(s, x) + [y]
  {
    if s == [] {
      assert s + [y] == [y];
      assert Minus([y], x) == if y == x then [] else [y];
    } else {
      assert (s + [y])[1..] == s[1..] + [y];
      if s[0] != x {
        MinusSnoc(s[1..], y, x);
      }
    }
  }

  lemma {:induction false} KeptLess(s: seq<nat>, lost: set<nat>, x: nat)
    requires Distinct(s) && x in s && x !in lost
    ensures Kept(s, lost + {x}) == Minus(Kept(s, lost), x)
    decreases |s|
  {
    var n := |s| - 1;
    var a, y := s[..n], s[n];
    assert s == a + [y];
    KeptMembers(a, lost);
    if y == x {
      KeptOther(a, lost, x);
      MinusSnoc(Kept(a, lost), y, x);
    } else {
      KeptLess(a, lost, x);
      if y !in lost {
        MinusSnoc(Kept(a, lost), y, x);
      } else {
        assert Kept(s, lost) == Kept(a, lost) && Kept(s, lost + {x}) == Kept(a, lost + {x});
      }
    }
  }

  lemma {:induction false} KeptOther(s: seq<nat>, lost: set<nat>, x: nat)
    requires x !in s
    ensures Kept(s, lost + {x}) == Kept(s, lost)
    decreases |s|
  {
    if s != [] {
      var n := |s| - 1;
      assert s[n] in s;
      KeptOther(s[..n], lost, x);
    }
  }

  /** Every event keeps the lists orderly, for any fixed limit. */
  lemma StaysOrderly(h: History, e: Event, limit: nat)
    requires Orderly(h, limit) && Fresh(h, e)
    ensures Orderly(After(h, e, limit), limit)
  {
    match e
    case Request(so, connected, attaches) =>
      if attaches && |h.pending| + |h.complete| <= 3 * limit / 2 {
        NewOrderly(h, so, connected, limit);
      }
    case Completion(so) =>
      if so in h.pending {
        CompletionOrderly(h, so, limit);
      }
    case Loss(so, inUse) =>
      MinusMembers(h.pending, so);
      LossOrderly(h, so);
      hide Kept, Minus, Distinct;
    case Acceptance =>
      if h.complete != [] {
        assert h.accepted + h.complete == h.accepted + [h.complete[0]] + h.complete[1..];
      }
      hide Kept, Distinct;
  }

  lemma NewOrderly(h: History, so: nat, connected: bool, limit: nat)
    requires Orderly(h, limit) && so !in h.used && |h.pending| + |h.complete| <= 3 * limit / 2
    ensures Orderly(After(h, Request(so, connected, true), limit), limit)
  {
    hide Kept;
    if connected {
      KeptSnoc(h.completed, so, h.lost);
      Assoc(h.accepted, h.complete, [so]);
      DistinctSnoc(h.completed, so);
    } else {
      DistinctSnoc(h.pending, so);
    }
    hide Distinct;
  }

  lemma CompletionOrderly(h: History, so: nat, limit: nat)
    requires Orderly(h, limit) && so in h.pending
    ensures Orderly(After(h, Completion(so), limit), limit)
  {
    hide Kept, Minus, Distinct;
    MinusMembers(h.pending, so);
    KeptSnoc(h.completed, so, h.lost);
    Assoc(h.accepted, h.complete, [so]);
    DistinctSnoc(h.completed, so);
  }

  lemma LossOrderly(h: History, so: nat)
    requires h.accepted + h.complete == Kept(h.completed, h.lost) && Distinct(h.completed)
    ensures var lost := if so in h.complete then h.lost + {so} else h.lost;
            h.accepted + Minus(h.complete, so) == Kept(h.completed, lost)
    ensures |Minus(h.complete, so)| <= |h.complete|
    ensures so in h.complete ==> so in h.completed
  {
    KeptMembers(h.completed, h.lost);
    DistinctParts(h.accepted, h.complete);
    MinusMembers(h.complete, so);
    if so in h.complete {
      assert so in h.accepted + h.complete;
      assert so !in h.accepted;
      MinusConcat(h.accepted, h.complete, so);
      KeptLess(h.completed, h.lost, so);
    } else {
      MinusNothing(h.complete, so);
    }
  }

  lemma {:induction false} MinusNothing(s: seq<nat>, x: nat)
    requires x !in s
    ensures Minus(s, x) == s
  {
    if s != [] {
      MinusNothing(s[1..], x);
    }
  }

  lemma WithoutMinus(s: seq<nat>, t: seq<nat>, so: nat)
    requires Distinct(s) && Without(s, t, so, so in s)
    ensures t == Minus(s, so)
  {
    if so in s {
      var k :| 0 <= k < |s| && s[k] == so && t == Removed(s, k);
      MinusAt(s, k);
    } else {
      MinusNothing(s, so);
    }
  }

  lemma {:induction false} MinusAt(s: seq<nat>, k: nat)
    requires Distinct(s) && k < |s|
    ensures Minus(s, s[k]) == Removed(s, k)
  {
    hide Removed;
    RemovedNext(s, k);
    if k > 0 {
      MinusAt(s[1..], k - 1);
    }
  }

  lemma RemovedNext(s: seq<nat>, k: nat)
    requires k < |s|
    ensures Removed(s, k) == if k == 0 then s[1..] else [s[0]] + Removed(s[1..], k - 1)
  {
    if k > 0 {
      assert s[..k] == [s[0]] + s[1..][..k - 1];
    }
  }

  function Replay(h: History, es: seq<Event>, limit: nat): History {
    if es == [] then h else After(Replay(h, es[..|es| - 1], limit), es[|es| - 1], limit)
  }

  /** Requests bring sockets of their own; no other event concerns the listener itself. */
  predicate Proper(es: seq<Event>, head: nat) {
    && (forall i :: 0 <= i < |es| && es[i].Request? ==> es[i].so != NIL && es[i].so != head)
    && (forall i, j :: 0 <= i < j < |es| && es[i].Request? && es[j].Request? ==> es[i].so != es[j].so)
  }

  lemma {:induction false} ReplayUsed(es: seq<Event>, limit: nat)
    ensures forall x :: x in Replay(NOTHING, es, limit).used
              <==> exists i :: 0 <= i < |es| && es[i].Request? && es[i].so == x
    decreases |es|
  {
    if es != [] {
      var n := |es| - 1;
      ReplayUsed(es[..n], limit);
      forall x | x in Replay(NOTHING, es, limit).used
        ensures exists i :: 0 <= i < |es| && es[i].Request? && es[i].so == x {
        if x in Replay(NOTHING, es[..n], limit).used {
          var i :| 0 <= i < n && es[..n][i].Request? && es[..n][i].so == x;
          assert es[i].Request? && es[i].so == x;
        } else {
          assert es[n].Request? && es[n].so == x;
        }
      }
      forall i | 0 <= i < |es| && es[i].Request? ensures es[i].so in Replay(NOTHING, es, limit).used {
        if i < n {
          assert es[..n][i].Request?;
        }
      }
    }
  }

  lemma {:induction false} RunOrderly(es: seq<Event>, limit: nat, head: nat)
    requires Proper(es, head)
    ensures Orderly(Replay(NOTHING, es, limit), limit)
    decreases |es|
  {
    if es != [] {
      var n := |es| - 1;
      assert Proper(es[..n], head);
      RunOrderly(es[..n], limit, head);
      ReplayUsed(es[..n], limit);
      NextFresh(es, limit, head);
      StaysOrderly(Replay(NOTHING, es[..n], limit), es[n], limit);
    }
  }

  lemma NextFresh(es: seq<Event>, limit: nat, head: nat)
    requires Proper(es, head) && es != []
    ensures Fresh(Replay(NOTHING, es[..|es| - 1], limit), es[|es| - 1])
  {
    var n := |es| - 1;
    ReplayUsed(es[..n], limit);
  }

  /**
   Any run of a listener: the lists are those of the history, no more than the limit allows are ever waiting, and
   connections are handed out in the order in which they were completed.
   */
  method Serve(head: nat, limit: nat, es: seq<Event>) returns (l: Listener, accepted: seq<nat>)
    requires head != NIL && Proper(es, head)
    ensures fresh(l) && l.Valid() && l.head == head && l.mem[l.head].qlimit == limit
    ensures var h := Replay(NOTHING, es, limit);
            Orderly(h, limit) && l.pending == h.pending && l.complete == h.complete && accepted == h.accepted
  {
    hide Orderly, Replay, After, Proper, Fresh, Represents, Follows;
    l := new Listener(head, limit);
    accepted := [];
    var i := 0;
    ghost var h := NOTHING;
    NothingYet(es, limit);
    Begins(l.mem, head, limit);
    while i < |es|
      invariant 0 <= i <= |es| && h == Replay(NOTHING, es[..i], limit) && Orderly(h, limit)
      invariant fresh(l) && l.head == head && Follows(l.mem, head, l.pending, l.complete, accepted, h, limit)
    {
      ReplayNext(es, i, limit, head);
      StaysOrderly(h, es[i], limit);
      var a := Do(l, es[i], accepted, h, limit);
      accepted := a;
      h := After(h, es[i], limit);
      i := i + 1;
    }
    assert es[..i] == es;
    FollowsParts(l.mem, head, l.pending, l.complete, accepted, h, limit);
  }

  lemma NothingYet(es: seq<Event>, limit: nat)
    ensures Replay(NOTHING, es[..0], limit) == NOTHING && Orderly(NOTHING, limit)
  {
  }

  lemma Begins(mem: Memory, head: nat, limit: nat)
    requires Represents(mem, head, [], []) && mem.Keys == {head} && mem[head].qlimit == limit
    ensures Follows(mem, head, [], [], [], NOTHING, limit)
  {
    hide Represents;
  }

  lemma FollowsParts(mem: Memory, head: nat, pending: seq<nat>, complete: seq<nat>, accepted: seq<nat>, h: History,
                     limit: nat)
    requires Follows(mem, head, pending, complete, accepted, h, limit)
    ensures Represents(mem, head, pending, complete) && head in mem && mem[head].qlimit == limit
    ensures pending == h.pending && complete == h.complete && accepted == h.accepted
  {
  }

  /** The next event, and what it finds. */
  lemma ReplayNext(es: seq<Event>, i: nat, limit: nat, head: nat)
    requires i < |es| && Proper(es, head)
    ensures var h := Replay(NOTHING, es[..i], limit);
            Replay(NOTHING, es[..i + 1], limit) == After(h, es[i], limit) && Fresh(h, es[i])
    ensures es[i].Request? ==> es[i].so != NIL && es[i].so != head
  {
    hide After, Fresh;
    var fs := es[..i + 1];
    assert fs[..i] == es[..i] && fs[i] == es[i];
    assert Proper(fs, head);
    NextFresh(fs, limit, head);
  }

  /** The listener's lists are those of the history, and it knows no socket that the history does not. */
  ghost predicate Follows(mem: Memory, head: nat, pending: seq<nat>, complete: seq<nat>, accepted: seq<nat>,
                          h: History, limit: nat) {
    && Represents(mem, head, pending, complete) && mem[head].qlimit == limit
    && pending == h.pending && complete == h.complete && accepted == h.accepted
    && (forall x :: x in mem ==> x == head || x in h.used)
  }

  method Do(l: Listener, e: Event, accepted: seq<nat>, ghost h: History, ghost limit: nat) returns (accepted': seq<nat>)
    requires Follows(l.mem, l.head, l.pending, l.complete, accepted, h, limit) && Orderly(h, limit) && Fresh(h, e)
    requires e.Request? ==> e.so != NIL && e.so != l.head
    modifies l
    ensures Follows(l.mem, l.head, l.pending, l.complete, accepted', After(h, e, limit), limit)
  {
    hide Represents, Orderly, Minus;
    RepresentsParts(l.mem, l.head, l.pending, l.complete);
    ghost var p, c := l.pending, l.complete;
    accepted' := accepted;
    match e {
      case Request(so, connected, attaches) =>
        var ok := l.NewConn(so, connected, attaches);
      case Completion(so) =>
        if so in l.mem && so != l.head && so != NIL {
          l.IsConnected(so);
          if so in p {
            WithoutMinus(p, l.pending, so);
          }
        }
      case Loss(so, inUse) =>
        if so in l.mem && so != l.head && so != NIL {
          l.Free(so, inUse);
          if !inUse {
            WithoutMinus(p, l.pending, so);
            WithoutMinus(c, l.complete, so);
          }
        } else {
          MinusNothing(p, so);
          MinusNothing(c, so);
        }
      case Acceptance =>
        var so := l.Accept();
        if so.Some? {
          accepted' := accepted + [so.value];
        }
    }
  }

  /** `t` is `s` without `so`, which is in it; or the same, if nothing was to be taken out. */
  ghost predicate Without(s: seq<nat>, t: seq<nat>, so: nat, taken: bool) {
    if taken then exists k :: 0 <= k < |s| && s[k] == so && t == Removed(s, k) else t == s
  }

  lemma RepresentsParts(mem: Memory, head: nat, pending: seq<nat>, complete: seq<nat>)
    requires Represents(mem, head, pending, complete)
    ensures head in mem && head != NIL && head !in pending && head !in complete
    ensures List(mem, head, pending, false) && List(mem, head, complete, true)
    ensures Distinct(pending) && Distinct(complete) && forall x :: x in pending ==> x !in complete
    ensures forall x :: x in pending || x in complete ==> x in mem && x != NIL
    ensures forall x :: x in mem && x != head ==> mem[x].head == if x in pending || x in complete then head else NIL
    ensures mem[head].q0len == |pending| && mem[head].qlen == |complete|
    ensures |pending| + |complete| <= 3 * mem[head].qlimit / 2 + 1
  {
    DistinctParts(pending, complete);
    ListThere(mem, head, pending, false);
    ListThere(mem, head, complete, true);
  }

  lemma ListThere(mem: Memory, head: nat, s: seq<nat>, q: bool)
    requires List(mem, head, s, q)
    ensures forall x :: x in s ==> x in mem && x != NIL
  {
    forall i | 0 <= i < |s| ensures s[i] in mem && s[i] != NIL {
      assert Link(mem, head, s, q, i);
      assert Link(mem, head, s, q, i + 1);
    }
  }

  lemma NotItself(head: nat, s: seq<nat>, k: nat)
    requires Distinct(s) && head !in s && k < |s|
    ensures s[k] != head && s[k] != Before(head, s, k)
  {
    BeforeDistinct(head, s, k, k + 1);
  }

  lemma EndThere(mem: Memory, head: nat, s: seq<nat>, q: bool)
    requires List(mem, head, s, q)
    ensures Before(head, s, |s|) in mem
  {
    assert Link(mem, head, s, q, |s|);
  }

  lemma LinkThere(mem: Memory, head: nat, s: seq<nat>, q: bool, k: nat)
    requires List(mem, head, s, q) && k < |s|
    ensures Before(head, s, k) in mem && s[k] in mem
  {
    assert Link(mem, head, s, q, k);
    assert Link(mem, head, s, q, k + 1);
  }

  /** Every socket but the ones given has the same listener and the same successors. */
  ghost predicate SameElsewhere(mem: Memory, mem': Memory, head: nat, a: nat, b: nat) {
    && mem.Keys == mem'.Keys
    && forall x :: x in mem && x != head && x != a && x != b ==> mem'[x] == mem[x]
  }

  lemma Inserted(mem: Memory, mem': Memory, head: nat, pending: seq<nat>, complete: seq<nat>, so: nat, q: bool,
                 prev: nat)
    requires Represents(mem, head, pending, complete) && |pending| + |complete| <= 3 * mem[head].qlimit / 2
    requires so in mem && so != head && so != NIL && so !in pending && so !in complete && prev in mem
    requires prev == Before(head, Lists(pending, complete, q), |Lists(pending, complete, q)|)
    requires SameElsewhere(mem, mem', head, so, prev)
    requires mem'[so].head == head && Next(mem'[so], q) == NIL
    requires Next(mem'[prev], q) == so && Next(mem'[prev], !q) == Next(mem[prev], !q)
             && mem'[prev].head == mem[prev].head
    requires prev != head ==> mem'[head] == Grown(mem[head], q)
    requires prev == head ==> mem'[head] == WithNext(Grown(mem[head], q), q, so)
    ensures mem'[head].qlimit == mem[head].qlimit
    ensures Represents(mem', head, if q then pending else pending + [so], if q then complete + [so] else complete)
  {
    RepresentsParts(mem, head, pending, complete);
    var s := Lists(pending, complete, q);
    assert prev == head || prev in s;
    ListAppended(mem, mem', head, s, q, so);
    ListFrame(mem, mem', head, Lists(pending, complete, !q), !q);
    var p', c' := if q then pending else pending + [so], if q then complete + [so] else complete;
    DistinctSnoc(s, so);
    DistinctJoin(p', c');
    hide List;
  }

  lemma DistinctSnoc(s: seq<nat>, so: nat)
    requires Distinct(s) && so !in s
    ensures Distinct(s + [so])
  {
  }

  lemma Removal(mem: Memory, mem': Memory, head: nat, pending: seq<nat>, complete: seq<nat>, so: nat, q: bool,
                prev: nat, k: nat)
    requires Represents(mem, head, pending, complete) && so in mem && prev in mem
    requires k < |Lists(pending, complete, q)| && Lists(pending, complete, q)[k] == so
    requires prev == Before(head, Lists(pending, complete, q), k) && SameElsewhere(mem, mem', head, so, prev)
    requires mem'[so].head == NIL
    requires Next(mem'[prev], q) == Next(mem[so], q) && Next(mem'[prev], !q) == Next(mem[prev], !q)
    requires mem'[prev].head == mem[prev].head && (if q then mem[head].qlen else mem[head].q0len) > 0
    requires prev != head ==> mem'[head] == Shrunk(mem[head], q)
    requires prev == head ==> mem'[head] == Shrunk(WithNext(mem[head], q, Next(mem[so], q)), q)
    ensures mem'[head].qlimit == mem[head].qlimit
    ensures Represents(mem', head, if q then pending else Removed(pending, k),
                       if q then Removed(complete, k) else complete)
  {
    RepresentsParts(mem, head, pending, complete);
    var s := Lists(pending, complete, q);
    assert prev == head || prev in s;
    ListRemoved(mem, mem', head, s, q, k);
    ListFrame(mem, mem', head, Lists(pending, complete, !q), !q);
    DistinctRemoved(s, k);
    var p', c' := if q then pending else Removed(pending, k), if q then Removed(complete, k) else complete;
    DistinctJoin(p', c');
    hide List, Removed;
  }

  lemma NewSocket(mem: Memory, head: nat, pending: seq<nat>, complete: seq<nat>, so: nat)
    requires Represents(mem, head, pending, complete) && so !in mem
    ensures Represents(mem[so := Sock(NIL, NIL, NIL, 0, 0, 0)], head, pending, complete)
    ensures so !in pending && so !in complete && so != head
  {
    RepresentsParts(mem, head, pending, complete);
    var mem' := mem[so := Sock(NIL, NIL, NIL, 0, 0, 0)];
    ListFrame(mem, mem', head, pending, false);
    ListFrame(mem, mem', head, complete, true);
  }

  lemma SocketGone(mem: Memory, head: nat, pending: seq<nat>, complete: seq<nat>, so: nat)
    requires Represents(mem, head, pending, complete) && so in mem && so != head && mem[so].head == NIL
    ensures Represents(mem - {so}, head, pending, complete)
  {
    RepresentsParts(mem, head, pending, complete);
    ListKept(mem, head, pending, false, so);
    ListKept(mem, head, complete, true, so);
  }

  lemma ListKept(mem: Memory, head: nat, s: seq<nat>, q: bool, so: nat)
    requires List(mem, head, s, q) && so != head && so !in s
    ensures List(mem - {so}, head, s, q)
  {
    forall i | 0 <= i <= |s| ensures Link(mem - {so}, head, s, q, i) {
      assert Link(mem, head, s, q, i);
    }
  }

  lemma LastGone(s: seq<nat>, t: seq<nat>, so: nat)
    requires so !in s && Without(s + [so], t, so, true)
    ensures t == s
  {
    var k :| 0 <= k < |s + [so]| && (s + [so])[k] == so && t == Removed(s + [so], k);
    assert k == |s|;
  }

  lemma FirstThere(mem: Memory, head: nat, s: seq<nat>)
    requires List(mem, head, s, true) && s != []
    ensures head in mem && mem[head].q == s[0] && s[0] in mem && s[0] != NIL
  {
    assert Link(mem, head, s, true, 0);
    assert Link(mem, head, s, true, 1);
  }

  lemma FirstGone(s: seq<nat>, t: seq<nat>, so: nat)
    requires s != [] && s[0] == so && Distinct(s) && Without(s, t, so, true)
    ensures s == [so] + t
  {
    var k :| 0 <= k < |s| && s[k] == so && t == Removed(s, k);
    assert k == 0;
  }
}
