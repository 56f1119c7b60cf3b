/** Routines on chains of buffers, and the strings of octets they stand for. */
module MbufChains {
  import opened Prelude
  import opened Mbufs

  /** A chain whose first buffer may carry a packet header with the total length. */
  datatype Packet = Packet(hdr: Option<int>, chain: Chain)

  /** The header, if there is one, tells the truth. */
  predicate Consistent(p: Packet) {
    p.hdr.Some? ==> p.hdr.value == |Raw(p.chain)|
  }

  function Raw(c: Chain): seq<Byte> {
    if c == [] then [] else c[0].data + Raw(c[1..])
  }

  lemma {:induction false} RawConcat(c: Chain, d: Chain)
    ensures Raw(c + d) == Raw(c) + Raw(d)
  {
    if c == [] {
      assert c + d == d;
    } else {
      RawConcat(c[1..], d);
      assert (c + d)[0] == c[0] && (c + d)[1..] == c[1..] + d;
      Assoc(c[0].data, Raw(c[1..]), Raw(d));
    }
  }

  lemma RawOne(m: Mbuf)
    ensures Raw([m]) == m.data
  {
    var c: Chain := [m];
    assert c[1..] == [];
  }

  lemma RawSnoc(c: Chain, m: Mbuf)
    ensures Raw(c + [m]) == Raw(c) + m.data
  {
    RawConcat(c, [m]);
    RawOne(m);
  }

  lemma RawSplit(c: Chain, i: nat)
    requires i < |c|
    ensures Raw(c) == Raw(c[..i]) + c[i].data + Raw(c[i + 1..])
    ensures Raw(c[..i + 1]) == Raw(c[..i]) + c[i].data && Raw(c[i..]) == c[i].data + Raw(c[i + 1..])
  {
    hide Raw;
    RawRest(c, i);
    assert c == c[..i] + c[i..];
    RawConcat(c[..i], c[i..]);
    assert c[..i + 1] == c[..i] + [c[i]];
    RawSnoc(c[..i], c[i]);
    Assoc(Raw(c[..i]), c[i].data, Raw(c[i + 1..]));
  }

  lemma RawRest(c: Chain, i: nat)
    requires i < |c|
    ensures Raw(c[i..]) == c[i].data + Raw(c[i + 1..])
  {
    assert c[i..][1..] == c[i + 1..];
  }

  /** The text of a chain and its octets go together. */
  lemma {:induction false} RawFlat(c: Chain)
    ensures |Raw(c)| == |Flat(c)| && forall i :: 0 <= i < |Raw(c)| ==> Raw(c)[i] == Flat(c)[i].value
  {
    if c != [] {
      RawFlat(c[1..]);
    }
  }

  // ----- finding an offset

  /**
   The buffer that holds an offset, and what is left of the offset there; the end of the chain if it is all used up.
   */
  method Seek(c: Chain, off0: nat) returns (i: nat, off: nat)
    requires off0 <= |Flat(c)|
    ensures i <= |c| && off0 == |Flat(c[..i])| + off
    ensures i < |c| ==> off <= |c[i].data|
    ensures i == |c| ==> off == 0
  {
    hide Flat;
    i, off := 0, off0;
    FlatNone();
    while off > 0
      invariant 0 <= i <= |c| && off0 == |Flat(c[..i])| + off && (i == |c| ==> off == 0)
      decreases |c| - i
    {
      if off < |c[i].data| {
        break;
      }
      FlatSplit(c, i);
      off := off - |c[i].data|;
      i := i + 1;
      if i == |c| {
        assert c[..i] == c;
      }
    }
  }

  lemma FlatNone()
    ensures Flat([]) == []
  {
  }

  lemma FlatAt(c: Chain, i: nat)
    requires i < |c|
    ensures Flat(c[i..]) == Text(c[i]) + Flat(c[i + 1..])
  {
    assert c[i..][1..] == c[i + 1..];
  }

  lemma FlatSplit(c: Chain, i: nat)
    requires i < |c|
    ensures Flat(c) == Flat(c[..i]) + Text(c[i]) + Flat(c[i + 1..])
    ensures Flat(c[..i + 1]) == Flat(c[..i]) + Text(c[i])
  {
    hide Text, Flat;
    FlatAt(c, i);
    assert c == c[..i] + c[i..];
    FlatConcat(c[..i], c[i..]);
    assert c[..i + 1] == c[..i] + [c[i]];
    FlatSnoc(c[..i], c[i]);
    Assoc(Flat(c[..i]), Text(c[i]), Flat(c[i + 1..]));
  }

  /** Part of a buffer: of a cluster by reference, otherwise by copying to the start of a new one. */
  function Piece(m: Mbuf, off: nat, n: nat): Mbuf
    requires off + n <= |m.data|
  {
    Mbuf(m.data[off..off + n], if m.ext == 0 then 0 else m.off + off, m.kind, false, m.ext)
  }

  /** What is wanted of a chain: `len` octets, or all from the offset on. */
  function Wanted(c: Chain, off: nat, len: Option<nat>): nat
    requires off <= |Flat(c)|
  {
    if len.Some? then len.value else |Flat(c)| - off
  }

  /** A copy of `len` octets from an offset on, types included; without `len`, of all the rest. */
  method CopyM(p: Packet, off: nat, len: Option<nat>) returns (r: Packet)
    requires off <= |Flat(p.chain)| && off + Wanted(p.chain, off, len) <= |Flat(p.chain)| && Consistent(p)
             && ValidChain(p.chain)
    ensures Flat(r.chain) == if len.None? then Flat(p.chain)[off..] else Flat(p.chain)[off..off + len.value]
    ensures Consistent(r) && ValidChain(r.chain) && (r.hdr.Some? <==> p.hdr.Some? && off == 0 && r.chain != [])
  {
    hide Flat, Raw, ValidChain;
    var top := CopyChain(p.chain, off, len);
    RawFlat(top);
    RawFlat(p.chain);
    var hdr: Option<int> := None;
    if off == 0 && p.hdr.Some? && top != [] {
      hdr := Some(if len.Some? then len.value else p.hdr.value - off);
    }
    r := Packet(hdr, top);
  }

  method CopyChain(c: Chain, off0: nat, len0: Option<nat>) returns (top: Chain)
    requires off0 <= |Flat(c)| && off0 + Wanted(c, off0, len0) <= |Flat(c)| && ValidChain(c)
    ensures Flat(top) == Flat(c)[off0..off0 + Wanted(c, off0, len0)] && ValidChain(top)
  {
    hide Flat, Text, ValidMbuf, Piece;
    ghost var all, want := Flat(c), Wanted(c, off0, len0);
    var i: nat, off: nat := Seek(c, off0);
    var len: Option<nat> := len0;
    top := [];
    FlatNone();
    Whole(all);
    ghost var done: nat := 0;
    while len.None? || len.value > 0
      invariant 0 <= i <= |c| && (i < |c| ==> off <= |c[i].data|) && (i == |c| ==> off == 0) && ValidChain(top)
      invariant done <= want && Flat(top) == all[off0..off0 + done]
      invariant done < want || len.None? ==> off0 + done == |Flat(c[..i])| + off
      invariant len.Some? == len0.Some? && (len.Some? ==> len.value + done == want)
      decreases |c| - i
    {
      assert c[..|c|] == c;
      if i == |c| {
        break;
      }
      var n := if len.None? then |c[i].data| - off else Min(len.value, |c[i].data| - off);
      PieceText(c[i], off, n);
      FlatSnoc(top, Piece(c[i], off, n));
      CopyStep(c, i, off, n, off0 + done, off0);
      top := top + [Piece(c[i], off, n)];
      if len.Some? {
        len := Some(len.value - n);
      }
      done := done + n;
      off := 0;
      i := i + 1;
    }
  }

  lemma Whole(all: seq<Octet>)
    ensures all[0..|all|] == all && forall i :: 0 <= i <= |all| ==> all[i..i] == []
  {
  }

  lemma PieceText(m: Mbuf, off: nat, n: nat)
    requires off + n <= |m.data|
    ensures Text(Piece(m, off, n)) == Text(m)[off..off + n] && (ValidMbuf(m) ==> ValidMbuf(Piece(m, off, n)))
  {
  }

  lemma CopyStep(c: Chain, i: nat, off: nat, n: nat, at: nat, from: nat)
    requires i < |c| && off + n <= |c[i].data| && at == |Flat(c[..i])| + off && from <= at
    ensures at + n <= |Flat(c)| && Flat(c)[from..at] + Text(c[i])[off..off + n] == Flat(c)[from..at + n]
    ensures off + n == |c[i].data| ==> at + n == |Flat(c[..i + 1])|
  {
    hide Flat, Text;
    FlatSplit(c, i);
    var a, x, b := Flat(c[..i]), Text(c[i]), Flat(c[i + 1..]);
    var all := Flat(c);
    assert all == a + x + b;
    MiddleSlice(a, x, b, off, off + n);
    SliceConcat(all, from, at, at + n);
  }

  /** Copy `len` octets from an offset on into a buffer. */
  method CopyData(c: Chain, off0: nat, len: nat) returns (out: seq<Byte>)
    requires off0 + len <= |Raw(c)|
    ensures out == Raw(c)[off0..off0 + len]
  {
    hide Raw, Flat;
    RawFlat(c);
    var i: nat, off: nat := Seek(c, off0);
    RawFlat(c[..i]);
    out := [];
    while |out| < len
      invariant i <= |c| && |out| <= len && (i < |c| ==> off <= |c[i].data|) && (i == |c| ==> off == 0)
      invariant |out| < len ==> off0 + |out| == |Raw(c[..i])| + off
      invariant out == Raw(c)[off0..off0 + |out|]
      decreases |c| - i
    {
      assert c[..|c|] == c;
      var count := Min(|c[i].data| - off, len - |out|);
      CopyRaw(c, i, off, count, off0 + |out|, off0);
      out := out + c[i].data[off..off + count];
      off := 0;
      i := i + 1;
    }
  }

  lemma CopyRaw(c: Chain, i: nat, off: nat, n: nat, at: nat, from: nat)
    requires i < |c| && off + n <= |c[i].data| && at == |Raw(c[..i])| + off && from <= at
    ensures at + n <= |Raw(c)| && Raw(c)[from..at] + c[i].data[off..off + n] == Raw(c)[from..at + n]
    ensures off + n == |c[i].data| ==> at + n == |Raw(c[..i + 1])|
  {
    RawSplit(c, i);
    hide Raw;
    var a, x, b := Raw(c[..i]), c[i].data, Raw(c[i + 1..]);
    var all := Raw(c);
    assert all == a + x + b;
    MiddleSlice(a, x, b, off, off + n);
    SliceConcat(all, from, at, at + n);
  }

  // ----- concatenation

  /** Add chain `n` to the end of `m`: into the space left in its last buffer as long as that works, then as it is. */
  method Cat(m: Chain, n: Chain) returns (r: Chain)
    requires m != [] && ValidChain(m) && ValidChain(n)
    ensures Raw(r) == Raw(m) + Raw(n) && ValidChain(r)
    ensures m <= r || (|m| <= |r| && r[..|m| - 1] == m[..|m| - 1])
  {
    hide Raw;
    var last := m[|m| - 1];
    var init := m[..|m| - 1];
    assert m == init + [last];
    var i := 0;
    RawSnoc(init, last);
    RawNone();
    while i < |n|
      invariant 0 <= i <= |n| && ValidMbuf(last) && Raw(init) + last.data == Raw(m) + Raw(n[..i])
    {
      if last.ext != 0 || last.off + |last.data| + |n[i].data| >= MLEN {
        r := init + [last] + n[i..];
        RawConcat(init + [last], n[i..]);
        RawSnoc(init, last);
        assert n == n[..i] + n[i..];
        RawConcat(n[..i], n[i..]);
        Assoc(Raw(m), Raw(n[..i]), Raw(n[i..]));
        return;
      }
      RawSplit(n, i);
      Assoc(Raw(init), last.data, n[i].data);
      Assoc(Raw(m), Raw(n[..i]), n[i].data);
      last := Mbuf(last.data + n[i].data, last.off, last.kind, last.eor, last.ext);
      i := i + 1;
    }
    assert n[..i] == n;
    r := init + [last];
    RawSnoc(init, last);
  }

  lemma RawNone()
    ensures Raw([]) == []
  {
  }

  // ----- trimming

  /** Buffer `i` of a chain replaced. */
  lemma RawReplaced(c: Chain, i: nat, m: Mbuf)
    requires i < |c|
    ensures Raw(c[i := m]) == Raw(c[..i]) + m.data + Raw(c[i + 1..])
  {
    var d := c[i := m];
    assert d[..i] == c[..i] && d[i + 1..] == c[i + 1..];
    RawSplit(d, i);
  }

  function Emptied(m: Mbuf): Mbuf { Mbuf([], m.off, m.kind, m.eor, m.ext) }
  function Cut(m: Mbuf, n: nat): Mbuf
    requires n <= |m.data|
  {
    Mbuf(m.data[..n], m.off, m.kind, m.eor, m.ext)
  }

  /** Take octets off the front; the buffers stay. */
  method TrimHead(c0: Chain, req: nat) returns (c: Chain, left: nat)
    requires ValidChain(c0)
    ensures left == Max(0, req - |Raw(c0)|) && Raw(c) == Raw(c0)[req - left..]
    ensures |c| == |c0| && ValidChain(c)
  {
    hide Raw, ValidMbuf;
    var len := req;
    var done: Chain, rest := [], c0;
    RawNone();
    assert Raw(c0)[0..] == Raw(c0);
    while rest != [] && len > 0
      invariant 0 <= len <= req && |done| + |rest| == |c0| && ValidChain(done) && ValidChain(rest)
      invariant Raw(done) == [] && req - len <= |Raw(c0)| && Raw(rest) == Raw(c0)[req - len..]
      decreases |rest|, len
    {
      var m := rest[0];
      RawFirst(rest);
      if |m.data| <= len {
        TakenOff(Raw(c0), req - len, m.data, Raw(rest[1..]));
        RawSnoc(done, Emptied(m));
        len := len - |m.data|;
        done, rest := done + [Emptied(m)], rest[1..];
        EmptiedValid(m);
      } else {
        AdvanceText(m, len);
        RawFirst([Advance(m, len)] + rest[1..]);
        assert m.data == m.data[..len] + m.data[len..];
        Assoc(m.data[..len], m.data[len..], Raw(rest[1..]));
        TakenOff(Raw(c0), req - len, m.data[..len], m.data[len..] + Raw(rest[1..]));
        rest := [Advance(m, len)] + rest[1..];
        len := 0;
      }
    }
    left := len;
    c := done + rest;
    RawConcat(done, rest);
  }

  lemma RawFirst(c: Chain)
    requires c != []
    ensures Raw(c) == c[0].data + Raw(c[1..])
  {
  }

  lemma EmptiedValid(m: Mbuf)
    requires ValidMbuf(m)
    ensures ValidMbuf(Emptied(m))
  {
  }

  lemma TakenOff(all: seq<Byte>, at: nat, x: seq<Byte>, y: seq<Byte>)
    requires at <= |all| && all[at..] == x + y
    ensures at + |x| <= |all| && all[at + |x|..] == y
  {
    assert all[at + |x|..] == all[at..][|x|..];
  }

  /** Keep the first `count0` octets; the buffers stay. */
  method Truncate(c0: Chain, count0: nat) returns (c: Chain)
    requires ValidChain(c0) && count0 <= |Raw(c0)| && c0 != []
    ensures Raw(c) == Raw(c0)[..count0] && |c| == |c0| && ValidChain(c)
  {
    hide Raw;
    c := c0;
    var count, i := count0, 0;
    RawNone();
    while i < |c| && |c[i].data| < count
      invariant 0 <= i <= |c| && c == c0 && 0 <= count <= count0
      invariant |Raw(c0[..i])| + count == count0
    {
      RawSplit(c0, i);
      count := count - |c[i].data|;
      i := i + 1;
    }
    assert i == |c| ==> c0[..i] == c0;
    if i < |c| {
      RawSplit(c0, i);
      c := c[i := Cut(c[i], count)];
      assert Raw(c[..i + 1]) == Raw(c0)[..count0] by {
        assert c[..i] == c0[..i];
        RawSplit(c, i);
        CutAt(Raw(c0), Raw(c0[..i]), c0[i].data, Raw(c0[i + 1..]), count);
      }
      var j := i + 1;
      while j < |c|
        invariant i < j <= |c| == |c0| && ValidChain(c) && Raw(c[..j]) == Raw(c0)[..count0]
      {
        ghost var c1 := c;
        c := c[j := Emptied(c[j])];
        assert c[..j] == c1[..j];
        RawSplit(c, j);
        assert Raw(c[..j]) + [] == Raw(c[..j]);
        j := j + 1;
      }
      assert c[..j] == c;
    }
  }

  lemma CutAt(all: seq<Byte>, a: seq<Byte>, x: seq<Byte>, b: seq<Byte>, n: nat)
    requires all == a + x + b && n <= |x|
    ensures all[..|a| + n] == a + x[..n]
  {
  }

  /**
   Trim a packet: octets off the front, or with a negative request off the end. More than there are leaves none, and a
   header that told the length still does.
   */
  method Adj(p: Packet, req: int) returns (r: Packet)
    requires ValidChain(p.chain) && Consistent(p)
    ensures Raw(r.chain) == if req >= 0 then Raw(p.chain)[Min(req, |Raw(p.chain)|)..]
                            else Raw(p.chain)[..Max(0, |Raw(p.chain)| + req)]
    ensures ValidChain(r.chain) && |r.chain| == |p.chain| && Consistent(r) && r.hdr.Some? == p.hdr.Some?
  {
    hide Raw, ValidChain;
    var total := |Raw(p.chain)|;
    RawNone();
    if p.chain == [] {
      return p;
    }
    if req >= 0 {
      var c, left := TrimHead(p.chain, req);
      return Packet(if p.hdr.Some? then Some(p.hdr.value - (req - left)) else None, c);
    }
    var len := -req;
    var count := RawLength(p.chain);
    var k := |p.chain| - 1;
    var last := p.chain[k];
    if |last.data| >= len {
      LastCut(p.chain, len);
      return Packet(if p.hdr.Some? then Some(p.hdr.value - len) else None, p.chain[k := Cut(last, |last.data| - len)]);
    }
    count := count - len;
    if count < 0 {
      count := 0;
    }
    var c := Truncate(p.chain, count);
    return Packet(if p.hdr.Some? then Some(count) else None, c);
  }

  method RawLength(c: Chain) returns (n: int)
    ensures n == |Raw(c)|
  {
    hide Raw;
    n := 0;
    var i := 0;
    RawNone();
    while i < |c|
      invariant 0 <= i <= |c| && n == |Raw(c[..i])|
    {
      RawSplit(c, i);
      n := n + |c[i].data|;
      i := i + 1;
    }
    assert c[..i] == c;
  }

  lemma LastCut(c: Chain, len: nat)
    requires c != [] && len <= |c[|c| - 1].data| && ValidChain(c)
    ensures var k := |c| - 1;
            var d := c[k := Cut(c[k], |c[k].data| - len)];
            len <= |Raw(c)| && Raw(d) == Raw(c)[..|Raw(c)| - len] && ValidChain(d)
  {
    var k := |c| - 1;
    RawSplit(c, k);
    RawReplaced(c, k, Cut(c[k], |c[k].data| - len));
    assert c[k + 1..] == [];
    CutAt(Raw(c), Raw(c[..k]), c[k].data, [], |c[k].data| - len);
  }

  // ----- pulling up

  /** Without shifting data, `len` octets fit into the first buffer, and there is another one after it. */
  predicate Room(c: Chain, len: nat)
    requires c != []
  {
    c[0].ext == 0 && c[0].off + len < MLEN && |c| > 1
  }

  /**
   Move octets from the front of `n` to the end of `m`: what is needed, and some more if a protocol header would use it.
   */
  method PullStep(m: Mbuf, n: Chain, need: int, space: nat, maxProtoHdr: nat) returns (m': Mbuf, n': Chain, count: nat)
    requires n != [] && ValidChain(n) && m.ext == 0 && m.off + |m.data| + space == MLEN && need <= space
    ensures m'.data + Raw(n') == m.data + Raw(n) && |m'.data| == |m.data| + count && m'.off == m.off && m'.ext == 0
    ensures count <= space && ValidChain(n') && (|n'| < |n| || count >= need)
  {
    count := Min(Min(Max(need, maxProtoHdr), space), |n[0].data|);
    m' := Mbuf(m.data + n[0].data[..count], m.off, m.kind, m.eor, m.ext);
    if count < |n[0].data| {
      n' := [Advance(n[0], count)] + n[1..];
      AdvanceText(n[0], count);
      Pulled(m.data, n, count, n');
    } else {
      n' := n[1..];
      Pulled(m.data, n, count, n');
    }
  }

  lemma Pulled(a: seq<Byte>, n: Chain, count: nat, n': Chain)
    requires n != [] && count <= |n[0].data|
    requires n' == if count < |n[0].data| then [Advance(n[0], count)] + n[1..] else n[1..]
    ensures (a + n[0].data[..count]) + Raw(n') == a + Raw(n)
  {
    RawFirst(n);
    var x := n[0].data;
    assert x == x[..count] + x[count..];
    if count < |x| {
      RawFirst(n');
      assert n'[1..] == n[1..];
    }
    hide Raw;
    assert Raw(n) == x[..count] + Raw(n') by {
      if count < |x| {
        Assoc(x[..count], x[count..], Raw(n[1..]));
      }
    }
    Assoc(a, x[..count], Raw(n'));
  }

  /**
   Make the first `len` octets of a packet contiguous in a buffer of its own. This works exactly if there are that many
   and they fit; no octet is lost, and the header stays with the packet.
   */
  method Pullup(p: Packet, len: nat, maxProtoHdr: nat) returns (r: Option<Packet>)
    requires p.chain != [] && ValidChain(p.chain)
    ensures r.Some? <==> len <= |Raw(p.chain)|
                         && (len <= MHLEN || (p.chain[0].ext == 0 && p.chain[0].off + len < MLEN && |p.chain| > 1))
    ensures r.Some? ==> Raw(r.value.chain) == Raw(p.chain) && r.value.hdr == p.hdr && ValidChain(r.value.chain)
    ensures r.Some? ==> r.value.chain != [] && |r.value.chain[0].data| >= len && r.value.chain[0].ext == 0
  {
    hide Raw;
    var m: Mbuf;
    var n := p.chain;
    RawFirst(n);
    if Room(n, len) {
      if |n[0].data| >= len {
        return Some(p);
      }
      m, n := n[0], n[1..];
    } else {
      if len > MHLEN {
        return None;
      }
      m := Mbuf([], if p.hdr.Some? then MLEN - MHLEN else 0, n[0].kind, p.hdr.Some? && n[0].eor, 0);
      assert m.data + Raw(n) == Raw(n);
    }
    var space := MLEN - m.off - |m.data|;
    var need := len - |m.data|;
    var count;
    m, n, count := PullStep(m, n, need, space, maxProtoHdr);
    need, space := need - count, space - count;
    while need > 0 && n != []
      invariant ValidChain(n) && m.ext == 0 && 0 <= space && m.off + |m.data| + space == MLEN
      invariant need <= space && need == len - |m.data| && m.data + Raw(n) == Raw(p.chain)
      decreases if need > 0 then 1 else 0, |n|
    {
      m, n, count := PullStep(m, n, need, space, maxProtoHdr);
      need, space := need - count, space - count;
    }
    if need > 0 {
      RawNone();
      assert m.data + [] == m.data;
      return None;
    }
    RawFirst([m] + n);
    return Some(Packet(p.hdr, [m] + n));
  }
}
