/** Messages of the routing socket: built from up to eight addresses in a chain of buffers, and taken apart again. */
module RouteMessages {
  import opened Prelude
  import opened Bytes
  import opened Mbufs
  import opened MbufChains

  // ----- writing into a chain

  function Zeros(n: nat): (z: seq<Byte>)
    ensures |z| == n
  {
    seq(n, _ => 0)
  }

  /** The octets with `cp` at an offset; a gap is filled with zeros, and what is behind stays. */
  function Written(raw: seq<Byte>, off: nat, cp: seq<Byte>): seq<Byte> {
    (raw + Zeros(Max(0, off - |raw|)))[..off] + cp + if |raw| > off + |cp| then raw[off + |cp|..] else []
  }

  /** Octet by octet: what was copied, what was there, or zero. */
  lemma WrittenIs(raw: seq<Byte>, off: nat, cp: seq<Byte>)
    ensures var r := Written(raw, off, cp);
            && |r| == Max(|raw|, off + |cp|)
            && forall j :: 0 <= j < |r| ==>
                 r[j] == if off <= j < off + |cp| then cp[j - off] else if j < |raw| then raw[j] else 0
  {
    var front := (raw + Zeros(Max(0, off - |raw|)))[..off];
    assert forall j :: 0 <= j < off ==> front[j] == if j < |raw| then raw[j] else 0;
  }

  function Overwritten(m: Mbuf, off: nat, piece: seq<Byte>): Mbuf
    requires off + |piece| <= |m.data|
  {
    Mbuf(m.data[..off] + piece + m.data[off + |piece|..], m.off, m.kind, m.eor, m.ext)
  }

  lemma Overwriting(c: Chain, i: nat, off: nat, piece: seq<Byte>)
    requires i < |c| && off + |piece| <= |c[i].data|
    ensures var at := |Raw(c[..i])| + off;
            var d := c[i := Overwritten(c[i], off, piece)];
            && at + |piece| <= |Raw(c)|
            && Raw(d) == Raw(c)[..at] + piece + Raw(c)[at + |piece|..] && d[..i] == c[..i] && |d[i].data| == |c[i].data|
            && (ValidChain(c) ==> ValidChain(d))
  {
    hide Raw, ValidChain;
    var m := Overwritten(c[i], off, piece);
    var d := c[i := m];
    RawSplit(c, i);
    RawReplaced(c, i, m);
    assert d[..i] == c[..i];
    Around(Raw(c[..i]), c[i].data, Raw(c[i + 1..]), off, piece);
    ReplacedValid(c, i, m);
  }

  lemma ReplacedValid(c: Chain, i: nat, m: Mbuf)
    requires i < |c| && |m.data| == |c[i].data| && m.off == c[i].off && m.ext == c[i].ext
    ensures ValidChain(c) ==> ValidChain(c[i := m])
  {
  }

  lemma Around(a: seq<Byte>, x: seq<Byte>, b: seq<Byte>, off: nat, piece: seq<Byte>)
    requires off + |piece| <= |x|
    ensures var all, at := a + x + b, |a| + off;
            a + (x[..off] + piece + x[off + |piece|..]) + b == all[..at] + piece + all[at + |piece|..]
  {
    var all, at, y, z := a + x + b, |a| + off, x[..off], x[off + |piece|..];
    assert all[..at] == a + y;
    assert all[at + |piece|..] == z + b;
    Assoc(a, y + piece, z);
    Assoc(a, y, piece);
    Assoc(a + y + piece, z, b);
  }

  /** A chain extended to reach an offset, with zeros; `i` and `off` are where the offset is. */
  method Reach(c0: Chain, off0: nat, len: nat) returns (c: Chain, i: nat, off: nat)
    requires c0 != [] && ValidChain(c0)
    ensures ValidChain(c) && i < |c| && off <= |c[i].data| && |Raw(c[..i])| + off == off0
    ensures |Raw(c)| >= |Raw(c0)| && Raw(c) == Raw(c0) + Zeros(|Raw(c)| - |Raw(c0)|)
    ensures |Raw(c)| > |Raw(c0)| ==> |Raw(c)| <= off0 + len
    ensures off0 <= |Raw(c)| && c0 <= c && (|Raw(c)| > |Raw(c0)| ==> off > 0)
  {
    hide Raw, Reaching, ValidChain;
    c, i, off := c0, 0, off0;
    ReachStart(c0, off0, len);
    while off > |c[i].data|
      invariant i < |c| && Reaching(c0, c, i, off, off0, len)
      decreases if i < |c0| then |c0| - i else 0, off
    {
      ReachParts(c0, c, i, off, off0, len);
      off := off - |c[i].data|;
      if i + 1 == |c| {
        var n := Min(MLEN, len + off);
        var m := Mbuf(Zeros(n), 0, c[i].kind, false, 0);
        ReachMore(c0, c, i, off, off0, len, m);
        c := c + [m];
      } else {
        ReachNext(c0, c, i, off, off0, len);
      }
      i := i + 1;
    }
    ReachParts(c0, c, i, off, off0, len);
    RawSplit(c, i);
  }

  /** On the way to the offset: `off` is left of it at buffer `i`; the chain was extended only to get that far. */
  ghost predicate Reaching(c0: Chain, c: Chain, i: nat, off: nat, off0: nat, len: nat) {
    && ValidChain(c) && i < |c| && |Raw(c[..i])| + off == off0
    && |Raw(c)| >= |Raw(c0)| && Raw(c) == Raw(c0) + Zeros(|Raw(c)| - |Raw(c0)|)
    && (|Raw(c)| > |Raw(c0)| ==> |Raw(c)| <= off0 + len)
    && c0 <= c && (|c0| < |c| ==> |c| == i + 1 && |c[i].data| > 0) && (i > 0 ==> off > 0) && (i == 0 ==> c == c0)
  }

  lemma ReachStart(c: Chain, off0: nat, len: nat)
    requires c != [] && ValidChain(c)
    ensures Reaching(c, c, 0, off0, off0, len)
  {
    RawNone();
    assert c[..0] == [] && Raw(c) + Zeros(0) == Raw(c);
  }

  lemma ReachParts(c0: Chain, c: Chain, i: nat, off: nat, off0: nat, len: nat)
    requires Reaching(c0, c, i, off, off0, len)
    ensures ValidChain(c) && i < |c| && |Raw(c[..i])| + off == off0 && c0 <= c
    ensures |Raw(c)| >= |Raw(c0)| && Raw(c) == Raw(c0) + Zeros(|Raw(c)| - |Raw(c0)|)
    ensures |Raw(c)| > |Raw(c0)| ==> |Raw(c)| <= off0 + len && off > 0
    ensures |c0| < |c| ==> |c| == i + 1 && |c[i].data| > 0
  {
    hide Raw;
    if |c0| == |c| {
      assert c0 == c;
    }
  }

  lemma ReachNext(c0: Chain, c: Chain, i: nat, off: nat, off0: nat, len: nat)
    requires i + 1 < |c| && Reaching(c0, c, i, off + |c[i].data|, off0, len) && off > 0
    ensures Reaching(c0, c, i + 1, off, off0, len)
  {
    hide Raw;
    RawSplit(c, i);
    assert c0 == c;
  }

  lemma ReachMore(c0: Chain, c: Chain, i: nat, off: nat, off0: nat, len: nat, m: Mbuf)
    requires i + 1 == |c| && Reaching(c0, c, i, off + |c[i].data|, off0, len) && off > 0
    requires m.off == 0 && m.ext == 0 && m.data == Zeros(Min(MLEN, len + off))
    ensures Reaching(c0, c + [m], i + 1, off, off0, len)
  {
    hide Raw;
    RawSplit(c, i);
    RawSnoc(c, m);
    Extended(Raw(c0), |Raw(c)| - |Raw(c0)|, |m.data|);
    assert c[..i + 1] == c && (c + [m])[..i + 1] == c;
  }

  lemma Extended(raw: seq<Byte>, z: nat, n: nat)
    ensures raw + Zeros(z) + Zeros(n) == raw + Zeros(z + n)
  {
  }

  /** The state of writing: `done` octets are in place, and what is behind the rest is as it was in `r1`. */
  ghost predicate Writing(raw: seq<Byte>, r1: seq<Byte>, off0: nat, cp: seq<Byte>, done: nat) {
    && done <= |cp| && off0 <= |r1| && off0 + done <= |raw|
    && raw[..off0 + done] == r1[..off0] + cp[..done]
    && (if |r1| > off0 + |cp| then |raw| == |r1| && raw[off0 + |cp|..] == r1[off0 + |cp|..]
        else |r1| <= |raw| <= off0 + |cp|)
  }

  lemma WritingStep(raw: seq<Byte>, r1: seq<Byte>, off0: nat, cp: seq<Byte>, done: nat, n: nat)
    requires Writing(raw, r1, off0, cp, done) && done + n <= |cp| && off0 + done + n <= |raw|
    ensures Writing(raw[..off0 + done] + cp[done..done + n] + raw[off0 + done + n..], r1, off0, cp, done + n)
  {
    var raw' := raw[..off0 + done] + cp[done..done + n] + raw[off0 + done + n..];
    assert cp[..done + n] == cp[..done] + cp[done..done + n];
    assert raw'[..off0 + done + n] == r1[..off0] + cp[..done + n];
    if |r1| > off0 + |cp| {
      assert raw'[off0 + |cp|..] == raw[off0 + |cp|..];
    }
  }

  lemma WritingMore(raw: seq<Byte>, r1: seq<Byte>, off0: nat, cp: seq<Byte>, done: nat, more: seq<Byte>)
    requires Writing(raw, r1, off0, cp, done) && |raw| == off0 + done && done + |more| <= |cp| && done < |cp|
    ensures Writing(raw + more, r1, off0, cp, done)
  {
    assert (raw + more)[..off0 + done] == raw[..off0 + done];
  }

  lemma WritingStart(r1: seq<Byte>, off0: nat, cp: seq<Byte>)
    requires off0 <= |r1|
    ensures Writing(r1, r1, off0, cp, 0)
  {
    assert cp[..0] == [] && r1[..off0] + [] == r1[..off0];
  }

  lemma WritingDone(raw: seq<Byte>, r1: seq<Byte>, raw0: seq<Byte>, off0: nat, cp: seq<Byte>)
    requires Writing(raw, r1, off0, cp, |cp|) && |raw0| <= |r1| && r1 == raw0 + Zeros(|r1| - |raw0|)
    requires |r1| > |raw0| ==> |r1| <= off0 + |cp|
    ensures raw == Written(raw0, off0, cp)
  {
    assert cp[..|cp|] == cp;
    assert r1[..off0] == (raw0 + Zeros(Max(0, off0 - |raw0|)))[..off0];
    assert raw == raw[..off0 + |cp|] + raw[off0 + |cp|..];
  }

  /**
   Copy octets into a packet at an offset, extending it as needed. A header that told the length still does, exactly if
   there is an octet to copy or the offset is inside the packet: a packet that is only extended is counted without its
   last buffer.
   */
  method CopyBack(p: Packet, off0: nat, cp: seq<Byte>) returns (r: Packet)
    requires p.chain != [] && ValidChain(p.chain) && Consistent(p)
    ensures Raw(r.chain) == Written(Raw(p.chain), off0, cp)
    ensures r.chain != [] && ValidChain(r.chain) && r.hdr.Some? == p.hdr.Some?
    ensures Consistent(r) <==> p.hdr.None? || cp != [] || off0 <= |Raw(p.chain)|
    ensures |r.chain[0].data| == |p.chain[0].data|
  {
    hide Raw, Writing, ValidChain, Written;
    var c, i: nat, off: nat := Reach(p.chain, off0, |cp|);
    if cp == [] {
      OnlyExtended(Raw(p.chain), Raw(c), off0);
      var before := off0 - off;
      r := Packet(if p.hdr.Some? && p.hdr.value < before then Some(before) else p.hdr, c);
      return;
    }
    ghost var r1, reached := Raw(c), |c|;
    WritingStart(r1, off0, cp);
    var done := 0;
    while true
      invariant 0 <= done < |cp| && ValidChain(c) && i < |c| && off <= |c[i].data|
      invariant |Raw(c[..i])| + off == off0 + done && Writing(Raw(c), r1, off0, cp, done)
      invariant |c[0].data| == |p.chain[0].data|
      invariant reached <= |c| && (reached < |c| ==> |c| == i + 1 && |c[i].data| > 0 && off == 0)
      decreases if i < reached then reached - i else 0, |cp| - done
    {
      var n := Min(|c[i].data| - off, |cp| - done);
      c := WriteOne(c, i, off, cp, done, n, r1, off0);
      done := done + n;
      if done == |cp| {
        break;
      }
      RawSplit(c, i);
      if i + 1 == |c| {
        var m := Mbuf(Zeros(Min(MLEN, |cp| - done)), 0, c[i].kind, false, 0);
        assert c[..i + 1] == c;
        WritingMore(Raw(c), r1, off0, cp, done, m.data);
        RawSnoc(c, m);
        SpareValid(c, m);
        c := c + [m];
        assert c[..i + 1] == c[..|c| - 1];
      }
      i, off := i + 1, 0;
    }
    WritingDone(Raw(c), r1, Raw(p.chain), off0, cp);
    WrittenLength(Raw(p.chain), off0, cp);
    var totlen := off0 + |cp|;
    r := Packet(if p.hdr.Some? && p.hdr.value < totlen then Some(totlen) else p.hdr, c);
  }

  lemma OnlyExtended(raw0: seq<Byte>, raw: seq<Byte>, off0: nat)
    requires |raw| >= |raw0| && raw == raw0 + Zeros(|raw| - |raw0|) && off0 <= |raw|
             && (|raw| > |raw0| ==> |raw| <= off0)
    ensures raw == Written(raw0, off0, []) && (|raw| > |raw0| <==> off0 > |raw0|)
  {
    if off0 > |raw0| {
      assert raw[..off0] == raw;
    } else {
      assert raw0 + Zeros(0) == raw0;
      assert raw0 == raw0[..off0] + raw0[off0..];
    }
  }

  /** For instance a copy of nothing behind a packet of one octet. */
  method ExtendedExample() returns (r: Packet)
    ensures |Raw(r.chain)| == 3 && r.hdr.Some? && r.hdr.value != 3
  {
    hide Raw, Written;
    var m := Mbuf([1], 0, Data, false, 0);
    RawOne(m);
    r := CopyBack(Packet(Some(1), [m]), 3, []);
    WrittenLength([1], 3, []);
  }

  method WriteOne(c: Chain, i: nat, off: nat, cp: seq<Byte>, done: nat, n: nat, ghost r1: seq<Byte>, ghost off0: nat)
    returns (d: Chain)
    requires i < |c| && ValidChain(c) && off + n <= |c[i].data| && done + n <= |cp|
             && |Raw(c[..i])| + off == off0 + done
    requires Writing(Raw(c), r1, off0, cp, done)
    ensures |d| == |c| && ValidChain(d) && Writing(Raw(d), r1, off0, cp, done + n)
    ensures d[..i] == c[..i] && |d[i].data| == |c[i].data| && d[i].kind == c[i].kind && |d[0].data| == |c[0].data|
  {
    hide Raw, Writing;
    Overwriting(c, i, off, cp[done..done + n]);
    WritingStep(Raw(c), r1, off0, cp, done, n);
    d := c[i := Overwritten(c[i], off, cp[done..done + n])];
  }

  lemma SpareValid(c: Chain, m: Mbuf)
    requires ValidChain(c) && m.ext == 0 && m.off == 0 && |m.data| <= MLEN
    ensures ValidChain(c + [m])
  {
  }

  lemma WrittenLength(raw: seq<Byte>, off: nat, cp: seq<Byte>)
    ensures |Written(raw, off, cp)| == Max(|raw|, off + |cp|)
    ensures Written(raw, off, cp)[off..off + |cp|] == cp
    ensures off == |raw| ==> Written(raw, off, cp) == raw + cp
  {
    if off == |raw| {
      assert (raw + Zeros(0))[..off] == raw;
    }
  }

  /** What was copied into a packet can be copied out again. */
  method CopiedBack(p: Packet, off: nat, cp: seq<Byte>) returns (out: seq<Byte>)
    requires p.chain != [] && ValidChain(p.chain) && Consistent(p)
    ensures out == cp
  {
    hide Raw, Written;
    var r := CopyBack(p, off, cp);
    WrittenLength(Raw(p.chain), off, cp);
    out := CopyData(r.chain, off, |cp|);
  }

  // ----- addresses

  const RTAX_MAX: nat := 8

  /** Rounded up to words, and at least one. */
  function Roundup(n: nat): (r: nat)
    ensures r % 4 == 0 && n <= r && 4 <= r && (r < n + 4 || r == 4)
  {
    if n > 0 then (n + 3) / 4 * 4 else 4
  }

  /** An address in memory: its first octet tells its length, and there is memory behind it up to a word boundary. */
  predicate IsSockaddr(sa: seq<Byte>) {
    sa != [] && Roundup(sa[0]) <= |sa|
  }

  /** The octets of an address that travel. */
  function Padded(sa: seq<Byte>): seq<Byte>
    requires IsSockaddr(sa)
  {
    sa[..Roundup(sa[0])]
  }

  type Slots = seq<Option<seq<Byte>>>

  predicate ValidSlots(s: Slots) {
    |s| == RTAX_MAX && forall i :: 0 <= i < |s| && s[i].Some? ==> IsSockaddr(s[i].value)
  }

  /** The addresses of the first `n` slots, one after the other. */
  function Layout(s: Slots, n: nat): seq<Byte>
    requires ValidSlots(s) && n <= RTAX_MAX
  {
    if n == 0 then [] else Layout(s, n - 1) + if s[n - 1].Some? then Padded(s[n - 1].value) else []
  }

  /** Which slots are in use. */
  function Mask(s: Slots): seq<bool> {
    seq(|s|, i requires 0 <= i < |s| => s[i].Some?)
  }

  const RTM_VERSION: Byte := 3

  /** The beginning of a message: its length, the version and the type, and zeros for the rest of the header. */
  function Head(hdrlen: nat, len: nat, kind: Byte): seq<Byte>
    requires hdrlen >= 4
  {
    B16(len % 0x1_0000) + [RTM_VERSION, kind] + Zeros(hdrlen - 4)
  }

  /** A whole message. */
  function Message(hdrlen: nat, kind: Byte, s: Slots): seq<Byte>
    requires hdrlen >= 4 && ValidSlots(s)
  {
    var body := Layout(s, RTAX_MAX);
    Head(hdrlen, hdrlen + |body|, kind) + body
  }

  /** The header of a message as a reader finds it: the number of its octets modulo 2^16, the version, the type. */
  predicate Announces(b: seq<Byte>, hdrlen: nat, kind: Byte) {
    && 4 <= hdrlen <= |b| && 256 * (b[0] as int) + b[1] == |b| % 0x1_0000 && b[2] == 3 && b[3] == kind
    && forall j :: 4 <= j < hdrlen ==> b[j] == 0
  }

  lemma MessageHead(hdrlen: nat, kind: Byte, s: Slots)
    requires hdrlen >= 4 && ValidSlots(s)
    ensures Announces(Message(hdrlen, kind, s), hdrlen, kind)
  {
    hide Layout;
    HeadLength(hdrlen, hdrlen + |Layout(s, RTAX_MAX)|, kind);
  }

  /** Build a message in a chain: a header of `hdrlen` octets, then the addresses. */
  method Msg1(kind: Byte, hdrlen: nat, s: Slots) returns (r: Packet, addrs: seq<bool>)
    requires ValidSlots(s) && 4 <= hdrlen <= MHLEN
    ensures Raw(r.chain) == Message(hdrlen, kind, s) && Consistent(r) && r.hdr.Some?
    ensures addrs == Mask(s) && Announces(Raw(r.chain), hdrlen, kind)
  {
    hide Raw, Written, Padded, Announces;
    MessageHead(hdrlen, kind, s);
    var m := Mbuf(Zeros(hdrlen), MLEN - MHLEN, Data, false, 0);
    r := Packet(Some(hdrlen), [m]);
    RawOne(m);
    var len := hdrlen;
    addrs := [];
    var i := 0;
    assert Zeros(hdrlen) + [] == Zeros(hdrlen);
    while i < RTAX_MAX
      invariant 0 <= i <= RTAX_MAX && |addrs| == i && forall j :: 0 <= j < i ==> addrs[j] == s[j].Some?
      invariant r.chain != [] && ValidChain(r.chain) && Consistent(r) && r.hdr.Some? && |r.chain[0].data| == hdrlen
      invariant Raw(r.chain) == Zeros(hdrlen) + Layout(s, i) && len == |Raw(r.chain)|
    {
      if s[i].Some? {
        var sa := s[i].value;
        PaddedLength(sa);
        WrittenLength(Raw(r.chain), len, Padded(sa));
        Assoc(Zeros(hdrlen), Layout(s, i), Padded(sa));
        r := CopyBack(r, len, Padded(sa));
        len := len + |Padded(sa)|;
      } else {
        assert Layout(s, i) + [] == Layout(s, i);
      }
      addrs := addrs + [s[i].Some?];
      i := i + 1;
    }
    var start := B16(len % 0x1_0000) + [RTM_VERSION, kind];
    Headed(Layout(s, RTAX_MAX), hdrlen, len, kind);
    ghost var c := r.chain;
    Overwriting(c, 0, 0, start);
    RawNone();
    assert c[..0] == [];
    r := Packet(r.hdr, r.chain[0 := Overwritten(r.chain[0], 0, start)]);
  }

  lemma HeadLength(hdrlen: nat, len: nat, kind: Byte)
    requires hdrlen >= 4
    ensures |Head(hdrlen, len, kind)| == hdrlen
  {
  }

  lemma Headed(body: seq<Byte>, hdrlen: nat, len: nat, kind: Byte)
    requires hdrlen >= 4
    ensures var all, start := Zeros(hdrlen) + body, B16(len % 0x1_0000) + [RTM_VERSION, kind];
            |start| == 4 && all[..0] + start + all[4..] == Head(hdrlen, len, kind) + body
  {
    var all := Zeros(hdrlen) + body;
    assert all[4..] == Zeros(hdrlen - 4) + body;
  }

  lemma PaddedLength(sa: seq<Byte>)
    requires IsSockaddr(sa)
    ensures |Padded(sa)| == Roundup(sa[0]) > 0 && Padded(sa)[0] == sa[0]
  {
  }

  /** Write the addresses into a buffer behind the header: in a first pass the size, in a second the octets. */
  method Msg2(kind: Byte, hdrlen: nat, s: Slots) returns (buf: seq<Byte>, addrs: seq<bool>)
    requires ValidSlots(s) && hdrlen >= 4
    ensures buf == Message(hdrlen, kind, s) && addrs == Mask(s) && Announces(buf, hdrlen, kind)
  {
    hide Padded, Roundup, Layout, Announces;
    MessageHead(hdrlen, kind, s);
    var len := Needed(hdrlen, s);
    var a := new Byte[len](_ => 0);
    assert a[..] == Zeros(len);
    addrs := PutSlots(a, hdrlen, s);
    ghost var all := a[..];
    Headed(Layout(s, RTAX_MAX), hdrlen, len, kind);
    CopyIn(a, 0, B16(len % 0x1_0000) + [RTM_VERSION, kind]);
    assert all[..0] == [];
    buf := a[..];
  }

  /** The second pass: the addresses go behind the room for the header. */
  method PutSlots(a: array<Byte>, hdrlen: nat, s: Slots) returns (addrs: seq<bool>)
    requires ValidSlots(s) && a.Length == hdrlen + |Layout(s, RTAX_MAX)| && a[..] == Zeros(a.Length)
    modifies a
    ensures a[..] == Zeros(hdrlen) + Layout(s, RTAX_MAX) && addrs == Mask(s)
  {
    hide Padded, Roundup, Layout, Filled, Zeros;
    addrs := [];
    var at: nat, i: nat := hdrlen, 0;
    FilledNone(a[..], hdrlen, s);
    while i < RTAX_MAX
      invariant 0 <= i <= RTAX_MAX && |addrs| == i && forall j :: 0 <= j < i ==> addrs[j] == s[j].Some?
      invariant Filled(a[..], hdrlen, s, i, at)
    {
      if s[i].Some? {
        var sa := s[i].value;
        PaddedLength(sa);
        ghost var before := a[..];
        FilledRoom(before, hdrlen, s, i, at);
        CopyIn(a, at, Padded(sa));
        FilledOne(before, a[..], hdrlen, s, i, at);
        at := at + Roundup(sa[0]);
      } else {
        FilledSkip(a[..], hdrlen, s, i, at);
      }
      addrs := addrs + [s[i].Some?];
      i := i + 1;
    }
    FilledAll(a[..], hdrlen, s, at);
  }

  /** The addresses of the first `i` slots are in place, and the next one goes to `at`. */
  ghost predicate Filled(b: seq<Byte>, hdrlen: nat, s: Slots, i: nat, at: nat) {
    && ValidSlots(s) && i <= RTAX_MAX && |b| == hdrlen + |Layout(s, RTAX_MAX)|
    && at == hdrlen + |Layout(s, i)| <= |b| && b[..at] == Zeros(hdrlen) + Layout(s, i)
  }

  lemma FilledNone(b: seq<Byte>, hdrlen: nat, s: Slots)
    requires ValidSlots(s) && |b| == hdrlen + |Layout(s, RTAX_MAX)| && b == Zeros(|b|)
    ensures Filled(b, hdrlen, s, 0, hdrlen)
  {
    hide Layout;
    LayoutNext(s, 0);
    assert b[..hdrlen] == Zeros(hdrlen) == Zeros(hdrlen) + [];
  }

  lemma FilledRoom(b: seq<Byte>, hdrlen: nat, s: Slots, i: nat, at: nat)
    requires Filled(b, hdrlen, s, i, at) && i < RTAX_MAX && s[i].Some?
    ensures at + |Padded(s[i].value)| <= |b|
  {
    hide Layout, Padded, Zeros;
    LayoutGrows(s, i + 1);
    LayoutNext(s, i + 1);
  }

  lemma FilledOne(b: seq<Byte>, c: seq<Byte>, hdrlen: nat, s: Slots, i: nat, at: nat)
    requires Filled(b, hdrlen, s, i, at) && i < RTAX_MAX && s[i].Some?
    requires var x := Padded(s[i].value); at + |x| <= |b| && c == b[..at] + x + b[at + |x|..]
    ensures Filled(c, hdrlen, s, i + 1, at + |Padded(s[i].value)|)
  {
    hide Layout, Padded, Zeros;
    var x := Padded(s[i].value);
    LayoutGrows(s, i + 1);
    LayoutNext(s, i + 1);
    SpliceGrows(b, c, at, x);
    Assoc(Zeros(hdrlen), Layout(s, i), x);
  }

  lemma FilledSkip(b: seq<Byte>, hdrlen: nat, s: Slots, i: nat, at: nat)
    requires Filled(b, hdrlen, s, i, at) && i < RTAX_MAX && s[i].None?
    ensures Filled(b, hdrlen, s, i + 1, at)
  {
    hide Layout, Padded, Zeros;
    LayoutNext(s, i + 1);
    assert Layout(s, i) + [] == Layout(s, i);
  }

  lemma FilledAll(b: seq<Byte>, hdrlen: nat, s: Slots, at: nat)
    requires Filled(b, hdrlen, s, RTAX_MAX, at)
    ensures b == Zeros(hdrlen) + Layout(s, RTAX_MAX)
  {
    hide Layout, Zeros;
    assert b[..at] == b;
  }

  lemma SpliceGrows(b: seq<Byte>, c: seq<Byte>, at: nat, x: seq<Byte>)
    requires at + |x| <= |b| && c == b[..at] + x + b[at + |x|..]
    ensures |c| == |b| && c[..at + |x|] == b[..at] + x
  {
  }

  lemma LayoutNext(s: Slots, n: nat)
    requires ValidSlots(s) && n <= RTAX_MAX
    ensures Layout(s, n)
            == if n == 0 then []
               else Layout(s, n - 1) + if s[n - 1].Some? then Padded(s[n - 1].value) else []
  {
  }

  lemma {:induction false} LayoutGrows(s: Slots, n: nat)
    requires ValidSlots(s) && n <= RTAX_MAX
    ensures |Layout(s, n)| <= |Layout(s, RTAX_MAX)|
    decreases RTAX_MAX - n
  {
    if n < RTAX_MAX {
      LayoutGrows(s, n + 1);
    }
  }

  method Needed(hdrlen: nat, s: Slots) returns (len: nat)
    requires ValidSlots(s)
    ensures len == hdrlen + |Layout(s, RTAX_MAX)|
  {
    len := hdrlen;
    var i := 0;
    while i < RTAX_MAX
      invariant 0 <= i <= RTAX_MAX && len == hdrlen + |Layout(s, i)|
    {
      if s[i].Some? {
        PaddedLength(s[i].value);
        len := len + Roundup(s[i].value[0]);
      }
      i := i + 1;
    }
  }

  /** The layout from slot `n` on. */
  function Rest(s: Slots, n: nat): seq<Byte>
    requires ValidSlots(s) && n <= RTAX_MAX
    decreases RTAX_MAX - n
  {
    if n == RTAX_MAX then [] else (if s[n].Some? then Padded(s[n].value) else []) + Rest(s, n + 1)
  }

  lemma {:induction false} LayoutSplit(s: Slots, n: nat)
    requires ValidSlots(s) && n <= RTAX_MAX
    ensures Layout(s, RTAX_MAX) == Layout(s, n) + Rest(s, n)
    decreases RTAX_MAX - n
  {
    hide Padded;
    if n < RTAX_MAX {
      LayoutSplit(s, n + 1);
      Assoc(Layout(s, n), if s[n].Some? then Padded(s[n].value) else [], Rest(s, n + 1));
    }
  }

  /**
   Where the addresses of the slots from `i` on are, if the first of them is at `at`: each begins where the one before
   ends.
   */
  function Places(cp: seq<Byte>, addrs: seq<bool>, i: nat, at: nat): (places: seq<Option<nat>>)
    requires |addrs| == RTAX_MAX && i <= RTAX_MAX
    ensures |places| == RTAX_MAX - i
    decreases RTAX_MAX - i
  {
    if i == RTAX_MAX then []
    else if addrs[i] && at < |cp| then [Some(at)] + Places(cp, addrs, i + 1, at + Roundup(cp[at]))
    else [None] + Places(cp, addrs, i + 1, at)
  }

  /** Take the addresses of a message apart, whatever its octets: which slots get an address, and where it begins. */
  method Xaddrs(cp: seq<Byte>, addrs: seq<bool>) returns (info: seq<Option<nat>>)
    requires |addrs| == RTAX_MAX
    ensures info == Places(cp, addrs, 0, 0)
  {
    hide Roundup, Places;
    info := seq(RTAX_MAX, _ => None);
    var at: nat, i: nat := 0, 0;
    while i < RTAX_MAX && at < |cp|
      invariant 0 <= i <= RTAX_MAX && |info| == RTAX_MAX && forall j :: i <= j < RTAX_MAX ==> info[j] == None
      invariant Places(cp, addrs, 0, 0) == info[..i] + Places(cp, addrs, i, at)
    {
      ghost var done := info[..i];
      PlacesNext(cp, addrs, i, at);
      if addrs[i] {
        info := info[i := Some(at)];
        at := at + Roundup(cp[at]);
      }
      assert info[..i + 1] == done + [info[i]];
      Assoc(done, [info[i]], Places(cp, addrs, i + 1, at));
      i := i + 1;
    }
    NoMorePlaces(cp, addrs, i, at);
    assert info == info[..i] + info[i..];
  }

  lemma {:induction false} NoMorePlaces(cp: seq<Byte>, addrs: seq<bool>, i: nat, at: nat)
    requires |addrs| == RTAX_MAX && i <= RTAX_MAX && (i < RTAX_MAX ==> at >= |cp|)
    ensures forall j :: 0 <= j < RTAX_MAX - i ==> Places(cp, addrs, i, at)[j] == None
    decreases RTAX_MAX - i
  {
    if i < RTAX_MAX {
      NoMorePlaces(cp, addrs, i + 1, at);
    }
  }

  /**
   Only slots that are announced get an address; addresses begin at word boundaries, behind each other, inside the
   message.
   */
  predicate InOrder(places: seq<Option<nat>>, addrs: seq<bool>, from: nat, limit: nat)
    requires |places| == |addrs|
  {
    places == []
    || (match places[0]
        case None => InOrder(places[1..], addrs[1..], from, limit)
        case Some(at) => addrs[0] && from <= at < limit && at % 4 == 0
                         && InOrder(places[1..], addrs[1..], at + 4, limit))
  }

  lemma {:induction false} InOrderFrom(places: seq<Option<nat>>, addrs: seq<bool>, from: nat, less: nat, limit: nat)
    requires |places| == |addrs| && InOrder(places, addrs, from, limit) && less <= from
    ensures InOrder(places, addrs, less, limit)
  {
    if places != [] && places[0].None? {
      InOrderFrom(places[1..], addrs[1..], from, less, limit);
    }
  }

  lemma {:induction false} PlacesInOrder(cp: seq<Byte>, addrs: seq<bool>, i: nat, at: nat)
    requires |addrs| == RTAX_MAX && i <= RTAX_MAX && at % 4 == 0
    ensures InOrder(Places(cp, addrs, i, at), addrs[i..], at, |cp|)
    decreases RTAX_MAX - i
  {
    hide Places, Roundup, InOrder;
    if i < RTAX_MAX {
      PlacesNext(cp, addrs, i, at);
      var here, next := addrs[i] && at < |cp|, at;
      if here {
        next := at + Roundup(cp[at]);
        RoundupWords(cp[at]);
      }
      var rest := Places(cp, addrs, i + 1, next);
      PlacesInOrder(cp, addrs, i + 1, next);
      InOrderFrom(rest, addrs[i + 1..], next, if here then at + 4 else at, |cp|);
      assert addrs[i..] == [addrs[i]] + addrs[i + 1..];
      InOrderNext(if here then Some(at) else None, rest, addrs[i], addrs[i + 1..], at, |cp|);
    } else {
      assert Places(cp, addrs, i, at) == [] && addrs[i..] == [];
      InOrderNone(at, |cp|);
    }
  }

  lemma InOrderNone(from: nat, limit: nat)
    ensures InOrder([], [], from, limit)
  {
  }

  lemma InOrderNext(place: Option<nat>, rest: seq<Option<nat>>, addr: bool, addrs: seq<bool>, from: nat, limit: nat)
    requires |rest| == |addrs| && InOrder(rest, addrs, if place.Some? then place.value + 4 else from, limit)
    requires place.Some? ==> addr && from <= place.value < limit && place.value % 4 == 0
    ensures InOrder([place] + rest, [addr] + addrs, from, limit)
  {
    assert ([place] + rest)[1..] == rest && ([addr] + addrs)[1..] == addrs;
  }

  lemma RoundupWords(n: nat)
    ensures Roundup(n) >= 4 && Roundup(n) % 4 == 0
  {
  }

  /** In a message as both ways of building one lay it out, every slot in use has its address where it was put. */
  lemma {:induction false} PlacesOfLayout(s: Slots, n: nat)
    requires ValidSlots(s) && n <= RTAX_MAX
    ensures |Mask(s)| == RTAX_MAX
    ensures PlacedFrom(s, n, Places(Layout(s, RTAX_MAX), Mask(s), n, |Layout(s, n)|))
    decreases RTAX_MAX - n
  {
    hide Layout, Roundup, Padded, Places, PlacedFrom;
    var cp, mask, at := Layout(s, RTAX_MAX), Mask(s), |Layout(s, n)|;
    if n == RTAX_MAX {
      NonePlaced(s, Places(cp, mask, n, at));
    } else {
      FoundAt(s, n);
      PlacesOfLayout(s, n + 1);
      var next := |Layout(s, n + 1)|;
      PlacesNext(cp, mask, n, at);
      PlacedNext(s, n, Places(cp, mask, n + 1, next));
    }
  }

  ghost predicate PlacedFrom(s: Slots, n: nat, places: seq<Option<nat>>)
    requires ValidSlots(s) && n <= RTAX_MAX
  {
    |places| == RTAX_MAX - n && forall j :: n <= j < RTAX_MAX ==> places[j - n] == PlaceOf(s, j)
  }

  function PlaceOf(s: Slots, j: nat): Option<nat>
    requires ValidSlots(s) && j < RTAX_MAX
  {
    if s[j].Some? then Some(|Layout(s, j)|) else None
  }

  lemma NonePlaced(s: Slots, places: seq<Option<nat>>)
    requires ValidSlots(s) && places == []
    ensures PlacedFrom(s, RTAX_MAX, places)
  {
  }

  lemma PlacedNext(s: Slots, n: nat, places: seq<Option<nat>>)
    requires ValidSlots(s) && n < RTAX_MAX && PlacedFrom(s, n + 1, places)
    ensures PlacedFrom(s, n, [PlaceOf(s, n)] + places)
  {
    hide PlaceOf;
    var all := [PlaceOf(s, n)] + places;
    forall j | n <= j < RTAX_MAX ensures all[j - n] == PlaceOf(s, j) {
      if j > n {
        assert all[j - n] == places[j - (n + 1)];
      }
    }
  }

  lemma PlacesNext(cp: seq<Byte>, addrs: seq<bool>, i: nat, at: nat)
    requires |addrs| == RTAX_MAX && i < RTAX_MAX
    ensures Places(cp, addrs, i, at)
            == if addrs[i] && at < |cp| then [Some(at)] + Places(cp, addrs, i + 1, at + Roundup(cp[at]))
               else [None] + Places(cp, addrs, i + 1, at)
  {
  }

  /** The address of a slot is where the ones before it end, and its first octet tells where it ends. */
  lemma FoundAt(s: Slots, i: nat)
    requires ValidSlots(s) && i < RTAX_MAX
    ensures var cp, at := Layout(s, RTAX_MAX), |Layout(s, i)|;
            if s[i].Some? then
              && at < |cp| && at + Roundup(cp[at]) == |Layout(s, i + 1)| <= |cp|
              && cp[at..at + Roundup(cp[at])] == Padded(s[i].value)
            else |Layout(s, i + 1)| == at <= |cp|
  {
    LayoutNext(s, i + 1);
    LayoutGrows(s, i + 1);
    LayoutSplit(s, i + 1);
    hide Layout, Rest, Padded, Roundup;
    if s[i].Some? {
      var x := Padded(s[i].value);
      PaddedLength(s[i].value);
      var cp, at := Layout(s, RTAX_MAX), |Layout(s, i)|;
      assert cp[at] == x[0];
      assert cp[at..at + |x|] == x;
    }
  }

  /** Building a message, flattening it and taking it apart gives back every slot, and no other. */
  method Trip(kind: Byte, hdrlen: nat, s: Slots) returns (cp: seq<Byte>, info: seq<Option<nat>>)
    requires ValidSlots(s) && 4 <= hdrlen <= MHLEN
    ensures |info| == RTAX_MAX && forall i :: 0 <= i < RTAX_MAX ==> (info[i].Some? <==> s[i].Some?)
    ensures forall i :: 0 <= i < RTAX_MAX && info[i].Some? ==> Holds(cp, info[i].value, Padded(s[i].value))
    ensures forall i :: 0 <= i < RTAX_MAX && info[i].Some? ==> Copied(cp, info[i].value, s[i].value)
  {
    hide Raw, Padded, Layout, Places, Roundup;
    var m, addrs := Msg1(kind, hdrlen, s);
    var n := RawLength(m.chain);
    HeadLength(hdrlen, hdrlen + |Layout(s, RTAX_MAX)|, kind);
    cp := CopyData(m.chain, hdrlen, n - hdrlen);
    assert cp == Layout(s, RTAX_MAX);
    LayoutNext(s, 0);
    PlacesOfLayout(s, 0);
    info := Xaddrs(cp, addrs);
    forall i | 0 <= i < RTAX_MAX ensures info[i] == PlaceOf(s, i) {
      assert info[i - 0] == PlaceOf(s, i);
    }
    forall i | 0 <= i < RTAX_MAX && info[i].Some? ensures Holds(cp, info[i].value, Padded(s[i].value)) {
      FoundAt(s, i);
    }
    forall i | 0 <= i < RTAX_MAX && info[i].Some? ensures Copied(cp, info[i].value, s[i].value) {
      CopiedAt(cp, info[i].value, s[i].value);
    }
  }

  /** All octets of an address, as many as its first octet says, are at a place in a message. */
  predicate Copied(cp: seq<Byte>, at: nat, sa: seq<Byte>) {
    sa != [] && sa[0] <= |sa| && at + sa[0] <= |cp| && at < |cp| && cp[at] == sa[0] && cp[at..at + sa[0]] == sa[..sa[0]]
  }

  lemma CopiedAt(cp: seq<Byte>, at: nat, sa: seq<Byte>)
    requires IsSockaddr(sa) && Holds(cp, at, Padded(sa))
    ensures Copied(cp, at, sa)
  {
    var n, k := Roundup(cp[at]), sa[0];
    var piece := cp[at..at + n];
    assert piece == sa[..Roundup(sa[0])];
    assert piece[0] == sa[0] == cp[at];
    assert piece[..k] == cp[at..at + k];
  }

  /** The address at a place in a message, as long as its first octet says. */
  predicate Holds(cp: seq<Byte>, at: nat, address: seq<Byte>) {
    at < |cp| && at + Roundup(cp[at]) <= |cp| && cp[at..at + Roundup(cp[at])] == address
  }
}
