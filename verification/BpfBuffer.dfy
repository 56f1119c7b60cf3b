/** The capture buffers of a packet filter: three slots for two buffers, filled, held and read in turn. */
module BpfBuffer {
  import opened Prelude
  import opened Bytes

  const SIZEOF_BPF_HDR: nat := 18

  /** The next multiple of the word size. */
  function Align(n: nat): (r: nat)
    ensures r % 4 == 0 && n <= r < n + 4
  {
    (n + 3) / 4 * 4
  }

  /** A captured packet: when, how long it was, and what was kept of it. */
  datatype Record = Record(sec: Long, usec: Long, datalen: Long, data: seq<Byte>)

  // ----- records in a buffer

  function Header(r: Record, hdrlen: Word): (h: seq<Byte>)
    requires |r.data| < 0x1_0000_0000
    ensures |h| == SIZEOF_BPF_HDR
  {
    B32(r.sec) + B32(r.usec) + B32(|r.data|) + B32(r.datalen) + B16(hdrlen)
  }

  /** The record is at `off`; the octets between its header and its data are padding. */
  ghost predicate At(b: seq<Byte>, off: nat, hdrlen: Word, r: Record) {
    && off + hdrlen + |r.data| <= |b| && SIZEOF_BPF_HDR <= hdrlen && |r.data| < 0x1_0000_0000
    && b[off..off + SIZEOF_BPF_HDR] == Header(r, hdrlen)
    && b[off + hdrlen..off + hdrlen + |r.data|] == r.data
  }

  /** Where the record after `rs` goes. */
  function Off(rs: seq<Record>, hdrlen: nat): nat {
    if rs == [] then 0 else Off(rs[..|rs| - 1], hdrlen) + Align(hdrlen + |rs[|rs| - 1].data|)
  }

  /** Where `rs` ends. */
  function Size(rs: seq<Record>, hdrlen: nat): nat {
    if rs == [] then 0 else Off(rs[..|rs| - 1], hdrlen) + hdrlen + |rs[|rs| - 1].data|
  }

  /** The buffer holds these records, one after the other at word boundaries. */
  ghost predicate Holds(b: seq<Byte>, rs: seq<Record>, hdrlen: Word) {
    && Size(rs, hdrlen) <= |b|
    && forall i :: 0 <= i < |rs| ==> At(b, Off(rs[..i], hdrlen), hdrlen, rs[i])
  }

  lemma {:induction false} OffAligned(rs: seq<Record>, hdrlen: nat)
    ensures Off(rs, hdrlen) % 4 == 0 && Align(Size(rs, hdrlen)) == Off(rs, hdrlen)
    decreases |rs|
  {
    if rs != [] {
      OffAligned(rs[..|rs| - 1], hdrlen);
      AlignFrom(Off(rs[..|rs| - 1], hdrlen), hdrlen + |rs[|rs| - 1].data|);
    }
  }

  lemma AlignFrom(a: nat, n: nat)
    requires a % 4 == 0
    ensures Align(a + n) == a + Align(n) && (a + Align(n)) % 4 == 0
  {
    var q := a / 4;
    assert a == 4 * q;
    assert (4 * q + (n + 3)) / 4 == q + (n + 3) / 4;
  }

  lemma {:induction false} OffMonotone(rs: seq<Record>, hdrlen: nat, i: nat)
    requires i <= |rs|
    ensures Off(rs[..i], hdrlen) <= Off(rs, hdrlen)
    ensures i < |rs| ==> Off(rs[..i], hdrlen) + hdrlen + |rs[i].data| <= Size(rs, hdrlen)
    decreases |rs| - i
  {
    if i == |rs| {
      assert rs[..i] == rs;
    } else {
      assert rs[..i + 1][..i] == rs[..i];
      OffMonotone(rs, hdrlen, i + 1);
      if i + 1 < |rs| {
        OffMonotone(rs, hdrlen, i + 1);
      }
    }
  }

  /** Writing at or behind the end of the records leaves them alone. */
  lemma HoldsKept(b: seq<Byte>, b': seq<Byte>, rs: seq<Record>, hdrlen: Word)
    requires Holds(b, rs, hdrlen) && |b'| == |b| && b'[..Size(rs, hdrlen)] == b[..Size(rs, hdrlen)]
    ensures Holds(b', rs, hdrlen)
  {
    var n := Size(rs, hdrlen);
    forall i | 0 <= i < |rs| ensures At(b', Off(rs[..i], hdrlen), hdrlen, rs[i]) {
      OffMonotone(rs, hdrlen, i);
      SameAt(b, b', Off(rs[..i], hdrlen), hdrlen, rs[i], n);
    }
  }

  lemma SameAt(b: seq<Byte>, b': seq<Byte>, off: nat, hdrlen: Word, r: Record, n: nat)
    requires At(b, off, hdrlen, r) && off + hdrlen + |r.data| <= n <= |b| == |b'| && b'[..n] == b[..n]
    ensures At(b', off, hdrlen, r)
  {
    hide Header;
    var i, j := off + hdrlen, off + hdrlen + |r.data|;
    PrefixSlice(b, n, off, off + SIZEOF_BPF_HDR);
    PrefixSlice(b', n, off, off + SIZEOF_BPF_HDR);
    PrefixSlice(b, n, i, j);
    PrefixSlice(b', n, i, j);
  }

  lemma HoldsMore(b: seq<Byte>, rs: seq<Record>, hdrlen: Word, r: Record)
    requires Holds(b, rs, hdrlen) && At(b, Off(rs, hdrlen), hdrlen, r)
    ensures Holds(b, rs + [r], hdrlen) && Size(rs + [r], hdrlen) == Off(rs, hdrlen) + hdrlen + |r.data|
  {
    hide At;
    var t := rs + [r];
    assert t[..|rs|] == rs;
    forall i | 0 <= i < |t| ensures At(b, Off(t[..i], hdrlen), hdrlen, t[i]) {
      if i < |rs| {
        assert t[..i] == rs[..i];
      }
    }
    assert At(b, Off(rs, hdrlen), hdrlen, r);
    EndOf(b, Off(rs, hdrlen), hdrlen, r);
  }

  lemma EndOf(b: seq<Byte>, off: nat, hdrlen: Word, r: Record)
    requires At(b, off, hdrlen, r)
    ensures off + hdrlen + |r.data| <= |b|
  {
  }

  // ----- reading a buffer

  lemma HeaderFields(b: seq<Byte>, off: nat, hdrlen: Word, r: Record)
    requires At(b, off, hdrlen, r)
    ensures W32(b, off) == r.sec && W32(b, off + 4) == r.usec && W32(b, off + 8) == |r.data|
    ensures W32(b, off + 12) == r.datalen && W16(b, off + 16) == hdrlen
  {
    var h := b[off..off + SIZEOF_BPF_HDR];
    hide B32, B16, W32, W16;
    assert |B32(r.sec)| == 4 && |B32(r.usec)| == 4 && |B32(|r.data|)| == 4 && |B32(r.datalen)| == 4
           && |B16(hdrlen)| == 2 by {
      FieldSizes(r.sec, r.usec, |r.data|, r.datalen, hdrlen);
    }
    FiveParts(B32(r.sec), B32(r.usec), B32(|r.data|), B32(r.datalen), B16(hdrlen));
    Part(b, off, 0, 4);
    Part(b, off, 4, 8);
    Part(b, off, 8, 12);
    Part(b, off, 12, 16);
    Part(b, off, 16, 18);
    WrittenRead(b, off, r.sec);
    WrittenRead(b, off + 4, r.usec);
    WrittenRead(b, off + 8, |r.data|);
    WrittenRead(b, off + 12, r.datalen);
    WrittenRead16(b, off + 16, hdrlen);
  }

  lemma FiveParts(a: seq<Byte>, b: seq<Byte>, c: seq<Byte>, d: seq<Byte>, e: seq<Byte>)
    requires |a| == |b| == |c| == |d| == 4 && |e| == 2
    ensures var h := a + b + c + d + e;
            h[0..4] == a && h[4..8] == b && h[8..12] == c && h[12..16] == d && h[16..18] == e
  {
  }

  lemma FieldSizes(a: Long, b: Long, c: Long, d: Long, e: Word)
    ensures |B32(a)| == 4 && |B32(b)| == 4 && |B32(c)| == 4 && |B32(d)| == 4 && |B16(e)| == 2
  {
  }

  lemma Part(b: seq<Byte>, off: nat, i: nat, j: nat)
    requires i <= j <= SIZEOF_BPF_HDR && off + SIZEOF_BPF_HDR <= |b|
    ensures b[off..off + SIZEOF_BPF_HDR][i..j] == b[off + i..off + j]
  {
    var h, p := b[off..off + SIZEOF_BPF_HDR], b[off + i..off + j];
    assert |h[i..j]| == |p|;
    forall k | 0 <= k < |p| ensures h[i..j][k] == p[k] {
      assert h[i..j][k] == h[i + k] == b[off + (i + k)];
    }
  }

  /** Going from header to header, as a reader of the buffer does, gives back the records. */
  method Parse(b: seq<Byte>, ghost rs: seq<Record>, ghost hdrlen: Word) returns (out: seq<Record>)
    requires Holds(b, rs, hdrlen) && |b| == Size(rs, hdrlen)
    ensures out == rs
  {
    hide At, W32, W16, Align, Holds, Off, Size;
    out := [];
    var off := 0;
    ghost var n := 0;
    OffNext(rs, hdrlen, 0);
    while off < |b|
      invariant 0 <= n <= |rs| && out == rs[..n] && off == Off(rs[..n], hdrlen)
      decreases |rs| - n
    {
      ParseNext(b, rs, hdrlen, n);
      HeaderFields(b, off, hdrlen, rs[n]);
      DataOf(b, off, hdrlen, rs[n]);
      OffNext(rs, hdrlen, n);
      var hl, caplen := W16(b, off + 16), W32(b, off + 8);
      out := out + [Record(W32(b, off), W32(b, off + 4), W32(b, off + 12), b[off + hl..off + hl + caplen])];
      off := off + Align(hl + caplen);
      n := n + 1;
    }
    ParseEnd(b, rs, hdrlen, n);
  }

  lemma OffNext(rs: seq<Record>, hdrlen: nat, n: nat)
    requires n <= |rs|
    ensures Off(rs[..0], hdrlen) == 0
    ensures n < |rs| ==> rs[..n] + [rs[n]] == rs[..n + 1]
                         && Off(rs[..n + 1], hdrlen) == Off(rs[..n], hdrlen) + Align(hdrlen + |rs[n].data|)
  {
    if n < |rs| {
      assert rs[..n + 1][..n] == rs[..n];
    }
  }

  lemma DataOf(b: seq<Byte>, off: nat, hdrlen: Word, r: Record)
    requires At(b, off, hdrlen, r)
    ensures off + hdrlen + |r.data| <= |b| && b[off + hdrlen..off + hdrlen + |r.data|] == r.data
            && hdrlen >= SIZEOF_BPF_HDR
  {
  }

  lemma ParseNext(b: seq<Byte>, rs: seq<Record>, hdrlen: Word, n: nat)
    requires Holds(b, rs, hdrlen) && |b| == Size(rs, hdrlen) && n <= |rs| && Off(rs[..n], hdrlen) < |b|
    ensures n < |rs| && At(b, Off(rs[..n], hdrlen), hdrlen, rs[n])
  {
    AllOff(rs, hdrlen, n);
  }

  lemma AllOff(rs: seq<Record>, hdrlen: nat, n: nat)
    requires n <= |rs|
    ensures n == |rs| ==> Size(rs, hdrlen) <= Off(rs[..n], hdrlen)
  {
    if n == |rs| {
      assert rs[..n] == rs;
      SizeOff(rs, hdrlen);
    }
  }

  lemma SizeOff(rs: seq<Record>, hdrlen: nat)
    ensures Size(rs, hdrlen) <= Off(rs, hdrlen)
  {
  }

  lemma ParseEnd(b: seq<Byte>, rs: seq<Record>, hdrlen: Word, n: nat)
    requires Holds(b, rs, hdrlen) && |b| == Size(rs, hdrlen) && n <= |rs| && Off(rs[..n], hdrlen) >= |b|
    ensures rs[..n] == rs
  {
    OffMonotone(rs, hdrlen, n);
    if n < |rs| {
      assert false;
    }
  }

  // ----- the slots

  lemma RecordWritten(b0: seq<Byte>, b1: seq<Byte>, b2: seq<Byte>, cur: nat, hdrlen: Word, r: Record)
    requires |r.data| < 0x1_0000_0000 && SIZEOF_BPF_HDR <= hdrlen && cur + hdrlen + |r.data| <= |b0|
    requires b1 == b0[..cur] + Header(r, hdrlen) + b0[cur + SIZEOF_BPF_HDR..]
    requires b2 == b1[..cur + hdrlen] + r.data + b1[cur + hdrlen + |r.data|..]
    ensures |b2| == |b0| && b2[..cur] == b0[..cur] && At(b2, cur, hdrlen, r)
  {
    hide Header;
    ThreeParts(b0[..cur], Header(r, hdrlen), b0[cur + SIZEOF_BPF_HDR..]);
    ThreeParts(b1[..cur + hdrlen], r.data, b1[cur + hdrlen + |r.data|..]);
    PrefixAll(b2, cur + hdrlen, cur);
    PrefixAll(b1, cur + hdrlen, cur);
    PrefixSlice(b2, cur + hdrlen, cur, cur + SIZEOF_BPF_HDR);
    PrefixSlice(b1, cur + hdrlen, cur, cur + SIZEOF_BPF_HDR);
  }

  lemma StoredMore(b0: seq<Byte>, b2: seq<Byte>, rs: seq<Record>, hdrlen: Word, r: Record)
    requires Holds(b0, rs, hdrlen) && StoredAs(b0, b2, Off(rs, hdrlen), hdrlen, r)
    ensures Holds(b2, rs + [r], hdrlen) && Size(rs + [r], hdrlen) == Off(rs, hdrlen) + hdrlen + |r.data|
  {
    hide Holds, Header, Size, Off, At;
    var cur, n := Off(rs, hdrlen), Size(rs, hdrlen);
    var b1 := b0[..cur] + Header(r, hdrlen) + b0[cur + SIZEOF_BPF_HDR..];
    SizeOff(rs, hdrlen);
    RecordWritten(b0, b1, b2, cur, hdrlen, r);
    PrefixAll(b2, cur, n);
    PrefixAll(b0, cur, n);
    HoldsKept(b0, b2, rs, hdrlen);
    HoldsMore(b2, rs, hdrlen, r);
  }

  /** Write header and data of a record behind those in a buffer. */
  method WriteRecord(a: array<Byte>, cur: nat, hdrlen: Word, r: Record, ghost rs: seq<Record>)
    requires Holds(a[..], rs, hdrlen) && |r.data| < 0x1_0000_0000 && SIZEOF_BPF_HDR <= hdrlen
    requires cur == Off(rs, hdrlen) && cur + hdrlen + |r.data| <= a.Length
    modifies a
    ensures Holds(a[..], rs + [r], hdrlen) && Size(rs + [r], hdrlen) == cur + hdrlen + |r.data|
  {
    hide Holds, Header, Size, Off, At, Align, StoredAs;
    ghost var b0 := a[..];
    WriteParts(a, cur, hdrlen, r);
    StoredMore(b0, a[..], rs, hdrlen, r);
  }

  /** Header, then data. */
  method WriteParts(a: array<Byte>, cur: nat, hdrlen: Word, r: Record)
    requires |r.data| < 0x1_0000_0000 && SIZEOF_BPF_HDR <= hdrlen && cur + hdrlen + |r.data| <= a.Length
    modifies a
    ensures StoredAs(old(a[..]), a[..], cur, hdrlen, r)
  {
    hide Header;
    CopyIn(a, cur, Header(r, hdrlen));
    CopyIn(a, cur + hdrlen, r.data);
  }

  /** The octets after header and data of a record were written at `cur`. */
  ghost predicate StoredAs(b0: seq<Byte>, b2: seq<Byte>, cur: nat, hdrlen: Word, r: Record) {
    && |r.data| < 0x1_0000_0000 && SIZEOF_BPF_HDR <= hdrlen && cur + hdrlen + |r.data| <= |b0|
    && var b1 := b0[..cur] + Header(r, hdrlen) + b0[cur + SIZEOF_BPF_HDR..];
       b2 == b1[..cur + hdrlen] + r.data + b1[cur + hdrlen + |r.data|..]
  }

  /** What becomes of the sleep of a reader who has to wait: it goes on, it lasted long enough, or a signal ends it. */
  datatype Wake = NotYet | TimedOut | Signal

  datatype ReadResult = Chunk(octets: seq<Byte>) | WrongSize | Interrupted | Asleep

  /**
   What a record has to be: when the packet came, how long it was, and its front. No more of it than asked for is kept,
   nor than fits a buffer behind the header; less than that only if the packet is shorter.
   */
  predicate IsSnapshot(r: Record, pkt: seq<Byte>, snaplen: nat, sec: Long, usec: Long, hdrlen: nat, bufsize: nat) {
    && r.sec == sec && r.usec == usec && r.datalen == |pkt|
    && |r.data| <= |pkt| && r.data == pkt[..|r.data|] && |r.data| <= snaplen && hdrlen + |r.data| <= bufsize
    && (|r.data| < |pkt| && |r.data| < snaplen ==> hdrlen + |r.data| == bufsize)
  }

  class Descriptor {
    var sbuf: array<Byte>
    var hbuf: array?<Byte>
    var fbuf: array?<Byte>
    var slen: nat
    var hlen: nat
    const bufsize: nat
    const hdrlen: Word
    var immediate: bool
    var dcount: nat
    ghost var held: seq<Record>
    ghost var stored: seq<Record>

    /** The store slot is occupied and exactly one of the other two is; the buffers hold what they should. */
    ghost predicate Valid()
      reads this, sbuf, hbuf
    {
      && SIZEOF_BPF_HDR <= hdrlen <= bufsize < 0x1_0000_0000
      && sbuf.Length == bufsize && Holds(sbuf[..], stored, hdrlen) && slen == Size(stored, hdrlen)
      && (hbuf == null <==> fbuf != null)
      && (if hbuf == null then held == [] && hlen == 0
          else hbuf != sbuf && hbuf.Length == bufsize && Holds(hbuf[..], held, hdrlen) && hlen == Size(held, hdrlen))
      && (fbuf != null ==> fbuf != sbuf && fbuf.Length == bufsize)
    }

    constructor (bufsize: nat, hdrlen: Word, immediate: bool)
      requires SIZEOF_BPF_HDR <= hdrlen <= bufsize < 0x1_0000_0000
      ensures Valid() && held == [] && stored == [] && dcount == 0 && fresh(sbuf) && fresh(fbuf) && hbuf == null
      ensures this.bufsize == bufsize && this.hdrlen == hdrlen && this.immediate == immediate
    {
      this.bufsize, this.hdrlen, this.immediate := bufsize, hdrlen, immediate;
      fbuf := new Byte[bufsize];
      sbuf := new Byte[bufsize];
      hbuf := null;
      slen, hlen, dcount := 0, 0, 0;
      held, stored := [], [];
    }

    /** The store buffer is put on hold and the free one takes its place. */
    method Rotate()
      requires Valid() && fbuf != null
      modifies this
      ensures Valid() && held == old(stored) && stored == []
      ensures hbuf == old(sbuf) && sbuf == old(fbuf) && fbuf == null
      ensures dcount == old(dcount) && immediate == old(immediate)
    {
      hide Holds;
      EmptyHolds(fbuf[..], hdrlen);
      hbuf, hlen := sbuf, slen;
      sbuf, slen := fbuf, 0;
      fbuf := null;
      held, stored := stored, [];
    }

    lemma SnapshotIs(pkt: seq<Byte>, snaplen: nat, sec: Long, usec: Long)
      requires |pkt| < 0x1_0000_0000 && hdrlen <= bufsize
      ensures IsSnapshot(Snapshot(pkt, snaplen, sec, usec), pkt, snaplen, sec, usec, hdrlen, bufsize)
    {
    }

    /** What is kept of a packet. */
    function Snapshot(pkt: seq<Byte>, snaplen: nat, sec: Long, usec: Long): Record
      requires |pkt| < 0x1_0000_0000 && hdrlen <= bufsize
    {
      Record(sec, usec, |pkt|, pkt[..Min(Min(snaplen, |pkt|), bufsize - hdrlen)])
    }

    /**
     A packet arrives: it is stored behind the others; if there is no room for it the buffers are rotated first, and if
     that is not possible because the reader still holds one, the packet is dropped and counted.
     */
    method Catch(pkt: seq<Byte>, snaplen: nat, sec: Long, usec: Long) returns (dropped: bool)
      requires Valid() && |pkt| < 0x1_0000_0000
      modifies this, sbuf, fbuf
      ensures Valid() && {sbuf, hbuf, fbuf} == old({sbuf, hbuf, fbuf}) && immediate == old(immediate)
      ensures !dropped ==> stored != [] && IsSnapshot(stored[|stored| - 1], pkt, snaplen, sec, usec, hdrlen, bufsize)
      ensures var r := Snapshot(pkt, snaplen, sec, usec);
              var full := Off(old(stored), hdrlen) + hdrlen + |r.data| > bufsize;
              && (dropped <==> full && old(fbuf) == null)
              && dcount == (if dropped then old(dcount) + 1 else old(dcount))
              && (if dropped then held == old(held) && stored == old(stored)
                  else if full then held == old(stored) && stored == [r]
                  else held == old(held) && stored == old(stored) + [r])
              && held + stored == old(held) + old(stored) + if dropped then [] else [r]
    {
      hide Holds, Align, Size, Off;
      ghost var r := Snapshot(pkt, snaplen, sec, usec);
      var totlen := hdrlen + Min(snaplen, |pkt|);
      if totlen > bufsize {
        totlen := bufsize;
      }
      assert totlen == hdrlen + |r.data|;
      SnapshotIs(pkt, snaplen, sec, usec);
      OffAligned(stored, hdrlen);
      NoneBefore(hdrlen);
      var curlen := Align(slen);
      if curlen + totlen > bufsize {
        if fbuf == null {
          dcount := dcount + 1;
          return true;
        }
        Rotate();
        curlen := 0;
      }
      ghost var held1, stored1 := held, stored;
      Store(pkt, totlen - hdrlen, sec, usec, curlen);
      assert held1 + stored1 == old(held) + old(stored);
      Assoc(held1, stored1, [r]);
      return false;
    }

    /** Append a record to the store buffer. */
    method Store(pkt: seq<Byte>, caplen: nat, sec: Long, usec: Long, curlen: nat)
      requires Valid() && caplen <= |pkt| < 0x1_0000_0000
      requires curlen == Off(stored, hdrlen) && curlen + hdrlen + caplen <= bufsize
      modifies this`slen, this`stored, sbuf
      ensures Valid() && stored == old(stored) + [Record(sec, usec, |pkt|, pkt[..caplen])]
    {
      hide Holds, Align, Size, Off;
      var r := Record(sec, usec, |pkt|, pkt[..caplen]);
      WriteRecord(sbuf, curlen, hdrlen, r, stored);
      slen := curlen + hdrlen + caplen;
      stored := stored + [r];
    }

    /**
     Read: what is on hold, or what is stored if the reader does not want to wait or has waited long enough. Nothing
     changes if the request is of the wrong size, or while the reader sleeps, or if its sleep is interrupted.
     */
    method Read(resid: nat, wake: Wake) returns (r: ReadResult, ghost rs: seq<Record>)
      requires Valid()
      modifies this
      ensures Valid() && {sbuf, hbuf, fbuf} == old({sbuf, hbuf, fbuf}) && dcount == old(dcount)
              && immediate == old(immediate)
      ensures r == WrongSize <==> resid != bufsize
      ensures r == Asleep
              <==> resid == bufsize && old(hbuf) == null && !(immediate && old(stored) != []) && wake == NotYet
      ensures r == Interrupted
              <==> resid == bufsize && old(hbuf) == null && !(immediate && old(stored) != []) && wake == Signal
      ensures !r.Chunk? ==> rs == [] && held == old(held) && stored == old(stored) && hbuf == old(hbuf)
      ensures r.Chunk? ==> rs == (if old(hbuf) != null then old(held) else old(stored)) && held == [] && hbuf == null
      ensures rs + held + stored == old(held) + old(stored)
      ensures r.Chunk? ==> |r.octets| == Size(rs, hdrlen) && Holds(r.octets, rs, hdrlen)
    {
      hide Holds, Align;
      if resid != bufsize {
        return WrongSize, [];
      }
      StoredSize(stored, hdrlen);
      if hbuf == null {
        if immediate && slen != 0 {
          Rotate();
        } else if wake == NotYet {
          return Asleep, [];
        } else if wake == Signal {
          return Interrupted, [];
        } else if slen == 0 {
          EmptyHolds([], hdrlen);
          return Chunk([]), [];
        } else {
          Rotate();
        }
      }
      var octets;
      octets, rs := TakeHeld();
      r := Chunk(octets);
    }

    /** Hand out what is on hold; its buffer is free then. */
    method TakeHeld() returns (octets: seq<Byte>, ghost rs: seq<Record>)
      requires Valid() && hbuf != null
      modifies this
      ensures Valid() && {sbuf, hbuf, fbuf} == old({sbuf, hbuf, fbuf}) && dcount == old(dcount)
              && immediate == old(immediate)
      ensures rs == old(held) && held == [] && hbuf == null && stored == old(stored)
      ensures |octets| == Size(rs, hdrlen) && Holds(octets, rs, hdrlen)
    {
      hide Holds, Align;
      HoldsPrefix(hbuf[..], held, hdrlen);
      octets := hbuf[..hlen];
      assert hbuf[..][..hlen] == octets;
      rs := held;
      fbuf := hbuf;
      hbuf := null;
      hlen := 0;
      held := [];
    }

    /** Start over: everything captured and the count of drops are forgotten. */
    method Reset()
      requires Valid()
      modifies this
      ensures Valid() && {sbuf, hbuf, fbuf} == old({sbuf, hbuf, fbuf}) && held == [] && stored == [] && dcount == 0
    {
      hide Holds;
      EmptyHolds(sbuf[..], hdrlen);
      if hbuf != null {
        fbuf := hbuf;
        hbuf := null;
      }
      slen, hlen, dcount := 0, 0, 0;
      held, stored := [], [];
    }
  }

  lemma NoneBefore(hdrlen: nat)
    ensures Off([], hdrlen) == 0
  {
  }

  lemma StoredSize(rs: seq<Record>, hdrlen: Word)
    requires hdrlen > 0
    ensures Size(rs, hdrlen) == 0 <==> rs == []
  {
  }

  lemma EmptyHolds(b: seq<Byte>, hdrlen: Word)
    ensures Holds(b, [], hdrlen) && Size([], hdrlen) == 0
  {
  }

  lemma HoldsPrefix(b: seq<Byte>, rs: seq<Record>, hdrlen: Word)
    requires Holds(b, rs, hdrlen)
    ensures Size(rs, hdrlen) <= |b| && Holds(b[..Size(rs, hdrlen)], rs, hdrlen)
  {
    var n := Size(rs, hdrlen);
    forall i | 0 <= i < |rs| ensures At(b[..n], Off(rs[..i], hdrlen), hdrlen, rs[i]) {
      OffMonotone(rs, hdrlen, i);
      AtPrefix(b, Off(rs[..i], hdrlen), hdrlen, rs[i], n);
    }
  }

  lemma AtPrefix(b: seq<Byte>, off: nat, hdrlen: Word, r: Record, n: nat)
    requires At(b, off, hdrlen, r) && off + hdrlen + |r.data| <= n <= |b|
    ensures At(b[..n], off, hdrlen, r)
  {
    hide Header;
    PrefixSlice(b, n, off, off + SIZEOF_BPF_HDR);
    PrefixSlice(b, n, off + hdrlen, off + hdrlen + |r.data|);
  }

  // ----- whole runs

  /** A packet that passed the filter, a call of read with what becomes of its sleep, or a reset. */
  datatype Event =
    | Packet(pkt: seq<Byte>, snaplen: nat, sec: Long, usec: Long)
    | ReadCall(resid: nat, wake: Wake)
    | ResetCall

  predicate Proper(e: Event) { e.Packet? ==> |e.pkt| < 0x1_0000_0000 }

  /** The packets since the last reset, in the order of their arrival. */
  function Arrived(es: seq<Event>): seq<Event> {
    if es == [] then []
    else
      match es[|es| - 1]
      case Packet(_, _, _, _) => Arrived(es[..|es| - 1]) + [es[|es| - 1]]
      case ReadCall(_, _) => Arrived(es[..|es| - 1])
      case ResetCall => []
  }

  /** Record by record, what has to be kept of packets. */
  ghost predicate AreSnapshots(rs: seq<Record>, ps: seq<Event>, hdrlen: nat, bufsize: nat) {
    && |rs| == |ps|
    && forall i :: 0 <= i < |ps| ==>
         ps[i].Packet? && IsSnapshot(rs[i], ps[i].pkt, ps[i].snaplen, ps[i].sec, ps[i].usec, hdrlen, bufsize)
  }

  lemma {:induction false} OfferedAre(d: Descriptor, es: seq<Event>)
    requires d.hdrlen <= d.bufsize && forall i :: 0 <= i < |es| ==> Proper(es[i])
    ensures AreSnapshots(Offered(d, es), Arrived(es), d.hdrlen, d.bufsize)
    decreases |es|
  {
    if es != [] {
      var n := |es| - 1;
      OfferedAre(d, es[..n]);
      var e := es[n];
      assert Proper(e);
      if e.Packet? {
        d.SnapshotIs(e.pkt, e.snaplen, e.sec, e.usec);
      }
    }
  }

  /** What is to be kept of the packets since the last reset, in the order of their arrival. */
  function Offered(d: Descriptor, es: seq<Event>): seq<Record>
    requires d.hdrlen <= d.bufsize && forall i :: 0 <= i < |es| ==> Proper(es[i])
  {
    if es == [] then []
    else
      var e := es[|es| - 1];
      assert Proper(e);
      match e
      case Packet(pkt, snaplen, sec, usec) => Offered(d, es[..|es| - 1]) + [d.Snapshot(pkt, snaplen, sec, usec)]
      case ReadCall(_, _) => Offered(d, es[..|es| - 1])
      case ResetCall => []
  }

  /** The records not dropped. */
  function Chosen(rs: seq<Record>, kept: seq<bool>): seq<Record>
    requires |rs| == |kept|
  {
    if rs == [] then []
    else Chosen(rs[..|rs| - 1], kept[..|kept| - 1]) + if kept[|kept| - 1] then [rs[|rs| - 1]] else []
  }

  function Dropped(kept: seq<bool>): nat {
    if kept == [] then 0 else Dropped(kept[..|kept| - 1]) + if kept[|kept| - 1] then 0 else 1
  }

  lemma NoneChosen()
    ensures Chosen([], []) == [] && Dropped([]) == 0
  {
  }

  lemma ChosenNext(rs: seq<Record>, kept: seq<bool>, r: Record, keep: bool)
    requires |rs| == |kept|
    ensures Chosen(rs + [r], kept + [keep]) == Chosen(rs, kept) + if keep then [r] else []
    ensures Dropped(kept + [keep]) == Dropped(kept) + if keep then 0 else 1
  {
    assert (rs + [r])[..|rs|] == rs && (kept + [keep])[..|kept|] == kept;
  }

  /**
   Any run of captures, reads and resets: what the reads since the last reset returned, parsed, followed by what is on
   hold and what is stored, are the records captured since then, in order and unchanged, except for exactly as many as
   were counted as dropped.
   */
  method Serve(d: Descriptor, es: seq<Event>)
    returns (got: seq<Record>, ghost offered: seq<Record>, ghost kept: seq<bool>)
    requires d.Valid() && d.held == [] && d.stored == [] && d.dcount == 0 && forall i :: 0 <= i < |es| ==> Proper(es[i])
    modifies d, d.sbuf, d.fbuf, d.hbuf
    ensures d.Valid() && |kept| == |offered| && AreSnapshots(offered, Arrived(es), d.hdrlen, d.bufsize)
    ensures got + d.held + d.stored == Chosen(offered, kept) && d.dcount == Dropped(kept)
  {
    hide Holds, Size, Off, Chosen, Dropped;
    got, kept := [], [];
    offered := [];
    var i := 0;
    NoneChosen();
    ghost var bufs := {d.sbuf, d.hbuf, d.fbuf};
    while i < |es|
      invariant 0 <= i <= |es| && d.Valid() && {d.sbuf, d.hbuf, d.fbuf} == bufs
      invariant |kept| == |Offered(d, es[..i])| && d.dcount == Dropped(kept)
      invariant got + d.held + d.stored == Chosen(Offered(d, es[..i]), kept)
    {
      assert es[..i + 1][..i] == es[..i] && es[..i + 1][i] == es[i];
      ghost var all, held, stored := Offered(d, es[..i]), d.held, d.stored;
      match es[i] {
        case Packet(pkt, snaplen, sec, usec) =>
          assert Proper(es[i]);
          var dropped := d.Catch(pkt, snaplen, sec, usec);
          ghost var r := d.Snapshot(pkt, snaplen, sec, usec);
          ChosenNext(all, kept, r, !dropped);
          Grown(got, held, stored, d.held, d.stored, if dropped then [] else [r]);
          kept := kept + [!dropped];
        case ReadCall(resid, wake) =>
          var r;
          ghost var rs;
          r, rs := d.Read(resid, wake);
          Shifted(got, rs, d.held, d.stored, held, stored);
          assert got + [] == got;
          if r.Chunk? {
            var out := Parse(r.octets, rs, d.hdrlen);
            got := got + out;
          }
        case ResetCall =>
          d.Reset();
          got, kept := [], [];
          NoneChosen();
      }
      i := i + 1;
    }
    assert es[..i] == es;
    offered := Offered(d, es);
    OfferedAre(d, es);
  }

  lemma Grown(got: seq<Record>, h0: seq<Record>, s0: seq<Record>, h: seq<Record>, s: seq<Record>, more: seq<Record>)
    requires h + s == h0 + s0 + more
    ensures got + h + s == got + h0 + s0 + more
  {
    Assoc(got, h, s);
    Assoc(got, h0, s0);
    Assoc(got, h0 + s0, more);
  }

  lemma Shifted(got: seq<Record>, rs: seq<Record>, h: seq<Record>, s: seq<Record>, h0: seq<Record>, s0: seq<Record>)
    requires rs + h + s == h0 + s0
    ensures (got + rs) + h + s == got + h0 + s0
  {
    Assoc(got + rs, h, s);
    Assoc(got, rs, h + s);
    Assoc(rs, h, s);
    Assoc(got, h0, s0);
  }
}
