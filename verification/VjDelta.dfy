/**
 The differences a compressed packet carries: how the sender encodes a header against the one it saved
 for the connection, and how the receiver applies them to its own copy (sections 3.2.2 to 3.2.4 of RFC 1144).
 */
module VjDelta {
  import opened Prelude
  import opened Bytes
  import opened VjHeader

  /** The flags of the first octet, apart from the packet type: connection id, IP id, push, and the four changes. */
  datatype Changes = Changes(newC: bool, newI: bool, push: bool, newS: bool, newA: bool, newW: bool, newU: bool)

  function ChangesByte(c: Changes): Byte {
    var x := Push(Push(Push(Bit(c.newC), c.newI), c.push), c.newS);
    Push(Push(Push(x, c.newA), c.newW), c.newU)
  }

  function ToChanges(x: Byte): Changes {
    var x1 := Half(x);
    var x2 := Half(x1);
    var x3 := Half(x2);
    var x4 := Half(x3);
    var x5 := Half(x4);
    Changes(Low(Half(x5)), Low(x5), Low(x4), Low(x3), Low(x2), Low(x1), Low(x))
  }

  lemma BitPush(b: bool)
    ensures Push(0, b) == Bit(b) < 2
  {
  }

  lemma PushBound(x: nat, b: bool, k: nat)
    requires x < k
    ensures Push(x, b) < 2 * k
  {
  }

  lemma ChangesRoundTrip(c: Changes)
    ensures ToChanges(ChangesByte(c)) == c && ChangesByte(c) < 128
  {
    hide Push, Low, Bit, Half;
    var x6 := Bit(c.newC);
    var x5 := Push(x6, c.newI);
    var x4 := Push(x5, c.push);
    var x3 := Push(x4, c.newS);
    var x2 := Push(x3, c.newA);
    var x1 := Push(x2, c.newW);
    var x := Push(x1, c.newU);
    BitPush(c.newC);
    PushBound(x6, c.newI, 2);
    PushBound(x5, c.push, 4);
    PushBound(x4, c.newS, 8);
    PushBound(x3, c.newA, 16);
    PushBound(x2, c.newW, 32);
    PushBound(x1, c.newU, 64);
    assert Half(x6) == 0 && Low(x6) == c.newC by { PushLow(0, c.newC); }
    assert Half(x5) == x6 && Low(x5) == c.newI by { PushLow(x6, c.newI); }
    assert Half(x4) == x5 && Low(x4) == c.push by { PushLow(x5, c.push); }
    assert Half(x3) == x4 && Low(x3) == c.newS by { PushLow(x4, c.newS); }
    assert Half(x2) == x3 && Low(x2) == c.newA by { PushLow(x3, c.newA); }
    assert Half(x1) == x2 && Low(x1) == c.newW by { PushLow(x2, c.newW); }
    assert Half(x) == x1 && Low(x) == c.newU by { PushLow(x1, c.newU); }
  }

  /** The two reserved combinations: echoed interactive traffic and unidirectional data. */
  predicate SpecialI(c: Changes) { c.newS && c.newW && c.newU && !c.newA }
  predicate SpecialD(c: Changes) { c.newS && c.newA && c.newW && c.newU }

  // ----- numbers

  function Sub16(a: Word, b: Word): Word { (a - b) % 0x1_0000 }
  function Add16(a: Word, d: int): Word { (a + d) % 0x1_0000 }
  function Sub32(a: Long, b: Long): Long { (a - b) % 0x1_0000_0000 }
  function Add32(a: Long, d: int): Long { (a + d) % 0x1_0000_0000 }

  lemma SubAdd(a: Long, b: Long)
    ensures Add32(b, Sub32(a, b)) == a
  {
  }

  lemma SubAdd16(a: Word, b: Word)
    ensures Add16(b, Sub16(a, b)) == a
  {
  }

  /** One octet for 1 to 255, otherwise zero and two octets. */
  function Number(n: Word): seq<Byte> {
    if n == 0 || n >= 256 then [0] + B16(n) else [n]
  }

  /** A number at the front of a buffer, and its size. */
  function ReadNumber(b: seq<Byte>, i: nat): (r: (Word, nat))
    requires i + 3 <= |b|
    ensures i < r.1 <= i + 3
  {
    if b[i] == 0 then (W16(b, i + 1), i + 3) else (b[i], i + 1)
  }

  predicate At(b: seq<Byte>, i: nat, s: seq<Byte>) {
    i + |s| <= |b| && b[i..i + |s|] == s
  }

  lemma ReadWritten(b: seq<Byte>, i: nat, n: Word)
    requires At(b, i, Number(n)) && i + 3 <= |b|
    ensures ReadNumber(b, i) == (n, i + |Number(n)|)
  {
    var s := Number(n);
    assert forall j :: 0 <= j < |s| ==> b[i + j] == b[i..i + |s|][j] == s[j];
  }

  lemma AtSplit(b: seq<Byte>, i: nat, s: seq<Byte>, s': seq<Byte>)
    ensures At(b, i, s + s') <==> At(b, i, s) && At(b, i + |s|, s')
  {
    if i + |s| + |s'| <= |b| {
      var all := b[i..i + |s| + |s'|];
      assert all == b[i..i + |s|] + b[i + |s|..i + |s| + |s'|];
      assert all[..|s|] == b[i..i + |s|] && all[|s|..] == b[i + |s|..i + |s| + |s'|];
      assert (s + s')[..|s|] == s && (s + s')[|s|..] == s';
    }
  }

  // ----- the sender

  /**
   Only what is expected to change may differ: version, lengths, type of service, fragmentation, time to live, options.
   */
  predicate SameShape(cs: Header, h: Header) {
    && h.vhl == cs.vhl && h.tos == cs.tos && h.off == cs.off && h.ttl == cs.ttl && h.proto == cs.proto
    && TcpWords(h) == TcpWords(cs) && h.ipopt == cs.ipopt && h.topt == cs.topt
  }

  datatype Delta = Uncompressed | Delta(changes: Changes, numbers: seq<Byte>)

  function Part(on: bool, n: Word): seq<Byte> { if on then Number(n) else [] }

  /**
   The numbers of a packet without a special encoding, in the order urgent pointer, window, acknowledgement, sequence
   number.
   */
  function Numbers(cs: Header, h: Header, rest: seq<Byte>): seq<Byte>
    requires Sub32(h.ack, cs.ack) <= 0xffff && Sub32(h.sn, cs.sn) <= 0xffff
  {
    Part(h.flags.urg, h.urp)
    + (Part(Sub16(h.win, cs.win) != 0, Sub16(h.win, cs.win))
       + (Part(Sub32(h.ack, cs.ack) != 0, Sub32(h.ack, cs.ack))
          + (Part(Sub32(h.sn, cs.sn) != 0, Sub32(h.sn, cs.sn)) + rest)))
  }

  /** How `h` is sent when the saved header of its connection is `cs`; the connection id is dealt with elsewhere. */
  function Compare(cs: Header, h: Header): Delta {
    if !SameShape(cs, h) || (!h.flags.urg && h.urp != cs.urp) then Uncompressed
    else
      var dW, dA, dS := Sub16(h.win, cs.win), Sub32(h.ack, cs.ack), Sub32(h.sn, cs.sn);
      if dA > 0xffff || dS > 0xffff then Uncompressed
      else
        var u, w, a, s := h.flags.urg, dW != 0, dA != 0, dS != 0;
        // the change of the IP id is sent unless it grew by one
        var i := h.id - cs.id != 1;
        var id := Part(i, Sub16(h.id, cs.id));
        var lastData := Sub32(cs.len, HeaderLen(h));
        if !u && !w && !a && !s && !(h.len != cs.len && cs.len == HeaderLen(h)) then Uncompressed
        else if s && w && u then Uncompressed
        else if s && a && !w && !u && dS == dA && dS == lastData then
          Delta(Changes(false, i, h.flags.push, true, false, true, true), id)
        else if s && !a && !w && !u && dS == lastData then
          Delta(Changes(false, i, h.flags.push, true, true, true, true), id)
        else
          Delta(Changes(false, i, h.flags.push, s, a, w, u), Numbers(cs, h, id))
  }

  // ----- the receiver

  /** Decoding leaves alone what determines the lengths of a header. */
  predicate Keeps(h: Header, r: Header) {
    r.vhl == h.vhl && r.offx2 == h.offx2 && r.ipopt == h.ipopt && r.topt == h.topt
    && r.flags.reserved == h.flags.reserved
  }

  /** Apply the changes to the saved header; the TCP checksum and the numbers are read from `i` on. */
  function Rebuild(cs: Header, c: Changes, b: seq<Byte>, i: nat): (r: (Header, nat))
    requires i + 17 <= |b|
    ensures Keeps(cs, r.0) && i + 2 <= r.1 <= i + 17
  {
    RebuildFrom(cs.(tsum := W16(b, i), flags := cs.flags.(push := c.push)), c, b, i + 2)
  }

  function RebuildFrom(h: Header, c: Changes, b: seq<Byte>, i: nat): (r: (Header, nat))
    requires i + 15 <= |b|
    ensures Keeps(h, r.0) && i <= r.1 <= i + 15
  {
    var (h1, j) := RebuildTcp(h, c, b, i);
    if c.newI then
      var (d, k) := ReadNumber(b, j);
      (h1.(id := Add16(h1.id, d)), k)
    else
      (h1.(id := Add16(h1.id, 1)), j)
  }

  function RebuildTcp(h: Header, c: Changes, b: seq<Byte>, i: nat): (r: (Header, nat))
    requires i + 15 <= |b|
    ensures Keeps(h, r.0) && i <= r.1 <= i + 12
  {
    var data := h.len - HeaderLen(h);
    if SpecialI(c) then (h.(ack := Add32(h.ack, data), sn := Add32(h.sn, data)), i)
    else if SpecialD(c) then (h.(sn := Add32(h.sn, data)), i)
    else
      var (h1, i1) := DecodeU(h, c.newU, b, i);
      var (h2, i2) := DecodeW(h1, c.newW, b, i1);
      var (h3, i3) := DecodeA(h2, c.newA, b, i2);
      DecodeS(h3, c.newS, b, i3)
  }

  function DecodeU(h: Header, on: bool, b: seq<Byte>, i: nat): (r: (Header, nat))
    requires i + 3 <= |b|
    ensures Keeps(h, r.0) && i <= r.1 <= i + 3
  {
    if on then
      var (d, j) := ReadNumber(b, i);
      (h.(urp := d, flags := h.flags.(urg := true)), j)
    else (h.(flags := h.flags.(urg := false)), i)
  }

  function DecodeW(h: Header, on: bool, b: seq<Byte>, i: nat): (r: (Header, nat))
    requires i + 3 <= |b|
    ensures Keeps(h, r.0) && i <= r.1 <= i + 3
  {
    if on then
      var (d, j) := ReadNumber(b, i);
      (h.(win := Add16(h.win, d)), j)
    else (h, i)
  }

  function DecodeA(h: Header, on: bool, b: seq<Byte>, i: nat): (r: (Header, nat))
    requires i + 3 <= |b|
    ensures Keeps(h, r.0) && i <= r.1 <= i + 3
  {
    if on then
      var (d, j) := ReadNumber(b, i);
      (h.(ack := Add32(h.ack, d)), j)
    else (h, i)
  }

  function DecodeS(h: Header, on: bool, b: seq<Byte>, i: nat): (r: (Header, nat))
    requires i + 3 <= |b|
    ensures Keeps(h, r.0) && i <= r.1 <= i + 3
  {
    if on then
      var (d, j) := ReadNumber(b, i);
      (h.(sn := Add32(h.sn, d)), j)
    else (h, i)
  }

  // ----- the receiver undoes the sender

  /** A packet worth compressing: acknowledgement set, no other connection control bit. */
  predicate AckOnly(f: Flags) { f.ack && !f.syn && !f.fin && !f.rst }

  predicate Special(c: Changes) { SpecialI(c) || SpecialD(c) }

  /**
   What the receiver makes of `h`: the reserved bits, and with a special encoding URG, are those of the saved header.
   */
  function Rebuilt(cs: Header, h: Header, c: Changes): Header {
    h.(sum := 0, len := cs.len, offx2 := cs.offx2,
       flags := h.flags.(reserved := cs.flags.reserved, urg := if Special(c) then cs.flags.urg else h.flags.urg))
  }

  lemma ReadPart(b: seq<Byte>, i: nat, on: bool, n: Word, rest: seq<Byte>)
    requires At(b, i, Part(on, n) + rest)
    ensures on && i + 3 <= |b| ==> ReadNumber(b, i) == (n, i + |Part(on, n)|)
    ensures At(b, i + |Part(on, n)|, rest) && |Part(on, n)| <= 3
  {
    AtSplit(b, i, Part(on, n), rest);
    if on && i + 3 <= |b| {
      ReadWritten(b, i, n);
    }
  }

  lemma SpecialSum(x: Long, y: Long, len: Word, hlen: nat)
    requires Sub32(y, x) == (len - hlen) % 0x1_0000_0000
    ensures Add32(x, len - hlen) == y
  {
  }

  /** The two headers belong to one connection, differ only where differences are encoded, and carry data. */
  predicate SameConnection(cs: Header, h: Header) {
    SameShape(cs, h) && h.src == cs.src && h.dst == cs.dst && h.ports == cs.ports && AckOnly(cs.flags)
    && AckOnly(h.flags)
  }

  lemma RestoreU(x: Header, h: Header, b: seq<Byte>, i: nat, rest: seq<Byte>)
    requires At(b, i, Part(h.flags.urg, h.urp) + rest) && i + 3 <= |b| && (!h.flags.urg ==> h.urp == x.urp)
    ensures var (r, j) := DecodeU(x, h.flags.urg, b, i);
            && r == x.(urp := h.urp, flags := x.flags.(urg := h.flags.urg))
            && j == i + |Part(h.flags.urg, h.urp)| && At(b, j, rest)
  {
    ReadPart(b, i, h.flags.urg, h.urp, rest);
  }

  lemma RestoreW(x: Header, win: Word, b: seq<Byte>, i: nat, rest: seq<Byte>)
    requires At(b, i, Part(Sub16(win, x.win) != 0, Sub16(win, x.win)) + rest) && i + 3 <= |b|
    ensures var (r, j) := DecodeW(x, Sub16(win, x.win) != 0, b, i);
            r == x.(win := win) && j == i + |Part(Sub16(win, x.win) != 0, Sub16(win, x.win))| && At(b, j, rest)
  {
    ReadPart(b, i, Sub16(win, x.win) != 0, Sub16(win, x.win), rest);
    SubAdd16(win, x.win);
  }

  lemma RestoreA(x: Header, ack: Long, b: seq<Byte>, i: nat, rest: seq<Byte>)
    requires Sub32(ack, x.ack) <= 0xffff
    requires At(b, i, Part(Sub32(ack, x.ack) != 0, Sub32(ack, x.ack)) + rest) && i + 3 <= |b|
    ensures var (r, j) := DecodeA(x, Sub32(ack, x.ack) != 0, b, i);
            r == x.(ack := ack) && j == i + |Part(Sub32(ack, x.ack) != 0, Sub32(ack, x.ack))| && At(b, j, rest)
  {
    ReadPart(b, i, Sub32(ack, x.ack) != 0, Sub32(ack, x.ack), rest);
    SubAdd(ack, x.ack);
  }

  lemma RestoreS(x: Header, sn: Long, b: seq<Byte>, i: nat, rest: seq<Byte>)
    requires Sub32(sn, x.sn) <= 0xffff
    requires At(b, i, Part(Sub32(sn, x.sn) != 0, Sub32(sn, x.sn)) + rest) && i + 3 <= |b|
    ensures var (r, j) := DecodeS(x, Sub32(sn, x.sn) != 0, b, i);
            r == x.(sn := sn) && j == i + |Part(Sub32(sn, x.sn) != 0, Sub32(sn, x.sn))| && At(b, j, rest)
  {
    ReadPart(b, i, Sub32(sn, x.sn) != 0, Sub32(sn, x.sn), rest);
    SubAdd(sn, x.sn);
  }

  /** The part of decoding that deals with the TCP fields, without a special encoding. */
  lemma RestoreTcp(cs: Header, x: Header, h: Header, c: Changes, b: seq<Byte>, i: nat, rest: seq<Byte>)
    requires SameConnection(cs, h) && x == Saved(cs, h)
    requires i + 15 <= |b| && !Special(c)
    requires c.newU == h.flags.urg && (!h.flags.urg ==> h.urp == cs.urp)
    requires c.newW == (Sub16(h.win, cs.win) != 0) && c.newA == (Sub32(h.ack, cs.ack) != 0)
             && c.newS == (Sub32(h.sn, cs.sn) != 0)
    requires Sub32(h.ack, cs.ack) <= 0xffff && Sub32(h.sn, cs.sn) <= 0xffff
    requires At(b, i, Part(c.newU, h.urp) + (Part(c.newW, Sub16(h.win, cs.win))
                      + (Part(c.newA, Sub32(h.ack, cs.ack)) + (Part(c.newS, Sub32(h.sn, cs.sn)) + rest))))
    ensures var (r, j) := RebuildTcp(x, c, b, i);
            && r == Rebuilt(cs, h, c).(id := cs.id) && At(b, j, rest)
            && j == i + |Part(c.newU, h.urp)| + |Part(c.newW, Sub16(h.win, cs.win))|
                      + |Part(c.newA, Sub32(h.ack, cs.ack))| + |Part(c.newS, Sub32(h.sn, cs.sn))|
  {
    var dW, dA, dS := Sub16(h.win, cs.win), Sub32(h.ack, cs.ack), Sub32(h.sn, cs.sn);
    hide At, Part, Sub16, Sub32, DecodeU, DecodeW, DecodeA, DecodeS;
    RestoreU(x, h, b, i, Part(c.newW, dW) + (Part(c.newA, dA) + (Part(c.newS, dS) + rest)));
    var (h1, i1) := DecodeU(x, c.newU, b, i);
    RestoreW(h1, h.win, b, i1, Part(c.newA, dA) + (Part(c.newS, dS) + rest));
    var (h2, i2) := DecodeW(h1, c.newW, b, i1);
    RestoreA(h2, h.ack, b, i2, Part(c.newS, dS) + rest);
    var (h3, i3) := DecodeA(h2, c.newA, b, i2);
    RestoreS(h3, h.sn, b, i3, rest);
  }

  /** The same with one of the two special encodings. */
  lemma RestoreSpecial(cs: Header, x: Header, h: Header, c: Changes, b: seq<Byte>, i: nat)
    requires SameConnection(cs, h) && x == Saved(cs, h)
    requires i + 15 <= |b| && Special(c) && !h.flags.urg && h.urp == cs.urp && h.win == cs.win
    requires Sub32(h.sn, cs.sn) == Sub32(cs.len, HeaderLen(h))
    requires if SpecialI(c) then Sub32(h.ack, cs.ack) == Sub32(h.sn, cs.sn) else h.ack == cs.ack
    ensures RebuildTcp(x, c, b, i) == (Rebuilt(cs, h, c).(id := cs.id), i)
  {
    assert HeaderLen(x) == HeaderLen(cs) == HeaderLen(h);
    SpecialSum(cs.sn, h.sn, cs.len, HeaderLen(h));
    if SpecialI(c) {
      SpecialSum(cs.ack, h.ack, cs.len, HeaderLen(h));
    }
  }

  lemma SubZero(a: Word, b: Word, x: Long, y: Long)
    ensures Sub16(a, b) == 0 ==> a == b
    ensures Sub32(x, y) == 0 ==> x == y
  {
  }

  /** Decoding the change of the IP id. */
  lemma RestoreId(cs: Header, x: Header, h: Header, c: Changes, b: seq<Byte>, j: nat)
    requires x.id == cs.id && c.newI == (h.id - cs.id != 1) && At(b, j, Part(c.newI, Sub16(h.id, cs.id)))
             && j + 3 <= |b|
    ensures c.newI ==> ReadNumber(b, j) == (Sub16(h.id, cs.id), j + |Part(c.newI, Sub16(h.id, cs.id))|)
    ensures !c.newI ==> Part(c.newI, Sub16(h.id, cs.id)) == []
    ensures Add16(x.id, if c.newI then Sub16(h.id, cs.id) else 1) == h.id
  {
    assert Part(c.newI, Sub16(h.id, cs.id)) + [] == Part(c.newI, Sub16(h.id, cs.id));
    ReadPart(b, j, c.newI, Sub16(h.id, cs.id), []);
    SubAdd16(h.id, cs.id);
  }

  lemma ReadChecksum(b: seq<Byte>, i: nat, tsum: Word, rest: seq<Byte>)
    requires At(b, i, B16(tsum) + rest)
    ensures W16(b, i) == tsum && At(b, i + 2, rest)
  {
    AtSplit(b, i, B16(tsum), rest);
    var s := B16(tsum);
    assert forall j :: 0 <= j < 2 ==> b[i + j] == b[i..i + 2][j] == s[j];
  }

  /** What the comparison found, whichever encoding it chose. */
  lemma CompareCommon(cs: Header, h: Header)
    requires Compare(cs, h).Delta?
    ensures var c := Compare(cs, h).changes;
            && SameShape(cs, h) && (!h.flags.urg ==> h.urp == cs.urp)
            && Sub32(h.ack, cs.ack) <= 0xffff && Sub32(h.sn, cs.sn) <= 0xffff
            && !c.newC && c.newI == (h.id - cs.id != 1) && c.push == h.flags.push
  {
    hide Sub16, Sub32, Number, Part, Numbers;
  }

  lemma NumbersShort(cs: Header, h: Header)
    requires Compare(cs, h).Delta?
    ensures |Compare(cs, h).numbers| <= 15
  {
    hide Sub16, Sub32, HeaderLen;
  }

  /** A special encoding stands for changes that equal the amount of data in the last packet. */
  lemma CompareSpecial(cs: Header, h: Header)
    requires Compare(cs, h).Delta? && Special(Compare(cs, h).changes)
    ensures var d := Compare(cs, h);
            && d.numbers == Part(d.changes.newI, Sub16(h.id, cs.id)) && !h.flags.urg && h.win == cs.win
            && Sub32(h.sn, cs.sn) == Sub32(cs.len, HeaderLen(h))
            && (if SpecialI(d.changes) then Sub32(h.ack, cs.ack) == Sub32(h.sn, cs.sn) else h.ack == cs.ack)
  {
    SubZero(h.win, cs.win, h.ack, cs.ack);
    hide Sub16, Sub32, Number, Part, Numbers;
  }

  lemma ComparePlain(cs: Header, h: Header)
    requires Compare(cs, h).Delta? && !Special(Compare(cs, h).changes)
    ensures Sub32(h.ack, cs.ack) <= 0xffff && Sub32(h.sn, cs.sn) <= 0xffff
    ensures var d := Compare(cs, h);
            && d.changes.newU == h.flags.urg && d.changes.newW == (Sub16(h.win, cs.win) != 0)
            && d.changes.newA == (Sub32(h.ack, cs.ack) != 0) && d.changes.newS == (Sub32(h.sn, cs.sn) != 0)
            && d.numbers == Numbers(cs, h, Part(d.changes.newI, Sub16(h.id, cs.id)))
  {
    hide Sub16, Sub32, Number, Part, Numbers;
  }

  // ----- when a header goes out as a difference, and which

  /** The number of octets of data behind a header of this length, modulo 2^32. */
  function DataLen(h: Header): Long { (h.len - 4 * (h.vhl % 16 + h.offx2 / 16)) % 0x1_0000_0000 }

  /**
   The two headers can be told apart by a difference: they agree in all that is not expected to change; the urgent
   pointer changes only with URG set; acknowledgement and sequence number grow by less than 2^16; the changes are not
   those that stand for a special encoding; and there is a change, or this is data behind a packet that had none.
   */
  predicate Encodable(cs: Header, h: Header) {
    && h.vhl == cs.vhl && h.tos == cs.tos && h.off == cs.off && h.ttl == cs.ttl && h.proto == cs.proto
    && h.offx2 / 16 == cs.offx2 / 16 && h.ipopt == cs.ipopt && h.topt == cs.topt
    && (h.flags.urg || h.urp == cs.urp)
    && (h.ack - cs.ack) % 0x1_0000_0000 < 0x1_0000 && (h.sn - cs.sn) % 0x1_0000_0000 < 0x1_0000
    && !(h.sn != cs.sn && h.win != cs.win && h.flags.urg)
    && (h.flags.urg || h.win != cs.win || h.ack != cs.ack || h.sn != cs.sn || (h.len != cs.len && DataLen(cs) == 0))
  }

  /** Sequence number and acknowledgement grow by the data of the last packet: echoed terminal traffic. */
  predicate Echoed(cs: Header, h: Header) {
    && !h.flags.urg && h.win == cs.win && h.sn != cs.sn && h.ack != cs.ack
    && (h.sn - cs.sn) % 0x1_0000_0000 == (h.ack - cs.ack) % 0x1_0000_0000 == DataLen(cs)
  }

  /** The sequence number alone grows by the data of the last packet: data in one direction. */
  predicate OneWay(cs: Header, h: Header) {
    && !h.flags.urg && h.win == cs.win && h.sn != cs.sn && h.ack == cs.ack
    && (h.sn - cs.sn) % 0x1_0000_0000 == DataLen(cs)
  }

  lemma Changed(a: Word, b: Word, x: Long, y: Long)
    ensures Sub16(a, b) != 0 <==> a != b
    ensures Sub32(x, y) != 0 <==> x != y
  {
  }

  /** A header goes out as a difference exactly if it can be told apart by one. */
  lemma CompareIff(cs: Header, h: Header)
    ensures Compare(cs, h).Delta? <==> Encodable(cs, h)
  {
    Changed(h.win, cs.win, h.ack, cs.ack);
    Changed(h.win, cs.win, h.sn, cs.sn);
    Dataless(cs, h);
    hide Sub16, Part, Numbers, DataLen, HeaderLen;
  }

  lemma Dataless(cs: Header, h: Header)
    ensures h.vhl == cs.vhl && h.offx2 / 16 == cs.offx2 / 16
            ==> (DataLen(cs) == 0 <==> cs.len == HeaderLen(h)) && DataLen(cs) == Sub32(cs.len, HeaderLen(h))
  {
  }

  /** Which changes are announced: one of the two special encodings exactly where it applies, otherwise what changed. */
  lemma ChangesIff(cs: Header, h: Header)
    requires Compare(cs, h).Delta?
    ensures var c := Compare(cs, h).changes;
            && !c.newC && (c.newI <==> h.id != cs.id + 1) && (c.push <==> h.flags.push)
            && (c.newS <==> h.sn != cs.sn)
            && (c.newA <==> if Echoed(cs, h) then false else h.ack != cs.ack || OneWay(cs, h))
            && (c.newW <==> h.win != cs.win || Echoed(cs, h) || OneWay(cs, h))
            && (c.newU <==> h.flags.urg || Echoed(cs, h) || OneWay(cs, h))
            && (SpecialI(c) <==> Echoed(cs, h)) && (SpecialD(c) <==> OneWay(cs, h))
  {
    Changed(h.win, cs.win, h.ack, cs.ack);
    Changed(h.win, cs.win, h.sn, cs.sn);
    Dataless(cs, h);
    hide Sub16, Part, Numbers, DataLen, HeaderLen;
  }

  /** The number that three bits are, the most significant one first. */
  function ThreeBits(a: bool, b: bool, c: bool): nat {
    (if a then 4 else 0) + (if b then 2 else 0) + if c then 1 else 0
  }

  /** The octet of changes: connection number 0x40, IP id 0x20, push 0x10, then 0x08, 0x04, 0x02 and 0x01. */
  lemma ChangesValue(c: Changes)
    ensures ChangesByte(c)
            == (if c.newC then 64 else 0) + 8 * ThreeBits(c.newI, c.push, c.newS) + ThreeBits(c.newA, c.newW, c.newU)
  {
    hide Push, ThreeBits;
    var x := Push(Push(Push(Bit(c.newC), c.newI), c.push), c.newS);
    ThreePushed(Bit(c.newC), c.newI, c.push, c.newS);
    ThreePushed(x, c.newA, c.newW, c.newU);
  }

  lemma ThreePushed(x: nat, a: bool, b: bool, c: bool)
    ensures Push(Push(Push(x, a), b), c) == 8 * x + ThreeBits(a, b, c)
  {
  }

  /** A number on the line: itself if it fits an octet and is not zero, otherwise zero and two octets. */
  lemma NumberValue(n: Word)
    ensures 1 <= n <= 255 ==> Number(n) == [n]
    ensures n == 0 || n > 255
            ==> |Number(n)| == 3 && Number(n)[0] == 0 && 256 * (Number(n)[1] as int) + Number(n)[2] == n
  {
  }

  /** The numbers behind the TCP checksum, in the order in which they are sent. */
  lemma NumbersInOrder(cs: Header, h: Header)
    requires Compare(cs, h).Delta?
    ensures var d := Compare(cs, h);
            var id := if h.id == cs.id + 1 then [] else Number((h.id - cs.id) % 0x1_0000);
            && (h.ack - cs.ack) % 0x1_0000_0000 < 0x1_0000 && (h.sn - cs.sn) % 0x1_0000_0000 < 0x1_0000
            && d.numbers
               == if Echoed(cs, h) || OneWay(cs, h) then id
                  else
                    (if h.flags.urg then Number(h.urp) else [])
                    + (if h.win == cs.win then [] else Number((h.win - cs.win) % 0x1_0000))
                    + (if h.ack == cs.ack then [] else Number((h.ack - cs.ack) % 0x1_0000_0000))
                    + (if h.sn == cs.sn then [] else Number((h.sn - cs.sn) % 0x1_0000_0000)) + id
  {
    CompareIff(cs, h);
    ChangesIff(cs, h);
    Changed(h.win, cs.win, h.ack, cs.ack);
    Changed(h.win, cs.win, h.sn, cs.sn);
    if Special(Compare(cs, h).changes) {
      CompareSpecial(cs, h);
      hide Compare, Number, Echoed, OneWay;
    } else {
      ComparePlain(cs, h);
      hide Compare, Number, Echoed, OneWay;
      var u, w := Part(h.flags.urg, h.urp), Part(h.win != cs.win, Sub16(h.win, cs.win));
      var a, s := Part(h.ack != cs.ack, Sub32(h.ack, cs.ack)), Part(h.sn != cs.sn, Sub32(h.sn, cs.sn));
      FiveInOrder(u, w, a, s, Part(h.id - cs.id != 1, Sub16(h.id, cs.id)));
    }
  }

  lemma FiveInOrder(u: seq<Byte>, w: seq<Byte>, a: seq<Byte>, s: seq<Byte>, i: seq<Byte>)
    ensures u + (w + (a + (s + i))) == u + w + a + s + i
  {
  }

  /** The changes with the connection id flag filled in. */
  function WithC(c: Changes, newC: bool): Changes { c.(newC := newC) }

  /** The receiver's saved header once the TCP checksum and the push bit are in. */
  function Saved(cs: Header, h: Header): Header {
    cs.(sum := 0, tsum := h.tsum, flags := cs.flags.(push := h.flags.push))
  }

  lemma RebuildStart(cs: Header, h: Header, c: Changes, b: seq<Byte>, i: nat, rest: seq<Byte>)
    requires At(b, i, B16(h.tsum) + rest) && i + 17 <= |b| && c.push == h.flags.push
    ensures Rebuild(cs.(sum := 0), c, b, i) == RebuildFrom(Saved(cs, h), c, b, i + 2) && At(b, i + 2, rest)
  {
    ReadChecksum(b, i, h.tsum, rest);
    hide RebuildFrom, W16, At;
  }

  lemma RebuildSpecial(cs: Header, h: Header, d: Delta, c: Changes, b: seq<Byte>, i: nat)
    requires SameConnection(cs, h) && d == Compare(cs, h) && d.Delta? && Special(d.changes)
             && c == WithC(d.changes, c.newC)
    requires i + 15 <= |b| && At(b, i, d.numbers)
    ensures RebuildFrom(Saved(cs, h), c, b, i) == (Rebuilt(cs, h, d.changes), i + |d.numbers|)
  {
    CompareCommon(cs, h);
    CompareSpecial(cs, h);
    hide Compare, At, Sub16, Sub32, Add16, Number, RebuildTcp, ReadNumber;
    RestoreSpecial(cs, Saved(cs, h), h, c, b, i);
    RestoreId(cs, Rebuilt(cs, h, c).(id := cs.id), h, c, b, i);
  }

  lemma RebuildPlain(cs: Header, h: Header, d: Delta, c: Changes, b: seq<Byte>, i: nat)
    requires SameConnection(cs, h) && d == Compare(cs, h) && d.Delta? && !Special(d.changes)
             && c == WithC(d.changes, c.newC)
    requires i + 15 <= |b| && At(b, i, d.numbers)
    ensures RebuildFrom(Saved(cs, h), c, b, i) == (Rebuilt(cs, h, d.changes), i + |d.numbers|)
  {
    hide Compare, At, Sub16, Sub32, Add16, Number, RebuildTcp, Part, ReadNumber, SameShape, AckOnly,
         SameConnection, Saved;
    CompareCommon(cs, h);
    ComparePlain(cs, h);
    var id := Part(c.newI, Sub16(h.id, cs.id));
    NumbersLength(cs, h, id);
    RestoreTcp(cs, Saved(cs, h), h, c, b, i, id);
    var (r, j) := RebuildTcp(Saved(cs, h), c, b, i);
    RestoreId(cs, r, h, c, b, j);
  }

  lemma NumbersLength(cs: Header, h: Header, rest: seq<Byte>)
    requires Sub32(h.ack, cs.ack) <= 0xffff && Sub32(h.sn, cs.sn) <= 0xffff
    ensures |Numbers(cs, h, rest)|
         == |Part(h.flags.urg, h.urp)| + |Part(Sub16(h.win, cs.win) != 0, Sub16(h.win, cs.win))|
            + |Part(Sub32(h.ack, cs.ack) != 0, Sub32(h.ack, cs.ack))|
            + |Part(Sub32(h.sn, cs.sn) != 0, Sub32(h.sn, cs.sn))| + |rest|
  {
    hide Part, Sub16, Sub32;
  }

  /** Decoding an encoded header against the same saved header, wherever it lies in the buffer. */
  lemma RebuildInverts(cs: Header, h: Header, d: Delta, c: Changes, b: seq<Byte>, i: nat)
    requires SameConnection(cs, h) && d == Compare(cs, h) && d.Delta? && c == WithC(d.changes, c.newC)
    requires i + 17 <= |b| && At(b, i, B16(h.tsum) + d.numbers)
    ensures Rebuild(cs.(sum := 0), c, b, i) == (Rebuilt(cs, h, d.changes), i + 2 + |d.numbers|)
  {
    hide Compare, At, Rebuild, RebuildFrom, Rebuilt, SameShape, AckOnly, SameConnection, Special, Saved, Sub16,
         Sub32, B16;
    CompareCommon(cs, h);
    RebuildStart(cs, h, c, b, i, d.numbers);
    if Special(d.changes) {
      RebuildSpecial(cs, h, d, c, b, i + 2);
    } else {
      RebuildPlain(cs, h, d, c, b, i + 2);
    }
  }
}
