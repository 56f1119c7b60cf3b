/**
 A compressed serial line from end to end: packet types in the first octet, frames, and what the receiver makes of them.
 */
module SlipLine {
  import opened Prelude
  import opened Bytes
  import opened VjHeader
  import opened VjDelta
  import opened VjProtocol
  import opened VjChoice
  import opened SlipFrame

  // ----- the type of a packet travels in its first octet

  /** The octet with the bits 0x40, 0x70 or 0x80 set. */
  function WithType(x: Byte, kind: Kind): Byte {
    match kind
    case Ip => x / 128 * 128 + 0x40 + x % 64
    case UncompressedTcp => x / 128 * 128 + 0x70 + x % 16
    case CompressedTcp => 0x80 + x % 128
    case Unknown => x
  }

  function KindOf(x: Byte): Kind {
    if x / 16 == 4 then Ip
    else if x >= 0x80 then CompressedTcp
    else if x / 16 == 7 then UncompressedTcp
    else Unknown
  }

  /** The types on the line, by the first octet. */
  lemma TypeValues(x: Byte)
    ensures (KindOf(x) == Ip <==> 0x40 <= x < 0x50) && (KindOf(x) == UncompressedTcp <==> 0x70 <= x < 0x80)
    ensures (KindOf(x) == CompressedTcp <==> 0x80 <= x) && WithType(x, CompressedTcp) == 0x80 + x % 0x80
    ensures 0x40 <= x < 0x50 ==> WithType(x, UncompressedTcp) == x + 0x30 && WithType(x, Ip) == x
  {
  }

  /** The receive buffer with the type taken out of the first octet: an uncompressed packet gets its IP version back. */
  function Untyped(buf: Packet): Packet
    requires buf != []
  {
    if KindOf(buf[0]) == UncompressedTcp then buf[0 := 0x40 + buf[0] % 16] else buf
  }

  // ----- sending

  /** What the sender relies on: nothing, unless it compresses. */
  predicate MaySend(compress: bool, p: Packet) {
    compress ==> |p| >= 20 && (p[9] == IPPROTO_TCP ==> Sendable(p))
  }

  lemma CompressedLength(tx: Sender, p: Packet)
    requires ValidSender(tx) && Sendable(p)
    ensures 3 <= |Compress(tx, p, true).2| <= |p|
    ensures Compress(tx, p, true).1 != CompressedTcp ==> |Compress(tx, p, true).2| == |p|
  {
    hide Place, ToFront, Parse, HasHeader, ChangesByte, Compare;
    var (_, kind, w) := Compress(tx, p, true);
    if kind == CompressedTcp {
      CompressedForm(tx, p, true);
      EncodeParse(p);
      var h := Parse(p);
      NumbersShort(tx.slots[SlotFor(tx, h)].value, h);
    }
  }

  /** TCP packets are compressed if the interface is set to; anything else goes out as it is. */
  function LineSend(tx: Sender, compress: bool, p: Packet): (Sender, Packet)
    requires ValidSender(tx) && MaySend(compress, p)
  {
    if compress && p[9] == IPPROTO_TCP then
      CompressedLength(tx, p);
      var (tx', kind, w) := Compress(tx, p, true);
      (tx', w[0 := WithType(w[0], kind)])
    else (tx, p)
  }

  /**
   What goes out: with compression on, a TCP packet is sent compressed exactly if the compressor can, with bit 0x80 of
   its first octet set, and otherwise if it is eligible with its headers and type 0x70. All else goes out as it is.
   */
  lemma SentForm(tx: Sender, compress: bool, p: Packet)
    requires ValidSender(tx) && MaySend(compress, p) && p != [] && 0x40 <= p[0] < 0x50
    ensures var (tx', w) := LineSend(tx, compress, p);
            if !(compress && p[9] == 6) then w == p && tx' == tx
            else
              && w != [] && Sendable(p)
              && (w[0] >= 0x80 <==> Eligible(p) && HasHeader(p) && exists i :: KnownEncodable(tx, Parse(p), i))
              && (0x70 <= w[0] < 0x80 <==> Eligible(p) && w[0] < 0x80)
              && (!Eligible(p) ==> w == p)
              && (0x70 <= w[0] < 0x80 ==> |w| == |p| && w[1..9] == p[1..9] && w[10..] == p[10..])
  {
    if compress && p[9] == 6 {
      FormIff(tx, p, true);
      CompressedLength(tx, p);
      var (tx', kind, w) := Compress(tx, p, true);
      TypeValues(p[0]);
      hide KnownEncodable, Eligible, Parse, HasHeader, Compress, ValidSender, Sendable;
      FormOf(tx, p);
      if kind != Ip {
        TypeValues(w[0]);
      }
    }
  }

  lemma FormOf(tx: Sender, p: Packet)
    requires ValidSender(tx) && Sendable(p)
    ensures var (tx', kind, w) := Compress(tx, p, true);
            && (kind == Ip ==> w == p)
            && (kind == UncompressedTcp ==> |w| == |p| && |p| >= 40 && w[..9] == p[..9] && w[10..] == p[10..])
  {
    hide Squeezed, Parse, Place, ToFront, HasHeader;
  }

  // ----- receiving

  /** The receiving side of the interface above the frames. */
  datatype Receiving = Receiving(vj: Receiver, compress: bool, autocomp: bool)

  /** Decompression is enabled, or the packet itself may enable it. */
  predicate Decompresses(r: Receiving, kind: Kind, len: nat) {
    r.compress || (r.autocomp && kind == UncompressedTcp && len >= 40)
  }

  /** What the decompressor relies on holds of a frame of `len` octets at the front of the buffer. */
  ghost predicate Acceptable(r: Receiving, buf: Packet, len: nat) {
    && |buf| == SLMAX && MIN_PACKET <= len <= SLMAX && ValidReceiver(r.vj)
    && var kind := KindOf(buf[0]);
       (kind != Ip && Decompresses(r, kind, len) ==> Receivable(r.vj, kind, Untyped(buf), len))
  }

  ghost function Accept(r: Receiving, buf: Packet, len: nat): (Receiving, Option<Packet>)
    requires Acceptable(r, buf, len)
  {
    var kind := KindOf(buf[0]);
    if kind == Ip then (r, Some(buf[..len]))
    else if !Decompresses(r, kind, len) then (r, None)
    else
      var (vj, out) := Uncompress(r.vj, kind, Untyped(buf), len);
      (Receiving(vj, r.compress || out.Some?, r.autocomp), out)
  }

  /**
   A frame by its first octet: an IP packet is handed up as it is. Any other goes to the decompressor if that is on, or
   if it may be turned on and this is a packet of 40 octets or more with its headers; it is on from the first packet
   restored. Otherwise the frame is dropped.
   */
  lemma AcceptCases(r: Receiving, buf: Packet, len: nat)
    requires Acceptable(r, buf, len)
    ensures var (r', out) := Accept(r, buf, len);
            && r'.autocomp == r.autocomp
            && (0x40 <= buf[0] < 0x50 ==> r' == r && out == Some(buf[..len]))
            && (!(0x40 <= buf[0] < 0x50) ==>
                  if r.compress || (r.autocomp && 0x70 <= buf[0] < 0x80 && len >= 40)
                  then r'.compress == (r.compress || out.Some?)
                  else r' == r && out == None)
  {
    hide Uncompress, Receivable, ValidReceiver;
    TypeValues(buf[0]);
  }

  /** What becomes of a frame: one the decompressor is not prepared for is dropped. */
  ghost function Dealt(r: Receiving, buf: Packet, len: nat): (Receiving, Option<Packet>) {
    if Acceptable(r, buf, len) then Accept(r, buf, len) else (r, None)
  }

  // ----- the decompressor does not see the type bit

  lemma TypeBitIgnored(x: Byte)
    requires x < 128
    ensures ToChanges(x + 128) == ToChanges(x)
  {
    hide Low;
    var x1 := x / 2;
    var x2 := x1 / 2;
    var x3 := x2 / 2;
    ChangesHigh(x3);
    assert (x + 128) / 2 == x1 + 64 && Low(x + 128) == Low(x) by { HalfShifted(x, 64); }
    assert (x1 + 64) / 2 == x2 + 32 && Low(x1 + 64) == Low(x1) by { HalfShifted(x1, 32); }
    assert (x2 + 32) / 2 == x3 + 16 && Low(x2 + 32) == Low(x2) by { HalfShifted(x2, 16); }
  }

  lemma ChangesHigh(x3: nat)
    ensures var x4 := x3 / 2;
            var x5 := x4 / 2;
            var y3 := x3 + 16;
            var y4 := y3 / 2;
            var y5 := y4 / 2;
            Low(y3) == Low(x3) && Low(y4) == Low(x4) && Low(y5) == Low(x5) && Low(y5 / 2) == Low(x5 / 2)
  {
    var x4 := x3 / 2;
    var x5 := x4 / 2;
    HalfShifted(x3, 8);
    HalfShifted(x4, 4);
    HalfShifted(x5, 2);
    HalfShifted(x5 / 2, 1);
    hide Low;
  }

  lemma HalfShifted(x: nat, k: nat)
    ensures (x + 2 * k) / 2 == x / 2 + k && Low(x + 2 * k) == Low(x)
  {
  }

  /** Two buffers that differ in the first octet only. */
  predicate SameRest(b: Packet, b': Packet) {
    |b| == |b'| && forall i :: 1 <= i < |b| ==> b[i] == b'[i]
  }

  lemma NumberSame(b: Packet, b': Packet, i: nat)
    requires SameRest(b, b') && 1 <= i && i + 3 <= |b|
    ensures ReadNumber(b, i) == ReadNumber(b', i) && W16(b, i) == W16(b', i)
  {
  }

  lemma TcpSame(h: Header, c: Changes, b: Packet, b': Packet, i: nat)
    requires SameRest(b, b') && 1 <= i && i + 15 <= |b|
    ensures RebuildTcp(h, c, b, i) == RebuildTcp(h, c, b', i)
  {
    hide ReadNumber, Add16, Add32, HeaderLen, SameRest;
    if !SpecialI(c) && !SpecialD(c) {
      NumberSame(b, b', i);
      var (h1, i1) := DecodeU(h, c.newU, b, i);
      NumberSame(b, b', i1);
      var (h2, i2) := DecodeW(h1, c.newW, b, i1);
      NumberSame(b, b', i2);
      var (h3, i3) := DecodeA(h2, c.newA, b, i2);
      NumberSame(b, b', i3);
    }
  }

  lemma RebuildSame(cs: Header, c: Changes, b: Packet, b': Packet, i: nat)
    requires SameRest(b, b') && 1 <= i && i + 17 <= |b|
    ensures Rebuild(cs, c, b, i) == Rebuild(cs, c, b', i)
  {
    hide ReadNumber, RebuildTcp, Add16, W16, SameRest;
    NumberSame(b, b', i);
    var h := cs.(tsum := W16(b, i), flags := cs.flags.(push := c.push));
    TcpSame(h, c, b, b', i + 2);
    var (h1, j) := RebuildTcp(h, c, b, i + 2);
    NumberSame(b, b', j);
  }

  lemma UncompressSame(rx: Receiver, b: Packet, b': Packet, len: nat)
    requires ValidReceiver(rx) && Receivable(rx, CompressedTcp, b, len) && SameRest(b, b')
             && ToChanges(b[0]) == ToChanges(b'[0])
    ensures Receivable(rx, CompressedTcp, b', len)
    ensures Uncompress(rx, CompressedTcp, b', len) == Uncompress(rx, CompressedTcp, b, len)
  {
    hide Rebuild, Assembled, ToChanges, HeaderLen;
    var c := ToChanges(b[0]);
    assert Refers(rx, b) == Refers(rx, b');
    if Refers(rx, b).Some? {
      var i := if c.newC then 2 else 1;
      var n := Refers(rx, b).value;
      RebuildSame(rx.slots[n].value, c, b, b', i);
      var (h, j) := Rebuild(rx.slots[n].value, c, b, i);
      if j <= len {
        assert b[j..len] == b'[j..len];
      }
    }
  }

  // ----- both ends of the line

  /**
   The two ends are in step, and the receiver decompresses, or will once the first packet for the decompressor enables
   it.
   */
  ghost predicate Linked(tx: Sender, r: Receiving) {
    && InStep(tx, r.vj) && RegularSlots(tx)
    && (r.compress || (r.autocomp && forall i :: 0 <= i < |tx.slots| ==> tx.slots[i].None?))
  }

  /** As they are set up, the ends are linked exactly if the receiver decompresses or may enable it. */
  lemma InitiallyLinked(compress: bool, autocomp: bool)
    ensures Linked(InitialSender(), Receiving(InitialReceiver(), compress, autocomp)) <==> compress || autocomp
  {
    InitialInStep();
    hide InStep, RegularSlots;
  }

  predicate LinePacket(p: Packet) {
    20 <= |p| <= SLMAX && p[0] / 16 == 4 && (p[9] == IPPROTO_TCP ==> Conformant(p))
  }

  /** One packet, with anything left over in the rest of the receive buffer. */
  lemma LineStep(tx: Sender, r: Receiving, compress: bool, p: Packet, tail: Packet)
    requires Linked(tx, r) && LinePacket(p) && MaySend(compress, p) && |LineSend(tx, compress, p).1 + tail| == SLMAX
    ensures var (tx', w) := LineSend(tx, compress, p);
            var buf := w + tail;
            && Fits(w) && Acceptable(r, buf, |w|)
            && Accept(r, buf, |w|).1 == Some(p) && Linked(tx', Accept(r, buf, |w|).0)
  {
    hide InStep, RegularSlots, Conformant, Compress, Uncompress, Receivable, Sendable, ValidSender, ValidReceiver,
         Restorable;
    LinkedParts(tx, r);
    var (tx', w) := LineSend(tx, compress, p);
    if compress && p[9] == IPPROTO_TCP {
      ConformantSendable(p);
      CompressedLength(tx, p);
      match Compress(tx, p, true).1
      case Ip => IpLine(tx, r, p, tail);
      case UncompressedTcp => UncompressedLine(tx, r, p, tail);
      case CompressedTcp => CompressedLine(tx, r, p, tail);
    } else {
      assert (w + tail)[..|w|] == w;
    }
  }

  lemma LinkedParts(tx: Sender, r: Receiving)
    requires Linked(tx, r)
    ensures ValidSender(tx) && ValidReceiver(r.vj)
  {
  }

  lemma IpLine(tx: Sender, r: Receiving, p: Packet, tail: Packet)
    requires Linked(tx, r) && LinePacket(p) && p[9] == IPPROTO_TCP && Compress(tx, p, true).1 == Ip
             && |p + tail| == SLMAX
    ensures Compress(tx, p, true) == (tx, Ip, p) && p[0 := WithType(p[0], Ip)] == p
    ensures Acceptable(r, p + tail, |p|) && Accept(r, p + tail, |p|) == (r, Some(p))
  {
    hide InStep, RegularSlots, Conformant, Uncompress, Receivable, ValidSender, ValidReceiver, Place, Squeezed,
         Parse, HasHeader;
    LinkedParts(tx, r);
    ConformantSendable(p);
    assert (p + tail)[..|p|] == p;
  }

  lemma UncompressedLine(tx: Sender, r: Receiving, p: Packet, tail: Packet)
    requires Linked(tx, r) && LinePacket(p) && p[9] == IPPROTO_TCP && Compress(tx, p, true).1 == UncompressedTcp
    requires |p + tail| == SLMAX
    ensures var (tx', _, w0) := Compress(tx, p, true);
            && |w0| == |p|
            && var w := w0[0 := WithType(w0[0], UncompressedTcp)];
               && Acceptable(r, w + tail, |w|)
               && Accept(r, w + tail, |w|).1 == Some(p) && Linked(tx', Accept(r, w + tail, |w|).0)
  {
    hide Place, Squeezed, Parse, HasHeader, InStep, RegularSlots, Conformant, Uncompress, Receivable, ValidSender,
         ValidReceiver;
    LinkedParts(tx, r);
    ConformantSendable(p);
    var (tx', _, w0) := Compress(tx, p, true);
    var w := w0[0 := WithType(w0[0], UncompressedTcp)];
    assert w0[0] == p[0] && |w0| == |p| >= 40;
    hide Compress;
    assert Untyped(w + tail) == w0 + tail;
    assert (w0 + tail)[..|w0|] == w0;
    UncompressedStep(tx, r.vj, p, true, w0 + tail);
    ConformantRestorable(tx, p, true);
    StepParts(tx', Uncompress(r.vj, UncompressedTcp, w0 + tail, |w0|).0);
  }

  /** A compressed packet is one of a connection that was filed before. */
  lemma FiledBefore(tx: Sender, p: Packet)
    requires ValidSender(tx) && Sendable(p) && Compress(tx, p, true).1 == CompressedTcp
    ensures exists i :: 0 <= i < |tx.slots| && tx.slots[i].Some?
  {
    CompressedForm(tx, p, true);
    hide Parse, HasHeader, Compress, Squeezed, ToFront;
    var n := SlotFor(tx, Parse(p));
    assert tx.slots[n].Some?;
  }

  lemma FirstOctet(tx: Sender, p: Packet)
    requires ValidSender(tx) && Sendable(p) && Compress(tx, p, true).1 == CompressedTcp
    ensures Compress(tx, p, true).2 != [] && Compress(tx, p, true).2[0] < 128
  {
    CompressedForm(tx, p, true);
    hide Parse, HasHeader, Compress, ToFront, ChangesByte;
    var h := Parse(p);
    var n := SlotFor(tx, h);
    var d := Difference(tx.slots[n], h);
    ChangesRoundTrip(WithC(d.changes, tx.last != n));
  }

  lemma CompressedLine(tx: Sender, r: Receiving, p: Packet, tail: Packet)
    requires Linked(tx, r) && LinePacket(p) && p[9] == IPPROTO_TCP && Sendable(p)
             && Compress(tx, p, true).1 == CompressedTcp
    requires |Compress(tx, p, true).2 + tail| == SLMAX && 3 <= |Compress(tx, p, true).2|
    ensures var (tx', _, w0) := Compress(tx, p, true);
            var w := w0[0 := WithType(w0[0], CompressedTcp)];
            && Acceptable(r, w + tail, |w|)
            && Accept(r, w + tail, |w|).1 == Some(p) && Linked(tx', Accept(r, w + tail, |w|).0)
  {
    hide Place, Squeezed, Parse, HasHeader, InStep, RegularSlots, Conformant, Uncompress, Receivable, ValidSender,
         ValidReceiver, Compress, ToChanges, Restorable, Sendable;
    LinkedParts(tx, r);
    FiledBefore(tx, p);
    FirstOctet(tx, p);
    var (tx', _, w0) := Compress(tx, p, true);
    var w := w0[0 := WithType(w0[0], CompressedTcp)];
    TypeBitIgnored(w0[0]);
    var buf0, buf := w0 + tail, w + tail;
    assert buf0[..|w0|] == w0;
    ConformantRestorable(tx, p, true);
    Step(tx, r.vj, p, true, buf0);
    UncompressSame(r.vj, buf0, buf, |w|);
  }

  // ----- whole runs

  predicate LinePackets(ps: seq<Packet>) {
    forall i :: 0 <= i < |ps| ==> LinePacket(ps[i])
  }

  predicate MaySendAll(compress: bool, ps: seq<Packet>) {
    forall i :: 0 <= i < |ps| ==> MaySend(compress, ps[i])
  }

  lemma PacketsMayBeSent(compress: bool, ps: seq<Packet>)
    requires LinePackets(ps)
    ensures MaySendAll(compress, ps)
  {
    forall i | 0 <= i < |ps| ensures MaySend(compress, ps[i]) {
      LinePacketMayBeSent(compress, ps[i]);
    }
  }

  lemma LinePacketMayBeSent(compress: bool, p: Packet)
    requires LinePacket(p)
    ensures MaySend(compress, p)
  {
    hide Sendable;
    if p[9] == IPPROTO_TCP {
      ConformantSendable(p);
    }
  }

  /** What the sender puts into frames for a list of packets. */
  ghost function SendAll(tx: Sender, compress: bool, ps: seq<Packet>): (r: (Sender, seq<Packet>))
    requires ValidSender(tx) && MaySendAll(compress, ps)
    ensures ValidSender(r.0) && |r.1| == |ps|
    decreases |ps|
  {
    if ps == [] then (tx, [])
    else
      hide ValidSender, MaySend, LineSend;
      var (tx1, ws) := SendAll(tx, compress, ps[..|ps| - 1]);
      var p := ps[|ps| - 1];
      LineSendValid(tx1, compress, p);
      var (tx2, w) := LineSend(tx1, compress, p);
      (tx2, ws + [w])
  }

  lemma LineSendValid(tx: Sender, compress: bool, p: Packet)
    requires ValidSender(tx) && MaySend(compress, p)
    ensures ValidSender(LineSend(tx, compress, p).0)
  {
    hide ValidSender, Compress, Sendable;
    if compress && p[9] == IPPROTO_TCP {
      SenderStaysValid(tx, p, true);
    }
  }

  /** A frame was dealt with as the specification says; what the rest of the buffer held is unknown. */
  ghost predicate Handles(r: Receiving, f: Packet, r': Receiving, out: Option<Packet>) {
    exists tail: Packet :: |f + tail| == SLMAX && (r', out) == Dealt(r, f + tail, |f|)
  }

  /** A list of frames was dealt with one by one, and gave these packets. */
  ghost predicate Follows(r: Receiving, frames: seq<Packet>, outs: seq<Packet>, r': Receiving)
    decreases |frames|
  {
    if frames == [] then outs == [] && r' == r
    else
      var n := |frames| - 1;
      exists r1, out, outs1 ::
        Follows(r, frames[..n], outs1, r1) && Handles(r1, frames[n], r', out) && outs == outs1 + AsList(out)
  }

  /**
   Every list of conformant packets, over any number of connections, with or without compression, is delivered as it is
   and in order, and the ends stay linked.
   */
  lemma {:induction false} AllDelivered(tx: Sender, r: Receiving, compress: bool, ps: seq<Packet>, outs: seq<Packet>,
                                        r': Receiving)
    requires Linked(tx, r) && ValidSender(tx) && LinePackets(ps) && MaySendAll(compress, ps)
    requires Follows(r, SendAll(tx, compress, ps).1, outs, r')
    ensures outs == ps && Linked(SendAll(tx, compress, ps).0, r')
    decreases |ps|
  {
    hide Linked, ValidSender, LinePacket, Handles, SendAll, Follows, LineSend, MaySend;
    if ps == [] {
      NothingSent(tx, r, compress, outs, r');
    } else {
      var n := |ps| - 1;
      var (tx1, ws) := SendAll(tx, compress, ps[..n]);
      SendAllLast(tx, compress, ps);
      var w := LineSend(tx1, compress, ps[n]).1;
      assert SendAll(tx, compress, ps).1 == ws + [w];
      var r1, out, outs1 := FollowsLast(r, ws, w, outs, r');
      AllDelivered(tx, r, compress, ps[..n], outs1, r1);
      HandledStep(tx1, r1, compress, ps[n], r', out);
      assert ps == ps[..n] + [ps[n]];
    }
  }

  lemma NothingSent(tx: Sender, r: Receiving, compress: bool, outs: seq<Packet>, r': Receiving)
    requires ValidSender(tx) && Follows(r, SendAll(tx, compress, []).1, outs, r')
    ensures outs == [] && SendAll(tx, compress, []).0 == tx && r' == r
  {
  }

  lemma SendAllLast(tx: Sender, compress: bool, ps: seq<Packet>)
    requires ValidSender(tx) && MaySendAll(compress, ps) && ps != []
    ensures var (tx1, ws) := SendAll(tx, compress, ps[..|ps| - 1]);
            var p := ps[|ps| - 1];
            SendAll(tx, compress, ps) == (LineSend(tx1, compress, p).0, ws + [LineSend(tx1, compress, p).1])
  {
    hide ValidSender, LineSend, MaySend;
  }

  lemma FollowsLast(r: Receiving, ws: seq<Packet>, w: Packet, outs: seq<Packet>, r': Receiving)
    returns (r1: Receiving, out: Option<Packet>, outs1: seq<Packet>)
    requires Follows(r, ws + [w], outs, r')
    ensures Follows(r, ws, outs1, r1) && Handles(r1, w, r', out) && outs == outs1 + AsList(out)
  {
    hide Handles;
    var frames := ws + [w];
    assert frames[..|frames| - 1] == ws;
    r1, out, outs1 :| Follows(r, ws, outs1, r1) && Handles(r1, w, r', out) && outs == outs1 + AsList(out);
  }

  lemma HandledStep(tx: Sender, r: Receiving, compress: bool, p: Packet, r': Receiving, out: Option<Packet>)
    requires Linked(tx, r) && ValidSender(tx) && LinePacket(p) && MaySend(compress, p)
             && Handles(r, LineSend(tx, compress, p).1, r', out)
    ensures out == Some(p) && Linked(LineSend(tx, compress, p).0, r')
  {
    hide Linked, ValidSender, LinePacket, MaySend, LineSend, Acceptable, Accept;
    var w := LineSend(tx, compress, p).1;
    var tail :| |w + tail| == SLMAX && (r', out) == Dealt(r, w + tail, |w|);
    LineStep(tx, r, compress, p, tail);
  }

  lemma LineFits(tx: Sender, compress: bool, p: Packet)
    requires ValidSender(tx) && LinePacket(p) && MaySend(compress, p)
    ensures Fits(LineSend(tx, compress, p).1)
  {
    hide ValidSender, Conformant, Sendable, Compress;
    if compress && p[9] == IPPROTO_TCP {
      CompressedLength(tx, p);
    }
  }

  lemma {:induction false} SentFits(tx: Sender, compress: bool, ps: seq<Packet>)
    requires ValidSender(tx) && LinePackets(ps) && MaySendAll(compress, ps)
    ensures forall i :: 0 <= i < |ps| ==> Fits(SendAll(tx, compress, ps).1[i])
    decreases |ps|
  {
    hide ValidSender, LinePacket, MaySend, LineSend, SendAll, Fits;
    if ps != [] {
      var n := |ps| - 1;
      SentFits(tx, compress, ps[..n]);
      SendAllLast(tx, compress, ps);
      LineFits(SendAll(tx, compress, ps[..n]).0, compress, ps[n]);
    }
  }

  /** The frames on the wire hold exactly what was sent. */
  lemma WireHolds(tx: Sender, compress: bool, ps: seq<Packet>)
    requires ValidSender(tx) && LinePackets(ps) && MaySendAll(compress, ps)
    ensures var ws := SendAll(tx, compress, ps).1;
            Feed(CLEAN, Octets(Frames(ws))).0 == CLEAN && Feed(CLEAN, Octets(Frames(ws))).1 == ws
  {
    hide Feed, Octets, Frames, ValidSender, SendAll, LinePacket;
    var ws := SendAll(tx, compress, ps).1;
    SentFits(tx, compress, ps);
    FramesDelivered(ws);
    AllFitting(ws);
  }

  // ----- a line that does not compress

  /** The packets that look like IP. */
  function IpOnly(ps: seq<Packet>): seq<Packet> {
    if ps == [] then []
    else
      var p := ps[|ps| - 1];
      IpOnly(ps[..|ps| - 1]) + if p != [] && KindOf(p[0]) == Ip then [p] else []
  }

  predicate LookLikeIp(ps: seq<Packet>) {
    forall i :: 0 <= i < |ps| ==> ps[i] != [] && KindOf(ps[i][0]) == Ip
  }

  lemma {:induction false} AllIp(ps: seq<Packet>)
    requires LookLikeIp(ps)
    ensures IpOnly(ps) == ps
    decreases |ps|
  {
    if ps != [] {
      AllIp(ps[..|ps| - 1]);
      assert ps == ps[..|ps| - 1] + [ps[|ps| - 1]];
    }
  }

  lemma {:induction false} SentAsTheyAre(tx: Sender, ps: seq<Packet>)
    requires ValidSender(tx) && MaySendAll(false, ps)
    ensures SendAll(tx, false, ps) == (tx, ps)
    decreases |ps|
  {
    hide ValidSender;
    if ps != [] {
      SentAsTheyAre(tx, ps[..|ps| - 1]);
      SendAllLast(tx, false, ps);
      assert ps == ps[..|ps| - 1] + [ps[|ps| - 1]];
    }
  }

  /**
   A packet that looks like IP is handed up as it is; any other is dropped if the receiver neither decompresses nor may
   begin to.
   */
  lemma HandledPlain(r: Receiving, f: Packet, r': Receiving, out: Option<Packet>)
    requires Fits(f) && ValidReceiver(r.vj) && Handles(r, f, r', out)
    requires KindOf(f[0]) == Ip || (!r.compress && !r.autocomp)
    ensures r' == r && out == if KindOf(f[0]) == Ip then Some(f) else None
  {
    hide ValidReceiver, Receivable, Uncompress;
    var tail :| |f + tail| == SLMAX && (r', out) == Dealt(r, f + tail, |f|);
    assert (f + tail)[..|f|] == f;
  }

  lemma {:induction false} PlainDelivered(r: Receiving, ps: seq<Packet>, outs: seq<Packet>, r': Receiving)
    requires ValidReceiver(r.vj) && Follows(r, ps, outs, r') && forall i :: 0 <= i < |ps| ==> Fits(ps[i])
    requires (!r.compress && !r.autocomp) || LookLikeIp(ps)
    ensures r' == r && outs == IpOnly(ps)
    decreases |ps|
  {
    hide ValidReceiver, Handles, Follows, KindOf;
    if ps == [] {
      FollowsNothing(r, outs, r');
    } else {
      var n := |ps| - 1;
      assert ps == ps[..n] + [ps[n]];
      var r1, out, outs1 := FollowsLast(r, ps[..n], ps[n], outs, r');
      PlainDelivered(r, ps[..n], outs1, r1);
      HandledPlain(r1, ps[n], r', out);
    }
  }

  /** A receiver that neither decompresses nor may begin to stays as it is. */
  lemma {:induction false} PlainStays(r: Receiving, frames: seq<Packet>, outs: seq<Packet>, r': Receiving)
    requires Follows(r, frames, outs, r') && !r.compress && !r.autocomp
    ensures r' == r
    decreases |frames|
  {
    hide Handles, Follows;
    if frames == [] {
      FollowsNothing(r, outs, r');
    } else {
      var n := |frames| - 1;
      assert frames == frames[..n] + [frames[n]];
      var r1, out, outs1 := FollowsLast(r, frames[..n], frames[n], outs, r');
      PlainStays(r, frames[..n], outs1, r1);
      PlainStep(r, frames[n], r', out);
    }
  }

  lemma PlainStep(r: Receiving, f: Packet, r': Receiving, out: Option<Packet>)
    requires Handles(r, f, r', out) && !r.compress && !r.autocomp
    ensures r' == r
  {
    hide ValidReceiver, Receivable, Uncompress;
  }

  lemma FollowsNothing(r: Receiving, outs: seq<Packet>, r': Receiving)
    requires Follows(r, [], outs, r')
    ensures outs == [] && r' == r
  {
  }
}
