/**
 The two ends of a compressed line as state machines over packets, and why they stay in step
 (section 4 of RFC 1144 describes the line this protocol assumes).
 */
module VjProtocol {
  import opened Prelude
  import opened Bytes
  import opened VjHeader
  import opened VjDelta

  const MAX_STATES: nat := 16
  const NO_STATE: nat := 255

  type Packet = seq<Byte>

  /** The type of a packet on the line; anything else a receiver finds there is of unknown type. */
  datatype Kind = Ip | UncompressedTcp | CompressedTcp | Unknown

  /**
   The sending end: a saved header per connection number, the numbers most recently used first, the last number sent.
   */
  datatype Sender = Sender(slots: seq<Option<Header>>, order: seq<nat>, last: nat)

  /** The receiving end; `toss` is set while implicit connection numbers cannot be trusted. */
  datatype Receiver = Receiver(slots: seq<Option<Header>>, last: nat, toss: bool)

  // ----- the checksum of an IP header

  function WordSum(b: seq<Byte>): nat
    requires |b| % 2 == 0
  {
    if b == [] then 0 else W16(b, 0) + WordSum(b[2..])
  }

  function Fold(x: nat): nat { x % 0x1_0000 + x / 0x1_0000 }

  /** The complement of the sum, folded twice to sixteen bits. */
  function Checksum(b: seq<Byte>): Word
    requires |b| % 2 == 0 && |b| <= 60
  {
    SumSmall(b);
    0xffff - Fold(Fold(WordSum(b)))
  }

  lemma {:induction false} SumSmall(b: seq<Byte>)
    requires |b| % 2 == 0 && |b| <= 60
    ensures WordSum(b) <= 0xffff * (|b| / 2) && Fold(Fold(WordSum(b))) <= 0xffff
    decreases |b|
  {
    if b != [] {
      SumSmall(b[2..]);
    }
    assert WordSum(b) <= 0xffff * 30;
    assert Fold(WordSum(b)) <= 0xffff + 30;
  }

  /** The checksum field that belongs into a header. */
  function HeaderSum(h: Header): Word
    requires Proper(h)
  {
    IpOctets(h.(sum := 0));
    Checksum(EncodeIp(h.(sum := 0)))
  }

  lemma {:induction false} WordSumConcat(a: seq<Byte>, b: seq<Byte>)
    requires |a| % 2 == 0 && |b| % 2 == 0
    ensures WordSum(a + b) == WordSum(a) + WordSum(b)
    decreases |a|
  {
    hide W16;
    if a == [] {
      assert a + b == b;
    } else {
      assert (a + b)[2..] == a[2..] + b;
      WordAtFront(a, b);
      WordSumConcat(a[2..], b);
    }
  }

  lemma WordAtFront(a: seq<Byte>, b: seq<Byte>)
    requires |a| >= 2
    ensures W16(a + b, 0) == W16(a, 0)
  {
  }

  lemma WordSumOne(x: Word)
    ensures |B16(x)| == 2 && WordSum(B16(x)) == x
  {
    var b := B16(x);
    assert b[2..] == [] && W16(b, 0) == x;
  }

  /** The checksum field adds just its value to the sum. */
  lemma SumOfField(h: Header)
    requires Proper(h)
    ensures |EncodeIp(h)| % 2 == 0 && |EncodeIp(h)| <= 60 && |EncodeIp(h.(sum := 0))| == |EncodeIp(h)|
    ensures WordSum(EncodeIp(h)) == WordSum(EncodeIp(h.(sum := 0))) + h.sum
  {
    IpOctets(h);
    IpOctets(h.(sum := 0));
    var front := [h.vhl, h.tos] + B16(h.len) + B16(h.id) + B16(h.off) + [h.ttl, h.proto];
    var back := B32(h.src) + B32(h.dst) + h.ipopt;
    hide WordSum, B16, B32;
    assert |front| == 10 && |back| % 2 == 0 by {
      LengthsOf(h);
    }
    FieldInside(h, front, back, h.sum);
    FieldInside(h, front, back, 0);
  }

  lemma LengthsOf(h: Header)
    ensures |B16(h.len)| == |B16(h.id)| == |B16(h.off)| == 2 && |B32(h.src)| == |B32(h.dst)| == 4
  {
  }

  lemma FieldInside(h: Header, front: seq<Byte>, back: seq<Byte>, x: Word)
    requires front == [h.vhl, h.tos] + B16(h.len) + B16(h.id) + B16(h.off) + [h.ttl, h.proto] && |front| == 10
    requires back == B32(h.src) + B32(h.dst) + h.ipopt && |back| % 2 == 0
    ensures |EncodeIp(h.(sum := x))| % 2 == 0
    ensures WordSum(EncodeIp(h.(sum := x))) == WordSum(front) + x + WordSum(back)
  {
    hide WordSum, B16, B32, EncodeIp;
    FieldOctets(h.(sum := x), front, back);
    WordBetween(front, x, back);
  }

  lemma WordBetween(front: seq<Byte>, x: Word, back: seq<Byte>)
    requires |front| % 2 == 0 && |back| % 2 == 0
    ensures |B16(x)| == 2 && WordSum(front + (B16(x) + back)) == WordSum(front) + x + WordSum(back)
  {
    WordSumOne(x);
    hide WordSum, B16;
    SumThree(front, B16(x), back);
  }

  lemma SumThree(a: seq<Byte>, b: seq<Byte>, c: seq<Byte>)
    requires |a| % 2 == 0 && |b| % 2 == 0 && |c| % 2 == 0
    ensures WordSum(a + (b + c)) == WordSum(a) + WordSum(b) + WordSum(c)
  {
    hide WordSum;
    WordSumConcat(b, c);
    WordSumConcat(a, b + c);
  }

  lemma FieldOctets(h: Header, front: seq<Byte>, back: seq<Byte>)
    requires front == [h.vhl, h.tos] + B16(h.len) + B16(h.id) + B16(h.off) + [h.ttl, h.proto]
    requires back == B32(h.src) + B32(h.dst) + h.ipopt
    ensures EncodeIp(h) == front + (B16(h.sum) + back)
  {
    var s, a, d, o := B16(h.sum), B32(h.src), B32(h.dst), h.ipopt;
    hide B16, B32;
    assert EncodeIp(h) == front + s + a + d + o;
    Assoc(front + s + a, d, o);
    Assoc(front + s, a, d + o);
    Assoc(a, d, o);
    Assoc(front, s, back);
  }

  lemma FoldKeeps(x: nat)
    ensures Fold(x) % 0xffff == x % 0xffff && (x > 0 ==> Fold(x) > 0)
  {
    var q, r := x / 0x1_0000, x % 0x1_0000;
    hide Fold;
    FoldParts(x, q, r);
    Residue(q, q + r);
  }

  lemma FoldParts(x: nat, q: nat, r: nat)
    requires q == x / 0x1_0000 && r == x % 0x1_0000
    ensures x == 0xffff * q + (q + r) && Fold(x) == q + r
  {
  }

  lemma {:induction false} Residue(q: nat, y: nat)
    ensures (0xffff * q + y) % 0xffff == y % 0xffff
  {
    if q > 0 {
      Residue(q - 1, y);
      assert 0xffff * q + y == 0xffff + (0xffff * (q - 1) + y);
    }
  }

  /** The folded sum of a header that carries its checksum is all ones, which is what a receiver looks for. */
  lemma ChecksumVerifies(h: Header)
    requires Proper(h) && h.sum == HeaderSum(h)
    ensures |EncodeIp(h)| % 2 == 0 && Fold(Fold(WordSum(EncodeIp(h)))) == 0xffff
  {
    SumOfField(h);
    var b := EncodeIp(h.(sum := 0));
    var s := WordSum(b);
    SumSmall(b);
    SumSmall(EncodeIp(h));
    hide WordSum, EncodeIp, Proper;
    assert h.sum == 0xffff - Fold(Fold(s));
    FoldsToOnes(s);
  }

  lemma FoldsToOnes(s: nat)
    requires Fold(Fold(s)) <= 0xffff && Fold(Fold(s + (0xffff - Fold(Fold(s))))) <= 0xffff
    ensures Fold(Fold(s + (0xffff - Fold(Fold(s))))) == 0xffff
  {
    hide Fold;
    var t := Fold(Fold(s));
    var x := s + (0xffff - t);
    FoldsTwice(s);
    FoldsTwice(x);
    Complement(s, t, x);
    Whole(Fold(Fold(x)));
  }

  lemma FoldsTwice(x: nat)
    ensures Fold(Fold(x)) % 0xffff == x % 0xffff && (x > 0 <==> Fold(Fold(x)) > 0)
  {
    FoldKeeps(x);
    FoldKeeps(Fold(x));
  }

  lemma Complement(s: nat, t: nat, x: nat)
    requires s % 0xffff == t % 0xffff && t <= 0xffff && x == s + (0xffff - t)
    ensures x % 0xffff == 0
  {
  }

  lemma Whole(y: nat)
    requires y % 0xffff == 0 && 0 < y <= 0xffff
    ensures y == 0xffff
  {
  }

  // ----- the order of use

  predicate IsOrder(order: seq<nat>) {
    && |order| == MAX_STATES
    && (forall i :: 0 <= i < |order| ==> order[i] < MAX_STATES)
    && (forall i, j :: 0 <= i < j < |order| ==> order[i] != order[j])
  }

  /** The i-th most recently used number becomes the most recently used; the others keep their order. */
  function ToFront(order: seq<nat>, i: nat): seq<nat>
    requires i < |order|
  {
    [order[i]] + order[..i] + order[i + 1..]
  }

  lemma ToFrontIsOrder(order: seq<nat>, i: nat)
    requires IsOrder(order) && i < |order|
    ensures IsOrder(ToFront(order, i))
  {
    var o := ToFront(order, i);
    assert forall j :: 0 <= j < |o| ==> o[j] == if j == 0 then order[i] else if j <= i then order[j - 1] else order[j];
  }

  /** A slot that was never used is all zeros, and so are its addresses and ports. */
  predicate Matches(slot: Option<Header>, h: Header) {
    match slot
    case None => h.src == 0 && h.dst == 0 && h.ports == 0
    case Some(cs) => h.src == cs.src && h.dst == cs.dst && h.ports == cs.ports
  }

  /** The place in the order of the first slot that matches; the last place if none does. */
  function Place(slots: seq<Option<Header>>, order: seq<nat>, h: Header, i: nat): (k: nat)
    requires |slots| == MAX_STATES && IsOrder(order) && i < |order|
    ensures i <= k < |order|
    decreases |order| - i
  {
    if Matches(slots[order[i]], h) || i == |order| - 1 then i else Place(slots, order, h, i + 1)
  }

  /** A hit is the most recently used slot of the connection; without one the least recently used slot is taken. */
  lemma {:induction false} PlaceMeans(slots: seq<Option<Header>>, order: seq<nat>, h: Header, i: nat)
    requires |slots| == MAX_STATES && IsOrder(order) && i < |order|
    ensures var k := Place(slots, order, h, i);
            && (forall j :: i <= j < k ==> !Matches(slots[order[j]], h))
            && (Matches(slots[order[k]], h) || k == MAX_STATES - 1)
    decreases |order| - i
  {
    if !Matches(slots[order[i]], h) && i < |order| - 1 {
      PlaceMeans(slots, order, h, i + 1);
    }
  }

  // ----- sending

  ghost predicate ValidSender(tx: Sender) {
    && |tx.slots| == MAX_STATES && IsOrder(tx.order)
    && (forall i :: 0 <= i < MAX_STATES && tx.slots[i].Some?
          ==> Proper(tx.slots[i].value) && AckOnly(tx.slots[i].value.flags))
    && (tx.last == NO_STATE || (tx.last < MAX_STATES && tx.slots[tx.last].Some?))
  }

  /** Not a fragment, and long enough to hold both headers: only then is the TCP header looked at. */
  predicate Candidate(p: Packet)
    requires |p| >= 20
  {
    W16(p, 6) % 0x4000 == 0 && |p| >= 40
  }

  /**
   What the compressor relies on: an IP header, and in a candidate a complete TCP header that fits the saved state.
   */
  predicate Sendable(p: Packet) {
    && |p| >= 20
    && (Candidate(p) ==> HasHeader(p) && HeaderLen(Parse(p)) <= MAX_HDR && p[9] == IPPROTO_TCP)
  }

  predicate Compressible(p: Packet)
    requires Sendable(p)
  {
    Candidate(p) && AckOnly(Parse(p).flags)
  }

  /** The difference to send against a slot; a slot never used, or of another connection, gives none. */
  function Difference(slot: Option<Header>, h: Header): Delta {
    if slot.Some? && Matches(slot, h) then Compare(slot.value, h) else Uncompressed
  }

  /** A packet in compressed form: changes, connection number if explicit, TCP checksum, numbers, data. */
  function Squeezed(d: Delta, newC: bool, number: nat, p: Packet, h: Header): Packet
    requires d.Delta? && number < MAX_STATES && HeaderLen(h) <= |p|
  {
    [ChangesByte(WithC(d.changes, newC))] + (if newC then [number] else []) + (B16(h.tsum) + d.numbers)
    + p[HeaderLen(h)..]
  }

  function Compress(tx: Sender, p: Packet, implicitIds: bool): (r: (Sender, Kind, Packet))
    requires ValidSender(tx) && Sendable(p)
    ensures r.1 != Unknown
  {
    if !Compressible(p) then (tx, Ip, p)
    else
      EncodeParse(p);
      var h := Parse(p);
      var k := Place(tx.slots, tx.order, h, 0);
      var n := tx.order[k];
      var tx' := Sender(tx.slots[n := Some(h)], ToFront(tx.order, k), n);
      match Difference(tx.slots[n], h)
      case Uncompressed => (tx', UncompressedTcp, p[9 := n])
      case Delta(_, _) => (tx', CompressedTcp,
                           Squeezed(Difference(tx.slots[n], h), !implicitIds || tx.last != n, n, p, h))
  }

  // ----- receiving

  ghost predicate ValidReceiver(rx: Receiver) {
    && |rx.slots| == MAX_STATES
    && (!rx.toss ==> rx.last < MAX_STATES)
    && (forall i :: 0 <= i < MAX_STATES && rx.slots[i].Some? ==> Proper(rx.slots[i].value))
  }

  /** The slot a compressed packet refers to, if it has one and it may be used. */
  function Refers(rx: Receiver, buf: Packet): Option<nat>
    requires |buf| >= 19
  {
    if ToChanges(buf[0]).newC then (if buf[1] < MAX_STATES then Some(buf[1]) else None)
    else if rx.toss then None else Some(rx.last)
  }

  /** What the decompressor relies on: room to read a longest compressed header, and a slot that was set up before. */
  predicate Receivable(rx: Receiver, kind: Kind, buf: Packet, len: nat)
    requires |rx.slots| == MAX_STATES
  {
    && len <= |buf|
    && (kind == UncompressedTcp ==> HasHeader(buf[..len]))
    && (kind == CompressedTcp ==>
          |buf| >= 19
          && (Refers(rx, buf).Some? ==> Refers(rx, buf).value < MAX_STATES && rx.slots[Refers(rx, buf).value].Some?))
  }

  /** The packet made of a rebuilt header and data: length and IP checksum are filled in. */
  function Assembled(h: Header, data: Packet): Packet
    requires Proper(h)
  {
    Encode(h.(sum := HeaderSum(h))) + data
  }

  function Uncompress(rx: Receiver, kind: Kind, buf: Packet, len: nat): (Receiver, Option<Packet>)
    requires ValidReceiver(rx) && Receivable(rx, kind, buf, len)
  {
    match kind
    case Ip => (rx, Some(buf[..len]))
    case Unknown => (rx.(toss := true), None)
    case UncompressedTcp =>
      var p := buf[..len];
      if p[9] >= MAX_STATES then (rx.(toss := true), None)
      else
        var n := p[9];
        var p' := p[9 := IPPROTO_TCP];
        ProtocolByte(p, IPPROTO_TCP);
        (Receiver(rx.slots[n := Some(Parse(p').(sum := 0))], n, false), Some(p'))
    case CompressedTcp =>
      var c := ToChanges(buf[0]);
      match Refers(rx, buf)
      case None => (if c.newC then rx.(toss := true) else rx, None)
      case Some(n) =>
        var (h, j) := Rebuild(rx.slots[n].value, c, buf, if c.newC then 2 else 1);
        if j > len then (Receiver(rx.slots[n := Some(h)], n, true), None)
        else
          var h' := h.(len := (len - j + HeaderLen(h)) % 0x1_0000);
          (Receiver(rx.slots[n := Some(h')], n, false), Some(Assembled(h', buf[j..len])))
  }

  lemma ProtocolByte(p: Packet, x: Byte)
    requires HasHeader(p)
    ensures HasHeader(p[9 := x])
  {
  }

  // ----- in step

  /**
   Every slot the sender has used is the receiver's slot of the same number, up to the IP checksum, and so is the last
   number.
   */
  ghost predicate InStep(tx: Sender, rx: Receiver) {
    && ValidSender(tx) && ValidReceiver(rx)
    && (forall i :: 0 <= i < MAX_STATES && tx.slots[i].Some? ==> rx.slots[i] == Some(tx.slots[i].value.(sum := 0)))
    && (tx.last != NO_STATE ==> rx.last == tx.last && !rx.toss)
  }

  /**
   Exactly when a difference restores the packet: length and IP checksum are what they should be, the bits the receiver
   takes from its saved header are the same, and no special encoding hides that URG was set before.
   */
  predicate Exact(cs: Header, h: Header, p: Packet)
    requires Proper(h) && Compare(cs, h).Delta?
  {
    && h.len == |p| % 0x1_0000 && h.sum == HeaderSum(h)
    && h.offx2 == cs.offx2 && h.flags.reserved == cs.flags.reserved
    && (Special(Compare(cs, h).changes) ==> !cs.flags.urg)
  }

  lemma EncodeInjective(h: Header, h': Header, data: Packet, data': Packet)
    requires Proper(h) && Proper(h') && Encode(h) + data == Encode(h') + data'
    ensures h == h' && data == data'
  {
    ParseEncode(h, data);
    ParseEncode(h', data');
    assert data == (Encode(h) + data)[HeaderLen(h)..];
    assert data' == (Encode(h') + data')[HeaderLen(h')..];
  }

  /** Where the compressor files a packet. */
  function SlotFor(tx: Sender, h: Header): (n: nat)
    requires ValidSender(tx)
    ensures n < MAX_STATES
  {
    tx.order[Place(tx.slots, tx.order, h, 0)]
  }

  lemma SenderStaysValid(tx: Sender, p: Packet, implicitIds: bool)
    requires ValidSender(tx) && Sendable(p)
    ensures ValidSender(Compress(tx, p, implicitIds).0)
  {
    if Compressible(p) {
      EncodeParse(p);
      ToFrontIsOrder(tx.order, Place(tx.slots, tx.order, Parse(p), 0));
      hide ToFront, IsOrder, Parse, Squeezed, Difference, Proper;
    }
  }

  lemma UncompressedStep(tx: Sender, rx: Receiver, p: Packet, implicitIds: bool, buf: Packet)
    requires InStep(tx, rx) && Sendable(p) && Compress(tx, p, implicitIds).1 == UncompressedTcp
    requires var w := Compress(tx, p, implicitIds).2; |w| <= |buf| && buf[..|w|] == w
    ensures var w := Compress(tx, p, implicitIds).2;
            && Receivable(rx, UncompressedTcp, buf, |w|)
            && Uncompress(rx, UncompressedTcp, buf, |w|).1 == Some(p)
            && InStep(Compress(tx, p, implicitIds).0, Uncompress(rx, UncompressedTcp, buf, |w|).0)
  {
    hide Parse, HasHeader, Proper, Squeezed, Difference, ToFront, IsOrder, Place;
    UncompressedForm(tx, p, implicitIds);
    var h := Parse(p);
    var n := SlotFor(tx, h);
    var w := Compress(tx, p, implicitIds).2;
    EncodeParse(p);
    ProtocolByte(p, n);
    SenderStaysValid(tx, p, implicitIds);
    assert w == p[9 := n] && w[9 := IPPROTO_TCP] == p;
    ProperSum(h);
    hide Compress;
    StillInStep(tx, rx, n, h, Compress(tx, p, implicitIds).0, Uncompress(rx, UncompressedTcp, buf, |w|).0);
  }

  lemma ProperSum(h: Header)
    requires Proper(h)
    ensures Proper(h.(sum := 0))
  {
  }

  /** What the compressor does with a packet that goes out uncompressed. */
  lemma UncompressedForm(tx: Sender, p: Packet, implicitIds: bool)
    requires ValidSender(tx) && Sendable(p) && Compress(tx, p, implicitIds).1 == UncompressedTcp
    ensures Compressible(p) && HasHeader(p) && p[9] == IPPROTO_TCP && |p| >= 40
    ensures var h := Parse(p);
            var n := SlotFor(tx, h);
            && Compress(tx, p, implicitIds).2 == p[9 := n]
            && Compress(tx, p, implicitIds).0
               == Sender(tx.slots[n := Some(h)], ToFront(tx.order, Place(tx.slots, tx.order, h, 0)), n)
  {
    hide Parse, Squeezed, Difference, ToFront, Place, Proper;
  }

  /** What a compressed packet looks like in the receive buffer. */
  lemma InBuffer(d: Delta, newC: bool, n: nat, p: Packet, h: Header, buf: Packet)
    requires d.Delta? && n < MAX_STATES && HeaderLen(h) <= |p|
    requires var w := Squeezed(d, newC, n, p, h); |w| <= |buf| && buf[..|w|] == w
    ensures var w := Squeezed(d, newC, n, p, h);
            var i := if newC then 2 else 1;
            && buf[0] == ChangesByte(WithC(d.changes, newC)) && (newC ==> |buf| >= 2 && buf[1] == n)
            && At(buf, i, B16(h.tsum) + d.numbers)
            && |w| - (i + 2 + |d.numbers|) == |p| - HeaderLen(h)
            && buf[i + 2 + |d.numbers|..|w|] == p[HeaderLen(h)..]
  {
    var w := Squeezed(d, newC, n, p, h);
    assert |B16(h.tsum)| == 2;
    hide ChangesByte, HeaderLen, B16;
    var first := [ChangesByte(WithC(d.changes, newC))] + (if newC then [n] else []);
    var mid := B16(h.tsum) + d.numbers;
    var i := |first|;
    assert w == first + mid + p[HeaderLen(h)..];
    assert buf[0] == buf[..|w|][0] == w[0];
    assert newC ==> buf[1] == buf[..|w|][1] == w[1];
    ThreeParts(first, mid, p[HeaderLen(h)..]);
    PrefixSlice(buf, |w|, i, i + |mid|);
    PrefixAll(buf, |w|, i + |mid|);
  }

  /** A compressed packet refers to a slot that both ends have. */
  lemma SameConnectionFiled(tx: Sender, rx: Receiver, p: Packet)
    requires InStep(tx, rx) && Sendable(p) && Compressible(p)
    requires Difference(tx.slots[SlotFor(tx, Parse(p))], Parse(p)).Delta?
    ensures var h := Parse(p);
            var n := SlotFor(tx, h);
            && Proper(h) && HeaderLen(h) <= |p| && p == Encode(h) + p[HeaderLen(h)..]
            && tx.slots[n].Some? && SameConnection(tx.slots[n].value, h)
            && Proper(tx.slots[n].value) && rx.slots[n] == Some(tx.slots[n].value.(sum := 0))
            && Difference(tx.slots[n], h) == Compare(tx.slots[n].value, h)
  {
    hide Parse, HasHeader, Proper, Encode, Compare, SameShape, HeaderLen, IsOrder;
    var h := Parse(p);
    CompressibleParts(p);
    EncodeParse(p);
    var cs := tx.slots[SlotFor(tx, h)].value;
    CompareCommon(cs, h);
    assert p == p[..HeaderLen(h)] + p[HeaderLen(h)..];
  }

  lemma CompressibleParts(p: Packet)
    requires Sendable(p) && Compressible(p)
    ensures HasHeader(p) && AckOnly(Parse(p).flags)
  {
  }

  /** The packet the receiver assembles is the original exactly in the case described by Exact. */
  lemma AssembledExact(cs: Header, h: Header, p: Packet)
    requires Proper(cs) && Proper(h) && Compare(cs, h).Delta? && SameConnection(cs, h)
    requires HeaderLen(h) <= |p| && p == Encode(h) + p[HeaderLen(h)..]
    ensures var r := Rebuilt(cs, h, Compare(cs, h).changes).(len := |p| % 0x1_0000);
            && Proper(r)
            && (Assembled(r, p[HeaderLen(h)..]) == p <==> Exact(cs, h, p))
            && (Exact(cs, h, p) ==> r == h.(sum := 0))
  {
    var r := Rebuilt(cs, h, Compare(cs, h).changes).(len := |p| % 0x1_0000);
    var data := p[HeaderLen(h)..];
    RebuiltExact(cs, h, p, r);
    hide Compare, Encode, Exact, Rebuilt, SameConnection;
    var r' := r.(sum := HeaderSum(r));
    if Assembled(r, data) == p {
      EncodeInjective(r', h, data, data);
      assert r' == h;
    }
    if r' == h {
      assert Assembled(r, data) == p;
    }
  }

  lemma RebuiltExact(cs: Header, h: Header, p: Packet, r: Header)
    requires Proper(cs) && Proper(h) && Compare(cs, h).Delta? && SameConnection(cs, h)
    requires r == Rebuilt(cs, h, Compare(cs, h).changes).(len := |p| % 0x1_0000)
    ensures Proper(r) && r.sum == 0 && HeaderLen(r) == HeaderLen(h)
    ensures Exact(cs, h, p) <==> r.(sum := HeaderSum(r)) == h
    ensures Exact(cs, h, p) ==> r == h.(sum := 0)
  {
    CompareCommon(cs, h);
    if Special(Compare(cs, h).changes) {
      CompareSpecial(cs, h);
    }
    hide Compare, Checksum, EncodeIp;
    assert HeaderSum(h) == HeaderSum(h.(sum := 0));
    if Exact(cs, h, p) {
      assert r == h.(sum := 0);
    }
    if r.(sum := HeaderSum(r)) == h {
      assert r == h.(sum := 0);
    }
  }

  /** The slot number of a compressed packet reaches the receiver, explicitly or because it is the last one used. */
  lemma NumberArrives(tx: Sender, rx: Receiver, d: Delta, newC: bool, n: nat, buf: Packet)
    requires InStep(tx, rx) && d.Delta? && n < MAX_STATES && |buf| >= 19 && (!newC ==> tx.last == n)
    requires buf[0] == ChangesByte(WithC(d.changes, newC)) && (newC ==> buf[1] == n)
    ensures ToChanges(buf[0]) == WithC(d.changes, newC) && Refers(rx, buf) == Some(n)
  {
    ChangesRoundTrip(WithC(d.changes, newC));
  }

  /** What the compressor does with a packet that goes out compressed. */
  lemma CompressedForm(tx: Sender, p: Packet, implicitIds: bool)
    requires ValidSender(tx) && Sendable(p) && Compress(tx, p, implicitIds).1 == CompressedTcp
    ensures Compressible(p) && HasHeader(p)
    ensures var h := Parse(p);
            var n := SlotFor(tx, h);
            var d := Difference(tx.slots[n], h);
            var newC := !implicitIds || tx.last != n;
            && d.Delta? && HeaderLen(h) <= |p| && Compress(tx, p, implicitIds).2 == Squeezed(d, newC, n, p, h)
            && Compress(tx, p, implicitIds).0
               == Sender(tx.slots[n := Some(h)], ToFront(tx.order, Place(tx.slots, tx.order, h, 0)), n)
  {
    EncodeParse(p);
    hide Parse, HasHeader, Squeezed, Difference, ToFront;
  }

  /** What the decompressor does with it. */
  lemma CompressedArrives(rx: Receiver, cs: Header, h: Header, p: Packet, d: Delta, newC: bool, n: nat, buf: Packet,
                          len: nat)
    requires ValidReceiver(rx) && n < MAX_STATES && rx.slots[n] == Some(cs.(sum := 0)) && |buf| >= 19 && len <= |buf|
    requires d == Compare(cs, h) && d.Delta? && SameConnection(cs, h) && Proper(cs) && Proper(h) && HeaderLen(h) <= |p|
    requires ToChanges(buf[0]) == WithC(d.changes, newC) && Refers(rx, buf) == Some(n)
    requires var i := if newC then 2 else 1;
             && At(buf, i, B16(h.tsum) + d.numbers) && i + 2 + |d.numbers| <= len
             && len - (i + 2 + |d.numbers|) == |p| - HeaderLen(h)
             && buf[i + 2 + |d.numbers|..len] == p[HeaderLen(h)..]
    ensures var r := Rebuilt(cs, h, d.changes).(len := |p| % 0x1_0000);
            && Proper(r) && Proper(Rebuilt(cs, h, d.changes)) && Receivable(rx, CompressedTcp, buf, len)
            && Uncompress(rx, CompressedTcp, buf, len)
               == (Receiver(rx.slots[n := Some(r)], n, false), Some(Assembled(r, p[HeaderLen(h)..])))
  {
    hide Compare, Rebuild, Rebuilt, At, SameConnection, ToChanges, Assembled, Exact, HeaderSum;
    var i := if newC then 2 else 1;
    var c := WithC(d.changes, newC);
    RebuildInverts(cs, h, d, c, buf, i);
    var r0 := Rebuilt(cs, h, d.changes);
    RebuiltExact(cs, h, p, r0.(len := |p| % 0x1_0000));
    assert HeaderLen(r0) == HeaderLen(r0.(len := |p| % 0x1_0000)) == HeaderLen(h);
    hide Proper, HeaderLen;
  }

  lemma CompressedStep(tx: Sender, rx: Receiver, p: Packet, implicitIds: bool, buf: Packet)
    requires InStep(tx, rx) && Sendable(p) && Compress(tx, p, implicitIds).1 == CompressedTcp
    requires var w := Compress(tx, p, implicitIds).2; |w| <= |buf| && buf[..|w|] == w && |buf| >= 19
    ensures var w := Compress(tx, p, implicitIds).2;
            var h := Parse(p);
            var slot := tx.slots[SlotFor(tx, h)];
            && Receivable(rx, CompressedTcp, buf, |w|) && slot.Some? && Proper(h) && Compare(slot.value, h).Delta?
            && HeaderLen(h) <= |p| && Proper(Rebuilt(slot.value, h, Compare(slot.value, h).changes))
            && Uncompress(rx, CompressedTcp, buf, |w|).1
               == Some(Assembled(Rebuilt(slot.value, h, Compare(slot.value, h).changes).(len := |p| % 0x1_0000),
                                 p[HeaderLen(h)..]))
            && (Uncompress(rx, CompressedTcp, buf, |w|).1 == Some(p) <==> Exact(slot.value, h, p))
            && (Exact(slot.value, h, p)
                ==> InStep(Compress(tx, p, implicitIds).0, Uncompress(rx, CompressedTcp, buf, |w|).0))
  {
    hide Compress, Uncompress, Compare, Rebuilt, At, SameConnection, ToChanges, Assembled, Proper, HeaderLen,
         Exact, Parse, Squeezed, Sendable, Receivable, ToFront, IsOrder, Refers, Difference, WithC, ChangesByte, B16,
         InStep, ValidSender;
    StepParts(tx, rx);
    CompressedForm(tx, p, implicitIds);
    SameConnectionFiled(tx, rx, p);
    var h := Parse(p);
    var n := SlotFor(tx, h);
    var w := Compress(tx, p, implicitIds).2;
    var newC := !implicitIds || tx.last != n;
    var cs := tx.slots[n].value;
    var d := Compare(cs, h);
    InBuffer(d, newC, n, p, h, buf);
    NumberArrives(tx, rx, d, newC, n, buf);
    CompressedArrives(rx, cs, h, p, d, newC, n, buf, |w|);
    AssembledExact(cs, h, p);
    SenderStaysValid(tx, p, implicitIds);
    if Exact(cs, h, p) {
      StillInStep(tx, rx, n, h, Compress(tx, p, implicitIds).0, Uncompress(rx, CompressedTcp, buf, |w|).0);
    }
  }

  lemma StepParts(tx: Sender, rx: Receiver)
    requires InStep(tx, rx)
    ensures ValidSender(tx) && ValidReceiver(rx) && |tx.slots| == MAX_STATES
  {
  }

  /** Filing the same header, up to the IP checksum, at both ends under the same number keeps them in step. */
  lemma StillInStep(tx: Sender, rx: Receiver, n: nat, h: Header, tx': Sender, rx': Receiver)
    requires InStep(tx, rx) && n < MAX_STATES && ValidSender(tx') && Proper(h.(sum := 0))
    requires tx'.slots == tx.slots[n := Some(h)] && tx'.last == n
    requires rx' == Receiver(rx.slots[n := Some(h.(sum := 0))], n, false)
    ensures InStep(tx', rx')
  {
  }

  /** One packet over a lossless line; what follows it in the receive buffer is arbitrary. */
  lemma Step(tx: Sender, rx: Receiver, p: Packet, implicitIds: bool, buf: Packet)
    requires InStep(tx, rx) && Sendable(p) && |buf| >= 19
    requires var w := Compress(tx, p, implicitIds).2; |w| <= |buf| && buf[..|w|] == w
    ensures var (tx', kind, w) := Compress(tx, p, implicitIds);
            && Receivable(rx, kind, buf, |w|)
            && var (rx', out) := Uncompress(rx, kind, buf, |w|);
            && (out == Some(p) <==> Restorable(tx, p, implicitIds))
            && (Restorable(tx, p, implicitIds) ==> InStep(tx', rx'))
  {
    hide InStep, Exact, Receivable, Parse, Compare, ValidSender, ValidReceiver, Sendable, Compress, Uncompress, SlotFor,
         HasHeader, Proper;
    StepParts(tx, rx);
    match Compress(tx, p, implicitIds).1
    case Ip => IpStep(tx, rx, p, implicitIds, buf);
    case UncompressedTcp => UncompressedStep(tx, rx, p, implicitIds, buf);
    case CompressedTcp =>
      CompressedForm(tx, p, implicitIds);
      CompressedStep(tx, rx, p, implicitIds, buf);
  }

  lemma IpStep(tx: Sender, rx: Receiver, p: Packet, implicitIds: bool, buf: Packet)
    requires InStep(tx, rx) && Sendable(p) && Compress(tx, p, implicitIds).1 == Ip
    requires var w := Compress(tx, p, implicitIds).2; |w| <= |buf| && buf[..|w|] == w
    ensures var (tx', kind, w) := Compress(tx, p, implicitIds);
            Receivable(rx, Ip, buf, |w|) && tx' == tx && Uncompress(rx, Ip, buf, |w|) == (rx, Some(p))
  {
    hide Parse, HasHeader, Squeezed, Difference, ToFront;
  }

  /** A packet that is not compressed is always restored; a compressed one exactly when its difference is. */
  ghost predicate Restorable(tx: Sender, p: Packet, implicitIds: bool)
    requires ValidSender(tx) && Sendable(p)
  {
    Compress(tx, p, implicitIds).1 == CompressedTcp ==>
      && HasHeader(p)
      && var h := Parse(p);
         var slot := tx.slots[SlotFor(tx, h)];
         Proper(h) && slot.Some? && Compare(slot.value, h).Delta? && Exact(slot.value, h, p)
  }

  // ----- whole runs

  /** A header as sections 3.1 of RFC 791 and RFC 793 require, whose urgent pointer is set exactly when it is meant. */
  predicate Regular(h: Header) {
    h.offx2 % 16 == 0 && h.flags.reserved == 0 && (h.urp != 0 <==> h.flags.urg)
  }

  predicate Conformant(p: Packet) {
    && Sendable(p)
    && (Compressible(p) ==>
          var h := Parse(p);
          Proper(h) && Regular(h) && h.len == |p| && h.sum == HeaderSum(h))
  }

  ghost predicate RegularSlots(tx: Sender) {
    forall i :: 0 <= i < |tx.slots| && tx.slots[i].Some? ==> Regular(tx.slots[i].value)
  }

  lemma RegularExact(cs: Header, h: Header, p: Packet)
    requires Proper(h) && Compare(cs, h).Delta? && Regular(cs) && Regular(h) && h.len == |p| && h.sum == HeaderSum(h)
    ensures Exact(cs, h, p)
  {
    hide Compare, HeaderSum, Proper;
    CompareCommon(cs, h);
    if Special(Compare(cs, h).changes) {
      CompareSpecial(cs, h);
    }
    SameNibbles(cs.offx2, h.offx2);
    SmallModulo(|p|, h.len);
  }

  lemma SameNibbles(x: Byte, y: Byte)
    requires x / 16 == y / 16 && x % 16 == y % 16
    ensures x == y
  {
  }

  lemma SmallModulo(n: nat, w: Word)
    requires n == w
    ensures n % 0x1_0000 == w
  {
  }

  lemma ConformantSendable(p: Packet)
    requires Conformant(p)
    ensures Sendable(p)
  {
  }

  lemma ConformantRestorable(tx: Sender, p: Packet, implicitIds: bool)
    requires ValidSender(tx) && RegularSlots(tx) && Conformant(p)
    ensures Restorable(tx, p, implicitIds) && RegularSlots(Compress(tx, p, implicitIds).0)
  {
    hide Compare, Exact, Proper, HeaderSum, Regular, Parse, HasHeader, Squeezed, ToFront;
    if Compressible(p) {
      EncodeParse(p);
      var h := Parse(p);
      var n := SlotFor(tx, h);
      if Difference(tx.slots[n], h).Delta? {
        RegularExact(tx.slots[n].value, h, p);
      }
    }
  }

  /** A packet to send, whether connection numbers may be left out, and what the receive buffer holds after it. */
  datatype Sent = Sent(p: Packet, implicitIds: bool, after: Packet)

  predicate GoodRun(run: seq<Sent>) {
    forall i :: 0 <= i < |run| ==> Conformant(run[i].p) && |run[i].after| >= 19
  }

  /** Send a run of packets across the line: what comes out, and the two ends afterwards. */
  ghost function Relay(tx: Sender, rx: Receiver, run: seq<Sent>): (seq<Option<Packet>>, Sender, Receiver)
    requires InStep(tx, rx) && RegularSlots(tx) && GoodRun(run)
    decreases |run|
  {
    if run == [] then ([], tx, rx)
    else
      hide Compress, Uncompress, InStep, Restorable, RegularSlots, Conformant, ValidSender, ValidReceiver,
           Sendable, Receivable;
      var s := run[0];
      StepParts(tx, rx);
      ConformantSendable(s.p);
      var (tx1, kind, w) := Compress(tx, s.p, s.implicitIds);
      var buf := w + s.after;
      ConformantRestorable(tx, s.p, s.implicitIds);
      Step(tx, rx, s.p, s.implicitIds, buf);
      var (rx1, out) := Uncompress(rx, kind, buf, |w|);
      var rest := Relay(tx1, rx1, run[1..]);
      ([out] + rest.0, rest.1, rest.2)
  }

  /**
   Every run of conformant packets, over any number of connections, comes out as it went in, and leaves both ends in
   step.
   */
  lemma {:induction false} RunDelivers(tx: Sender, rx: Receiver, run: seq<Sent>)
    requires InStep(tx, rx) && RegularSlots(tx) && GoodRun(run)
    ensures var (outs, tx', rx') := Relay(tx, rx, run);
            && |outs| == |run| && (forall i :: 0 <= i < |run| ==> outs[i] == Some(run[i].p))
            && InStep(tx', rx') && RegularSlots(tx')
    decreases |run|
  {
    if run != [] {
      var s := run[0];
      var (tx1, kind, w) := Compress(tx, s.p, s.implicitIds);
      var buf := w + s.after;
      hide Compress, Uncompress, InStep, Restorable, RegularSlots, Conformant;
      ConformantRestorable(tx, s.p, s.implicitIds);
      Step(tx, rx, s.p, s.implicitIds, buf);
      var (rx1, out) := Uncompress(rx, kind, buf, |w|);
      RunDelivers(tx1, rx1, run[1..]);
      assert forall i :: 1 <= i < |run| ==> run[1..][i - 1] == run[i];
    }
  }

  /** The ends as they are initialised. */
  function InitialSender(): Sender {
    Sender(seq(MAX_STATES, _ => None), seq(MAX_STATES, i => MAX_STATES - 1 - i), NO_STATE)
  }

  function InitialReceiver(): Receiver {
    Receiver(seq(MAX_STATES, _ => None), NO_STATE, true)
  }

  lemma InitialInStep()
    ensures InStep(InitialSender(), InitialReceiver()) && RegularSlots(InitialSender())
  {
  }

  /** A packet with right length and checksum of five octets of data. */
  function Datagram(h: Header): Packet
    requires Proper(h)
  {
    Encode(h.(sum := HeaderSum(h))) + [1, 2, 3, 4, 5]
  }

  function UrgentHeader(): Header {
    Header(0x45, 0, 45, 1, 0, 64, IPPROTO_TCP, 0, 1, 2, [], 3, 100, 200, 0x50,
           Flags(0, true, true, false, false, false, false), 10, 0, 7, [])
  }

  /** The next packet of the connection, with URG clear. */
  function CalmHeader(): Header {
    UrgentHeader().(id := 2, sn := 105, flags := Flags(0, false, true, false, false, false, false))
  }

  lemma DatagramSendable(h: Header)
    requires Proper(h) && HeaderLen(h) == 40 && h.off == 0 && h.proto == IPPROTO_TCP && AckOnly(h.flags)
    ensures var p := Datagram(h);
            && |p| == 45 && Sendable(p) && Compressible(p) && HasHeader(p) && Parse(p) == h.(sum := HeaderSum(h))
            && Parse(p).sum == HeaderSum(Parse(p))
  {
    var h' := h.(sum := HeaderSum(h));
    var p := Datagram(h);
    ParseEncode(h', [1, 2, 3, 4, 5]);
    assert h'.(sum := 0) == h.(sum := 0);
    hide Encode, HeaderSum, Checksum;
    assert W16(p, 6) == Parse(p).off && p[9] == Parse(p).proto;
  }

  lemma FirstToInitial(h: Header)
    requires h.src != 0
    ensures ValidSender(InitialSender()) && InitialSender().slots[SlotFor(InitialSender(), h)] == None
  {
    InitialInStep();
  }

  /** What was just sent is found again at once. */
  lemma FoundAgain(tx: Sender, n: nat, h: Header, g: Header)
    requires ValidSender(tx) && n < MAX_STATES && tx.order[0] == n && tx.slots[n] == Some(h)
    requires g.src == h.src && g.dst == h.dst && g.ports == h.ports
    ensures SlotFor(tx, g) == n
  {
  }

  lemma AfterUncompressed(tx: Sender, p: Packet)
    requires ValidSender(tx) && Sendable(p) && Compressible(p)
    requires tx.slots[SlotFor(tx, Parse(p))] == None
    ensures var (tx', kind, w) := Compress(tx, p, true);
            var n := SlotFor(tx, Parse(p));
            kind == UncompressedTcp && ValidSender(tx') && tx'.order[0] == n && tx'.slots[n] == Some(Parse(p))
            && tx'.last == n
  {
    EncodeParse(p);
    SenderStaysValid(tx, p, true);
    hide Parse, HasHeader, Squeezed, Compare;
  }

  /** Both are of one connection, and the second goes out with a special encoding. */
  lemma SpecialNext(s1: Word, s2: Word)
    ensures var cs, h := UrgentHeader().(sum := s1), CalmHeader().(sum := s2);
            && Proper(UrgentHeader()) && Proper(CalmHeader()) && Proper(cs) && Proper(h)
            && Compare(cs, h).Delta? && Special(Compare(cs, h).changes)
            && Rebuilt(cs, h, Compare(cs, h).changes).flags.urg
            && HeaderLen(cs) == HeaderLen(h) == 40 && AckOnly(cs.flags) && AckOnly(h.flags)
  {
  }

  /** Sent from one end to the other, with anything behind it in the receive buffer, a packet comes out as `out`. */
  ghost predicate Carries(tx: Sender, rx: Receiver, p: Packet, tail: Packet, tx': Sender, rx': Receiver,
                          out: Option<Packet>) {
    && ValidSender(tx) && ValidReceiver(rx) && Sendable(p)
    && var (tx1, kind, w) := Compress(tx, p, true);
    && tx1 == tx' && Receivable(rx, kind, w + tail, |w|) && Uncompress(rx, kind, w + tail, |w|) == (rx', out)
  }

  /**
   The urgent bit lingers: two packets of one connection, both with right length and checksum, sent over a line just set
   up. The first, with URG, arrives as it is; the second, without it, goes out with a special encoding and arrives with
   URG set.
   */
  lemma UrgentLingers(tail: Packet)
    returns (p1: Packet, p2: Packet, tx1: Sender, rx1: Receiver, tx2: Sender, rx2: Receiver, q: Packet)
    requires |tail| >= 19
    ensures Proper(UrgentHeader()) && Proper(CalmHeader()) && p1 == Datagram(UrgentHeader())
            && p2 == Datagram(CalmHeader())
    ensures Carries(InitialSender(), InitialReceiver(), p1, tail, tx1, rx1, Some(p1))
    ensures Carries(tx1, rx1, p2, tail, tx2, rx2, Some(q))
    ensures HasHeader(p2) && !Parse(p2).flags.urg && HasHeader(q) && Parse(q).flags.urg
  {
    hide UrgentHeader, CalmHeader, Datagram, InitialSender, InitialReceiver, Parse, Compare, Compress, Sendable,
         InStep, ValidSender, SlotFor, Rebuilt, Special, Compressible, Proper, Carries, HeaderSum, Encode, HasHeader;
    var g1, g2 := UrgentHeader(), CalmHeader();
    UrgentPair(g1, g2);
    p1, p2 := Datagram(g1), Datagram(g2);
    var h1, h2 := Parse(p1), Parse(p2);
    InitialInStep();
    StepParts(InitialSender(), InitialReceiver());
    FirstToInitial(h1);
    AfterUncompressed(InitialSender(), p1);
    tx1, rx1 := FirstAsItIs(InitialSender(), InitialReceiver(), p1, tail);
    FoundAgain(tx1, SlotFor(InitialSender(), h1), h1, h2);
    tx2, rx2, q := SecondUrgent(tx1, rx1, p2, tail, h1);
  }

  /** Two packets that can be sent, the second without URG, which a special encoding does not tell. */
  ghost predicate Telling(p1: Packet, p2: Packet) {
    && Sendable(p1) && Compressible(p1) && Sendable(p2) && Compressible(p2) && HasHeader(p1) && HasHeader(p2)
    && var h1, h2 := Parse(p1), Parse(p2);
    && h1.src != 0 && h1.src == h2.src && h1.dst == h2.dst && h1.ports == h2.ports && !h2.flags.urg
    && Compare(h1, h2).Delta? && Rebuilt(h1, h2, Compare(h1, h2).changes).flags.urg
  }

  lemma UrgentPair(g1: Header, g2: Header)
    requires g1 == UrgentHeader() && g2 == CalmHeader()
    ensures Proper(g1) && Proper(g2) && Telling(Datagram(g1), Datagram(g2))
  {
    SpecialNext(0, 0);
    assert g1.src == g2.src == 1 && g1.dst == g2.dst && g1.ports == g2.ports && !g2.flags.urg && g1.off == g2.off == 0;
    assert g1.proto == g2.proto == IPPROTO_TCP;
    assert g1.(sum := 0) == g1 && g2.(sum := 0) == g2;
    hide UrgentHeader, CalmHeader, Datagram, Parse, Compare, Sendable, Compressible, Proper, Rebuilt, Special,
         HeaderSum, HasHeader, HeaderLen;
    DatagramSendable(g1);
    DatagramSendable(g2);
    SpecialNext(HeaderSum(g1), HeaderSum(g2));
  }

  lemma FirstAsItIs(tx: Sender, rx: Receiver, p: Packet, tail: Packet) returns (tx': Sender, rx': Receiver)
    requires InStep(tx, rx) && Sendable(p) && Compress(tx, p, true).1 == UncompressedTcp
    ensures Carries(tx, rx, p, tail, tx', rx', Some(p)) && InStep(tx', rx') && tx' == Compress(tx, p, true).0
  {
    hide Compress, Uncompress, Sendable, Receivable, InStep, ValidSender, ValidReceiver;
    StepParts(tx, rx);
    var w := Compress(tx, p, true).2;
    assert (w + tail)[..|w|] == w;
    UncompressedStep(tx, rx, p, true, w + tail);
    tx', rx' := Compress(tx, p, true).0, Uncompress(rx, UncompressedTcp, w + tail, |w|).0;
  }

  lemma SecondUrgent(tx: Sender, rx: Receiver, p: Packet, tail: Packet, cs: Header)
    returns (tx': Sender, rx': Receiver, q: Packet)
    requires InStep(tx, rx) && Sendable(p) && Compressible(p) && |tail| >= 19
    requires tx.slots[SlotFor(tx, Parse(p))] == Some(cs) && Matches(Some(cs), Parse(p))
    requires Compare(cs, Parse(p)).Delta? && Rebuilt(cs, Parse(p), Compare(cs, Parse(p)).changes).flags.urg
    ensures Carries(tx, rx, p, tail, tx', rx', Some(q)) && HasHeader(p) && HasHeader(q) && Parse(q).flags.urg
  {
    hide Compress, Uncompress, Compare, Parse, Encode, Exact, Receivable, Sendable, InStep, ValidSender, ValidReceiver,
         HeaderSum, Rebuilt, HasHeader, SlotFor;
    StepParts(tx, rx);
    GoesCompressed(tx, p);
    var w := Compress(tx, p, true).2;
    assert (w + tail)[..|w|] == w;
    CompressedStep(tx, rx, p, true, w + tail);
    var h := Parse(p);
    var r := Rebuilt(cs, h, Compare(cs, h).changes).(len := |p| % 0x1_0000);
    tx', rx' := Compress(tx, p, true).0, Uncompress(rx, CompressedTcp, w + tail, |w|).0;
    q := Assembled(r, p[HeaderLen(h)..]);
    ParseEncode(r.(sum := HeaderSum(r)), p[HeaderLen(h)..]);
  }

  lemma GoesCompressed(tx: Sender, p: Packet)
    requires ValidSender(tx) && Sendable(p) && Compressible(p)
    requires Difference(tx.slots[SlotFor(tx, Parse(p))], Parse(p)).Delta?
    ensures Compress(tx, p, true).1 == CompressedTcp && HasHeader(p)
  {
    EncodeParse(p);
    hide Parse, HasHeader, Squeezed, Compare;
  }
}
