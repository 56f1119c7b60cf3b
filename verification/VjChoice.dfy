/**
 What the compressor chooses, stated in terms of the octets of packets and the history of a connection: the form a
 packet goes out in, the connection number it gets, and what a receiver discards after an error.
 */
module VjChoice {
  import opened Prelude
  import opened Bytes
  import opened VjHeader
  import opened VjDelta
  import opened VjProtocol

  // ----- the form of a packet

  /** Not a fragment, 40 octets at least, and of the four connection control bits of TCP only ACK is set. */
  predicate Eligible(p: Packet) {
    && |p| >= 40 && p[6] % 64 == 0 && p[7] == 0
    && var t := 4 * (p[0] % 16) + 13;
       t < |p| && p[t] % 8 == 0 && p[t] / 16 % 2 == 1
  }

  /** The saved header at place `i` in the order of use is of the connection of `h`, and none before it is. */
  predicate Known(tx: Sender, h: Header, i: nat)
    requires |tx.slots| == MAX_STATES && IsOrder(tx.order)
  {
    && i < MAX_STATES && tx.slots[tx.order[i]].Some?
    && (var cs := tx.slots[tx.order[i]].value; cs.src == h.src && cs.dst == h.dst && cs.ports == h.ports)
    && forall j :: 0 <= j < i ==> !Matches(tx.slots[tx.order[j]], h)
  }

  /** It is there, and the header can be told from it by a difference. */
  predicate KnownEncodable(tx: Sender, h: Header, i: nat)
    requires |tx.slots| == MAX_STATES && IsOrder(tx.order)
  {
    Known(tx, h, i) && Encodable(tx.slots[tx.order[i]].value, h)
  }

  /** The bits of the octet of TCP flags. */
  lemma FlagBits(x: Byte)
    ensures var f := ToFlags(x);
            && (f.fin <==> x % 2 == 1) && (f.syn <==> x / 2 % 2 == 1) && (f.rst <==> x / 4 % 2 == 1)
            && (f.push <==> x / 8 % 2 == 1) && (f.ack <==> x / 16 % 2 == 1) && (f.urg <==> x / 32 % 2 == 1)
            && f.reserved == x / 64
  {
    var x1, x2, x3, x4, x5 := x / 2, x / 4, x / 8, x / 16, x / 32;
    assert x1 / 2 == x2 && x2 / 2 == x3 && x3 / 2 == x4 && x4 / 2 == x5 && x5 / 2 == x / 64;
  }

  lemma LowBits(x: Byte)
    ensures x % 8 == 0 <==> x % 2 == 0 && x / 2 % 2 == 0 && x / 4 % 2 == 0
  {
  }

  /** Where the fields of a header are in its octets. */
  lemma FieldValues(b: Packet)
    requires HasHeader(b)
    ensures var h, t := Parse(b), 4 * (b[0] % 16);
            && h.vhl == b[0] && h.tos == b[1] && h.len == Two(b, 2) && h.id == Two(b, 4) && h.off == Two(b, 6)
            && h.ttl == b[8] && h.proto == b[9] && h.sum == Two(b, 10) && h.src == Four(b, 12) && h.dst == Four(b, 16)
            && h.ports == Four(b, t) && h.sn == Four(b, t + 4) && h.ack == Four(b, t + 8) && h.offx2 == b[t + 12]
            && h.win == Two(b, t + 14) && h.tsum == Two(b, t + 16) && h.urp == Two(b, t + 18)
            && h.ipopt == b[20..t] && h.topt == b[t + 20..t + 4 * (b[t + 12] / 16)]
  {
    hide ToFlags;
  }

  function Two(b: Packet, i: nat): int
    requires i + 2 <= |b|
  {
    256 * (b[i] as int) + b[i + 1]
  }

  function Four(b: Packet, i: nat): int
    requires i + 4 <= |b|
  {
    0x100_0000 * (b[i] as int) + 0x1_0000 * (b[i + 1] as int) + 256 * (b[i + 2] as int) + b[i + 3]
  }

  lemma Fragment(x: Byte, y: Byte)
    ensures (256 * (x as int) + y) % 0x4000 == 0 <==> x % 64 == 0 && y == 0
  {
  }

  lemma EligibleIff(p: Packet)
    requires Sendable(p)
    ensures Eligible(p) <==> Compressible(p)
  {
    if |p| >= 40 {
      Fragment(p[6], p[7]);
      if Candidate(p) {
        var x := p[4 * (p[0] % 16) + 13];
        FlagBits(x);
        LowBits(x);
        hide ToFlags;
      }
    }
  }

  lemma PlaceKnown(tx: Sender, h: Header, i: nat)
    requires ValidSender(tx) && Known(tx, h, i)
    ensures Place(tx.slots, tx.order, h, 0) == i && SlotFor(tx, h) == tx.order[i]
  {
    PlaceMeans(tx.slots, tx.order, h, 0);
  }

  /**
   The form of a packet: it goes out as it is exactly if it is not eligible, and compressed exactly if it is, its
   connection is known and its header can be told from the saved one.
   */
  lemma FormIff(tx: Sender, p: Packet, implicitIds: bool)
    requires ValidSender(tx) && Sendable(p)
    ensures Compress(tx, p, implicitIds).1 == Ip <==> !Eligible(p)
    ensures Compress(tx, p, implicitIds).1 == CompressedTcp
            <==> Eligible(p) && HasHeader(p) && exists i :: KnownEncodable(tx, Parse(p), i)
  {
    EligibleIff(p);
    if Compressible(p) {
      var h := Parse(p);
      var k := Place(tx.slots, tx.order, h, 0);
      PlaceMeans(tx.slots, tx.order, h, 0);
      var slot := tx.slots[tx.order[k]];
      hide Parse, HasHeader, Place, Compare, Encodable, Squeezed, ToFront, Eligible, ValidSender;
      if slot.Some? && Matches(slot, h) {
        CompareIff(slot.value, h);
        assert Known(tx, h, k);
        assert KnownEncodable(tx, h, k) <==> Encodable(slot.value, h);
      }
      forall i | KnownEncodable(tx, h, i) ensures i == k {
        PlaceKnown(tx, h, i);
      }
    }
  }

  /**
   The octets of a compressed packet: changes, connection number exactly if it may not be left out or is not the last
   one sent, TCP checksum, numbers, data.
   */
  lemma CompressedOctets(tx: Sender, p: Packet, implicitIds: bool, i: nat)
    requires ValidSender(tx) && Sendable(p) && Eligible(p) && HasHeader(p) && KnownEncodable(tx, Parse(p), i)
    ensures var (tx', kind, w) := Compress(tx, p, implicitIds);
            var h, n := Parse(p), tx.order[i];
            var cs := tx.slots[n].value;
            var explicit := !implicitIds || tx.last != n;
            && kind == CompressedTcp && tx'.last == n && tx'.slots == tx.slots[n := Some(h)] && Compare(cs, h).Delta?
            && HeaderLen(h) <= |p|
            && w == [ChangesByte(Compare(cs, h).changes.(newC := explicit))] + (if explicit then [n] else [])
                    + ([h.tsum / 256, h.tsum % 256] + Compare(cs, h).numbers) + p[HeaderLen(h)..]
  {
    EligibleIff(p);
    EncodeParse(p);
    var h := Parse(p);
    PlaceKnown(tx, h, i);
    CompareIff(tx.slots[tx.order[i]].value, h);
    hide Parse, HasHeader, Place, Compare, Encodable, ToFront, Eligible, ValidSender, ChangesByte;
  }

  // ----- which connection number

  function Position(order: seq<nat>, s: nat): nat {
    if order == [] || order[0] == s then 0 else 1 + Position(order[1..], s)
  }

  /** When a number was last used: the higher the later; those never used as they were at first. */
  function Rank(order: seq<nat>, uses: seq<nat>, s: nat): int {
    if uses == [] then 0 - Position(order, s)
    else if uses[|uses| - 1] == s then |uses|
    else Rank(order, uses[..|uses| - 1], s)
  }

  lemma {:induction false} RankBound(order: seq<nat>, uses: seq<nat>, s: nat)
    ensures Rank(order, uses, s) <= |uses|
    decreases |uses|
  {
    if uses != [] && uses[|uses| - 1] != s {
      RankBound(order, uses[..|uses| - 1], s);
    }
  }

  /** The order of the numbers is that of their last use. */
  ghost predicate ByRank(first: seq<nat>, uses: seq<nat>, order: seq<nat>) {
    forall i, j :: 0 <= i < j < |order| ==> Rank(first, uses, order[i]) > Rank(first, uses, order[j])
  }

  lemma {:induction false} PositionAt(order: seq<nat>, i: nat)
    requires i < |order| && forall j, k :: 0 <= j < k < |order| ==> order[j] != order[k]
    ensures Position(order, order[i]) == i
  {
    if i > 0 {
      assert order[1..][i - 1] == order[i];
      PositionAt(order[1..], i - 1);
    }
  }

  lemma FirstByRank(order: seq<nat>)
    requires IsOrder(order)
    ensures ByRank(order, [], order)
  {
    forall i, j | 0 <= i < j < |order| ensures Rank(order, [], order[i]) > Rank(order, [], order[j]) {
      PositionAt(order, i);
      PositionAt(order, j);
    }
  }

  lemma RankNext(first: seq<nat>, uses: seq<nat>, n: nat, s: nat)
    ensures Rank(first, uses + [n], s) == if s == n then |uses| + 1 else Rank(first, uses, s)
  {
    assert (uses + [n])[..|uses|] == uses;
  }

  /** Using a number and moving it to the front keeps them so. */
  lemma UseKeepsRank(first: seq<nat>, uses: seq<nat>, order: seq<nat>, k: nat)
    requires IsOrder(order) && k < |order| && ByRank(first, uses, order)
    ensures ByRank(first, uses + [order[k]], ToFront(order, k))
  {
    hide Rank;
    var n, o := order[k], ToFront(order, k);
    forall i, j | 0 <= i < j < |o| ensures Rank(first, uses + [n], o[i]) > Rank(first, uses + [n], o[j]) {
      var i0, j0 := if i <= k then i - 1 else i, if j <= k then j - 1 else j;
      assert o[j] == order[j0] && (i > 0 ==> o[i] == order[i0]) && (i == 0 ==> o[i] == n);
      RankNext(first, uses, n, o[i]);
      RankNext(first, uses, n, o[j]);
      RankBound(first, uses, o[j]);
    }
  }

  /** A run of packets to send: the sender afterwards, and the numbers used on the way. */
  ghost function SendRun(tx: Sender, ps: seq<Packet>, implicitIds: bool): (r: (Sender, seq<nat>))
    requires ValidSender(tx) && forall i :: 0 <= i < |ps| ==> Sendable(ps[i])
    ensures ValidSender(r.0)
    decreases |ps|
  {
    if ps == [] then (tx, [])
    else
      var (tx1, uses) := SendRun(tx, ps[..|ps| - 1], implicitIds);
      var p := ps[|ps| - 1];
      SenderStaysValid(tx1, p, implicitIds);
      (Compress(tx1, p, implicitIds).0, uses + if Compressible(p) then [SlotFor(tx1, Parse(p))] else [])
  }

  /**
   After any run of packets, the numbers are in the order of their last use: the number given to a connection that is
   not known is the one that was not used for the longest time.
   */
  lemma {:induction false} LeastRecentlyUsed(tx: Sender, ps: seq<Packet>, implicitIds: bool, h: Header)
    requires ValidSender(tx) && forall i :: 0 <= i < |ps| ==> Sendable(ps[i])
    ensures var (tx', uses) := SendRun(tx, ps, implicitIds);
            && ByRank(tx.order, uses, tx'.order)
            && ((forall i :: 0 <= i < MAX_STATES ==> !Matches(tx'.slots[i], h)) ==>
                  forall s :: 0 <= s < MAX_STATES && s != SlotFor(tx', h) ==>
                    Rank(tx.order, uses, s) > Rank(tx.order, uses, SlotFor(tx', h)))
    decreases |ps|
  {
    hide Rank, Matches, Parse, Compressible, Sendable;
    var (tx', uses) := SendRun(tx, ps, implicitIds);
    if ps == [] {
      FirstByRank(tx.order);
    } else {
      var before := ps[..|ps| - 1];
      LeastRecentlyUsed(tx, before, implicitIds, h);
      var (tx1, uses1) := SendRun(tx, before, implicitIds);
      UsedNext(tx, tx1, uses1, ps[|ps| - 1], implicitIds);
    }
    OldestTaken(tx.order, uses, tx', h);
  }

  lemma UsedNext(tx: Sender, tx1: Sender, uses: seq<nat>, p: Packet, implicitIds: bool)
    requires ValidSender(tx1) && Sendable(p) && ByRank(tx.order, uses, tx1.order)
    ensures ByRank(tx.order, uses + (if Compressible(p) then [SlotFor(tx1, Parse(p))] else []),
                   Compress(tx1, p, implicitIds).0.order)
  {
    hide Rank, ToFront, Squeezed, Place, ByRank;
    assert uses + [] == uses;
    if Compressible(p) {
      UseKeepsRank(tx.order, uses, tx1.order, Place(tx1.slots, tx1.order, Parse(p), 0));
    }
  }

  lemma OldestTaken(first: seq<nat>, uses: seq<nat>, tx: Sender, h: Header)
    requires ValidSender(tx) && ByRank(first, uses, tx.order)
    ensures (forall i :: 0 <= i < MAX_STATES ==> !Matches(tx.slots[i], h)) ==>
              forall s :: 0 <= s < MAX_STATES && s != SlotFor(tx, h) ==>
                Rank(first, uses, s) > Rank(first, uses, SlotFor(tx, h))
  {
    hide Rank, Matches;
    if forall i :: 0 <= i < MAX_STATES ==> !Matches(tx.slots[i], h) {
      PlaceMeans(tx.slots, tx.order, h, 0);
      assert SlotFor(tx, h) == tx.order[MAX_STATES - 1];
      forall s | 0 <= s < MAX_STATES && s != SlotFor(tx, h)
        ensures Rank(first, uses, s) > Rank(first, uses, SlotFor(tx, h)) {
        var i := AllThere(tx.order, s);
      }
    }
  }

  /** An order of all numbers has every number. */
  lemma AllThere(order: seq<nat>, s: nat) returns (i: nat)
    requires IsOrder(order) && s < MAX_STATES
    ensures i < |order| && order[i] == s
  {
    if s !in order {
      NotMissing(order, s, MAX_STATES);
      assert false;
    }
    i :| 0 <= i < |order| && order[i] == s;
  }

  lemma NotMissing(order: seq<nat>, s: nat, n: nat)
    requires |order| == n && (forall i :: 0 <= i < n ==> order[i] < n) && s < n
    requires forall i, j :: 0 <= i < j < n ==> order[i] != order[j]
    ensures s in order
  {
    hide UpTo, Members;
    if s !in order {
      Counted(order);
      OneLess(UpTo(n), s);
      Fewer(Members(order), UpTo(n) - {s});
      assert false;
    }
  }

  lemma OneLess(a: set<nat>, s: nat)
    requires s in a
    ensures |a - {s}| == |a| - 1
  {
  }

  /** The numbers below `n`. */
  ghost function UpTo(n: nat): (all: set<nat>)
    ensures |all| == n && forall k: int :: k in all <==> 0 <= k < n
  {
    if n == 0 then {} else UpTo(n - 1) + {n - 1}
  }

  ghost function Members(s: seq<nat>): (here: set<nat>)
    ensures forall k :: k in here <==> k in s
    decreases |s|
  {
    if s == [] then {} else Members(s[..|s| - 1]) + {s[|s| - 1]}
  }

  lemma {:induction false} Counted(s: seq<nat>)
    requires forall i, j :: 0 <= i < j < |s| ==> s[i] != s[j]
    ensures |Members(s)| == |s|
    decreases |s|
  {
    if s != [] {
      var n := |s| - 1;
      Counted(s[..n]);
      assert s[n] !in s[..n];
    }
  }

  lemma {:induction false} Fewer(a: set<nat>, b: set<nat>)
    requires a <= b
    ensures |a| <= |b|
    decreases |a|
  {
    if a != {} {
      var x :| x in a;
      Fewer(a - {x}, b - {x});
    }
  }

  // ----- after an error

  /** A compressed packet that does not name its connection, with what follows it in the receive buffer. */
  predicate Unnamed(buf: Packet, len: nat) {
    |buf| >= 19 && len <= |buf| && buf[0] / 64 % 2 == 0
  }

  lemma NamedBit(x: Byte)
    ensures ToChanges(x).newC <==> x / 64 % 2 == 1
  {
    var x1, x2, x3, x4, x5 := x / 2, x / 4, x / 8, x / 16, x / 32;
    assert x1 / 2 == x2 && x2 / 2 == x3 && x3 / 2 == x4 && x4 / 2 == x5 && x5 / 2 == x / 64;
  }

  /** What a receiver makes of compressed packets, one after the other. */
  ghost function ReceiveRun(rx: Receiver, bufs: seq<(Packet, nat)>): (seq<Option<Packet>>, Receiver)
    requires ValidReceiver(rx) && rx.toss && forall i :: 0 <= i < |bufs| ==> Unnamed(bufs[i].0, bufs[i].1)
    ensures ReceiveRun(rx, bufs).1 == rx && |ReceiveRun(rx, bufs).0| == |bufs|
    ensures forall i :: 0 <= i < |bufs| ==> ReceiveRun(rx, bufs).0[i] == None
    decreases |bufs|
  {
    if bufs == [] then ([], rx)
    else
      TossesUnnamed(rx, bufs[0].0, bufs[0].1);
      var (rx1, out) := Uncompress(rx, CompressedTcp, bufs[0].0, bufs[0].1);
      var (outs, end) := ReceiveRun(rx1, bufs[1..]);
      ([out] + outs, end)
  }

  lemma TossesUnnamed(rx: Receiver, buf: Packet, len: nat)
    requires ValidReceiver(rx) && rx.toss && Unnamed(buf, len)
    ensures Receivable(rx, CompressedTcp, buf, len) && Uncompress(rx, CompressedTcp, buf, len) == (rx, None)
  {
    NamedBit(buf[0]);
    hide ToChanges;
  }

  /**
   A frame of unknown type, or one that names a connection out of range, sets off discarding; then no packet that
   leaves its connection number out is delivered, however many come, until one names it or comes uncompressed.
   */
  lemma DiscardsUntilNamed(rx: Receiver, kind: Kind, buf: Packet, len: nat, bufs: seq<(Packet, nat)>)
    requires ValidReceiver(rx) && Receivable(rx, kind, buf, len)
    requires forall i :: 0 <= i < |bufs| ==> Unnamed(bufs[i].0, bufs[i].1)
    requires || kind == Unknown
             || (kind == UncompressedTcp && buf[9] >= MAX_STATES)
             || (kind == CompressedTcp && buf[0] / 64 % 2 == 1 && buf[1] >= MAX_STATES)
    ensures var (rx', out) := Uncompress(rx, kind, buf, len);
            && out == None && rx'.toss && rx'.slots == rx.slots && ValidReceiver(rx')
            && |ReceiveRun(rx', bufs).0| == |bufs| && ReceiveRun(rx', bufs).1 == rx'
            && forall i :: 0 <= i < |bufs| ==> ReceiveRun(rx', bufs).0[i] == None
  {
    if kind == CompressedTcp {
      NamedBit(buf[0]);
    }
    hide ToChanges, Rebuild, Parse;
  }

  /** Whatever arrives but an IP packet: it is delivered exactly if the receiver does not discard afterwards. */
  lemma DeliversIff(rx: Receiver, kind: Kind, buf: Packet, len: nat)
    requires ValidReceiver(rx) && Receivable(rx, kind, buf, len) && kind != Ip
    ensures var (rx', out) := Uncompress(rx, kind, buf, len); out.Some? <==> !rx'.toss
  {
    hide ToChanges, Rebuild, Parse, Assembled;
  }

  /** A packet that names its connection, or is not compressed, ends the discarding if it is complete. */
  lemma NamedEndsIt(rx: Receiver, kind: Kind, buf: Packet, len: nat)
    requires ValidReceiver(rx) && Receivable(rx, kind, buf, len)
    requires || (kind == UncompressedTcp && buf[9] < MAX_STATES)
             || (kind == CompressedTcp && buf[0] / 64 % 2 == 1 && buf[1] < MAX_STATES)
    ensures var (rx', out) := Uncompress(rx, kind, buf, len);
            (out.Some? <==> !rx'.toss) && (kind == UncompressedTcp ==> out.Some?)
            && rx'.last == if kind == UncompressedTcp then buf[9] else buf[1]
  {
    if kind == CompressedTcp {
      NamedBit(buf[0]);
    }
    hide ToChanges, Rebuild, Parse, Assembled;
  }
}
