/** The state of one serial line, updated in place: the ring of transmit states and the table of receive states. */
module VjCompress {
  import opened Prelude
  import opened Bytes
  import opened VjHeader
  import opened VjDelta
  import opened VjProtocol
  import opened VjChoice

  /** `next` closes the states into one ring, in the order of use, that ends at `last`. */
  predicate Ring(next: seq<nat>, order: seq<nat>, last: nat) {
    && |next| == MAX_STATES && IsOrder(order) && last == order[MAX_STATES - 1]
    && next[last] == order[0]
    && (forall i :: 0 <= i < MAX_STATES - 1 ==> next[order[i]] == order[i + 1])
  }

  /** Stepping the end of the ring back by one makes its last state the first. */
  lemma RingTurned(next: seq<nat>, order: seq<nat>, last: nat)
    requires Ring(next, order, last)
    ensures Ring(next, ToFront(order, MAX_STATES - 1), order[MAX_STATES - 2])
  {
    var o := ToFront(order, MAX_STATES - 1);
    ToFrontIsOrder(order, MAX_STATES - 1);
    assert forall j :: 0 <= j < |o| ==> o[j] == if j == 0 then order[MAX_STATES - 1] else order[j - 1];
  }

  /** Unlinking a state in the middle of the ring and linking it in between the last and the first. */
  lemma RingMoved(next: seq<nat>, order: seq<nat>, last: nat, i: nat)
    requires Ring(next, order, last) && 1 <= i < MAX_STATES - 1
    ensures var n := order[i];
            Ring(next[order[i - 1] := next[n]][n := next[last]][last := n], ToFront(order, i), last)
  {
    var n := order[i];
    var o := ToFront(order, i);
    ToFrontIsOrder(order, i);
    assert forall j :: 0 <= j < |o| ==> o[j] == if j == 0 then n else if j <= i then order[j - 1] else order[j];
    var next' := next[order[i - 1] := next[n]][n := next[last]][last := n];
    forall j | 0 <= j < MAX_STATES - 1 ensures next'[o[j]] == o[j + 1] {
      if j == 0 {
      } else if j < i {
        assert next'[order[j - 1]] == next[order[j - 1]];
      } else if j == i {
      } else {
        assert next'[order[j]] == next[order[j]];
      }
    }
  }

  class SlCompress {
    const tstate: array<Option<Header>>
    const next: array<nat>
    const rstate: array<Option<Header>>
    var lastCs: nat
    var lastXmit: nat
    var lastRecv: nat
    var toss: bool
    ghost var order: seq<nat>

    ghost function SenderState(): Sender
      reads this, tstate
    {
      Sender(tstate[..], order, lastXmit)
    }

    function ReceiverState(): Receiver
      reads this, rstate
    {
      Receiver(rstate[..], lastRecv, toss)
    }

    ghost predicate Valid()
      reads this, tstate, next, rstate
    {
      && tstate != rstate && tstate.Length == MAX_STATES && rstate.Length == MAX_STATES
      && Ring(next[..], order, lastCs)
      && ValidSender(SenderState())
      && ValidReceiver(ReceiverState())
    }

    constructor ()
      ensures Valid() && fresh(tstate) && fresh(next) && fresh(rstate)
      ensures SenderState() == InitialSender() && ReceiverState() == InitialReceiver()
    {
      tstate := new Option<Header>[MAX_STATES](_ => None);
      rstate := new Option<Header>[MAX_STATES](_ => None);
      next := new nat[MAX_STATES](_ => 0);
      lastCs, lastXmit, lastRecv, toss := 0, NO_STATE, NO_STATE, true;
      order := InitialSender().order;
      new;
      var i := MAX_STATES - 1;
      while i > 0
        modifies next
        invariant 0 <= i < MAX_STATES
        invariant forall j :: i < j < MAX_STATES ==> next[j] == j - 1
      {
        next[i] := i - 1;
        i := i - 1;
      }
      next[0] := MAX_STATES - 1;
      assert tstate[..] == InitialSender().slots && rstate[..] == InitialReceiver().slots;
      InitialInStep();
    }

    predicate IsFor(n: nat, h: Header)
      requires n < tstate.Length
      reads tstate
    {
      Matches(tstate[n], h)
    }

    /** Search the ring from its second state on; `lcs` is the state before the one the search ends at. */
    method Find(h: Header) returns (cs: nat, lcs: nat, ghost i: nat)
      requires Valid() && !IsFor(order[0], h)
      ensures 1 <= i < MAX_STATES && lcs == order[i - 1] && cs == order[i]
      ensures i == Place(tstate[..], order, h, 0)
    {
      hide ValidSender, ValidReceiver;
      lcs := next[lastCs];
      PlaceStep(tstate[..], order, h, 0);
      cs := next[lcs];
      i := 1;
      while cs != lastCs && !IsFor(cs, h)
        invariant 1 <= i < MAX_STATES && lcs == order[i - 1] && cs == order[i]
        invariant Place(tstate[..], order, h, 0) == Place(tstate[..], order, h, i)
        decreases MAX_STATES - i
      {
        PlaceStep(tstate[..], order, h, i);
        lcs := cs;
        cs := next[cs];
        i := i + 1;
      }
      PlaceEnds(tstate[..], order, h, i);
    }

    /** Find the state of the connection, or failing that the one least recently used, and move it to the front. */
    method Locate(h: Header) returns (cs: nat)
      requires Valid()
      modifies this`lastCs, this`order, next
      ensures tstate[..] == old(tstate[..]) && rstate[..] == old(rstate[..]) && Ring(next[..], order, lastCs)
      ensures cs == old(SlotFor(SenderState(), h))
      ensures order == ToFront(old(order), old(Place(tstate[..], order, h, 0)))
    {
      hide ValidSender, ValidReceiver, Place;
      cs := next[lastCs];
      if IsFor(cs, h) {
        PlaceEnds(tstate[..], order, h, 0);
        ToFrontSelf(order);
        return;
      }
      var last := lastCs;
      ghost var i;
      var lcs;
      cs, lcs, i := Find(h);
      hide IsOrder, ToFront;
      if cs == last {
        // the ring is circular: its last state is followed by the first
        LastPlace(order, i);
        RingTurned(next[..], order, lastCs);
        lastCs := lcs;
        order := ToFront(order, MAX_STATES - 1);
      } else {
        RingMoved(next[..], order, lastCs, i);
        next[lcs] := next[cs];
        next[cs] := next[last];
        next[last] := cs;
        order := ToFront(order, i);
      }
    }

    /**
     Compress a packet: the form it goes out in and the new state are those of the specification.
     */
    method CompressTcp(p: Packet, implicitIds: bool) returns (kind: Kind, w: Packet)
      requires Valid() && Sendable(p)
      modifies this`lastCs, this`order, this`lastXmit, next, tstate
      ensures Valid() && ReceiverState() == old(ReceiverState())
      ensures (SenderState(), kind, w) == Compress(old(SenderState()), p, implicitIds)
      ensures kind == Ip <==> !Eligible(p)
      ensures kind == CompressedTcp
              <==> Eligible(p) && HasHeader(p) && exists i :: KnownEncodable(old(SenderState()), Parse(p), i)
    {
      hide ValidSender, ValidReceiver, Place, ToFront, Ring, Parse, HasHeader, Compare, Squeezed, Eligible,
           KnownEncodable;
      ghost var tx := SenderState();
      SenderStaysValid(tx, p, implicitIds);
      FormIff(tx, p, implicitIds);
      if W16(p, 6) % 0x4000 != 0 || |p| < 40 {
        return Ip, p;
      }
      var h := Parse(p);
      if !AckOnly(h.flags) {
        return Ip, p;
      }
      EncodeParse(p);
      var n := Locate(h);
      var d := Uncompressed;
      if tstate[n].Some? && Matches(tstate[n], h) {
        d := Encoded(tstate[n].value, h);
      }
      var last := lastXmit;
      tstate[n] := Some(h);
      lastXmit := n;
      assert tstate[..] == tx.slots[n := Some(h)];
      if d.Uncompressed? {
        return UncompressedTcp, p[9 := n];
      }
      var newC := !implicitIds || last != n;
      kind, w := CompressedTcp, Squeezed(d, newC, n, p, h);
    }

    /**
     Restore a packet of which `len` octets were received at the front of `buf`; an IP packet should not come here.
     */
    method UncompressTcp(kind: Kind, buf: Packet, len: nat) returns (out: Option<Packet>)
      requires Valid() && Receivable(ReceiverState(), kind, buf, len)
      modifies this`lastRecv, this`toss, rstate
      ensures Valid() && SenderState() == old(SenderState())
      ensures (ReceiverState(), out) == Uncompress(old(ReceiverState()), if kind == Ip then Unknown else kind, buf, len)
    {
      hide ValidSender, Ring, Parse, Rebuild, Assembled, Uncompress, Receivable, ToChanges;
      match kind {
        case Ip =>
          EmptyCases(ReceiverState(), buf, len);
          out := BadType();
        case Unknown =>
          EmptyCases(ReceiverState(), buf, len);
          out := BadType();
        case UncompressedTcp => out := UncompressedIn(buf, len);
        case CompressedTcp => out := CompressedIn(buf, len);
      }
    }

    method BadType() returns (out: Option<Packet>)
      requires Valid()
      modifies this`toss
      ensures Valid() && SenderState() == old(SenderState()) && out == None
              && ReceiverState() == old(ReceiverState()).(toss := true)
    {
      hide ValidSender, Ring;
      toss := true;
      out := None;
    }

    /** A packet with its headers complete: the protocol field tells the slot. */
    method UncompressedIn(buf: Packet, len: nat) returns (out: Option<Packet>)
      requires Valid() && Receivable(ReceiverState(), UncompressedTcp, buf, len)
      modifies this`lastRecv, this`toss, rstate
      ensures Valid() && SenderState() == old(SenderState())
      ensures (ReceiverState(), out) == Uncompress(old(ReceiverState()), UncompressedTcp, buf, len)
    {
      hide ValidSender, Ring, Parse, Rebuild, Assembled;
      var p := buf[..len];
      if p[9] >= MAX_STATES {
        toss := true;
        return None;
      }
      lastRecv := p[9];
      toss := false;
      ProtocolByte(p, IPPROTO_TCP);
      p := p[9 := IPPROTO_TCP];
      EncodeParse(p);
      hide HasHeader;
      rstate[lastRecv] := Some(Parse(p).(sum := 0));
      assert rstate[..] == old(rstate[..])[lastRecv := Some(Parse(p).(sum := 0))];
      out := Some(p);
    }

    /** A compressed packet: its slot is told explicitly or is the last one. */
    method CompressedIn(buf: Packet, len: nat) returns (out: Option<Packet>)
      requires Valid() && Receivable(ReceiverState(), CompressedTcp, buf, len)
      modifies this`lastRecv, this`toss, rstate
      ensures Valid() && SenderState() == old(SenderState())
      ensures (ReceiverState(), out) == Uncompress(old(ReceiverState()), CompressedTcp, buf, len)
    {
      hide ValidSender, Ring, Parse, Rebuild, Assembled, ToChanges;
      var c := ToChanges(buf[0]);
      var cp := 1;
      if c.newC {
        if buf[1] >= MAX_STATES {
          toss := true;
          return None;
        }
        toss := false;
        lastRecv := buf[1];
        cp := 2;
      } else if toss {
        return None;
      }
      out := Rebuilding(c, buf, cp, len);
    }

    /** The rest of restoring a compressed packet once its state is known. */
    method Rebuilding(c: Changes, buf: Packet, i: nat, len: nat) returns (out: Option<Packet>)
      requires Valid() && len <= |buf| && i + 17 <= |buf| && lastRecv < MAX_STATES && rstate[lastRecv].Some? && !toss
      modifies this`toss, rstate
      ensures Valid() && SenderState() == old(SenderState())
      ensures var cs := old(rstate[lastRecv]).value;
              var (h, j) := Rebuild(cs, c, buf, i);
              var h' := h.(len := (len - j + HeaderLen(h)) % 0x1_0000);
              var rx := old(ReceiverState());
              && Proper(h) && Proper(h')
              && (ReceiverState(), out)
                 == if j > len then (Receiver(rx.slots[lastRecv := Some(h)], lastRecv, true), None)
                    else (Receiver(rx.slots[lastRecv := Some(h')], lastRecv, false), Some(Assembled(h', buf[j..len])))
    {
      hide ValidSender, Ring, Rebuild, Encode, EncodeIp, Checksum;
      var h, cp := Decoded(rstate[lastRecv].value, c, buf, i);
      if cp > len {
        rstate[lastRecv] := Some(h);
        assert rstate[..] == old(rstate[..])[lastRecv := Some(h)];
        toss := true;
        return None;
      }
      h := h.(len := (len - cp + HeaderLen(h)) % 0x1_0000);
      rstate[lastRecv] := Some(h);
      assert rstate[..] == old(rstate[..])[lastRecv := Some(h)];
      IpOctets(h.(sum := 0));
      var sum := IpSum(EncodeIp(h.(sum := 0)));
      out := Some(Encode(h.(sum := sum)) + buf[cp..len]);
    }
  }

  lemma EmptyCases(rx: Receiver, buf: Packet, len: nat)
    requires ValidReceiver(rx) && (Receivable(rx, Ip, buf, len) || Receivable(rx, Unknown, buf, len))
    ensures Receivable(rx, Unknown, buf, len) && Uncompress(rx, Unknown, buf, len) == (rx.(toss := true), None)
  {
  }

  /** Apply the changes in a compressed packet to the saved header, reading numbers from `i` on. */
  method Decoded(cs: Header, c: Changes, buf: Packet, i: nat) returns (h: Header, cp: nat)
    requires i + 17 <= |buf|
    ensures (h, cp) == Rebuild(cs, c, buf, i)
  {
    hide ReadNumber, Add16, Add32, W16, HeaderLen;
    h := cs.(tsum := W16(buf, i), flags := cs.flags.(push := c.push));
    cp := i + 2;
    if SpecialI(c) {
      var data := h.len - HeaderLen(h);
      h := h.(ack := Add32(h.ack, data), sn := Add32(h.sn, data));
    } else if SpecialD(c) {
      h := h.(sn := Add32(h.sn, h.len - HeaderLen(h)));
    } else {
      h, cp := DecodedTcp(h, c, buf, cp);
    }
    if c.newI {
      var (d, k) := ReadNumber(buf, cp);
      h := h.(id := Add16(h.id, d));
      cp := k;
    } else {
      h := h.(id := Add16(h.id, 1));
    }
  }

  method DecodedTcp(h0: Header, c: Changes, buf: Packet, i: nat) returns (h: Header, cp: nat)
    requires i + 15 <= |buf| && !SpecialI(c) && !SpecialD(c)
    ensures (h, cp) == RebuildTcp(h0, c, buf, i)
  {
    hide ReadNumber, Add16, Add32, W16, HeaderLen;
    h, cp := h0, i;
    if c.newU {
      var (d, k) := ReadNumber(buf, cp);
      h := h.(urp := d, flags := h.flags.(urg := true));
      cp := k;
    } else {
      h := h.(flags := h.flags.(urg := false));
    }
    if c.newW {
      var (d, k) := ReadNumber(buf, cp);
      h := h.(win := Add16(h.win, d));
      cp := k;
    }
    if c.newA {
      var (d, k) := ReadNumber(buf, cp);
      h := h.(ack := Add32(h.ack, d));
      cp := k;
    }
    if c.newS {
      var (d, k) := ReadNumber(buf, cp);
      h := h.(sn := Add32(h.sn, d));
      cp := k;
    }
  }

  /** The IP header checksum, summed word by word. */
  method IpSum(b: seq<Byte>) returns (sum: Word)
    requires |b| % 2 == 0 && |b| <= 60
    ensures sum == Checksum(b)
  {
    var changes := 0;
    var i := 0;
    while i < |b|
      invariant 0 <= i <= |b| && i % 2 == 0 && changes + WordSum(b[i..]) == WordSum(b)
    {
      assert b[i..][2..] == b[i + 2..];
      changes := changes + W16(b, i);
      i := i + 2;
    }
    SumSmall(b);
    changes := changes % 0x1_0000 + changes / 0x1_0000;
    changes := changes % 0x1_0000 + changes / 0x1_0000;
    sum := 0xffff - changes;
  }

  lemma LastPlace(order: seq<nat>, i: nat)
    requires IsOrder(order) && i < MAX_STATES && order[i] == order[MAX_STATES - 1]
    ensures i == MAX_STATES - 1
  {
  }

  /** Collect the numbers to send in the order urgent pointer, window, acknowledgement, sequence number. */
  method Collect(cs: Header, h: Header) returns (ok: bool, u: bool, w: bool, a: bool, s: bool, cp: seq<Byte>)
    ensures ok <==> (h.flags.urg || h.urp == cs.urp) && Sub32(h.ack, cs.ack) <= 0xffff && Sub32(h.sn, cs.sn) <= 0xffff
    ensures ok ==> u == h.flags.urg && w == (Sub16(h.win, cs.win) != 0)
                   && a == (Sub32(h.ack, cs.ack) != 0) && s == (Sub32(h.sn, cs.sn) != 0)
    ensures ok ==> cp == Part(u, h.urp) + Part(w, Sub16(h.win, cs.win)) + Part(a, Sub32(h.ack, cs.ack))
                         + Part(s, Sub32(h.sn, cs.sn))
  {
    hide Sub16, Sub32, Number;
    ok, u, w, a, s, cp := false, false, false, false, false, [];
    if h.flags.urg {
      cp := cp + Number(h.urp);
      u := true;
    } else if h.urp != cs.urp {
      return;
    }
    var dW := Sub16(h.win, cs.win);
    if dW != 0 {
      cp := cp + Number(dW);
      w := true;
    }
    var dA := Sub32(h.ack, cs.ack);
    if dA != 0 {
      if dA > 0xffff {
        return;
      }
      cp := cp + Number(dA);
      a := true;
    }
    var dS := Sub32(h.sn, cs.sn);
    if dS != 0 {
      if dS > 0xffff {
        return;
      }
      cp := cp + Number(dS);
      s := true;
    }
    ok := true;
  }

  /** Compare a header with the saved one and choose the encoding. */
  method Encoded(cs: Header, h: Header) returns (d: Delta)
    ensures d == Compare(cs, h)
  {
    var hlen := HeaderLen(h);
    assert 0 <= hlen < 0x1_0000_0000;
    hide Sub16, Sub32, Part, SameShape, HeaderLen;
    if !SameShape(cs, h) {
      return Uncompressed;
    }
    var ok, u, w, a, s, cp := Collect(cs, h);
    if !ok {
      return Uncompressed;
    }
    var dA, dS := Sub32(h.ack, cs.ack), Sub32(h.sn, cs.sn);
    var lastData := Sub32(cs.len, hlen);
    var i := h.id - cs.id != 1;
    ghost var id := Part(i, Sub16(h.id, cs.id));
    Collected(Part(u, h.urp), Part(w, Sub16(h.win, cs.win)), Part(a, dA), Part(s, dS), id);
    if !s && !a && !w && !u {
      if !(h.len != cs.len && cs.len == hlen) {
        return Uncompressed;
      }
    } else if s && w && u {
      return Uncompressed;
    } else if s && a && !w && !u {
      if dS == dA && dS == lastData {
        // special case for echoed terminal traffic
        a, w, u := false, true, true;
        cp := [];
      }
    } else if s && !a && !w && !u {
      if dS == lastData {
        // special case for data transfer
        a, w, u := true, true, true;
        cp := [];
      }
    }
    cp := cp + Part(i, Sub16(h.id, cs.id));
    d := Delta(Changes(false, i, h.flags.push, s, a, w, u), cp);
  }

  lemma Collected(u: seq<Byte>, w: seq<Byte>, a: seq<Byte>, s: seq<Byte>, i: seq<Byte>)
    ensures u + w + a + s + i == u + (w + (a + (s + i))) && [] + i == i
  {
  }

  lemma ToFrontSelf(order: seq<nat>)
    requires IsOrder(order)
    ensures ToFront(order, 0) == order
  {
  }

  lemma PlaceStep(slots: seq<Option<Header>>, order: seq<nat>, h: Header, i: nat)
    requires |slots| == MAX_STATES && IsOrder(order) && i < MAX_STATES - 1 && !Matches(slots[order[i]], h)
    ensures Place(slots, order, h, i) == Place(slots, order, h, i + 1)
  {
  }

  lemma PlaceEnds(slots: seq<Option<Header>>, order: seq<nat>, h: Header, i: nat)
    requires |slots| == MAX_STATES && IsOrder(order) && i < MAX_STATES
    requires Matches(slots[order[i]], h) || i == MAX_STATES - 1
    ensures Place(slots, order, h, i) == i
  {
  }
}
