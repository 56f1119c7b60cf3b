/** The two ends of a serial line as drivers that update queues, buffers and compression state in place. */
module SlipDriver {
  import opened Prelude
  import opened VjHeader
  import opened VjProtocol
  import opened VjCompress
  import opened SlipFrame
  import opened SlipLine
  import Clist
  import Mbufs

  function Flat(m: seq<Packet>): Packet {
    if m == [] then [] else Flat(m[..|m| - 1]) + m[|m| - 1]
  }

  /** The end of the run of ordinary characters from `i` on. */
  method PlainRun(p: Packet, i: nat) returns (j: nat)
    requires i <= |p|
    ensures i <= j <= |p| && (j < |p| ==> IsSpecial(p[j])) && Stuff(p[i..j]) == p[i..j]
  {
    j := i;
    while j < |p| && !IsSpecial(p[j])
      invariant i <= j <= |p| && forall k :: i <= k < j ==> !IsSpecial(p[k])
    {
      j := j + 1;
    }
    StuffPlain(p[i..j]);
  }

  method PutEscaped(q: Clist.Queue, b: Byte)
    requires q.Valid() && IsSpecial(b)
    modifies q
    ensures q.Valid() && q.Contents() == old(q.Contents()) + Stuff([b])
  {
    StuffedSpecial(b);
    hide Stuff, StuffOctet, Clist.Text, Clist.AllValid;
    q.Putc(FRAME_ESCAPE);
    q.Putc(if b == FRAME_ESCAPE then TRANS_FRAME_ESCAPE else TRANS_FRAME_END);
  }

  /**
   Append a run of octets to the output queue, stuffed; ordinary characters are appended as many at once as there are.
   */
  method PutStuffed(q: Clist.Queue, p: Packet)
    requires q.Valid()
    modifies q
    ensures q.Valid() && q.Contents() == old(q.Contents()) + Stuff(p)
  {
    hide Stuff, StuffOctet, Clist.Text, Clist.AllValid, IsSpecial;
    ghost var before := q.Contents();
    var i := 0;
    Extends(before, p, 0, 0);
    while i < |p|
      invariant 0 <= i <= |p| && q.Valid() && q.Contents() == before + Stuff(p[..i])
    {
      var j := PlainRun(p, i);
      Extends(before, p, i, j);
      if j > i {
        q.Append(p[i..j]);
      }
      i := j;
      if i < |p| {
        Extends(before, p, i, i + 1);
        PutEscaped(q, p[i]);
        i := i + 1;
      }
    }
    assert p[..|p|] == p;
  }

  lemma StuffedSpecial(b: Byte)
    requires IsSpecial(b)
    ensures StuffOctet(b) == [FRAME_ESCAPE] + [if b == FRAME_ESCAPE then TRANS_FRAME_ESCAPE else TRANS_FRAME_END]
    ensures Stuff([b]) == StuffOctet(b)
  {
    assert [b][..0] == [];
  }

  lemma Extends(before: seq<Byte>, p: Packet, i: nat, j: nat)
    requires i <= j <= |p|
    ensures before + Stuff(p[..j]) == before + Stuff(p[..i]) + Stuff(p[i..j])
    ensures j == i + 1 ==> p[i..j] == [p[i]]
    ensures i == j ==> Stuff(p[i..j]) == []
    ensures before + Stuff(p[..0]) == before
  {
    assert p[..j] == p[..i] + p[i..j];
    StuffConcat(p[..i], p[i..j]);
    Assoc(before, Stuff(p[..i]), Stuff(p[i..j]));
    assert Stuff(p[..0]) == [];
  }

  /** A packet goes out mbuf by mbuf, between end marks; the leading one is left out if output is already under way. */
  method PutFrame(q: Clist.Queue, m: seq<Packet>)
    requires q.Valid()
    modifies q
    ensures q.Valid()
    ensures q.Contents()
            == old(q.Contents()) + (if old(q.Contents()) == [] then [FRAME_END] else []) + Stuff(Flat(m)) + [FRAME_END]
  {
    hide Stuff, Clist.Text, Clist.AllValid, Flat;
    CountOrNone(q.blocks);
    if q.count == 0 {
      q.Putc(FRAME_END);
    }
    ghost var start := q.Contents();
    var i := 0;
    FlatStep(m, 0);
    while i < |m|
      invariant 0 <= i <= |m| && q.Valid() && q.Contents() == start + Stuff(Flat(m[..i]))
    {
      PutStuffed(q, m[i]);
      FlatStep(m, i);
      i := i + 1;
    }
    assert m[..|m|] == m;
    q.Putc(FRAME_END);
  }

  lemma CountOrNone(blocks: seq<Clist.Block>)
    requires Clist.AllValid(blocks)
    ensures |Clist.Text(blocks)| == 0 <==> Clist.Text(blocks) == []
  {
  }

  lemma FlatStep(m: seq<Packet>, i: nat)
    requires i <= |m|
    ensures i < |m| ==> Stuff(Flat(m[..i + 1])) == Stuff(Flat(m[..i])) + Stuff(m[i])
    ensures Stuff(Flat(m[..0])) == []
  {
    if i < |m| {
      assert m[..i + 1][..i] == m[..i];
      StuffConcat(Flat(m[..i]), m[i]);
    }
  }

  class SlipSender {
    const outq: Clist.Queue
    const comp: SlCompress
    var fastq: seq<Packet>
    var sendq: seq<Packet>
    var compress: bool

    ghost predicate Valid()
      reads this, outq, comp, comp.tstate, comp.next, comp.rstate
    {
      outq.Valid() && comp.Valid()
    }

    constructor (compress: bool)
      ensures Valid() && fresh(outq) && fresh(comp) && fresh(comp.tstate) && fresh(comp.next) && fresh(comp.rstate)
      ensures outq.Contents() == [] && fastq == [] && sendq == [] && this.compress == compress
      ensures comp.SenderState() == InitialSender() && comp.ReceiverState() == InitialReceiver()
    {
      outq := new Clist.Queue();
      comp := new SlCompress();
      fastq, sendq := [], [];
      this.compress := compress;
    }

    /** The next packet, interactive ones first. */
    method Dequeue() returns (p: Option<Packet>)
      modifies this
      ensures compress == old(compress)
      ensures match p
              case None => old(fastq + sendq) == [] && fastq == [] && sendq == []
              case Some(v) => [v] + (fastq + sendq) == old(fastq + sendq) && |fastq + sendq| < old(|fastq + sendq|)
    {
      if fastq != [] {
        p := Some(fastq[0]);
        fastq := fastq[1..];
      } else if sendq != [] {
        p := Some(sendq[0]);
        sendq := sendq[1..];
      } else {
        p := None;
      }
    }

    method Prepare(p: Packet) returns (w: Packet)
      requires Valid() && MaySend(compress, p)
      modifies comp, comp.tstate, comp.next
      ensures Valid() && comp.ReceiverState() == old(comp.ReceiverState())
      ensures (comp.SenderState(), w) == LineSend(old(comp.SenderState()), compress, p)
    {
      hide Compress, ValidSender, Sendable;
      w := p;
      if compress && p[9] == IPPROTO_TCP {
        CompressedLength(comp.SenderState(), p);
        var kind;
        kind, w := comp.CompressTcp(p, true);
        w := w[0 := WithType(w[0], kind)];
      }
    }

    /** Put one packet on the idle line. */
    method Transmit(p: Packet) returns (ghost w: Packet)
      requires Valid() && MaySend(compress, p) && outq.Contents() == []
      modifies outq, comp, comp.tstate, comp.next
      ensures Valid() && comp.ReceiverState() == old(comp.ReceiverState())
      ensures (comp.SenderState(), w) == LineSend(old(comp.SenderState()), compress, p) && outq.Contents() == Frame(w)
    {
      hide ValidSender, MaySend, LineSend, Stuff, Clist.Text, Clist.AllValid, Ring;
      var v := Prepare(p);
      // compression left the header in the first mbuf
      var k: nat :| k <= |v|;
      FlatPair(v, k);
      PutFrame(outq, [v[..k], v[k..]]);
      w := v;
    }

    /**
     Send everything queued: what was already on its way goes out first, then one frame for each packet, in order.
     */
    method Start() returns (wire: seq<Byte>)
      requires Valid() && MaySendAll(compress, fastq + sendq)
      modifies this, outq, comp, comp.tstate, comp.next
      ensures Valid() && comp.ReceiverState() == old(comp.ReceiverState()) && compress == old(compress)
      ensures fastq == [] && sendq == [] && outq.Contents() == []
      ensures old(MaySendAll(compress, fastq + sendq))
      ensures var (tx, ws) := SendAll(old(comp.SenderState()), compress, old(fastq + sendq));
              comp.SenderState() == tx && wire == old(outq.Contents()) + Frames(ws)
    {
      hide ValidSender, MaySend, MaySendAll, SendAll, LineSend, Frames, Frame, Clist.Text, Clist.AllValid, Ring;
      ghost var all := fastq + sendq;
      ghost var first := outq.Contents();
      ghost var tx0 := comp.SenderState();
      ghost var done, ws := [], [];
      SentNone(tx0, compress);
      wire := [];
      while true
        invariant Valid() && comp.ReceiverState() == old(comp.ReceiverState()) && compress == old(compress)
        invariant all == done + (fastq + sendq) && MaySendAll(compress, all) && MaySendAll(compress, done)
        invariant SendAll(tx0, compress, done) == (comp.SenderState(), ws)
        invariant wire + outq.Contents() == first + Frames(ws)
        decreases |fastq + sendq|
      {
        if outq.count != 0 {
          var b := outq.Drain();
          wire := wire + b;
        }
        assert outq.Contents() == [];
        assert wire == first + Frames(ws);
        var p := Dequeue();
        if p.None? {
          assert done == all;
          return;
        }
        NextMaySend(compress, all, done, p.value, fastq + sendq);
        SentOne(tx0, compress, done, p.value);
        ghost var w := Transmit(p.value);
        FramesNext(first, ws, w);
        done, ws := done + [p.value], ws + [w];
      }
    }
  }

  class SlipReceiver {
    var buf: array<Byte>
    var mp: nat
    var escape: bool
    var error: bool
    const comp: SlCompress
    var compress: bool
    var autocomp: bool

    ghost predicate Valid()
      reads this, buf, comp, comp.tstate, comp.next, comp.rstate
    {
      comp.Valid() && buf.Length == SLMAX && mp <= SLMAX
    }

    /** What was gathered of the frame in progress. */
    ghost function Gathered(): Decoder
      requires mp <= buf.Length
      reads this, buf
    {
      Decoder(buf[..mp], escape, error)
    }

    ghost function Above(): Receiving
      reads this, comp, comp.rstate
    {
      Receiving(comp.ReceiverState(), compress, autocomp)
    }

    constructor (compress: bool, autocomp: bool)
      ensures Valid() && fresh(buf) && fresh(comp) && fresh(comp.tstate) && fresh(comp.next) && fresh(comp.rstate)
      ensures Gathered() == CLEAN && Above() == Receiving(InitialReceiver(), compress, autocomp)
      ensures comp.SenderState() == InitialSender()
    {
      buf := new Byte[SLMAX];
      comp := new SlCompress();
      mp, escape, error := 0, false, false;
      this.compress, this.autocomp := compress, autocomp;
    }

    /** The decompressor finds what it relies on; it does not look itself. */
    predicate Prepared(kind: Kind)
      requires comp.rstate.Length == MAX_STATES && mp <= buf.Length
      reads this, buf, comp, comp.rstate
    {
      kind == Ip || Receivable(comp.ReceiverState(), kind, buf[..], mp)
    }

    /** A complete frame is in the buffer: hand it up, through the decompressor if it is not an IP packet. */
    method Deliver() returns (out: Option<Packet>)
      requires Valid() && mp >= MIN_PACKET
      modifies buf, this`compress, comp, comp.rstate
      ensures Valid() && comp.SenderState() == old(comp.SenderState())
      ensures (Above(), out) == Dealt(old(Above()), old(buf[..]), mp)
    {
      hide Ring, ValidSender, ValidReceiver, Uncompress, Receivable;
      var kind := KindOf(buf[0]);
      ghost var was := buf[..];
      if kind == Ip {
        return Some(buf[..mp]);
      }
      if kind == UncompressedTcp {
        buf[0] := 0x40 + buf[0] % 16;
      }
      assert buf[..] == Untyped(was);
      if !compress && !(autocomp && kind == UncompressedTcp && mp >= 40) {
        return None;
      }
      if !Prepared(kind) {
        return None;
      }
      out := comp.UncompressTcp(kind, buf[..], mp);
      compress := compress || out.Some?;
    }

    /** The end of a frame: hand up what was gathered, unless it is too short or was spoilt, and begin anew. */
    method Finish() returns (out: Option<Packet>)
      requires Valid()
      modifies this, buf, comp, comp.rstate
      ensures Valid() && (buf == old(buf) || fresh(buf)) && comp.SenderState() == old(comp.SenderState())
              && Gathered() == CLEAN
      ensures if old(error) || old(mp) < MIN_PACKET then out == None && Above() == old(Above())
              else Handles(old(Above()), old(buf[..mp]), Above(), out)
    {
      hide Ring, ValidSender, ValidReceiver, Dealt;
      out := None;
      if !error && mp >= MIN_PACKET {
        ghost var f, tail := buf[..mp], buf[mp..];
        assert f + tail == buf[..];
        out := Deliver();
        if out.Some? && |out.value| >= Mbufs.MHLEN {
          // the buffer went up with the packet
          buf := new Byte[SLMAX];
        }
      }
      mp, escape, error := 0, false, false;
    }

    /** One signal from the line. */
    method Input(s: Signal) returns (out: Option<Packet>)
      requires Valid()
      modifies this, buf, comp, comp.rstate
      ensures Valid() && (buf == old(buf) || fresh(buf)) && comp.SenderState() == old(comp.SenderState())
      ensures Gathered() == SlipFrame.Input(old(Gathered()), s).0
      ensures match SlipFrame.Input(old(Gathered()), s).1
              case None => out == None && Above() == old(Above())
              case Some(f) => Handles(old(Above()), f, Above(), out)
    {
      hide Ring, ValidSender, ValidReceiver, Dealt, Handles;
      out := None;
      if s.Garbled? {
        error := true;
        return;
      }
      if s.c == FRAME_ESCAPE {
        escape := true;
        return;
      }
      if s.c == FRAME_END {
        out := Finish();
        return;
      }
      if mp < SLMAX {
        buf[mp] := Meant(s.c, escape);
        mp, escape := mp + 1, false;
      } else {
        mp, escape, error := 0, false, true;
      }
    }

    /** All signals that arrive, in turn. */
    method Receive(signals: seq<Signal>) returns (outs: seq<Packet>)
      requires Valid()
      modifies this, buf, comp, comp.rstate
      ensures Valid() && (buf == old(buf) || fresh(buf)) && comp.SenderState() == old(comp.SenderState())
      ensures Gathered() == Feed(old(Gathered()), signals).0
      ensures Follows(old(Above()), Feed(old(Gathered()), signals).1, outs, Above())
    {
      hide Ring, ValidSender, ValidReceiver, SlipFrame.Input, Handles, Follows, Feed;
      ghost var d, r := Gathered(), Above();
      outs := [];
      FollowsNone(d, r);
      var i := 0;
      while i < |signals|
        invariant 0 <= i <= |signals| && Valid() && (buf == old(buf) || fresh(buf))
        invariant comp.SenderState() == old(comp.SenderState())
        invariant Gathered() == Feed(d, signals[..i]).0 && Follows(r, Feed(d, signals[..i]).1, outs, Above())
      {
        ghost var r1 := Above();
        var out := Input(signals[i]);
        FollowsOne(d, r, signals[..i], signals[i], outs, r1, Above(), out);
        assert signals[..i] + [signals[i]] == signals[..i + 1];
        outs := outs + AsList(out);
        i := i + 1;
      }
      assert signals[..|signals|] == signals;
    }
  }

  lemma FollowsNone(d: Decoder, r: Receiving)
    ensures Feed(d, []) == (d, []) && Follows(r, [], [], r)
  {
  }

  lemma FollowsOne(d: Decoder, r: Receiving, s: seq<Signal>, x: Signal, outs: seq<Packet>, r1: Receiving,
                   r2: Receiving, out: Option<Packet>)
    requires Follows(r, Feed(d, s).1, outs, r1)
    requires var f := Input(Feed(d, s).0, x).1;
             if f.Some? then Handles(r1, f.value, r2, out) else out == None && r2 == r1
    ensures Feed(d, s + [x]).0 == Input(Feed(d, s).0, x).0
    ensures Follows(r, Feed(d, s + [x]).1, outs + AsList(out), r2)
  {
    hide Input, Handles;
    assert (s + [x])[..|s|] == s;
    var (d1, ps) := Feed(d, s);
    var f := Input(d1, x).1;
    if f.Some? {
      assert Feed(d, s + [x]).1 == ps + [f.value];
      FollowsExtended(r, ps, f.value, outs, r1, r2, out);
    } else {
      assert Feed(d, s + [x]).1 == ps && outs + AsList(out) == outs;
    }
  }

  lemma FollowsExtended(r: Receiving, ps: seq<Packet>, f: Packet, outs: seq<Packet>, r1: Receiving, r2: Receiving,
                        out: Option<Packet>)
    requires Follows(r, ps, outs, r1) && Handles(r1, f, r2, out)
    ensures Follows(r, ps + [f], outs + AsList(out), r2)
  {
    hide Handles;
    var frames := ps + [f];
    assert frames[..|frames| - 1] == ps && frames[|frames| - 1] == f;
  }

  /**
   The line works: whatever is queued at one end is delivered at the other, unchanged and in order, however the writes
   were split and the packets compressed; the ends are left as they were found, ready for more.
   */
  method Convey(s: SlipSender, r: SlipReceiver) returns (outs: seq<Packet>)
    requires s.Valid() && r.Valid() && s.comp != r.comp && s.comp.tstate != r.comp.tstate && s.comp.next != r.comp.next
    requires s.comp.tstate != r.comp.rstate && s.comp.rstate != r.comp.rstate
    requires s.outq.Contents() == [] && r.Gathered() == CLEAN && Linked(s.comp.SenderState(), r.Above())
    requires LinePackets(s.fastq + s.sendq)
    modifies s, s.outq, s.comp, s.comp.tstate, s.comp.next, r, r.buf, r.comp, r.comp.rstate
    ensures outs == old(s.fastq + s.sendq)
    ensures s.Valid() && r.Valid() && s.outq.Contents() == [] && s.fastq == [] && s.sendq == []
    ensures r.Gathered() == CLEAN && Linked(s.comp.SenderState(), r.Above())
  {
    hide Ring, ValidSender, ValidReceiver, LinePacket, MaySend, Linked, SendAll, Follows, Feed, Frames;
    ghost var ps := s.fastq + s.sendq;
    ghost var tx, above := s.comp.SenderState(), r.Above();
    PacketsMayBeSent(s.compress, ps);
    var wire := s.Start();
    WireHolds(tx, s.compress, ps);
    assert r.Above() == above && r.Gathered() == CLEAN;
    assert wire == Frames(SendAll(tx, s.compress, ps).1);
    outs := r.Receive(Octets(wire));
    AllDelivered(tx, above, s.compress, ps, outs, r.Above());
  }

  predicate AllFit(ps: seq<Packet>) {
    forall i :: 0 <= i < |ps| ==> Fits(ps[i])
  }

  /**
   The line without compression: packets of any 3 to SLMAX octets come out of the frames as they went in, whatever noise
   came before and however the writes were split. Those that look like IP are handed up, in order; others are dropped by
   a receiver that does not decompress.
   */
  method ConveyPlain(s: SlipSender, r: SlipReceiver, noise: seq<Signal>)
    returns (before: seq<Packet>, outs: seq<Packet>, wire: seq<Byte>)
    requires s.Valid() && r.Valid() && s.comp != r.comp && s.comp.tstate != r.comp.tstate && s.comp.next != r.comp.next
    requires s.comp.tstate != r.comp.rstate && s.comp.rstate != r.comp.rstate
    requires !s.compress && s.outq.Contents() == [] && AllFit(s.fastq + s.sendq)
    requires (!r.compress && !r.autocomp) || LookLikeIp(s.fastq + s.sendq)
    modifies s, s.outq, s.comp, s.comp.tstate, s.comp.next, r, r.buf, r.comp, r.comp.rstate
    ensures s.Valid() && r.Valid() && s.outq.Contents() == [] && s.fastq == [] && s.sendq == []
    ensures Feed(CLEAN, Octets(wire)) == (CLEAN, old(s.fastq + s.sendq))
    ensures outs == IpOnly(old(s.fastq + s.sendq))
            && (LookLikeIp(old(s.fastq + s.sendq)) ==> outs == old(s.fastq + s.sendq))
    ensures old(s.fastq + s.sendq) != [] ==> r.Gathered() == CLEAN
  {
    hide Ring, ValidSender, ValidReceiver, SendAll, Follows, Feed, Frames, AllFit, LookLikeIp, IpOnly, Fits;
    ghost var ps := s.fastq + s.sendq;
    ghost var plain := r.Above();
    wire := SendPlain(s);
    PlainWire(ps);
    ghost var d := r.Gathered();
    before := r.Receive(noise);
    PlainAfter(plain, Feed(d, noise).1, before, r.Above());
    if wire == [] {
      outs := [];
      return;
    }
    // the leading end mark may complete what the noise left behind
    d, plain := r.Gathered(), r.Above();
    assert wire[..1] == [FRAME_END];
    FeedEnd(d);
    var more := r.Receive(Octets(wire[..1]));
    PlainAfter(plain, Feed(d, Octets([FRAME_END])).1, more, r.Above());
    before := before + more;
    plain := r.Above();
    outs := r.Receive(Octets(wire[1..]));
    PlainOuts(plain, ps, outs, r.Above());
  }

  /** Send without compression: the packets queued are on the wire as they are. */
  method SendPlain(s: SlipSender) returns (wire: seq<Byte>)
    requires s.Valid() && !s.compress && s.outq.Contents() == []
    modifies s, s.outq, s.comp, s.comp.tstate, s.comp.next
    ensures s.Valid() && s.outq.Contents() == [] && s.fastq == [] && s.sendq == []
    ensures wire == Frames(old(s.fastq + s.sendq))
  {
    hide Ring, ValidSender, ValidReceiver, SendAll, Frames;
    ghost var ps, tx := s.fastq + s.sendq, s.comp.SenderState();
    wire := s.Start();
    SentAsTheyAre(tx, ps);
  }

  lemma PlainAfter(r: Receiving, frames: seq<Packet>, outs: seq<Packet>, r': Receiving)
    requires Follows(r, frames, outs, r')
    ensures !r.compress && !r.autocomp ==> !r'.compress && !r'.autocomp
  {
    hide Follows;
    if !r.compress && !r.autocomp {
      PlainStays(r, frames, outs, r');
    }
  }

  lemma PlainOuts(r: Receiving, ps: seq<Packet>, outs: seq<Packet>, r': Receiving)
    requires ValidReceiver(r.vj) && Follows(r, ps, outs, r') && AllFit(ps)
    requires (!r.compress && !r.autocomp) || LookLikeIp(ps)
    ensures outs == IpOnly(ps) && (LookLikeIp(ps) ==> outs == ps)
  {
    hide ValidReceiver, Follows, LookLikeIp, IpOnly;
    PlainDelivered(r, ps, outs, r');
    if LookLikeIp(ps) {
      AllIp(ps);
    }
  }

  /** The frames on the wire hold the packets, also without the leading end mark. */
  lemma PlainWire(ps: seq<Packet>)
    requires AllFit(ps)
    ensures var wire := Frames(ps);
            && Feed(CLEAN, Octets(wire)) == (CLEAN, ps) && (wire == [] <==> ps == [])
            && (wire != [] ==> wire[0] == FRAME_END && Feed(CLEAN, Octets(wire[1..])) == (CLEAN, ps))
            && IpOnly([]) == []
  {
    hide Feed, Octets, Frames;
    FramesDelivered(ps);
    AllFitting(ps);
    FramesStart(ps);
    if ps != [] {
      BehindMark(Frames(ps));
    }
  }

  lemma SentNone(tx: Sender, compress: bool)
    requires ValidSender(tx)
    ensures SendAll(tx, compress, []) == (tx, []) && Frames([]) == [] && MaySendAll(compress, [])
  {
  }

  lemma SentOne(tx: Sender, compress: bool, done: seq<Packet>, p: Packet)
    requires ValidSender(tx) && MaySendAll(compress, done + [p]) && MaySendAll(compress, done) && MaySend(compress, p)
    ensures var (tx1, ws) := SendAll(tx, compress, done);
            var (tx2, w) := LineSend(tx1, compress, p);
            SendAll(tx, compress, done + [p]) == (tx2, ws + [w])
  {
    hide ValidSender, MaySend, LineSend;
    assert (done + [p])[..|done|] == done;
    SendAllLast(tx, compress, done + [p]);
  }

  lemma NextMaySend(compress: bool, all: seq<Packet>, done: seq<Packet>, p: Packet, rest: seq<Packet>)
    requires MaySendAll(compress, all) && all == done + ([p] + rest)
    ensures MaySend(compress, p) && MaySendAll(compress, done + [p]) && all == (done + [p]) + rest
  {
    hide MaySend;
    assert all[|done|] == p;
    forall i | 0 <= i < |done + [p]| ensures MaySend(compress, (done + [p])[i]) {
      assert all[i] == (done + [p])[i];
    }
  }

  lemma FlatPair(w: Packet, k: nat)
    requires k <= |w|
    ensures Flat([w[..k], w[k..]]) == w
  {
    var m: seq<Packet> := [w[..k], w[k..]];
    var first: seq<Packet> := m[..1];
    assert first == [w[..k]] && first[..0] == [];
    assert Flat(first) == Flat(first[..0]) + w[..k] == w[..k];
  }

  lemma FramesNext(first: seq<Byte>, ws: seq<Packet>, w: Packet)
    ensures first + Frames(ws + [w]) == first + Frames(ws) + Frame(w)
  {
    assert (ws + [w])[..|ws|] == ws;
    hide Frame;
    Assoc(first, Frames(ws), Frame(w));
  }
}
