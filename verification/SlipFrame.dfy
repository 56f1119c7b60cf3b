/** Frames on a serial line: how a packet is stuffed into octets, and the machine that takes it out again (RFC 1055). */
module SlipFrame {
  import opened Prelude
  import opened VjProtocol
  import Mbufs

  const FRAME_END: Byte := 0xc0
  const FRAME_ESCAPE: Byte := 0xdb
  const TRANS_FRAME_END: Byte := 0xdc
  const TRANS_FRAME_ESCAPE: Byte := 0xdd

  const BUFOFFSET: nat := 128 + 4
  /** The longest packet the receiver has room for. */
  const SLMAX: nat := Mbufs.MCLBYTES - BUFOFFSET
  /** A shorter packet is taken for noise. */
  const MIN_PACKET: nat := 3

  predicate IsSpecial(b: Byte) { b == FRAME_END || b == FRAME_ESCAPE }

  function StuffOctet(b: Byte): seq<Byte> {
    if b == FRAME_ESCAPE then [FRAME_ESCAPE, TRANS_FRAME_ESCAPE]
    else if b == FRAME_END then [FRAME_ESCAPE, TRANS_FRAME_END]
    else [b]
  }

  function Stuff(p: Packet): seq<Byte> {
    if p == [] then [] else Stuff(p[..|p| - 1]) + StuffOctet(p[|p| - 1])
  }

  /** The frame of a packet on a line that was idle: a leading end mark flushes what noise may have left. */
  function Frame(p: Packet): seq<Byte> {
    [FRAME_END] + Stuff(p) + [FRAME_END]
  }

  lemma {:induction false} StuffConcat(p: Packet, q: Packet)
    ensures Stuff(p + q) == Stuff(p) + Stuff(q)
    decreases |q|
  {
    if q == [] {
      assert p + q == p;
    } else {
      hide StuffOctet;
      var n := |q| - 1;
      StuffConcat(p, q[..n]);
      LastOff(p, q);
      Assoc(Stuff(p), Stuff(q[..n]), StuffOctet(q[n]));
    }
  }

  lemma LastOff<T>(p: seq<T>, q: seq<T>)
    requires q != []
    ensures (p + q)[..|p + q| - 1] == p + q[..|q| - 1] && (p + q)[|p + q| - 1] == q[|q| - 1]
  {
  }

  lemma {:induction false} StuffPlain(p: Packet)
    requires forall i :: 0 <= i < |p| ==> !IsSpecial(p[i])
    ensures Stuff(p) == p
    decreases |p|
  {
    if p != [] {
      var n := |p| - 1;
      StuffPlain(p[..n]);
      assert p == p[..n] + [p[n]];
    }
  }

  /** The octets that stand for a packet of one octet. */
  lemma StuffedValues(b: Byte)
    ensures Stuff([b]) == if b == 0xc0 then [0xdb, 0xdc] else if b == 0xdb then [0xdb, 0xdd] else [b]
    ensures Frame([b]) == [0xc0] + Stuff([b]) + [0xc0]
  {
    var p: Packet := [b];
    assert p[..0] == [] && Stuff(p[..0]) == [];
  }

  // ----- taking frames apart

  /** What arrives: an octet, or one with a parity, framing or carrier error. */
  datatype Signal = Octet(c: Byte) | Garbled

  /** What was gathered since the last end mark; `error` condemns the packet in progress. */
  datatype Decoder = Decoder(data: Packet, escape: bool, error: bool)

  const CLEAN: Decoder := Decoder([], false, false)

  /** What an octet stands for after an escape mark or without one. */
  function Meant(c: Byte, escape: bool): Byte {
    if escape && c == TRANS_FRAME_ESCAPE then FRAME_ESCAPE
    else if escape && c == TRANS_FRAME_END then FRAME_END
    else c
  }

  /** The packet an end mark completes, if any. */
  function Completed(d: Decoder): Option<Packet> {
    if d.error || |d.data| < MIN_PACKET then None else Some(d.data)
  }

  /** One signal: the new state, and the packet it completes. */
  function Input(d: Decoder, s: Signal): (Decoder, Option<Packet>) {
    if s.Garbled? then (d.(error := true), None)
    else if s.c == FRAME_ESCAPE then (d.(escape := true), None)
    else if s.c == FRAME_END then (CLEAN, Completed(d))
    else if |d.data| < SLMAX then (Decoder(d.data + [Meant(s.c, d.escape)], false, d.error), None)
    else (Decoder([], false, true), None)
  }

  function AsList<T>(x: Option<T>): seq<T> {
    match x case None => [] case Some(v) => [v]
  }

  /** All signals in turn: the final state, and the packets completed on the way. */
  function Feed(d: Decoder, s: seq<Signal>): (Decoder, seq<Packet>) {
    if s == [] then (d, [])
    else
      var (d1, ps) := Feed(d, s[..|s| - 1]);
      var (d2, p) := Input(d1, s[|s| - 1]);
      (d2, ps + AsList(p))
  }

  function Octets(b: seq<Byte>): seq<Signal> {
    seq(|b|, i requires 0 <= i < |b| => Octet(b[i]))
  }

  lemma OctetsConcat(a: seq<Byte>, b: seq<Byte>)
    ensures Octets(a + b) == Octets(a) + Octets(b)
  {
  }

  lemma {:induction false} FeedConcat(d: Decoder, s: seq<Signal>, t: seq<Signal>)
    ensures var (d1, ps) := Feed(d, s);
            var (d2, qs) := Feed(d1, t);
            Feed(d, s + t).0 == d2 && Feed(d, s + t).1 == ps + qs
    decreases |t|
  {
    if t == [] {
      assert s + t == s;
    } else {
      hide Input;
      var n := |t| - 1;
      FeedConcat(d, s, t[..n]);
      LastOff(s, t);
      var (d1, ps) := Feed(d, s);
      var (d2, qs) := Feed(d1, t[..n]);
      Assoc(ps, qs, AsList(Input(d2, t[n]).1));
    }
  }

  lemma FeedOne(d: Decoder, c: Byte)
    ensures Feed(d, Octets([c])).0 == Input(d, Octet(c)).0
    ensures Feed(d, Octets([c])).1 == AsList(Input(d, Octet(c)).1)
  {
    hide Input;
    var s := Octets([c]);
    assert s[..0] == [] && s == [Octet(c)];
    assert Feed(d, s[..0]) == (d, []);
  }

  /** One stuffed octet, from any state that does not wait for the second half of an escape. */
  lemma FeedStuffed(d: Decoder, b: Byte)
    requires !d.escape
    ensures var (d', ps) := Feed(d, Octets(StuffOctet(b)));
            ps == [] && d' == if |d.data| < SLMAX then Decoder(d.data + [b], false, d.error)
              else Decoder([], false, true)
  {
    if b == FRAME_ESCAPE {
      FeedEscaped(d, TRANS_FRAME_ESCAPE, b);
    } else if b == FRAME_END {
      FeedEscaped(d, TRANS_FRAME_END, b);
    } else {
      FeedOne(d, b);
    }
  }

  lemma FeedEscaped(d: Decoder, t: Byte, b: Byte)
    requires !IsSpecial(t) && Meant(t, true) == b
    ensures var (d', ps) := Feed(d, Octets([FRAME_ESCAPE, t]));
            ps == [] && d' == if |d.data| < SLMAX then Decoder(d.data + [b], false, d.error)
              else Decoder([], false, true)
  {
    FeedOne(d, FRAME_ESCAPE);
    FeedOne(d.(escape := true), t);
    FeedConcat(d, Octets([FRAME_ESCAPE]), Octets([t]));
    hide Feed;
    OctetsConcat([FRAME_ESCAPE], [t]);
    assert [FRAME_ESCAPE] + [t] == [FRAME_ESCAPE, t];
  }

  /**
   A stuffed packet is gathered unchanged; if there is no room for it the packet is condemned, whatever its length.
   */
  lemma {:induction false} FeedStuff(d: Decoder, p: Packet)
    requires !d.escape && |d.data| <= SLMAX
    ensures var (d', ps) := Feed(d, Octets(Stuff(p)));
            && ps == [] && !d'.escape && |d'.data| <= SLMAX
            && (if |d.data| + |p| <= SLMAX then d' == Decoder(d.data + p, false, d.error) else d'.error)
    decreases |p|
  {
    hide Feed, Octets, Stuff, StuffOctet;
    StuffParts(p);
    if p == [] {
      FeedNothing(d);
    } else {
      var n := |p| - 1;
      FeedStuff(d, p[..n]);
      StuffAfter(d, Stuff(p[..n]), p[n]);
      assert p == p[..n] + [p[n]];
      Assoc(d.data, p[..n], [p[n]]);
    }
  }

  lemma StuffParts(p: Packet)
    ensures Stuff(p) == if p == [] then [] else Stuff(p[..|p| - 1]) + StuffOctet(p[|p| - 1])
  {
  }

  lemma FeedNothing(d: Decoder)
    ensures Feed(d, Octets([])) == (d, [])
  {
  }

  lemma StuffAfter(d: Decoder, wire: seq<Byte>, b: Byte)
    requires var (d1, ps) := Feed(d, Octets(wire)); ps == [] && !d1.escape
    ensures var d1 := Feed(d, Octets(wire)).0;
            var (d', ps) := Feed(d, Octets(wire + StuffOctet(b)));
            ps == [] && d' == if |d1.data| < SLMAX then Decoder(d1.data + [b], false, d1.error)
              else Decoder([], false, true)
  {
    hide Feed, Octets, StuffOctet;
    OctetsConcat(wire, StuffOctet(b));
    FeedConcat(d, Octets(wire), Octets(StuffOctet(b)));
    FeedStuffed(Feed(d, Octets(wire)).0, b);
  }

  predicate Fits(p: Packet) { MIN_PACKET <= |p| <= SLMAX }

  /** A cluster less the room for a link header and its alignment. */
  lemma FitsValues(p: Packet)
    ensures Fits(p) <==> 3 <= |p| <= 1916
  {
  }

  /**
   From any state of the receiver, a frame leaves it clean and delivers exactly its packet if that has an acceptable
   length; a packet too short or too long is lost without harm. What was pending before is completed by the leading end
   mark.
   */
  lemma FrameDelivered(d: Decoder, p: Packet)
    ensures Feed(d, Octets(Frame(p))).0 == CLEAN
    ensures Feed(d, Octets(Frame(p))).1 == AsList(Completed(d)) + if Fits(p) then [p] else []
  {
    hide Octets, Feed, Input, Stuff;
    var mid := Octets(Stuff(p));
    OctetsConcat([FRAME_END], Stuff(p));
    OctetsConcat([FRAME_END] + Stuff(p), [FRAME_END]);
    FeedConcat(d, Octets([FRAME_END]), mid);
    FeedConcat(d, Octets([FRAME_END]) + mid, Octets([FRAME_END]));
    FeedEnd(d);
    FeedStuff(CLEAN, p);
    FeedEnd(Feed(CLEAN, mid).0);
    assert CLEAN.data + p == p;
  }

  lemma FeedEnd(d: Decoder)
    ensures Feed(d, Octets([FRAME_END])).0 == CLEAN
    ensures Feed(d, Octets([FRAME_END])).1 == AsList(Completed(d))
  {
    FeedOne(d, FRAME_END);
  }

  predicate NoEnd(s: seq<Signal>) {
    forall i :: 0 <= i < |s| ==> s[i] != Octet(0xc0)
  }

  /** Without an end mark nothing is delivered, and a packet once condemned stays so. */
  lemma {:induction false} Quiet(d: Decoder, s: seq<Signal>)
    requires NoEnd(s)
    ensures Feed(d, s).1 == [] && (d.error ==> Feed(d, s).0.error)
    decreases |s|
  {
    if s != [] {
      Quiet(d, s[..|s| - 1]);
    }
  }

  /** A frame in which anything was garbled is not delivered, from whatever state and whatever else was in it. */
  lemma GarbledDropped(d: Decoder, a: seq<Signal>, b: seq<Signal>)
    requires NoEnd(a) && NoEnd(b)
    ensures Feed(d, a + [Garbled] + b + Octets([0xc0])) == (CLEAN, [])
  {
    hide Octets;
    Quiet(d, a);
    var d1 := Feed(d, a).0;
    FeedConcat(d, a, [Garbled]);
    FeedGarbled(d1);
    FeedConcat(d, a + [Garbled], b);
    var d2 := Feed(d1, [Garbled]).0;
    Quiet(d2, b);
    FeedConcat(d, a + [Garbled] + b, Octets([0xc0]));
    FeedEnd(Feed(d2, b).0);
  }

  lemma FeedGarbled(d: Decoder)
    ensures Feed(d, [Garbled]).0 == d.(error := true) && Feed(d, [Garbled]).1 == []
  {
    var s: seq<Signal> := [Garbled];
    assert s[..0] == [];
    assert Feed(d, s[..0]) == (d, []);
    assert Input(d, s[0]) == (d.(error := true), None);
  }

  /** An end mark restores a clean state after anything, errors included. */
  lemma Resynchronises(d: Decoder, noise: seq<Signal>)
    ensures Feed(d, noise + Octets([FRAME_END])).0 == CLEAN
  {
    FeedConcat(d, noise, Octets([FRAME_END]));
    FeedEnd(Feed(d, noise).0);
  }

  /** Whatever noise comes in front of a frame, the packet is the last one delivered. */
  lemma NoiseHarmless(d: Decoder, noise: seq<Signal>, p: Packet)
    requires Fits(p)
    ensures var (d', ps) := Feed(d, noise + Octets(Frame(p)));
            d' == CLEAN && ps == Feed(d, noise).1 + AsList(Completed(Feed(d, noise).0)) + [p]
  {
    FeedConcat(d, noise, Octets(Frame(p)));
    FrameDelivered(Feed(d, noise).0, p);
  }

  function Frames(ps: seq<Packet>): seq<Byte> {
    if ps == [] then [] else Frames(ps[..|ps| - 1]) + Frame(ps[|ps| - 1])
  }

  function Fitting(ps: seq<Packet>): seq<Packet> {
    if ps == [] then []
    else Fitting(ps[..|ps| - 1]) + if Fits(ps[|ps| - 1]) then [ps[|ps| - 1]] else []
  }

  /** A list of packets comes out in order, each one that fits exactly once; an oversize one does not harm the next. */
  lemma {:induction false} FramesDelivered(ps: seq<Packet>)
    ensures Feed(CLEAN, Octets(Frames(ps))).0 == CLEAN
    ensures Feed(CLEAN, Octets(Frames(ps))).1 == Fitting(ps)
    decreases |ps|
  {
    if ps == [] {
      assert Octets(Frames(ps)) == [];
    } else {
      var n := |ps| - 1;
      FramesDelivered(ps[..n]);
      FrameAfter(Frames(ps[..n]), Fitting(ps[..n]), ps[n]);
    }
  }

  lemma FrameAfter(wire: seq<Byte>, out: seq<Packet>, p: Packet)
    requires Feed(CLEAN, Octets(wire)).0 == CLEAN && Feed(CLEAN, Octets(wire)).1 == out
    ensures Feed(CLEAN, Octets(wire + Frame(p))).0 == CLEAN
    ensures Feed(CLEAN, Octets(wire + Frame(p))).1 == out + if Fits(p) then [p] else []
  {
    hide Feed, Octets, Frame;
    OctetsConcat(wire, Frame(p));
    FeedConcat(CLEAN, Octets(wire), Octets(Frame(p)));
    FrameDelivered(CLEAN, p);
  }

  lemma {:induction false} AllFitting(ps: seq<Packet>)
    requires forall i :: 0 <= i < |ps| ==> Fits(ps[i])
    ensures Fitting(ps) == ps
    decreases |ps|
  {
    if ps != [] {
      var n := |ps| - 1;
      AllFitting(ps[..n]);
      assert ps == ps[..n] + [ps[n]];
    }
  }

  lemma {:induction false} FramesStart(ps: seq<Packet>)
    ensures Frames(ps) == [] <==> ps == []
    ensures ps != [] ==> Frames(ps)[0] == FRAME_END
    decreases |ps|
  {
    hide Stuff;
    if ps != [] {
      FramesStart(ps[..|ps| - 1]);
    }
  }

  /** On a clean line it makes no difference whether there is a leading end mark. */
  lemma BehindMark(wire: seq<Byte>)
    requires wire != [] && wire[0] == FRAME_END
    ensures Feed(CLEAN, Octets(wire[1..])) == Feed(CLEAN, Octets(wire))
  {
    hide Octets, Feed;
    var mark := [FRAME_END];
    assert wire == mark + wire[1..];
    OctetsConcat(mark, wire[1..]);
    FeedConcat(CLEAN, Octets(mark), Octets(wire[1..]));
    FeedEnd(CLEAN);
    var (d, ps) := Feed(CLEAN, Octets(wire[1..]));
    assert Completed(CLEAN) == None && [] + ps == ps;
    assert Feed(CLEAN, Octets(wire)) == (Feed(CLEAN, Octets(wire)).0, Feed(CLEAN, Octets(wire)).1);
  }
}
