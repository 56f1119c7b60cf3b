/** TCP/IP headers as the compressor sees them, and their octets on the wire. */
module VjHeader {
  import opened Prelude
  import opened Bytes
  import Mbufs

  const MAX_HDR: nat := Mbufs.MLEN   // the room for a saved header
  const IPPROTO_TCP: Byte := 6

  /** The control bits of a TCP header; `reserved` is the value of the two bits above URG. */
  datatype Flags = Flags(reserved: nat, urg: bool, ack: bool, push: bool, rst: bool, syn: bool, fin: bool)

  /** An IP header and the TCP header after it, options included.  `ports` is the first long word of the latter. */
  datatype Header = Header(
    vhl: Byte, tos: Byte, len: Word, id: Word, off: Word, ttl: Byte, proto: Byte, sum: Word, src: Long, dst: Long,
    ipopt: seq<Byte>,
    ports: Long, sn: Long, ack: Long, offx2: Byte, flags: Flags, win: Word, tsum: Word, urp: Word,
    topt: seq<Byte>)

  function IpWords(h: Header): nat { h.vhl % 16 }
  function TcpWords(h: Header): nat { h.offx2 / 16 }
  function HeaderLen(h: Header): nat { 4 * (IpWords(h) + TcpWords(h)) }

  /** The lengths stated in the header are those of its parts. */
  predicate Proper(h: Header) {
    && 5 <= IpWords(h) && |h.ipopt| == 4 * (IpWords(h) - 5)
    && 5 <= TcpWords(h) && |h.topt| == 4 * (TcpWords(h) - 5)
    && h.flags.reserved < 4
  }

  // ----- octets

  function Bit(b: bool): Byte { if b then 1 else 0 }

  /** `x` shifted left by one with `b` as its low bit, and back. */
  function Push(x: nat, b: bool): nat { 2 * x + Bit(b) }
  function Low(x: nat): bool { x % 2 == 1 }
  function Half(x: nat): nat { x / 2 }

  function FlagsByte(f: Flags): Byte
    requires f.reserved < 4
  {
    var x := Push(Push(Push(f.reserved, f.urg), f.ack), f.push);
    Push(Push(Push(x, f.rst), f.syn), f.fin)
  }

  function ToFlags(x: Byte): Flags {
    var x1 := Half(x);
    var x2 := Half(x1);
    var x3 := Half(x2);
    var x4 := Half(x3);
    var x5 := Half(x4);
    Flags(Half(x5), Low(x5), Low(x4), Low(x3), Low(x2), Low(x1), Low(x))
  }

  lemma PushLow(x: nat, b: bool)
    ensures Half(Push(x, b)) == x && Low(Push(x, b)) == b && Push(Half(x), Low(x)) == x
  {
  }

  lemma FlagsRoundTrip(f: Flags)
    requires f.reserved < 4
    ensures ToFlags(FlagsByte(f)) == f
  {
    hide Push, Low, Half;
    var x6 := f.reserved;
    var x5 := Push(x6, f.urg);
    var x4 := Push(x5, f.ack);
    var x3 := Push(x4, f.push);
    var x2 := Push(x3, f.rst);
    var x1 := Push(x2, f.syn);
    PushLow(x6, f.urg);
    PushLow(x5, f.ack);
    PushLow(x4, f.push);
    PushLow(x3, f.rst);
    PushLow(x2, f.syn);
    PushLow(x1, f.fin);
  }

  lemma HalfBounds(x: Byte, x1: nat, x2: nat, x3: nat, x4: nat, x5: nat)
    requires x1 == Half(x) && x2 == Half(x1) && x3 == Half(x2) && x4 == Half(x3) && x5 == Half(x4)
    ensures Half(x5) < 4
  {
    assert x1 < 128;
    assert x2 < 64;
    assert x3 < 32;
    assert x4 < 16;
    assert x5 < 8;
  }

  lemma FlagsByteRoundTrip(x: Byte)
    ensures ToFlags(x).reserved < 4 && FlagsByte(ToFlags(x)) == x
  {
    var x1 := Half(x);
    var x2 := Half(x1);
    var x3 := Half(x2);
    var x4 := Half(x3);
    var x5 := Half(x4);
    HalfBounds(x, x1, x2, x3, x4, x5);
    hide Push, Low, Half;
    PushLow(x, true);
    PushLow(x1, true);
    PushLow(x2, true);
    PushLow(x3, true);
    PushLow(x4, true);
    PushLow(x5, true);
  }

  function EncodeIp(h: Header): seq<Byte> {
    [h.vhl, h.tos] + B16(h.len) + B16(h.id) + B16(h.off) + [h.ttl, h.proto] + B16(h.sum) + B32(h.src) + B32(h.dst)
    + h.ipopt
  }

  function EncodeTcp(h: Header): seq<Byte>
    requires h.flags.reserved < 4
  {
    B32(h.ports) + B32(h.sn) + B32(h.ack) + [h.offx2, FlagsByte(h.flags)] + B16(h.win) + B16(h.tsum) + B16(h.urp)
    + h.topt
  }

  function Encode(h: Header): seq<Byte>
    requires Proper(h)
  {
    EncodeIp(h) + EncodeTcp(h)
  }

  /** The header at the front of `b`, read as overlaid structures: the TCP header starts `ip_hl` long words in. */
  function Parse(b: seq<Byte>): Header
    requires HasHeader(b)
  {
    var t := 4 * (b[0] % 16);
    var e := t + 4 * (b[t + 12] / 16);
    Header(b[0], b[1], W16(b, 2), W16(b, 4), W16(b, 6), b[8], b[9], W16(b, 10), W32(b, 12), W32(b, 16), b[20..t],
           W32(b, t), W32(b, t + 4), W32(b, t + 8), b[t + 12], ToFlags(b[t + 13]), W16(b, t + 14), W16(b, t + 16),
           W16(b, t + 18), b[t + 20..e])
  }

  /** The octets contain a complete header with lengths of at least five long words each. */
  predicate HasHeader(b: seq<Byte>) {
    && |b| >= 40 && 5 <= b[0] % 16 && 4 * (b[0] % 16) + 20 <= |b|
    && 5 <= b[4 * (b[0] % 16) + 12] / 16
    && 4 * (b[0] % 16 + b[4 * (b[0] % 16) + 12] / 16) <= |b|
  }

  lemma IpOctets(h: Header)
    requires Proper(h)
    ensures var b := EncodeIp(h);
            && |b| == 4 * IpWords(h) && b[0] == h.vhl && b[1] == h.tos && W16(b, 2) == h.len && W16(b, 4) == h.id
            && W16(b, 6) == h.off && b[8] == h.ttl && b[9] == h.proto && W16(b, 10) == h.sum
            && W32(b, 12) == h.src && W32(b, 16) == h.dst && b[20..] == h.ipopt
  {
  }

  lemma TcpOctets(h: Header)
    requires Proper(h)
    ensures var b := EncodeTcp(h);
            && |b| == 4 * TcpWords(h) && W32(b, 0) == h.ports && W32(b, 4) == h.sn && W32(b, 8) == h.ack
            && b[12] == h.offx2 && ToFlags(b[13]) == h.flags && W16(b, 14) == h.win && W16(b, 16) == h.tsum
            && W16(b, 18) == h.urp
            && b[20..] == h.topt
  {
    FlagsRoundTrip(h.flags);
    hide FlagsByte, ToFlags;
  }

  /** Reading back the header of a datagram gives the header. */
  lemma ParseEncode(h: Header, data: seq<Byte>)
    requires Proper(h)
    ensures |Encode(h)| == HeaderLen(h) && HasHeader(Encode(h) + data) && Parse(Encode(h) + data) == h
  {
    hide EncodeIp, EncodeTcp, ToFlags, W16, W32;
    var ip, tcp := EncodeIp(h), EncodeTcp(h);
    var b := Encode(h) + data;
    IpOctets(h);
    TcpOctets(h);
    Assoc(ip, tcp, data);
    IpPart(b, ip, tcp + data);
    TcpPart(b, ip, tcp, data);
  }

  /** What is read from the front of a datagram is read from its IP header. */
  lemma IpPart(b: seq<Byte>, ip: seq<Byte>, rest: seq<Byte>)
    requires b == ip + rest && |ip| >= 20
    ensures b[0] == ip[0] && b[1] == ip[1] && b[8] == ip[8] && b[9] == ip[9] && b[20..|ip|] == ip[20..]
    ensures W16(b, 2) == W16(ip, 2) && W16(b, 4) == W16(ip, 4) && W16(b, 6) == W16(ip, 6) && W16(b, 10) == W16(ip, 10)
    ensures W32(b, 12) == W32(ip, 12) && W32(b, 16) == W32(ip, 16)
  {
    assert b[..|ip|] == ip;
    PrefixAll(b, |ip|, 20);
    assert forall i :: 0 <= i < 20 ==> b[i] == ip[i];
  }

  lemma TcpPart(b: seq<Byte>, ip: seq<Byte>, tcp: seq<Byte>, data: seq<Byte>)
    requires b == ip + tcp + data && |tcp| >= 20
    ensures var t := |ip|;
            && b[t + 12] == tcp[12] && b[t + 13] == tcp[13] && b[t + 20..t + |tcp|] == tcp[20..]
            && W32(b, t) == W32(tcp, 0) && W32(b, t + 4) == W32(tcp, 4) && W32(b, t + 8) == W32(tcp, 8)
            && W16(b, t + 14) == W16(tcp, 14) && W16(b, t + 16) == W16(tcp, 16) && W16(b, t + 18) == W16(tcp, 18)
  {
    MiddleSlice(ip, tcp, data, 20, |tcp|);
    assert tcp[20..|tcp|] == tcp[20..];
    assert forall i :: 0 <= i < 20 ==> b[|ip| + i] == tcp[i];
  }

  lemma B16W16(b: seq<Byte>, i: nat)
    requires i + 2 <= |b|
    ensures B16(W16(b, i)) == b[i..i + 2]
  {
  }

  lemma EncodeParseIp(b: seq<Byte>)
    requires HasHeader(b)
    ensures EncodeIp(Parse(b)) == b[..4 * (b[0] % 16)]
  {
    hide B16, B32, W16, W32, ToFlags;
    B16W16(b, 2);
    B16W16(b, 4);
    B16W16(b, 6);
    B16W16(b, 10);
    B32W32(b, 12);
    B32W32(b, 16);
    IpSlices(b, 4 * (b[0] % 16));
  }

  lemma IpSlices(b: seq<Byte>, t: nat)
    requires 20 <= t <= |b|
    ensures b[..t] == [b[0], b[1]] + b[2..4] + b[4..6] + b[6..8] + [b[8], b[9]] + b[10..12] + b[12..16] + b[16..20]
                      + b[20..t]
  {
    assert [b[0], b[1]] == b[0..2] && [b[8], b[9]] == b[8..10] && b[..t] == b[0..t];
    SliceConcat(b, 0, 2, 4);
    SliceConcat(b, 0, 4, 6);
    SliceConcat(b, 0, 6, 8);
    SliceConcat(b, 0, 8, 10);
    SliceConcat(b, 0, 10, 12);
    SliceConcat(b, 0, 12, 16);
    SliceConcat(b, 0, 16, 20);
    SliceConcat(b, 0, 20, t);
  }

  lemma EncodeParseTcp(b: seq<Byte>)
    requires HasHeader(b)
    ensures Parse(b).flags.reserved < 4
    ensures var t := 4 * (b[0] % 16);
            EncodeTcp(Parse(b)) == b[t..t + 4 * (b[t + 12] / 16)]
  {
    hide W16, W32, ToFlags, EncodeTcp;
    var t := 4 * (b[0] % 16);
    var e := t + 4 * (b[t + 12] / 16);
    var c := b[t..e];
    ThreeSlices(b, t, e);
    TcpPart(b, b[..t], c, b[e..]);
    EncodeTcpOf(Parse(b), c);
  }

  lemma ThreeSlices(b: seq<Byte>, t: nat, e: nat)
    requires t <= e <= |b|
    ensures b == b[..t] + b[t..e] + b[e..]
  {
  }

  /** A header whose fields are read from `c` has the octets of `c`. */
  lemma EncodeTcpOf(h: Header, c: seq<Byte>)
    requires |c| >= 20
    requires h.ports == W32(c, 0) && h.sn == W32(c, 4) && h.ack == W32(c, 8) && h.offx2 == c[12]
             && h.flags == ToFlags(c[13])
    requires h.win == W16(c, 14) && h.tsum == W16(c, 16) && h.urp == W16(c, 18) && h.topt == c[20..]
    ensures h.flags.reserved < 4 && EncodeTcp(h) == c
  {
    hide B16, B32, W16, W32, ToFlags, FlagsByte;
    B32W32(c, 0);
    B32W32(c, 4);
    B32W32(c, 8);
    B16W16(c, 14);
    B16W16(c, 16);
    B16W16(c, 18);
    FlagsByteRoundTrip(c[13]);
    assert [c[12], c[13]] == c[12..14] && c[20..] == c[20..|c|] && c == c[0..|c|];
    SliceConcat(c, 0, 4, 8);
    SliceConcat(c, 0, 8, 12);
    SliceConcat(c, 0, 12, 14);
    SliceConcat(c, 0, 14, 16);
    SliceConcat(c, 0, 16, 18);
    SliceConcat(c, 0, 18, 20);
    SliceConcat(c, 0, 20, |c|);
  }

  /** The octets of the header read from a datagram are the datagram's own. */
  lemma EncodeParse(b: seq<Byte>)
    requires HasHeader(b)
    ensures Proper(Parse(b)) && HeaderLen(Parse(b)) <= |b| && Encode(Parse(b)) == b[..HeaderLen(Parse(b))]
  {
    EncodeParseIp(b);
    EncodeParseTcp(b);
  }
}
