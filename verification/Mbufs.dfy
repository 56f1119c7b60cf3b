/** Memory buffers and chains of them as values. */
module Mbufs {
  import opened Prelude

  const MSIZE: nat := 128
  const MLEN: nat := 108
  const MHLEN: nat := 100
  const MCLBYTES: nat := 2048

  datatype Kind = Data | Header | Soname | Control | Oob

  /**
   A buffer: its data start `off` octets into its storage, which is its own or, if `ext` is not zero, a cluster of that
   size. `eor` marks the end of a record.
   */
  datatype Mbuf = Mbuf(data: seq<Byte>, off: nat, kind: Kind, eor: bool, ext: nat)

  type Chain = seq<Mbuf>

  predicate ValidMbuf(m: Mbuf) {
    m.off + |m.data| <= if m.ext == 0 then MLEN else m.ext
  }

  predicate ValidChain(c: Chain) {
    forall i :: 0 <= i < |c| ==> ValidMbuf(c[i])
  }

  /** An octet together with the type of the buffer it is in. */
  datatype Octet = Octet(kind: Kind, value: Byte)

  function Tagged(kind: Kind, data: seq<Byte>): (t: seq<Octet>)
    ensures |t| == |data|
  {
    seq(|data|, i requires 0 <= i < |data| => Octet(kind, data[i]))
  }

  function Text(m: Mbuf): (t: seq<Octet>)
    ensures |t| == |m.data|
  {
    Tagged(m.kind, m.data)
  }

  /** The octets of a chain in order. */
  function Flat(c: Chain): seq<Octet> {
    if c == [] then [] else Text(c[0]) + Flat(c[1..])
  }

  /** The storage a chain takes. */
  function Space(c: Chain): nat {
    if c == [] then 0 else MSIZE + c[0].ext + Space(c[1..])
  }

  lemma {:induction false} FlatConcat(c: Chain, d: Chain)
    ensures Flat(c + d) == Flat(c) + Flat(d) && Space(c + d) == Space(c) + Space(d)
  {
    hide Text;
    if c == [] {
      assert c + d == d;
    } else {
      FlatConcat(c[1..], d);
      FlatFirst(c[0], c[1..] + d);
      assert c + d == [c[0]] + (c[1..] + d);
      hide Flat, Space;
      Assoc(Text(c[0]), Flat(c[1..]), Flat(d));
    }
  }

  lemma FlatFirst(m: Mbuf, c: Chain)
    ensures Flat([m] + c) == Text(m) + Flat(c) && Space([m] + c) == MSIZE + m.ext + Space(c)
  {
    assert ([m] + c)[1..] == c;
  }

  lemma FlatOne(m: Mbuf)
    ensures Flat([m]) == Text(m) && Space([m]) == MSIZE + m.ext
  {
    var c: Chain := [m];
    assert c[1..] == [];
  }

  lemma FlatSnoc(c: Chain, m: Mbuf)
    ensures Flat(c + [m]) == Flat(c) + Text(m) && Space(c + [m]) == Space(c) + MSIZE + m.ext
  {
    FlatConcat(c, [m]);
    FlatOne(m);
  }

  lemma TaggedConcat(kind: Kind, a: seq<Byte>, b: seq<Byte>)
    ensures Tagged(kind, a + b) == Tagged(kind, a) + Tagged(kind, b)
  {
  }

  /** A buffer without its first `n` octets. */
  function Advance(m: Mbuf, n: nat): Mbuf
    requires n <= |m.data|
  {
    Mbuf(m.data[n..], m.off + n, m.kind, m.eor, m.ext)
  }

  lemma AdvanceText(m: Mbuf, n: nat)
    requires n <= |m.data|
    ensures Text(Advance(m, n)) == Text(m)[n..]
    ensures Tagged(m.kind, m.data[..n]) == Text(m)[..n]
    ensures ValidMbuf(m) ==> ValidMbuf(Advance(m, n))
  {
  }
}
