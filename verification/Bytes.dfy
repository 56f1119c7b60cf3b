/** Numbers as octets, the most significant one first. */
module Bytes {
  import opened Prelude

  type Word = x: int | 0 <= x < 0x1_0000
  type Long = x: int | 0 <= x < 0x1_0000_0000

  function B16(x: Word): seq<Byte> { [x / 256, x % 256] }
  function B32(x: Long): seq<Byte> { B16(x / 0x1_0000) + B16(x % 0x1_0000) }

  function W16(b: seq<Byte>, i: nat): Word
    requires i + 2 <= |b|
  {
    var hi: int := b[i];
    hi * 256 + b[i + 1]
  }

  function W32(b: seq<Byte>, i: nat): Long
    requires i + 4 <= |b|
  {
    var hi: int := W16(b, i);
    hi * 0x1_0000 + W16(b, i + 2)
  }

  lemma B32W32(b: seq<Byte>, i: nat)
    requires i + 4 <= |b|
    ensures B32(W32(b, i)) == b[i..i + 4]
  {
  }

  /** What is written can be read back. */
  lemma WrittenRead(b: seq<Byte>, i: nat, x: Long)
    requires i + 4 <= |b| && b[i..i + 4] == B32(x)
    ensures W32(b, i) == x
  {
    var t := b[i..i + 4];
    assert b[i] == t[0] && b[i + 1] == t[1] && b[i + 2] == t[2] && b[i + 3] == t[3];
  }

  lemma WrittenRead16(b: seq<Byte>, i: nat, x: Word)
    requires i + 2 <= |b| && b[i..i + 2] == B16(x)
    ensures W16(b, i) == x
  {
    var t := b[i..i + 2];
    assert b[i] == t[0] && b[i + 1] == t[1];
  }

  /** Copy into a buffer. */
  method CopyIn(a: array<Byte>, off: nat, src: seq<Byte>)
    requires off + |src| <= a.Length
    modifies a
    ensures a[..] == old(a[..])[..off] + src + old(a[..])[off + |src|..]
  {
    var i := 0;
    while i < |src|
      invariant 0 <= i <= |src|
      invariant forall j :: 0 <= j < a.Length ==> a[j] == if off <= j < off + i then src[j - off] else old(a[j])
    {
      a[off + i] := src[i];
      i := i + 1;
    }
  }
}
