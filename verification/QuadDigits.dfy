/** Numbers as sequences of half-word digits, the most significant one first. */
module QuadDigits {
  import opened Prelude

  const BASE: nat := 0x1_0000
  const LONG: nat := 0x1_0000_0000
  const QUAD: nat := 0x1_0000_0000_0000_0000

  predicate Digits(s: seq<nat>) {
    forall i :: 0 <= i < |s| ==> s[i] < BASE
  }

  function Pow(k: nat): (p: nat)
    ensures p > 0
  {
    if k == 0 then 1 else Pow(k - 1) * BASE
  }

  function Val(s: seq<nat>): nat {
    if s == [] then 0 else Val(s[..|s| - 1]) * BASE + s[|s| - 1]
  }

  lemma {:induction false} PowAdd(a: nat, b: nat)
    ensures Pow(a + b) == Pow(a) * Pow(b)
    decreases b
  {
    if b > 0 {
      PowAdd(a, b - 1);
      assert Pow(a + b) == Pow(a + (b - 1)) * BASE;
      Regroup(Pow(a), Pow(b - 1), BASE);
    }
  }

  lemma Regroup(x: int, y: int, z: int)
    ensures x * y * z == x * (y * z)
  {
  }

  lemma {:induction false} Pow2Split(d: nat)
    requires d <= 16
    ensures Pow2(d) * Pow2(16 - d) == BASE
  {
    if d == 0 {
      assert Pow2(16) == 65536 by { Pow2Sixteen(); }
    } else {
      Pow2Split(d - 1);
      assert Pow2(16 - (d - 1)) == 2 * Pow2(16 - d);
      Regroup(Pow2(d - 1), 2, Pow2(16 - d));
    }
  }

  lemma Pow2Sixteen()
    ensures Pow2(16) == 65536
  {
    assert Pow2(4) == 16;
    assert Pow2(8) == 256;
    assert Pow2(12) == 4096;
  }

  lemma {:induction false} ValBound(s: seq<nat>)
    requires Digits(s)
    ensures Val(s) < Pow(|s|)
    decreases |s|
  {
    if s != [] {
      ValBound(s[..|s| - 1]);
    }
  }

  /** A number splits where its digits do. */
  lemma {:induction false} ValConcat(s: seq<nat>, t: seq<nat>)
    ensures Val(s + t) == Val(s) * Pow(|t|) + Val(t)
    decreases |t|
  {
    if t == [] {
      assert s + t == s;
    } else {
      var n := |t| - 1;
      ValConcat(s, t[..n]);
      assert (s + t)[..|s| + n] == s + t[..n];
      Regroup(Val(s), Pow(n), BASE);
      assert Val(s + t) == (Val(s) * Pow(n) + Val(t[..n])) * BASE + t[n];
    }
  }

  lemma ValOne(x: nat)
    ensures Val([x]) == x
  {
    var s: seq<nat> := [x];
    assert Val(s[..0]) == 0;
  }

  lemma ValCons(x: nat, t: seq<nat>)
    ensures Val([x] + t) == x * Pow(|t|) + Val(t)
  {
    ValOne(x);
    ValConcat([x], t);
  }

  lemma {:induction false} ValZeros(s: seq<nat>)
    requires forall i :: 0 <= i < |s| ==> s[i] == 0
    ensures Val(s) == 0
    decreases |s|
  {
    if s != [] {
      ValZeros(s[..|s| - 1]);
    }
  }

  /** A number below a power of the base has zeros in front. */
  lemma LeadingZero(s: seq<nat>)
    requires s != [] && Val(s) < Pow(|s| - 1)
    ensures s[0] == 0 && Val(s) == Val(s[1..])
  {
    hide Val, Pow;
    assert s == [s[0]] + s[1..];
    ValCons(s[0], s[1..]);
    if s[0] > 0 {
      AtLeast(s[0], Pow(|s| - 1));
    }
  }

  lemma AtLeast(x: nat, p: nat)
    requires x > 0
    ensures x * p >= p
  {
  }

  lemma PowStep(n: nat)
    ensures Pow(n + 1) == Pow(n) * BASE
  {
  }

  /** Val of a range of digits, one longer at the end. */
  lemma ValSnoc(s: seq<nat>, i: nat, j: nat)
    requires i <= j < |s|
    ensures Val(s[i..j + 1]) == Val(s[i..j]) * BASE + s[j]
  {
    assert s[i..j + 1][..j - i] == s[i..j];
  }

  /** A range of digits splits anywhere. */
  lemma ValSplit(s: seq<nat>, i: nat, j: nat, k: nat)
    requires i <= j <= k <= |s|
    ensures Val(s[i..k]) == Val(s[i..j]) * Pow(k - j) + Val(s[j..k])
  {
    assert s[i..k] == s[i..j] + s[j..k];
    ValConcat(s[i..j], s[j..k]);
  }

  lemma FourDigits(s: seq<nat>)
    requires |s| == 5
    ensures Val(s[1..5]) == ((s[1] * BASE + s[2]) * BASE + s[3]) * BASE + s[4]
  {
    ValSnoc(s, 1, 4);
    ValSnoc(s, 1, 3);
    ValSnoc(s, 1, 2);
    ValSnoc(s, 1, 1);
    assert s[1..1] == [];
  }
}
