/** Small shared vocabulary. */
module Prelude {

  datatype Option<+T> = None | Some(value: T)

  type Byte = x: int | 0 <= x < 0x100

  function Min(a: int, b: int): (r: int)
    ensures r <= a && r <= b && (r == a || r == b)
  {
    if a <= b then a else b
  }

  function Max(a: int, b: int): (r: int)
    ensures r >= a && r >= b && (r == a || r == b)
  {
    if a >= b then a else b
  }

  function Pow2(k: nat): (p: nat)
    ensures p > 0
  {
    if k == 0 then 1 else 2 * Pow2(k - 1)
  }

  lemma Assoc<T>(a: seq<T>, b: seq<T>, c: seq<T>)
    ensures a + b + c == a + (b + c)
  {
  }

  /** A slice of a prefix is a slice of the whole. */
  lemma PrefixSlice<T>(s: seq<T>, n: nat, i: nat, j: nat)
    requires i <= j <= n <= |s|
    ensures s[..n][i..j] == s[i..j]
  {
    var p := s[..n];
    forall k | 0 <= k < j - i ensures p[i..j][k] == s[i..j][k] {
      assert p[i..j][k] == p[i + k] == s[i + k];
    }
  }

  lemma PrefixAll<T>(s: seq<T>, n: nat, i: nat)
    requires i <= n <= |s|
    ensures s[..n][i..] == s[i..n] && s[..n][..i] == s[..i]
  {
    var p := s[..n];
    forall k | 0 <= k < n - i ensures p[i..][k] == s[i..n][k] {
      assert p[i..][k] == p[i + k] == s[i + k];
    }
  }

  /** Two slices that meet. */
  lemma SliceConcat<T>(s: seq<T>, i: nat, j: nat, k: nat)
    requires i <= j <= k <= |s|
    ensures s[i..j] + s[j..k] == s[i..k]
  {
    var t := s[i..j] + s[j..k];
    forall n | 0 <= n < k - i ensures t[n] == s[i..k][n] {
      assert s[i..k][n] == s[i + n];
    }
  }

  /** A slice of the middle of three parts. */
  lemma MiddleSlice<T>(a: seq<T>, x: seq<T>, b: seq<T>, i: nat, j: nat)
    requires i <= j <= |x|
    ensures (a + x + b)[|a| + i..|a| + j] == x[i..j]
  {
    var all := a + x + b;
    forall n | 0 <= n < j - i ensures all[|a| + i..|a| + j][n] == x[i..j][n] {
      assert all[|a| + i..|a| + j][n] == all[|a| + i + n] == x[i + n];
    }
  }

  lemma ThreeParts<T>(a: seq<T>, x: seq<T>, b: seq<T>)
    ensures (a + x + b)[..|a|] == a && (a + x + b)[|a|..|a| + |x|] == x && (a + x + b)[|a| + |x|..] == b
  {
    MiddleSlice(a, x, b, 0, |x|);
    assert x[0..|x|] == x;
    Assoc(a, x, b);
    assert (a + x)[..|a|] == a;
  }
}
