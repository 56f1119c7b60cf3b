/** Quotient and remainder of any two 64-bit numbers. */
module QuadDivRem {
  import opened Prelude
  import opened QuadDigits
  import opened QuadDivide

  // ----- shifting by less than a digit

  /** Shifting a digit left: what falls out and what stays. */
  lemma ShiftDigit(x: nat, p: nat, g: nat)
    requires p > 0 && g > 0 && p * g == BASE
    ensures x * p == (x / g) * BASE + x * p % BASE
    ensures x * p % BASE + p <= BASE
    ensures x < BASE ==> x / g < p
  {
    var h, l := x / g, x % g;
    QuotientAndRest(x, g);
    Spread(h * g, l, p);
    Regroup(h, g, p);
    BelowBase(l, p, g);
    RestIs(x * p, h, l * p);
    if x < BASE {
      Cancel(h, p, g);
    }
  }

  lemma BelowBase(l: nat, p: nat, g: nat)
    requires l < g && p > 0 && p * g == BASE
    ensures 0 <= l * p && l * p + p <= BASE
  {
    Spread(l, 1, p);
    Step(l + 1, g, p);
  }

  /** What stays of a digit that is shifted left, and what of it goes over to the digit before. */
  function Stays(x: nat, p: nat): nat { x * p % BASE }

  function GoesOver(x: nat, g: nat): (y: nat)
    requires g > 0
  {
    QuotientAndRest(x, g);
    x / g
  }

  /** Shift the digits `off` to `off + len` left; nothing falls out at the front. */
  method ShiftLeft(a: array<nat>, off: nat, len: nat, sh: nat)
    requires 1 <= sh <= 15 && off + len < a.Length && Digits(a[..]) && a[off] * Pow2(sh) < BASE
    modifies a
    ensures Digits(a[..]) && SameOutside(a[..], old(a[..]), off, off + len + 1)
    ensures Val(a[..][off..off + len + 1]) == old(Val(a[..][off..off + len + 1])) * Pow2(sh)
  {
    hide Val, Pow, Pow2, Shifting, Stays, GoesOver;
    var p, g := Pow2(sh), Pow2(16 - sh);
    Pow2Split(sh);
    ghost var a0 := a[..];
    ShiftStart(a0, off, p, g);
    var i := off;
    while i < off + len
      invariant off <= i <= off + len && Shifting(a[..], a0, off, i, p, g, GoesOver(a0[i], g))
    {
      ghost var a1 := a[..];
      ShiftStep(a1, a0, off, i, p, g, GoesOver(a0[i + 1], g));
      a[i] := Stays(a[i], p) + GoesOver(a[i + 1], g);
      assert a[..] == a1[i := a[i]];
      i := i + 1;
    }
    ghost var a1 := a[..];
    ShiftStep(a1, a0, off, i, p, g, 0);
    a[i] := Stays(a[i], p);
    assert a[..] == a1[i := a[i]];
    ShiftEnd(a[..], a0, off, i + 1, p, g);
  }

  /** The digits before `i` are shifted; `c` is what comes over from the digit at `i`. */
  ghost predicate Shifting(a: seq<nat>, a0: seq<nat>, off: nat, i: nat, p: nat, g: nat, c: nat) {
    && |a| == |a0| && off <= i <= |a| && p > 0 && g > 0 && p * g == BASE && Digits(a0)
    && Digits(a) && SameOutside(a, a0, off, i) && Val(a[off..i]) == Val(a0[off..i]) * p + c
  }

  lemma ShiftStart(a: seq<nat>, off: nat, p: nat, g: nat)
    requires off < |a| && Digits(a) && p > 0 && g > 0 && p * g == BASE && a[off] * p < BASE
    ensures Shifting(a, a, off, off, p, g, GoesOver(a[off], g))
  {
    NoDigits(a, off);
    hide Val;
    NothingOut(a[off], p, g);
    assert 0 * p == 0;
  }

  lemma ShiftStep(a: seq<nat>, a0: seq<nat>, off: nat, i: nat, p: nat, g: nat, c: nat)
    requires i < |a0| && g > 0 && Shifting(a, a0, off, i, p, g, GoesOver(a0[i], g))
    requires c == 0 || (i + 1 < |a0| && c == GoesOver(a0[i + 1], g))
    ensures a[i] == a0[i] && (i + 1 < |a0| ==> a[i + 1] == a0[i + 1])
    ensures Shifting(a[i := Stays(a0[i], p) + c], a0, off, i + 1, p, g, c)
  {
    hide Val;
    ShiftDigit(a0[i], p, g);
    if c != 0 {
      ShiftDigit(a0[i + 1], p, g);
    }
    ShiftRange(a0, a, off, i, p, g, Stays(a0[i], p) + c, c);
  }

  lemma ShiftEnd(a: seq<nat>, a0: seq<nat>, off: nat, i: nat, p: nat, g: nat)
    requires Shifting(a, a0, off, i, p, g, 0)
    ensures Digits(a) && SameOutside(a, a0, off, i) && Val(a[off..i]) == Val(a0[off..i]) * p
  {
  }

  lemma NothingOut(x: nat, p: nat, g: nat)
    requires p > 0 && g > 0 && p * g == BASE && x * p < BASE
    ensures x / g == 0
  {
    Cancel(x, g, p);
  }

  lemma ShiftRange(a0: seq<nat>, a1: seq<nat>, off: nat, i: nat, p: nat, g: nat, w: nat, c: nat)
    requires off <= i < |a0| == |a1| && p > 0 && g > 0 && p * g == BASE && w == a0[i] * p % BASE + c
    requires Val(a1[off..i]) == Val(a0[off..i]) * p + a0[i] / g
    ensures Val(a1[i := w][off..i + 1]) == Val(a0[off..i + 1]) * p + c
  {
    hide Val;
    ValSnoc(a0, off, i);
    ValSnoc(a1[i := w], off, i);
    assert a1[i := w][off..i] == a1[off..i];
    ShiftDigit(a0[i], p, g);
    ShiftAlgebra(Val(a0[off..i]), a0[i], p, a0[i] / g, a0[i] * p % BASE);
  }

  lemma ShiftAlgebra(o: nat, x: nat, p: nat, h: nat, l: nat)
    requires x * p == h * BASE + l
    ensures (o * p + h) * BASE + l == (o * BASE + x) * p
  {
    Spread(o * BASE, x, p);
    Regroup(o, BASE, p);
    Regroup(o, p, BASE);
  }

  /** The digits after `i` are done: `c` is what fell out at the end. */
  ghost predicate Unshifted(a: seq<nat>, a0: seq<nat>, i: nat, hi: nat, p: nat, c: nat)
    requires i <= hi < |a| == |a0| && p > 0
  {
    Val(a[i + 1..hi + 1]) * p + c == (a0[i] % p) * Pow(hi - i) + Val(a0[i + 1..hi + 1])
  }

  /** Shift the digits `lo` to `hi`, the first of them zero, right. */
  method ShiftRight(a: array<nat>, lo: nat, hi: nat, sh: nat)
    requires 1 <= sh <= 15 && lo < hi < a.Length && Digits(a[..]) && a[lo] == 0
    modifies a
    ensures Digits(a[..]) && SameOutside(a[..], old(a[..]), lo, hi + 1) && a[lo] == 0
    ensures Val(a[..][lo..hi + 1]) == old(Val(a[..][lo..hi + 1])) / Pow2(sh)
  {
    hide Val, Pow, Pow2, Unshifted;
    var p, g := Pow2(sh), Pow2(16 - sh);
    Pow2Split(sh);
    ghost var a0 := a[..];
    ghost var c := a0[hi] % p;
    UnshiftStart(a0, hi, p);
    var i := hi;
    while i > lo
      invariant lo <= i <= hi && Digits(a[..]) && SameOutside(a[..], a0, i + 1, hi + 1)
                && Unshifted(a[..], a0, i, hi, p, c)
    {
      ghost var a1 := a[..];
      UnshiftDigit(a[i], a[i - 1], p, g);
      a[i] := a[i] / p + a[i - 1] * g % BASE;
      UnshiftRange(a0, a1, i, hi, p, c, a[i]);
      assert a[..] == a1[i := a[i]];
      i := i - 1;
    }
    ghost var a1 := a[..];
    UnshiftEnd(a0, a1, lo, hi, p, c);
    a[i] := 0;
    assert a[..] == a1;
  }

  lemma UnshiftStart(a: seq<nat>, hi: nat, p: nat)
    requires hi < |a| && p > 0
    ensures Unshifted(a, a, hi, hi, p, a[hi] % p)
  {
    NoDigits(a, hi + 1);
  }

  lemma UnshiftEnd(a0: seq<nat>, a1: seq<nat>, lo: nat, hi: nat, p: nat, c: nat)
    requires lo < hi < |a0| == |a1| && p > 0 && c < p && a0[lo] == 0 && a1[lo] == 0 && Unshifted(a1, a0, lo, hi, p, c)
    ensures Val(a1[lo..hi + 1]) == Val(a0[lo..hi + 1]) / p
  {
    hide Val, Pow;
    Longer(a0, lo, hi + 1);
    Longer(a1, lo, hi + 1);
    DivUnique(Val(a0[lo..hi + 1]), p, Val(a1[lo..hi + 1]), c);
  }

  lemma UnshiftDigit(x: nat, y: nat, p: nat, g: nat)
    requires p > 0 && g > 0 && p * g == BASE && x < BASE && y < BASE
    ensures var w := x / p + y * g % BASE;
            w < BASE && w * p + x % p == x + (y % p) * BASE
  {
    ShiftDigit(y, g, p);
    ShiftDigit(x, g, p);
    LowPart(y, p, g);
    var l := y % p;
    Regroup(l, g, p);
    QuotientAndRest(x, p);
    Spread(x / p, l * g, p);
  }

  lemma LowPart(y: nat, p: nat, g: nat)
    requires p > 0 && g > 0 && p * g == BASE
    ensures y * g % BASE == y % p * g
  {
    var h, l := y / p, y % p;
    QuotientAndRest(y, p);
    Spread(h * p, l, g);
    Regroup(h, p, g);
    Cancels(l, p, g);
    RestIs(y * g, h, l * g);
  }

  lemma Cancels(l: nat, p: nat, g: nat)
    requires l < p && g > 0
    ensures 0 <= l * g < p * g
  {
  }

  lemma RestIs(z: nat, h: nat, r: nat)
    requires z == h * BASE + r && r < BASE
    ensures z % BASE == r
  {
  }

  lemma QuotientAndRest(x: nat, p: nat)
    requires p > 0
    ensures x == x / p * p + x % p && 0 <= x % p < p && 0 <= x / p
  {
  }

  lemma Spread(a: int, b: int, c: int)
    ensures (a + b) * c == a * c + b * c
  {
  }

  lemma UnshiftRange(a0: seq<nat>, a1: seq<nat>, i: nat, hi: nat, p: nat, c: nat, w: nat)
    requires 0 < i <= hi < |a0| == |a1| && p > 0 && w * p + a0[i] % p == a0[i] + (a0[i - 1] % p) * BASE
    requires Unshifted(a1, a0, i, hi, p, c)
    ensures Unshifted(a1[i := w], a0, i - 1, hi, p, c)
  {
    hide Val, Pow;
    Longer(a0, i, hi + 1);
    Longer(a1[i := w], i, hi + 1);
    assert a1[i := w][i + 1..hi + 1] == a1[i + 1..hi + 1];
    PowStep(hi - i);
    UnshiftAlgebra(Pow(hi - i), w, p, a0[i] % p, a0[i], a0[i - 1] % p, Val(a1[i + 1..hi + 1]), c,
                   Val(a0[i + 1..hi + 1]));
  }

  lemma UnshiftAlgebra(q: nat, w: nat, p: nat, l: nat, x: nat, m: nat, n: nat, c: nat, t: nat)
    requires w * p + l == x + m * BASE && n * p + c == l * q + t
    ensures (w * q + n) * p + c == m * (q * BASE) + (x * q + t)
  {
    assert (w * q + n) * p == (w * p) * q + n * p;
    assert (w * p + l) * q == (x + m * BASE) * q;
    assert (m * BASE) * q == m * (q * BASE);
  }

  // ----- the whole division

  lemma SkipZeros(s: seq<nat>, i: nat, j: nat, k: nat)
    requires i <= j <= k <= |s| && forall l :: i <= l < j ==> s[l] == 0
    ensures Val(s[i..k]) == Val(s[j..k])
  {
    ValSplit(s, i, j, k);
    ValZeros(s[i..j]);
  }

  /** D1: scale both numbers until the divisor's first digit has its top bit set. */
  method Normalise(u: array<nat>, v: array<nat>, uo: nat, vo: nat, n: nat) returns (d: nat)
    requires u != v && u.Length == 5 && v.Length == 5 && Digits(u[..]) && Digits(v[..]) && uo <= 3 && vo + n == 4
             && n >= 2
    requires u[uo] == 0 && v[vo + 1] > 0
    modifies u, v
    ensures d <= 15 && Digits(u[..]) && Digits(v[..])
    ensures Val(u[..][uo..5]) == old(Val(u[..][uo..5])) * Pow2(d) && SameOutside(u[..], old(u[..]), uo, 5)
    ensures Val(v[..][vo + 1..5]) == old(Val(v[..][vo + 1..5])) * Pow2(d)
    ensures v[vo + 1] > 0
  {
    hide Val;
    ghost var u0, v0 := u[..], v[..];
    d := FirstShift(v[vo + 1]);
    if d > 0 {
      hide Pow2;
      ShiftLeft(u, uo, 4 - uo, d);
      ShiftLeft(v, vo + 1, n - 1, d);
      StillLeading(v0, v[..], vo + 1, n, Pow2(d));
    } else {
      assert Pow2(d) == 1;
    }
  }

  /** How far a digit must be shifted for its top bit to be set. */
  method FirstShift(x: nat) returns (d: nat)
    requires 0 < x < BASE
    ensures d <= 15 && BASE / 2 <= x * Pow2(d) < BASE
  {
    d := 0;
    var t := x;
    while t < BASE / 2
      invariant t == x * Pow2(d) && 0 < t < BASE && d <= 15
      decreases BASE - t
    {
      AtLeast(x, Pow2(d));
      SmallPower(d);
      Doubled(x, d);
      hide Pow2;
      t := 2 * t;
      d := d + 1;
    }
  }

  lemma Doubled(x: nat, d: nat)
    ensures x * Pow2(d + 1) == 2 * (x * Pow2(d))
  {
    assert Pow2(d + 1) == 2 * Pow2(d);
  }

  lemma SmallPower(d: nat)
    requires Pow2(d) < BASE / 2 && d <= 15
    ensures d < 15
  {
    Pow2Sixteen();
    assert Pow2(16) == 2 * Pow2(15);
  }

  lemma StillLeading(v0: seq<nat>, v1: seq<nat>, i: nat, n: nat, p: nat)
    requires n >= 1 && i + n <= |v0| == |v1| && p > 0 && Digits(v1) && v0[i] > 0
    requires Val(v1[i..i + n]) == Val(v0[i..i + n]) * p
    ensures v1[i] > 0
  {
    hide Val, Pow;
    Longer(v0, i, i + n);
    Longer(v1, i, i + n);
    ValBound(v1[i + 1..i + n]);
    AtLeast(v0[i], Pow(n - 1));
    AtLeast(p, Val(v0[i..i + n]));
  }

  /** D2 to D7: the digits of the quotient one after the other; the remainder is left in the last `n` digits. */
  method DivideDigits(u: array<nat>, v: array<nat>, q: array<nat>, uo: nat, vo: nat, m: nat, n: nat)
    requires u != v && u != q && v != q && u.Length == 5 && v.Length == 5 && q.Length == 5
    requires Digits(u[..]) && Digits(v[..]) && Digits(q[..]) && uo + m + n == 4 && vo + n == 4 && n >= 2
             && v[vo + 1] > 0
    requires Val(u[..][uo..uo + n]) < Val(v[..][vo + 1..5]) && forall i :: 0 <= i < uo ==> u[i] == 0
    modifies u, q
    ensures Digits(u[..]) && Digits(q[..]) && SameOutside(q[..], old(q[..]), 4 - m, 5)
    ensures forall i :: 0 <= i <= uo + m ==> u[i] == 0
    ensures Val(u[..][uo + m..5]) < Val(v[..][vo + 1..5])
    ensures old(Val(u[..][uo..5])) == Val(q[..][4 - m..5]) * Val(v[..][vo + 1..5]) + Val(u[..][uo + m..5])
  {
    hide Val, Pow, Dividing;
    ghost var u0, q0, w := u[..], q[..], Val(v[..][vo + 1..5]);
    var j := 0;
    StartDigits(u0, q0, uo, m, n, w);
    while j <= m
      invariant 0 <= j <= m + 1 && Dividing(u0, q0, u[..], q[..], uo, m, n, j, w)
    {
      ghost var u1, q1 := u[..], q[..];
      NextDigits(u0, q0, u1, q1, uo, m, n, j, w);
      var qhat := DivideDigit(u, v, uo + j, vo, n);
      q[4 - m + j] := qhat;
      assert q[..] == q1[4 - m + j := qhat];
      DigitDone(u[..], uo + j, n, w, v[..], vo);
      DigitStep(u0, q0, u1, q1, u[..], uo, m, n, j, w, qhat);
      j := j + 1;
    }
    EndDigits(u0, q0, u[..], q[..], uo, m, n, w);
  }

  /**
   The first `j` digits of the quotient are found; what is left of the dividend begins with a number below the divisor
   `w`.
   */
  ghost predicate Dividing(u0: seq<nat>, q0: seq<nat>, u: seq<nat>, q: seq<nat>, uo: nat, m: nat, n: nat, j: nat,
                           w: nat) {
    && |u0| == |u| == 5 && |q| == 5 && uo + m + n == 4 && j <= m + 1 && Digits(u) && Digits(q)
    && SameOutside(q, q0, 4 - m, 4 - m + j) && (forall i :: 0 <= i < uo + j ==> u[i] == 0)
    && Val(u[uo + j..uo + j + n]) < w
    && Val(u0[uo..5]) == Scaled(Val(q[4 - m..4 - m + j]), w, Pow(m + 1 - j)) + Val(u[uo + j..5])
  }

  function Scaled(q: nat, w: nat, p: nat): nat { q * w * p }

  lemma DigitStep(u0: seq<nat>, q0: seq<nat>, u1: seq<nat>, q1: seq<nat>, u: seq<nat>, uo: nat, m: nat, n: nat, j: nat,
                  w: nat, qhat: nat)
    requires Dividing(u0, q0, u1, q1, uo, m, n, j, w) && j <= m && w > 0 && qhat < BASE
    requires Digits(u) && SameOutside(u, u1, uo + j, uo + j + n + 1) && u[uo + j] == 0
    requires qhat == Val(u1[uo + j..uo + j + n + 1]) / w
    requires Val(u[uo + j..uo + j + n + 1]) == Val(u1[uo + j..uo + j + n + 1]) % w
    requires Val(u[uo + j + 1..uo + j + n + 1]) == Val(u[uo + j..uo + j + n + 1])
    ensures Dividing(u0, q0, u, q1[4 - m + j := qhat], uo, m, n, j + 1, w)
  {
    hide Val, Pow, Scaled;
    QuotientDigit(u1, u, q1, 4 - m, 4 - m + j, qhat, uo + j, m - j, n, w);
    Remains(Val(u1[uo + j..uo + j + n + 1]), w);
  }

  lemma Remains(x: nat, w: nat)
    requires w > 0
    ensures 0 <= x % w < w
  {
  }

  lemma StartDigits(u: seq<nat>, q: seq<nat>, uo: nat, m: nat, n: nat, w: nat)
    requires |u| == 5 && |q| == 5 && uo + m + n == 4 && Digits(u) && Digits(q)
    requires Val(u[uo..uo + n]) < w && forall i :: 0 <= i < uo ==> u[i] == 0
    ensures Dividing(u, q, u, q, uo, m, n, 0, w)
  {
    NoDigits(q, 4 - m);
    hide Val, Pow;
    assert 0 * w * Pow(m + 1) == 0;
  }

  lemma EndDigits(u0: seq<nat>, q0: seq<nat>, u: seq<nat>, q: seq<nat>, uo: nat, m: nat, n: nat, w: nat)
    requires Dividing(u0, q0, u, q, uo, m, n, m + 1, w)
    ensures Digits(u) && Digits(q) && SameOutside(q, q0, 4 - m, 5) && forall i :: 0 <= i <= uo + m ==> u[i] == 0
    ensures Val(u[uo + m..5]) < w && Val(u0[uo..5]) == Val(q[4 - m..5]) * w + Val(u[uo + m..5])
  {
    SkipZeros(u, uo + m, uo + m + 1, 5);
    assert Pow(0) == 1;
    hide Val, Pow;
    assert Val(q[4 - m..5]) * w * 1 == Val(q[4 - m..5]) * w;
  }

  lemma NextDigits(u0: seq<nat>, q0: seq<nat>, u: seq<nat>, q: seq<nat>, uo: nat, m: nat, n: nat, j: nat, w: nat)
    requires Dividing(u0, q0, u, q, uo, m, n, j, w) && j <= m
    ensures Digits(u) && Digits(q) && Val(u[uo + j..uo + j + n + 1]) < w * BASE
  {
    hide Val, Pow;
    var k := uo + j;
    ValSnoc(u, k, k + n);
    Step(Val(u[k..k + n]) + 1, w, BASE);
  }

  lemma DigitDone(u1: seq<nat>, k: nat, n: nat, w: nat, v: seq<nat>, vo: nat)
    requires k + n < |u1| && |v| == 5 && vo + n == 4 && Digits(v) && w == Val(v[vo + 1..5]) > 0
    requires Val(u1[k..k + n + 1]) < w
    ensures u1[k] == 0 && Val(u1[k + 1..k + n + 1]) == Val(u1[k..k + n + 1])
  {
    hide Val, Pow;
    ValBound(v[vo + 1..5]);
    LeadingZero(u1[k..k + n + 1]);
    assert u1[k..k + n + 1][1..] == u1[k + 1..k + n + 1];
  }

  lemma QuotientDigit(u0: seq<nat>, u1: seq<nat>, q: seq<nat>, qi: nat, qj: nat, qhat: nat, k: nat, l: nat, n: nat,
                      w: nat)
    requires |u0| == |u1| == 5 && |q| == 5 && qi <= qj < 5 && k + n + l == 4 && SameOutside(u1, u0, k, k + n + 1)
             && w > 0
    requires qhat == Val(u0[k..k + n + 1]) / w && Val(u1[k..k + n + 1]) == Val(u0[k..k + n + 1]) % w && u1[k] == 0
    ensures Scaled(Val(q[qj := qhat][qi..qj + 1]), w, Pow(l)) + Val(u1[k + 1..5])
            == Scaled(Val(q[qi..qj]), w, Pow(l + 1)) + Val(u0[k..5])
  {
    hide Val, Pow;
    ValSplit(u0, k, k + n + 1, 5);
    ValSplit(u1, k, k + n + 1, 5);
    assert u1[k + n + 1..5] == u0[k + n + 1..5];
    SkipZeros(u1, k, k + 1, 5);
    ValSnoc(q[qj := qhat], qi, qj);
    assert q[qj := qhat][qi..qj] == q[qi..qj];
    PowStep(l);
    DigitAlgebra(Val(q[qi..qj]), w, Pow(l), qhat, Val(u0[k..k + n + 1]), Val(u1[k..k + n + 1]));
  }

  lemma DigitAlgebra(q: nat, w: nat, p: nat, qhat: nat, s: nat, r: nat)
    requires s == qhat * w + r
    ensures (q * BASE + qhat) * w * p + r * p == q * w * (p * BASE) + s * p
  {
    var y := q * w;
    assert (q * BASE + qhat) * w == y * BASE + qhat * w;
    assert (y * BASE + qhat * w) * p == y * BASE * p + (qhat * w) * p;
    assert (qhat * w + r) * p == (qhat * w) * p + r * p;
    assert y * BASE * p == y * (p * BASE);
  }

  /** Scaling both numbers scales the remainder and leaves the quotient. */
  lemma Denormalise(u: nat, v: nat, p: nat, q: nat, r: nat)
    requires v > 0 && p > 0 && u * p == q * (v * p) + r && r < v * p
    ensures q == u / v && r / p == u % v
  {
    Regroup(q, v, p);
    var left := u - q * v;
    assert left * p == u * p - (q * v) * p == r;
    NonNegative(left, p);
    Cancel(left, v, p);
    DivUnique(u, v, q, left);
    DivUnique(r, p, left, 0);
  }

  lemma NonNegative(x: int, p: nat)
    requires p > 0 && x * p >= 0
    ensures x >= 0
  {
    if x < 0 {
      assert false;
    }
  }

  lemma FirstDigitsBelow(u: seq<nat>, uo: nat, m: nat, n: nat, u0: nat, v0: nat, p: nat)
    requires |u| == 5 && uo + m + n == 4 && n >= 2 && Val(u[uo..5]) == u0 * p && u0 < Pow(m + n) && v0 >= Pow(n - 1)
             && p > 0
    ensures Val(u[uo..uo + n]) < v0 * p
  {
    hide Val, Pow;
    ValSplit(u, uo, uo + n, 5);
    PowAdd(n - 1, m + 1);
    var a, b := Val(u[uo..uo + n]), Pow(m + 1);
    // a * b <= u0 * p < Pow(n - 1) * b * p
    Step(u0 + 1, Pow(m + n), p);
    Below2(a, Pow(n - 1) * p, b, u0, p, Pow(m + n), Pow(n - 1));
    Step(Pow(n - 1), v0, p);
  }

  lemma Below2(a: nat, c: nat, b: nat, u0: nat, p: nat, t: nat, s: nat)
    requires a * b <= u0 * p && (u0 + 1) * p <= t * p && p > 0 && t == s * b && c == s * p
    ensures a < c
  {
    assert t * p == c * b by {
      Regroup(s, b, p);
      Regroup(s, p, b);
      assert b * p == p * b;
    }
    assert (u0 + 1) * p == u0 * p + p;
    Cancel(a, c, b);
  }

  /** Long division of `u` by a divisor of two or more digits; quotient into `q`, remainder into `u`. */
  method LongDivide(u: array<nat>, v: array<nat>, q: array<nat>, uo: nat, vo: nat, m: nat, n: nat)
    requires u != v && u != q && v != q && u.Length == 5 && v.Length == 5 && q.Length == 5
    requires Digits(u[..]) && Digits(v[..]) && Digits(q[..]) && uo + m + n == 4 && vo + n == 4 && n >= 2
             && v[vo + 1] > 0
    requires forall i :: 0 <= i <= uo ==> u[i] == 0
    modifies u, v, q
    ensures Digits(u[..]) && Digits(q[..]) && SameOutside(q[..], old(q[..]), 4 - m, 5)
    ensures old(Val(v[..][vo + 1..5])) > 0
    ensures Val(q[..][4 - m..5]) == old(Val(u[..][uo..5])) / old(Val(v[..][vo + 1..5]))
    ensures Val(u[..][1..5]) == old(Val(u[..][uo..5])) % old(Val(v[..][vo + 1..5]))
  {
    hide Val, Pow, Pow2;
    ghost var u0, v0 := Val(u[..][uo..5]), Val(v[..][vo + 1..5]);
    Sizes(u[..], v[..], uo, vo, m, n);
    var d := Normalise(u, v, uo, vo, n);
    ghost var p := Pow2(d);
    FirstDigitsBelow(u[..], uo, m, n, u0, v0, p);
    DivideDigits(u, v, q, uo, vo, m, n);
    ghost var r := Val(u[..][uo + m..5]);
    Denormalise(u0, v0, p, Val(q[..][4 - m..5]), r);
    if d > 0 {
      ShiftRight(u, uo + m, 4, d);
    } else {
      assert p == 1 by { NoShift(); }
    }
    if uo + m == 0 {
      SkipZeros(u[..], 0, 1, 5);
    } else {
      SkipZeros(u[..], 1, uo + m, 5);
    }
  }

  lemma NoShift()
    ensures Pow2(0) == 1
  {
  }

  lemma Sizes(u: seq<nat>, v: seq<nat>, uo: nat, vo: nat, m: nat, n: nat)
    requires |u| == |v| == 5 && Digits(u) && uo + m + n == 4 && vo + n == 4 && n >= 2 && v[vo + 1] > 0 && u[uo] == 0
    ensures Val(u[uo..5]) < Pow(m + n) && Val(v[vo + 1..5]) >= Pow(n - 1) > 0
  {
    hide Val, Pow;
    SkipZeros(u, uo, uo + 1, 5);
    ValBound(u[uo + 1..5]);
    Longer(v, vo + 1, 5);
    AtLeast(v[vo + 1], Pow(n - 1));
  }

  /** The four digits of a number, after a spare one. */
  method ToDigits(x: nat) returns (a: array<nat>)
    requires x < QUAD
    ensures fresh(a) && a.Length == 5 && Digits(a[..]) && a[0] == 0 && Val(a[..][1..5]) == x
  {
    var high, low := x / LONG, x % LONG;
    a := new nat[5](_ => 0);
    a[1], a[2], a[3], a[4] := high / BASE, high % BASE, low / BASE, low % BASE;
    FourDigits(a[..]);
    Halves(x);
  }

  lemma Halves(x: nat)
    requires x < QUAD
    ensures var high, low := x / LONG, x % LONG;
            && high / BASE < BASE && low / BASE < BASE
            && ((high / BASE * BASE + high % BASE) * BASE + low / BASE) * BASE + low % BASE == x
  {
  }

  /** Division by a single digit, digit by digit. */
  method ShortDivide(u: array<nat>, t: nat) returns (q: nat, rem: nat)
    requires u.Length == 5 && Digits(u[..]) && 0 < t < BASE
    ensures q == Val(u[..][1..5]) / t && rem == Val(u[..][1..5]) % t
  {
    hide Val;
    var q1, r1 := ShortStep(0, u[1], t);
    var q2, r2 := ShortStep(r1, u[2], t);
    var q3, r3 := ShortStep(r2, u[3], t);
    var q4, r4 := ShortStep(r3, u[4], t);
    q := (q1 * BASE + q2) * LONG + (q3 * BASE + q4);
    rem := r4;
    FourDigits(u[..]);
    NextShort(q1, t, r1, u[1], u[2], q2, r2);
    NextShort(q1 * BASE + q2, t, r2, u[1] * BASE + u[2], u[3], q3, r3);
    NextShort((q1 * BASE + q2) * BASE + q3, t, r3, (u[1] * BASE + u[2]) * BASE + u[3], u[4], q4, r4);
    DivUnique(Val(u[..][1..5]), t, q, rem);
  }

  method ShortStep(r: nat, x: nat, t: nat) returns (q: nat, r': nat)
    requires r < t && x < BASE
    ensures r * BASE + x == q * t + r' && r' < t
  {
    var rbj := r * BASE + x;
    q, r' := rbj / t, rbj % t;
  }

  lemma NextShort(q: nat, t: nat, r: nat, x: nat, y: nat, q': nat, r': nat)
    requires x == q * t + r && r * BASE + y == q' * t + r'
    ensures x * BASE + y == (q * BASE + q') * t + r'
  {
    assert (q * BASE + q') * t == (q * t) * BASE + q' * t;
  }

  method FromDigits(a: array<nat>) returns (x: nat)
    requires a.Length == 5 && Digits(a[..])
    ensures x == Val(a[..][1..5])
  {
    FourDigits(a[..]);
    x := (a[1] * BASE + a[2]) * LONG + (a[3] * BASE + a[4]);
  }

  /** How many leading digits of the dividend are zero; it is no smaller than the divisor. */
  method SkipLeading(u: array<nat>, n: nat) returns (m: nat, uo: nat)
    requires u.Length == 5 && Digits(u[..]) && u[0] == 0 && 2 <= n <= 4 && Val(u[..][1..5]) >= Pow(n - 1)
    ensures uo + m + n == 4 && Val(u[..][uo..5]) == Val(u[..][1..5]) && forall i :: 0 <= i <= uo ==> u[i] == 0
  {
    hide Val, Pow;
    m, uo := 4 - n, 0;
    while u[uo + 1] == 0
      invariant uo + m + n == 4 && Val(u[..][uo + 1..5]) == Val(u[..][1..5]) && forall i :: 0 <= i <= uo ==> u[i] == 0
      decreases m
    {
      SkipZeros(u[..], uo + 1, uo + 2, 5);
      AtMostDigits(u[..], uo + 2, n, m);
      m := m - 1;
      uo := uo + 1;
    }
    SkipZeros(u[..], uo, uo + 1, 5);
  }

  /**
   For every dividend and every non-zero divisor: the exact quotient and the exact remainder.
   */
  method Qdivrem(uq: nat, vq: nat) returns (q: nat, rem: nat)
    requires uq < QUAD && 0 < vq < QUAD
    ensures q == uq / vq && rem == uq % vq
  {
    hide Val, Pow;
    if uq < vq {
      DivUnique(uq, vq, 0, uq);
      return 0, uq;
    }
    var u := ToDigits(uq);
    var v := ToDigits(vq);
    ghost var us := u[..];
    var n, vo := 4, 0;
    while v[vo + 1] == 0
      modifies {}
      invariant n + vo == 4 && n >= 2 && Val(v[..][vo + 1..5]) == vq
      decreases n
    {
      SkipZeros(v[..], vo + 1, vo + 2, 5);
      n := n - 1;
      if n == 1 {
        OneDigit(v[..]);
        assert u[..] == us;
        q, rem := ShortDivide(u, v[vo + 2]);
        return;
      }
      vo := vo + 1;
    }
    AtLeastDigits(v[..], vo, n);
    assert u[..] == us;
    q, rem := DivideLong(u, v, vo, n);
  }

  method DivideLong(u: array<nat>, v: array<nat>, vo: nat, n: nat) returns (q: nat, rem: nat)
    requires u != v && u.Length == 5 && v.Length == 5 && Digits(u[..]) && Digits(v[..]) && vo + n == 4 && n >= 2
    requires u[0] == 0 && v[vo + 1] > 0 && Val(u[..][1..5]) >= Pow(n - 1)
    modifies u, v
    ensures old(Val(v[..][vo + 1..5])) > 0
    ensures q == old(Val(u[..][1..5])) / old(Val(v[..][vo + 1..5]))
            && rem == old(Val(u[..][1..5])) % old(Val(v[..][vo + 1..5]))
  {
    hide Val, Pow;
    var m, uo := SkipLeading(u, n);
    var qs := new nat[5](_ => 0);
    LongDivide(u, v, qs, uo, vo, m, n);
    SkipZeros(qs[..], 1, 4 - m, 5);
    q := FromDigits(qs);
    rem := FromDigits(u);
  }

  lemma OneDigit(v: seq<nat>)
    requires |v| == 5
    ensures Val(v[4..5]) == v[4]
  {
    assert v[4..5] == [v[4]];
    ValOne(v[4]);
  }

  lemma AtLeastDigits(v: seq<nat>, vo: nat, n: nat)
    requires |v| == 5 && vo + n == 4 && n >= 1 && v[vo + 1] > 0
    ensures Val(v[vo + 1..5]) >= Pow(n - 1)
  {
    hide Val, Pow;
    Longer(v, vo + 1, 5);
    AtLeast(v[vo + 1], Pow(n - 1));
  }

  /** A dividend that is not less than the divisor has as many digits. */
  lemma AtMostDigits(u: seq<nat>, i: nat, n: nat, m: nat)
    requires |u| == 5 && n >= 2 && i + m + n == 6 && i <= 5 && Digits(u) && Val(u[i..5]) >= Pow(n - 1)
    ensures m >= 1
  {
    ValBound(u[i..5]);
    if m == 0 {
      assert false;
    }
  }
}
