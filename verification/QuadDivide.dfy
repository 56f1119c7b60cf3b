/** Division of 64-bit numbers by way of half-word digits (algorithm D of section 4.3.1 of Knuth, volume 2). */
module QuadDivide {
  import opened Prelude
  import opened QuadDigits

  // ----- D3: estimating a quotient digit

  /** The leading two digits of the divisor into the leading three of the dividend. */
  function Leading(u0: nat, u1: nat, u2: nat, v1: nat, v2: nat): nat
    requires v1 > 0
  {
    ((u0 * BASE + u1) * BASE + u2) / (v1 * BASE + v2)
  }

  lemma Quotient(x: nat, y: nat, q: nat)
    requires y > 0 && q * y <= x < (q + 1) * y
    ensures x / y == q
  {
    var r := x - q * y;
    assert 0 <= r < y && x == q * y + r;
    DivUnique(x, y, q, r);
  }

  lemma DivUnique(x: nat, y: nat, q: nat, r: nat)
    requires y > 0 && x == q * y + r && r < y
    ensures x / y == q && x % y == r
  {
    var q', r' := x / y, x % y;
    assert x == q' * y + r' && 0 <= r' < y;
    if q' < q {
      Step(q' + 1, q, y);
    } else if q' > q {
      Step(q + 1, q', y);
    }
  }

  lemma Step(a: nat, b: nat, y: nat)
    requires a <= b
    ensures a * y <= b * y
  {
    assert (b - a) * y >= 0;
  }

  /** One step of the test: the estimate is too large for the leading digits exactly if the test says so. */
  lemma TestMeans(qhat: nat, rhat: nat, u0: nat, u1: nat, u2: nat, v1: nat, v2: nat)
    requires qhat * v1 + rhat == u0 * BASE + u1
    ensures v2 * qhat > rhat * BASE + u2 <==> qhat * (v1 * BASE + v2) > (u0 * BASE + u1) * BASE + u2
  {
    assert qhat * (v1 * BASE + v2) == (qhat * v1) * BASE + v2 * qhat;
  }

  lemma FirstEstimate(qhat: nat, rhat: nat, u0: nat, u1: nat, u2: nat, v1: nat, v2: nat)
    requires qhat * v1 + rhat == u0 * BASE + u1 && rhat < v1 && u2 < BASE
    ensures (qhat + 1) * (v1 * BASE + v2) > (u0 * BASE + u1) * BASE + u2
  {
    assert (qhat + 1) * (v1 * BASE + v2) == (qhat * v1 + v1) * BASE + (qhat + 1) * v2;
    assert qhat * v1 + v1 >= u0 * BASE + u1 + 1;
  }

  lemma TooLarge(qhat: nat, rhat: nat, u2: nat, v2: nat)
    requires qhat <= BASE - 1 && v2 < BASE && rhat >= BASE
    ensures v2 * qhat <= rhat * BASE + u2
  {
    Step(v2, BASE, qhat);
  }

  lemma Below(u0: nat, u1: nat, v1: nat)
    requires u0 < v1 && u1 < BASE
    ensures (u0 * BASE + u1) / v1 <= BASE - 1
  {
    var x := u0 * BASE + u1;
    assert x < v1 * BASE by { Step(u0 + 1, v1, BASE); }
    Cancel(x / v1, BASE, v1);
  }

  /**
   The estimate is the quotient of the leading digits, capped to a digit.
   */
  method Estimate(u0: nat, u1: nat, u2: nat, v1: nat, v2: nat) returns (qhat: nat)
    requires u0 <= v1 < BASE && u1 < BASE && u2 < BASE && v2 < BASE && v1 > 0
    ensures qhat == Min(BASE - 1, Leading(u0, u1, u2, v1, v2))
  {
    var rhat;
    if u0 == v1 {
      qhat, rhat := BASE - 1, u1 + v1;
    } else {
      qhat, rhat := (u0 * BASE + u1) / v1, (u0 * BASE + u1) % v1;
      Below(u0, u1, v1);
      FirstEstimate(qhat, rhat, u0, u1, u2, v1, v2);
    }
    hide Estimating;
    while rhat < BASE && v2 * qhat > rhat * BASE + u2
      invariant Estimating(qhat, rhat, u0, u1, u2, v1, v2)
      decreases BASE - rhat
    {
      EstimateStep(qhat, rhat, u0, u1, u2, v1, v2);
      qhat := qhat - 1;
      rhat := rhat + v1;
    }
    EstimateDone(qhat, rhat, u0, u1, u2, v1, v2);
  }

  /** `rhat` is what is left of the first two digits, and the estimate is at least the quotient of all three. */
  ghost predicate Estimating(qhat: nat, rhat: nat, u0: nat, u1: nat, u2: nat, v1: nat, v2: nat) {
    && qhat <= BASE - 1 && qhat * v1 + rhat == u0 * BASE + u1
    && (qhat == BASE - 1 || (qhat + 1) * (v1 * BASE + v2) > (u0 * BASE + u1) * BASE + u2)
  }

  lemma EstimateStep(qhat: nat, rhat: nat, u0: nat, u1: nat, u2: nat, v1: nat, v2: nat)
    requires Estimating(qhat, rhat, u0, u1, u2, v1, v2) && v2 * qhat > rhat * BASE + u2
    ensures qhat > 0 && Estimating(qhat - 1, rhat + v1, u0, u1, u2, v1, v2)
  {
    TestMeans(qhat, rhat, u0, u1, u2, v1, v2);
    if qhat == 0 {
      assert false;
    }
    Distribute(qhat, v1);
  }

  lemma EstimateDone(qhat: nat, rhat: nat, u0: nat, u1: nat, u2: nat, v1: nat, v2: nat)
    requires Estimating(qhat, rhat, u0, u1, u2, v1, v2) && v1 > 0 && v2 < BASE
    requires rhat >= BASE || v2 * qhat <= rhat * BASE + u2
    ensures qhat == Min(BASE - 1, Leading(u0, u1, u2, v1, v2))
  {
    if rhat >= BASE {
      TooLarge(qhat, rhat, u2, v2);
    }
    TestMeans(qhat, rhat, u0, u1, u2, v1, v2);
    Capped(qhat, (u0 * BASE + u1) * BASE + u2, v1 * BASE + v2);
  }

  lemma Distribute(q: nat, v: nat)
    requires q > 0
    ensures (q - 1) * v + v == q * v
  {
  }

  lemma Capped(qhat: nat, x: nat, y: nat)
    requires y > 0 && qhat <= BASE - 1 && qhat * y <= x && (qhat == BASE - 1 || (qhat + 1) * y > x)
    ensures qhat == Min(BASE - 1, x / y)
  {
    if (qhat + 1) * y > x {
      Quotient(x, y, qhat);
    } else {
      var q, r := x / y, x % y;
      assert x == q * y + r && r < y;
      if q < qhat {
        Step(q + 1, qhat, y);
      }
    }
  }

  /**
   The estimate is the true quotient digit or one more than it: `u` and `v` are the full numbers, `w` the weight of the
   digits that the estimate left out.
   */
  lemma EstimateClose(x: nat, y: nat, w: nat, u: nat, v: nat, qhat: nat)
    requires y >= BASE && w > 0 && x * w <= u < (x + 1) * w && y * w <= v < (y + 1) * w && u < v * BASE
    requires qhat == Min(BASE - 1, x / y)
    ensures u / v <= qhat <= u / v + 1
  {
    var q := u / v;
    UpperHalf(x, y, w, u, v, qhat);
    LowerHalf(x, y, w, u, v, qhat);
  }

  lemma LowerHalf(x: nat, y: nat, w: nat, u: nat, v: nat, qhat: nat)
    requires y >= BASE && w > 0 && u < (x + 1) * w && y * w <= v && u < v * BASE
    requires qhat == Min(BASE - 1, x / y)
    ensures u / v <= qhat
  {
    var q := u / v;
    QuotientTimes(u, v);
    Cancel(q, BASE, v);
    // q * y * w <= q * v <= u < (x + 1) * w
    Step(y * w, v, q);
    Regroup(q, y, w);
    Cancel(q * y, x + 1, w);
    AtMostQuotient(q, x, y);
  }

  lemma QuotientTimes(u: nat, v: nat)
    requires v > 0
    ensures 0 <= u / v && u / v * v <= u
  {
  }

  lemma AtMostQuotient(q: nat, x: nat, y: nat)
    requires y > 0 && q * y <= x
    ensures q <= x / y
  {
    var q', r := x / y, x % y;
    assert x == q' * y + r && r < y;
    Cancel(q, q' + 1, y);
  }

  lemma Cancel(a: nat, b: nat, w: nat)
    requires a * w < b * w
    ensures a < b
  {
    if a >= b {
      Step(b, a, w);
    }
  }

  lemma UpperHalf(x: nat, y: nat, w: nat, u: nat, v: nat, qhat: nat)
    requires y >= BASE && w > 0 && x * w <= u && v < (y + 1) * w && y * w <= v
    requires qhat == Min(BASE - 1, x / y)
    ensures qhat <= u / v + 1
  {
    Step(qhat, x / y, y);
    Multiple(qhat, x, y, w, u, v);
    if qhat > 0 {
      Distribute(qhat, v);
      AtMostQuotient(qhat - 1, u, v);
    }
  }

  /** qhat * v <= qhat * y * w + qhat * w <= u + BASE * w <= u + v */
  lemma Multiple(qhat: nat, x: nat, y: nat, w: nat, u: nat, v: nat)
    requires qhat < BASE <= y && qhat * y <= x && x * w <= u && y * w <= v < (y + 1) * w
    ensures qhat * v <= u + v
  {
    var a := qhat * y;
    assert a * w <= u by { Step(a, x, w); }
    assert qhat * w <= v by { Step(qhat, y, w); }
    assert qhat * v <= qhat * ((y + 1) * w) by { Step(v, (y + 1) * w, qhat); }
    assert qhat * ((y + 1) * w) == a * w + qhat * w by { TimesNext(qhat, y, w); }
  }

  lemma TimesNext(q: nat, y: nat, w: nat)
    ensures q * ((y + 1) * w) == (q * y) * w + q * w
  {
    assert (y + 1) * w == y * w + w;
    assert q * (y * w + w) == q * (y * w) + q * w;
  }

  // ----- D4: multiply and subtract

  /** One digit, with the machine's 32-bit wrap-around: what is left over is the exact borrow. */
  lemma BorrowStep(x: nat, y: nat, q: nat, t: nat)
    requires x < BASE && y < BASE && q < BASE && t < BASE
    ensures var z := (x - y * q - t) % LONG;
            var t' := (BASE - z / BASE) % BASE;
            t' < BASE && x - y * q - t == z % BASE - t' * BASE
  {
    var p := y * q;
    assert p <= (BASE - 1) * (BASE - 1) by {
      Step(y, BASE - 1, q);
      Step(q, BASE - 1, BASE - 1);
    }
    Wrapped(x - p - t);
  }

  lemma Wrapped(x: int)
    requires -(BASE - 1) * BASE <= x < BASE
    ensures var z := x % LONG;
            var t' := (BASE - z / BASE) % BASE;
            x == z % BASE - t' * BASE
  {
    if x < 0 {
      var z := x + LONG;
      var h, w := z / BASE, z % BASE;
      assert z == h * BASE + w && 1 <= h < BASE;
    }
  }

  lemma SubDigit(p: nat, x: nat, y: nat, q: nat, t: nat, w: nat, t': nat, a: nat, a': nat, v: nat)
    requires x - y * q - t == w - t' * BASE && a' + q * v == a + t * p
    ensures (w * p + a') + q * (y * p + v) == (x * p + a) + t' * (p * BASE)
  {
    var yq := y * q;
    assert q * (y * p + v) == yq * p + q * v by { Regroup(q, y, p); }
    assert t' * (p * BASE) == (t' * BASE) * p;
    assert (x - yq - t) * p == (w - t' * BASE) * p;
  }

  /** Val of a range of digits, one longer at the front. */
  lemma Longer(s: seq<nat>, i: nat, j: nat)
    requires i < j <= |s|
    ensures Val(s[i..j]) == s[i] * Pow(j - i - 1) + Val(s[i + 1..j])
  {
    assert s[i..j] == [s[i]] + s[i + 1..j];
    ValCons(s[i], s[i + 1..j]);
  }

  predicate SameOutside(s: seq<nat>, s': seq<nat>, lo: nat, hi: nat) {
    |s| == |s'| && (forall i :: 0 <= i < |s| && (i < lo || hi <= i) ==> s[i] == s'[i])
  }

  /** Subtract `qhat` times the divisor from the digits from `k` on; a borrow means that it was too much. */
  method MultiplySubtract(u: array<nat>, v: array<nat>, k: nat, vo: nat, n: nat, qhat: nat) returns (borrow: bool)
    requires u != v && k + n < u.Length && vo + n < v.Length && Digits(u[..]) && Digits(v[..]) && qhat < BASE
    modifies u
    ensures Digits(u[..]) && SameOutside(u[..], old(u[..]), k, k + n + 1)
    ensures Val(u[..][k..k + n + 1])
            == old(Val(u[..][k..k + n + 1])) - qhat * Val(v[..][vo + 1..vo + n + 1]) + if borrow then Pow(n + 1) else 0
  {
    hide Val, Pow, Subtracted;
    ghost var u0, v0 := u[..], v[..];
    var t, i := 0, n;
    NoneSubtracted(u0, v0, k + n + 1, vo + n + 1, qhat);
    while i > 0
      invariant 0 <= i <= n && 0 <= t < BASE && v[..] == v0 && Digits(u[..])
      invariant SameOutside(u[..], u0, k + i + 1, k + n + 1)
      invariant Subtracted(u[..], u0, v0, k + i + 1, k + n + 1, vo + i + 1, vo + n + 1, qhat, t)
    {
      ghost var u1, t0 := u[..], t;
      var w;
      w, t := SubtractOne(u[k + i], v[vo + i], qhat, t);
      u[k + i] := w;
      SubRange(u0, u1, v0, k + i, k + n + 1, vo + i, vo + n + 1, qhat, t0, w, t);
      assert u[..] == u1[k + i := w];
      i := i - 1;
    }
    borrow := u[k] < t;
    TopDigit(u0, u[..], v0, k, n, vo, qhat, t);
    u[k] := (u[k] - t) % LONG % BASE;
  }

  /** The digits from `i` to `m` are those of `u0` less `q` times those of `v` from `j` to `l`, with `t` borrowed. */
  ghost predicate Subtracted(u: seq<nat>, u0: seq<nat>, v: seq<nat>, i: nat, m: nat, j: nat, l: nat, q: nat, t: nat) {
    && i <= m <= |u| == |u0| && j <= l <= |v|
    && Val(u[i..m]) + q * Val(v[j..l]) == Val(u0[i..m]) + t * Pow(m - i)
  }

  /** One digit, in 32-bit arithmetic: the new digit and the new borrow. */
  method SubtractOne(x: nat, y: nat, q: nat, t: nat) returns (w: nat, t': nat)
    requires x < BASE && y < BASE && q < BASE && t < BASE
    ensures w < BASE && t' < BASE && x - y * q - t == w - t' * BASE
  {
    BorrowStep(x, y, q, t);
    var z := (x - y * q - t) % LONG;
    w, t' := z % BASE, (BASE - z / BASE) % BASE;
  }

  lemma NoDigits(s: seq<nat>, i: nat)
    requires i <= |s|
    ensures Val(s[i..i]) == 0 && Pow(0) == 1
  {
    assert s[i..i] == [];
  }

  lemma NoneSubtracted(u: seq<nat>, v: seq<nat>, i: nat, j: nat, q: nat)
    requires i <= |u| && j <= |v|
    ensures Subtracted(u, u, v, i, i, j, j, q, 0)
  {
    NoDigits(u, i);
    NoDigits(v, j);
  }

  lemma SubRange(u0: seq<nat>, u1: seq<nat>, v0: seq<nat>, i: nat, m: nat, j: nat, l: nat, q: nat, t: nat, w: nat,
                 t': nat)
    requires i < m <= |u0| == |u1| && j < l <= |v0| && m - i == l - j && u1[i] == u0[i]
    requires u0[i] - v0[j] * q - t == w - t' * BASE
    requires Subtracted(u1, u0, v0, i + 1, m, j + 1, l, q, t)
    ensures Subtracted(u1[i := w], u0, v0, i, m, j, l, q, t')
  {
    Longer(u0, i, m);
    Longer(v0, j, l);
    Longer(u1[i := w], i, m);
    assert u1[i := w][i + 1..m] == u1[i + 1..m];
    assert Pow(m - i) == Pow(m - i - 1) * BASE;
    SubDigit(Pow(m - i - 1), u0[i], v0[j], q, t, w, t', Val(u0[i + 1..m]), Val(u1[i + 1..m]), Val(v0[j + 1..l]));
  }

  lemma TopDigit(u0: seq<nat>, u1: seq<nat>, v0: seq<nat>, k: nat, n: nat, vo: nat, q: nat, t: nat)
    requires k + n < |u0| == |u1| && vo + n < |v0| && u1[k] == u0[k] < BASE && t < BASE
    requires Subtracted(u1, u0, v0, k + 1, k + n + 1, vo + 1, vo + n + 1, q, t)
    ensures var w := (u1[k] - t) % LONG % BASE;
            && w < BASE
            && Val(u1[k := w][k..k + n + 1])
               == Val(u0[k..k + n + 1]) - q * Val(v0[vo + 1..vo + n + 1]) + if u1[k] < t then Pow(n + 1) else 0
  {
    hide Val, Pow;
    var x := u1[k];
    var w := (x - t) % LONG % BASE;
    TopWrapped(x, t);
    TopChanged(u0, u1, k, n, w);
    PowStep(n);
    TopProduct(x, t, w, Pow(n));
    TopBalance(x * Pow(n), t * Pow(n), w * Pow(n), if x < t then Pow(n + 1) else 0,
           Val(u1[k + 1..k + n + 1]), q * Val(v0[vo + 1..vo + n + 1]), Val(u0[k + 1..k + n + 1]));
  }

  lemma TopBalance(xp: int, tp: int, wp: int, out: int, left: int, taken: int, all: int)
    requires left + taken == all + tp && wp == xp - tp + out
    ensures wp + left == xp + all - taken + out
  {
  }

  lemma TopWrapped(x: nat, t: nat)
    requires x < BASE && t < BASE
    ensures (x - t) % LONG % BASE == if x < t then x - t + BASE else x - t
  {
    if x < t {
      assert (x - t) % LONG == x - t + LONG;
      assert (x - t + LONG) % BASE == x - t + BASE;
    }
  }

  lemma TopChanged(u0: seq<nat>, u1: seq<nat>, k: nat, n: nat, w: nat)
    requires k + n < |u0| == |u1|
    ensures Val(u0[k..k + n + 1]) == u0[k] * Pow(n) + Val(u0[k + 1..k + n + 1])
    ensures Val(u1[k := w][k..k + n + 1]) == w * Pow(n) + Val(u1[k + 1..k + n + 1])
  {
    hide Val, Pow;
    Longer(u0, k, k + n + 1);
    Longer(u1[k := w], k, k + n + 1);
    assert u1[k := w][k + 1..k + n + 1] == u1[k + 1..k + n + 1];
  }

  lemma TopProduct(x: nat, t: nat, w: nat, p: nat)
    requires w == if x < t then x - t + BASE else x - t
    ensures w * p == x * p - t * p + if x < t then p * BASE else 0
  {
  }

  // ----- D6: add back

  method AddBack(u: array<nat>, v: array<nat>, k: nat, vo: nat, n: nat)
    requires u != v && k + n < u.Length && vo + n < v.Length && Digits(u[..]) && Digits(v[..])
    modifies u
    ensures Digits(u[..]) && SameOutside(u[..], old(u[..]), k, k + n + 1)
    ensures var sum := old(Val(u[..][k..k + n + 1])) + Val(v[..][vo + 1..vo + n + 1]);
            Val(u[..][k..k + n + 1]) == if sum < Pow(n + 1) then sum else sum - Pow(n + 1)
  {
    hide Val, Pow;
    ghost var u0, v0 := u[..], v[..];
    var t, i := 0, n;
    NoDigits(u0, k + n + 1);
    NoDigits(v0, vo + n + 1);
    while i > 0
      invariant 0 <= i <= n && 0 <= t <= 1 && v[..] == v0 && Digits(u[..])
      invariant SameOutside(u[..], u0, k + i + 1, k + n + 1)
      invariant Val(u[..][k + i + 1..k + n + 1]) + t * Pow(n - i)
                == Val(u0[k + i + 1..k + n + 1]) + Val(v0[vo + i + 1..vo + n + 1])
    {
      ghost var u1, t0 := u[..], t;
      t := t + u[k + i] + v[vo + i];
      u[k + i] := t % BASE;
      t := t / BASE;
      AddRange(u0, u1, v0, k + i, k + n + 1, vo + i, vo + n + 1, t0, u[k + i], t);
      assert u[..] == u1[k + i := u[k + i]];
      i := i - 1;
    }
    TopSum(u0, u[..], v0, k, n, vo, t);
    u[k] := (u[k] + t) % BASE;
  }

  lemma AddRange(u0: seq<nat>, u1: seq<nat>, v0: seq<nat>, i: nat, m: nat, j: nat, l: nat, t: nat, w: nat, t': nat)
    requires i < m <= |u0| == |u1| && j < l <= |v0| && m - i == l - j && u1[i] == u0[i]
    requires t + u0[i] + v0[j] == w + t' * BASE
    requires Val(u1[i + 1..m]) + t * Pow(m - i - 1) == Val(u0[i + 1..m]) + Val(v0[j + 1..l])
    ensures Val(u1[i := w][i..m]) + t' * Pow(m - i) == Val(u0[i..m]) + Val(v0[j..l])
  {
    Longer(u0, i, m);
    Longer(v0, j, l);
    Longer(u1[i := w], i, m);
    assert u1[i := w][i + 1..m] == u1[i + 1..m];
    assert Pow(m - i) == Pow(m - i - 1) * BASE;
    AddDigit(Pow(m - i - 1), u0[i], v0[j], t, w, t');
  }

  lemma AddDigit(p: nat, x: nat, y: nat, t: nat, w: nat, t': nat)
    requires t + x + y == w + t' * BASE
    ensures t * p + x * p + y * p == w * p + t' * (p * BASE)
  {
    assert (t + x + y) * p == (w + t' * BASE) * p;
  }

  lemma TopSum(u0: seq<nat>, u1: seq<nat>, v0: seq<nat>, k: nat, n: nat, vo: nat, t: nat)
    requires k + n < |u0| == |u1| && vo + n < |v0| && u1[k] == u0[k] && t <= 1 && Digits(u0) && Digits(u1) && Digits(v0)
    requires Val(u1[k + 1..k + n + 1]) + t * Pow(n) == Val(u0[k + 1..k + n + 1]) + Val(v0[vo + 1..vo + n + 1])
    ensures var sum := Val(u0[k..k + n + 1]) + Val(v0[vo + 1..vo + n + 1]);
            Val(u1[k := (u1[k] + t) % BASE][k..k + n + 1]) == if sum < Pow(n + 1) then sum else sum - Pow(n + 1)
  {
    hide Val, Pow;
    var w := (u1[k] + t) % BASE;
    var carry := (u1[k] + t) / BASE;
    var r := u1[k := w];
    Longer(u0, k, k + n + 1);
    Longer(r, k, k + n + 1);
    assert r[k + 1..k + n + 1] == u1[k + 1..k + n + 1];
    ValBound(r[k..k + n + 1]);
    PowStep(n);
    AddDigit(Pow(n), u1[k], 0, t, w, carry);
    CarryOut(Val(u0[k..k + n + 1]) + Val(v0[vo + 1..vo + n + 1]), Val(r[k..k + n + 1]), carry, Pow(n + 1));
  }

  lemma CarryOut(sum: nat, r: nat, carry: nat, p: nat)
    requires sum == r + carry * p && r < p && carry <= 1
    ensures r == if sum < p then sum else sum - p
  {
    if carry == 1 {
      assert carry * p == p;
    }
  }

  // ----- D3 to D6: one digit of the quotient

  lemma LeadTwo(s: seq<nat>, i: nat, j: nat)
    requires i + 2 <= j <= |s| && Digits(s)
    ensures var y, w := s[i] * BASE + s[i + 1], Pow(j - i - 2); y * w <= Val(s[i..j]) < (y + 1) * w
  {
    hide Val, Pow;
    ValSplit(s, i, i + 2, j);
    TwoDigits(s, i);
    ValBound(s[i + 2..j]);
    OneMore(s[i] * BASE + s[i + 1], Pow(j - i - 2));
  }

  lemma TwoDigits(s: seq<nat>, i: nat)
    requires i + 2 <= |s|
    ensures Val(s[i..i + 2]) == s[i] * BASE + s[i + 1]
  {
    assert s[i..i] == [] && Val(s[i..i]) == 0;
    hide Val;
    ValSnoc(s, i, i);
    ValSnoc(s, i, i + 1);
  }

  lemma LeadThree(s: seq<nat>, i: nat, j: nat)
    requires i + 3 <= j <= |s| && Digits(s)
    ensures var x, w := (s[i] * BASE + s[i + 1]) * BASE + s[i + 2], Pow(j - i - 3); x * w <= Val(s[i..j]) < (x + 1) * w
  {
    hide Val, Pow;
    ValSplit(s, i, i + 3, j);
    ThreeDigits(s, i);
    ValBound(s[i + 3..j]);
    OneMore((s[i] * BASE + s[i + 1]) * BASE + s[i + 2], Pow(j - i - 3));
  }

  lemma OneMore(x: nat, w: nat)
    ensures (x + 1) * w == x * w + w
  {
  }

  lemma ThreeDigits(s: seq<nat>, i: nat)
    requires i + 3 <= |s|
    ensures Val(s[i..i + 3]) == (s[i] * BASE + s[i + 1]) * BASE + s[i + 2]
  {
    hide Val;
    TwoDigits(s, i);
    ValSnoc(s, i, i + 2);
  }

  /** The leading digit of the dividend does not exceed that of the divisor. */
  lemma LeadDigit(s: seq<nat>, i: nat, v: seq<nat>, j: nat, n: nat)
    requires n >= 1 && i + n < |s| && j + n <= |v| && Digits(v) && Val(s[i..i + n + 1]) < Val(v[j..j + n]) * BASE
    ensures s[i] <= v[j]
  {
    hide Val, Pow;
    Longer(s, i, i + n + 1);
    Longer(v, j, j + n);
    ValBound(v[j + 1..j + n]);
    PowStep(n - 1);
    var p := Pow(n - 1);
    LeadCompare(s[i], v[j], p, Val(v[j..j + n]));
  }

  lemma LeadCompare(x: nat, y: nat, p: nat, v: nat)
    requires x * (p * BASE) < v * BASE && v < y * p + p
    ensures x <= y
  {
    assert x * (p * BASE) == (x * p) * BASE;
    assert (y + 1) * p == y * p + p;
    Cancel(x, y + 1, p);
  }

  /** The estimate from the leading digits is the quotient digit or one more. */
  method TrialDigit(u: array<nat>, v: array<nat>, k: nat, vo: nat, n: nat) returns (qhat: nat)
    requires n >= 2 && k + n < u.Length && vo + n < v.Length && Digits(u[..]) && Digits(v[..]) && v[vo + 1] > 0
    requires Val(u[..][k..k + n + 1]) < Val(v[..][vo + 1..vo + n + 1]) * BASE
    ensures var a, d := Val(u[..][k..k + n + 1]), Val(v[..][vo + 1..vo + n + 1]);
            d > 0 && a / d <= qhat <= a / d + 1 && qhat < BASE && a < Pow(n + 1) && d < Pow(n + 1)
  {
    hide Val, Pow, Leading;
    LeadDigit(u[..], k, v[..], vo + 1, n);
    qhat := Estimate(u[k], u[k + 1], u[k + 2], v[vo + 1], v[vo + 2]);
    DigitClose(u[..], v[..], k, vo, n, qhat, Val(u[..][k..k + n + 1]), Val(v[..][vo + 1..vo + n + 1]));
  }

  /** Divide the digits from `k` on by the divisor: quotient digit out, remainder in place. */
  method DivideDigit(u: array<nat>, v: array<nat>, k: nat, vo: nat, n: nat) returns (qhat: nat)
    requires u != v && n >= 2 && k + n < u.Length && vo + n < v.Length && Digits(u[..]) && Digits(v[..])
             && v[vo + 1] > 0
    requires Val(u[..][k..k + n + 1]) < Val(v[..][vo + 1..vo + n + 1]) * BASE
    modifies u
    ensures Digits(u[..]) && SameOutside(u[..], old(u[..]), k, k + n + 1)
    ensures Val(v[..][vo + 1..vo + n + 1]) > 0 && qhat < BASE
    ensures qhat == old(Val(u[..][k..k + n + 1])) / Val(v[..][vo + 1..vo + n + 1])
    ensures Val(u[..][k..k + n + 1]) == old(Val(u[..][k..k + n + 1])) % Val(v[..][vo + 1..vo + n + 1])
  {
    hide Val, Pow, Leading;
    ghost var u0, v0 := u[..], v[..];
    ghost var a, d := Val(u0[k..k + n + 1]), Val(v0[vo + 1..vo + n + 1]);
    qhat := TrialDigit(u, v, k, vo, n);
    var borrow := MultiplySubtract(u, v, k, vo, n, qhat);
    ValBound(u[..][k..k + n + 1]);
    BorrowMeans(a, d, qhat, borrow, Pow(n + 1), Val(u[..][k..k + n + 1]));
    if borrow {
      qhat := qhat - 1;
      AddBack(u, v, k, vo, n);
    }
  }

  lemma DigitClose(u0: seq<nat>, v0: seq<nat>, k: nat, vo: nat, n: nat, qhat: nat, a: nat, d: nat)
    requires n >= 2 && k + n < |u0| && vo + n < |v0| && Digits(u0) && Digits(v0) && v0[vo + 1] > 0
    requires a == Val(u0[k..k + n + 1]) && d == Val(v0[vo + 1..vo + n + 1]) && a < d * BASE
    requires qhat == Min(BASE - 1, Leading(u0[k], u0[k + 1], u0[k + 2], v0[vo + 1], v0[vo + 2]))
    ensures d > 0 && a / d <= qhat <= a / d + 1 && a < Pow(n + 1) && d < Pow(n + 1)
  {
    hide Val, Pow;
    LeadThree(u0, k, k + n + 1);
    LeadTwo(v0, vo + 1, vo + n + 1);
    var x, y := (u0[k] * BASE + u0[k + 1]) * BASE + u0[k + 2], v0[vo + 1] * BASE + v0[vo + 2];
    assert y * Pow(n - 2) > 0 by { AtLeast(y, Pow(n - 2)); }
    EstimateClose(x, y, Pow(n - 2), a, d, qhat);
    ValBound(u0[k..k + n + 1]);
    ValBound(v0[vo + 1..vo + n + 1]);
    PowStep(n);
  }

  /**
   There is a borrow exactly if the estimate was one too large, and adding the divisor back then leaves the remainder.
   */
  lemma BorrowMeans(a: nat, d: nat, qhat: nat, borrow: bool, p: nat, left: nat)
    requires d > 0 && a / d <= qhat <= a / d + 1 && a < p && d < p && left < p
    requires left == a - qhat * d + if borrow then p else 0
    ensures borrow <==> qhat == a / d + 1
    ensures if borrow then left + d - p == a % d else left == a % d
  {
    var q, r := a / d, a % d;
    assert a == q * d + r && r < d;
    assert (q + 1) * d == q * d + d;
  }
}
