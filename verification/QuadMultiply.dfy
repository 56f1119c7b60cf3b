/**
 Multiplication of 64-bit numbers out of 16-bit products, with explicit carries (section 4.3.3 of Knuth, volume 2).
 */
module QuadMultiply {
  import opened QuadDigits

  // ----- pairs of words

  /** Two words as one number. */
  function Pair(high: nat, low: nat): nat { high * LONG + low }

  lemma Multiple(x: int, y: int, k: int)
    requires x == y + k * QUAD
    ensures x % QUAD == y % QUAD
  {
  }

  /** Adding word by word: the low word wrapped around exactly if it came out smaller. */
  lemma AddPair(ph: nat, pl: nat, h: nat, l: nat)
    requires ph < LONG && pl < LONG && h < LONG && l < LONG
    ensures var pl' := (pl + l) % LONG;
            var ph' := (ph + h + if pl' < pl then 1 else 0) % LONG;
            Pair(ph', pl') == (Pair(ph, pl) + Pair(h, l)) % QUAD
  {
    var pl' := (pl + l) % LONG;
    var c := if pl' < pl then 1 else 0;
    assert pl + l == pl' + c * LONG;
    Carried(ph + h + c, pl', Pair(ph, pl) + Pair(h, l));
  }

  /** Two words, of which the upper one may be out of range, modulo 2^64. */
  lemma Carried(s: int, low: nat, total: int)
    requires total == s * LONG + low && low < LONG
    ensures Pair(s % LONG, low) == total % QUAD
  {
    var k := s / LONG;
    assert s == s % LONG + k * LONG;
    Multiple(total, Pair(s % LONG, low), k);
  }

  /** Subtracting word by word: the low word wrapped around exactly if it came out larger. */
  lemma SubPair(ph: nat, pl: nat, h: nat, l: nat)
    requires ph < LONG && pl < LONG && h < LONG && l < LONG
    ensures var pl' := (pl - l) % LONG;
            var ph' := (ph - (h + if pl' > pl then 1 else 0)) % LONG;
            Pair(ph', pl') == (Pair(ph, pl) - Pair(h, l)) % QUAD
  {
    var pl' := (pl - l) % LONG;
    var c := if pl' > pl then 1 else 0;
    assert pl - l == pl' - c * LONG;
    Carried(ph - (h + c), pl', Pair(ph, pl) - Pair(h, l));
  }

  /** A word shifted left by half a word, as two words. */
  lemma ShiftedUp(x: nat)
    requires x < LONG
    ensures x / BASE < BASE && x % BASE * BASE < LONG && Pair(x / BASE, x % BASE * BASE) == x * BASE
  {
  }

  lemma ModAdd(x: int, y: int)
    ensures (x % QUAD + y) % QUAD == (x + y) % QUAD
  {
    var k := x / QUAD;
    assert x == x % QUAD + k * QUAD;
    Multiple(x + y, x % QUAD + y, k);
  }

  // ----- 32 by 32 bits

  function WithSign(neg: bool, d: int): int { if neg then -d else d }

  /** The difference of the halves, as an amount and a sign. */
  method Difference(x: nat, y: nat) returns (d: nat, neg: bool)
    ensures x - y == WithSign(neg, d)
    ensures d <= x || d <= y
  {
    if x >= y {
      d, neg := x - y, false;
    } else {
      d, neg := y - x, true;
    }
  }

  /** A product, kept apart from the linear arithmetic around it. */
  function Times(x: int, y: int): int { x * y }

  /** uv = high (B^2 + B) + mid B + low (B + 1) */
  lemma Karatsuba(b: nat, u1: nat, u0: nat, v1: nat, v0: nat)
    ensures Times(u1 * b + u0, v1 * b + v0)
            == Times(u1, v1) * (b * b) + Times(u1, v1) * b + Times(u1 - u0, v0 - v1) * b + Times(u0, v0) * b
            + Times(u0, v0)
  {
    Cross(u1, u0, v1, v0);
    var hh, ll, x := u1 * v1, u0 * v0, u1 * v0 + u0 * v1;
    assert (u1 * b + u0) * (v1 * b + v0) == (u1 * b) * (v1 * b) + (u1 * b) * v0 + u0 * (v1 * b) + ll;
    assert (u1 * b) * (v1 * b) == hh * (b * b) by { Squares(u1, v1, b); }
    assert (u1 * b) * v0 + u0 * (v1 * b) == x * b by { Crossed(u1, u0, v1, v0, b); }
    assert x * b == hh * b + (u1 - u0) * (v0 - v1) * b + ll * b by { ThreeTerms(hh, (u1 - u0) * (v0 - v1), ll, b); }
  }

  lemma Cross(u1: nat, u0: nat, v1: nat, v0: nat)
    ensures u1 * v0 + u0 * v1 == u1 * v1 + (u1 - u0) * (v0 - v1) + u0 * v0
  {
    var d := u1 - u0;
    assert d * (v0 - v1) == d * v0 - d * v1;
    assert d * v0 == u1 * v0 - u0 * v0;
    assert d * v1 == u1 * v1 - u0 * v1;
  }

  lemma Squares(x: nat, y: nat, b: nat)
    ensures (x * b) * (y * b) == (x * y) * (b * b)
  {
    Regroup(x * b, y, b);
    Regroup(x, b, y);
    assert b * y == y * b;
    Regroup(x, y, b);
    Regroup(x * y, b, b);
  }

  lemma Crossed(u1: nat, u0: nat, v1: nat, v0: nat, b: nat)
    ensures (u1 * b) * v0 + u0 * (v1 * b) == (u1 * v0 + u0 * v1) * b
  {
    Regroup(u1, b, v0);
    assert b * v0 == v0 * b;
    Regroup(u1, v0, b);
    Regroup(u0, v1, b);
    assert (u1 * v0 + u0 * v1) * b == (u1 * v0) * b + (u0 * v1) * b;
  }

  lemma ThreeTerms(x: int, y: int, z: int, b: nat)
    ensures (x + y + z) * b == x * b + y * b + z * b
  {
  }

  lemma Product(x: nat, y: nat, m: nat)
    requires x <= m && y <= m
    ensures 0 <= Times(x, y) <= m * m
  {
    Grows(x, m, y);
    Grows(y, m, m);
  }

  lemma {:induction false} Grows(x: nat, m: nat, y: nat)
    requires x <= m
    ensures 0 <= x * y <= m * y
  {
    if y > 0 {
      Grows(x, m, y - 1);
      assert x * y == x * (y - 1) + x && m * y == m * (y - 1) + m;
    }
  }

  /** The exact product of two words. */
  method Lmulq(u: nat, v: nat) returns (r: nat)
    requires u < LONG && v < LONG
    ensures r == Times(u, v)
  {
    hide Times;
    var u1, u0 := u / BASE, u % BASE;
    var v1, v0 := v / BASE, v % BASE;
    var udiff, vdiff, neg, neg2;
    udiff, neg := Difference(u1, u0);
    vdiff, neg2 := Difference(v0, v1);
    WordProduct(u, v, u1, u0, v1, v0, udiff, vdiff, neg, neg2);
    var low := Times(u0, v0);
    if u1 == 0 && v1 == 0 {
      return low;
    }
    r := Assemble(Times(u1, v1), Times(udiff, vdiff), neg != neg2, low, Times(u, v));
  }

  lemma WordProduct(u: nat, v: nat, u1: nat, u0: nat, v1: nat, v0: nat, udiff: nat, vdiff: nat, negu: bool, negv: bool)
    requires u == u1 * BASE + u0 && v == v1 * BASE + v0 && u1 < BASE && u0 < BASE && v1 < BASE && v0 < BASE
    requires u1 - u0 == WithSign(negu, udiff) && v0 - v1 == WithSign(negv, vdiff)
    ensures var high, mid, low := Times(u1, v1), Times(udiff, vdiff), Times(u0, v0);
            && 0 <= high < LONG && 0 <= mid < LONG && 0 <= low < LONG && 0 <= Times(u, v) < QUAD
            && Times(u, v) == high * LONG + high * BASE + WithSign(negu != negv, mid) * BASE + low * BASE + low
  {
    hide Times;
    Karatsuba(BASE, u1, u0, v1, v0);
    Signs(u1 - u0, v0 - v1, udiff, vdiff, negu, negv);
    Product(u0, v0, BASE - 1);
    Product(u1, v1, BASE - 1);
    Product(udiff, vdiff, BASE - 1);
    Product(u, v, LONG - 1);
  }

  lemma Signs(x: int, y: int, dx: nat, dy: nat, negx: bool, negy: bool)
    requires x == WithSign(negx, dx) && y == WithSign(negy, dy)
    ensures Times(x, y) == WithSign(negx != negy, Times(dx, dy))
  {
  }

  method AddShifted(ph: nat, pl: nat, x: nat, ghost sum: int) returns (ph': nat, pl': nat)
    requires ph < LONG && pl < LONG && x < LONG && Pair(ph, pl) == sum % QUAD
    ensures ph' < LONG && pl' < LONG && Pair(ph', pl') == (sum + x * BASE) % QUAD
  {
    hide Pair;
    ShiftedUp(x);
    AddPair(ph, pl, x / BASE, x % BASE * BASE);
    ModAdd(sum, x * BASE);
    pl' := (pl + x % BASE * BASE) % LONG;
    ph' := (ph + x / BASE + if pl' < pl then 1 else 0) % LONG;
  }

  method SubShifted(ph: nat, pl: nat, x: nat, ghost sum: int) returns (ph': nat, pl': nat)
    requires ph < LONG && pl < LONG && x < LONG && Pair(ph, pl) == sum % QUAD
    ensures ph' < LONG && pl' < LONG && Pair(ph', pl') == (sum - x * BASE) % QUAD
  {
    hide Pair;
    ShiftedUp(x);
    SubPair(ph, pl, x / BASE, x % BASE * BASE);
    ModAdd(sum, -(x * BASE as int));
    pl' := (pl - x % BASE * BASE) % LONG;
    ph' := (ph - (x / BASE + if pl' > pl then 1 else 0)) % LONG;
  }

  /** Add the three products up in two words; the result is exact since it fits. */
  method Assemble(high: nat, mid: nat, neg: bool, low: nat, ghost total: nat) returns (r: nat)
    requires high < LONG && mid < LONG && low < LONG && total < QUAD
    requires total == high * LONG + high * BASE + WithSign(neg, mid) * BASE + low * BASE + low
    ensures r == total
  {
    hide Pair, WithSign;
    StartPair(high);
    var prodh, prodl := (high + high / BASE) % LONG, high % BASE * BASE;
    ghost var sum: int := high * LONG + high * BASE;
    prodh, prodl := AddSigned(prodh, prodl, neg, mid, sum);
    sum := sum + WithSign(neg, mid) * BASE;
    prodh, prodl := AddShifted(prodh, prodl, low, sum);
    sum := sum + low * BASE;
    r := AddLast(prodh, prodl, low, sum);
  }

  method AddSigned(ph: nat, pl: nat, neg: bool, x: nat, ghost sum: int) returns (ph': nat, pl': nat)
    requires ph < LONG && pl < LONG && x < LONG && Pair(ph, pl) == sum % QUAD
    ensures ph' < LONG && pl' < LONG && Pair(ph', pl') == (sum + WithSign(neg, x) * BASE) % QUAD
  {
    if neg {
      ph', pl' := SubShifted(ph, pl, x, sum);
    } else {
      ph', pl' := AddShifted(ph, pl, x, sum);
    }
  }

  method AddLast(ph: nat, pl: nat, low: nat, ghost sum: int) returns (r: nat)
    requires ph < LONG && pl < LONG && low < LONG && Pair(ph, pl) == sum % QUAD
    ensures r == (sum + low) % QUAD
  {
    hide Pair;
    AddLow(ph, pl, low);
    ModAdd(sum, low);
    var prodh, prodl := ph, (pl + low) % LONG;
    if prodl < low {
      prodh := (prodh + 1) % LONG;
    }
    r := ToNumber(prodh, prodl);
  }

  method ToNumber(h: nat, l: nat) returns (r: nat)
    ensures r == Pair(h, l)
  {
    r := h * LONG + l;
  }

  lemma StartPair(high: nat)
    requires high < LONG
    ensures Pair((high + high / BASE) % LONG, high % BASE * BASE) == (high * LONG + high * BASE) % QUAD
    ensures high % BASE * BASE < LONG
  {
    ShiftedUp(high);
    Carried(high + high / BASE, high % BASE * BASE, high * LONG + high * BASE);
  }

  lemma AddLow(ph: nat, pl: nat, low: nat)
    requires ph < LONG && pl < LONG && low < LONG
    ensures var pl' := (pl + low) % LONG;
            Pair((if pl' < low then (ph + 1) % LONG else ph), pl') == (Pair(ph, pl) + low) % QUAD
  {
    AddPair(ph, pl, 0, low);
    var pl' := (pl + low) % LONG;
    assert pl' < low <==> pl' < pl;
  }

  // ----- 64 by 64 bits

  /** A bit pattern as a signed number. */
  function Signed(x: nat): int
    requires x < QUAD
  {
    if x < QUAD / 2 then x else x - QUAD
  }

  /** The 64-bit pattern of the magnitude; the most negative number is its own negation. */
  function Magnitude(a: int): nat
    requires -(QUAD / 2) <= a < QUAD / 2
  {
    if a >= 0 then a else -a
  }

  /** The product of the magnitudes, modulo 2^64. */
  method MulWords(u: nat, v: nat) returns (r: nat)
    requires u < QUAD && v < QUAD
    ensures r == Times(u, v) % QUAD
  {
    hide Pair, Times;
    var u1, u0 := u / LONG, u % LONG;
    var v1, v0 := v / LONG, v % LONG;
    var low := Lmulq(u0, v0);
    var udiff, vdiff, neg, neg2;
    udiff, neg := Difference(u1, u0);
    vdiff, neg2 := Difference(v0, v1);
    var mid := Times(udiff, vdiff) % LONG;
    var high := Times(u1, v1) % LONG;
    QuadProduct(u, v, u1, u0, v1, v0, udiff, vdiff, neg, neg2);
    var h := (high + WithSign(neg != neg2, mid) + low % LONG + low / LONG) % LONG;
    r := ToNumber(h, low % LONG);
  }

  lemma QuadProduct(u: nat, v: nat, u1: nat, u0: nat, v1: nat, v0: nat, udiff: nat, vdiff: nat, negu: bool, negv: bool)
    requires u == u1 * LONG + u0 && v == v1 * LONG + v0
    requires u1 - u0 == WithSign(negu, udiff) && v0 - v1 == WithSign(negv, vdiff)
    ensures var high, mid, low := Times(u1, v1), Times(udiff, vdiff), Times(u0, v0);
            var h := (high % LONG + WithSign(negu != negv, mid % LONG) + low % LONG + low / LONG) % LONG;
            Pair(h, low % LONG) == Times(u, v) % QUAD
  {
    hide Pair, Times;
    Karatsuba(LONG, u1, u0, v1, v0);
    Signs(u1 - u0, v0 - v1, udiff, vdiff, negu, negv);
    NonNegativeProduct(u1, v1);
    NonNegativeProduct(udiff, vdiff);
    NonNegativeProduct(u0, v0);
    TopWord(Times(u1, v1), Times(udiff, vdiff), negu != negv, Times(u0, v0), Times(u, v));
  }

  lemma NonNegativeProduct(x: nat, y: nat)
    ensures Times(x, y) >= 0
  {
  }

  /** Only the products modulo a word matter to the upper word. */
  lemma TopWord(high: nat, mid: nat, neg: bool, low: nat, total: int)
    requires total == high * (LONG * LONG) + high * LONG + WithSign(neg, mid) * LONG + low * LONG + low
    ensures var h := (high % LONG + WithSign(neg, mid % LONG) + low % LONG + low / LONG) % LONG;
            Pair(h, low % LONG) == total % QUAD
  {
    var m, d := mid % LONG, mid / LONG;
    var hm, hd := high % LONG, high / LONG;
    var l, lh := low % LONG, low / LONG;
    var s := hm + WithSign(neg, m) + l + lh;
    var h, k := s % LONG, s / LONG;
    assert s == h + k * LONG && mid == d * LONG + m && high == hd * LONG + hm && low == lh * LONG + l;
    Multiple(total, Pair(h, l), high + hd + WithSign(neg, d) + lh + k);
  }

  /** The signed product modulo 2^64, for all numbers including the most negative one. */
  method Muldi3(a: int, b: int) returns (r: int)
    requires -(QUAD / 2) <= a < QUAD / 2 && -(QUAD / 2) <= b < QUAD / 2
    ensures r == Signed(Times(a, b) % QUAD)
  {
    hide Times;
    var u, negall := Magnitude(a), a < 0;
    var v := Magnitude(b);
    negall := negall != (b < 0);
    var prod;
    if u / LONG == 0 && v / LONG == 0 {
      prod := Lmulq(u, v);
      Product(u, v, LONG - 1);
      assert prod == Times(u, v) % QUAD;
    } else {
      prod := MulWords(u, v);
    }
    Signs(a, b, u, v, a < 0, b < 0);
    var p := WithSign(negall, prod) % QUAD;
    Negated(Times(u, v), prod);
    r := Signed(p);
  }

  lemma Negated(x: int, prod: int)
    requires prod == x % QUAD
    ensures forall neg :: WithSign(neg, prod) % QUAD == WithSign(neg, x) % QUAD
  {
    var k := x / QUAD;
    assert x == prod + k * QUAD;
    Multiple(WithSign(true, x), WithSign(true, prod), WithSign(true, k));
  }
}
