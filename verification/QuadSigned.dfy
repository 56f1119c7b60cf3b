/** Signed division on top of the unsigned one. */
module QuadSigned {
  import opened QuadDigits
  import opened QuadDivRem
  import opened QuadMultiply

  predicate IsQuad(a: int) { -(QUAD / 2) <= a < QUAD / 2 }

  /** The magnitudes divided, with the sign the code chooses: it depends on both operands, for the remainder too. */
  function SignedQuotient(a: int, b: int): int
    requires IsQuad(a) && IsQuad(b) && b != 0
  {
    WithSign((a < 0) != (b < 0), Magnitude(a) / Magnitude(b))
  }

  function SignedRemainder(a: int, b: int): int
    requires IsQuad(a) && IsQuad(b) && b != 0
  {
    WithSign((a < 0) != (b < 0), Magnitude(a) % Magnitude(b))
  }

  method Divdi3(a: int, b: int) returns (q: int)
    requires IsQuad(a) && IsQuad(b) && b != 0
    ensures q == WrappedQuotient(a, b)
  {
    var uq, ur := Qdivrem(Magnitude(a), Magnitude(b));
    q := Signed(WithSign((a < 0) != (b < 0), uq) % QUAD);
  }

  method Moddi3(a: int, b: int) returns (r: int)
    requires IsQuad(a) && IsQuad(b) && b != 0
    ensures r == SignedRemainder(a, b)
  {
    hide Signed, WithSign, Magnitude;
    MagnitudeRange(a);
    MagnitudeRange(b);
    var uq, ur := Qdivrem(Magnitude(a), Magnitude(b));
    SmallRemainder(Magnitude(a), Magnitude(b));
    SignedFits(ur, (a < 0) != (b < 0));
    r := Signed(WithSign((a < 0) != (b < 0), ur) % QUAD);
  }

  lemma MagnitudeRange(b: int)
    requires IsQuad(b)
    ensures 0 <= Magnitude(b) <= QUAD / 2 && (b != 0 ==> Magnitude(b) > 0)
  {
  }

  lemma SmallRemainder(x: nat, y: nat)
    requires 0 < y <= QUAD / 2
    ensures 0 <= x % y < QUAD / 2
  {
  }

  /**
   What the code returns as the quotient: the only one that does not fit 64 bits is that of the most negative number and
   -1.
   */
  function WrappedQuotient(a: int, b: int): int
    requires IsQuad(a) && IsQuad(b) && b != 0
  {
    Signed(SignedQuotient(a, b) % QUAD)
  }

  lemma QuotientFits(a: int, b: int)
    requires IsQuad(a) && IsQuad(b) && b != 0
    ensures WrappedQuotient(a, b) == SignedQuotient(a, b) <==> !(a == -(QUAD / 2) && b == -1)
    ensures a == -(QUAD / 2) && b == -1 ==> WrappedQuotient(a, b) == a && SignedRemainder(a, b) == 0
  {
    var x, y := Magnitude(a), Magnitude(b);
    QuotientBound(x, y);
    var q := x / y;
    assert q == QUAD / 2 ==> x == QUAD / 2 && y == 1;
    SignedFits(q, (a < 0) != (b < 0));
  }

  lemma SignedFits(q: nat, neg: bool)
    requires q <= QUAD / 2
    ensures Signed(WithSign(neg, q) % QUAD) == if q == QUAD / 2 then -(QUAD / 2) else WithSign(neg, q)
  {
  }

  lemma QuotientBound(x: nat, y: nat)
    requires y > 0
    ensures 0 <= x / y <= x && (x > 0 && y > 1 ==> x / y < x) && (y == 1 ==> x / y == x && x % y == 0)
  {
    DivisionParts(x, y);
    var q := x / y;
    if y > 1 && q > 0 {
      TimesMore(y, q);
    }
  }

  lemma TimesMore(y: nat, q: nat)
    requires y > 1 && q > 0
    ensures Times(y, q) >= 2 * q
  {
    assert (y - 2) * q >= 0;
  }

  /**
   Quotient and remainder belong together exactly if the divisor is positive or divides the dividend, and the quotient
   fits 64 bits: for a negative divisor the remainder comes out with the wrong sign, and the most negative number
   divided by -1 wraps around.
   */
  lemma SignedDivision(a: int, b: int)
    requires IsQuad(a) && IsQuad(b) && b != 0
    ensures a == Times(b, WrappedQuotient(a, b)) + SignedRemainder(a, b)
            <==> (b > 0 || Magnitude(a) % Magnitude(b) == 0) && !(a == -(QUAD / 2) && b == -1)
  {
    var x, y := Magnitude(a), Magnitude(b);
    QuotientFits(a, b);
    if a == -(QUAD / 2) && b == -1 {
      assert Times(b, a) == -a;
    } else {
      hide Times;
      DivisionParts(x, y);
      SignsMatter(a, b, x, y, x / y, x % y);
    }
  }

  /** The same of what the two routines return. */
  method Divide(a: int, b: int) returns (q: int, r: int)
    requires IsQuad(a) && IsQuad(b) && b != 0
    ensures a == Times(b, q) + r <==> (b > 0 || Magnitude(a) % Magnitude(b) == 0) && !(a == -(QUAD / 2) && b == -1)
  {
    q := Divdi3(a, b);
    r := Moddi3(a, b);
    SignedDivision(a, b);
  }

  lemma DivisionParts(x: nat, y: nat)
    requires y > 0
    ensures x == Times(y, x / y) + x % y && x % y >= 0 && x / y >= 0
  {
  }

  lemma SignsMatter(a: int, b: int, x: nat, y: nat, q: nat, r: nat)
    requires a == WithSign(a < 0, x) && b == WithSign(b < 0, y) && x == Times(y, q) + r
    ensures var neg := (a < 0) != (b < 0);
            a == Times(b, WithSign(neg, q)) + WithSign(neg, r) <==> b >= 0 || r == 0
  {
    hide Times;
    Signs(b, WithSign((a < 0) != (b < 0), q), y, q, b < 0, (a < 0) != (b < 0));
  }

  /** For instance 7 divided by -2: quotient -3, remainder -1. */
  method WrongSign() returns (q: int, r: int)
    ensures q == -3 && r == -1 && 7 != Times(-2, q) + r
  {
    q := Divdi3(7, -2);
    r := Moddi3(7, -2);
  }

  /** The most negative number divided by -1: quotient that number itself, remainder zero. */
  method WrappedAround() returns (q: int, r: int)
    ensures q == -(QUAD / 2) && r == 0 && -(QUAD / 2) != Times(-1, q) + r
  {
    q := Divdi3(-(QUAD / 2), -1);
    r := Moddi3(-(QUAD / 2), -1);
    QuotientFits(-(QUAD / 2), -1);
  }
}
