/**
  The radial part of the Zernike polynomials of `Zernike/zernike.c`: the factorial table, the
  powers of a radius and the loop that sums the radial series, over exact numbers.
*/
module Binomials {

  function Fact(n: nat): (f: nat)
    ensures f > 0
  {
    if n == 0 then 1 else n * Fact(n - 1)
  }

  /** Pascal's triangle. */
  function Binom(n: nat, k: nat): nat {
    if k == 0 then 1 else if n == 0 then 0 else Binom(n - 1, k - 1) + Binom(n - 1, k)
  }

  lemma {:induction false} BinomOver(n: nat, k: nat)
    requires n < k
    ensures Binom(n, k) == 0
  {
    if n > 0 {
      BinomOver(n - 1, k - 1);
      BinomOver(n - 1, k);
    }
  }

  /** The triangle holds the quotients of factorials. */
  lemma {:induction false} BinomFact(n: nat, k: nat)
    requires k <= n
    ensures Binom(n, k) * (Fact(k) * Fact(n - k)) == Fact(n)
  {
    if k == 0 {
    } else if k == n {
      BinomOver(n - 1, n);
      BinomFact(n - 1, n - 1);
      assert Binom(n, n) == Binom(n - 1, n - 1);
      assert Fact(0) == 1 && Fact(n) == n * Fact(n - 1);
      assert Binom(n, n) * (Fact(n) * 1) == n * (Binom(n - 1, n - 1) * (Fact(n - 1) * 1));
    } else {
      BinomFact(n - 1, k - 1);
      BinomFact(n - 1, k);
      var p, q, fk, fr := Binom(n - 1, k - 1), Binom(n - 1, k), Fact(k - 1), Fact(n - k - 1);
      PascalStep(n, k, p, q, fk, fr, Fact(n - 1));
    }
  }

  lemma PascalStep(n: nat, k: nat, p: int, q: int, fk: int, fr: int, f: int)
    requires 0 < k < n
    requires p * (fk * ((n - k) * fr)) == f && q * ((k * fk) * fr) == f
    ensures (p + q) * ((k * fk) * ((n - k) * fr)) == n * f
  {
    assert p * ((k * fk) * ((n - k) * fr)) == k * (p * (fk * ((n - k) * fr)));
    assert q * ((k * fk) * ((n - k) * fr)) == (n - k) * (q * ((k * fk) * fr));
    assert k * f + (n - k) * f == n * f;
  }

  function Sign(k: nat): int { if k % 2 == 0 then 1 else -1 }

  function AltTerm(b: nat, x: nat, j: nat, k: nat): int
    requires k <= b + x
  {
    Sign(k) * (Binom(b, k) * Binom(x + b - k, j))
  }

  /** The alternating sum of C(b, k) C(x + b - k, j) over k < upTo. */
  function AltSum(b: nat, x: nat, j: nat, upTo: nat): int
    requires upTo <= b + 1
  {
    if upTo == 0 then 0 else AltSum(b, x, j, upTo - 1) + AltTerm(b, x, j, upTo - 1)
  }

  /** Pascal's rule on C(b, k). */
  lemma TermSplits(b: nat, x: nat, j: nat, k: nat)
    requires 0 < b && k <= b
    ensures AltTerm(b, x, j, k) ==
            AltTerm(b - 1, x + 1, j, k) - (if k == 0 then 0 else AltTerm(b - 1, x, j, k - 1))
  {
    if k > 0 {
      var c1, c2, v := Binom(b - 1, k - 1), Binom(b - 1, k), Binom(x + b - k, j);
      assert Binom(b, k) == c1 + c2;
      assert Sign(k - 1) == -Sign(k);
      assert Sign(k - 1) * (c1 * v) == -(Sign(k) * (c1 * v));
    }
  }

  lemma {:induction false} AltSumSplits(b: nat, x: nat, j: nat, upTo: nat)
    requires 0 < b && 0 < upTo <= b
    ensures AltSum(b, x, j, upTo) == AltSum(b - 1, x + 1, j, upTo) - AltSum(b - 1, x, j, upTo - 1)
    decreases upTo
  {
    hide AltTerm;
    TermSplits(b, x, j, upTo - 1);
    if upTo > 1 { AltSumSplits(b, x, j, upTo - 1); }
  }

  /** The full alternating sum is the b-th difference of a binomial coefficient. */
  lemma {:induction false} AltSumValue(b: nat, x: nat, j: nat)
    requires b <= j
    ensures AltSum(b, x, j, b + 1) == Binom(x, j - b)
    decreases b
  {
    if b == 0 {
      assert AltTerm(0, x, j, 0) == Binom(x, j);
    } else {
      hide AltTerm;
      AltSumSplits(b, x, j, b);
      AltSumValue(b - 1, x + 1, j);
      AltSumValue(b - 1, x, j);
      TermSplits(b, x, j, b);
      TermVanishes(b - 1, x + 1, j);
      assert Binom(x + 1, j - b + 1) == Binom(x, j - b) + Binom(x, j - b + 1);
    }
  }

  lemma TermVanishes(b: nat, x: nat, j: nat)
    requires 0 < x
    ensures AltTerm(b, x, j, b + 1) == 0
  {
    BinomOver(b, b + 1);
  }
}

module ZernikeRadial {
  import opened Binomials

  function Abs(m: int): nat { if m < 0 then -m else m }

  /** The orders that the program accepts, besides its upper limit on n. */
  predicate Legal(n: int, m: int) { Abs(m) <= n && (n - m) % 2 == 0 }

  function Pow(r: real, k: nat): real { if k == 0 then 1.0 else Pow(r, k - 1) * r }

  /** The coefficient of r^(n - 2k), as an integer; m is the absolute angular order. */
  function RadialCoef(n: nat, m: nat, k: nat): int
    requires Legal(n, m) && k <= (n - m) / 2
  {
    var b := (n - m) / 2;
    Sign(k) * (Binom(b, k) * Binom(n - k, b))
  }

  /** It is the quotient of factorials that the program divides out. */
  lemma CoefIsQuotient(n: nat, m: nat, k: nat)
    requires Legal(n, m) && k <= (n - m) / 2
    ensures RadialCoef(n, m, k) * (Fact(k) * Fact((n + m) / 2 - k) * Fact((n - m) / 2 - k)) == Sign(k) * Fact(n - k)
  {
    var a, b := (n + m) / 2, (n - m) / 2;
    assert n - k - b == a - k;
    BinomFact(b, k);
    BinomFact(n - k, b);
    Cancel(Binom(b, k), Binom(n - k, b), Fact(k), Fact(a - k), Fact(b - k), Fact(b), Fact(n - k));
    ScaleBy(Sign(k), Binom(b, k) * Binom(n - k, b), Fact(k) * Fact(a - k) * Fact(b - k), Fact(n - k));
  }

  lemma Cancel(p: int, q: int, fk: int, fa: int, fb: int, f: int, g: int)
    requires p * (fk * fb) == f && q * (f * fa) == g && f > 0
    ensures (p * q) * (fk * fa * fb) == g
  {
    assert (p * q) * (fk * fa * fb) == q * ((p * (fk * fb)) * fa);
  }

  lemma ScaleBy(s: int, c: int, d: int, g: int)
    requires c * d == g
    ensures (s * c) * d == s * g
  {
    assert (s * c) * d == s * (c * d);
  }

  /** The radial series up to, not including, term k. */
  function RadialUpTo(n: nat, m: nat, r: real, k: nat): real
    requires Legal(n, m) && k <= (n - m) / 2 + 1
  {
    if k == 0 then 0.0
    else RadialUpTo(n, m, r, k - 1) + RadialCoef(n, m, k - 1) as real * Pow(r, n - 2 * (k - 1))
  }

  function RadialPolynomial(n: nat, m: nat, r: real): real
    requires Legal(n, m)
  {
    RadialUpTo(n, m, r, (n - m) / 2 + 1)
  }

  /** Powers as one knows them. */
  lemma {:induction false} PowLaws(r: real, j: nat, k: nat)
    ensures Pow(r, 0) == 1.0 && Pow(r, 1) == r
    ensures Pow(r, j + k) == Pow(r, j) * Pow(r, k)
    decreases k
  {
    assert Pow(r, 1) == Pow(r, 0) * r;
    if k > 0 {
      PowLaws(r, j, k - 1);
      Reassociate(Pow(r, j), Pow(r, k - 1), r);
    }
  }

  lemma Reassociate(a: real, b: real, r: real)
    ensures (a * b) * r == a * (b * r)
  {
  }

  lemma {:induction false} PowOfOne(k: nat)
    ensures Pow(1.0, k) == 1.0
  {
    if k > 0 { PowOfOne(k - 1); }
  }

  lemma {:induction false} UpToAtOne(n: nat, m: nat, k: nat)
    requires Legal(n, m) && k <= (n - m) / 2 + 1
    ensures RadialUpTo(n, m, 1.0, k) == AltSum((n - m) / 2, (n + m) / 2, (n - m) / 2, k) as real
    decreases k
  {
    if k > 0 {
      UpToAtOne(n, m, k - 1);
      PowOfOne(n - 2 * (k - 1));
      assert n == (n + m) / 2 + (n - m) / 2;
      assert RadialCoef(n, m, k - 1) == AltTerm((n - m) / 2, (n + m) / 2, (n - m) / 2, k - 1);
    }
  }

  /** Every radial polynomial is 1 at the rim of the unit circle: its coefficients add up to 1. */
  lemma RimValue(n: nat, m: nat)
    requires Legal(n, m)
    ensures RadialPolynomial(n, m, 1.0) == 1.0
  {
    var a, b := (n + m) / 2, (n - m) / 2;
    UpToAtOne(n, m, b + 1);
    AltSumValue(b, a, b);
    assert Binom(a, 0) == 1;
  }

  /*
   Away from the rim.
   */

  lemma {:induction false} PowNegated(r: real, k: nat)
    ensures Pow(-r, k) == Sign(k) as real * Pow(r, k)
  {
    if k > 0 { PowNegated(r, k - 1); }
  }

  lemma SignShift(n: nat, k: nat)
    requires 2 * k <= n
    ensures Sign(n - 2 * k) == Sign(n)
  {
  }

  lemma SignOut(s: real, a: real, c: real, p: real)
    ensures s * a + c * (s * p) == s * (a + c * p)
  {
  }

  lemma {:induction false} MirroredUpTo(n: nat, m: nat, r: real, k: nat)
    requires Legal(n, m) && k <= (n - m) / 2 + 1
    ensures RadialUpTo(n, m, -r, k) == Sign(n) as real * RadialUpTo(n, m, r, k)
    decreases k
  {
    hide Pow, RadialCoef, Sign;
    if k > 0 {
      MirroredUpTo(n, m, r, k - 1);
      PowNegated(r, n - 2 * (k - 1));
      SignShift(n, k - 1);
      SignOut(Sign(n) as real, RadialUpTo(n, m, r, k - 1), RadialCoef(n, m, k - 1) as real, Pow(r, n - 2 * (k - 1)));
    }
  }

  /** A radial polynomial is even or odd as its order is. */
  lemma MirrorLaw(n: nat, m: nat, r: real)
    requires Legal(n, m)
    ensures RadialPolynomial(n, m, -r) == Sign(n) as real * RadialPolynomial(n, m, r)
  {
    MirroredUpTo(n, m, r, (n - m) / 2 + 1);
  }

  lemma {:induction false} PowOfZero(k: nat)
    ensures Pow(0.0, k) == if k == 0 then 1.0 else 0.0
  {
  }

  lemma {:induction false} ZeroUpTo(n: nat, m: nat, k: nat)
    requires Legal(n, m) && k <= (n - m) / 2 + 1 && (m == 0 ==> k <= n / 2)
    ensures RadialUpTo(n, m, 0.0, k) == 0.0
    decreases k
  {
    hide RadialCoef;
    if k > 0 {
      ZeroUpTo(n, m, k - 1);
      PowOfZero(n - 2 * (k - 1));
    }
  }

  lemma {:induction false} BinomEnds(n: nat)
    ensures Binom(n, n) == 1 && Binom(n, 0) == 1 && Binom(n, 1) == n
  {
    if n > 0 {
      BinomEnds(n - 1);
      BinomOver(n - 1, n);
    }
  }

  /** In the centre it is 0, except without angular order: then 1 or -1. */
  lemma CentreValue(n: nat, m: nat)
    requires Legal(n, m)
    ensures RadialPolynomial(n, m, 0.0) == if m > 0 then 0.0 else Sign(n / 2) as real
  {
    hide Binom;
    if m > 0 {
      ZeroUpTo(n, m, (n - m) / 2 + 1);
    } else {
      ZeroUpTo(n, 0, n / 2);
      PowOfZero(0);
      BinomEnds(n / 2);
      assert RadialCoef(n, 0, n / 2) == Sign(n / 2);
    }
  }

  /** The two polynomials of greatest angular order. */
  lemma OuterPolynomials(n: nat, r: real)
    ensures Legal(n, n) && RadialPolynomial(n, n, r) == Pow(r, n)
    ensures n >= 2 ==>
      && Legal(n, n - 2)
      && RadialPolynomial(n, n - 2, r) == n as real * Pow(r, n) - (n - 1) as real * Pow(r, n - 2)
  {
    hide Binom, Pow;
    BinomEnds(0);
    BinomEnds(1);
    BinomEnds(n);
    assert RadialCoef(n, n, 0) == 1;
    NoTerms(n, n, r);
    NextTerm(n, n, r, 0);
    PolynomialIs(n, n, r);
    if n >= 2 {
      BinomEnds(n - 1);
      assert RadialCoef(n, n - 2, 0) == n && RadialCoef(n, n - 2, 1) == -(n - 1);
      NoTerms(n, n - 2, r);
      NextTerm(n, n - 2, r, 0);
      NextTerm(n, n - 2, r, 1);
      PolynomialIs(n, n - 2, r);
    }
  }

  /** The table of the factorials of 0 to 99. */
  method BuildFactorial() returns (fk: array<real>)
    ensures fk.Length == 100 && fresh(fk)
    ensures forall i :: 0 <= i < 100 ==> fk[i] == Fact(i) as real
  {
    hide Fact;
    fk := new real[100];
    var f := 1.0;
    fk[0] := 1.0;
    FactZero();
    for i := 1 to 100
      invariant f == Fact(i - 1) as real
      invariant forall j :: 0 <= j < i ==> fk[j] == Fact(j) as real
    {
      FactStep(i);
      f := f * i as real;
      fk[i] := f;
    }
  }

  lemma FactZero()
    ensures Fact(0) == 1
  {
  }

  lemma FactStep(i: nat)
    requires i > 0
    ensures Fact(i) as real == Fact(i - 1) as real * i as real
  {
  }

  /** The powers 0 to n of one radius, each the previous one times the radius. */
  method BuildPowers(r: real, n: nat) returns (rpow: array<real>)
    ensures rpow.Length == n + 1 && fresh(rpow)
    ensures forall i :: 0 <= i <= n ==> rpow[i] == Pow(r, i)
  {
    rpow := new real[n + 1];
    rpow[0] := 1.0;
    for i := 1 to n + 1
      invariant forall j :: 0 <= j < i ==> rpow[j] == Pow(r, j)
    {
      rpow[i] := rpow[i - 1] * r;
    }
  }

  /** The four places of the factorial table that term k reads are in the table. */
  predicate InTable(n: nat, m: nat, k: nat)
    requires Legal(n, m) && k <= (n - m) / 2
  {
    n - k < 100 && k < 100 && (n + m) / 2 - k < 100 && (n - m) / 2 - k < 100
  }

  /** All terms find their factorials just when the order is below 100. */
  lemma TableSuffices(n: nat, m: nat)
    requires Legal(n, m) && n <= 100
    ensures (forall k: nat :: k <= (n - m) / 2 ==> InTable(n, m, k)) <==> n < 100
  {
    if n == 100 { assert !InTable(n, m, 0); }
  }

  /** Order 100 passes the check of the orders, and its first term reads behind the table. */
  lemma OrderHundredOverruns()
    ensures Legal(100, 0) && !InTable(100, 0, 0)
  {
  }

  /** An error exit, a value, or a read behind the table. */
  datatype Radial = Rejected | Overrun | Value(z: real)

  /** The un-normalised radial value at radius r for orders n and m. */
  method RadialValue(n: int, m: int, r: real) returns (v: Radial)
    ensures v == Rejected <==> !(n <= 100 && Legal(n, m))
    ensures v == Overrun <==> n == 100 && Legal(n, m)
    ensures v.Value? ==> v.z == RadialPolynomial(n, Abs(m), r)
    ensures v.Value? && r == 1.0 ==> v.z == 1.0
  {
    hide Fact, Binom, RadialPolynomial, Pow, RadialUpTo;
    if n > 100 || n < 0 || n < Abs(m) || (n - m) % 2 != 0 { return Rejected; }
    var fk := BuildFactorial();
    var rpow := BuildPowers(r, n);
    var mAbs := Abs(m);
    var iup := (n - mAbs) / 2;
    var z := 0.0;
    NoTerms(n, mAbs, r);
    for k := 0 to iup + 1
      invariant n < 100 || k == 0
      invariant z == RadialUpTo(n, mAbs, r, k)
      invariant forall i :: 0 <= i < 100 ==> fk[i] == Fact(i) as real
      invariant forall i :: 0 <= i <= n ==> rpow[i] == Pow(r, i)
    {
      if n - k >= fk.Length { return Overrun; }
      var t := Term(k, n, mAbs, fk[n - k], fk[k], fk[(n + mAbs) / 2 - k], fk[(n - mAbs) / 2 - k]);
      NextTerm(n, mAbs, r, k);
      z := z + t * rpow[n - 2 * k];
    }
    RimValue(n, mAbs);
    PolynomialIs(n, mAbs, r);
    v := Value(z);
  }

  lemma NoTerms(n: nat, m: nat, r: real)
    requires Legal(n, m)
    ensures RadialUpTo(n, m, r, 0) == 0.0
  {
  }

  lemma NextTerm(n: nat, m: nat, r: real, k: nat)
    requires Legal(n, m) && k <= (n - m) / 2
    ensures RadialUpTo(n, m, r, k + 1) == RadialUpTo(n, m, r, k) + RadialCoef(n, m, k) as real * Pow(r, n - 2 * k)
  {
  }

  lemma PolynomialIs(n: nat, m: nat, r: real)
    requires Legal(n, m)
    ensures RadialPolynomial(n, m, r) == RadialUpTo(n, m, r, (n - m) / 2 + 1)
  {
  }

  /** The factor of one term: (-1)^k (n-k)! over k! ((n+m)/2-k)! ((n-m)/2-k)!. */
  method Term(k: nat, ghost n: nat, ghost m: nat, num: real, d1: real, d2: real, d3: real) returns (t: real)
    requires Legal(n, m) && k <= (n - m) / 2
    requires num == Fact(n - k) as real && d1 == Fact(k) as real
    requires d2 == Fact((n + m) / 2 - k) as real && d3 == Fact((n - m) / 2 - k) as real
    ensures t == RadialCoef(n, m, k) as real
  {
    hide Fact, RadialCoef;
    var sign := 1.0 - 2.0 * (k % 2) as real;
    assert sign == Sign(k) as real;
    t := sign * num / (d1 * d2 * d3);
    CoefIsQuotient(n, m, k);
    QuotientIs(RadialCoef(n, m, k), Sign(k), Fact(n - k), Fact(k), Fact((n + m) / 2 - k), Fact((n - m) / 2 - k), t);
  }

  /** A division of reals that comes out even is the division of integers. */
  lemma QuotientIs(c: int, s: int, g: nat, p: nat, q: nat, w: nat, t: real)
    requires 0 < p && 0 < q && 0 < w && c * (p * q * w) == s * g
    requires t == s as real * g as real / (p as real * q as real * w as real)
    ensures t == c as real
  {
    var d := p as real * q as real * w as real;
    assert (p * q * w) as real == d && (s * g) as real == s as real * g as real;
    assert (c * (p * q * w)) as real == c as real * d;
    assert c as real * d / d == c as real;
  }
}
