/**
  Greedy decomposition of an image over a basis and its recomposition: `Zdecompose` and
  `Zcompose` of `Zernike/zernike.c`, over exact real numbers and an arbitrary basis.
*/
module Vectors {

  /** The product, as a name that proofs can leave folded. */
  function Times(x: real, y: real): real { x * y }

  function Dot(a: seq<real>, b: seq<real>): real
    requires |a| == |b|
  {
    if a == [] then 0.0 else Dot(a[..|a| - 1], b[..|a| - 1]) + Times(a[|a| - 1], b[|a| - 1])
  }

  function Energy(a: seq<real>): real { Dot(a, a) }

  /** a + k b */
  function AddScaled(a: seq<real>, k: real, b: seq<real>): (r: seq<real>)
    requires |a| == |b|
    ensures |r| == |a|
  {
    if a == [] then [] else AddScaled(a[..|a| - 1], k, b[..|a| - 1]) + [a[|a| - 1] + Times(k, b[|a| - 1])]
  }

  lemma {:induction false} AddScaledAt(a: seq<real>, k: real, b: seq<real>, i: nat)
    requires |a| == |b| && i < |a|
    ensures AddScaled(a, k, b)[i] == a[i] + k * b[i]
  {
    if i < |a| - 1 { AddScaledAt(a[..|a| - 1], k, b[..|a| - 1], i); }
  }

  function Zeros(n: nat): (r: seq<real>)
    ensures |r| == n && forall i :: 0 <= i < n ==> r[i] == 0.0
  {
    seq(n, _ => 0.0)
  }

  lemma {:induction false} DotSymmetric(a: seq<real>, b: seq<real>)
    requires |a| == |b|
    ensures Dot(a, b) == Dot(b, a)
  {
    if a != [] { DotSymmetric(a[..|a| - 1], b[..|a| - 1]); }
  }

  lemma {:induction false} DotLinear(a: seq<real>, k: real, b: seq<real>, c: seq<real>)
    requires |a| == |b| == |c|
    ensures Dot(AddScaled(a, k, b), c) == Dot(a, c) + Times(k, Dot(b, c))
  {
    hide Times;
    if a == [] {
      TimesZero(k);
    } else {
      var n := |a| - 1;
      DotLinear(a[..n], k, b[..n], c[..n]);
      TimesLinear(a[n], k, b[n], c[n], Dot(b[..n], c[..n]));
    }
  }

  lemma TimesZero(k: real)
    ensures Times(k, 0.0) == 0.0
  {
  }

  lemma TimesLinear(x: real, k: real, y: real, z: real, d: real)
    ensures Times(x + Times(k, y), z) + Times(k, d) == Times(x, z) + Times(k, d + Times(y, z))
  {
    assert (x + k * y) * z == x * z + k * (y * z);
    assert k * (d + y * z) == k * d + k * (y * z);
  }

  lemma {:induction false} DotZeros(a: seq<real>)
    ensures Dot(Zeros(|a|), a) == 0.0
  {
    if a != [] {
      DotZeros(a[..|a| - 1]);
      assert Zeros(|a|)[..|a| - 1] == Zeros(|a| - 1);
    }
  }

  lemma {:induction false} EnergyNonNegative(a: seq<real>)
    ensures Energy(a) >= 0.0
  {
    if a != [] {
      EnergyNonNegative(a[..|a| - 1]);
    }
  }

  /** |a + k b|^2 = |a|^2 + 2 k a.b + k^2 |b|^2 */
  lemma EnergyOfSum(a: seq<real>, k: real, b: seq<real>)
    requires |a| == |b|
    ensures Energy(AddScaled(a, k, b)) == Energy(a) + 2.0 * k * Dot(a, b) + k * k * Energy(b)
  {
    hide Dot, AddScaled, Times;
    var s := AddScaled(a, k, b);
    DotLinear(a, k, b, s);
    DotSymmetric(a, s);
    DotSymmetric(b, s);
    DotLinear(a, k, b, a);
    DotLinear(a, k, b, b);
    DotSymmetric(a, b);
    var e, d, f := Energy(a), Dot(a, b), Energy(b);
    assert Dot(a, s) == e + Times(k, d);
    assert Dot(b, s) == d + Times(k, f);
    assert Energy(s) == (e + Times(k, d)) + Times(k, d + Times(k, f));
    Quadratic(e, k, d, f);
  }

  /** Moving k b from one summand to the other does not change the sum. */
  lemma {:induction false} Transfer(a: seq<real>, c: seq<real>, k: real, b: seq<real>)
    requires |a| == |b| == |c|
    ensures AddScaled(AddScaled(a, k, b), 1.0, AddScaled(c, -k, b)) == AddScaled(a, 1.0, c)
  {
    hide Times;
    if a != [] {
      var n := |a| - 1;
      Transfer(a[..n], c[..n], k, b[..n]);
      Opposite(a[n], c[n], k, b[n]);
    }
  }

  lemma Opposite(x: real, y: real, k: real, z: real)
    ensures (x + Times(k, z)) + Times(1.0, y + Times(-k, z)) == x + Times(1.0, y)
  {
  }

  lemma {:induction false} AddToZeros(a: seq<real>)
    ensures AddScaled(Zeros(|a|), 1.0, a) == a
  {
    if a != [] {
      AddToZeros(a[..|a| - 1]);
      assert Zeros(|a|)[..|a| - 1] == Zeros(|a| - 1);
    }
  }

  lemma Quadratic(e: real, k: real, d: real, f: real)
    ensures (e + Times(k, d)) + Times(k, d + Times(k, f)) == e + 2.0 * k * d + k * k * f
  {
  }
}

module ZernikeFit {
  import opened Vectors

  function AbsR(x: real): real { if x < 0.0 then -x else x }

  /** All basis images have the size of the picture and a positive norm. */
  ghost predicate IsBasis(basis: seq<seq<real>>, size: nat) {
    forall i :: 0 <= i < |basis| ==> |basis[i]| == size && Energy(basis[i]) > 0.0
  }

  /** Values below the precision are dropped. */
  function Kept(k: real, prec: real): real { if AbsR(k) < prec then 0.0 else k }

  ghost function Coefficient(r: seq<real>, z: seq<real>, prec: real): real
    requires |r| == |z| && Energy(z) > 0.0
  {
    Kept(Dot(z, r) / Energy(z), prec)
  }

  /** What is left of the image after the first i basis images have been taken out. */
  ghost function Residual(image: seq<real>, basis: seq<seq<real>>, prec: real, i: nat): (r: seq<real>)
    requires IsBasis(basis, |image|) && i <= |basis|
    ensures |r| == |image|
  {
    if i == 0 then image
    else
      var r := Residual(image, basis, prec, i - 1);
      AddScaled(r, -Coefficient(r, basis[i - 1], prec), basis[i - 1])
  }

  /** The i-th coefficient, taken from what the earlier ones left. */
  ghost function CoefficientAt(image: seq<real>, basis: seq<seq<real>>, prec: real, i: nat): real
    requires IsBasis(basis, |image|) && i < |basis|
  {
    Coefficient(Residual(image, basis, prec, i), basis[i], prec)
  }

  /** The sum of the first i basis images with their coefficients, small ones skipped. */
  ghost function Composed(coefs: seq<real>, basis: seq<seq<real>>, prec: real, size: nat, i: nat): (r: seq<real>)
    requires IsBasis(basis, size) && |coefs| == |basis| && i <= |basis|
    ensures |r| == size
  {
    if i == 0 then Zeros(size)
    else AddScaled(Composed(coefs, basis, prec, size, i - 1), Kept(coefs[i - 1], prec), basis[i - 1])
  }

  ghost predicate AreCoefficients(coefs: seq<real>, image: seq<real>, basis: seq<seq<real>>, prec: real)
    requires IsBasis(basis, |image|)
  {
    |coefs| == |basis| && forall i :: 0 <= i < |basis| ==> coefs[i] == CoefficientAt(image, basis, prec, i)
  }

  /** Composing the coefficients of an image gives the image less the residual, pixel by pixel. */
  lemma {:induction false} ComposedPlusResidual(coefs: seq<real>, image: seq<real>, basis: seq<seq<real>>, prec: real, i: nat)
    requires IsBasis(basis, |image|) && AreCoefficients(coefs, image, basis, prec) && i <= |basis|
    ensures AddScaled(Composed(coefs, basis, prec, |image|, i), 1.0, Residual(image, basis, prec, i)) == image
    decreases i
  {
    hide AddScaled, Dot, Zeros, Times;
    if i == 0 {
      AddToZeros(image);
    } else {
      ComposedPlusResidual(coefs, image, basis, prec, i - 1);
      var c, r, z := Composed(coefs, basis, prec, |image|, i - 1), Residual(image, basis, prec, i - 1), basis[i - 1];
      var k := CoefficientAt(image, basis, prec, i - 1);
      assert coefs[i - 1] == k;
      Transfer(c, r, k, z);
    }
  }

  /*
   Which coefficients survive, as inequalities.
   */

  /** k is zero if the projection of r on z is smaller than prec on both sides, and else all of it. */
  ghost predicate KeptFrom(r: seq<real>, z: seq<real>, k: real, prec: real)
    requires |r| == |z|
  {
    var d, e := Dot(z, r), Energy(z);
    if -(prec * e) < d < prec * e then k == 0.0 else k * e == d
  }

  lemma CoefficientKept(r: seq<real>, z: seq<real>, prec: real)
    requires |r| == |z| && Energy(z) > 0.0
    ensures KeptFrom(r, z, Coefficient(r, z, prec), prec)
    ensures var k := Coefficient(r, z, prec); k == 0.0 || k <= -prec || prec <= k
  {
    hide Dot;
    var d, e := Dot(z, r), Energy(z);
    QuotientBetween(d, e, prec);
  }

  lemma QuotientBetween(d: real, e: real, prec: real)
    requires e > 0.0
    ensures -prec < d / e < prec <==> -(prec * e) < d < prec * e
    ensures d / e * e == d
  {
    var q := d / e;
    assert q * e == d;
    ScaledLess(q, prec, e);
    ScaledLess(-prec, q, e);
  }

  lemma ScaledLess(a: real, b: real, e: real)
    requires e > 0.0
    ensures a < b <==> a * e < b * e
  {
    assert b * e - a * e == (b - a) * e;
    if a < b { assert (b - a) * e > 0.0; } else { assert (a - b) * e >= 0.0; }
  }

  /** After each step the residual has less than the precision left along the basis image, or nothing. */
  lemma LeftAlong(image: seq<real>, basis: seq<seq<real>>, prec: real, i: nat)
    requires IsBasis(basis, |image|) && i < |basis|
    ensures var d, e := Dot(Residual(image, basis, prec, i + 1), basis[i]), Energy(basis[i]);
            d == 0.0 || -(prec * e) < d < prec * e
  {
    hide Dot, AddScaled, Times;
    var r, z := Residual(image, basis, prec, i), basis[i];
    var k := Coefficient(r, z, prec);
    CoefficientKept(r, z, prec);
    DotLinear(r, -k, z, z);
    DotSymmetric(r, z);
    TimesIs(-k, Energy(z));
    NegatedProduct(k, Energy(z));
  }

  lemma KeptAt(image: seq<real>, basis: seq<seq<real>>, prec: real, i: nat)
    requires IsBasis(basis, |image|) && i < |basis|
    ensures KeptFrom(Residual(image, basis, prec, i), basis[i], CoefficientAt(image, basis, prec, i), prec)
  {
    hide KeptFrom;
    CoefficientKept(Residual(image, basis, prec, i), basis[i], prec);
  }

  lemma TimesIs(x: real, y: real)
    ensures Times(x, y) == x * y
  {
  }

  lemma NegatedProduct(k: real, e: real)
    ensures (-k) * e == -(k * e)
  {
  }

  /** Pixel j of the sum of the coefficients that are not smaller than prec on both sides. */
  ghost function PixelSum(coefs: seq<real>, basis: seq<seq<real>>, prec: real, j: nat, i: nat): real
    requires |coefs| == |basis| && i <= |basis| && forall n :: 0 <= n < |basis| ==> j < |basis[n]|
    decreases i
  {
    if i == 0 then 0.0
    else
      var k := coefs[i - 1];
      PixelSum(coefs, basis, prec, j, i - 1) + (if -prec < k < prec then 0.0 else k * basis[i - 1][j])
  }

  lemma {:induction false} ComposedPixel(coefs: seq<real>, basis: seq<seq<real>>, prec: real, size: nat, i: nat, j: nat)
    requires IsBasis(basis, size) && |coefs| == |basis| && i <= |basis| && j < size
    ensures Composed(coefs, basis, prec, size, i)[j] == PixelSum(coefs, basis, prec, j, i)
    decreases i
  {
    hide AddScaled, Energy;
    if i > 0 {
      ComposedPixel(coefs, basis, prec, size, i - 1, j);
      AddScaledAt(Composed(coefs, basis, prec, size, i - 1), Kept(coefs[i - 1], prec), basis[i - 1], j);
    }
  }

  /** The energy taken out by the first i coefficients. */
  ghost function TakenOut(image: seq<real>, basis: seq<seq<real>>, prec: real, i: nat): real
    requires IsBasis(basis, |image|) && i <= |basis|
  {
    if i == 0 then 0.0
    else
      var k := CoefficientAt(image, basis, prec, i - 1);
      TakenOut(image, basis, prec, i - 1) + k * k * Energy(basis[i - 1])
  }

  lemma StepEnergy(r: seq<real>, z: seq<real>, prec: real)
    requires |r| == |z| && Energy(z) > 0.0
    ensures var k := Coefficient(r, z, prec);
            Energy(AddScaled(r, -k, z)) == Energy(r) - k * k * Energy(z)
  {
    hide Dot, AddScaled;
    var k, e := Coefficient(r, z, prec), Energy(z);
    EnergyOfSum(r, -k, z);
    DotSymmetric(r, z);
    var d := Dot(z, r);
    if AbsR(d / e) < prec {
      assert k == 0.0;
    } else {
      assert k * e == d;
    }
  }

  /** Energy is conserved: residual and taken-out parts add up to the energy of the image. */
  lemma {:induction false} EnergyBalance(image: seq<real>, basis: seq<seq<real>>, prec: real, i: nat)
    requires IsBasis(basis, |image|) && i <= |basis|
    ensures Energy(Residual(image, basis, prec, i)) == Energy(image) - TakenOut(image, basis, prec, i)
    decreases i
  {
    hide Dot, AddScaled;
    if i > 0 {
      EnergyBalance(image, basis, prec, i - 1);
      StepEnergy(Residual(image, basis, prec, i - 1), basis[i - 1], prec);
    }
  }

  /** No more energy is taken out than the image has, over any basis. */
  lemma TakenOutBounded(image: seq<real>, basis: seq<seq<real>>, prec: real, i: nat)
    requires IsBasis(basis, |image|) && i <= |basis|
    ensures TakenOut(image, basis, prec, i) <= Energy(image)
  {
    hide Dot, AddScaled;
    EnergyBalance(image, basis, prec, i);
    EnergyNonNegative(Residual(image, basis, prec, i));
  }

  /** So the residual never grows, whatever the basis. */
  lemma {:induction false} ResidualShrinks(image: seq<real>, basis: seq<seq<real>>, prec: real, i: nat, j: nat)
    requires IsBasis(basis, |image|) && i <= j <= |basis|
    ensures Energy(Residual(image, basis, prec, j)) <= Energy(Residual(image, basis, prec, i))
    decreases j
  {
    hide Energy, Residual, IsBasis;
    if i < j {
      ResidualShrinks(image, basis, prec, i, j - 1);
      OneStepShrinks(image, basis, prec, j);
    }
  }

  lemma OneStepShrinks(image: seq<real>, basis: seq<seq<real>>, prec: real, j: nat)
    requires IsBasis(basis, |image|) && 0 < j <= |basis|
    ensures Energy(Residual(image, basis, prec, j)) <= Energy(Residual(image, basis, prec, j - 1))
  {
    hide Energy, Coefficient, Dot, AddScaled;
    StepShrinks(Residual(image, basis, prec, j - 1), basis[j - 1], prec);
  }

  lemma StepShrinks(r: seq<real>, z: seq<real>, prec: real)
    requires |r| == |z| && Energy(z) > 0.0
    ensures Energy(AddScaled(r, -Coefficient(r, z, prec), z)) <= Energy(r)
  {
    hide Energy, Coefficient;
    StepEnergy(r, z, prec);
    SquareTimes(Coefficient(r, z, prec), Energy(z));
  }

  lemma SquareTimes(k: real, e: real)
    requires e > 0.0
    ensures k * k * e >= 0.0
  {
  }

  ghost predicate Orthogonal(basis: seq<seq<real>>, size: nat)
    requires IsBasis(basis, size)
  {
    forall i, j :: 0 <= i < |basis| && 0 <= j < |basis| && i != j ==> Dot(basis[i], basis[j]) == 0.0
  }

  /** Coefficients that survive the precision: zero or not below it. */
  ghost predicate Significant(coefs: seq<real>, prec: real) {
    forall i :: 0 <= i < |coefs| ==> Kept(coefs[i], prec) == coefs[i]
  }

  /** Over an orthogonal basis, the projection of a composed image sees only its own coefficient. */
  lemma {:induction false} DotComposed(coefs: seq<real>, basis: seq<seq<real>>, prec: real, size: nat, j: nat, i: nat)
    requires IsBasis(basis, size) && Orthogonal(basis, size) && |coefs| == |basis|
    requires Significant(coefs, prec) && j <= |basis| && i < |basis|
    ensures Dot(Composed(coefs, basis, prec, size, j), basis[i]) ==
            if i < j then Times(coefs[i], Energy(basis[i])) else 0.0
    decreases j
  {
    hide Dot, AddScaled, Zeros, Times;
    if j == 0 {
      DotZeros(basis[i]);
    } else {
      DotComposed(coefs, basis, prec, size, j - 1, i);
      DotLinear(Composed(coefs, basis, prec, size, j - 1), Kept(coefs[j - 1], prec), basis[j - 1], basis[i]);
      if i != j - 1 {
        assert Dot(basis[j - 1], basis[i]) == 0.0;
        TimesZero(coefs[j - 1]);
      }
    }
  }

  /** With no coefficient dropped, what is left is orthogonal to all that was taken out. */
  lemma {:induction false} ResidualOrthogonal(image: seq<real>, basis: seq<seq<real>>, j: nat, i: nat)
    requires IsBasis(basis, |image|) && Orthogonal(basis, |image|) && i < j <= |basis|
    ensures Dot(Residual(image, basis, 0.0, j), basis[i]) == 0.0
    decreases j
  {
    hide Dot, AddScaled, Times;
    var r, z := Residual(image, basis, 0.0, j - 1), basis[j - 1];
    var k := Coefficient(r, z, 0.0);
    DotLinear(r, -k, z, basis[i]);
    if i == j - 1 {
      DotSymmetric(r, z);
      QuotientTimes(Dot(z, r), Energy(z));
    } else {
      ResidualOrthogonal(image, basis, j - 1, i);
      assert Dot(z, basis[i]) == 0.0;
      TimesZero(-k);
    }
  }

  lemma QuotientTimes(d: real, e: real)
    requires e > 0.0
    ensures d + Times(-(d / e), e) == 0.0
  {
  }

  /** What is orthogonal to the basis is orthogonal to everything composed from it. */
  lemma {:induction false} ComposedOrthogonal(coefs: seq<real>, basis: seq<seq<real>>, prec: real, r: seq<real>, j: nat)
    requires IsBasis(basis, |r|) && |coefs| == |basis| && j <= |basis|
    requires forall i :: 0 <= i < |basis| ==> Dot(r, basis[i]) == 0.0
    ensures Dot(Composed(coefs, basis, prec, |r|, j), r) == 0.0
    decreases j
  {
    hide Dot, AddScaled, Zeros, Times;
    if j == 0 {
      DotZeros(r);
    } else {
      ComposedOrthogonal(coefs, basis, prec, r, j - 1);
      var k := Kept(coefs[j - 1], prec);
      DotLinear(Composed(coefs, basis, prec, |r|, j - 1), k, basis[j - 1], r);
      DotSymmetric(basis[j - 1], r);
      TimesZero(k);
    }
  }

  /** Over an orthogonal basis and with precision 0, no other coefficients come closer to the image. */
  lemma BestApproximation(image: seq<real>, basis: seq<seq<real>>, own: seq<real>, other: seq<real>)
    requires IsBasis(basis, |image|) && Orthogonal(basis, |image|) && |other| == |basis|
    requires AreCoefficients(own, image, basis, 0.0)
    ensures var n := |basis|;
            var left := AddScaled(image, -1.0, Composed(other, basis, 0.0, |image|, n));
            && Energy(Residual(image, basis, 0.0, n)) <= Energy(left)
            && AddScaled(Composed(own, basis, 0.0, |image|, n), 1.0, Residual(image, basis, 0.0, n)) == image
  {
    hide Dot, AddScaled, Residual, Composed, AreCoefficients, Times;
    var n := |basis|;
    OwnCoefficients(own, image, basis);
    var r, mine := Residual(image, basis, 0.0, n), Composed(own, basis, 0.0, |image|, n);
    var theirs := Composed(other, basis, 0.0, |image|, n);
    forall i | 0 <= i < n ensures Dot(r, basis[i]) == 0.0 { ResidualOrthogonal(image, basis, n, i); }
    ComposedOrthogonal(own, basis, 0.0, r, n);
    ComposedOrthogonal(other, basis, 0.0, r, n);
    ComposedPlusResidual(own, image, basis, 0.0, n);
    NearestAlong(image, r, mine, theirs);
  }

  lemma OwnCoefficients(coefs: seq<real>, image: seq<real>, basis: seq<seq<real>>)
    requires IsBasis(basis, |image|) && AreCoefficients(coefs, image, basis, 0.0)
    ensures |coefs| == |basis|
  {
  }

  /** With image = mine + r and r orthogonal to both, the distance to theirs is at least that to mine. */
  lemma NearestAlong(image: seq<real>, r: seq<real>, mine: seq<real>, theirs: seq<real>)
    requires |image| == |r| == |mine| == |theirs| && AddScaled(mine, 1.0, r) == image
    requires Dot(mine, r) == 0.0 && Dot(theirs, r) == 0.0
    ensures Energy(r) <= Energy(AddScaled(image, -1.0, theirs))
  {
    hide Dot, AddScaled, Times;
    var left := AddScaled(image, -1.0, theirs);
    var d := AddScaled(left, -1.0, r);
    DotLinear(mine, 1.0, r, r);
    DotLinear(image, -1.0, theirs, r);
    DotLinear(left, -1.0, r, r);
    TimesZero(-1.0);
    TimesOnes(Energy(r));
    assert Dot(d, r) == 0.0;
    DotSymmetric(d, r);
    TakenAndGiven(r, left);
    EnergyOfSum(r, 1.0, d);
    EnergyNonNegative(d);
  }

  lemma TimesOnes(x: real)
    ensures Times(1.0, x) == x && Times(-1.0, x) == -x
  {
  }

  lemma {:induction false} TakenAndGiven(a: seq<real>, b: seq<real>)
    requires |a| == |b|
    ensures AddScaled(a, 1.0, AddScaled(b, -1.0, a)) == b
  {
    if a != [] {
      var n := |a| - 1;
      TakenAndGiven(a[..n], b[..n]);
      assert AddScaled(b, -1.0, a)[..n] == AddScaled(b[..n], -1.0, a[..n]);
    }
  }

  lemma KeptQuotient(c: real, e: real, prec: real)
    requires e > 0.0 && Kept(c, prec) == c
    ensures Kept(Times(c, e) / e, prec) == c
  {
    assert c * e / e == c;
  }

  /** Decomposing a composed image: after i steps just the first i summands are gone. */
  lemma {:induction false} DecomposeStep(coefs: seq<real>, basis: seq<seq<real>>, prec: real, size: nat, i: nat)
    requires IsBasis(basis, size) && Orthogonal(basis, size) && |coefs| == |basis|
    requires Significant(coefs, prec) && i <= |basis|
    ensures var image := Composed(coefs, basis, prec, size, |basis|);
            && AddScaled(Composed(coefs, basis, prec, size, i), 1.0, Residual(image, basis, prec, i)) == image
            && (i < |basis| ==> CoefficientAt(image, basis, prec, i) == coefs[i])
    decreases i
  {
    hide Dot, AddScaled, Zeros, Times;
    var image := Composed(coefs, basis, prec, size, |basis|);
    var p, r := Composed(coefs, basis, prec, size, i), Residual(image, basis, prec, i);
    if i == 0 {
      AddToZeros(image);
    } else {
      DecomposeStep(coefs, basis, prec, size, i - 1);
      var p0, r0, z := Composed(coefs, basis, prec, size, i - 1), Residual(image, basis, prec, i - 1), basis[i - 1];
      assert CoefficientAt(image, basis, prec, i - 1) == coefs[i - 1] == Kept(coefs[i - 1], prec);
      Transfer(p0, r0, coefs[i - 1], z);
    }
    if i < |basis| {
      DotComposed(coefs, basis, prec, size, |basis|, i);
      DotComposed(coefs, basis, prec, size, i, i);
      DotLinear(p, 1.0, r, basis[i]);
      TimesOne(Dot(r, basis[i]));
      DotSymmetric(r, basis[i]);
      KeptQuotient(coefs[i], Energy(basis[i]), prec);
    }
  }

  lemma TimesOne(x: real)
    ensures Times(1.0, x) == x
  {
  }

  /** Decomposition inverts composition over an orthogonal basis, and leaves nothing over. */
  lemma RoundTrip(coefs: seq<real>, basis: seq<seq<real>>, prec: real, size: nat)
    requires IsBasis(basis, size) && Orthogonal(basis, size) && |coefs| == |basis| && Significant(coefs, prec)
    ensures var image := Composed(coefs, basis, prec, size, |basis|);
            && AreCoefficients(coefs, image, basis, prec)
            && Residual(image, basis, prec, |basis|) == Zeros(size)
  {
    hide Dot, AddScaled;
    var image := Composed(coefs, basis, prec, size, |basis|);
    forall i | 0 <= i < |basis| ensures coefs[i] == CoefficientAt(image, basis, prec, i) {
      DecomposeStep(coefs, basis, prec, size, i);
    }
    DecomposeStep(coefs, basis, prec, size, |basis|);
    var r := Residual(image, basis, prec, |basis|);
    forall j | 0 <= j < size ensures r[j] == 0.0 {
      AddScaledAt(image, 1.0, r, j);
    }
  }

  /** The projection of the picture on z, divided by z's norm. */
  method Project(z: seq<real>, picture: array<real>, norm: real) returns (k: real)
    requires |z| == picture.Length && norm == Energy(z) > 0.0
    ensures k == Dot(z, picture[..]) / Energy(z)
  {
    hide Dot;
    k := 0.0;
    DotEmpty();
    for j := 0 to |z|
      invariant k == Dot(z[..j], picture[..j]) / norm
    {
      DotSnoc(z, picture[..], j);
      assert picture[..][..j] == picture[..j] && picture[..][..j + 1] == picture[..j + 1];
      k := k + z[j] * picture[j] / norm;
    }
    assert z[..|z|] == z && picture[..|z|] == picture[..];
  }

  lemma DotEmpty()
    ensures Dot([], []) == 0.0
  {
  }

  lemma DotSnoc(a: seq<real>, b: seq<real>, j: nat)
    requires |a| == |b| && j < |a|
    ensures Dot(a[..j + 1], b[..j + 1]) == Dot(a[..j], b[..j]) + a[j] * b[j]
  {
    assert a[..j + 1][..j] == a[..j] && b[..j + 1][..j] == b[..j];
  }

  /** Takes k z out of the picture, in place. */
  method Subtract(picture: array<real>, k: real, z: seq<real>)
    requires |z| == picture.Length
    modifies picture
    ensures picture[..] == AddScaled(old(picture[..]), -k, z)
  {
    ghost var was := picture[..];
    for j := 0 to |z|
      invariant forall i :: j <= i < |z| ==> picture[i] == was[i]
      invariant forall i :: 0 <= i < j ==> picture[i] == AddScaled(was, -k, z)[i]
    {
      AddScaledAt(was, -k, z, j);
      picture[j] := picture[j] - k * z[j];
    }
  }

  /** Adds k z to the picture, in place. */
  method Add(picture: array<real>, k: real, z: seq<real>)
    requires |z| == picture.Length
    modifies picture
    ensures picture[..] == AddScaled(old(picture[..]), k, z)
  {
    ghost var was := picture[..];
    for j := 0 to |z|
      invariant forall i :: j <= i < |z| ==> picture[i] == was[i]
      invariant forall i :: 0 <= i < j ==> picture[i] == AddScaled(was, k, z)[i]
    {
      AddScaledAt(was, k, z, j);
      picture[j] := picture[j] + k * z[j];
    }
  }

  /** The sum of squares that comes with a basis image. */
  method Norm(z: seq<real>) returns (norm: real)
    ensures norm == Energy(z)
  {
    hide Dot;
    norm := 0.0;
    DotEmpty();
    for j := 0 to |z|
      invariant norm == Dot(z[..j], z[..j])
    {
      DotSnoc(z, z, j);
      norm := norm + z[j] * z[j];
    }
    assert z[..|z|] == z;
  }

  /** The coefficients of an image and the index of the last one that was kept. */
  method Decompose(image: array<real>, basis: seq<seq<real>>, prec: real) returns (zidxs: array<real>, lastIdx: nat)
    requires IsBasis(basis, image.Length)
    ensures fresh(zidxs) && AreCoefficients(zidxs[..], image[..], basis, prec)
    ensures forall i :: 0 <= i < |basis| ==> KeptFrom(Residual(image[..], basis, prec, i), basis[i], zidxs[i], prec)
    ensures forall i :: lastIdx < i < |basis| ==> zidxs[i] == 0.0
    ensures lastIdx == 0 || (lastIdx < |basis| && (zidxs[lastIdx] <= -prec || prec <= zidxs[lastIdx]))
    ensures Energy(Residual(image[..], basis, prec, |basis|)) == Energy(image[..]) - TakenOut(image[..], basis, prec, |basis|)
  {
    hide Dot, AddScaled, Residual, CoefficientAt, TakenOut, Energy, KeptFrom;
    zidxs := new real[|basis|];
    lastIdx := 0;
    var icopy := new real[image.Length];
    forall j | 0 <= j < image.Length { icopy[j] := image[j]; }
    assert icopy[..] == image[..];
    ResidualStart(image[..], basis, prec);
    for i := 0 to |basis|
      invariant image[..] == old(image[..])
      invariant icopy[..] == Residual(image[..], basis, prec, i)
      invariant forall j :: 0 <= j < i ==> zidxs[j] == CoefficientAt(image[..], basis, prec, j)
      invariant forall j :: 0 <= j < i ==> KeptFrom(Residual(image[..], basis, prec, j), basis[j], zidxs[j], prec)
      invariant forall j :: lastIdx < j < i ==> zidxs[j] == 0.0
      invariant lastIdx == 0 || (lastIdx < i && (zidxs[lastIdx] <= -prec || prec <= zidxs[lastIdx]))
    {
      KeptAt(image[..], basis, prec, i);
      ResidualStep(image[..], basis, prec, i);
      var norm := Norm(basis[i]);
      var k := Project(basis[i], icopy, norm);
      zidxs[i] := k;
      if AbsR(k) < prec {
        zidxs[i] := 0.0;
        NothingTaken(icopy[..], basis[i]);
      } else {
        lastIdx := i;
        Subtract(icopy, k, basis[i]);
      }
    }
    EnergyBalance(image[..], basis, prec, |basis|);
  }

  lemma ResidualStart(image: seq<real>, basis: seq<seq<real>>, prec: real)
    requires IsBasis(basis, |image|)
    ensures Residual(image, basis, prec, 0) == image
  {
  }

  lemma ResidualStep(image: seq<real>, basis: seq<seq<real>>, prec: real, i: nat)
    requires IsBasis(basis, |image|) && i < |basis|
    ensures var r, k := Residual(image, basis, prec, i), CoefficientAt(image, basis, prec, i);
            && k == Kept(Dot(basis[i], r) / Energy(basis[i]), prec)
            && Residual(image, basis, prec, i + 1) == AddScaled(r, -k, basis[i])
  {
  }

  lemma {:induction false} NothingTaken(r: seq<real>, z: seq<real>)
    requires |r| == |z|
    ensures AddScaled(r, -0.0, z) == r
  {
    if r != [] { NothingTaken(r[..|r| - 1], z[..|r| - 1]); }
  }

  lemma {:induction false} NothingAdded(r: seq<real>, z: seq<real>)
    requires |r| == |z|
    ensures AddScaled(r, 0.0, z) == r
  {
    if r != [] { NothingAdded(r[..|r| - 1], z[..|r| - 1]); }
  }

  /** The image with the given coefficients; those below the precision are skipped. */
  method Compose(zidxs: array<real>, basis: seq<seq<real>>, prec: real, size: nat) returns (image: array<real>)
    requires IsBasis(basis, size) && zidxs.Length == |basis|
    ensures fresh(image) && image.Length == size
    ensures image[..] == Composed(zidxs[..], basis, prec, size, |basis|)
    ensures forall j :: 0 <= j < size ==> image[j] == PixelSum(zidxs[..], basis, prec, j, |basis|)
  {
    hide PixelSum;
    image := new real[size];
    forall j | 0 <= j < size { image[j] := 0.0; }
    assert image[..] == Zeros(size);
    for i := 0 to |basis|
      invariant zidxs[..] == old(zidxs[..])
      invariant image[..] == Composed(zidxs[..], basis, prec, size, i)
    {
      var k := zidxs[i];
      assert k == zidxs[..][i];
      if AbsR(k) < prec {
        NothingAdded(image[..], basis[i]);
      } else {
        Add(image, k, basis[i]);
      }
    }
    forall j | 0 <= j < size ensures image[j] == PixelSum(zidxs[..], basis, prec, j, |basis|) {
      ComposedPixel(zidxs[..], basis, prec, size, |basis|, j);
      assert image[j] == image[..][j];
    }
  }

  /** Decomposing and composing again gives the image less the residual. */
  method Restore(image: array<real>, basis: seq<seq<real>>, prec: real) returns (restored: array<real>)
    requires IsBasis(basis, image.Length)
    ensures fresh(restored) && restored.Length == image.Length
    ensures AddScaled(restored[..], 1.0, Residual(image[..], basis, prec, |basis|)) == image[..]
  {
    var zidxs, _ := Decompose(image, basis, prec);
    restored := Compose(zidxs, basis, prec, image.Length);
    ComposedPlusResidual(zidxs[..], image[..], basis, prec, |basis|);
  }
}
