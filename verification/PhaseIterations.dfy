/** One iteration of the difference map and of RAAR: the optimised loops against the operator formulas. */
module PhaseIterations {
  import opened ComplexNumbers

  /** The library's transforms and its projection onto the measured amplitudes. */
  datatype Optics = Optics(fft: Picture -> Picture, ifft: Picture -> Picture, modulus: Picture -> Picture)

  /** p x + q y, pixel by pixel. */
  function Combine(p: real, x: Picture, q: real, y: Picture): (r: Picture)
    requires |x| == |y|
    ensures |r| == |x| && forall i :: 0 <= i < |x| ==> r[i] == Plus(Scale(p, x[i]), Scale(q, y[i]))
  {
    seq(|x|, i requires 0 <= i < |x| => Plus(Scale(p, x[i]), Scale(q, y[i])))
  }

  function Scaled(p: real, x: Picture): (r: Picture)
    ensures |r| == |x| && forall i :: 0 <= i < |x| ==> r[i] == Scale(p, x[i])
  {
    seq(|x|, i requires 0 <= i < |x| => Scale(p, x[i]))
  }

  ghost predicate KeepsSize(o: Optics, x: Picture) {
    |o.fft(x)| == |x| && |o.ifft(x)| == |x| && |o.modulus(x)| == |x|
  }

  ghost predicate LinearAt(o: Optics, p: real, x: Picture, q: real, y: Picture)
    requires |x| == |y| && |o.ifft(x)| == |o.ifft(y)|
  {
    o.ifft(Combine(p, x, q, y)) == Combine(p, o.ifft(x), q, o.ifft(y))
  }

  ghost predicate InvertsAt(o: Optics, x: Picture) {
    o.ifft(o.fft(x)) == Scaled(|x| as real, x)
  }

  /** Everything keeps the size, the inverse transform is linear, and it undoes the forward transform up
      to the number of pixels. */
  ghost predicate Lawful(o: Optics, n: nat) {
    (forall x: Picture {:trigger KeepsSize(o, x)} :: |x| == n ==> KeepsSize(o, x)) &&
    (forall p: real, x: Picture, q: real, y: Picture {:trigger LinearAt(o, p, x, q, y)} ::
       |x| == n && |y| == n && |o.ifft(x)| == n && |o.ifft(y)| == n ==> LinearAt(o, p, x, q, y)) &&
    (forall x: Picture {:trigger InvertsAt(o, x)} :: |x| == n ==> InvertsAt(o, x))
  }

  function Fft(o: Optics, x: Picture): (r: Picture)
    requires Lawful(o, |x|)
    ensures |r| == |x|
  {
    assert KeepsSize(o, x);
    o.fft(x)
  }

  function Ifft(o: Optics, x: Picture): (r: Picture)
    requires Lawful(o, |x|)
    ensures |r| == |x|
  {
    assert KeepsSize(o, x);
    o.ifft(x)
  }

  function Modulus(o: Optics, x: Picture): (r: Picture)
    requires Lawful(o, |x|)
    ensures |r| == |x|
  {
    assert KeepsSize(o, x);
    o.modulus(x)
  }

  predicate Inside(support: Picture, i: nat)
    requires i < |support|
  {
    support[i].re != 0.0
  }

  // ---------------------------------------------------------------- the reference difference map

  /** The real space estimate. */
  function F1(x: Picture, support: Picture, gamma1: real): (r: Picture)
    requires |support| == |x|
    ensures |r| == |x|
  {
    seq(|x|, i requires 0 <= i < |x| => if Inside(support, i) then x[i] else Scale(-gamma1, x[i]))
  }

  /** f1 = (1 + gamma1) P1 - gamma1 I, with P1 the projection onto the support. */
  lemma F1IsRelaxedProjection(x: Picture, support: Picture, gamma1: real)
    requires |support| == |x|
    ensures F1(x, support, gamma1) == Combine(1.0 + gamma1, OntoSupport(x, support), -gamma1, x)
  {
    forall i | 0 <= i < |x|
      ensures F1(x, support, gamma1)[i] == Combine(1.0 + gamma1, OntoSupport(x, support), -gamma1, x)[i]
    {
      RelaxedPart(gamma1, x[i].re);
      RelaxedPart(gamma1, x[i].im);
    }
  }

  lemma RelaxedPart(gamma: real, x: real)
    ensures (1.0 + gamma) * x + -gamma * x == x
    ensures (1.0 + gamma) * 0.0 + -gamma * x == -gamma * x
  {
  }

  /** The projection keeps the pixels of a support value that is not zero, and no others. */
  lemma OntoSupportKeeps(x: Picture, support: Picture, i: nat)
    requires |support| == |x| && i < |x|
    ensures support[i].re != 0.0 ==> OntoSupport(x, support)[i] == x[i]
    ensures support[i].re == 0.0 ==> OntoSupport(x, support)[i] == ZERO
  {
  }

  /** The loop over a copy of the image. */
  method SerialDifferenceMapF1(realIn: array<Complex>, support: array<Complex>, gamma1: real)
    returns (out: array<Complex>)
    requires realIn.Length == support.Length
    ensures fresh(out) && out[..] == F1(realIn[..], support[..], gamma1)
  {
    out := new Complex[realIn.Length](i requires 0 <= i < realIn.Length reads realIn => realIn[i]);
    for i := 0 to out.Length
      invariant forall k :: 0 <= k < i ==> out[k] == F1(realIn[..], support[..], gamma1)[k]
      invariant forall k :: i <= k < out.Length ==> out[k] == realIn[k]
    {
      if support[i].re == 0.0 {
        out[i] := Complex(-gamma1 * out[i].re, -gamma1 * out[i].im);
      }
    }
  }

  /** The Fourier space estimate, from the transform of the image. */
  function F2(o: Optics, x: Picture, gamma2: real): (r: Picture)
    requires Lawful(o, |x|) && |x| > 0
    ensures |r| == |x|
  {
    Scaled(1.0 / |x| as real, Ifft(o, Combine(1.0 + gamma2, Modulus(o, x), -gamma2, x)))
  }

  /** The projection onto the support. */
  function OntoSupport(x: Picture, support: Picture): (r: Picture)
    requires |support| == |x|
    ensures |r| == |x|
  {
    seq(|x|, i requires 0 <= i < |x| => if Inside(support, i) then x[i] else ZERO)
  }

  /** The projection onto the amplitudes, in real space. */
  function OntoModulus(o: Optics, x: Picture): (r: Picture)
    requires Lawful(o, |x|) && |x| > 0
    ensures |r| == |x|
  {
    Scaled(1.0 / |x| as real, Ifft(o, Modulus(o, Fft(o, x))))
  }

  /** x + beta (P1 f2 x - P2 f1 x). */
  function Reference(o: Optics, x: Picture, support: Picture, beta: real, gamma1: real, gamma2: real): (r: Picture)
    requires Lawful(o, |x|) && |x| > 0 && |support| == |x|
    ensures |r| == |x|
  {
    var p1f2 := OntoSupport(F2(o, Fft(o, x), gamma2), support);
    var p2f1 := OntoModulus(o, F1(x, support, gamma1));
    Combine(1.0, x, beta, Combine(1.0, p1f2, -1.0, p2f1))
  }

  /** The Fourier estimate without a second transform: the image itself stands for the inverse of its own. */
  lemma F2WithoutTransform(o: Optics, x: Picture, gamma2: real, i: nat)
    requires Lawful(o, |x|) && i < |x|
    ensures F2(o, Fft(o, x), gamma2)[i] ==
            Minus(Scale((1.0 + gamma2) / |x| as real, Ifft(o, Modulus(o, Fft(o, x)))[i]), Scale(gamma2, x[i]))
  {
    var n := |x| as real;
    var f := Fft(o, x);
    var m := Ifft(o, Modulus(o, f));
    var g := Ifft(o, Combine(1.0 + gamma2, Modulus(o, f), -gamma2, f));
    assert |Ifft(o, f)| == |m| && LinearAt(o, 1.0 + gamma2, Modulus(o, f), -gamma2, f) && InvertsAt(o, x);
    SharedOut(n, 1.0 + gamma2, m, gamma2, x, g, i);
  }

  lemma SharedOut(n: real, p: real, m: Picture, q: real, x: Picture, g: Picture, i: nat)
    requires |m| == |x| && i < |x| && n > 0.0 && g == Combine(p, m, -q, Scaled(n, x))
    ensures Scaled(1.0 / n, g)[i] == Minus(Scale(p / n, m[i]), Scale(q, x[i]))
  {
    ShareOut(n, p, m[i].re, q, x[i].re, g[i].re);
    ShareOut(n, p, m[i].im, q, x[i].im, g[i].im);
  }

  lemma ShareOut(n: real, p: real, m: real, q: real, x: real, g: real)
    requires n > 0.0 && g == p * m + -q * (n * x)
    ensures (1.0 / n) * g == (p / n) * m - q * x
  {
    var k := 1.0 / n;
    assert k * n == 1.0;
    assert p / n == p * k;
    assert k * g == p * k * m - q * x * (k * n);
  }

  /** The difference map rests exactly at images whose two estimates agree. */
  lemma RestsExactlyWhenEstimatesAgree(o: Optics, x: Picture, support: Picture, beta: real, gamma1: real, gamma2: real)
    requires Lawful(o, |x|) && |x| > 0 && |support| == |x| && beta != 0.0
    ensures Reference(o, x, support, beta, gamma1, gamma2) == x <==>
            OntoSupport(F2(o, Fft(o, x), gamma2), support) == OntoModulus(o, F1(x, support, gamma1))
  {
    var a := OntoSupport(F2(o, Fft(o, x), gamma2), support);
    var b := OntoModulus(o, F1(x, support, gamma1));
    var r := Reference(o, x, support, beta, gamma1, gamma2);
    forall i | 0 <= i < |x| ensures r[i] == x[i] <==> a[i] == b[i] {
      assert r[i] == Plus(Scale(1.0, x[i]), Scale(beta, Plus(Scale(1.0, a[i]), Scale(-1.0, b[i]))));
      OnlyZeroStays(beta, a[i].re - b[i].re);
      OnlyZeroStays(beta, a[i].im - b[i].im);
    }
    if r == x {
      assert forall i :: 0 <= i < |x| ==> a[i] == b[i];
      assert a == b;
    }
    if a == b {
      assert r == x;
    }
  }

  /** With beta 1, gamma1 -1 and gamma2 1: inside the support the amplitudes' projection, outside the image less
      that projection, as in the hybrid input output algorithm. */
  lemma HybridInputOutput(o: Optics, x: Picture, support: Picture, i: nat)
    requires Lawful(o, |x|) && |x| > 0 && |support| == |x| && i < |x|
    ensures Reference(o, x, support, 1.0, -1.0, 1.0)[i] ==
            if Inside(support, i) then OntoModulus(o, x)[i] else Minus(x[i], OntoModulus(o, x)[i])
  {
    F1IsIdentity(x, support);
    F2WithoutTransform(o, x, 1.0, i);
    var n := |x| as real;
    var m := Ifft(o, Modulus(o, Fft(o, x)));
    var b := OntoModulus(o, x);
    assert b[i] == Scale(1.0 / n, m[i]);
    var a := OntoSupport(F2(o, Fft(o, x), 1.0), support);
    HybridPixel(Inside(support, i), n, m[i], x[i], a[i], b[i]);
  }

  lemma F1IsIdentity(x: Picture, support: Picture)
    requires |support| == |x|
    ensures F1(x, support, -1.0) == x
  {
  }

  lemma HybridPixel(inside: bool, n: real, m: Complex, x: Complex, a: Complex, b: Complex)
    requires n > 0.0 && b == Scale(1.0 / n, m)
    requires a == if inside then Minus(Scale((1.0 + 1.0) / n, m), Scale(1.0, x)) else ZERO
    ensures Plus(Scale(1.0, x), Scale(1.0, Plus(Scale(1.0, a), Scale(-1.0, b)))) == if inside then b else Minus(x, b)
  {
    HybridPart(inside, n, m.re, x.re, a.re, b.re);
    HybridPart(inside, n, m.im, x.im, a.im, b.im);
  }

  /** The step is proportional to beta. */
  lemma StepScales(o: Optics, x: Picture, support: Picture, beta: real, gamma1: real, gamma2: real, i: nat)
    requires Lawful(o, |x|) && |x| > 0 && |support| == |x| && i < |x|
    ensures Minus(Reference(o, x, support, beta, gamma1, gamma2)[i], x[i]) ==
            Scale(beta, Minus(Reference(o, x, support, 1.0, gamma1, gamma2)[i], x[i]))
  {
    var a := OntoSupport(F2(o, Fft(o, x), gamma2), support)[i];
    var b := OntoModulus(o, F1(x, support, gamma1))[i];
    var d := Plus(Scale(1.0, a), Scale(-1.0, b));
    assert Reference(o, x, support, beta, gamma1, gamma2)[i] == Plus(Scale(1.0, x[i]), Scale(beta, d));
    assert Reference(o, x, support, 1.0, gamma1, gamma2)[i] == Plus(Scale(1.0, x[i]), Scale(1.0, d));
  }

  lemma HybridPart(inside: bool, n: real, m: real, x: real, a: real, b: real)
    requires n > 0.0 && a == (if inside then (1.0 + 1.0) / n * m - 1.0 * x else 0.0) && b == 1.0 / n * m
    ensures 1.0 * x + 1.0 * (1.0 * a + -1.0 * b) == if inside then 1.0 / n * m else x - 1.0 / n * m
  {
    assert (1.0 + 1.0) / n * m == 2.0 * (1.0 / n * m);
  }

  lemma OnlyZeroStays(k: real, d: real)
    requires k != 0.0
    ensures k * d == 0.0 <==> d == 0.0
  {
  }

  // ---------------------------------------------------------------- the constraints after the step

  /** What the optional reality and positivity constraints do to a pixel inside the support. */
  function Constrained(inside: bool, real_: bool, positive: bool, z: Complex): Complex {
    var flat := if inside && real_ then Complex(z.re, 0.0) else z;
    if inside && positive then Complex(Abs(flat.re), Abs(flat.im)) else flat
  }

  function ConstrainAll(x: Picture, support: Picture, real_: bool, positive: bool): (r: Picture)
    requires |support| == |x|
    ensures |r| == |x|
  {
    seq(|x|, i requires 0 <= i < |x| => Constrained(Inside(support, i), real_, positive, x[i]))
  }

  /** Inside the support, reality takes the imaginary part away and positivity makes both parts nonnegative
      without changing their size; outside, nothing happens. */
  lemma ConstraintsAct(inside: bool, real_: bool, positive: bool, z: Complex)
    ensures var c := Constrained(inside, real_, positive, z);
            (!inside ==> c == z) && (inside && real_ ==> c.im == 0.0) &&
            (inside && positive ==> c.re >= 0.0 && c.im >= 0.0) &&
            (c.re == z.re || (inside && positive && c.re == -z.re)) &&
            (c.im == z.im || (inside && real_) || (inside && positive && c.im == -z.im))
  {
  }

  /** The two optional loops at the end of an iteration. */
  method ConstrainInPlace(out: array<Complex>, support: array<Complex>, enforceReal: bool, enforcePositivity: bool)
    requires out != support && out.Length == support.Length
    modifies out
    ensures out[..] == ConstrainAll(old(out[..]), support[..], enforceReal, enforcePositivity)
  {
    if enforceReal {
      for i := 0 to out.Length
        invariant forall k :: 0 <= k < i ==>
          out[k] == Constrained(Inside(support[..], k), true, false, old(out[k]))
        invariant forall k :: i <= k < out.Length ==> out[k] == old(out[k])
        invariant support[..] == old(support[..])
      {
        if support[i].re != 0.0 {
          out[i] := Complex(out[i].re, 0.0);
        }
      }
    }
    ghost var flat := out[..];
    if enforcePositivity {
      for i := 0 to out.Length
        invariant forall k :: 0 <= k < i ==> out[k] == Constrained(Inside(support[..], k), false, true, flat[k])
        invariant forall k :: i <= k < out.Length ==> out[k] == flat[k]
        invariant support[..] == old(support[..])
      {
        if support[i].re != 0.0 {
          out[i] := Complex(Abs(out[i].re), Abs(out[i].im));
        }
      }
    }
  }

  // ---------------------------------------------------------------- the optimised difference map

  /** What the loop adds inside the support, for one part, real or imaginary, of a pixel. */
  function Gain(n: real, beta: real, gamma2: real, x: real, p2rho: real): real
    requires n != 0.0
  {
    beta * ((1.0 + gamma2) * p2rho / n - gamma2 * x)
  }

  /** What it takes off everywhere. */
  function Loss(n: real, beta: real, p2f1: real): real
    requires n != 0.0
  {
    beta * p2f1 / n
  }

  function Step(inside: bool, n: real, beta: real, gamma2: real, x: real, p2rho: real, p2f1: real): real
    requires n != 0.0
  {
    (if inside then x + Gain(n, beta, gamma2, x, p2rho) else x) - Loss(n, beta, p2f1)
  }

  function Optimised(inside: bool, n: real, beta: real, gamma2: real, x: Complex, p2rho: Complex, p2f1: Complex)
    : Complex
    requires n != 0.0
  {
    Complex(Step(inside, n, beta, gamma2, x.re, p2rho.re, p2f1.re),
            Step(inside, n, beta, gamma2, x.im, p2rho.im, p2f1.im))
  }

  /** At every pixel the optimised step is the reference step. */
  lemma OptimisedIsReference(o: Optics, x: Picture, support: Picture, beta: real, gamma1: real, gamma2: real, i: nat)
    requires Lawful(o, |x|) && |x| > 0 && |support| == |x| && i < |x|
    ensures var p2f1 := Ifft(o, Modulus(o, Fft(o, F1(x, support, gamma1))));
            var p2rho := Ifft(o, Modulus(o, Fft(o, x)));
            Reference(o, x, support, beta, gamma1, gamma2)[i] ==
            Optimised(Inside(support, i), |x| as real, beta, gamma2, x[i], p2rho[i], p2f1[i])
  {
    var n := |x| as real;
    var p2f1 := Ifft(o, Modulus(o, Fft(o, F1(x, support, gamma1))))[i];
    var p2rho := Ifft(o, Modulus(o, Fft(o, x)))[i];
    F2WithoutTransform(o, x, gamma2, i);
    var p1f2 := OntoSupport(F2(o, Fft(o, x), gamma2), support);
    var scaled := OntoModulus(o, F1(x, support, gamma1));
    assert scaled[i] == Scale(1.0 / n, p2f1);
    SamePixel(Inside(support, i), n, beta, gamma2, x[i], p2rho, p2f1, p1f2[i], scaled[i]);
  }

  lemma SamePixel(inside: bool, n: real, beta: real, gamma2: real, x: Complex, p2rho: Complex, p2f1: Complex,
                  kept: Complex, scaled: Complex)
    requires n > 0.0 && scaled == Scale(1.0 / n, p2f1)
    requires kept == if inside then Minus(Scale((1.0 + gamma2) / n, p2rho), Scale(gamma2, x)) else ZERO
    ensures Plus(Scale(1.0, x), Scale(beta, Plus(Scale(1.0, kept), Scale(-1.0, scaled)))) ==
            Optimised(inside, n, beta, gamma2, x, p2rho, p2f1)
  {
    SameStep(inside, n, beta, gamma2, x.re, p2rho.re, p2f1.re, kept.re, scaled.re);
    SameStep(inside, n, beta, gamma2, x.im, p2rho.im, p2f1.im, kept.im, scaled.im);
    var both := Complex(Added(beta, x.re, kept.re, scaled.re), Added(beta, x.im, kept.im, scaled.im));
    assert Plus(Scale(1.0, x), Scale(beta, Plus(Scale(1.0, kept), Scale(-1.0, scaled)))) == both;
  }

  /** One part of the image with both projections added to it. */
  function Added(beta: real, x: real, kept: real, scaled: real): real {
    1.0 * x + beta * (1.0 * kept + -1.0 * scaled)
  }

  lemma SameStep(inside: bool, n: real, beta: real, gamma2: real, x: real, p2rho: real, p2f1: real, kept: real,
                 scaled: real)
    requires n > 0.0 && scaled == (1.0 / n) * p2f1
    requires kept == if inside then ((1.0 + gamma2) / n) * p2rho - gamma2 * x else 0.0
    ensures Added(beta, x, kept, scaled) == Step(inside, n, beta, gamma2, x, p2rho, p2f1)
  {
    var k := 1.0 / n;
    assert (1.0 + gamma2) / n == (1.0 + gamma2) * k;
    assert (1.0 + gamma2) * p2rho / n == (1.0 + gamma2) * p2rho * k;
    assert beta * p2f1 / n == beta * p2f1 * k;
  }

  /** The loop that accumulates both projections on the image. */
  method AccumulateProjections(out: array<Complex>, realIn: Picture, support: Picture, p2rho: Picture, p2f1: Picture,
                               beta: real, gamma2: real)
    requires out.Length == |realIn| == |support| == |p2rho| == |p2f1| > 0 && out[..] == realIn
    modifies out
    ensures forall k :: 0 <= k < out.Length ==>
      out[k] == Optimised(Inside(support, k), out.Length as real, beta, gamma2, realIn[k], p2rho[k], p2f1[k])
  {
    var size := out.Length as real;
    for i := 0 to out.Length
      invariant forall k :: 0 <= k < i ==>
        out[k] == Optimised(Inside(support, k), size, beta, gamma2, realIn[k], p2rho[k], p2f1[k])
      invariant forall k :: i <= k < out.Length ==> out[k] == realIn[k]
    {
      var re, im := out[i].re, out[i].im;
      if support[i].re != 0.0 {
        re := re + Gain(size, beta, gamma2, realIn[i].re, p2rho[i].re);
        im := im + Gain(size, beta, gamma2, realIn[i].im, p2rho[i].im);
      }
      re := re - Loss(size, beta, p2f1[i].re);
      im := im - Loss(size, beta, p2f1[i].im);
      assert re == Step(Inside(support, i), size, beta, gamma2, realIn[i].re, p2rho[i].re, p2f1[i].re);
      assert im == Step(Inside(support, i), size, beta, gamma2, realIn[i].im, p2rho[i].im, p2f1[i].im);
      out[i] := Complex(re, im);
    }
  }

  /** The optimised iteration, and the constraints after it. */
  method SerialDifferenceMapIteration(o: Optics, realIn: array<Complex>, support: array<Complex>, beta: real,
                                      gamma1: real, gamma2: real, enforceReal: bool, enforcePositivity: bool)
    returns (realOut: array<Complex>)
    requires Lawful(o, realIn.Length) && realIn.Length == support.Length > 0
    ensures fresh(realOut)
    ensures realOut[..] == ConstrainAll(Reference(o, realIn[..], support[..], beta, gamma1, gamma2), support[..],
                                        enforceReal, enforcePositivity)
  {
    var x, s := realIn[..], support[..];
    var f1 := SerialDifferenceMapF1(realIn, support, gamma1);
    var p2f1 := Ifft(o, Modulus(o, Fft(o, f1[..])));
    var p2rho := Ifft(o, Modulus(o, Fft(o, x)));
    var size := realIn.Length;
    realOut := new Complex[size](i requires 0 <= i < size => x[i]);
    assert realOut[..] == x;
    AccumulateProjections(realOut, x, s, p2rho, p2f1, beta, gamma2);
    forall k | 0 <= k < size
      ensures realOut[k] == Reference(o, x, s, beta, gamma1, gamma2)[k]
    {
      OptimisedIsReference(o, x, s, beta, gamma1, gamma2, k);
    }
    assert realOut[..] == Reference(o, x, s, beta, gamma1, gamma2);
    ConstrainInPlace(realOut, support, enforceReal, enforcePositivity);
  }

  // ---------------------------------------------------------------- RAAR

  /** The projection that RAAR's support test means: pixels of a nonzero support value are kept. */
  function Ps(x: Picture, support: Picture): (r: Picture)
    requires |support| == |x|
    ensures |r| == |x|
  {
    seq(|x|, i requires 0 <= i < |x| => if support[i] != ZERO then x[i] else ZERO)
  }

  /** Reflection in a constraint, 2P - I. */
  function Reflected(projected: Picture, x: Picture): (r: Picture)
    requires |projected| == |x|
    ensures |r| == |x|
  {
    Combine(2.0, projected, -1.0, x)
  }

  /** 1/2 beta (Rs Rm + I) + (1 - beta) Pm, given Pm x. */
  function Raar(pm: Picture, x: Picture, support: Picture, beta: real): (r: Picture)
    requires |pm| == |x| == |support|
    ensures |r| == |x|
  {
    var rm := Reflected(pm, x);
    var rsrm := Reflected(Ps(rm, support), rm);
    Combine(1.0, Combine(beta / 2.0, rsrm, beta / 2.0, x), 1.0 - beta, pm)
  }

  /** The update loop, on the image that holds Pm x. */
  method RaarUpdate(out: array<Complex>, realIn: array<Complex>, support: array<Complex>, beta: real)
    requires out != realIn && out != support && out.Length == realIn.Length == support.Length
    modifies out
    ensures out[..] == Raar(old(out[..]), realIn[..], support[..], beta)
  {
    var oneMinusTwoBeta := 1.0 - 2.0 * beta;
    ghost var pm, x, s := out[..], realIn[..], support[..];
    for i := 0 to out.Length
      invariant forall k :: 0 <= k < i ==> out[k] == Raar(pm, x, s, beta)[k]
      invariant forall k :: i <= k < out.Length ==> out[k] == pm[k]
      invariant realIn[..] == x && support[..] == s
    {
      RaarPixel(pm, x, s, beta, i);
      if support[i] == ZERO {
        out[i] := Plus(Scale(oneMinusTwoBeta, out[i]), Scale(beta, realIn[i]));
      }
    }
  }

  /** Inside the support the formula is Pm, outside it is (1 - 2 beta) Pm + beta I. */
  lemma RaarPixel(pm: Picture, x: Picture, support: Picture, beta: real, i: nat)
    requires |pm| == |x| == |support| && i < |x|
    ensures Raar(pm, x, support, beta)[i] ==
            if support[i] != ZERO then pm[i] else Plus(Scale(1.0 - 2.0 * beta, pm[i]), Scale(beta, x[i]))
  {
    var rm := Plus(Scale(2.0, pm[i]), Scale(-1.0, x[i]));
    assert Reflected(pm, x)[i] == rm;
    var ps := if support[i] != ZERO then rm else ZERO;
    assert Ps(Reflected(pm, x), support)[i] == ps;
    var rsrm := Plus(Scale(2.0, ps), Scale(-1.0, rm));
    assert Raar(pm, x, support, beta)[i] ==
           Plus(Scale(1.0, Plus(Scale(beta / 2.0, rsrm), Scale(beta / 2.0, x[i]))), Scale(1.0 - beta, pm[i]));
  }
}
