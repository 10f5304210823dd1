/** The schedule curve: a cubic Bezier segment per pair of knots, inverted in closed form. */
module Bezier {
  import opened ComplexNumbers

  // ---------------------------------------------------------------- the curve

  /** The abscissa of the segment at t: both inner control points stand at the middle. */
  function Abscissa(a: real, b: real, t: real): real {
    var mid, u := (a + b) / 2.0, 1.0 - t;
    a * u * u * u + 3.0 * mid * t * u * u + 3.0 * mid * t * t * u + b * t * t * t
  }

  /** The ordinate of the segment at t: the inner control points repeat the end values. */
  function Ordinate(y0: real, y3: real, t: real): real {
    var u := 1.0 - t;
    3.0 * y0 * t * (u * u) + y0 * (u * u * u) + 3.0 * y3 * u * (t * t) + y3 * (t * t * t)
  }

  /** Part of the way between two numbers. */
  function Mix(p: real, q: real, t: real): real {
    (1.0 - t) * p + t * q
  }

  /** A cubic Bezier curve by repeated mixing of its four control points. */
  function Casteljau(p0: real, p1: real, p2: real, p3: real, t: real): real {
    Mix(Mix(Mix(p0, p1, t), Mix(p1, p2, t), t), Mix(Mix(p1, p2, t), Mix(p2, p3, t), t), t)
  }

  /** The segment is the Bezier curve with control points (a, y0), (mid, y0), (mid, y3) and (b, y3). */
  lemma SegmentIsBezier(a: real, b: real, y0: real, y3: real, t: real)
    ensures Abscissa(a, b, t) == Casteljau(a, (a + b) / 2.0, (a + b) / 2.0, b, t)
    ensures Ordinate(y0, y3, t) == Casteljau(y0, y0, y3, y3, t)
  {
  }

  // ---------------------------------------------------------------- the closed form

  /** Square root and cube root, exact where they are used. */
  datatype Roots = Roots(sqrt: real -> real, cbrt: real -> real)

  ghost predicate Exact(r: Roots) {
    (forall y: real :: y >= 0.0 ==> r.sqrt(y) >= 0.0 && r.sqrt(y) * r.sqrt(y) == y) &&
    (forall y: real :: y > 0.0 ==> r.cbrt(y) > 0.0 && r.cbrt(y) * r.cbrt(y) * r.cbrt(y) == y)
  }

  /** The expression under the square root. */
  function Discriminant(a: real, b: real, x: real): real {
    var d := a - b;
    (d * d * d * d) *
    (6.0 * a * b - 16.0 * a * x - 16.0 * b * x + 5.0 * (a * a) + 5.0 * (b * b) + 16.0 * (x * x))
  }

  /** The expression in front of the square root. */
  function Linear(a: real, b: real, x: real): real {
    8.0 * a * b * x - 2.0 * b * (a * a) - 4.0 * x * (a * a) + 2.0 * (a * a * a) - 2.0 * a * (b * b) -
    4.0 * x * (b * b) + 2.0 * (b * b * b)
  }

  /** The expression under the cube root. */
  function Radicand(r: Roots, a: real, b: real, x: real): real {
    Linear(a, b, x) + r.sqrt(Discriminant(a, b, x))
  }

  /** The parameter of the curve at abscissa x, as the program computes it. */
  function ClosedForm(r: Roots, a: real, b: real, x: real): real
    requires a != b && r.cbrt(Radicand(r, a, b, x)) != 0.0
  {
    var c := r.cbrt(Radicand(r, a, b, x));
    (2.0 - 2.0 * (a - b) * (1.0 / c) + 2.0 * (1.0 / (a - b)) * c) / 4.0
  }

  // ---------------------------------------------------------------- polynomial identities

  lemma LinearFactors(a: real, b: real, x: real, w: real, s: real)
    requires w == b - a && s == a + b - 2.0 * x
    ensures Linear(a, b, x) == 2.0 * (w * w) * s
  {
  }

  lemma DiscriminantFactors(a: real, b: real, x: real, w: real, s: real)
    requires w == b - a && s == a + b - 2.0 * x
    ensures Discriminant(a, b, x) == (w * w * w * w) * (4.0 * (s * s) + w * w)
  {
  }

  /** The cubic that the position e = w(1 - 2t) solves. */
  function Depressed(w: real, e: real): real {
    e * e * e + 3.0 * (w * w) * e
  }

  lemma AbscissaDepressed(a: real, b: real, t: real, w: real, e: real)
    requires w == b - a && e == w * (1.0 - 2.0 * t)
    ensures 8.0 * (w * w) * Abscissa(a, b, t) == 4.0 * (w * w) * (a + b) - Depressed(w, e)
  {
  }

  // ---------------------------------------------------------------- the cubic has one root

  lemma SumOfSquaresPositive(w: real, e1: real, e2: real, f: real)
    requires w > 0.0 && f == e2 * e2 + e1 * e2 + e1 * e1 + 3.0 * (w * w)
    ensures f > 0.0
  {
    var p1 :| p1 == e1 * e1;
    var p2 :| p2 == e2 * e2;
    var p3 :| p3 == (e1 + e2) * (e1 + e2);
    var p4 :| p4 == w * w;
    NamedSquarePositive(e1, p1);
    NamedSquarePositive(e2, p2);
    NamedSquarePositive(e1 + e2, p3);
    NamedSquarePositive(w, p4);
    assert 2.0 * f == p3 + p1 + p2 + 6.0 * p4;
  }

  /** The depressed cubic is strictly increasing. */
  lemma DepressedIncreases(w: real, e1: real, e2: real)
    requires w > 0.0 && e1 < e2
    ensures Depressed(w, e1) < Depressed(w, e2)
  {
    var f :| f == e2 * e2 + e1 * e2 + e1 * e1 + 3.0 * (w * w);
    SumOfSquaresPositive(w, e1, e2, f);
    var g :| g == (e2 - e1) * f;
    NamedProductPositive(e2 - e1, f, g);
    assert Depressed(w, e2) - Depressed(w, e1) == g;
  }

  /** The two conjugate radicands are positive. */
  lemma ConjugatesPositive(w: real, s: real, root: real, big: real, small: real)
    requires w > 0.0 && root >= 0.0
    requires root * root == (w * w * w * w) * (4.0 * (s * s) + w * w)
    requires big == 2.0 * (w * w) * s + root && small == root - 2.0 * (w * w) * s
    ensures big > 0.0 && small > 0.0 && big * small == w * w * w * w * w * w
  {
    assert big * small == root * root - 4.0 * (w * w * w * w) * (s * s);
    SixthPowerPositive(w, big * small);
    if big <= 0.0 {
      OppositeSigns(-big, small, big * small);
    } else if small <= 0.0 {
      OppositeSigns(-small, big, big * small);
    }
  }

  lemma SixthPowerPositive(w: real, p: real)
    requires w > 0.0 && p == w * w * w * w * w * w
    ensures p > 0.0
  {
    var w2 :| w2 == w * w;
    NamedProductPositive(w, w, w2);
    var w3 :| w3 == w2 * w;
    NamedProductPositive(w2, w, w3);
    NamedProductPositive(w3, w3, p);
  }

  /** A nonpositive number and one at least as large as its opposite have no positive product. */
  lemma OppositeSigns(m: real, n: real, p: real)
    requires m >= 0.0 && n >= m && p == -m * n
    ensures p <= 0.0
  {
    if m > 0.0 {
      NamedProductPositive(m, n, -p);
    }
  }

  /** Cardano: the difference of the two cube roots solves the depressed cubic. */
  lemma CardanoSolves(w: real, s: real, big: real, small: real, c: real, d: real)
    requires w > 0.0 && big > 0.0 && c * c * c == big && c * d == w * w
    requires big * small == w * w * w * w * w * w && big - small == 4.0 * (w * w) * s
    ensures Depressed(w, c - d) == 4.0 * (w * w) * s
  {
    assert big * (d * d * d) == (c * d) * (c * d) * (c * d);
    assert (c * d) * (c * d) * (c * d) == w * w * w * w * w * w;
    CancelFactor(big, d * d * d, small);
    assert (c - d) * (c - d) * (c - d) == c * c * c - d * d * d - 3.0 * (c * d) * (c - d);
  }

  lemma CancelFactor(k: real, x: real, y: real)
    requires k > 0.0 && k * x == k * y
    ensures x == y
  {
    if x < y {
      ProductPositive(k, y - x);
    } else if y < x {
      ProductPositive(k, x - y);
    }
  }

  // ---------------------------------------------------------------- the closed form is the root

  lemma DiscriminantNonnegative(a: real, b: real, x: real)
    requires a < b
    ensures Discriminant(a, b, x) >= 0.0
  {
    var w, s := b - a, a + b - 2.0 * x;
    DiscriminantFactors(a, b, x, w, s);
    var p :| p == w * w * w * w;
    var q :| q == w * w;
    NamedSquarePositive(w, q);
    assert p == q * q;
    NamedSquarePositive(q, p);
    var s2 :| s2 == s * s;
    NamedSquarePositive(s, s2);
    NamedProductPositive(p, 4.0 * s2 + q, Discriminant(a, b, x));
  }

  /** The square root is taken of something nonnegative and the cube root of something positive. */
  lemma ClosedFormDefined(r: Roots, a: real, b: real, x: real)
    requires Exact(r) && a < b
    ensures Discriminant(a, b, x) >= 0.0 && Radicand(r, a, b, x) > 0.0
    ensures r.cbrt(Radicand(r, a, b, x)) > 0.0
  {
    var w, s := b - a, a + b - 2.0 * x;
    DiscriminantNonnegative(a, b, x);
    DiscriminantFactors(a, b, x, w, s);
    LinearFactors(a, b, x, w, s);
    var root := r.sqrt(Discriminant(a, b, x));
    ConjugatesPositive(w, s, root, Radicand(r, a, b, x), root - 2.0 * (w * w) * s);
  }

  /** The position e = w(1 - 2t) of the closed form solves the depressed cubic. */
  lemma ClosedFormSolves(r: Roots, a: real, b: real, x: real)
    requires Exact(r) && a < b
    ensures r.cbrt(Radicand(r, a, b, x)) != 0.0
    ensures var w, s := b - a, a + b - 2.0 * x;
            Depressed(w, w * (1.0 - 2.0 * ClosedForm(r, a, b, x))) == 4.0 * (w * w) * s
  {
    var w, s := b - a, a + b - 2.0 * x;
    ClosedFormDefined(r, a, b, x);
    DiscriminantFactors(a, b, x, w, s);
    LinearFactors(a, b, x, w, s);
    var root := r.sqrt(Discriminant(a, b, x));
    var big := Radicand(r, a, b, x);
    var small := root - 2.0 * (w * w) * s;
    ConjugatesPositive(w, s, root, big, small);
    var c := r.cbrt(big);
    var d := w * w / c;
    CardanoSolves(w, s, big, small, c, d);
    PositionOfClosedForm(w, c, d, a - b, ClosedForm(r, a, b, x));
  }

  lemma PositionOfClosedForm(w: real, c: real, d: real, minus: real, t: real)
    requires w > 0.0 && c > 0.0 && c * d == w * w && minus == -w
    requires t == (2.0 - 2.0 * minus * (1.0 / c) + 2.0 * (1.0 / minus) * c) / 4.0
    ensures w * (1.0 - 2.0 * t) == c - d
  {
    var i := 1.0 / c;
    var j := 1.0 / minus;
    assert i * c == 1.0 && j * w == -1.0;
    assert w * w * i == c * d * i == d * (c * i) == d;
    assert w * j * c == -c;
    assert 4.0 * t == 2.0 + 2.0 * w * i + 2.0 * j * c;
    assert 4.0 * (w * t) == 2.0 * w + 2.0 * (w * w * i) + 2.0 * (w * j * c);
  }

  /** Positions that solve the cubic are parameters of the abscissa x. */
  lemma RootsAreAbscissae(a: real, b: real, x: real, t: real)
    requires a < b
    ensures var w, s := b - a, a + b - 2.0 * x;
            Abscissa(a, b, t) == x <==> Depressed(w, w * (1.0 - 2.0 * t)) == 4.0 * (w * w) * s
  {
    var w, s := b - a, a + b - 2.0 * x;
    AbscissaDepressed(a, b, t, w, w * (1.0 - 2.0 * t));
    var w2 :| w2 == w * w;
    NamedProductPositive(w, w, w2);
    var k := 8.0 * w2;
    if Depressed(w, w * (1.0 - 2.0 * t)) == 4.0 * (w * w) * s {
      assert k * Abscissa(a, b, t) == 4.0 * (w * w) * (a + b) - 4.0 * (w * w) * s == k * x;
      CancelFactor(k, Abscissa(a, b, t), x);
    }
  }

  /** Different parameters have different abscissae. */
  lemma AbscissaIncreases(a: real, b: real, t1: real, t2: real)
    requires a < b && t1 < t2
    ensures Abscissa(a, b, t1) < Abscissa(a, b, t2)
  {
    var w := b - a;
    var e1, e2 := w * (1.0 - 2.0 * t1), w * (1.0 - 2.0 * t2);
    var gap :| gap == w * (t2 - t1);
    NamedProductPositive(w, t2 - t1, gap);
    assert e1 - e2 == 2.0 * gap;
    DepressedIncreases(w, e2, e1);
    AbscissaDepressed(a, b, t1, w, e1);
    AbscissaDepressed(a, b, t2, w, e2);
    var w2 :| w2 == w * w;
    NamedProductPositive(w, w, w2);
    var k := 8.0 * w2;
    assert k * Abscissa(a, b, t1) < k * Abscissa(a, b, t2);
    SmallerFactor(k, Abscissa(a, b, t1), Abscissa(a, b, t2));
  }

  lemma SmallerFactor(k: real, x: real, y: real)
    requires k > 0.0 && k * x < k * y
    ensures x < y
  {
    if y < x {
      ProductPositive(k, x - y);
    }
  }

  lemma AbscissaAtEnds(a: real, b: real)
    ensures Abscissa(a, b, 0.0) == a && Abscissa(a, b, 1.0) == b
  {
  }

  /** Cardano's formula gives the one parameter of the abscissa x, and it lies on the segment exactly
      when x does. */
  lemma ClosedFormIsTheRoot(r: Roots, a: real, b: real, x: real)
    requires Exact(r) && a < b
    ensures r.cbrt(Radicand(r, a, b, x)) != 0.0
    ensures Abscissa(a, b, ClosedForm(r, a, b, x)) == x
    ensures forall t: real :: Abscissa(a, b, t) == x ==> t == ClosedForm(r, a, b, x)
    ensures a <= x <= b <==> 0.0 <= ClosedForm(r, a, b, x) <= 1.0
  {
    ClosedFormSolves(r, a, b, x);
    var root := ClosedForm(r, a, b, x);
    RootsAreAbscissae(a, b, x, root);
    forall t: real | Abscissa(a, b, t) == x ensures t == root {
      if t < root {
        AbscissaIncreases(a, b, t, root);
      } else if root < t {
        AbscissaIncreases(a, b, root, t);
      }
    }
    AbscissaAtEnds(a, b);
    if root < 0.0 {
      AbscissaIncreases(a, b, root, 0.0);
    } else if root > 0.0 {
      AbscissaIncreases(a, b, 0.0, root);
    }
    if root > 1.0 {
      AbscissaIncreases(a, b, 1.0, root);
    } else if root < 1.0 {
      AbscissaIncreases(a, b, root, 1.0);
    }
  }

  // ---------------------------------------------------------------- the value between two knots

  function Blend(t: real): real {
    3.0 * t * t - 2.0 * t * t * t
  }

  /** The blend rises from zero to one. */
  lemma BlendRises(t1: real, t2: real)
    requires 0.0 <= t1 <= t2 <= 1.0
    ensures Blend(t1) <= Blend(t2)
  {
    var g :| g == 3.0 * (t1 + t2) - 2.0 * (t1 * t1 + t1 * t2 + t2 * t2);
    SlopeNonnegative(t1, t2, g);
    assert Blend(t2) - Blend(t1) == (t2 - t1) * g;
    if t1 < t2 && g > 0.0 {
      ProductPositive(t2 - t1, g);
    }
  }

  lemma SlopeNonnegative(t1: real, t2: real, g: real)
    requires 0.0 <= t1 <= t2 <= 1.0
    requires g == 3.0 * (t1 + t2) - 2.0 * (t1 * t1 + t1 * t2 + t2 * t2)
    ensures g >= 0.0
  {
    var p1 :| p1 == t1 * (1.0 - t1);
    var p2 :| p2 == t2 * (1.0 - t2);
    var p3 :| p3 == t1 * (1.0 - t2);
    var p4 :| p4 == t2 * (1.0 - t1);
    NonnegativeProduct(t1, 1.0 - t1, p1);
    NonnegativeProduct(t2, 1.0 - t2, p2);
    NonnegativeProduct(t1, 1.0 - t2, p3);
    NonnegativeProduct(t2, 1.0 - t1, p4);
    assert g == 2.0 * p1 + 2.0 * p2 + p3 + p4;
  }

  lemma NonnegativeProduct(x: real, y: real, p: real)
    requires x >= 0.0 && y >= 0.0 && p == x * y
    ensures p >= 0.0
  {
    if x > 0.0 && y > 0.0 {
      NamedProductPositive(x, y, p);
    }
  }

  /** A part of the way from one value to another. */
  function Part(way: real, fraction: real): real {
    way * fraction
  }

  /** The ordinate moves from the first value to the second as the blend rises. */
  lemma OrdinateBlends(y0: real, y3: real, t: real)
    ensures Ordinate(y0, y3, t) == y0 + Part(y3 - y0, Blend(t))
  {
  }

  lemma OrdinateAtStart(y0: real, y3: real)
    ensures Ordinate(y0, y3, 0.0) == y0
  {
  }

  /** Between the end values, and on the way from the first to the second. */
  lemma OrdinateRises(y0: real, y3: real, t1: real, t2: real)
    requires 0.0 <= t1 <= t2 <= 1.0
    ensures y0 <= y3 ==> y0 <= Ordinate(y0, y3, t1) <= Ordinate(y0, y3, t2) <= y3
    ensures y0 >= y3 ==> y0 >= Ordinate(y0, y3, t1) >= Ordinate(y0, y3, t2) >= y3
  {
    BlendEnds();
    BlendRises(0.0, t1);
    BlendRises(t1, t2);
    BlendRises(t2, 1.0);
    OrdinateBlends(y0, y3, t1);
    OrdinateBlends(y0, y3, t2);
    PartsInOrder(y3 - y0, Blend(t1), Blend(t2));
  }

  lemma BlendEnds()
    ensures Blend(0.0) == 0.0 && Blend(1.0) == 1.0
  {
  }

  lemma PartsInOrder(k: real, x: real, y: real)
    requires 0.0 <= x <= y <= 1.0
    ensures k >= 0.0 ==> 0.0 <= Part(k, x) <= Part(k, y) <= k
    ensures k <= 0.0 ==> 0.0 >= Part(k, x) >= Part(k, y) >= k
  {
    var p1 :| p1 == k * x;
    var p2 :| p2 == k * (y - x);
    var p3 :| p3 == k * (1.0 - y);
    if k >= 0.0 {
      NonnegativeProduct(k, x, p1);
      NonnegativeProduct(k, y - x, p2);
      NonnegativeProduct(k, 1.0 - y, p3);
    } else {
      NonnegativeProduct(-k, x, -p1);
      NonnegativeProduct(-k, y - x, -p2);
      NonnegativeProduct(-k, 1.0 - y, -p3);
    }
  }

  // ---------------------------------------------------------------- the whole schedule

  ghost predicate Increasing(keys: seq<real>) {
    forall i, j :: 0 <= i < j < |keys| ==> keys[i] < keys[j]
  }

  /** The number of knots at or before x. */
  function Position(keys: seq<real>, x: real, i: nat := 0): (idx: nat)
    requires i <= |keys|
    ensures i <= idx <= |keys|
    decreases |keys| - i
  {
    if i == |keys| || x < keys[i] then i else Position(keys, x, i + 1)
  }

  /** The value of the segment that ends at knot idx. */
  function OnSegment(r: Roots, keys: seq<real>, values: seq<real>, idx: nat, x: real): real
    requires Exact(r) && Increasing(keys) && |values| == |keys| && 0 < idx < |keys|
  {
    ClosedFormDefined(r, keys[idx - 1], keys[idx], x);
    Ordinate(values[idx - 1], values[idx], ClosedForm(r, keys[idx - 1], keys[idx], x))
  }

  function Interpolate(r: Roots, keys: seq<real>, values: seq<real>, x: real): real
    requires Exact(r) && Increasing(keys) && |values| == |keys| > 0
  {
    var idx := Position(keys, x);
    if idx == 0 then values[0]
    else if idx == |keys| then values[|keys| - 1]
    else OnSegment(r, keys, values, idx, x)
  }

  /** The scan for the segment and the formula. */
  method BezierMapInterpolation(r: Roots, keys: seq<real>, values: seq<real>, x: real) returns (y: real)
    requires Exact(r) && Increasing(keys) && |values| == |keys| > 0
    ensures y == Interpolate(r, keys, values, x) && OnCurve(keys, values, x, y)
  {
    ScheduleOnCurve(r, keys, values, x);
    var idx := 0;
    while idx < |keys|
      invariant idx <= |keys| && Position(keys, x) == Position(keys, x, idx)
    {
      if x < keys[idx] {
        break;
      }
      idx := idx + 1;
    }
    if idx == 0 {
      return values[0];
    }
    if idx == |keys| {
      return values[|keys| - 1];
    }
    var p0y, p0x, p3y, p3x := values[idx - 1], keys[idx - 1], values[idx], keys[idx];
    ClosedFormDefined(r, p0x, p3x, x);
    var t := ClosedForm(r, p0x, p3x, x);
    y := Ordinate(p0y, p3y, t);
  }

  lemma {:induction false} PositionSeparates(keys: seq<real>, x: real, i: nat)
    requires i <= |keys| && (i > 0 ==> keys[i - 1] <= x)
    ensures var idx := Position(keys, x, i);
            (idx > 0 ==> keys[idx - 1] <= x) && (idx < |keys| ==> x < keys[idx])
    decreases |keys| - i
  {
    if i < |keys| && keys[i] <= x {
      PositionSeparates(keys, x, i + 1);
    }
  }

  /** Where x lies between two neighbouring knots, its position is that of the second. */
  lemma PositionIs(keys: seq<real>, x: real, idx: nat)
    requires Increasing(keys) && idx <= |keys|
    requires (idx > 0 ==> keys[idx - 1] <= x) && (idx < |keys| ==> x < keys[idx])
    ensures Position(keys, x) == idx
  {
    PositionSeparates(keys, x, 0);
  }

  /** If the segment from knot i has the abscissa x at the parameter t, it has the ordinate y there. */
  ghost predicate AtParameter(keys: seq<real>, values: seq<real>, x: real, y: real, i: nat, t: real)
    requires |values| == |keys| && i + 1 < |keys|
  {
    keys[i] <= x < keys[i + 1] && Abscissa(keys[i], keys[i + 1], t) == x ==> y == Ordinate(values[i], values[i + 1], t)
  }

  /** Between two knots, the value at every parameter of the abscissa x; outside, that of the end. */
  ghost predicate OnCurve(keys: seq<real>, values: seq<real>, x: real, y: real)
    requires |values| == |keys| > 0
  {
    (forall i: nat, t: real :: i + 1 < |keys| ==> AtParameter(keys, values, x, y, i, t)) &&
    (x < keys[0] ==> y == values[0]) && (x >= keys[|keys| - 1] ==> y == values[|keys| - 1])
  }

  lemma SegmentOnCurve(r: Roots, keys: seq<real>, values: seq<real>, x: real, i: nat, t: real)
    requires Exact(r) && Increasing(keys) && |values| == |keys| && i + 1 < |keys|
    requires keys[i] <= x < keys[i + 1] && Abscissa(keys[i], keys[i + 1], t) == x
    ensures Interpolate(r, keys, values, x) == Ordinate(values[i], values[i + 1], t)
  {
    PositionIs(keys, x, i + 1);
    ClosedFormIsTheRoot(r, keys[i], keys[i + 1], x);
  }

  /** The schedule lies on the curve. */
  lemma ScheduleOnCurve(r: Roots, keys: seq<real>, values: seq<real>, x: real)
    requires Exact(r) && Increasing(keys) && |values| == |keys| > 0
    ensures OnCurve(keys, values, x, Interpolate(r, keys, values, x))
  {
    forall i: nat, t: real | i + 1 < |keys|
      ensures AtParameter(keys, values, x, Interpolate(r, keys, values, x), i, t)
    {
      if keys[i] <= x < keys[i + 1] && Abscissa(keys[i], keys[i + 1], t) == x {
        SegmentOnCurve(r, keys, values, x, i, t);
      }
    }
    ClampedOutside(r, keys, values, x);
  }

  /** From 0 to 1 in one segment: at 19/64 the schedule is at 5/32, a quarter of the way along the curve. */
  lemma QuarterOfTheWay(r: Roots)
    requires Exact(r)
    ensures Increasing([0.0, 1.0])
    ensures Interpolate(r, [0.0, 1.0], [0.0, 1.0], 19.0 / 64.0) == 5.0 / 32.0
  {
    var keys, values := [0.0, 1.0], [0.0, 1.0];
    SegmentOnCurve(r, keys, values, 19.0 / 64.0, 0, 0.25);
  }

  /** Before the first knot and after the last one the schedule stays at their values. */
  lemma ClampedOutside(r: Roots, keys: seq<real>, values: seq<real>, x: real)
    requires Exact(r) && Increasing(keys) && |values| == |keys| > 0
    ensures x < keys[0] ==> Interpolate(r, keys, values, x) == values[0]
    ensures x >= keys[|keys| - 1] ==> Interpolate(r, keys, values, x) == values[|keys| - 1]
  {
    if x < keys[0] {
      PositionIs(keys, x, 0);
    }
    if x >= keys[|keys| - 1] {
      PositionIs(keys, x, |keys|);
    }
  }

  /** The schedule passes through its knots. */
  lemma ThroughKnots(r: Roots, keys: seq<real>, values: seq<real>, i: nat)
    requires Exact(r) && Increasing(keys) && |values| == |keys| && i < |keys|
    ensures Interpolate(r, keys, values, keys[i]) == values[i]
  {
    PositionIs(keys, keys[i], i + 1);
    if i + 1 < |keys| {
      var a, b := keys[i], keys[i + 1];
      ClosedFormIsTheRoot(r, a, b, a);
      AbscissaAtEnds(a, b);
      OrdinateAtStart(values[i], values[i + 1]);
    }
  }

  /** Between two knots the schedule stays between their values and runs from the first to the second. */
  lemma MonotoneBetweenKnots(r: Roots, keys: seq<real>, values: seq<real>, i: nat, x1: real, x2: real)
    requires Exact(r) && Increasing(keys) && |values| == |keys| && i + 1 < |keys|
    requires keys[i] <= x1 <= x2 < keys[i + 1]
    ensures var y1, y2 := Interpolate(r, keys, values, x1), Interpolate(r, keys, values, x2);
            (values[i] <= values[i + 1] ==> values[i] <= y1 <= y2 <= values[i + 1]) &&
            (values[i] >= values[i + 1] ==> values[i] >= y1 >= y2 >= values[i + 1])
  {
    var a, b := keys[i], keys[i + 1];
    PositionIs(keys, x1, i + 1);
    PositionIs(keys, x2, i + 1);
    ClosedFormIsTheRoot(r, a, b, x1);
    ClosedFormIsTheRoot(r, a, b, x2);
    var t1, t2 := ClosedForm(r, a, b, x1), ClosedForm(r, a, b, x2);
    if t2 < t1 {
      AbscissaIncreases(a, b, t2, t1);
    }
    OrdinateRises(values[i], values[i + 1], t1, t2);
  }

  ghost predicate Rising(values: seq<real>) {
    forall i, j :: 0 <= i <= j < |values| ==> values[i] <= values[j]
  }

  /** Bounds on the value at a position, for rising values. */
  lemma WithinNeighbours(r: Roots, keys: seq<real>, values: seq<real>, x: real)
    requires Exact(r) && Increasing(keys) && |values| == |keys| > 0 && Rising(values)
    ensures var idx, y := Position(keys, x), Interpolate(r, keys, values, x);
            (idx > 0 ==> values[idx - 1] <= y) && (idx < |keys| ==> y <= values[idx])
  {
    var idx := Position(keys, x);
    PositionSeparates(keys, x, 0);
    if 0 < idx < |keys| {
      MonotoneBetweenKnots(r, keys, values, idx - 1, x, x);
    }
  }

  /** A schedule with rising values rises everywhere. */
  lemma RisingScheduleRises(r: Roots, keys: seq<real>, values: seq<real>, x1: real, x2: real)
    requires Exact(r) && Increasing(keys) && |values| == |keys| > 0 && Rising(values) && x1 <= x2
    ensures Interpolate(r, keys, values, x1) <= Interpolate(r, keys, values, x2)
  {
    var i, j := Position(keys, x1), Position(keys, x2);
    PositionSeparates(keys, x1, 0);
    PositionSeparates(keys, x2, 0);
    WithinNeighbours(r, keys, values, x1);
    WithinNeighbours(r, keys, values, x2);
    if i < j {
      assert values[i] <= values[j - 1];
    } else if i == j && 0 < i < |keys| {
      MonotoneBetweenKnots(r, keys, values, i - 1, x1, x2);
    }
  }
}
