/** Complex numbers with exact real parts, as the expression operators use them. */
module ComplexNumbers {

  datatype Complex = Complex(re: real, im: real)

  type Picture = seq<Complex>

  const ZERO := Complex(0.0, 0.0)

  const ONE := Complex(1.0, 0.0)

  const MINUS_ONE := Complex(-1.0, 0.0)

  const IMAGINARY_UNIT := Complex(0.0, 1.0)

  function Plus(x: Complex, y: Complex): Complex {
    Complex(x.re + y.re, x.im + y.im)
  }

  function Minus(x: Complex, y: Complex): Complex {
    Complex(x.re - y.re, x.im - y.im)
  }

  function Times(x: Complex, y: Complex): Complex {
    Complex(x.re * y.re - x.im * y.im, x.re * y.im + x.im * y.re)
  }

  function Scale(k: real, x: Complex): Complex {
    Complex(k * x.re, k * x.im)
  }

  /** The squared magnitude: |x| < |y| exactly when Norm(x) < Norm(y). */
  function Norm(x: Complex): real {
    x.re * x.re + x.im * x.im
  }

  lemma ProductPositive(a: real, b: real)
    requires a > 0.0 && b > 0.0
    ensures a * b > 0.0
  {
  }

  /** The same with a name for the product, which keeps later arithmetic linear. */
  lemma NamedProductPositive(a: real, b: real, p: real)
    requires a > 0.0 && b > 0.0 && p == a * b
    ensures p > 0.0
  {
    ProductPositive(a, b);
  }

  lemma NamedSquarePositive(a: real, p: real)
    requires p == a * a
    ensures p >= 0.0
    ensures a != 0.0 ==> p > 0.0
  {
    if a > 0.0 {
      NamedProductPositive(a, a, p);
    } else if a < 0.0 {
      NamedProductPositive(-a, -a, p);
    }
  }

  lemma SquaresPositive(a: real, b: real, n: real)
    requires n == a * a + b * b
    requires a != 0.0 || b != 0.0
    ensures n > 0.0
  {
    var p :| p == a * a;
    var q :| q == b * b;
    NamedSquarePositive(a, p);
    NamedSquarePositive(b, q);
  }

  function Abs(x: real): real {
    if x < 0.0 then -x else x
  }

  /** The value C gives to a truth value stored in a pixel. */
  function Truth(b: bool): Complex {
    if b then ONE else ZERO
  }
}
