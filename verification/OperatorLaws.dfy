/** What every operator gives, pixel by pixel, from the string in which it is written. */
module OperatorLaws {
  import opened ComplexNumbers
  import opened Operators
  import opened Machine
  import opened Expressions
  import opened Compiler
  import opened Calculator

  /** The number a value has at a pixel; a scalar has the same everywhere. */
  function Part(v: Value, p: nat): Complex {
    match v
    case Image(s) => if p < |s| then s[p].z else ZERO
    case Scalar(z) => z
    case Bad(_) => ZERO
  }

  /** A value that is no error, and if an image, one of the given size. */
  predicate Sized(v: Value, size: nat) {
    !v.Bad? && (v.Image? ==> |v.pixels| == size)
  }

  /** Whether v has at a pixel the mask that w has there. */
  predicate SameMask(v: Value, w: Value, p: nat) {
    v.Image? && w.Image? && p < |v.pixels| && p < |w.pixels| && v.pixels[p].mask == w.pixels[p].mask
  }

  predicate IsProduct(a: Complex, b: Complex, z: Complex) {
    z.re == a.re * b.re - a.im * b.im && z.im == a.re * b.im + a.im * b.re
  }

  predicate Lit(a: Complex) {
    a.re != 0.0 || a.im != 0.0
  }

  /** One for true, zero for false. */
  predicate Says(z: Complex, c: bool) {
    z.re == (if c then 1.0 else 0.0) && z.im == 0.0
  }

  predicate LowerOf(a: real, b: real, c: real) {
    c <= a && c <= b && (c == a || c == b)
  }

  /** Each part inverted for itself, zero staying zero. */
  predicate PartsInverted(b: Complex, w: Complex) {
    (if b.re == 0.0 then w.re == 0.0 else w.re * b.re == 1.0) &&
    (if b.im == 0.0 then w.im == 0.0 else w.im * b.im == 1.0)
  }

  // ---------------------------------------------------------------- operators of two operands

  /** What the operator makes of a number of its first operand and one of its second. */
  ghost predicate PairLaw(lib: Library, n: Name, ofImage: bool, a: Complex, b: Complex, z: Complex) {
    match n
    case Addition => z.re == a.re + b.re && z.im == a.im + b.im
    case Subtraction => z.re + b.re == a.re && z.im + b.im == a.im
    case Multiplication => IsProduct(a, b, z)
    case Division =>
      if ofImage then IsProduct(a, lib.invert(b), z) else exists w :: PartsInverted(b, w) && IsProduct(a, w, z)
    case SmallerThan => Says(z, a.re * a.re + a.im * a.im < b.re * b.re + b.im * b.im)
    case GreaterThan => Says(z, b.re * b.re + b.im * b.im < a.re * a.re + a.im * a.im)
    case LogicalAnd => Says(z, Lit(a) && Lit(b))
    case LogicalOr => Says(z, Lit(a) || Lit(b))
    case Equality => Says(z, a.re == b.re && a.im == b.im)
    case Minimum => LowerOf(a.re, b.re, z.re) && LowerOf(a.im, b.im, z.im)
    case Maximum => LowerOf(-a.re, -b.re, -z.re) && LowerOf(-a.im, -b.im, -z.im)
    case Exponentiation => z == lib.cpow(a, b)
    case _ => false
  }

  /** The operators whose result on two images lies in the first one. */
  predicate InFirst(n: Name) {
    n in {SmallerThan, GreaterThan, LogicalAnd, LogicalOr, Equality, Exponentiation}
  }

  ghost predicate PairAt(lib: Library, n: Name, x: Value, y: Value, v: Value, p: nat) {
    PairLaw(lib, n, y.Image?, Part(x, p), Part(y, p), Part(v, p))
  }

  /** The operand whose buffer takes the result. */
  function Taker(n: Name, x: Value, y: Value): Value {
    if x.Image? && (InFirst(n) || !y.Image?) then x else y
  }

  /** The result of an operator on two operands: an image exactly when one of them is, with the law at every
      pixel, and the mask of the operand whose buffer it takes. */
  ghost predicate PairResult(lib: Library, n: Name, x: Value, y: Value, v: Value, size: nat) {
    Sized(v, size) && (v.Image? <==> x.Image? || y.Image?) &&
    (forall p: nat :: p < size || v.Scalar? ==> PairAt(lib, n, x, y, v, p)) &&
    (forall p: nat :: p < size && v.Image? ==> SameMask(v, Taker(n, x, y), p))
  }

  predicate IsPair(n: Name) {
    IsInfix(n) || n == Minimum || n == Maximum
  }

  lemma OnPairObeys(lib: Library, n: Name, a: Complex, b: Complex, image: bool)
    requires IsPair(n) && n != Subtraction && n != Division && n != Exponentiation
    ensures PairLaw(lib, n, image, a, b, OnPair(n, a, b))
  {
  }

  lemma ZipAt(n: Name, x: Value, y: Value, size: nat, p: nat)
    requires Sized(x, size) && Sized(y, size)
    ensures Sized(Zip(n, x, y), size) && (Zip(n, x, y).Image? <==> x.Image? || y.Image?)
    ensures p < size || Zip(n, x, y).Scalar? ==> Part(Zip(n, x, y), p) == OnPair(n, Part(x, p), Part(y, p))
    ensures p < size && Zip(n, x, y).Image? ==>
      SameMask(Zip(n, x, y), if x.Image? && (!KeepsSecond(n) || !y.Image?) then x else y, p)
  {
  }

  /** Law and mask at one pixel. */
  ghost predicate PairHolds(lib: Library, n: Name, x: Value, y: Value, v: Value, size: nat, p: nat) {
    (p < size || v.Scalar? ==> PairAt(lib, n, x, y, v, p)) &&
    (p < size && v.Image? ==> SameMask(v, Taker(n, x, y), p))
  }

  lemma PairHoldsEverywhere(lib: Library, n: Name, x: Value, y: Value, v: Value, size: nat)
    requires Sized(v, size) && (v.Image? <==> x.Image? || y.Image?)
    requires forall p: nat :: PairHolds(lib, n, x, y, v, size, p)
    ensures PairResult(lib, n, x, y, v, size)
  {
    forall p: nat | p < size || v.Scalar? ensures PairAt(lib, n, x, y, v, p) {
      assert PairHolds(lib, n, x, y, v, size, p);
    }
    forall p: nat | p < size && v.Image? ensures SameMask(v, Taker(n, x, y), p) {
      assert PairHolds(lib, n, x, y, v, size, p);
    }
  }

  lemma ZipHolds(lib: Library, n: Name, x: Value, y: Value, v: Value, size: nat, p: nat)
    requires IsPair(n) && n != Subtraction && n != Division && n != Exponentiation
    requires Sized(x, size) && Sized(y, size) && v == Zip(n, x, y)
    ensures PairHolds(lib, n, x, y, v, size, p)
  {
    OnPairObeys(lib, n, Part(x, p), Part(y, p), y.Image?);
    ZipAt(n, x, y, size, p);
  }

  lemma ZipObeys(lib: Library, n: Name, x: Value, y: Value, v: Value, size: nat)
    requires IsPair(n) && n != Subtraction && n != Division && n != Exponentiation
    requires Sized(x, size) && Sized(y, size) && v == Zip(n, x, y)
    ensures PairResult(lib, n, x, y, v, size)
  {
    ZipAt(n, x, y, size, 0);
    forall p: nat ensures PairHolds(lib, n, x, y, v, size, p) {
      ZipHolds(lib, n, x, y, v, size, p);
    }
    PairHoldsEverywhere(lib, n, x, y, v, size);
  }

  lemma OppositeAt(y: Value, size: nat, p: nat)
    requires Sized(y, size)
    ensures Sized(Opposite(y), size) && (Opposite(y).Image? <==> y.Image?)
    ensures p < size || y.Scalar? ==> Part(Opposite(y), p) == Complex(-Part(y, p).re, -Part(y, p).im)
    ensures p < size && y.Image? ==> SameMask(Opposite(y), y, p)
  {
  }

  lemma SubtractionHolds(lib: Library, x: Value, y: Value, w: Value, v: Value, size: nat, p: nat)
    requires Sized(x, size) && Sized(y, size) && w == Opposite(y) && v == Zip(Addition, x, w)
    ensures PairHolds(lib, Subtraction, x, y, v, size, p)
  {
    OppositeAt(y, size, p);
    ZipAt(Addition, x, w, size, p);
  }

  lemma SubtractionObeys(lib: Library, x: Value, y: Value, v: Value, size: nat)
    requires Sized(x, size) && Sized(y, size) && v == Binary(lib, Subtraction, x, y)
    ensures PairResult(lib, Subtraction, x, y, v, size)
  {
    var w := Opposite(y);
    OppositeAt(y, size, 0);
    ZipAt(Addition, x, w, size, 0);
    forall p: nat ensures PairHolds(lib, Subtraction, x, y, v, size, p) {
      SubtractionHolds(lib, x, y, w, v, size, p);
    }
    PairHoldsEverywhere(lib, Subtraction, x, y, v, size);
  }

  lemma ReciprocalAt(lib: Library, y: Value, size: nat, p: nat)
    requires Sized(y, size)
    ensures Sized(Reciprocal(lib, y), size) && (Reciprocal(lib, y).Image? <==> y.Image?)
    ensures p < size && y.Image? ==>
      Part(Reciprocal(lib, y), p) == lib.invert(Part(y, p)) && SameMask(Reciprocal(lib, y), y, p)
    ensures y.Scalar? ==> PartsInverted(Part(y, p), Part(Reciprocal(lib, y), p))
  {
  }

  lemma TimesIsProduct(a: Complex, b: Complex)
    ensures IsProduct(a, b, Times(a, b))
  {
  }

  lemma DivisionLaw(lib: Library, image: bool, a: Complex, b: Complex, w: Complex, z: Complex)
    requires z == OnPair(Multiplication, a, w)
    requires if image then w == lib.invert(b) else PartsInverted(b, w)
    ensures PairLaw(lib, Division, image, a, b, z)
  {
    TimesIsProduct(a, w);
  }

  lemma DivisionHolds(lib: Library, x: Value, y: Value, w: Value, v: Value, size: nat, p: nat)
    requires Sized(x, size) && Sized(y, size) && w == Reciprocal(lib, y) && v == Zip(Multiplication, x, w)
    ensures PairHolds(lib, Division, x, y, v, size, p)
  {
    ReciprocalAt(lib, y, size, p);
    ZipAt(Multiplication, x, w, size, p);
    if p < size || v.Scalar? {
      DivisionLaw(lib, y.Image?, Part(x, p), Part(y, p), Part(w, p), Part(v, p));
    }
  }

  lemma DivisionObeys(lib: Library, x: Value, y: Value, v: Value, size: nat)
    requires Sized(x, size) && Sized(y, size) && v == Binary(lib, Division, x, y)
    ensures PairResult(lib, Division, x, y, v, size)
  {
    var w := Reciprocal(lib, y);
    ReciprocalAt(lib, y, size, 0);
    ZipAt(Multiplication, x, w, size, 0);
    forall p: nat ensures PairHolds(lib, Division, x, y, v, size, p) {
      DivisionHolds(lib, x, y, w, v, size, p);
    }
    PairHoldsEverywhere(lib, Division, x, y, v, size);
  }

  lemma PowerObeys(lib: Library, x: Value, y: Value, v: Value, size: nat)
    requires Sized(x, size) && y.Scalar? && v == Binary(lib, Exponentiation, x, y)
    ensures PairResult(lib, Exponentiation, x, y, v, size)
  {
    forall p: nat ensures PairHolds(lib, Exponentiation, x, y, v, size, p) {
    }
    PairHoldsEverywhere(lib, Exponentiation, x, y, v, size);
  }

  /** Every operator of two operands obeys its law; a power needs a scalar exponent. */
  lemma PairsObey(lib: Library, n: Name, x: Value, y: Value, size: nat)
    requires IsPair(n) && Sized(x, size) && Sized(y, size)
    ensures if n == Exponentiation && y.Image? then Binary(lib, n, x, y) == Bad(ScalarPowerOnly)
            else PairResult(lib, n, x, y, Binary(lib, n, x, y), size)
  {
    if n == Subtraction {
      SubtractionObeys(lib, x, y, Binary(lib, n, x, y), size);
    } else if n == Division {
      DivisionObeys(lib, x, y, Binary(lib, n, x, y), size);
    } else if n == Exponentiation {
      if y.Scalar? {
        PowerObeys(lib, x, y, Binary(lib, n, x, y), size);
      }
    } else {
      ZipObeys(lib, n, x, y, Binary(lib, n, x, y), size);
    }
  }

  /** `set_mask` keeps the pixels and takes the mask from its second operand. */
  ghost predicate MaskResult(lib: Library, x: Value, y: Value, v: Value) {
    v.Image? && x.Image? && |v.pixels| == |x.pixels| &&
    forall p :: 0 <= p < |v.pixels| ==> v.pixels[p] == Pixel(Part(x, p), lib.toMask(Part(y, p)))
  }

  lemma SetMaskObeys(lib: Library, x: Value, y: Value, size: nat)
    requires Sized(x, size) && Sized(y, size)
    ensures if x.Image? then MaskResult(lib, x, y, Binary(lib, SetMask, x, y))
            else Binary(lib, SetMask, x, y) == Bad(ImagesOnly(SetMask))
  {
  }

  // ---------------------------------------------------------------- operators of one operand

  /** What the operator makes of a number of its operand. */
  ghost predicate NumberLaw(lib: Library, n: Name, ofImage: bool, a: Complex, z: Complex) {
    match n
    case UnaryPlus => z == a
    case UnaryMinus => z.re + a.re == 0.0 && z.im + a.im == 0.0
    case ComplexConjugate => z.re == a.re && z.im + a.im == 0.0
    case AbsoluteValue => z.re == lib.cabs(a) && z.im == 0.0
    case RealPart => z.re == a.re && z.im == 0.0
    case ImaginaryPart => z.re == 0.0 && z.im == a.im
    case ImaginaryUnit => z.re + a.im == 0.0 && z.im == a.re
    case Exponential => z == lib.cexp(a)
    case Logarithm => z == lib.clog(a)
    case SquareRoot => z == lib.cpow(a, Complex(0.5, 0.0))
    case ComplexArgument => z.re == lib.carg(a) && z.im == if ofImage then 0.0 else a.im
    case _ => false
  }

  predicate OfNumbers(n: Name) {
    n in {UnaryPlus, UnaryMinus, ComplexConjugate, AbsoluteValue, RealPart, ImaginaryPart, ImaginaryUnit,
          Exponential, Logarithm, SquareRoot, ComplexArgument}
  }

  ghost predicate NumberAt(lib: Library, n: Name, x: Value, v: Value, p: nat) {
    NumberLaw(lib, n, x.Image?, Part(x, p), Part(v, p))
  }

  /** The result of an operator on one operand: of its kind, with the law and its mask at every pixel. */
  ghost predicate NumberResult(lib: Library, n: Name, x: Value, v: Value, size: nat) {
    Sized(v, size) && (v.Image? <==> x.Image?) &&
    (forall p: nat :: p < size || v.Scalar? ==> NumberAt(lib, n, x, v, p)) &&
    (forall p: nat :: p < size && v.Image? ==> SameMask(v, x, p))
  }

  lemma NumbersObey(lib: Library, n: Name, x: Value, size: nat)
    requires OfNumbers(n) && Sized(x, size)
    ensures NumberResult(lib, n, x, Unary(lib, n, x), size)
  {
    var v := Unary(lib, n, x);
    forall p: nat | p < size || v.Scalar? ensures NumberAt(lib, n, x, v, p) {
      if n != ComplexArgument {
        OnComplexObeys(lib, n, Part(x, p), x.Image?);
      }
      UnaryAt(lib, n, x, size, p);
    }
    forall p: nat | p < size && v.Image? ensures SameMask(v, x, p) {
      UnaryAt(lib, n, x, size, p);
    }
    UnaryAt(lib, n, x, size, 0);
  }

  lemma OnComplexObeys(lib: Library, n: Name, a: Complex, image: bool)
    requires OfNumbers(n) && n != ComplexArgument
    ensures NumberLaw(lib, n, image, a, OnComplex(lib, n, a))
  {
  }

  lemma UnaryAt(lib: Library, n: Name, x: Value, size: nat, p: nat)
    requires OfNumbers(n) && Sized(x, size)
    ensures Sized(Unary(lib, n, x), size) && (Unary(lib, n, x).Image? <==> x.Image?)
    ensures n != ComplexArgument && (p < size || x.Scalar?) ==>
      Part(Unary(lib, n, x), p) == OnComplex(lib, n, Part(x, p))
    ensures n == ComplexArgument && (p < size || x.Scalar?) ==>
      Part(Unary(lib, n, x), p) == Complex(lib.carg(Part(x, p)), if x.Image? then 0.0 else Part(x, p).im)
    ensures p < size && x.Image? ==> SameMask(Unary(lib, n, x), x, p)
  {
  }

  /** The operators that look at the whole image. */
  ghost predicate WholeResult(lib: Library, n: Name, s: seq<Pixel>, v: Value) {
    if n == Integrate then v == Scalar(lib.integrate(s))
    else v.Image? && |v.pixels| == |s| && forall p :: 0 <= p < |s| ==> WholeAt(lib, n, s, v.pixels[p], p)
  }

  predicate WholeAt(lib: Library, n: Name, s: seq<Pixel>, v: Pixel, p: nat)
    requires p < |s|
  {
    match n
    case FourierTransform | InverseFourierTransform => v == Pixel(lib.transform(n, s, p), 1)
    case PositionX | PositionY | PositionZ => v == Pixel(Complex(lib.position(n, |s|, p), 0.0), s[p].mask)
    case _ => v == lib.maskImage(s, p)
  }

  predicate OfWholes(n: Name) {
    n in {FourierTransform, InverseFourierTransform, PositionX, PositionY, PositionZ, Mask, Integrate}
  }

  lemma WholesObey(lib: Library, n: Name, x: Value)
    requires OfWholes(n) && !x.Bad?
    ensures x.Image? ==> WholeResult(lib, n, x.pixels, Unary(lib, n, x))
    ensures x.Scalar? ==> Unary(lib, n, x) == if n == Integrate then x else Bad(ImagesOnly(n))
  {
  }

  // ---------------------------------------------------------------- the conditional

  predicate ChosenAt(a: Value, b: Value, c: Value, v: Value, p: nat) {
    Part(v, p) == (if Lit(Part(a, p)) then Part(b, p) else Part(c, p)) &&
    SameMask(v, if b.Image? then b else if c.Image? then c else a, p)
  }

  /** A scalar condition takes one operand as it is. An image takes each pixel from the one or the other, with
      the mask of the first image among the second operand, the third and the condition. */
  ghost predicate ChoiceResult(a: Value, b: Value, c: Value, v: Value, size: nat) {
    if a.Scalar? then v == if Lit(a.z) then b else c
    else Sized(v, size) && v.Image? && forall p: nat :: p < size ==> ChosenAt(a, b, c, v, p)
  }

  lemma ChoiceObeys(a: Value, b: Value, c: Value, size: nat)
    requires Sized(a, size) && Sized(b, size) && Sized(c, size)
    ensures ChoiceResult(a, b, c, Choose(a, b, c), size)
  {
    if a.Image? {
      forall p: nat | p < size ensures ChosenAt(a, b, c, Choose(a, b, c), p) {
        ChoiceAt(a, b, c, size, p);
      }
      assert Sized(Choose(a, b, c), size) && Choose(a, b, c).Image?;
    }
  }

  lemma ChoiceAt(a: Value, b: Value, c: Value, size: nat, p: nat)
    requires a.Image? && Sized(a, size) && Sized(b, size) && Sized(c, size) && p < size
    ensures Sized(Choose(a, b, c), size) && Choose(a, b, c).Image?
    ensures Part(Choose(a, b, c), p) == if Lit(Part(a, p)) then Part(b, p) else Part(c, p)
    ensures SameMask(Choose(a, b, c), if b.Image? then b else if c.Image? then c else a, p)
  {
  }
}
