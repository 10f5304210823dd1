/** Values, operators and the stack machine that evaluates a postfix token list. */
module Machine {
  import opened Common
  import opened ComplexNumbers
  import opened Operators
  import opened ShuntingYard

  /** One pixel: its complex value and its mask entry. */
  datatype Pixel = Pixel(z: Complex, mask: int)

  datatype Error =
    | NoMatchingFile(variable: string)
    | CannotTokenize(rest: string)
    | TooFewOperands(declared: nat, found: nat, name: Name)
    | StackContains(size: nat)
    | ScalarPowerOnly
    | ImagesOnly(name: Name)

  /** What the tokens of the program carry besides operators. */
  datatype Value = Image(pixels: seq<Pixel>) | Scalar(z: Complex) | Bad(error: Error)

  /** The numeric library: left uninterpreted, one answer per argument. */
  datatype Library = Library(
    cabs: Complex -> real,
    carg: Complex -> real,
    cexp: Complex -> Complex,
    clog: Complex -> Complex,
    cpow: (Complex, Complex) -> Complex,
    invert: Complex -> Complex,
    integrate: seq<Pixel> -> Complex,
    transform: (Name, seq<Pixel>, nat) -> Complex,
    position: (Name, nat, nat) -> real,
    maskImage: (seq<Pixel>, nat) -> Pixel,
    toMask: Complex -> int)

  /** How evaluation ends: a value, a read below the stack, or a call of abort. */
  datatype Outcome = Done(v: Value) | Underflow | Abort

  // ---------------------------------------------------------------- operators of one operand

  /** The operators that act on a scalar and on each pixel in the same way. */
  predicate Pointwise(n: Name) {
    n in {UnaryMinus, ComplexConjugate, AbsoluteValue, Exponential, Logarithm, SquareRoot,
          RealPart, ImaginaryPart, ImaginaryUnit}
  }

  /** The operators that refuse scalars. */
  predicate NeedsImage(n: Name) {
    n in {Mask, FourierTransform, InverseFourierTransform, PositionX, PositionY, PositionZ}
  }

  function OnComplex(lib: Library, n: Name, x: Complex): Complex {
    match n
    case UnaryMinus => Complex(-x.re, -x.im)
    case ComplexConjugate => Complex(x.re, -x.im)
    case AbsoluteValue => Complex(lib.cabs(x), 0.0)
    case Exponential => lib.cexp(x)
    case Logarithm => lib.clog(x)
    case SquareRoot => lib.cpow(x, Complex(0.5, 0.0))
    case RealPart => Complex(x.re, 0.0)
    case ImaginaryPart => Complex(0.0, x.im)
    case ImaginaryUnit => Times(x, IMAGINARY_UNIT)
    case _ => x
  }

  function MapPixels(f: Complex -> Complex, s: seq<Pixel>): (r: seq<Pixel>)
    ensures |r| == |s|
    ensures forall i :: 0 <= i < |s| ==> r[i] == s[i].(z := f(s[i].z))
  {
    seq(|s|, i requires 0 <= i < |s| => s[i].(z := f(s[i].z)))
  }

  function MapValue(f: Complex -> Complex, v: Value): Value {
    match v
    case Image(s) => Image(MapPixels(f, s))
    case Scalar(z) => Scalar(f(z))
    case Bad(_) => v
  }

  /** The operators that look at the whole image: a transform makes all pixels valid, a position leaves the
      mask as it is. */
  function WholeImage(lib: Library, n: Name, s: seq<Pixel>): (r: seq<Pixel>)
    ensures |r| == |s|
    ensures n in {FourierTransform, InverseFourierTransform} ==> forall i :: 0 <= i < |r| ==> r[i].mask == 1
    ensures n in {PositionX, PositionY, PositionZ} ==>
      forall i :: 0 <= i < |r| ==> r[i].mask == s[i].mask && r[i].z.im == 0.0
  {
    match n
    case PositionX | PositionY | PositionZ =>
      seq(|s|, i requires 0 <= i < |s| => s[i].(z := Complex(lib.position(n, |s|, i), 0.0)))
    case Mask => seq(|s|, i requires 0 <= i < |s| => lib.maskImage(s, i))
    case _ => seq(|s|, i requires 0 <= i < |s| => Pixel(lib.transform(n, s, i), 1))
  }

  function Unary(lib: Library, n: Name, v: Value): Value {
    if Pointwise(n) then MapValue(x => OnComplex(lib, n, x), v)
    else if NeedsImage(n) then
      match v
      case Image(s) => Image(WholeImage(lib, n, s))
      case _ => Bad(ImagesOnly(n))
    else if n == ComplexArgument then
      // the scalar keeps its imaginary part, the pixels lose theirs
      match v
      case Image(s) => Image(MapPixels(x => Complex(lib.carg(x), 0.0), s))
      case Scalar(z) => Scalar(Complex(lib.carg(z), z.im))
      case Bad(_) => v
    else if n == Integrate && v.Image? then Scalar(lib.integrate(v.pixels))
    else v
  }

  // ---------------------------------------------------------------- operators of two operands

  function Min(x: real, y: real): real {
    if x < y then x else y
  }

  function Max(x: real, y: real): real {
    if x > y then x else y
  }

  /** The pixel results; x is the operand written first. */
  function OnPair(n: Name, x: Complex, y: Complex): Complex {
    match n
    case Addition => Plus(x, y)
    case Multiplication => Times(x, y)
    case Minimum => Complex(Min(x.re, y.re), Min(x.im, y.im))
    case Maximum => Complex(Max(x.re, y.re), Max(x.im, y.im))
    case SmallerThan => Truth(Norm(x) < Norm(y))
    case GreaterThan => Truth(Norm(x) > Norm(y))
    case LogicalAnd => Truth(Nonzero(x) && Nonzero(y))
    case LogicalOr => Truth(Nonzero(x) || Nonzero(y))
    case Equality => Truth(x == y)
    case _ => x
  }

  /** Which of two images receives the result, and so lends it its mask. */
  predicate KeepsSecond(n: Name) {
    n in {Addition, Multiplication, Minimum, Maximum}
  }

  /** The pixel at i; images are expected to have one size, past the end the model reads zero. */
  function At(s: seq<Pixel>, i: nat): Pixel {
    if i < |s| then s[i] else Pixel(ZERO, 0)
  }

  function Zip(n: Name, x: Value, y: Value): Value {
    match (x, y)
    case (Image(s), Image(t)) =>
      if KeepsSecond(n)
      then Image(seq(|t|, i requires 0 <= i < |t| => t[i].(z := OnPair(n, At(s, i).z, t[i].z))))
      else Image(seq(|s|, i requires 0 <= i < |s| => s[i].(z := OnPair(n, s[i].z, At(t, i).z))))
    case (Image(s), Scalar(c)) => Image(MapPixels(z => OnPair(n, z, c), s))
    case (Scalar(c), Image(t)) => Image(MapPixels(z => OnPair(n, c, z), t))
    case (Scalar(c), Scalar(d)) => Scalar(OnPair(n, c, d))
    case _ => x
  }

  /** Subtraction negates its second operand and adds. */
  function Opposite(v: Value): Value {
    match v
    case Image(s) => Image(MapPixels(z => Scale(-1.0, z), s))
    case Scalar(z) => Scalar(Times(z, MINUS_ONE))
    case Bad(_) => v
  }

  /** Division inverts its second operand and multiplies; the two parts of a scalar are inverted apart. */
  function Reciprocal(lib: Library, v: Value): Value {
    match v
    case Image(s) => Image(MapPixels(lib.invert, s))
    case Scalar(z) =>
      Scalar(Complex(if z.re != 0.0 then 1.0 / z.re else z.re, if z.im != 0.0 then 1.0 / z.im else z.im))
    case Bad(_) => v
  }

  function Power(lib: Library, x: Value, y: Value): Value {
    if !y.Scalar? then Bad(ScalarPowerOnly) else MapValue(z => lib.cpow(z, y.z), x)
  }

  function WithMask(lib: Library, x: Value, y: Value): Value {
    if !x.Image? then Bad(ImagesOnly(SetMask))
    else
      Image(seq(|x.pixels|, i requires 0 <= i < |x.pixels| =>
        x.pixels[i].(mask := lib.toMask(if y.Image? then At(y.pixels, i).z else if y.Scalar? then y.z else ZERO))))
  }

  function Binary(lib: Library, n: Name, x: Value, y: Value): Value {
    match n
    case Subtraction => Zip(Addition, x, Opposite(y))
    case Division => Zip(Multiplication, x, Reciprocal(lib, y))
    case Exponentiation => Power(lib, x, y)
    case SetMask => WithMask(lib, x, y)
    case _ => Zip(n, x, y)
  }

  // ---------------------------------------------------------------- the conditional

  /** A number whose magnitude C takes for true. */
  predicate Nonzero(z: Complex) {
    z != ZERO
  }

  /** Chooses pixel by pixel; the result lives in the second operand if that is an image, then in
      the third, then in the condition. */
  function Choose(a: Value, b: Value, c: Value): Value {
    match a
    case Scalar(z) => if Nonzero(z) then b else c
    case Image(s) =>
      (match (b, c)
       case (Image(t), Image(u)) =>
         Image(seq(|t|, i requires 0 <= i < |t| => if Nonzero(At(s, i).z) then t[i] else t[i].(z := At(u, i).z)))
       case (Image(t), Scalar(d)) =>
         Image(seq(|t|, i requires 0 <= i < |t| => if Nonzero(At(s, i).z) then t[i] else t[i].(z := d)))
       case (Scalar(d), Image(u)) =>
         Image(seq(|u|, i requires 0 <= i < |u| => if Nonzero(At(s, i).z) then u[i].(z := d) else u[i]))
       case (Scalar(d), Scalar(e)) =>
         Image(seq(|s|, i requires 0 <= i < |s| => s[i].(z := if Nonzero(s[i].z) then d else e)))
       case _ => a)
    case Bad(_) => a
  }

  // ---------------------------------------------------------------- the stack machine

  /** How many entries the operator really takes off the stack. */
  function Pops(n: Name): nat {
    match n
    case UnaryPlus | Comma => 0
    case Addition | Subtraction | Multiplication | Division | SmallerThan | GreaterThan
       | Minimum | Maximum | LogicalAnd | LogicalOr | Equality | Exponentiation | SetMask => 2
    case ConditionalIf => 3
    case _ => 1
  }

  datatype Effect = Stack(values: seq<Value>) | Fault(outcome: Outcome)

  /** One operator on a stack whose last entry is the top. */
  function Exec(lib: Library, n: Name, stack: seq<Value>): Effect {
    var k, size := Pops(n), |stack|;
    if size < k then Fault(Underflow)
    else if exists i :: size - k <= i < size && stack[i].Bad? then Fault(Abort)
    else
      var rest := stack[..size - k];
      match k
      case 0 => Stack(stack)
      case 1 => Stack(rest + [Unary(lib, n, stack[size - 1])])
      case 2 => Stack(rest + [Binary(lib, n, stack[size - 2], stack[size - 1])])
      case _ => Stack(rest + [Choose(stack[size - 3], stack[size - 2], stack[size - 1])])
  }

  /** The entry an operator leaves on top. */
  function Result(lib: Library, n: Name, stack: seq<Value>): Value
    requires 1 <= Pops(n) <= |stack|
  {
    var m := |stack|;
    match Pops(n)
    case 1 => Unary(lib, n, stack[m - 1])
    case 2 => Binary(lib, n, stack[m - 2], stack[m - 1])
    case _ => Choose(stack[m - 3], stack[m - 2], stack[m - 1])
  }

  lemma ExecLeavesResult(lib: Library, n: Name, stack: seq<Value>)
    requires 1 <= Pops(n) <= |stack| && forall i :: |stack| - Pops(n) <= i < |stack| ==> !stack[i].Bad?
    ensures Exec(lib, n, stack) == Stack(stack[..|stack| - Pops(n)] + [Result(lib, n, stack)])
  {
  }

  function Evaluate(lib: Library, ts: seq<Token<Value>>, stack: seq<Value>): Outcome
    decreases |ts|
  {
    if ts == [] then Done(if |stack| == 1 then stack[0] else Bad(StackContains(|stack|)))
    else
      match ts[0]
      case Operand(v) => Evaluate(lib, ts[1..], stack + [v])
      case Operator(op) =>
        if |stack| < op.Declared() then Done(Bad(TooFewOperands(op.Declared(), |stack|, op.name)))
        else
          match Exec(lib, op.name, stack)
          case Fault(outcome) => outcome
          case Stack(after) =>
            assert after != [];
            if Last(after).Bad? then Done(Last(after)) else Evaluate(lib, ts[1..], after)
  }

  // ---------------------------------------------------------------- safety

  /** No error token among the operands. */
  ghost predicate Clean(vs: seq<Value>) {
    forall i :: 0 <= i < |vs| ==> !vs[i].Bad?
  }

  ghost predicate CleanTokens(ts: seq<Token<Value>>) {
    forall i :: 0 <= i < |ts| && ts[i].Operand? ==> !ts[i].v.Bad?
  }

  /** The two rows that declare fewer operands than they pop. */
  predicate Understated(n: Name) {
    n in {Exponentiation, SetMask}
  }

  lemma DeclaredAgainstPopped(op: Op)
    ensures op.Declared() < Pops(op.name) <==> Understated(op.name)
  {
  }

  /** On tokens without errors, abort is never reached and no operator meets an error. */
  lemma {:induction false} NeverAborts(lib: Library, ts: seq<Token<Value>>, stack: seq<Value>)
    requires CleanTokens(ts) && Clean(stack)
    ensures Evaluate(lib, ts, stack) != Abort
    decreases |ts|
  {
    if ts != [] {
      match ts[0] {
        case Operand(v) =>
          NeverAborts(lib, ts[1..], stack + [v]);
        case Operator(op) =>
          if op.Declared() <= |stack| {
            match Exec(lib, op.name, stack) {
              case Fault(_) =>
              case Stack(after) =>
                if !Last(after).Bad? {
                  NeverAborts(lib, ts[1..], after);
                }
            }
          }
      }
    }
  }

  /** The number of stack entries when evaluation reaches token i, or -1 if it has ended before. */
  function DepthAt(lib: Library, ts: seq<Token<Value>>, stack: seq<Value>, i: nat): int
    requires i <= |ts|
    decreases |ts|
  {
    if i == 0 then |stack|
    else
      match ts[0]
      case Operand(v) => DepthAt(lib, ts[1..], stack + [v], i - 1)
      case Operator(op) =>
        if |stack| < op.Declared() then -1
        else
          match Exec(lib, op.name, stack)
          case Fault(_) => -1
          case Stack(after) => if Last(after).Bad? then -1 else DepthAt(lib, ts[1..], after, i - 1)
  }

  /** Evaluation reaches token i, a `^` or `set_mask`, with a single entry on the stack. */
  ghost predicate Starves(lib: Library, ts: seq<Token<Value>>, stack: seq<Value>, i: nat) {
    i < |ts| && ts[i].Operator? && Understated(ts[i].op.name) && DepthAt(lib, ts, stack, i) == 1
  }

  /** The stack after one token, if evaluation goes on. */
  function AfterToken(lib: Library, t: Token<Value>, stack: seq<Value>): Effect {
    match t
    case Operand(v) => Stack(stack + [v])
    case Operator(op) => if |stack| < op.Declared() then Fault(Abort) else Exec(lib, op.name, stack)
  }

  lemma StarvesLater(lib: Library, ts: seq<Token<Value>>, stack: seq<Value>, next: seq<Value>, i: nat)
    requires ts != [] && AfterToken(lib, ts[0], stack) == Stack(next) && next != []
    requires ts[0].Operator? ==> !Last(next).Bad?
    ensures Starves(lib, ts, stack, i + 1) <==> Starves(lib, ts[1..], next, i)
  {
    if i + 1 < |ts| {
      assert ts[i + 1] == ts[1..][i];
    }
  }

  /** Evaluation reads below the stack exactly when it starves at some token. */
  lemma {:induction false} UnderflowsExactlyWhenStarved(lib: Library, ts: seq<Token<Value>>, stack: seq<Value>)
    requires CleanTokens(ts) && Clean(stack)
    ensures Evaluate(lib, ts, stack) == Underflow <==> exists i: nat :: Starves(lib, ts, stack, i)
    decreases |ts|
  {
    if ts != [] {
      DeclaredAgainstPopped(if ts[0].Operator? then ts[0].op else Op(Comma, 0, 0));
      var next := AfterToken(lib, ts[0], stack);
      if next.Stack? && next.values != [] && !Last(next.values).Bad? {
        UnderflowsExactlyWhenStarved(lib, ts[1..], next.values);
        if i: nat :| Starves(lib, ts[1..], next.values, i) {
          StarvesLater(lib, ts, stack, next.values, i);
        }
        if i: nat :| Starves(lib, ts, stack, i) {
          assert i > 0;
          StarvesLater(lib, ts, stack, next.values, i - 1);
        }
      } else {
        if Evaluate(lib, ts, stack) == Underflow {
          assert Starves(lib, ts, stack, 0);
        }
        if i: nat :| Starves(lib, ts, stack, i) {
          assert i == 0;
        }
      }
    }
  }

  /** What counting stack entries foretells: the entries at the end, too few for an operator, or a read below
      the stack. */
  datatype Height = EndsWith(n: nat) | Lacks(declared: nat, found: nat, name: Name) | FallsBelow

  function HeightAfter(ts: seq<Token<Value>>, depth: nat): Height
    decreases |ts|
  {
    if ts == [] then EndsWith(depth)
    else
      match ts[0]
      case Operand(_) => HeightAfter(ts[1..], depth + 1)
      case Operator(op) =>
        if depth < op.Declared() then Lacks(op.Declared(), depth, op.name)
        else if depth < Pops(op.name) then FallsBelow
        else HeightAfter(ts[1..], if Pops(op.name) == 0 then depth else depth - Pops(op.name) + 1)
  }

  /** The two errors that depend on the operands. */
  predicate RefusesOperands(o: Outcome) {
    o.Done? && o.v.Bad? && (o.v.error.ScalarPowerOnly? || o.v.error.ImagesOnly?)
  }

  predicate Foretells(h: Height, o: Outcome) {
    match h
    case EndsWith(n) => if n == 1 then o.Done? && !o.v.Bad? else o == Done(Bad(StackContains(n)))
    case Lacks(declared, found, name) => o == Done(Bad(TooFewOperands(declared, found, name)))
    case FallsBelow => o == Underflow
  }

  lemma ResultRefuses(lib: Library, n: Name, stack: seq<Value>)
    requires Clean(stack) && 1 <= Pops(n) <= |stack| && Result(lib, n, stack).Bad?
    ensures RefusesOperands(Done(Result(lib, n, stack)))
  {
  }

  /** Unless an operator refuses its operands, evaluation ends as counting the stack entries foretells. */
  lemma {:induction false} CountingForetells(lib: Library, ts: seq<Token<Value>>, stack: seq<Value>)
    requires CleanTokens(ts) && Clean(stack)
    ensures RefusesOperands(Evaluate(lib, ts, stack)) || Foretells(HeightAfter(ts, |stack|), Evaluate(lib, ts, stack))
    decreases |ts|
  {
    if ts != [] {
      match ts[0] {
        case Operand(v) =>
          CountingForetells(lib, ts[1..], stack + [v]);
        case Operator(op) =>
          if op.Declared() <= |stack| && Pops(op.name) <= |stack| {
            CountingOperator(lib, op, ts[1..], stack);
            var after := Exec(lib, op.name, stack).values;
            if !Last(after).Bad? {
              CountingForetells(lib, ts[1..], after);
            }
          }
      }
    }
  }

  lemma CountingOperator(lib: Library, op: Op, rest: seq<Token<Value>>, stack: seq<Value>)
    requires Clean(stack) && op.Declared() <= |stack| && Pops(op.name) <= |stack|
    ensures var r := Exec(lib, op.name, stack);
            r.Stack? && r.values != [] &&
            |r.values| == (if Pops(op.name) == 0 then |stack| else |stack| - Pops(op.name) + 1) &&
            (Last(r.values).Bad? ==> RefusesOperands(Done(Last(r.values)))) &&
            (!Last(r.values).Bad? ==> Clean(r.values))
  {
    if Pops(op.name) > 0 {
      ExecLeavesResult(lib, op.name, stack);
      if Result(lib, op.name, stack).Bad? {
        ResultRefuses(lib, op.name, stack);
      }
    }
  }

  /** Without `^` and `set_mask` nothing is ever read below the stack. */
  lemma NeverUnderflows(lib: Library, ts: seq<Token<Value>>)
    requires CleanTokens(ts)
    requires forall i :: 0 <= i < |ts| && ts[i].Operator? ==> !Understated(ts[i].op.name)
    ensures Evaluate(lib, ts, []).Done?
  {
    NeverAborts(lib, ts, []);
    UnderflowsExactlyWhenStarved(lib, ts, []);
  }
}
