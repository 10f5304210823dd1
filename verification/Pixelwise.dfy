/** Evaluation commutes with looking at one pixel: images are computed point by point. */
module Pixelwise {
  import opened ComplexNumbers
  import opened Operators
  import opened ShuntingYard
  import opened Machine

  /** The operators that treat an image as its pixels and a scalar as one of them. */
  predicate Lifts(n: Name) {
    Pointwise(n) ||
    n in {Addition, UnaryPlus, Subtraction, Multiplication, SmallerThan, GreaterThan, Minimum, Maximum,
          LogicalAnd, LogicalOr, Equality, ConditionalIf, Comma}
  }

  /** A value as seen at pixel p; scalars are the same everywhere. */
  function Seen(p: nat, v: Value): Value {
    match v case Image(s) => Scalar(At(s, p).z) case _ => v
  }

  ghost predicate Sized(vs: seq<Value>, size: nat) {
    forall i :: 0 <= i < |vs| && vs[i].Image? ==> |vs[i].pixels| == size
  }

  function SeenAll(p: nat, vs: seq<Value>): (r: seq<Value>)
    ensures |r| == |vs| && forall i :: 0 <= i < |vs| ==> r[i] == Seen(p, vs[i])
  {
    seq(|vs|, i requires 0 <= i < |vs| => Seen(p, vs[i]))
  }

  lemma UnarySeen(lib: Library, n: Name, x: Value, p: nat, size: nat)
    requires Lifts(n) && Pops(n) == 1 && Sized([x], size) && p < size && !x.Bad?
    ensures Seen(p, Unary(lib, n, x)) == Unary(lib, n, Seen(p, x))
    ensures Sized([Unary(lib, n, x)], size) && !Unary(lib, n, x).Bad?
  {
    assert x.Image? ==> |[x][0].pixels| == size;
  }

  lemma ZipSeen(n: Name, x: Value, y: Value, p: nat, size: nat)
    requires Sized([x, y], size) && p < size && !x.Bad? && !y.Bad?
    ensures Seen(p, Zip(n, x, y)) == Zip(n, Seen(p, x), Seen(p, y))
    ensures Sized([Zip(n, x, y)], size) && !Zip(n, x, y).Bad?
  {
    assert x.Image? ==> |[x, y][0].pixels| == size;
    assert y.Image? ==> |[x, y][1].pixels| == size;
  }

  lemma OppositeSeen(x: Value, y: Value, p: nat, size: nat)
    requires Sized([x, y], size) && p < size && !y.Bad?
    ensures Seen(p, Opposite(y)) == Opposite(Seen(p, y)) && !Opposite(y).Bad?
    ensures Sized([x, Opposite(y)], size)
  {
    assert x.Image? ==> |[x, y][0].pixels| == size;
    assert y.Image? ==> |[x, y][1].pixels| == size;
  }

  lemma BinarySeen(lib: Library, n: Name, x: Value, y: Value, p: nat, size: nat)
    requires Lifts(n) && Pops(n) == 2 && Sized([x, y], size) && p < size && !x.Bad? && !y.Bad?
    ensures Seen(p, Binary(lib, n, x, y)) == Binary(lib, n, Seen(p, x), Seen(p, y))
    ensures Sized([Binary(lib, n, x, y)], size) && !Binary(lib, n, x, y).Bad?
  {
    if n == Subtraction {
      OppositeSeen(x, y, p, size);
      ZipSeen(Addition, x, Opposite(y), p, size);
    } else {
      ZipSeen(n, x, y, p, size);
    }
  }

  lemma ChooseSeen(a: Value, b: Value, c: Value, p: nat, size: nat)
    requires Sized([a, b, c], size) && p < size && !a.Bad? && !b.Bad? && !c.Bad?
    ensures Seen(p, Choose(a, b, c)) == Choose(Seen(p, a), Seen(p, b), Seen(p, c))
    ensures Sized([Choose(a, b, c)], size) && !Choose(a, b, c).Bad?
  {
    assert a.Image? ==> |[a, b, c][0].pixels| == size;
    assert b.Image? ==> |[a, b, c][1].pixels| == size;
    assert c.Image? ==> |[a, b, c][2].pixels| == size;
  }

  lemma SeenOnTop(rest: seq<Value>, v: Value, p: nat, size: nat)
    requires Clean(rest) && Sized(rest, size) && !v.Bad? && Sized([v], size)
    ensures SeenAll(p, rest + [v]) == SeenAll(p, rest) + [Seen(p, v)]
    ensures Clean(rest + [v]) && Sized(rest + [v], size)
  {
    assert v.Image? ==> |[v][0].pixels| == size;
  }

  lemma ResultSeen(lib: Library, n: Name, stack: seq<Value>, p: nat, size: nat)
    requires Lifts(n) && Clean(stack) && Sized(stack, size) && p < size && 1 <= Pops(n) <= |stack|
    ensures Seen(p, Result(lib, n, stack)) == Result(lib, n, SeenAll(p, stack))
    ensures Sized([Result(lib, n, stack)], size) && !Result(lib, n, stack).Bad?
  {
    var m := |stack|;
    match Pops(n)
    case 1 => UnarySeen(lib, n, stack[m - 1], p, size);
    case 2 => BinarySeen(lib, n, stack[m - 2], stack[m - 1], p, size);
    case _ => ChooseSeen(stack[m - 3], stack[m - 2], stack[m - 1], p, size);
  }

  /** One operator, seen at a pixel. */
  lemma ExecSeen(lib: Library, n: Name, stack: seq<Value>, p: nat, size: nat)
    requires Lifts(n) && Clean(stack) && Sized(stack, size) && p < size
    ensures Exec(lib, n, SeenAll(p, stack)) ==
            match Exec(lib, n, stack) case Stack(after) => Stack(SeenAll(p, after)) case fault => fault
    ensures var r := Exec(lib, n, stack); r.Stack? ==> Clean(r.values) && Sized(r.values, size)
  {
    if 1 <= Pops(n) <= |stack| {
      var rest := stack[..|stack| - Pops(n)];
      ExecLeavesResult(lib, n, stack);
      ExecLeavesResult(lib, n, SeenAll(p, stack));
      ResultSeen(lib, n, stack, p, size);
      SeenOnTop(rest, Result(lib, n, stack), p, size);
      assert SeenAll(p, stack)[..|stack| - Pops(n)] == SeenAll(p, rest);
    }
  }

  ghost predicate LiftableTokens(ts: seq<Token<Value>>, size: nat) {
    forall i :: 0 <= i < |ts| ==>
      match ts[i]
      case Operator(op) => Lifts(op.name)
      case Operand(v) => !v.Bad? && (v.Image? ==> |v.pixels| == size)
  }

  function SeenTokens(p: nat, ts: seq<Token<Value>>): seq<Token<Value>> {
    MapTokens(v => Seen(p, v), ts)
  }

  function SeenOutcome(p: nat, o: Outcome): Outcome {
    match o case Done(v) => Done(Seen(p, v)) case _ => o
  }

  /** For every list of liftable tokens on images of one size, the result at pixel p is the result of
      the same tokens with every image replaced by its value at p. */
  lemma {:induction false} EvaluateSeen(lib: Library, ts: seq<Token<Value>>, stack: seq<Value>, p: nat, size: nat)
    requires LiftableTokens(ts, size) && Clean(stack) && Sized(stack, size) && p < size
    ensures Evaluate(lib, SeenTokens(p, ts), SeenAll(p, stack)) == SeenOutcome(p, Evaluate(lib, ts, stack))
    decreases |ts|
  {
    if ts != [] {
      assert SeenTokens(p, ts)[1..] == SeenTokens(p, ts[1..]);
      match ts[0] {
        case Operand(v) =>
          assert SeenAll(p, stack + [v]) == SeenAll(p, stack) + [Seen(p, v)];
          EvaluateSeen(lib, ts[1..], stack + [v], p, size);
        case Operator(op) =>
          ExecSeen(lib, op.name, stack, p, size);
          if op.Declared() <= |stack| && Exec(lib, op.name, stack).Stack? {
            EvaluateSeen(lib, ts[1..], Exec(lib, op.name, stack).values, p, size);
          }
      }
    }
  }

  /** The same for infix tokens: reordering does not look at the operands. */
  lemma InfixSeen(lib: Library, ts: seq<Token<Value>>, p: nat, size: nat)
    requires LiftableTokens(ts, size) && p < size
    ensures Evaluate(lib, Parse(SeenTokens(p, ts)), []) == SeenOutcome(p, Evaluate(lib, Parse(ts), []))
  {
    ParseNatural(v => Seen(p, v), ts);
    NothingLost(ts);
    forall i | 0 <= i < |Parse(ts)|
      ensures match Parse(ts)[i]
              case Operator(op) => Lifts(op.name)
              case Operand(v) => !v.Bad? && (v.Image? ==> |v.pixels| == size)
    {
      assert Parse(ts)[i] in multiset(ts);
      var j :| 0 <= j < |ts| && ts[j] == Parse(ts)[i];
    }
    EvaluateSeen(lib, Parse(ts), [], p, size);
    assert SeenAll(p, []) == [];
  }

  // ---------------------------------------------------------------- operators that do not lift

  /** `arg` lifts at a pixel exactly when that pixel is real: images drop the imaginary part, scalars keep it. */
  lemma ArgumentLiftsExactlyOnReals(lib: Library, s: seq<Pixel>, p: nat)
    requires p < |s|
    ensures Seen(p, Unary(lib, ComplexArgument, Image(s))) == Unary(lib, ComplexArgument, Seen(p, Image(s))) <==>
            s[p].z.im == 0.0
  {
  }

  lemma TimesAssociates(x: Complex, y: Complex, z: Complex)
    ensures Times(Times(x, y), z) == Times(x, Times(y, z))
  {
  }

  lemma ZeroFactor(a: real, b: real)
    requires a > 0.0 && a * b == 0.0
    ensures b == 0.0
  {
    if b > 0.0 {
      ProductPositive(a, b);
    } else if b < 0.0 {
      ProductPositive(a, -b);
    }
  }

  /** A factor that leaves a nonzero number alone is one. */
  lemma OnlyOneKeeps(x: Complex, g: Complex)
    requires x != ZERO && Times(x, g) == x
    ensures g == ONE
  {
    assert x.re * (g.re - 1.0) == x.im * g.im && x.im * (g.re - 1.0) == -(x.re * g.im);
    NoRotation(x.re, x.im, g.re - 1.0, g.im);
  }

  lemma NoRotation(a: real, b: real, u: real, v: real)
    requires a != 0.0 || b != 0.0
    requires a * u == b * v && b * u == -(a * v)
    ensures u == 0.0 && v == 0.0
  {
    var n :| n == a * a + b * b;
    NormKills(a, b, u, v, n);
    NormCancels(a, b, n, u);
    NormCancels(a, b, n, v);
  }

  lemma NormKills(a: real, b: real, u: real, v: real, n: real)
    requires a * u == b * v && b * u == -(a * v)
    requires n == a * a + b * b
    ensures n * u == 0.0 && n * v == 0.0
  {
    assert n * u == a * (a * u) + b * (b * u);
    assert a * (a * u) == a * (b * v);
    assert b * (b * u) == b * -(a * v);
    assert n * v == a * (a * v) + b * (b * v);
    assert b * (b * v) == b * (a * u);
    assert a * (a * v) == a * -(b * u);
  }

  lemma NormCancels(a: real, b: real, n: real, u: real)
    requires a != 0.0 || b != 0.0
    requires n == a * a + b * b && n * u == 0.0
    ensures u == 0.0
  {
    SquaresPositive(a, b, n);
    ZeroFactor(n, u);
  }

  /** Dividing scalars is undone by multiplying exactly when the divisor is real: its two parts are
      inverted separately. */
  lemma ScalarDivisionUndoneExactlyByReals(lib: Library, x: Complex, y: Complex)
    requires x != ZERO && y != ZERO
    ensures Binary(lib, Multiplication, Binary(lib, Division, Scalar(x), Scalar(y)), Scalar(y)) == Scalar(x) <==>
            y.im == 0.0
  {
    var r := Reciprocal(lib, Scalar(y)).z;
    var g := Times(r, y);
    TimesAssociates(x, r, y);
    assert r.re * y.re == (if y.re != 0.0 then 1.0 else 0.0);
    assert r.im * y.im == (if y.im != 0.0 then 1.0 else 0.0);
    if y.im == 0.0 {
      assert g == ONE;
    } else {
      assert g.re <= 0.0;
      if Times(x, g) == x {
        OnlyOneKeeps(x, g);
      }
    }
  }
}
