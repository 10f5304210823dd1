/** The whole evaluation of an expression string, and what it guarantees. */
module Calculator {
  import opened ComplexNumbers
  import opened Operators
  import opened ShuntingYard
  import opened Machine
  import opened Tokenizer
  import opened Expressions
  import opened Compiler

  /** Evaluation ends, or the tokenizer never gets past a character. */
  datatype Report = Ended(outcome: Outcome) | NeverReturns

  function Calculate(lib: Library, s: string, images: seq<seq<Pixel>>): Report {
    match Tokenize(s, images)
    case Tokens(ts) => Ended(Evaluate(lib, Parse(ts), []))
    case Rejected(error) => Ended(Evaluate(lib, Parse([Operand(Bad(error))]), []))
    case NoProgress => NeverReturns
  }

  // ---------------------------------------------------------------- correctness

  /** The single value an expression should come to. */
  function Answer(m: Sense): Value {
    match m
    case Fails(error) => Bad(error)
    case Yields(vs) => if |vs| == 1 then vs[0] else Bad(StackContains(|vs|))
  }

  /** What evaluating a written expression should give: the error of its first variable without an
      image, or its meaning. */
  function Expected(lib: Library, e: Expr, images: seq<seq<Pixel>>): Value
    requires WellFormed(e)
  {
    var missing := Missing(e, |images|);
    if missing == [] then Answer(MeaningOf(lib, e, images)) else Bad(NoMatchingFile(missing[0]))
  }

  /** A readable expression evaluates to its meaning. */
  lemma CalculatesMeaning(lib: Library, e: Expr, images: seq<seq<Pixel>>)
    requires WellFormed(e) && Readable(e)
    ensures Calculate(lib, Print(e), images) == Ended(Done(Expected(lib, e, images)))
  {
    var t := TreeOf(e, 0, "", images);
    LexPrint(e, "", 0, Nothing, images);
    if Missing(e, |images|) == [] {
      assert Inorder(t) + [] == Inorder(t) && Postorder(t) + [] == Postorder(t);
      assert Tokenize(Print(e), images) == Tokens(Inorder(t));
      ReadableIsLayered(e, 0, "", images);
      LayeredIsReadBack(t);
      RunTree(lib, e, 0, "", images, [], []);
      var m := MeaningOf(lib, e, images);
      if m.Yields? {
        assert [] + m.vs == m.vs;
      }
    } else {
      ErrorsComeOut(lib, Print(e), images);
    }
  }

  /** The tokenizer's error token passes through reordering and evaluation unchanged. */
  lemma ErrorsComeOut(lib: Library, s: string, images: seq<seq<Pixel>>)
    requires Tokenize(s, images).Rejected?
    ensures Calculate(lib, s, images) == Ended(Done(Bad(Tokenize(s, images).error)))
  {
    var ts: seq<Token<Value>> := [Operand(Bad(Tokenize(s, images).error))];
    RunOperands(Yard([], []), ts);
    assert Parse(ts) == [] + ts == ts;
    var v := Bad(Tokenize(s, images).error);
    assert Evaluate(lib, ts, []) == Evaluate(lib, ts[1..], [] + [v]);
    assert ts[1..] == [] && [] + [v] == [v];
  }

  // ---------------------------------------------------------------- every expression, parenthesised

  function Wrapped(e: Expr): Expr
    decreases e, 1
  {
    match e
    case Numeral(_) => e
    case Variable(_) => e
    case Unit => e
    case Group(x) => Group(Parenthesised(x))
    case _ => Group(Parenthesised(e))
  }

  /** Every operand of every operator in parentheses of its own, unless it is a single token. */
  function Parenthesised(e: Expr): Expr
    decreases e, 0
  {
    match e
    case Infix(n, l, r) => Infix(n, Wrapped(l), Wrapped(r))
    case Prefix(n, x) => Prefix(n, Wrapped(x))
    case TimesI(x) => TimesI(Wrapped(x))
    case Group(x) => Group(Parenthesised(x))
    case _ => e
  }

  /** p is readable and means, needs and yields the same as e. */
  ghost predicate Restates(lib: Library, p: Expr, e: Expr, images: seq<seq<Pixel>>) {
    WellFormed(p) && WellFormed(e) && Readable(p) && Width(p) == Width(e) &&
    Missing(p, |images|) == Missing(e, |images|) && MeaningOf(lib, p, images) == MeaningOf(lib, e, images)
  }

  lemma {:induction false} ParenthesesKeepMeaning(lib: Library, e: Expr, images: seq<seq<Pixel>>)
    requires WellFormed(e)
    ensures Restates(lib, Parenthesised(e), e, images)
    ensures Restates(lib, Wrapped(e), e, images) && Exposed(Wrapped(e)) == []
  {
    match e
    case Infix(n, l, r) =>
      ParenthesesKeepMeaning(lib, l, images);
      ParenthesesKeepMeaning(lib, r, images);
    case Prefix(n, x) =>
      ParenthesesKeepMeaning(lib, x, images);
    case TimesI(x) =>
      ParenthesesKeepMeaning(lib, x, images);
    case Group(x) =>
      ParenthesesKeepMeaning(lib, x, images);
    case _ =>
  }

  /** Printed fully parenthesised, every expression evaluates to its meaning. */
  lemma ParenthesisedCalculatesMeaning(lib: Library, e: Expr, images: seq<seq<Pixel>>)
    requires WellFormed(e)
    ensures WellFormed(Parenthesised(e))
    ensures Calculate(lib, Print(Parenthesised(e)), images) == Ended(Done(Expected(lib, e, images)))
  {
    ParenthesesKeepMeaning(lib, e, images);
    CalculatesMeaning(lib, Parenthesised(e), images);
  }

  // ---------------------------------------------------------------- safety on every string

  lemma ParseKeepsClean(ts: seq<Token<Value>>)
    requires CleanTokens(ts)
    ensures CleanTokens(Parse(ts))
  {
    NothingLost(ts);
    forall i | 0 <= i < |Parse(ts)| && Parse(ts)[i].Operand? ensures !Parse(ts)[i].v.Bad? {
      assert Parse(ts)[i] in multiset(ts);
      var j :| 0 <= j < |ts| && ts[j] == Parse(ts)[i];
    }
  }

  /** No string makes the program abort. */
  lemma NeverCallsAbort(lib: Library, s: string, images: seq<seq<Pixel>>)
    ensures Calculate(lib, s, images) != Ended(Abort)
  {
    match Tokenize(s, images)
    case Tokens(ts) =>
      AcceptedIsClean(s, 0, Nothing, images);
      ParseKeepsClean(ts);
      NeverAborts(lib, Parse(ts), []);
    case Rejected(_) =>
      ErrorsComeOut(lib, s, images);
    case NoProgress =>
  }

  /** The stack is read below its bottom exactly when the reordered tokens reach `^` or `set_mask`
      with one value left. */
  lemma ReadsBelowExactlyWhenStarved(lib: Library, s: string, images: seq<seq<Pixel>>)
    ensures Calculate(lib, s, images) == Ended(Underflow) <==>
            Tokenize(s, images).Tokens? &&
            exists i: nat :: Starves(lib, Parse(Tokenize(s, images).ts), [], i)
  {
    match Tokenize(s, images)
    case Tokens(ts) =>
      AcceptedIsClean(s, 0, Nothing, images);
      ParseKeepsClean(ts);
      UnderflowsExactlyWhenStarved(lib, Parse(ts), []);
    case Rejected(_) =>
      ErrorsComeOut(lib, s, images);
    case NoProgress =>
  }

  /** Unless an operator refuses its operands, an accepted string ends as counting stack entries over its
      reordered tokens foretells. */
  lemma EndsAsCounted(lib: Library, s: string, images: seq<seq<Pixel>>)
    requires Tokenize(s, images).Tokens?
    ensures var r := Calculate(lib, s, images);
            r.Ended? &&
            (RefusesOperands(r.outcome) || Foretells(HeightAfter(Parse(Tokenize(s, images).ts), 0), r.outcome))
  {
    var ts := Tokenize(s, images).ts;
    AcceptedIsClean(s, 0, Nothing, images);
    ParseKeepsClean(ts);
    CountingForetells(lib, Parse(ts), []);
  }

  /** A string whose tokens hold no `^` and no `set_mask` always comes back with an image, a scalar or
      an error. */
  lemma SafeWithoutUnderstatedRows(lib: Library, s: string, images: seq<seq<Pixel>>)
    requires var r := Tokenize(s, images);
             r.Tokens? ==> forall i :: 0 <= i < |r.ts| && r.ts[i].Operator? ==> !Understated(r.ts[i].op.name)
    ensures var r := Calculate(lib, s, images); r.NeverReturns? || r.outcome.Done?
  {
    match Tokenize(s, images)
    case Tokens(ts) =>
      AcceptedIsClean(s, 0, Nothing, images);
      ParseKeepsClean(ts);
      NothingLost(ts);
      forall i | 0 <= i < |Parse(ts)| && Parse(ts)[i].Operator? ensures !Understated(Parse(ts)[i].op.name) {
        assert Parse(ts)[i] in multiset(ts);
        var j :| 0 <= j < |ts| && ts[j] == Parse(ts)[i];
      }
      NeverUnderflows(lib, Parse(ts));
    case Rejected(_) =>
      ErrorsComeOut(lib, s, images);
    case NoProgress =>
  }

  // ---------------------------------------------------------------- expressions that are not readable

  /** Evaluating a written expression runs the reordered tokens of its tree. */
  lemma CalculateTree(lib: Library, e: Expr, images: seq<seq<Pixel>>)
    requires WellFormed(e) && Missing(e, |images|) == []
    ensures Calculate(lib, Print(e), images) == Ended(Evaluate(lib, Parse(Inorder(TreeOf(e, 0, "", images))), []))
  {
    LexPrint(e, "", 0, Nothing, images);
    assert Inorder(TreeOf(e, 0, "", images)) + [] == Inorder(TreeOf(e, 0, "", images));
  }

  /** Operands, an operator p, a sign q and its operand, as a tree. */
  function SignTree(l: seq<Value>, p: Op, q: Op, v: Value): Tree<Value> {
    Node(Leaf(l), p, Node(Leaf([]), q, Leaf([v])))
  }

  /** A sign that ends the operator in front of it is emitted after it. */
  lemma SignEndsEarly(l: seq<Value>, p: Op, q: Op, v: Value)
    requires Evicts(q, p)
    ensures Parse(Inorder(SignTree(l, p, q, v))) == Operands(l) + [Operator(p), Operand(v), Operator(q)]
  {
    SignTreeTokens(l, p, q, v);
    var none: seq<Token<Value>> := [];
    SplitAtDominant(Operands(l) + [Operator(p)], q, [Operand(v)]);
    assert Operands(l) + [Operator(p)] + none == Operands(l) + [Operator(p)];
    SplitAtDominant(Operands(l), p, none);
    OperandsParse(Operands(l));
    OperandsParse([Operand(v)]);
    OperandsParse(none);
    assert Operands(l) + none + [Operator(p)] + [Operand(v)] + [Operator(q)] ==
           Operands(l) + [Operator(p), Operand(v), Operator(q)];
  }

  lemma OperandsParse(ts: seq<Token<Value>>)
    requires forall i :: 0 <= i < |ts| ==> ts[i].Operand?
    ensures Parse(ts) == ts
  {
    RunOperands(Yard([], []), ts);
    assert [] + ts == ts;
  }

  lemma SignTreeTokens(l: seq<Value>, p: Op, q: Op, v: Value)
    ensures Inorder(SignTree(l, p, q, v)) == Operands(l) + [Operator(p)] + [Operator(q)] + [Operand(v)]
  {
    var inner := Node(Leaf([]), q, Leaf([v]));
    assert Inorder(inner) == [Operator(q)] + [Operand(v)] by {
      assert Operands([v]) == [Operand(v)];
    }
    assert Inorder(SignTree(l, p, q, v)) == Operands(l) + [Operator(p)] + Inorder(inner);
  }

  /** A variable that has an image. */
  predicate Known(name: string, images: seq<seq<Pixel>>) {
    WellFormed(Variable(name)) && Missing(Variable(name), |images|) == []
  }

  function PowerOfSign(a: string, sign: Name, b: string): Expr {
    Infix(Exponentiation, Variable(a), Prefix(sign, Variable(b)))
  }

  lemma PowerTree(a: string, sign: Name, b: string, images: seq<seq<Pixel>>)
    requires IsSign(sign) && Known(a, images) && Known(b, images)
    ensures WellFormed(PowerOfSign(a, sign, b)) && Missing(PowerOfSign(a, sign, b), |images|) == []
    ensures !Readable(PowerOfSign(a, sign, b))
    ensures var p := Label(Exponentiation, 0, PrintTo(Prefix(sign, Variable(b)), ""));
            var q := Label(sign, 0, PrintTo(Variable(b), ""));
            Evicts(q, p) &&
            TreeOf(PowerOfSign(a, sign, b), 0, "", images) ==
            SignTree([Lookup(images, a)], p, q, Lookup(images, b))
  {
    var x := Prefix(sign, Variable(b));
    assert WellFormed(x) && Missing(x, |images|) == [];
    assert TreeOf(x, 0, "", images) ==
           Node(Leaf([]), Label(sign, 0, PrintTo(Variable(b), "")), Leaf([Lookup(images, b)]));
    SignIsExposed(x);
  }

  /** `A ^ -B`, for any two images: the sign ends the power before its exponent is there, and the
      stack is read below its bottom. */
  lemma PowerOfSignUnderflows(lib: Library, a: string, sign: Name, b: string, images: seq<seq<Pixel>>)
    requires IsSign(sign) && Known(a, images) && Known(b, images)
    ensures WellFormed(PowerOfSign(a, sign, b)) && !Readable(PowerOfSign(a, sign, b))
    ensures Calculate(lib, Print(PowerOfSign(a, sign, b)), images) == Ended(Underflow)
  {
    PowerTree(a, sign, b, images);
    CalculateTree(lib, PowerOfSign(a, sign, b), images);
    var p := Label(Exponentiation, 0, PrintTo(Prefix(sign, Variable(b)), ""));
    var q := Label(sign, 0, PrintTo(Variable(b), ""));
    SignEndsEarly([Lookup(images, a)], p, q, Lookup(images, b));
    PowerStarves(lib, Lookup(images, a), p, Operand(Lookup(images, b)), Operator(q));
  }

  lemma PowerStarves(lib: Library, u: Value, p: Op, t: Token<Value>, r: Token<Value>)
    requires p.name == Exponentiation && !u.Bad?
    ensures Evaluate(lib, Operands([u]) + [Operator(p), t, r], []) == Underflow
  {
    var ts := Operands([u]) + [Operator(p), t, r];
    assert ts[0] == Operand(u) && ts[1..] == [Operator(p), t, r];
    assert Evaluate(lib, ts, []) == Evaluate(lib, ts[1..], [] + [u]);
    assert [] + [u] == [u];
  }

  lemma SignIsExposed(x: Expr)
    requires x.Prefix? && IsSign(x.n)
    ensures x.n in Exposed(x) && BindsLooser(x.n, Exponentiation)
    ensures forall f :: IsFunction(f) ==> BindsLooser(x.n, f)
  {
  }

  /** `abs -A`, for every named operator of one operand: the sign ends the operator before it has one. */
  lemma FunctionOfSignFails(lib: Library, f: Name, sign: Name, a: string, images: seq<seq<Pixel>>)
    requires IsSign(sign) && IsFunction(f) && Pops(f) == 1 && Known(a, images)
    ensures var e := Prefix(f, Prefix(sign, Variable(a)));
            WellFormed(e) && !Readable(e) &&
            Calculate(lib, Print(e), images) == Ended(Done(Bad(TooFewOperands(1, 0, f))))
  {
    var x := Prefix(sign, Variable(a));
    var e := Prefix(f, x);
    assert WellFormed(x) && Missing(x, |images|) == [];
    CalculateTree(lib, e, images);
    var v := Lookup(images, a);
    var p, q := Label(f, 0, PrintTo(x, "")), Label(sign, 0, PrintTo(Variable(a), ""));
    assert TreeOf(x, 0, "", images) == Node(Leaf([]), q, Leaf([v]));
    assert TreeOf(e, 0, "", images) == SignTree([], p, q, v);
    SignEndsEarly([], p, q, v);
    FunctionIsStarved(lib, p, q, v);
    SignIsExposed(x);
  }

  lemma FunctionIsStarved(lib: Library, p: Op, q: Op, v: Value)
    requires p.Declared() == 1
    ensures Evaluate(lib, Operands([]) + [Operator(p), Operand(v), Operator(q)], []) ==
            Done(Bad(TooFewOperands(1, 0, p.name)))
  {
    var ts := Operands([]) + [Operator(p), Operand(v), Operator(q)];
    assert ts[0] == Operator(p);
  }

  // ---------------------------------------------------------------- the imaginary unit in front of a power

  /** A single operand that has a value. */
  predicate Plain(x: Expr, images: seq<seq<Pixel>>) {
    (x.Numeral? || x.Variable? || x.Unit?) && WellFormed(x) && Missing(x, |images|) == []
  }

  /** `A i ^ x` as it is written. */
  function UnitThenPower(a: string, x: Expr): Expr {
    Infix(Exponentiation, TimesI(Variable(a)), x)
  }

  /** `(A ^ x) i`. */
  function PowerThenUnit(a: string, x: Expr): Expr {
    TimesI(Infix(Exponentiation, Variable(a), x))
  }

  /** The value of a single operand. */
  function ValueOf(x: Expr, images: seq<seq<Pixel>>): Value
    requires Plain(x, images)
  {
    match x
    case Numeral(text) => Scalar(Complex(NumeralValue(text), 0.0))
    case Variable(name) => Lookup(images, name)
    case _ => Scalar(IMAGINARY_UNIT)
  }

  /** The power binds tighter than the unit in front of it, and is emitted before it. */
  lemma UnitIsEmittedLast(u: Value, p: Op, q: Op, v: Value)
    requires p.name == ImaginaryUnit && q.name == Exponentiation && p.precedence + 1 == q.precedence
    ensures Parse(Operands([u]) + [Operator(p)] + ([Operator(q)] + [Operand(v)])) ==
            [Operand(u), Operand(v), Operator(q), Operator(p)]
  {
    var none: seq<Token<Value>> := [];
    var last := [Operand(v)];
    assert Operands([u]) == [Operand(u)];
    SplitAtDominant(Operands([u]), p, [Operator(q)] + last);
    assert none + [Operator(q)] + last == [Operator(q)] + last;
    SplitAtDominant(none, q, last);
    OperandsParse(Operands([u]));
    OperandsParse(last);
    OperandsParse(none);
    assert [Operand(u)] + (none + last + [Operator(q)]) + [Operator(p)] ==
           [Operand(u), Operand(v), Operator(q), Operator(p)];
  }

  lemma PushTwo(lib: Library, u: Value, v: Value, rest: seq<Token<Value>>)
    ensures Evaluate(lib, [Operand(u), Operand(v)] + rest, []) == Evaluate(lib, rest, [u, v])
  {
    var ts := [Operand(u), Operand(v)] + rest;
    assert ts[1..] == [Operand(v)] + rest && ts[1..][1..] == rest;
    assert [] + [u] == [u] && [u] + [v] == [u, v];
  }

  lemma RunUnit(lib: Library, w: Value, p: Op)
    requires !w.Bad? && p.name == ImaginaryUnit
    ensures Evaluate(lib, [Operator(p)], [w]) == Done(Apply(lib, ImaginaryUnit, [w]))
  {
    var none: seq<Token<Value>> := [];
    assert [Operator(p)] == [Operator(p)] + none && [] + [w] == [w];
    OperatorStep(lib, p, [w], none, []);
  }

  lemma RunUnitPower(lib: Library, u: Value, v: Value, q: Op, p: Op, w: Value)
    requires !u.Bad? && !v.Bad? && q.name == Exponentiation && p.name == ImaginaryUnit
    requires w == Apply(lib, Exponentiation, [u, v])
    ensures Evaluate(lib, [Operand(u), Operand(v), Operator(q), Operator(p)], []) ==
            Done(if w.Bad? then w else Apply(lib, ImaginaryUnit, [w]))
  {
    assert [Operand(u), Operand(v), Operator(q), Operator(p)] ==
           [Operand(u), Operand(v)] + ([Operator(q)] + [Operator(p)]);
    PushTwo(lib, u, v, [Operator(q)] + [Operator(p)]);
    assert [] + [u, v] == [u, v];
    OperatorStep(lib, q, [u, v], [Operator(p)], []);
    if !w.Bad? {
      assert [] + [w] == [w];
      RunUnit(lib, w, p);
    }
  }

  lemma UnitTree(a: string, x: Expr, images: seq<seq<Pixel>>)
    requires Known(a, images) && Plain(x, images)
    ensures WellFormed(UnitThenPower(a, x)) && Missing(UnitThenPower(a, x), |images|) == []
    ensures var p := Label(ImaginaryUnit, 0, Put(Exponentiation, PrintTo(x, "")));
            var q := Label(Exponentiation, 0, PrintTo(x, ""));
            Inorder(TreeOf(UnitThenPower(a, x), 0, "", images)) ==
            Operands([Lookup(images, a)]) + [Operator(p)] + ([Operator(q)] + [Operand(ValueOf(x, images))])
  {
    var tail := Put(Exponentiation, PrintTo(x, ""));
    var p, q := Label(ImaginaryUnit, 0, tail), Label(Exponentiation, 0, PrintTo(x, ""));
    var l := TreeOf(TimesI(Variable(a)), 0, tail, images);
    PlainTree(Variable(a), 0, Put(ImaginaryUnit, tail), images);
    PlainTree(x, 0, "", images);
    assert l == Node(Leaf([Lookup(images, a)]), p, Leaf([]));
    assert Inorder(l) == Operands([Lookup(images, a)]) + [Operator(p)];
    assert Inorder(Node(l, q, TreeOf(x, 0, "", images))) ==
           Inorder(l) + [Operator(q)] + [Operand(ValueOf(x, images))];
  }

  lemma PlainTree(x: Expr, shift: int, rest: string, images: seq<seq<Pixel>>)
    requires Plain(x, images)
    ensures TreeOf(x, shift, rest, images) == Leaf([ValueOf(x, images)])
    ensures Inorder(TreeOf(x, shift, rest, images)) == [Operand(ValueOf(x, images))]
  {
    ReadLeaf(ValueOf(x, images), Tokens([]));
    assert Operands([ValueOf(x, images)]) == [Operand(ValueOf(x, images))];
  }

  /** `A i ^ x`, for every image and every single operand, evaluates to what `(A ^ x) i` means. */
  lemma UnitBeforePowerMovesBehind(lib: Library, a: string, x: Expr, images: seq<seq<Pixel>>)
    requires Known(a, images) && Plain(x, images)
    ensures WellFormed(UnitThenPower(a, x)) && WellFormed(PowerThenUnit(a, x)) && !Readable(UnitThenPower(a, x))
    ensures Calculate(lib, Print(UnitThenPower(a, x)), images) ==
            Ended(Done(Answer(MeaningOf(lib, PowerThenUnit(a, x), images))))
  {
    var u, v := Lookup(images, a), ValueOf(x, images);
    var p := Label(ImaginaryUnit, 0, Put(Exponentiation, PrintTo(x, "")));
    var q := Label(Exponentiation, 0, PrintTo(x, ""));
    UnitTree(a, x, images);
    UnitIsExposed(a);
    CalculateTree(lib, UnitThenPower(a, x), images);
    UnitIsEmittedLast(u, p, q, v);
    RunUnitPower(lib, u, v, q, p, Apply(lib, Exponentiation, [u, v]));
    MeaningOfPowerThenUnit(lib, a, x, images);
  }

  lemma UnitIsExposed(a: string)
    ensures ImaginaryUnit in Exposed(TimesI(Variable(a))) && !BindsLooser(Exponentiation, ImaginaryUnit)
  {
  }

  lemma MeaningOfPowerThenUnit(lib: Library, a: string, x: Expr, images: seq<seq<Pixel>>)
    requires Known(a, images) && Plain(x, images)
    ensures WellFormed(PowerThenUnit(a, x))
    ensures Answer(MeaningOf(lib, PowerThenUnit(a, x), images)) ==
            var w := Apply(lib, Exponentiation, [Lookup(images, a), ValueOf(x, images)]);
            if w.Bad? then w else Apply(lib, ImaginaryUnit, [w])
  {
    var u, v := Lookup(images, a), ValueOf(x, images);
    assert MeaningOf(lib, Variable(a), images) == Yields([u]) && MeaningOf(lib, x, images) == Yields([v]);
    assert [u] + [v] == [u, v];
    var w := Apply(lib, Exponentiation, [u, v]);
    assert MeaningOf(lib, Infix(Exponentiation, Variable(a), x), images) == Settle(w);
  }
}
