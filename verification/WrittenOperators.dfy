/** The operators from the strings they are written in: what evaluating such a string gives. */
module WrittenOperators {
  import opened ComplexNumbers
  import opened Operators
  import opened ShuntingYard
  import opened Machine
  import opened Tokenizer
  import opened Expressions
  import opened Compiler
  import opened Calculator
  import opened OperatorLaws

  // ---------------------------------------------------------------- the texts

  /** Operators written between their operands. */
  const BETWEEN: map<string, Name> := map[
    "+" := Addition, "-" := Subtraction, "*" := Multiplication, "/" := Division, "^" := Exponentiation,
    "<" := SmallerThan, ">" := GreaterThan, "==" := Equality, "&&" := LogicalAnd, "||" := LogicalOr]

  /** Operators written in front of one operand that act on its numbers. */
  const IN_FRONT: map<string, Name> := map[
    "+" := UnaryPlus, "-" := UnaryMinus, "abs" := AbsoluteValue, "conj" := ComplexConjugate, "re" := RealPart,
    "im" := ImaginaryPart, "arg" := ComplexArgument, "exp" := Exponential, "log" := Logarithm, "sqrt" := SquareRoot]

  /** Those that look at a whole image. */
  const ON_IMAGES: map<string, Name> := map[
    "fft" := FourierTransform, "ifft" := InverseFourierTransform, "mask" := Mask, "sum" := Integrate,
    "posx" := PositionX, "posy" := PositionY, "posz" := PositionZ]

  /** Those with two operands in parentheses. */
  const WITH_TWO: map<string, Name> := map["min" := Minimum, "max" := Maximum, "set_mask" := SetMask]

  lemma BetweenIsSpelled(text: string)
    requires text in BETWEEN
    ensures IsInfix(BETWEEN[text]) && Spelling(BETWEEN[text]) == text
  {
  }

  lemma InFrontIsSpelled(text: string)
    requires text in IN_FRONT
    ensures var n := IN_FRONT[text];
            OfNumbers(n) && Spelling(n) == text && n != ImaginaryUnit &&
            (IsSign(n) || (IsFunction(n) && Pops(n) == 1))
  {
  }

  lemma OnImagesIsSpelled(text: string)
    requires text in ON_IMAGES
    ensures var n := ON_IMAGES[text];
            OfWholes(n) && Spelling(n) == text && IsFunction(n) && Pops(n) == 1
  {
  }

  lemma WithTwoIsSpelled(text: string)
    requires text in WITH_TWO
    ensures var n := WITH_TWO[text];
            Spelling(n) == text && IsFunction(n) && Pops(n) == 2 && n in {Minimum, Maximum, SetMask}
  {
  }

  // ---------------------------------------------------------------- single operands

  /** A single operand as it is written. */
  function Word(x: Expr): string {
    match x
    case Numeral(text) => text
    case Variable(name) => name
    case _ => "i"
  }

  lemma WordIsPrinted(x: Expr, rest: string)
    requires x.Numeral? || x.Variable? || x.Unit?
    ensures PrintTo(x, rest) == Word(x) + " " + rest
  {
  }

  /** A single operand means its value. */
  lemma PlainMeans(lib: Library, x: Expr, images: seq<seq<Pixel>>)
    requires Plain(x, images)
    ensures MeaningOf(lib, x, images) == Yields([ValueOf(x, images)]) && Readable(x) && Exposed(x) == []
    ensures Width(x) == 1 && !ValueOf(x, images).Bad?
  {
  }

  // ---------------------------------------------------------------- between two operands

  lemma InfixMeans(lib: Library, n: Name, x: Expr, y: Expr, images: seq<seq<Pixel>>, u: Value, v: Value)
    requires IsInfix(n) && Plain(x, images) && Plain(y, images)
    requires u == ValueOf(x, images) && v == ValueOf(y, images)
    ensures WellFormed(Infix(n, x, y)) && Readable(Infix(n, x, y))
    ensures Expected(lib, Infix(n, x, y), images) == Binary(lib, n, u, v)
  {
    PlainMeans(lib, x, images);
    PlainMeans(lib, y, images);
    assert Missing(Infix(n, x, y), |images|) == [];
    assert [u] + [v] == [u, v];
    if n == Subtraction {
      SubtractionIsDifference(lib, u, v);
    }
    assert Answer(Settle(Binary(lib, n, u, v))) == Binary(lib, n, u, v);
  }

  /** `x op y`, for every operator between two single operands: the operator's law at every pixel. */
  lemma BetweenOperands(lib: Library, text: string, x: Expr, y: Expr, images: seq<seq<Pixel>>, size: nat,
                        u: Value, v: Value)
    requires text in BETWEEN && Plain(x, images) && Plain(y, images)
    requires u == ValueOf(x, images) && v == ValueOf(y, images) && Sized(u, size) && Sized(v, size)
    ensures var r := Calculate(lib, Word(x) + " " + (text + " " + (Word(y) + " ")), images);
            r.Ended? && r.outcome.Done? &&
            if text == "^" && v.Image? then r.outcome.v == Bad(ScalarPowerOnly)
            else PairResult(lib, BETWEEN[text], u, v, r.outcome.v, size)
  {
    var n := BETWEEN[text];
    BetweenIsSpelled(text);
    InfixMeans(lib, n, x, y, images, u, v);
    CalculatesMeaning(lib, Infix(n, x, y), images);
    WordIsPrinted(y, "");
    assert Word(y) + " " + "" == Word(y) + " ";
    WordIsPrinted(x, Put(n, PrintTo(y, "")));
    assert Put(n, PrintTo(y, "")) == text + " " + (Word(y) + " ");
    PairsObey(lib, n, u, v, size);
    PowerText(text);
  }

  lemma PowerText(text: string)
    requires text in BETWEEN
    ensures text == "^" <==> BETWEEN[text] == Exponentiation
  {
  }

  // ---------------------------------------------------------------- in front of one operand

  lemma PrefixMeans(lib: Library, n: Name, x: Expr, images: seq<seq<Pixel>>, u: Value)
    requires (IsSign(n) || (IsFunction(n) && Pops(n) == 1)) && Plain(x, images) && u == ValueOf(x, images)
    ensures WellFormed(Prefix(n, x)) && Readable(Prefix(n, x))
    ensures Expected(lib, Prefix(n, x), images) == Unary(lib, n, u)
  {
    PlainMeans(lib, x, images);
    assert Missing(Prefix(n, x), |images|) == [];
    assert n == UnaryPlus ==> Unary(lib, n, u) == u;
    assert Answer(Settle(Unary(lib, n, u))) == Unary(lib, n, u);
  }

  lemma PrefixString(lib: Library, n: Name, text: string, x: Expr, images: seq<seq<Pixel>>, u: Value)
    requires (IsSign(n) || (IsFunction(n) && Pops(n) == 1)) && Plain(x, images) && u == ValueOf(x, images)
    requires Spelling(n) == text
    ensures Calculate(lib, text + " " + (Word(x) + " "), images) == Ended(Done(Unary(lib, n, u)))
  {
    PrefixMeans(lib, n, x, images, u);
    CalculatesMeaning(lib, Prefix(n, x), images);
    WordIsPrinted(x, "");
    assert Word(x) + " " + "" == Word(x) + " ";
  }

  /** `op x`, for every operator on the numbers of one operand. */
  lemma InFrontOfOperand(lib: Library, text: string, x: Expr, images: seq<seq<Pixel>>, size: nat, u: Value)
    requires text in IN_FRONT && Plain(x, images) && u == ValueOf(x, images) && Sized(u, size)
    ensures var r := Calculate(lib, text + " " + (Word(x) + " "), images);
            r.Ended? && r.outcome.Done? && NumberResult(lib, IN_FRONT[text], u, r.outcome.v, size)
  {
    InFrontIsSpelled(text);
    PrefixString(lib, IN_FRONT[text], text, x, images, u);
    NumbersObey(lib, IN_FRONT[text], u, size);
  }

  /** `op x`, for every operator on whole images; only `sum` takes a scalar, and leaves it alone. */
  lemma OnWholeImage(lib: Library, text: string, x: Expr, images: seq<seq<Pixel>>, u: Value)
    requires text in ON_IMAGES && Plain(x, images) && u == ValueOf(x, images) && !u.Bad?
    ensures var r := Calculate(lib, text + " " + (Word(x) + " "), images);
            r.Ended? && r.outcome.Done? &&
            if u.Image? then WholeResult(lib, ON_IMAGES[text], u.pixels, r.outcome.v)
            else r.outcome.v == if text == "sum" then u else Bad(ImagesOnly(ON_IMAGES[text]))
  {
    OnImagesIsSpelled(text);
    PrefixString(lib, ON_IMAGES[text], text, x, images, u);
    WholesObey(lib, ON_IMAGES[text], u);
    SumText(text);
  }

  lemma SumText(text: string)
    requires text in ON_IMAGES
    ensures text == "sum" <==> ON_IMAGES[text] == Integrate
  {
  }

  // ---------------------------------------------------------------- behind an operand

  /** `x i`: the operand times the imaginary unit. */
  lemma UnitBehindOperand(lib: Library, x: Expr, images: seq<seq<Pixel>>, size: nat, u: Value)
    requires Plain(x, images) && u == ValueOf(x, images) && Sized(u, size)
    ensures var r := Calculate(lib, Word(x) + " i ", images);
            r.Ended? && r.outcome.Done? && NumberResult(lib, ImaginaryUnit, u, r.outcome.v, size)
  {
    var e := TimesI(x);
    PlainMeans(lib, x, images);
    assert Missing(e, |images|) == [] && WellFormed(e) && Readable(e);
    assert Answer(Settle(Unary(lib, ImaginaryUnit, u))) == Unary(lib, ImaginaryUnit, u) by {
      NumbersObey(lib, ImaginaryUnit, u, size);
    }
    CalculatesMeaning(lib, e, images);
    WordIsPrinted(x, "i ");
    assert Word(x) + " " + "i " == Word(x) + " i ";
    assert Put(ImaginaryUnit, "") == "i ";
    NumbersObey(lib, ImaginaryUnit, u, size);
  }

  /** The imaginary unit times itself is minus one. */
  lemma UnitSquared(lib: Library, images: seq<seq<Pixel>>)
    ensures Calculate(lib, "i * i ", images) == Ended(Done(Scalar(Complex(-1.0, 0.0))))
  {
    var u := Scalar(Complex(0.0, 1.0));
    BetweenOperands(lib, "*", Unit, Unit, images, 0, u, u);
    assert Word(Unit) + " " + ("*" + " " + (Word(Unit) + " ")) == "i * i ";
    UnitTimesUnit(lib, u, Calculate(lib, "i * i ", images).outcome.v);
  }

  lemma UnitTimesUnit(lib: Library, u: Value, v: Value)
    requires u == Scalar(Complex(0.0, 1.0)) && PairResult(lib, Multiplication, u, u, v, 0)
    ensures v == Scalar(Complex(-1.0, 0.0))
  {
    assert PairAt(lib, Multiplication, u, u, v, 0);
    assert Part(u, 0) == Complex(0.0, 1.0);
  }

  // ---------------------------------------------------------------- with operands in parentheses

  /** `op ( x , y )` as a tree. */
  function Call2(n: Name, x: Expr, y: Expr): Expr {
    Prefix(n, Group(Infix(Comma, x, y)))
  }

  lemma CommaReads(x: Expr, e: Expr, images: seq<seq<Pixel>>)
    requires Plain(x, images) && WellFormed(e) && Missing(e, |images|) == [] && Readable(e)
    requires Exposed(e) == [] || Exposed(e) == [Comma]
    ensures var list := Infix(Comma, x, e);
            WellFormed(list) && Missing(list, |images|) == [] && Readable(list) && Width(list) == 1 + Width(e) &&
            Exposed(list) == [Comma] + Exposed(e)
  {
    PlainReads(x, |images|, images);
    ListReads(x, e, |images|, Exposed(e));
  }

  lemma PlainReads(x: Expr, n: nat, images: seq<seq<Pixel>>)
    requires Plain(x, images) && n == |images|
    ensures WellFormed(x) && Readable(x) && Exposed(x) == [] && Width(x) == 1 && Missing(x, n) == []
  {
  }

  lemma ListReads(x: Expr, e: Expr, n: nat, ks: seq<Name>)
    requires WellFormed(x) && Readable(x) && Exposed(x) == [] && Width(x) == 1 && Missing(x, n) == []
    requires WellFormed(e) && Readable(e) && Missing(e, n) == [] && ks == Exposed(e) && (ks == [] || ks == [Comma])
    ensures var list := Infix(Comma, x, e);
            WellFormed(list) && Missing(list, n) == [] && Readable(list) && Width(list) == 1 + Width(e) &&
            Exposed(list) == [Comma] + ks
  {
    CommasStand();
    assert forall m :: m in ks ==> m == Comma;
  }

  lemma CommasStand()
    ensures !BindsLooser(Comma, Comma)
  {
  }

  /** An operand in front of an argument list. */
  lemma CommaMeans(lib: Library, x: Expr, e: Expr, images: seq<seq<Pixel>>, u: Value, vs: seq<Value>)
    requires Plain(x, images) && u == ValueOf(x, images)
    requires WellFormed(e) && Missing(e, |images|) == [] && Readable(e) && MeaningOf(lib, e, images) == Yields(vs)
    requires Exposed(e) == [] || Exposed(e) == [Comma]
    ensures var list := Infix(Comma, x, e);
            WellFormed(list) && Missing(list, |images|) == [] && Readable(list) && Width(list) == 1 + Width(e) &&
            Exposed(list) == [Comma] + Exposed(e) && MeaningOf(lib, list, images) == Yields([u] + vs)
  {
    CommaReads(x, e, images);
    PlainMeans(lib, x, images);
    assert Both(lib, Comma, Yields([u]), Yields(vs)) == Yields([u] + vs);
  }

  lemma SettledAnswer(v: Value)
    ensures Answer(Settle(v)) == v
  {
  }

  lemma FunctionReads(n: Name, e: Expr, images: nat)
    requires IsFunction(n) && WellFormed(e) && Missing(e, images) == [] && Readable(e) && Width(e) == Pops(n)
    ensures var call := Prefix(n, Group(e)); WellFormed(call) && Readable(call) && Missing(call, images) == []
  {
    assert Exposed(Group(e)) == [];
  }

  /** A named operator in front of an argument list in parentheses. */
  lemma FunctionMeans(lib: Library, n: Name, e: Expr, images: seq<seq<Pixel>>, vs: seq<Value>, r: Value)
    requires IsFunction(n) && WellFormed(e) && Missing(e, |images|) == [] && Readable(e)
    requires MeaningOf(lib, e, images) == Yields(vs) && Width(e) == Pops(n) == |vs| && 2 <= |vs| <= 3
    requires r == Apply(lib, n, vs)
    ensures WellFormed(Prefix(n, Group(e))) && Readable(Prefix(n, Group(e)))
    ensures Expected(lib, Prefix(n, Group(e)), images) == r
  {
    FunctionReads(n, e, |images|);
    assert MeaningOf(lib, Group(e), images) == Yields(vs);
    assert MeaningOf(lib, Prefix(n, Group(e)), images) == Settle(r);
    SettledAnswer(r);
  }

  lemma CallPrints(n: Name, e: Expr)
    ensures Print(Prefix(n, Group(e))) == Spelling(n) + " " + ("( " + PrintTo(e, ") "))
  {
    assert ") " + "" == ") ";
    assert PrintTo(Group(e), "") == "( " + PrintTo(e, ") " + "");
    assert Print(Prefix(n, Group(e))) == Put(n, PrintTo(Group(e), ""));
  }

  lemma TwoMean(lib: Library, x: Expr, y: Expr, images: seq<seq<Pixel>>, u: Value, v: Value, list: Expr)
    requires Plain(x, images) && Plain(y, images) && list == Infix(Comma, x, y)
    requires u == ValueOf(x, images) && v == ValueOf(y, images)
    ensures WellFormed(list) && Missing(list, |images|) == [] && Readable(list) && Width(list) == 2
    ensures Exposed(list) == [Comma] && MeaningOf(lib, list, images) == Yields([u, v])
  {
    PlainMeans(lib, y, images);
    CommaMeans(lib, x, y, images, u, [v]);
    assert [u] + [v] == [u, v] && [Comma] + [] == [Comma];
  }

  lemma CallMeans(lib: Library, n: Name, x: Expr, y: Expr, images: seq<seq<Pixel>>, u: Value, v: Value)
    requires IsFunction(n) && Pops(n) == 2 && Plain(x, images) && Plain(y, images)
    requires u == ValueOf(x, images) && v == ValueOf(y, images)
    ensures WellFormed(Call2(n, x, y)) && Readable(Call2(n, x, y))
    ensures Expected(lib, Call2(n, x, y), images) == Binary(lib, n, u, v)
  {
    TwoMean(lib, x, y, images, u, v, Infix(Comma, x, y));
    FunctionMeans(lib, n, Infix(Comma, x, y), images, [u, v], Apply(lib, n, [u, v]));
  }

  /** `min ( x , y )`, `max ( x , y )` and `set_mask ( x , y )`. */
  lemma WithTwoOperands(lib: Library, text: string, x: Expr, y: Expr, images: seq<seq<Pixel>>, size: nat,
                        u: Value, v: Value)
    requires text in WITH_TWO && Plain(x, images) && Plain(y, images)
    requires u == ValueOf(x, images) && v == ValueOf(y, images) && Sized(u, size) && Sized(v, size)
    ensures var r := Calculate(lib, text + " " + ("( " + (Word(x) + " " + (", " + (Word(y) + " ) ")))), images);
            r.Ended? && r.outcome.Done? &&
            if text != "set_mask" then PairResult(lib, WITH_TWO[text], u, v, r.outcome.v, size)
            else if u.Image? then MaskResult(lib, u, v, r.outcome.v)
            else r.outcome.v == Bad(ImagesOnly(SetMask))
  {
    var n := WITH_TWO[text];
    WithTwoIsSpelled(text);
    CallMeans(lib, n, x, y, images, u, v);
    CalculatesMeaning(lib, Call2(n, x, y), images);
    CallPrinted(n, x, y);
    SetMaskText(text);
    if n == SetMask {
      SetMaskObeys(lib, u, v, size);
    } else {
      PairsObey(lib, n, u, v, size);
    }
  }

  lemma SetMaskText(text: string)
    requires text in WITH_TWO
    ensures text == "set_mask" <==> WITH_TWO[text] == SetMask
  {
  }

  lemma CallPrinted(n: Name, x: Expr, y: Expr)
    requires (x.Numeral? || x.Variable? || x.Unit?) && (y.Numeral? || y.Variable? || y.Unit?)
    ensures Print(Call2(n, x, y)) == Spelling(n) + " " + ("( " + (Word(x) + " " + (", " + (Word(y) + " ) "))))
  {
    WordIsPrinted(y, ") ");
    assert Word(y) + " " + ") " == Word(y) + " ) ";
    assert Put(Comma, PrintTo(y, ") ")) == ", " + (Word(y) + " ) ");
    WordIsPrinted(x, Put(Comma, PrintTo(y, ") ")));
    assert PrintTo(Infix(Comma, x, y), ") ") == PrintTo(x, Put(Comma, PrintTo(y, ") ")));
    CallPrints(n, Infix(Comma, x, y));
  }

  /** `if ( x , y , z )` as a tree. */
  function CallIf(x: Expr, y: Expr, z: Expr): Expr {
    Prefix(ConditionalIf, Group(Infix(Comma, x, Infix(Comma, y, z))))
  }

  lemma IfMeans(lib: Library, x: Expr, y: Expr, z: Expr, images: seq<seq<Pixel>>, u: Value, v: Value, w: Value)
    requires Plain(x, images) && Plain(y, images) && Plain(z, images)
    requires u == ValueOf(x, images) && v == ValueOf(y, images) && w == ValueOf(z, images)
    ensures WellFormed(CallIf(x, y, z)) && Readable(CallIf(x, y, z))
    ensures Expected(lib, CallIf(x, y, z), images) == Choose(u, v, w)
  {
    var two := Infix(Comma, y, z);
    TwoMean(lib, y, z, images, v, w, two);
    ThreeMean(lib, x, two, images, u, v, w, Infix(Comma, x, two));
    ChooseApplies(lib, u, v, w);
    FunctionMeans(lib, ConditionalIf, Infix(Comma, x, two), images, [u, v, w], Choose(u, v, w));
  }

  lemma ChooseApplies(lib: Library, u: Value, v: Value, w: Value)
    ensures Apply(lib, ConditionalIf, [u, v, w]) == Choose(u, v, w)
  {
  }

  lemma ThreeMean(lib: Library, x: Expr, two: Expr, images: seq<seq<Pixel>>, u: Value, v: Value, w: Value, list: Expr)
    requires Plain(x, images) && u == ValueOf(x, images) && list == Infix(Comma, x, two)
    requires WellFormed(two) && Missing(two, |images|) == [] && Readable(two) && Width(two) == 2
    requires Exposed(two) == [Comma] && MeaningOf(lib, two, images) == Yields([v, w])
    ensures WellFormed(list) && Missing(list, |images|) == [] && Readable(list) && Width(list) == 3
    ensures MeaningOf(lib, list, images) == Yields([u, v, w])
  {
    CommaMeans(lib, x, two, images, u, [v, w]);
    assert [u] + [v, w] == [u, v, w];
  }

  lemma IfPrinted(x: Expr, y: Expr, z: Expr)
    requires (x.Numeral? || x.Variable? || x.Unit?) && (y.Numeral? || y.Variable? || y.Unit?)
    requires z.Numeral? || z.Variable? || z.Unit?
    ensures Print(CallIf(x, y, z)) ==
            "if " + ("( " + (Word(x) + " " + (", " + (Word(y) + " " + (", " + (Word(z) + " ) "))))))
  {
    WordIsPrinted(z, ") ");
    assert Word(z) + " " + ") " == Word(z) + " ) ";
    assert Put(Comma, PrintTo(z, ") ")) == ", " + (Word(z) + " ) ");
    WordIsPrinted(y, Put(Comma, PrintTo(z, ") ")));
    assert Put(Comma, PrintTo(y, Put(Comma, PrintTo(z, ") ")))) ==
           ", " + (Word(y) + " " + (", " + (Word(z) + " ) ")));
    WordIsPrinted(x, Put(Comma, PrintTo(y, Put(Comma, PrintTo(z, ") ")))));
    var list := Infix(Comma, x, Infix(Comma, y, z));
    assert PrintTo(list, ") ") == PrintTo(x, Put(Comma, PrintTo(Infix(Comma, y, z), ") ")));
    assert PrintTo(Infix(Comma, y, z), ") ") == PrintTo(y, Put(Comma, PrintTo(z, ") ")));
    CallPrints(ConditionalIf, list);
    assert "if" + " " == "if ";
  }

  /** `if ( x , y , z )`. */
  lemma WithThreeOperands(lib: Library, x: Expr, y: Expr, z: Expr, images: seq<seq<Pixel>>, size: nat,
                          u: Value, v: Value, w: Value)
    requires Plain(x, images) && Plain(y, images) && Plain(z, images)
    requires u == ValueOf(x, images) && v == ValueOf(y, images) && w == ValueOf(z, images)
    requires Sized(u, size) && Sized(v, size) && Sized(w, size)
    ensures var r := Calculate(lib, "if " + ("( " + (Word(x) + " " +
                                    (", " + (Word(y) + " " + (", " + (Word(z) + " ) ")))))), images);
            r.Ended? && r.outcome.Done? && ChoiceResult(u, v, w, r.outcome.v, size)
  {
    IfMeans(lib, x, y, z, images, u, v, w);
    CalculatesMeaning(lib, CallIf(x, y, z), images);
    IfPrinted(x, y, z);
    ChoiceObeys(u, v, w, size);
  }

  // ---------------------------------------------------------------- operands missing

  /** An operator in front of nothing: the error names the operands it declares. */
  lemma LonelyPrefix(lib: Library, n: Name, images: seq<seq<Pixel>>)
    requires IsSign(n) || IsFunction(n)
    ensures Calculate(lib, Put(n, ""), images) ==
            Ended(Done(Bad(TooFewOperands(if n == ConditionalIf then 3 else if n in {Minimum, Maximum} then 2 else 1,
                                          0, n))))
  {
    var op := Label(n, 0, "");
    LonelyTokens(n, images, op);
    LonelyParse([], op);
    DeclaredByPrefix(op);
    LonelyError(lib, [], op);
  }

  lemma LonelyTokens(n: Name, images: seq<seq<Pixel>>, op: Op)
    requires (IsSign(n) || IsFunction(n)) && op == Label(n, 0, "")
    ensures Tokenize(Put(n, ""), images) == Tokens([Operator(op)])
  {
    LexPut(n, "", 0, Nothing, images);
    assert Lex("", 0, AnOperator(n), images) == Tokens([]);
  }

  lemma DeclaredByPrefix(op: Op)
    requires IsSign(op.name) || IsFunction(op.name)
    ensures op.Declared() == if op.name == ConditionalIf then 3 else if op.name in {Minimum, Maximum} then 2 else 1
  {
  }

  lemma LonelyParse(vs: seq<Value>, op: Op)
    ensures Parse(Operands(vs) + [Operator(op)]) == Operands(vs) + [Operator(op)]
    ensures vs == [] ==> Operands(vs) + [Operator(op)] == [Operator(op)]
  {
    var none: seq<Token<Value>> := [];
    SplitAtDominant(Operands(vs), op, none);
    OperandsParse(Operands(vs));
    OperandsParse(none);
    assert Operands(vs) + [Operator(op)] + none == Operands(vs) + [Operator(op)];
    assert Operands(vs) + none + [Operator(op)] == Operands(vs) + [Operator(op)];
  }

  lemma LonelyError(lib: Library, vs: seq<Value>, op: Op)
    requires |vs| <= 1 && |vs| < op.Declared()
    ensures Evaluate(lib, Operands(vs) + [Operator(op)], []) ==
            Done(Bad(TooFewOperands(op.Declared(), |vs|, op.name)))
  {
    var ts := Operands(vs) + [Operator(op)];
    if |vs| == 1 {
      assert ts[0] == Operand(vs[0]) && ts[1..] == [Operator(op)];
      assert Evaluate(lib, ts, []) == Evaluate(lib, ts[1..], [] + [vs[0]]);
    }
  }

  lemma ReadBehind(n: Name, x: Expr, images: seq<seq<Pixel>>, u: Value, op: Op)
    requires (IsInfix(n) || n == Comma) && Plain(x, images) && u == ValueOf(x, images) && op == Label(n, 0, "")
    ensures Tokenize(PrintTo(x, Put(n, "")), images) == Tokens(Operands([u]) + [Operator(op)])
  {
    LexPrint(x, Put(n, ""), 0, Nothing, images);
    PlainTree(x, 0, Put(n, ""), images);
    LexPut(n, "", 0, Ends(x), images);
    assert Lex("", 0, AnOperator(n), images) == Tokens([]);
    assert Operands([u]) == [Operand(u)];
  }

  lemma DeclaredBetween(op: Op)
    requires (IsInfix(op.name) || op.name == Comma) && op.name != Exponentiation
    ensures op.Declared() == 2
  {
  }

  lemma LonelyRun(lib: Library, u: Value, op: Op, text: string, images: seq<seq<Pixel>>)
    requires Tokenize(text, images) == Tokens(Operands([u]) + [Operator(op)]) && op.Declared() > 1
    ensures Calculate(lib, text, images) == Ended(Done(Bad(TooFewOperands(op.Declared(), 1, op.name))))
  {
    LonelyParse([u], op);
    LonelyError(lib, [u], op);
  }

  /** An operator between operands or a comma with nothing behind it. */
  lemma LonelyInfix(lib: Library, n: Name, x: Expr, images: seq<seq<Pixel>>)
    requires (IsInfix(n) || n == Comma) && n != Exponentiation && Plain(x, images)
    ensures Calculate(lib, PrintTo(x, Put(n, "")), images) == Ended(Done(Bad(TooFewOperands(2, 1, n))))
  {
    var u, op := ValueOf(x, images), Label(n, 0, "");
    ReadBehind(n, x, images, u, op);
    DeclaredBetween(op);
    LonelyRun(lib, u, op, PrintTo(x, Put(n, "")), images);
  }

  /** A power with nothing behind it reads below the stack. */
  lemma LonelyPower(lib: Library, x: Expr, images: seq<seq<Pixel>>)
    requires Plain(x, images) && !ValueOf(x, images).Bad?
    ensures Calculate(lib, PrintTo(x, Put(Exponentiation, "")), images) == Ended(Underflow)
  {
    var u, op := ValueOf(x, images), Label(Exponentiation, 0, "");
    ReadBehind(Exponentiation, x, images, u, op);
    LonelyParse([u], op);
    PowerUnderflows(lib, u, op);
  }

  lemma PowerUnderflows(lib: Library, u: Value, op: Op)
    requires op.name == Exponentiation && !u.Bad?
    ensures Evaluate(lib, Operands([u]) + [Operator(op)], []) == Underflow
  {
    var ts := Operands([u]) + [Operator(op)];
    assert ts[0] == Operand(u) && ts[1..] == [Operator(op)];
    assert Evaluate(lib, ts, []) == Evaluate(lib, ts[1..], [] + [u]);
  }
}
