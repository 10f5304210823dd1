/** What expressions mean, and the proof that the three stages of the program compute it. */
module Compiler {
  import opened Common
  import opened ComplexNumbers
  import opened Operators
  import opened ShuntingYard
  import opened Machine
  import opened Tokenizer
  import opened Expressions

  // ---------------------------------------------------------------- which expressions read as written

  /** The operators outside all parentheses of the expression, in order. */
  function Exposed(e: Expr): seq<Name> {
    match e
    case Infix(n, l, r) => Exposed(l) + [n] + Exposed(r)
    case Prefix(n, x) => [n] + Exposed(x)
    case TimesI(x) => Exposed(x) + [ImaginaryUnit]
    case _ => []
  }

  /** By the table alone, an operator sends an earlier one of the same depth to the output. */
  predicate BindsLooser(incoming: Name, waiting: Name) {
    Evicts(Op(incoming, Precedence(incoming), 0), Op(waiting, Precedence(waiting), 0))
  }

  /** Left operands hold only tighter operators (or equal ones that associate to the left), right
      operands none that would end the operator early. */
  predicate Readable(e: Expr) {
    match e
    case Infix(n, l, r) =>
      Readable(l) && Readable(r) &&
      (forall m :: m in Exposed(l) ==> BindsLooser(n, m)) && (forall m :: m in Exposed(r) ==> !BindsLooser(m, n))
    case Prefix(n, x) => Readable(x) && forall m :: m in Exposed(x) ==> !BindsLooser(m, n)
    case TimesI(x) => Readable(x) && forall m :: m in Exposed(x) ==> BindsLooser(ImaginaryUnit, m)
    case Group(x) => Readable(x)
    case _ => true
  }

  /** An operator token that stands for an exposed name at the given shift. */
  predicate Shown(t: Token<Value>, names: seq<Name>, shift: int) {
    t.Operator? && t.op.name in names && t.op.precedence == Precedence(t.op.name) + shift
  }

  /** An operator token from inside a further pair of parentheses. */
  predicate Deeper(t: Token<Value>, shift: int) {
    t.Operator? && t.op.precedence >= shift + PARENTHESIS_SHIFT - 3
  }

  ghost predicate Accounted(ts: seq<Token<Value>>, names: seq<Name>, shift: int) {
    (forall i :: 0 <= i < |ts| && ts[i].Operator? ==> Shown(ts[i], names, shift) || Deeper(ts[i], shift)) &&
    (forall m :: m in names ==>
       exists i :: 0 <= i < |ts| && ts[i].Operator? && ts[i].op.name == m && Shown(ts[i], names, shift))
  }

  lemma AccountedConcat(ss: seq<Token<Value>>, ms: seq<Name>, ts: seq<Token<Value>>, ns: seq<Name>, shift: int)
    requires Accounted(ss, ms, shift) && Accounted(ts, ns, shift)
    ensures Accounted(ss + ts, ms + ns, shift)
  {
    var us := ss + ts;
    forall m | m in ms + ns
      ensures exists i :: 0 <= i < |us| && us[i].Operator? && us[i].op.name == m && Shown(us[i], ms + ns, shift)
    {
      if m in ms {
        var i :| 0 <= i < |ss| && ss[i].Operator? && ss[i].op.name == m && Shown(ss[i], ms, shift);
        assert us[i] == ss[i];
      } else {
        var i :| 0 <= i < |ts| && ts[i].Operator? && ts[i].op.name == m && Shown(ts[i], ns, shift);
        assert us[|ss| + i] == ts[i];
      }
    }
  }

  lemma NodeAccounted(l: Tree<Value>, ms: seq<Name>, n: Name, shift: int, tail: string, r: Tree<Value>, ns: seq<Name>)
    requires Accounted(Inorder(l), ms, shift) && Accounted(Inorder(r), ns, shift)
    ensures Accounted(Inorder(Node(l, Label(n, shift, tail), r)), ms + [n] + ns, shift)
  {
    var o := [Operator(Label(n, shift, tail))];
    NameAccounted(n, shift, tail);
    AccountedConcat(Inorder(l), ms, o, [n], shift);
    AccountedConcat(Inorder(l) + o, ms + [n], Inorder(r), ns, shift);
  }

  lemma {:induction false} TreeAccounted(e: Expr, shift: int, rest: string, images: seq<seq<Pixel>>)
    requires WellFormed(e)
    ensures Accounted(Inorder(TreeOf(e, shift, rest, images)), Exposed(e), shift)
  {
    match e {
      case Infix(n, l, r) =>
        var tail := PrintTo(r, rest);
        TreeAccounted(l, shift, Put(n, tail), images);
        TreeAccounted(r, shift, rest, images);
        NodeAccounted(TreeOf(l, shift, Put(n, tail), images), Exposed(l), n, shift, tail,
                      TreeOf(r, shift, rest, images), Exposed(r));
      case Prefix(n, x) =>
        TreeAccounted(x, shift, rest, images);
        NodeAccounted(Leaf([]), [], n, shift, PrintTo(x, rest), TreeOf(x, shift, rest, images), Exposed(x));
        assert [] + [n] + Exposed(x) == Exposed(e);
      case TimesI(x) =>
        var tail := Put(ImaginaryUnit, rest);
        TreeAccounted(x, shift, tail, images);
        NodeAccounted(TreeOf(x, shift, tail, images), Exposed(x), ImaginaryUnit, shift, rest, Leaf([]), []);
        assert Exposed(x) + [ImaginaryUnit] + [] == Exposed(e);
      case Group(x) =>
        TreeAccounted(x, shift + PARENTHESIS_SHIFT, ") " + rest, images);
      case _ =>
    }
  }

  lemma NameAccounted(n: Name, shift: int, tail: string)
    ensures Accounted([Operator(Label(n, shift, tail))], [n], shift)
  {
    var t: Token<Value> := Operator(Label(n, shift, tail));
    assert Shown(t, [n], shift);
    assert [t][0] == t;
  }

  /** Comparing a table name with every operator of an accounted list only needs the exposed names. */
  lemma ExposedDecideEviction(ts: seq<Token<Value>>, names: seq<Name>, shift: int, n: Name, tail: string)
    requires Accounted(ts, names, shift)
    ensures EvictsAll(Label(n, shift, tail), ts) <==> forall m :: m in names ==> BindsLooser(n, m)
  {
    var op := Label(n, shift, tail);
    forall m | m in names && EvictsAll(op, ts) ensures BindsLooser(n, m) {
      var i :| 0 <= i < |ts| && ts[i].Operator? && ts[i].op.name == m && Shown(ts[i], names, shift);
      assert Evicts(op, ts[i].op);
    }
  }

  lemma ExposedDecideStanding(ts: seq<Token<Value>>, names: seq<Name>, shift: int, n: Name, tail: string)
    requires Accounted(ts, names, shift)
    ensures Withstands(Label(n, shift, tail), ts) <==> forall m :: m in names ==> !BindsLooser(m, n)
  {
    var op := Label(n, shift, tail);
    forall m | m in names && Withstands(op, ts) ensures !BindsLooser(m, n) {
      var i :| 0 <= i < |ts| && ts[i].Operator? && ts[i].op.name == m && Shown(ts[i], names, shift);
      assert !Evicts(ts[i].op, op);
    }
  }

  /** Readability can be checked on the written expression; it says that the tokens are layered. */
  lemma {:induction false} ReadableIsLayered(e: Expr, shift: int, rest: string, images: seq<seq<Pixel>>)
    requires WellFormed(e)
    ensures Readable(e) <==> Layered(TreeOf(e, shift, rest, images))
  {
    match e {
      case Infix(n, l, r) =>
        var tail := PrintTo(r, rest);
        ReadableIsLayered(l, shift, Put(n, tail), images);
        ReadableIsLayered(r, shift, rest, images);
        TreeAccounted(l, shift, Put(n, tail), images);
        TreeAccounted(r, shift, rest, images);
        ExposedDecideEviction(Inorder(TreeOf(l, shift, Put(n, tail), images)), Exposed(l), shift, n, tail);
        ExposedDecideStanding(Inorder(TreeOf(r, shift, rest, images)), Exposed(r), shift, n, tail);
      case Prefix(n, x) =>
        ReadableIsLayered(x, shift, rest, images);
        TreeAccounted(x, shift, rest, images);
        ExposedDecideStanding(Inorder(TreeOf(x, shift, rest, images)), Exposed(x), shift, n, PrintTo(x, rest));
      case TimesI(x) =>
        var tail := Put(ImaginaryUnit, rest);
        ReadableIsLayered(x, shift, tail, images);
        TreeAccounted(x, shift, tail, images);
        ExposedDecideEviction(Inorder(TreeOf(x, shift, tail, images)), Exposed(x), shift, ImaginaryUnit, rest);
      case Group(x) =>
        ReadableIsLayered(x, shift + PARENTHESIS_SHIFT, ") " + rest, images);
      case _ =>
    }
  }

  /** Distinct operator tokens with ids above lo and up to hi. */
  ghost predicate Ids(ts: seq<Token<Value>>, lo: nat, hi: nat) {
    DistinctOperators(ts) && lo <= hi && forall i :: 0 <= i < |ts| && ts[i].Operator? ==> lo < ts[i].op.id <= hi
  }

  lemma IdsConcat(ss: seq<Token<Value>>, ts: seq<Token<Value>>, lo: nat, mid: nat, hi: nat)
    requires Ids(ss, mid, hi) && Ids(ts, lo, mid)
    ensures Ids(ss + ts, lo, hi)
  {
    var us := ss + ts;
    forall i, j | 0 <= i < j < |us| && us[i].Operator? ensures us[i] != us[j] {
      assert i < |ss| <= j && us[j].Operator? ==> us[j].op.id <= mid < us[i].op.id;
    }
  }

  lemma IdOfLabel(n: Name, shift: int, tail: string)
    ensures Ids([Operator(Label(n, shift, tail))], |tail|, |Put(n, tail)|)
  {
  }

  /** A node whose sides lie on either side of its label. */
  lemma IdsNode(l: Tree<Value>, n: Name, shift: int, tail: string, r: Tree<Value>, lo: nat, hi: nat)
    requires Ids(Inorder(l), |Put(n, tail)|, hi) && Ids(Inorder(r), lo, |tail|)
    ensures Ids(Inorder(Node(l, Label(n, shift, tail), r)), lo, hi)
  {
    var o := [Operator(Label(n, shift, tail))];
    IdOfLabel(n, shift, tail);
    IdsConcat(Inorder(l), o, |tail|, |Put(n, tail)|, hi);
    IdsConcat(Inorder(l) + o, Inorder(r), lo, |tail|, hi);
  }

  /** The operator tokens of one expression are all different. */
  lemma {:induction false} TokensDistinct(e: Expr, shift: int, rest: string, images: seq<seq<Pixel>>)
    requires WellFormed(e)
    ensures Ids(Inorder(TreeOf(e, shift, rest, images)), |rest|, |PrintTo(e, rest)|)
  {
    match e {
      case Infix(n, l, r) =>
        var tail := PrintTo(r, rest);
        TokensDistinct(l, shift, Put(n, tail), images);
        TokensDistinct(r, shift, rest, images);
        IdsNode(TreeOf(l, shift, Put(n, tail), images), n, shift, tail, TreeOf(r, shift, rest, images),
                |rest|, |PrintTo(e, rest)|);
      case Prefix(n, x) =>
        var tail := PrintTo(x, rest);
        TokensDistinct(x, shift, rest, images);
        IdsNode(Leaf([]), n, shift, tail, TreeOf(x, shift, rest, images), |rest|, |PrintTo(e, rest)|);
      case TimesI(x) =>
        var tail := Put(ImaginaryUnit, rest);
        TokensDistinct(x, shift, tail, images);
        IdsNode(TreeOf(x, shift, tail, images), ImaginaryUnit, shift, rest, Leaf([]), |rest|, |PrintTo(e, rest)|);
      case Group(x) =>
        TokensDistinct(x, shift + PARENTHESIS_SHIFT, ") " + rest, images);
      case _ =>
        assert |Inorder(TreeOf(e, shift, rest, images))| == 1;
    }
  }

  /** The program reorders an expression as it is written exactly when it is readable. */
  lemma ReorderedExactlyWhenReadable(e: Expr, images: seq<seq<Pixel>>)
    requires WellFormed(e) && Missing(e, |images|) == []
    ensures Tokenize(Print(e), images).Tokens?
    ensures Parse(Tokenize(Print(e), images).ts) == Postorder(TreeOf(e, 0, "", images)) <==> Readable(e)
  {
    var t := TreeOf(e, 0, "", images);
    LexPrint(e, "", 0, Nothing, images);
    assert Tokenize(Print(e), images) == Tokens(Inorder(t) + []);
    assert Inorder(t) + [] == Inorder(t);
    TokensDistinct(e, 0, "", images);
    ReadBackExactlyWhenLayered(t);
    ReadableIsLayered(e, 0, "", images);
  }

  // ---------------------------------------------------------------- meaning

  /** What a (possibly wide) expression yields, or the first error met from left to right. */
  datatype Sense = Yields(vs: seq<Value>) | Fails(error: Error)

  /** Pixelwise subtraction, said without the detour through addition. */
  function Difference(x: Value, y: Value): Value {
    match (x, y)
    case (Image(s), Image(t)) =>
      Image(seq(|t|, i requires 0 <= i < |t| => t[i].(z := Minus(At(s, i).z, t[i].z))))
    case (Image(s), Scalar(c)) => Image(MapPixels(z => Minus(z, c), s))
    case (Scalar(c), Image(t)) => Image(MapPixels(z => Minus(c, z), t))
    case (Scalar(c), Scalar(d)) => Scalar(Minus(c, d))
    case _ => x
  }

  lemma SubtractionIsDifference(lib: Library, x: Value, y: Value)
    requires !x.Bad? && !y.Bad?
    ensures Binary(lib, Subtraction, x, y) == Difference(x, y)
  {
    match (x, y)
    case (Image(s), Image(t)) =>
      assert Binary(lib, Subtraction, x, y).pixels == Difference(x, y).pixels;
    case (Image(s), Scalar(c)) =>
      assert Binary(lib, Subtraction, x, y).pixels == Difference(x, y).pixels;
    case (Scalar(c), Image(t)) =>
      assert Binary(lib, Subtraction, x, y).pixels == Difference(x, y).pixels;
    case _ =>
  }

  /** The operator applied to its arguments in the order they are written. */
  function Apply(lib: Library, n: Name, vs: seq<Value>): Value
    requires 1 <= |vs| <= 3
  {
    if n == UnaryPlus then vs[0]
    else if |vs| == 1 then Unary(lib, n, vs[0])
    else if |vs| == 2 then
      if n == Subtraction then Difference(vs[0], vs[1]) else Binary(lib, n, vs[0], vs[1])
    else Choose(vs[0], vs[1], vs[2])
  }

  function Settle(v: Value): Sense {
    if v.Bad? then Fails(v.error) else Yields([v])
  }

  /** What two yields and an infix operator come to. */
  function Combined(lib: Library, n: Name, xs: seq<Value>, ys: seq<Value>): Sense
    requires n != Comma ==> |xs| == |ys| == 1
  {
    if n == Comma then Yields(xs + ys) else Settle(Apply(lib, n, xs + ys))
  }

  /** Both operands in turn, then the operator. */
  function Both(lib: Library, n: Name, x: Sense, y: Sense): Sense
    requires n != Comma ==> (x.Yields? ==> |x.vs| == 1) && (y.Yields? ==> |y.vs| == 1)
  {
    match x
    case Fails(error) => Fails(error)
    case Yields(xs) =>
      match y
      case Fails(error) => Fails(error)
      case Yields(ys) => Combined(lib, n, xs, ys)
  }

  function MeaningOf(lib: Library, e: Expr, images: seq<seq<Pixel>>): (m: Sense)
    requires WellFormed(e)
    ensures m.Yields? ==> |m.vs| == Width(e) && forall i :: 0 <= i < |m.vs| ==> !m.vs[i].Bad?
  {
    match e
    case Numeral(text) => Yields([Scalar(Complex(NumeralValue(text), 0.0))])
    case Variable(name) => Settle(Lookup(images, name))
    case Unit => Yields([Scalar(IMAGINARY_UNIT)])
    case Infix(n, l, r) => Both(lib, n, MeaningOf(lib, l, images), MeaningOf(lib, r, images))
    case Prefix(n, x) =>
      (match MeaningOf(lib, x, images)
       case Fails(error) => Fails(error)
       case Yields(xs) => Settle(Apply(lib, n, xs)))
    case TimesI(x) =>
      (match MeaningOf(lib, x, images)
       case Fails(error) => Fails(error)
       case Yields(xs) => Settle(Apply(lib, ImaginaryUnit, xs)))
    case Group(x) => MeaningOf(lib, x, images)
  }

  // ---------------------------------------------------------------- running the postorder

  /** Going on with the rest of a postfix list from what an expression yields. */
  function Continue(lib: Library, m: Sense, rest: seq<Token<Value>>, stack: seq<Value>): Outcome {
    match m
    case Fails(error) => Done(Bad(error))
    case Yields(vs) => Evaluate(lib, rest, stack + vs)
  }

  /** An operator with its arguments on the stack replaces them by its result. */
  lemma OperatorStep(lib: Library, op: Op, vs: seq<Value>, rest: seq<Token<Value>>, stack: seq<Value>)
    requires Clean(stack) && Clean(vs) && 1 <= |vs| <= 3
    requires op.Declared() <= |vs| && op.name != Comma
    requires |vs| == Pops(op.name) || (op.name == UnaryPlus && |vs| == 1)
    ensures Evaluate(lib, [Operator(op)] + rest, stack + vs) ==
            Continue(lib, Settle(Apply(lib, op.name, vs)), rest, stack)
  {
    var full := stack + vs;
    assert ([Operator(op)] + rest)[1..] == rest;
    if op.name == UnaryPlus {
      assert vs == [vs[0]];
    } else {
      assert full[..|full| - |vs|] == stack;
      if op.name == Subtraction {
        SubtractionIsDifference(lib, vs[0], vs[1]);
      }
    }
  }

  /** A comma leaves its two arguments alone. */
  lemma CommaStep(lib: Library, op: Op, vs: seq<Value>, rest: seq<Token<Value>>, stack: seq<Value>)
    requires Clean(stack) && Clean(vs) && |vs| >= 2 && op.name == Comma
    ensures Evaluate(lib, [Operator(op)] + rest, stack + vs) == Evaluate(lib, rest, stack + vs)
  {
    assert ([Operator(op)] + rest)[1..] == rest;
    assert Last(stack + vs) == Last(vs);
  }

  /** Running the postorder of an expression pushes what it means, or stops with its first error. */
  lemma {:induction false} RunTree(lib: Library, e: Expr, shift: int, after: string, images: seq<seq<Pixel>>,
                                   rest: seq<Token<Value>>, stack: seq<Value>)
    requires WellFormed(e) && Missing(e, |images|) == [] && Clean(stack)
    ensures Evaluate(lib, Postorder(TreeOf(e, shift, after, images)) + rest, stack) ==
            Continue(lib, MeaningOf(lib, e, images), rest, stack)
    decreases e, 1
  {
    match e {
      case Infix(n, l, r) =>
        RunPair(lib, n, l, r, shift, after, images, rest, stack);
      case Prefix(n, x) =>
        RunSmaller(lib, x, Label(n, shift, PrintTo(x, after)), shift, after, images, rest, stack);
        assert [] + Postorder(TreeOf(x, shift, after, images)) == Postorder(TreeOf(x, shift, after, images));
      case TimesI(x) =>
        var tail := Put(ImaginaryUnit, after);
        RunSmaller(lib, x, Label(ImaginaryUnit, shift, after), shift, tail, images, rest, stack);
        assert Postorder(TreeOf(x, shift, tail, images)) + [] == Postorder(TreeOf(x, shift, tail, images));
      case Group(x) =>
        RunTree(lib, x, shift + PARENTHESIS_SHIFT, ") " + after, images, rest, stack);
      case _ =>
        RunLeaf(lib, e, shift, after, images, rest, stack);
    }
  }

  lemma {:induction false} RunPair(lib: Library, n: Name, l: Expr, r: Expr, shift: int, after: string,
                                   images: seq<seq<Pixel>>, rest: seq<Token<Value>>, stack: seq<Value>)
    requires WellFormed(Infix(n, l, r)) && Missing(Infix(n, l, r), |images|) == [] && Clean(stack)
    ensures Evaluate(lib, Postorder(TreeOf(Infix(n, l, r), shift, after, images)) + rest, stack) ==
            Continue(lib, MeaningOf(lib, Infix(n, l, r), images), rest, stack)
    decreases Infix(n, l, r), 0
  {
    var tail := PrintTo(r, after);
    var op := Label(n, shift, tail);
    var left := Postorder(TreeOf(l, shift, Put(n, tail), images));
    var right := Postorder(TreeOf(r, shift, after, images));
    var last := [Operator(op)] + rest;
    RunTree(lib, l, shift, Put(n, tail), images, right + last, stack);
    var x, y := MeaningOf(lib, l, images), MeaningOf(lib, r, images);
    if x.Yields? {
      RunTree(lib, r, shift, after, images, last, stack + x.vs);
    }
    CombineRuns(lib, op, left, right, x, y, rest, stack);
  }

  lemma CombineRuns(lib: Library, op: Op, left: seq<Token<Value>>, right: seq<Token<Value>>, x: Sense, y: Sense,
                    rest: seq<Token<Value>>, stack: seq<Value>)
    requires Clean(stack) && (x.Yields? ==> Clean(x.vs) && |x.vs| >= 1) && (y.Yields? ==> Clean(y.vs) && |y.vs| >= 1)
    requires op.name == Comma ||
             (IsInfix(op.name) && (x.Yields? ==> |x.vs| == 1) && (y.Yields? ==> |y.vs| == 1))
    requires var last := [Operator(op)] + rest;
             Evaluate(lib, left + (right + last), stack) == Continue(lib, x, right + last, stack) &&
             (x.Yields? ==> Evaluate(lib, right + last, stack + x.vs) == Continue(lib, y, last, stack + x.vs))
    ensures Evaluate(lib, left + right + [Operator(op)] + rest, stack) ==
            Continue(lib, Both(lib, op.name, x, y), rest, stack)
  {
    assert left + right + [Operator(op)] + rest == left + (right + ([Operator(op)] + rest));
    if x.Yields? && y.Yields? {
      FinishPair(lib, op, x.vs, y.vs, rest, stack);
    }
  }

  lemma FinishPair(lib: Library, op: Op, xs: seq<Value>, ys: seq<Value>, rest: seq<Token<Value>>, stack: seq<Value>)
    requires Clean(stack) && Clean(xs) && Clean(ys) && |xs| >= 1 && |ys| >= 1
    requires op.name == Comma || (IsInfix(op.name) && |xs| == |ys| == 1)
    ensures Evaluate(lib, [Operator(op)] + rest, stack + xs + ys) ==
            Continue(lib, Combined(lib, op.name, xs, ys), rest, stack)
  {
    assert stack + xs + ys == stack + (xs + ys);
    if op.name == Comma {
      CommaStep(lib, op, xs + ys, rest, stack);
    } else {
      OperatorStep(lib, op, xs + ys, rest, stack);
    }
  }

  lemma RunLeaf(lib: Library, e: Expr, shift: int, after: string, images: seq<seq<Pixel>>,
                rest: seq<Token<Value>>, stack: seq<Value>)
    requires WellFormed(e) && Missing(e, |images|) == [] && (e.Numeral? || e.Variable? || e.Unit?)
    ensures Evaluate(lib, Postorder(TreeOf(e, shift, after, images)) + rest, stack) ==
            Continue(lib, MeaningOf(lib, e, images), rest, stack)
  {
    var t := TreeOf(e, shift, after, images);
    assert Postorder(t) == [Operand(t.operands[0])];
    assert (Postorder(t) + rest)[1..] == rest;
  }

  /** One operator behind the postorder of its only operand. */
  lemma {:induction false} RunSmaller(lib: Library, x: Expr, op: Op, shift: int, after: string,
                                      images: seq<seq<Pixel>>, rest: seq<Token<Value>>, stack: seq<Value>)
    requires WellFormed(x) && Missing(x, |images|) == [] && Clean(stack)
    requires Width(x) <= 3 && op.Declared() <= Width(x) && op.name != Comma
    requires Width(x) == Pops(op.name) || (op.name == UnaryPlus && Width(x) == 1)
    ensures Evaluate(lib, Postorder(TreeOf(x, shift, after, images)) + [Operator(op)] + rest, stack) ==
            match MeaningOf(lib, x, images)
            case Fails(error) => Done(Bad(error))
            case Yields(xs) => Continue(lib, Settle(Apply(lib, op.name, xs)), rest, stack)
    decreases x, 2
  {
    var inner := Postorder(TreeOf(x, shift, after, images));
    assert inner + [Operator(op)] + rest == inner + ([Operator(op)] + rest);
    RunTree(lib, x, shift, after, images, [Operator(op)] + rest, stack);
    var m := MeaningOf(lib, x, images);
    if m.Yields? {
      OperatorStep(lib, op, m.vs, rest, stack);
    }
  }
}
