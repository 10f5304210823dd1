/** Expressions as they are written, their meaning, and the proof that reading, reordering and running
    an expression computes that meaning. */
module Expressions {
  import opened ComplexNumbers
  import opened Operators
  import opened ShuntingYard
  import opened Machine
  import opened Tokenizer
  import Names

  /** Concrete expressions. Prefix covers signs and named operators, Group is a pair of parentheses,
      and an argument list is an Infix tree of commas. */
  datatype Expr =
    | Numeral(text: string)
    | Variable(name: string)
    | Unit
    | Infix(n: Name, l: Expr, r: Expr)
    | Prefix(n: Name, x: Expr)
    | TimesI(x: Expr)
    | Group(x: Expr)

  predicate IsInfix(n: Name) {
    n in {Addition, Subtraction, Multiplication, Division, SmallerThan, GreaterThan,
          Exponentiation, LogicalAnd, LogicalOr, Equality}
  }

  predicate IsSign(n: Name) {
    n in {UnaryPlus, UnaryMinus}
  }

  /** The named operators, written in front of their arguments. */
  predicate IsFunction(n: Name) {
    Precedence(n) == 5
  }

  /** How many values an expression stands for: more than one for an argument list. */
  function Width(e: Expr): (w: nat)
    ensures w >= 1
  {
    match e
    case Infix(n, l, r) => if n == Comma then Width(l) + Width(r) else 1
    case Group(x) => Width(x)
    case _ => 1
  }

  /** Names and numerals are spelled properly and every operator is given as many values as it takes. */
  predicate WellFormed(e: Expr) {
    match e
    case Numeral(text) => IsNumeral(text)
    case Variable(name) => name != "" && Names.IsName(name)
    case Unit => true
    case Infix(n, l, r) =>
      WellFormed(l) && WellFormed(r) && (n == Comma || (IsInfix(n) && Width(l) == 1 && Width(r) == 1))
    case Prefix(n, x) =>
      WellFormed(x) && ((IsSign(n) && Width(x) == 1) || (IsFunction(n) && Width(x) == Pops(n)))
    case TimesI(x) => WellFormed(x) && Width(x) == 1
    case Group(x) => WellFormed(x)
  }

  // ---------------------------------------------------------------- printing

  function Put(n: Name, rest: string): string {
    Spelling(n) + " " + rest
  }

  /** The expression, a blank after every token, followed by rest. */
  function PrintTo(e: Expr, rest: string): string {
    match e
    case Numeral(text) => text + " " + rest
    case Variable(name) => name + " " + rest
    case Unit => Put(ImaginaryUnit, rest)
    case Infix(n, l, r) => PrintTo(l, Put(n, PrintTo(r, rest)))
    case Prefix(n, x) => Put(n, PrintTo(x, rest))
    case TimesI(x) => PrintTo(x, Put(ImaginaryUnit, rest))
    case Group(x) => "( " + PrintTo(x, ") " + rest)
  }

  function Print(e: Expr): string {
    PrintTo(e, "")
  }

  // ---------------------------------------------------------------- the labelled tree

  function Lookup(images: seq<seq<Pixel>>, name: string): Value
    requires Names.IsName(name)
  {
    if Names.Decode(name) < |images| then Image(images[Names.Decode(name)]) else Bad(NoMatchingFile(name))
  }

  function Label(n: Name, shift: int, rest: string): Op {
    Op(n, Precedence(n) + shift, |Put(n, rest)|)
  }

  /** The expression as a tree of operator tokens, as printed in front of rest under the given shift. */
  function TreeOf(e: Expr, shift: int, rest: string, images: seq<seq<Pixel>>): Tree<Value>
    requires WellFormed(e)
  {
    match e
    case Numeral(text) => Leaf([Scalar(Complex(NumeralValue(text), 0.0))])
    case Variable(name) => Leaf([Lookup(images, name)])
    case Unit => Leaf([Scalar(IMAGINARY_UNIT)])
    case Infix(n, l, r) =>
      var tail := PrintTo(r, rest);
      Node(TreeOf(l, shift, Put(n, tail), images), Label(n, shift, tail), TreeOf(r, shift, rest, images))
    case Prefix(n, x) => Node(Leaf([]), Label(n, shift, PrintTo(x, rest)), TreeOf(x, shift, rest, images))
    case TimesI(x) =>
      Node(TreeOf(x, shift, Put(ImaginaryUnit, rest), images), Label(ImaginaryUnit, shift, rest), Leaf([]))
    case Group(x) => TreeOf(x, shift + PARENTHESIS_SHIFT, ") " + rest, images)
  }

  // ---------------------------------------------------------------- printing and reading back

  /** The variables without an image, in the order they are read. */
  function Missing(e: Expr, images: nat): seq<string> {
    match e
    case Numeral(_) => []
    case Variable(name) => if Names.Decode(name) < images then [] else [name]
    case Unit => []
    case Infix(_, l, r) => Missing(l, images) + Missing(r, images)
    case Prefix(_, x) => Missing(x, images)
    case TimesI(x) => Missing(x, images)
    case Group(x) => Missing(x, images)
  }

  /** What the tokenizer remembers after the expression. */
  function Ends(e: Expr): (last: Previous)
    ensures EndsOperand(last)
  {
    match e
    case Infix(_, _, r) => Ends(r)
    case Prefix(_, x) => Ends(x)
    case TimesI(_) => AnOperator(ImaginaryUnit)
    case Group(_) => CloseParenthesis
    case _ => AnOperand
  }

  /** The result of reading tokens, or a first unknown variable, and then the rest. */
  function Read(missing: seq<string>, ts: seq<Token<Value>>, rest: Lexed): Lexed {
    if missing == [] then PrependAll(ts, rest) else Rejected(NoMatchingFile(missing[0]))
  }

  lemma ReadRead(m: seq<string>, ts: seq<Token<Value>>, n: seq<string>, us: seq<Token<Value>>, rest: Lexed)
    ensures Read(m, ts, Read(n, us, rest)) == Read(m + n, ts + us, rest)
  {
    if m == [] && n == [] && rest.Tokens? {
      assert ts + us + rest.ts == ts + (us + rest.ts);
    }
    assert m == [] ==> m + n == n;
  }

  /** Reading the two sides of a node and the operator between them reads the node. */
  lemma ReadNode(m: seq<string>, l: Tree<Value>, op: Op, n: seq<string>, r: Tree<Value>, rest: Lexed)
    ensures Read(m, Inorder(l), Read([], [Operator(op)], Read(n, Inorder(r), rest))) ==
            Read(m + n, Inorder(Node(l, op, r)), rest)
  {
    ReadAround(m, Inorder(l), op, n, Inorder(r), rest);
  }

  lemma ReadAround(m: seq<string>, ls: seq<Token<Value>>, op: Op, n: seq<string>, rs: seq<Token<Value>>, rest: Lexed)
    ensures Read(m, ls, Read([], [Operator(op)], Read(n, rs, rest))) == Read(m + n, ls + [Operator(op)] + rs, rest)
  {
    ReadRead([], [Operator(op)], n, rs, rest);
    ReadRead(m, ls, [] + n, [Operator(op)] + rs, rest);
    assert m + ([] + n) == m + n;
    assert ls + ([Operator(op)] + rs) == ls + [Operator(op)] + rs;
  }

  lemma ReadPrefix(op: Op, n: seq<string>, r: Tree<Value>, rest: Lexed)
    ensures Read([], [Operator(op)], Read(n, Inorder(r), rest)) == Read(n, Inorder(Node(Leaf([]), op, r)), rest)
  {
    ReadRead([], [Operator(op)], n, Inorder(r), rest);
    assert [] + n == n;
    assert Inorder(Node(Leaf([]), op, r)) == [Operator(op)] + Inorder(r);
  }

  lemma ReadPostfix(m: seq<string>, l: Tree<Value>, op: Op, rest: Lexed)
    ensures Read(m, Inorder(l), Read([], [Operator(op)], rest)) == Read(m, Inorder(Node(l, op, Leaf([]))), rest)
  {
    ReadRead(m, Inorder(l), [], [Operator(op)], rest);
    assert m + [] == m;
    assert Inorder(Node(l, op, Leaf([]))) == Inorder(l) + [Operator(op)];
  }

  /** Reading one operator token. */
  lemma LexPut(n: Name, rest: string, shift: int, last: Previous, images: seq<seq<Pixel>>)
    requires EndsOperand(last) <==> IsInfix(n) || n == ImaginaryUnit || n == Comma
    ensures Lex(Put(n, rest), shift, last, images) ==
            Read([], [Operator(Label(n, shift, rest))], Lex(rest, shift, AnOperator(n), images))
  {
    LexOperator(n, rest, shift, last, images);
  }

  /** What LexPrint says, as a name of its own. */
  ghost predicate ReadsBack(e: Expr, rest: string, shift: int, last: Previous, images: seq<seq<Pixel>>)
    requires WellFormed(e)
  {
    Lex(PrintTo(e, rest), shift, last, images) ==
    Read(Missing(e, |images|), Inorder(TreeOf(e, shift, rest, images)), Lex(rest, shift, Ends(e), images))
  }

  /** Reading one operand token. */
  lemma ReadLeaf(v: Value, rest: Lexed)
    ensures Read([], Inorder(Leaf([v])), rest) == Prepend(Operand(v), rest)
  {
    assert Inorder(Leaf([v])) == [Operand(v)];
  }

  lemma LexLeaf(e: Expr, rest: string, shift: int, last: Previous, images: seq<seq<Pixel>>)
    requires WellFormed(e) && (e.Numeral? || e.Variable? || e.Unit?) && !EndsOperand(last)
    ensures ReadsBack(e, rest, shift, last, images)
  {
    var after := Lex(rest, shift, AnOperand, images);
    match e {
      case Numeral(text) =>
        LexNumeral(text, rest, shift, last, images);
        ReadLeaf(Scalar(Complex(NumeralValue(text), 0.0)), after);
      case Variable(name) =>
        LexVariable(name, rest, shift, last, images);
        ReadLeaf(Lookup(images, name), after);
      case Unit =>
        LexUnit(rest, shift, last, images);
        ReadLeaf(Scalar(IMAGINARY_UNIT), after);
    }
  }

  lemma LexGroup(x: Expr, rest: string, shift: int, last: Previous, images: seq<seq<Pixel>>)
    requires WellFormed(x)
    requires ReadsBack(x, ") " + rest, shift + PARENTHESIS_SHIFT, OpenParenthesis, images)
    ensures ReadsBack(Group(x), rest, shift, last, images)
  {
    LexOpen(PrintTo(x, ") " + rest), shift, last, images);
    LexClose(rest, shift + PARENTHESIS_SHIFT, Ends(x), images);
  }

  lemma LexInfix(n: Name, l: Expr, r: Expr, rest: string, shift: int, last: Previous, images: seq<seq<Pixel>>)
    requires WellFormed(Infix(n, l, r))
    requires ReadsBack(l, Put(n, PrintTo(r, rest)), shift, last, images)
    requires ReadsBack(r, rest, shift, AnOperator(n), images)
    ensures ReadsBack(Infix(n, l, r), rest, shift, last, images)
  {
    var tail := PrintTo(r, rest);
    LexPut(n, tail, shift, Ends(l), images);
    ReadNode(Missing(l, |images|), TreeOf(l, shift, Put(n, tail), images), Label(n, shift, tail),
             Missing(r, |images|), TreeOf(r, shift, rest, images), Lex(rest, shift, Ends(r), images));
  }

  lemma LexPrefix(n: Name, x: Expr, rest: string, shift: int, last: Previous, images: seq<seq<Pixel>>)
    requires WellFormed(Prefix(n, x)) && !EndsOperand(last)
    requires ReadsBack(x, rest, shift, AnOperator(n), images)
    ensures ReadsBack(Prefix(n, x), rest, shift, last, images)
  {
    var tail := PrintTo(x, rest);
    LexPut(n, tail, shift, last, images);
    ReadPrefix(Label(n, shift, tail), Missing(x, |images|), TreeOf(x, shift, rest, images),
               Lex(rest, shift, Ends(x), images));
  }

  lemma LexTimesI(x: Expr, rest: string, shift: int, last: Previous, images: seq<seq<Pixel>>)
    requires WellFormed(TimesI(x))
    requires ReadsBack(x, Put(ImaginaryUnit, rest), shift, last, images)
    ensures ReadsBack(TimesI(x), rest, shift, last, images)
  {
    LexPut(ImaginaryUnit, rest, shift, Ends(x), images);
    ReadPostfix(Missing(x, |images|), TreeOf(x, shift, Put(ImaginaryUnit, rest), images),
                Label(ImaginaryUnit, shift, rest), Lex(rest, shift, AnOperator(ImaginaryUnit), images));
  }

  /** Reading the printed expression gives the tokens of its labelled tree, with every sign read as
      binary exactly where the tree is, or the error of the first variable that has no image. */
  lemma {:induction false} LexPrint(e: Expr, rest: string, shift: int, last: Previous, images: seq<seq<Pixel>>)
    requires WellFormed(e) && !EndsOperand(last)
    ensures ReadsBack(e, rest, shift, last, images)
  {
    match e {
      case Infix(n, l, r) =>
        LexPrint(l, Put(n, PrintTo(r, rest)), shift, last, images);
        LexPrint(r, rest, shift, AnOperator(n), images);
        LexInfix(n, l, r, rest, shift, last, images);
      case Prefix(n, x) =>
        LexPrint(x, rest, shift, AnOperator(n), images);
        LexPrefix(n, x, rest, shift, last, images);
      case TimesI(x) =>
        LexPrint(x, Put(ImaginaryUnit, rest), shift, last, images);
        LexTimesI(x, rest, shift, last, images);
      case Group(x) =>
        LexPrint(x, ") " + rest, shift + PARENTHESIS_SHIFT, OpenParenthesis, images);
        LexGroup(x, rest, shift, last, images);
      case _ =>
        LexLeaf(e, rest, shift, last, images);
    }
  }
}
