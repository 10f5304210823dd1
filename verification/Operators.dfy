/** The operator table of the expression language and its longest-match lookup. */
module Operators {

  datatype Name =
    | Addition | UnaryPlus | Subtraction | UnaryMinus | Multiplication | Division
    | SmallerThan | GreaterThan | SetMask | ComplexConjugate | Mask | SquareRoot
    | AbsoluteValue | Exponentiation | FourierTransform | InverseFourierTransform
    | Integrate | ComplexArgument | Exponential | Logarithm | Minimum | Maximum
    | PositionX | PositionY | PositionZ | RealPart | ConditionalIf | ImaginaryPart
    | LogicalAnd | LogicalOr | Equality | ImaginaryUnit | Comma

  datatype Associativity = LeftAssociative | RightAssociative | NonAssociative

  /** A copy of a table row with its precedence shifted by the parenthesis depth. Every copy is an
      allocation of its own; id, the number of characters left to read when it is made, tells them apart. */
  datatype Op = Op(name: Name, precedence: int, id: nat)
  {
    function Associates(): Associativity {
      match name
      case Addition | Subtraction | Multiplication | Division | SmallerThan | GreaterThan
         | LogicalAnd | LogicalOr | Equality => LeftAssociative
      case UnaryPlus | UnaryMinus | Exponentiation => RightAssociative
      case _ => NonAssociative
    }

    /** The operand count the row declares, which is not always what the operator pops. */
    function Declared(): nat {
      match name
      case Addition | Subtraction | Multiplication | Division | SmallerThan | GreaterThan
         | Minimum | Maximum | LogicalAnd | LogicalOr | Equality | Comma => 2
      case ConditionalIf => 3
      case _ => 1
    }
  }

  const ROWS := 33

  /** The rows in table order. */
  function TableRow(j: nat): Name
    requires j < ROWS
  {
    match j
    case 0 => Addition
    case 1 => UnaryPlus
    case 2 => Subtraction
    case 3 => UnaryMinus
    case 4 => Multiplication
    case 5 => Division
    case 6 => SmallerThan
    case 7 => GreaterThan
    case 8 => SetMask
    case 9 => ComplexConjugate
    case 10 => Mask
    case 11 => SquareRoot
    case 12 => AbsoluteValue
    case 13 => Exponentiation
    case 14 => FourierTransform
    case 15 => InverseFourierTransform
    case 16 => Integrate
    case 17 => ComplexArgument
    case 18 => Exponential
    case 19 => Logarithm
    case 20 => Minimum
    case 21 => Maximum
    case 22 => PositionX
    case 23 => PositionY
    case 24 => PositionZ
    case 25 => RealPart
    case 26 => ConditionalIf
    case 27 => ImaginaryPart
    case 28 => LogicalAnd
    case 29 => LogicalOr
    case 30 => Equality
    case 31 => ImaginaryUnit
    case _ => Comma
  }

  function Precedence(n: Name): (p: int)
    ensures -3 <= p <= 5
  {
    match n
    case Addition | Subtraction => 1
    case Multiplication | Division => 2
    case UnaryPlus | UnaryMinus | ImaginaryUnit => 3
    case Exponentiation => 4
    case SmallerThan | GreaterThan => 0
    case Equality => -1
    case LogicalAnd | LogicalOr => -2
    case Comma => -3
    case _ => 5
  }

  function Spelling(n: Name): (s: string)
    ensures s != ""
  {
    match n
    case Addition => "+"
    case UnaryPlus => "+"
    case Subtraction => "-"
    case UnaryMinus => "-"
    case Multiplication => "*"
    case Division => "/"
    case SmallerThan => "<"
    case GreaterThan => ">"
    case SetMask => "set_mask"
    case ComplexConjugate => "conj"
    case Mask => "mask"
    case SquareRoot => "sqrt"
    case AbsoluteValue => "abs"
    case Exponentiation => "^"
    case FourierTransform => "fft"
    case InverseFourierTransform => "ifft"
    case Integrate => "sum"
    case ComplexArgument => "arg"
    case Exponential => "exp"
    case Logarithm => "log"
    case Minimum => "min"
    case Maximum => "max"
    case PositionX => "posx"
    case PositionY => "posy"
    case PositionZ => "posz"
    case RealPart => "re"
    case ConditionalIf => "if"
    case ImaginaryPart => "im"
    case LogicalAnd => "&&"
    case LogicalOr => "||"
    case Equality => "=="
    case ImaginaryUnit => "i"
    case Comma => ","
  }

  /** The row number of a name. */
  function Row(n: Name): (j: nat)
    ensures j < ROWS && TableRow(j) == n
  {
    match n
    case Addition => 0
    case UnaryPlus => 1
    case Subtraction => 2
    case UnaryMinus => 3
    case Multiplication => 4
    case Division => 5
    case SmallerThan => 6
    case GreaterThan => 7
    case SetMask => 8
    case ComplexConjugate => 9
    case Mask => 10
    case SquareRoot => 11
    case AbsoluteValue => 12
    case Exponentiation => 13
    case FourierTransform => 14
    case InverseFourierTransform => 15
    case Integrate => 16
    case ComplexArgument => 17
    case Exponential => 18
    case Logarithm => 19
    case Minimum => 20
    case Maximum => 21
    case PositionX => 22
    case PositionY => 23
    case PositionZ => 24
    case RealPart => 25
    case ConditionalIf => 26
    case ImaginaryPart => 27
    case LogicalAnd => 28
    case LogicalOr => 29
    case Equality => 30
    case ImaginaryUnit => 31
    case Comma => 32
  }

  lemma RowsAreDistinct(j: nat)
    requires j < ROWS
    ensures Row(TableRow(j)) == j
  {
  }

  /** The first row at or after j whose identifier starts the text, if any. */
  function FirstMatch(text: string, j: nat := 0): (r: nat)
    requires j <= ROWS
    ensures j <= r <= ROWS
    ensures r < ROWS ==> Spelling(TableRow(r)) <= text
    decreases ROWS - j
  {
    if j == ROWS || Spelling(TableRow(j)) <= text then j else FirstMatch(text, j + 1)
  }

  lemma {:induction false} FirstMatchIsFirst(text: string, j: nat, k: nat)
    requires j <= k < ROWS
    ensures var r := FirstMatch(text, j);
            k < r ==> !(Spelling(TableRow(k)) <= text)
    decreases ROWS - j
  {
    if !(Spelling(TableRow(j)) <= text) && j + 1 < ROWS {
      FirstMatchIsFirst(text, j + 1, if k == j then j + 1 else k);
    }
  }

  /** Which identifiers start other identifiers. */
  lemma Prefixes(a: Name, b: Name)
    requires Spelling(a) <= Spelling(b)
    ensures Spelling(a) == Spelling(b) ||
            (a == ImaginaryUnit && b in {ConditionalIf, ImaginaryPart, InverseFourierTransform}) ||
            (a == ConditionalIf && b == InverseFourierTransform)
  {
    assert Spelling(a)[0] == Spelling(b)[0];
    if |Spelling(a)| >= 2 {
      assert Spelling(a)[1] == Spelling(b)[1];
      if |Spelling(a)| >= 3 {
        assert Spelling(a)[2] == Spelling(b)[2];
        if |Spelling(a)| >= 4 {
          assert Spelling(a)[3] == Spelling(b)[3];
        }
      }
    }
  }

  /** Two prefixes of one text are prefixes of each other. */
  lemma Nested(s: string, t: string, text: string)
    requires s <= text && t <= text && |s| <= |t|
    ensures s <= t
  {
  }

  /** Scanning the table in order finds the longest identifier that starts the text. */
  lemma FirstIsLongest(text: string, b: Name)
    requires Spelling(b) <= text
    ensures FirstMatch(text) < ROWS
    ensures |Spelling(b)| <= |Spelling(TableRow(FirstMatch(text)))|
  {
    var r := FirstMatch(text);
    FirstMatchIsFirst(text, 0, Row(b));
    var a := TableRow(r);
    RowsAreDistinct(r);
    if |Spelling(a)| < |Spelling(b)| {
      Nested(Spelling(a), Spelling(b), text);
      Prefixes(a, b);
    }
  }

  /** A spelled operator followed by a blank is found as the first row with that spelling. */
  lemma SpelledIsFound(n: Name, rest: string)
    ensures FirstMatch(Spelling(n) + " " + rest) < ROWS
    ensures Spelling(TableRow(FirstMatch(Spelling(n) + " " + rest))) == Spelling(n)
  {
    var word := Spelling(n);
    assert word <= word + " " + rest;
    FirstIsLongest(word + " " + rest, n);
    OnlyWord(TableRow(FirstMatch(word + " " + rest)), word, rest);
  }

  /** A name that starts with all of a word and stays within the text does not reach past the blank. */
  lemma OnlyWord(a: Name, word: string, rest: string)
    requires Spelling(a) <= word + " " + rest && |word| <= |Spelling(a)|
    ensures Spelling(a) == word
  {
    var text := word + " " + rest;
    if |Spelling(a)| > |word| {
      assert Spelling(a)[|word|] == text[|word|] == ' ';
      NoBlanks(a, |word|);
    }
    assert text[..|word|] == word;
  }

  lemma NoBlanks(n: Name, i: nat)
    requires i < |Spelling(n)|
    ensures Spelling(n)[i] != ' '
  {
  }
}
