/** Reading an expression string into infix tokens.

    Parentheses produce no token: they shift the precedence of the operators inside them. */
module Tokenizer {
  import opened ComplexNumbers
  import opened Operators
  import opened ShuntingYard
  import opened Machine
  import opened Decimals
  import Names

  /** The last thing read, which decides between unary and binary signs. */
  datatype Previous = Nothing | AnOperand | OpenParenthesis | CloseParenthesis | AnOperator(name: Name)

  /** An operand has just ended, so a sign that follows is binary. */
  predicate EndsOperand(last: Previous) {
    last in {AnOperand, CloseParenthesis, AnOperator(ImaginaryUnit)}
  }

  const PARENTHESIS_SHIFT := 1000

  /** The outcome of reading: the tokens, the error that replaces them, or a loop that never advances. */
  datatype Lexed = Tokens(ts: seq<Token<Value>>) | Rejected(error: Error) | NoProgress

  function Prepend(t: Token<Value>, r: Lexed): Lexed {
    match r case Tokens(ts) => Tokens([t] + ts) case _ => r
  }

  function PrependAll(ts: seq<Token<Value>>, r: Lexed): Lexed {
    match r case Tokens(us) => Tokens(ts + us) case _ => r
  }

  // ---------------------------------------------------------------- character classes and numerals

  predicate IsBlank(c: char) {
    c == ' ' || c == '\t'
  }

  function DigitRun(s: string): (n: nat)
    ensures n <= |s| && forall i :: 0 <= i < n ==> IsDigit(s[i])
    ensures n < |s| ==> !IsDigit(s[n])
  {
    if s == "" || !IsDigit(s[0]) then 0 else 1 + DigitRun(s[1..])
  }

  function CapitalRun(s: string): (n: nat)
    ensures n <= |s| && Names.IsName(s[..n])
    ensures n < |s| ==> !Names.IsCapital(s[n])
  {
    if s == "" || !Names.IsCapital(s[0]) then 0 else 1 + CapitalRun(s[1..])
  }

  /** How many characters a decimal numeral takes: digits, a point, digits, with at least one digit. */
  function NumeralLength(s: string): (n: nat)
    ensures n <= |s|
  {
    var whole := DigitRun(s);
    if whole < |s| && s[whole] == '.' then
      var fraction := DigitRun(s[whole + 1..]);
      if whole + fraction == 0 then 0 else whole + 1 + fraction
    else whole
  }

  function NumeralValue(s: string): real {
    var whole := DigitRun(s);
    if whole < |s| then
      var fraction := s[whole + 1..];
      NumberOf(s[..whole]) as real + NumberOf(fraction) as real / Power10(|fraction|) as real
    else NumberOf(s) as real
  }

  // ---------------------------------------------------------------- reading

  /** The row meant by a matched row, given what came before it. */
  function Disambiguate(row: Name, last: Previous): Name {
    if row == Subtraction && !EndsOperand(last) then UnaryMinus
    else if row == Addition && !EndsOperand(last) then UnaryPlus
    else row
  }

  /** One turn of the reading loop: characters passed over, a token taken, an error, or no movement. */
  datatype Turn =
    | Skip(used: nat, shift: int, last: Previous)
    | Take(used: nat, t: Token<Value>, last: Previous)
    | Refuse(error: Error)
    | Stall

  /** What a matching row of the table stands for. */
  function TurnAtRow(row: Name, length: nat, shift: int, last: Previous): Turn {
    if row == ImaginaryUnit && !EndsOperand(last) then
      Take(1, Operand(Scalar(IMAGINARY_UNIT)), AnOperand)
    else
      var name := Disambiguate(row, last);
      Take(|Spelling(row)|, Operator(Op(name, Precedence(name) + shift, length)), AnOperator(name))
  }

  function TurnAtOperator(s: string, shift: int, last: Previous): (r: Turn)
    requires s != ""
    ensures r.Take? ==> 1 <= r.used <= |s|
    ensures !r.Skip? && (r.Take? && r.t.Operand? ==> !r.t.v.Bad?)
  {
    var j := FirstMatch(s);
    if j == ROWS then Refuse(CannotTokenize(s))
    else TurnAtRow(TableRow(j), |s|, shift, last)
  }

  function TurnAt(s: string, shift: int, last: Previous, images: seq<seq<Pixel>>): (r: Turn)
    requires s != ""
    ensures r.Skip? || r.Take? ==> 1 <= r.used <= |s|
    ensures r.Take? && r.t.Operand? ==> !r.t.v.Bad?
  {
    if IsBlank(s[0]) then Skip(1, shift, last)
    else if s[0] == '(' then Skip(1, shift + PARENTHESIS_SHIFT, OpenParenthesis)
    else if s[0] == ')' then Skip(1, shift - PARENTHESIS_SHIFT, CloseParenthesis)
    else if IsDigit(s[0]) || s[0] == '.' then
      var n := NumeralLength(s);
      if n == 0 then Stall else Take(n, Operand(Scalar(Complex(NumeralValue(s[..n]), 0.0))), AnOperand)
    else if Names.IsCapital(s[0]) then
      var n := CapitalRun(s);
      var index := Names.Decode(s[..n]);
      if index >= |images| then Refuse(NoMatchingFile(s[..n])) else Take(n, Operand(Image(images[index])), AnOperand)
    else TurnAtOperator(s, shift, last)
  }

  function Lex(s: string, shift: int, last: Previous, images: seq<seq<Pixel>>): Lexed
    decreases |s|
  {
    if s == "" then Tokens([])
    else
      match TurnAt(s, shift, last, images)
      case Skip(n, shift', last') => Lex(s[n..], shift', last', images)
      case Take(n, t, last') => Prepend(t, Lex(s[n..], shift, last', images))
      case Refuse(error) => Rejected(error)
      case Stall => NoProgress
  }

  function Tokenize(s: string, images: seq<seq<Pixel>>): Lexed {
    Lex(s, 0, Nothing, images)
  }

  /** No error token is ever mixed in with the tokens of an accepted string. */
  lemma {:induction false} AcceptedIsClean(s: string, shift: int, last: Previous, images: seq<seq<Pixel>>)
    ensures var r := Lex(s, shift, last, images); r.Tokens? ==> CleanTokens(r.ts)
    decreases |s|
  {
    if s != "" {
      match TurnAt(s, shift, last, images)
      case Skip(n, shift', last') => AcceptedIsClean(s[n..], shift', last', images);
      case Take(n, _, last') => AcceptedIsClean(s[n..], shift, last', images);
      case _ =>
    }
  }

  /** A text that starts with none of the identifiers, nor anything else known, is refused as it stands. */
  lemma UnknownIsRefused(s: string, shift: int, last: Previous, images: seq<seq<Pixel>>)
    requires s != "" && (forall n: Name :: !(Spelling(n) <= s))
    requires var c := s[0];
             !IsBlank(c) && c != '(' && c != ')' && !IsDigit(c) && c != '.' && !Names.IsCapital(c)
    ensures Lex(s, shift, last, images) == Rejected(CannotTokenize(s))
  {
    assert FirstMatch(s) < ROWS ==> Spelling(TableRow(FirstMatch(s))) <= s;
  }

  // ---------------------------------------------------------------- one spelled token and a blank

  lemma SpellingStartsPlain(n: Name)
    ensures var c := Spelling(n)[0];
            !IsBlank(c) && c != '(' && c != ')' && !IsDigit(c) && c != '.' && !Names.IsCapital(c)
  {
  }

  lemma LexBlank(rest: string, shift: int, last: Previous, images: seq<seq<Pixel>>)
    ensures Lex(" " + rest, shift, last, images) == Lex(rest, shift, last, images)
  {
    var text := " " + rest;
    assert TurnAt(text, shift, last, images) == Skip(1, shift, last);
    assert text[1..] == rest;
  }

  /** A tab counts as a blank. */
  lemma LexTab(rest: string, shift: int, last: Previous, images: seq<seq<Pixel>>)
    ensures Lex("\t" + rest, shift, last, images) == Lex(" " + rest, shift, last, images)
  {
    LexBlank(rest, shift, last, images);
    var text := "\t" + rest;
    assert TurnAt(text, shift, last, images) == Skip(1, shift, last);
    assert text[1..] == rest;
  }

  /** A token taken, and the blank behind it. */
  lemma LexTake(text: string, shift: int, last: Previous, images: seq<seq<Pixel>>, n: nat, t: Token<Value>,
                after: Previous, rest: string)
    requires text != "" && TurnAt(text, shift, last, images) == Take(n, t, after)
    requires text[n..] == " " + rest
    ensures Lex(text, shift, last, images) == Prepend(t, Lex(rest, shift, after, images))
  {
    LexBlank(rest, shift, after, images);
  }

  /** The row found for a name: the binary row where two rows share the spelling. */
  function FoundAs(n: Name): Name {
    match n case UnaryPlus => Addition case UnaryMinus => Subtraction case _ => n
  }

  lemma UnaryRowsAreNeverFound(text: string)
    ensures FirstMatch(text) != 1 && FirstMatch(text) != 3
  {
    FirstMatchIsFirst(text, 0, 0);
    FirstMatchIsFirst(text, 0, 2);
    assert Spelling(TableRow(0)) == Spelling(TableRow(1));
    assert Spelling(TableRow(2)) == Spelling(TableRow(3));
  }

  lemma FoundAmongSharers(j: nat, n: Name)
    requires j < ROWS && j != 1 && j != 3
    requires var a := TableRow(j);
             a == n || {a, n} == {Addition, UnaryPlus} || {a, n} == {Subtraction, UnaryMinus}
    ensures TableRow(j) == FoundAs(n)
  {
    RowsAreDistinct(j);
    var a := TableRow(j);
    assert n in {a, n} && a in {a, n};
  }

  lemma RowOfSpelling(n: Name, rest: string)
    ensures var j := FirstMatch(Spelling(n) + " " + rest); j < ROWS && TableRow(j) == FoundAs(n)
  {
    SpelledIsFound(n, rest);
    var j := FirstMatch(Spelling(n) + " " + rest);
    UnaryRowsAreNeverFound(Spelling(n) + " " + rest);
    SameSpelling(TableRow(j), n);
    FoundAmongSharers(j, n);
  }

  lemma FoundAsSpelling(n: Name)
    ensures Spelling(FoundAs(n)) == Spelling(n)
  {
  }

  /** A word, a blank and the rest. */
  lemma WordFirst(word: string, rest: string)
    requires word != ""
    ensures var text := word + " " + rest;
            text != "" && text[0] == word[0] && text[..|word|] == word && text[|word|..] == " " + rest
    ensures word + " " + rest == word + (" " + rest)
  {
  }

  lemma PlainGoesToOperators(text: string, shift: int, last: Previous, images: seq<seq<Pixel>>)
    requires text != ""
    requires var c := text[0];
             !IsBlank(c) && c != '(' && c != ')' && !IsDigit(c) && c != '.' && !Names.IsCapital(c)
    ensures TurnAt(text, shift, last, images) == TurnAtOperator(text, shift, last)
  {
  }

  /** A spelled name is found as its row. */
  lemma TurnAtSpelled(n: Name, text: string, rest: string, shift: int, last: Previous, images: seq<seq<Pixel>>)
    requires text == Spelling(n) + " " + rest
    ensures text != "" && TurnAt(text, shift, last, images) == TurnAtRow(FoundAs(n), |text|, shift, last)
    ensures text[|Spelling(n)|..] == " " + rest
  {
    WordFirst(Spelling(n), rest);
    SpellingStartsPlain(n);
    PlainGoesToOperators(text, shift, last, images);
    RowOfSpelling(n, rest);
  }

  lemma RowTurn(n: Name, length: nat, shift: int, last: Previous)
    requires Disambiguate(FoundAs(n), last) == n
    requires n == ImaginaryUnit ==> EndsOperand(last)
    ensures TurnAtRow(FoundAs(n), length, shift, last) ==
            Take(|Spelling(n)|, Operator(Op(n, Precedence(n) + shift, length)), AnOperator(n))
  {
    FoundAsSpelling(n);
  }

  lemma LexSpelled(n: Name, rest: string, shift: int, last: Previous, images: seq<seq<Pixel>>, t: Token<Value>,
                   after: Previous)
    requires TurnAtRow(FoundAs(n), |Spelling(n) + " " + rest|, shift, last) == Take(|Spelling(n)|, t, after)
    ensures Lex(Spelling(n) + " " + rest, shift, last, images) == Prepend(t, Lex(rest, shift, after, images))
  {
    var text := Spelling(n) + " " + rest;
    TurnAtSpelled(n, text, rest, shift, last, images);
    LexTake(text, shift, last, images, |Spelling(n)|, t, after, rest);
  }

  /** A name is spelled, followed by a blank. */
  lemma LexOperator(n: Name, rest: string, shift: int, last: Previous, images: seq<seq<Pixel>>)
    requires Disambiguate(FoundAs(n), last) == n
    requires n == ImaginaryUnit ==> EndsOperand(last)
    ensures Lex(Spelling(n) + " " + rest, shift, last, images) ==
            Prepend(Operator(Op(n, Precedence(n) + shift, |Spelling(n) + " " + rest|)),
                    Lex(rest, shift, AnOperator(n), images))
  {
    var length := |Spelling(n) + " " + rest|;
    RowTurn(n, length, shift, last);
    LexSpelled(n, rest, shift, last, images, Operator(Op(n, Precedence(n) + shift, length)), AnOperator(n));
  }

  lemma SameSpelling(a: Name, b: Name)
    requires Spelling(a) == Spelling(b)
    ensures a == b || {a, b} == {Addition, UnaryPlus} || {a, b} == {Subtraction, UnaryMinus}
  {
    assert Spelling(a)[0] == Spelling(b)[0];
    if |Spelling(a)| >= 2 {
      assert Spelling(a)[1] == Spelling(b)[1];
      if |Spelling(a)| >= 3 {
        assert Spelling(a)[2] == Spelling(b)[2];
        if |Spelling(a)| >= 4 {
          assert Spelling(a)[3] == Spelling(b)[3];
        }
      }
    }
  }

  lemma UnitTurn(length: nat, shift: int, last: Previous)
    requires !EndsOperand(last)
    ensures TurnAtRow(FoundAs(ImaginaryUnit), length, shift, last) ==
            Take(|Spelling(ImaginaryUnit)|, Operand(Scalar(IMAGINARY_UNIT)), AnOperand)
  {
  }

  /** The imaginary unit in operand position. */
  lemma LexUnit(rest: string, shift: int, last: Previous, images: seq<seq<Pixel>>)
    requires !EndsOperand(last)
    ensures Lex(Spelling(ImaginaryUnit) + " " + rest, shift, last, images) ==
            Prepend(Operand(Scalar(IMAGINARY_UNIT)), Lex(rest, shift, AnOperand, images))
  {
    UnitTurn(|Spelling(ImaginaryUnit) + " " + rest|, shift, last);
    LexSpelled(ImaginaryUnit, rest, shift, last, images, Operand(Scalar(IMAGINARY_UNIT)), AnOperand);
  }

  lemma LexOpen(rest: string, shift: int, last: Previous, images: seq<seq<Pixel>>)
    ensures Lex("( " + rest, shift, last, images) == Lex(rest, shift + PARENTHESIS_SHIFT, OpenParenthesis, images)
  {
    assert ("( " + rest)[1..] == " " + rest;
    LexBlank(rest, shift + PARENTHESIS_SHIFT, OpenParenthesis, images);
  }

  lemma LexClose(rest: string, shift: int, last: Previous, images: seq<seq<Pixel>>)
    ensures Lex(") " + rest, shift, last, images) == Lex(rest, shift - PARENTHESIS_SHIFT, CloseParenthesis, images)
  {
    assert (") " + rest)[1..] == " " + rest;
    LexBlank(rest, shift - PARENTHESIS_SHIFT, CloseParenthesis, images);
  }

  /** A text that is a numeral from end to end. */
  predicate IsNumeral(s: string) {
    s != "" && NumeralLength(s) == |s|
  }

  lemma {:induction false} DigitRunStops(s: string, rest: string)
    requires rest != "" && !IsDigit(rest[0])
    ensures DigitRun(s + rest) == DigitRun(s)
    decreases |s|
  {
    if s == "" {
      assert s + rest == rest;
    } else {
      assert (s + rest)[0] == s[0] && (s + rest)[1..] == s[1..] + rest;
      DigitRunStops(s[1..], rest);
    }
  }

  lemma {:induction false} CapitalRunStops(s: string, rest: string)
    requires Names.IsName(s) && rest != "" && !Names.IsCapital(rest[0])
    ensures CapitalRun(s + rest) == |s|
    decreases |s|
  {
    if s == "" {
      assert s + rest == rest;
    } else {
      assert (s + rest)[0] == s[0] && (s + rest)[1..] == s[1..] + rest;
      CapitalRunStops(s[1..], rest);
    }
  }

  lemma NumeralStops(s: string, rest: string)
    requires IsNumeral(s) && rest != "" && !IsDigit(rest[0]) && rest[0] != '.'
    ensures NumeralLength(s + rest) == |s|
    ensures IsDigit(s[0]) || s[0] == '.'
  {
    var whole := DigitRun(s);
    DigitRunStops(s, rest);
    if whole < |s| {
      DigitRunStops(s[whole + 1..], rest);
      assert (s + rest)[whole + 1..] == s[whole + 1..] + rest;
    }
  }

  lemma LexNumeral(s: string, rest: string, shift: int, last: Previous, images: seq<seq<Pixel>>)
    requires IsNumeral(s)
    ensures Lex(s + " " + rest, shift, last, images) ==
            Prepend(Operand(Scalar(Complex(NumeralValue(s), 0.0))), Lex(rest, shift, AnOperand, images))
  {
    NumeralStops(s, " " + rest);
    WordFirst(s, rest);
    LexTake(s + " " + rest, shift, last, images, |s|, Operand(Scalar(Complex(NumeralValue(s), 0.0))), AnOperand, rest);
  }

  lemma LexVariable(s: string, rest: string, shift: int, last: Previous, images: seq<seq<Pixel>>)
    requires s != "" && Names.IsName(s)
    ensures Lex(s + " " + rest, shift, last, images) ==
            if Names.Decode(s) < |images|
            then Prepend(Operand(Image(images[Names.Decode(s)])), Lex(rest, shift, AnOperand, images))
            else Rejected(NoMatchingFile(s))
  {
    CapitalRunStops(s, " " + rest);
    WordFirst(s, rest);
    if Names.Decode(s) < |images| {
      LexTake(s + " " + rest, shift, last, images, |s|, Operand(Image(images[Names.Decode(s)])), AnOperand, rest);
    }
  }

  lemma {:induction false} CapitalRunWhole(s: string)
    requires Names.IsName(s)
    ensures CapitalRun(s) == |s|
    decreases |s|
  {
    if s != "" {
      CapitalRunWhole(s[1..]);
    }
  }

  /** The shortest name of n, on its own, is read as the n-th image of the list, or has none. */
  lemma NameResolves(n: nat, images: seq<seq<Pixel>>)
    ensures Tokenize(Names.Encode(n), images) ==
            if n < |images| then Tokens([Operand(Image(images[n]))]) else Rejected(NoMatchingFile(Names.Encode(n)))
  {
    var s := Names.Encode(n);
    CapitalRunWhole(s);
    Names.DecodeEncode(n);
    assert s[..|s|] == s && s[|s|..] == "";
    assert n < |images| ==> TurnAt(s, 0, Nothing, images) == Take(|s|, Operand(Image(images[n])), AnOperand);
    assert Lex("", 0, AnOperand, images) == Tokens([]);
  }
}
