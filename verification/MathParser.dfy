/** The expression evaluator as the program runs it, from the string to the result, on image buffers. */
module MathParser {
  import opened Decimals
  import opened Common
  import opened ComplexNumbers
  import opened Operators
  import opened ShuntingYard
  import opened Machine
  import opened Tokenizer
  import opened ImageBuffers
  import opened StackEvaluation
  import opened Calculator
  import Names

  // ---------------------------------------------------------------- tokens on the heap

  ghost function TokenBuffers(ts: seq<Token<Cell>>): set<object> {
    set i | 0 <= i < |ts| && ts[i].Operand? && ts[i].v.Buffer? :: ts[i].v.a
  }

  /** Every operand token has a buffer of its own, and all buffers have one size. */
  ghost predicate Apart(ts: seq<Token<Cell>>, size: nat) {
    (forall i :: 0 <= i < |ts| && ts[i].Operand? && ts[i].v.Buffer? ==> ts[i].v.a.Length == size) &&
    (forall i, j :: 0 <= i < j < |ts| && ts[i].Operand? && ts[j].Operand? && ts[i].v.Buffer? && ts[j].v.Buffer?
       ==> ts[i].v.a != ts[j].v.a)
  }

  ghost function ViewToken(t: Token<Cell>): Token<Value>
    reads if t.Operand? && t.v.Buffer? then {t.v.a} else {}
  {
    match t case Operand(c) => Operand(View(c)) case Operator(op) => Operator(op)
  }

  /** The tokens stand for these values in the current heap. */
  ghost predicate TokensView(ts: seq<Token<Cell>>, us: seq<Token<Value>>)
    reads TokenBuffers(ts)
  {
    |us| == |ts| &&
    forall i :: 0 <= i < |ts| ==>
      (ts[i].Operand? && ts[i].v.Buffer? ==> ts[i].v.a in TokenBuffers(ts)) && us[i] == ViewToken(ts[i])
  }

  /** The stack and the tokens still to come hold no buffer twice. */
  ghost predicate Disjoint(cs: seq<Cell>, ts: seq<Token<Cell>>) {
    Buffers(cs) !! TokenBuffers(ts)
  }

  // ---------------------------------------------------------------- evaluating postfix

  /** How evaluation ends on the heap. */
  datatype Ending = Finished(c: Cell) | ReadBelowStack | CalledAbort

  ghost predicate Ends(end: Ending, outcome: Outcome)
    reads if end.Finished? && end.c.Buffer? then {end.c.a} else {}
  {
    match end
    case Finished(c) => outcome == Done(View(c))
    case ReadBelowStack => outcome == Underflow
    case CalledAbort => outcome == Abort
  }

  /** Whether the loop goes on after an operator. */
  datatype Halt = GoOn | Stop(end: Ending)

  lemma OperatorCases(lib: Library, op: Op, rest: seq<Token<Value>>, vs: seq<Value>)
    ensures |vs| < op.Declared() ==>
      Evaluate(lib, [Operator(op)] + rest, vs) == Done(Bad(TooFewOperands(op.Declared(), |vs|, op.name)))
    ensures |vs| >= op.Declared() && Exec(lib, op.name, vs).Fault? ==>
      var outcome := Exec(lib, op.name, vs).outcome;
      Evaluate(lib, [Operator(op)] + rest, vs) == outcome && outcome in {Underflow, Abort}
    ensures |vs| >= op.Declared() && Exec(lib, op.name, vs).Stack? ==>
      var ws := Exec(lib, op.name, vs).values;
      ws != [] &&
      Evaluate(lib, [Operator(op)] + rest, vs) ==
        if Last(ws).Bad? then Done(Last(ws)) else Evaluate(lib, rest, ws)
  {
    assert ([Operator(op)] + rest)[1..] == rest;
  }

  /** One operator of the loop: the operand count, the operator in place, and the look at the top. */
  method RunOperator(lib: Library, op: Op, stack: TokenStack, ghost rest: seq<Token<Value>>,
                     ghost vs: seq<Value>, ghost size: nat)
    returns (halt: Halt, ghost ws: seq<Value>)
    requires Sound(stack.cells, size) && Views(stack.cells, vs)
    modifies stack, Buffers(stack.cells)
    ensures halt.Stop? ==> Ends(halt.end, Evaluate(lib, [Operator(op)] + rest, vs))
    ensures halt.Stop? && halt.end.Finished? ==> !halt.end.c.Buffer?
    ensures halt.GoOn? ==>
      Sound(stack.cells, size) && Views(stack.cells, ws) &&
      Evaluate(lib, [Operator(op)] + rest, vs) == Evaluate(lib, rest, ws) &&
      forall o :: o in Buffers(stack.cells) ==> o in old(Buffers(stack.cells)) || fresh(o)
  {
    ws := vs;
    OperatorCases(lib, op, rest, vs);
    if |stack.cells| < op.Declared() {
      return Stop(Finished(Failure(TooFewOperands(op.Declared(), |stack.cells|, op.name)))), vs;
    }
    var fate := Execute(lib, op.name, stack, vs, size);
    if fate == ReadsBelow {
      return Stop(ReadBelowStack), vs;
    } else if fate == Aborts {
      return Stop(CalledAbort), vs;
    }
    ws := Exec(lib, op.name, vs).values;
    ghost var cs := stack.cells;
    var peep := stack.Pop();
    if peep.Failure? {
      assert Last(ws) == View(peep);
      return Stop(Finished(peep)), ws;
    }
    stack.Push(peep);
    assert stack.cells == cs;
    assert Last(ws) == View(peep);
    return GoOn, ws;
  }

  /** The first of some tokens, apart from the others. */
  lemma FirstToken(ts: seq<Token<Cell>>, us: seq<Token<Value>>)
    requires ts != [] && TokensView(ts, us)
    ensures us[0] == ViewToken(ts[0]) && TokensView(ts[1..], us[1..])
    ensures TokenBuffers(ts[1..]) <= TokenBuffers(ts)
    ensures ts[0].Operand? && ts[0].v.Buffer? ==> ts[0].v.a in TokenBuffers(ts)
  {
    forall i | 0 <= i < |ts[1..]| && ts[1..][i].Operand? && ts[1..][i].v.Buffer?
      ensures ts[1..][i].v.a in TokenBuffers(ts) && ts[1..][i].v.a in TokenBuffers(ts[1..])
    {
      assert ts[1..][i] == ts[i + 1];
    }
  }

  /** Moving the first token's operand onto the stack keeps everything apart. */
  lemma PushOperand(cs: seq<Cell>, ts: seq<Token<Cell>>, size: nat)
    requires ts != [] && ts[0].Operand? && Sound(cs, size) && Apart(ts, size) && Disjoint(cs, ts)
    ensures Sound(cs + [ts[0].v], size) && Disjoint(cs + [ts[0].v], ts[1..])
    ensures forall o :: o in Buffers(cs + [ts[0].v]) ==> o in Buffers(cs) || o in TokenBuffers(ts)
  {
    var c := ts[0].v;
    var ds := cs + [c];
    assert c.Buffer? ==> c.a in TokenBuffers(ts);
    forall i | 0 <= i < |ds| && ds[i].Buffer? ensures i < |cs| ==> ds[i].a in Buffers(cs) {
    }
    forall i | 0 <= i < |ts[1..]| && ts[1..][i].Operand? && ts[1..][i].v.Buffer?
      ensures ts[1..][i].v.a in TokenBuffers(ts) && (c.Buffer? ==> ts[1..][i].v.a != c.a)
    {
      assert ts[1..][i] == ts[i + 1];
    }
  }

  lemma ApartTail(ts: seq<Token<Cell>>, i: nat, size: nat)
    requires i <= |ts| && Apart(ts, size)
    ensures Apart(ts[i..], size)
  {
  }

  /** The state of the loop: the stack, the tokens to come and the values both stand for. */
  ghost predicate Running(stack: TokenStack, ts: seq<Token<Cell>>, us: seq<Token<Value>>, vs: seq<Value>, size: nat)
    reads stack, Buffers(stack.cells), TokenBuffers(ts)
  {
    Sound(stack.cells, size) && Views(stack.cells, vs) &&
    Apart(ts, size) && TokensView(ts, us) && Disjoint(stack.cells, ts)
  }

  /** One turn of the loop. */
  method Consume(lib: Library, t: Token<Cell>, ghost ts: seq<Token<Cell>>, ghost us: seq<Token<Value>>,
                 stack: TokenStack, ghost vs: seq<Value>, ghost size: nat)
    returns (halt: Halt, ghost ws: seq<Value>)
    requires ts != [] && ts[0] == t && Running(stack, ts, us, vs, size)
    modifies stack, Buffers(stack.cells)
    ensures halt.Stop? ==> Ends(halt.end, Evaluate(lib, us, vs))
    ensures halt.Stop? && halt.end.Finished? ==> !halt.end.c.Buffer?
    ensures halt.GoOn? ==>
      Running(stack, ts[1..], us[1..], ws, size) && Evaluate(lib, us, vs) == Evaluate(lib, us[1..], ws)
    ensures halt.GoOn? ==>
      forall o :: o in Buffers(stack.cells) ==> o in old(Buffers(stack.cells)) || o in TokenBuffers(ts) || fresh(o)
  {
    FirstToken(ts, us);
    ApartTail(ts, 1, size);
    match t {
      case Operand(c) =>
        PushOperand(stack.cells, ts, size);
        stack.Push(c);
        return GoOn, vs + [us[0].v];
      case Operator(op) =>
        assert us == [Operator(op)] + us[1..];
        halt, ws := RunOperator(lib, op, stack, us[1..], vs, size);
    }
  }

  /** The evaluation loop: pushes operands, runs operators in place and checks the top for errors. */
  method EvaluatePostfix(lib: Library, postfix: seq<Token<Cell>>, ghost us: seq<Token<Value>>, ghost size: nat)
    returns (end: Ending)
    requires Apart(postfix, size) && TokensView(postfix, us)
    modifies TokenBuffers(postfix)
    ensures Ends(end, Evaluate(lib, us, []))
    ensures end.Finished? && end.c.Buffer? ==> end.c.a in TokenBuffers(postfix) || fresh(end.c.a)
  {
    var stack := new TokenStack();
    ghost var vs: seq<Value> := [];
    assert postfix[0..] == postfix && us[0..] == us;
    for i := 0 to |postfix|
      invariant fresh(stack) && Running(stack, postfix[i..], us[i..], vs, size)
      invariant TokenBuffers(postfix[i..]) <= TokenBuffers(postfix)
      invariant forall o :: o in Buffers(stack.cells) ==> o in TokenBuffers(postfix) || fresh(o)
      invariant Evaluate(lib, us[i..], vs) == Evaluate(lib, us, [])
    {
      FirstToken(postfix[i..], us[i..]);
      assert postfix[i..][1..] == postfix[i + 1..] && us[i..][1..] == us[i + 1..];
      var halt: Halt;
      halt, vs := Consume(lib, postfix[i], postfix[i..], us[i..], stack, vs, size);
      if halt.Stop? {
        return halt.end;
      }
    }
    assert us[|us|..] == [];
    if |stack.cells| == 1 {
      var c := stack.Pop();
      return Finished(c);
    }
    return Finished(Failure(StackContains(|stack.cells|)));
  }

  // ---------------------------------------------------------------- reading the string

  /** What the tokenizer returns: the tokens, a single error token, or nothing ever. */
  datatype Reading = TokenList(ts: seq<Token<Cell>>) | ErrorToken(error: Error) | Diverges

  /** The caller's images hold these pixels. */
  ghost predicate ImagesAre(images: seq<array<Pixel>>, pictures: seq<seq<Pixel>>)
    reads set k | 0 <= k < |images| :: images[k]
  {
    |pictures| == |images| && forall k :: 0 <= k < |images| ==> pictures[k] == images[k][..]
  }

  ghost function Pictures(images: seq<array<Pixel>>): (pictures: seq<seq<Pixel>>)
    reads set k | 0 <= k < |images| :: images[k]
    ensures ImagesAre(images, pictures)
  {
    seq(|images|, k requires 0 <= k < |images| reads if 0 <= k < |images| then {images[k]} else {} =>
      images[k][..])
  }

  /** The table scan: the first row whose identifier starts the text. */
  method MatchOperator(text: string) returns (j: nat)
    ensures j == FirstMatch(text)
  {
    j := 0;
    while j < ROWS && !(Spelling(TableRow(j)) <= text)
      invariant j <= ROWS && FirstMatch(text) == FirstMatch(text, j)
    {
      j := j + 1;
    }
  }

  /** The end of the run of capitals at the start of the text. */
  method SkipCapitals(text: string) returns (j: nat)
    ensures j == CapitalRun(text)
  {
    j := 0;
    while j < |text| && Names.IsCapital(text[j])
      invariant j <= |text| && CapitalRun(text) == j + CapitalRun(text[j..])
    {
      assert text[j..][1..] == text[j + 1..];
      j := j + 1;
    }
  }

  /** An operator, or the imaginary unit where an operand is due. */
  method ReadOperator(text: string, shift: int, last: Previous) returns (turn: Turn, cell: Cell)
    requires text != ""
    ensures turn == TurnAtOperator(text, shift, last)
    ensures turn.Take? && turn.t.Operand? ==> turn.t.v == View(cell)
    ensures !cell.Buffer?
  {
    cell := Number(IMAGINARY_UNIT);
    var j := MatchOperator(text);
    if j == ROWS {
      turn := Refuse(CannotTokenize(text));
    } else {
      turn := ReadRow(TableRow(j), |text|, shift, last);
    }
  }

  /** The matched row: a sign may turn out unary, the imaginary unit may be an operand. */
  method ReadRow(row: Name, length: nat, shift: int, last: Previous) returns (turn: Turn)
    ensures turn == TurnAtRow(row, length, shift, last)
    ensures turn.Take? && turn.t.Operand? ==> turn.t.v == Scalar(IMAGINARY_UNIT)
  {
    var name := row;
    if row == ImaginaryUnit && !EndsOperand(last) {
      return Take(1, Operand(Scalar(IMAGINARY_UNIT)), AnOperand);
    } else if row == Subtraction && !EndsOperand(last) {
      name := UnaryMinus;
    } else if row == Addition && !EndsOperand(last) {
      name := UnaryPlus;
    }
    turn := Take(|Spelling(row)|, Operator(Op(name, Precedence(name) + shift, length)), AnOperator(name));
  }

  /** A variable, with a copy of its image, or the error of a name that has none. */
  method ReadVariable(text: string, images: seq<array<Pixel>>, ghost pictures: seq<seq<Pixel>>)
    returns (turn: Turn, cell: Cell)
    requires text != "" && Names.IsCapital(text[0]) && ImagesAre(images, pictures)
    ensures var n := CapitalRun(text);
            var index := Names.Decode(text[..n]);
            turn == if index >= |pictures| then Refuse(NoMatchingFile(text[..n]))
                    else Take(n, Operand(Image(pictures[index])), AnOperand)
    ensures turn.Take? ==> turn.t == Operand(View(cell))
    ensures cell.Buffer? ==> fresh(cell.a) && exists k :: 0 <= k < |images| && cell.a.Length == images[k].Length
  {
    cell := Number(ZERO);
    var n := SkipCapitals(text);
    var index := Names.IndexFromVariableName(text[..n]);
    if index >= |images| {
      turn := Refuse(NoMatchingFile(text[..n]));
    } else {
      var copy := Duplicate(images[index]);
      cell := Buffer(copy);
      turn := Take(n, Operand(Image(copy[..])), AnOperand);
    }
  }

  /** One turn of the reading loop on the heap. */
  method ReadTurn(text: string, shift: int, last: Previous, images: seq<array<Pixel>>,
                  ghost pictures: seq<seq<Pixel>>)
    returns (turn: Turn, cell: Cell)
    requires text != "" && ImagesAre(images, pictures)
    ensures turn == TurnAt(text, shift, last, pictures)
    ensures turn.Take? && turn.t.Operand? ==> turn.t.v == View(cell)
    ensures cell.Buffer? ==> fresh(cell.a) && exists k :: 0 <= k < |images| && cell.a.Length == images[k].Length
  {
    cell := Number(ZERO);
    var c := text[0];
    if IsBlank(c) {
      turn := Skip(1, shift, last);
    } else if c == '(' {
      turn := Skip(1, shift + PARENTHESIS_SHIFT, OpenParenthesis);
    } else if c == ')' {
      turn := Skip(1, shift - PARENTHESIS_SHIFT, CloseParenthesis);
    } else if IsDigit(c) || c == '.' {
      var n := NumeralLength(text);
      if n == 0 {
        turn := Stall;
      } else {
        cell := Number(Complex(NumeralValue(text[..n]), 0.0));
        turn := Take(n, Operand(Scalar(cell.z)), AnOperand);
      }
    } else if Names.IsCapital(c) {
      turn, cell := ReadVariable(text, images, pictures);
    } else {
      turn, cell := ReadOperator(text, shift, last);
    }
  }

  /** What the string still reads as after a turn. */
  lemma AfterTurn(goal: Lexed, us: seq<Token<Value>>, text: string, shift: int, last: Previous,
                  pictures: seq<seq<Pixel>>, turn: Turn)
    requires text != "" && turn == TurnAt(text, shift, last, pictures)
    requires goal == PrependAll(us, Lex(text, shift, last, pictures))
    ensures turn.Skip? ==> goal == PrependAll(us, Lex(text[turn.used..], turn.shift, turn.last, pictures))
    ensures turn.Take? ==> goal == PrependAll(us + [turn.t], Lex(text[turn.used..], shift, turn.last, pictures))
    ensures turn.Refuse? ==> goal == Rejected(turn.error)
    ensures turn.Stall? ==> goal == NoProgress
  {
    if turn.Take? {
      PrependSnoc(us, turn.t, Lex(text[turn.used..], shift, turn.last, pictures));
    }
  }

  /** One turn, with the token it may take added to those read so far. */
  method ReadToken(text: string, shift: int, last: Previous, images: seq<array<Pixel>>,
                   ghost pictures: seq<seq<Pixel>>, before: seq<Token<Cell>>, ghost seen: seq<Token<Value>>,
                   ghost size: nat)
    returns (turn: Turn, ts: seq<Token<Cell>>, ghost us: seq<Token<Value>>)
    requires text != "" && ImagesAre(images, pictures) && forall k :: 0 <= k < |images| ==> images[k].Length == size
    requires TokensView(before, seen) && Apart(before, size)
    ensures turn == TurnAt(text, shift, last, pictures)
    ensures us == if turn.Take? then seen + [turn.t] else seen
    ensures TokensView(ts, us) && Apart(ts, size)
    ensures forall o :: o in TokenBuffers(ts) ==> o in TokenBuffers(before) || fresh(o)
  {
    var cell: Cell;
    turn, cell := ReadTurn(text, shift, last, images, pictures);
    ts, us := before, seen;
    if turn.Take? {
      var token := match turn.t case Operand(_) => Operand(cell) case Operator(op) => Operator(op);
      AppendToken(before, seen, token, size);
      ts, us := before + [token], seen + [turn.t];
    }
  }

  /** The reading loop. Every variable occurrence gets a buffer of its own. */
  method TokenizeString(input: string, images: seq<array<Pixel>>, ghost pictures: seq<seq<Pixel>>, ghost size: nat)
    returns (r: Reading, ghost us: seq<Token<Value>>)
    requires ImagesAre(images, pictures) && forall k :: 0 <= k < |images| ==> images[k].Length == size
    ensures match r
            case TokenList(ts) =>
              Tokenize(input, pictures) == Tokens(us) && TokensView(ts, us) && Apart(ts, size) &&
              forall o :: o in TokenBuffers(ts) ==> fresh(o)
            case ErrorToken(error) => Tokenize(input, pictures) == Rejected(error)
            case Diverges => Tokenize(input, pictures) == NoProgress
  {
    var ts: seq<Token<Cell>> := [];
    us := [];
    var rest, shift, last := input, 0, Nothing;
    ghost var goal := Tokenize(input, pictures);
    assert PrependAll([], goal) == goal;
    while rest != ""
      invariant goal == PrependAll(us, Lex(rest, shift, last, pictures))
      invariant TokensView(ts, us) && Apart(ts, size) && forall o :: o in TokenBuffers(ts) ==> fresh(o)
      decreases |rest|
    {
      ghost var seen := us;
      var turn: Turn;
      turn, ts, us := ReadToken(rest, shift, last, images, pictures, ts, us, size);
      AfterTurn(goal, seen, rest, shift, last, pictures, turn);
      match turn {
        case Skip(n, shift', last') =>
          rest, shift, last := rest[n..], shift', last';
        case Take(n, _, last') =>
          rest, last := rest[n..], last';
        case Refuse(error) =>
          return ErrorToken(error), [];
        case Stall =>
          return Diverges, [];
      }
    }
    assert us + [] == us;
    return TokenList(ts), us;
  }

  lemma PrependSnoc(us: seq<Token<Value>>, t: Token<Value>, rest: Lexed)
    ensures PrependAll(us, Prepend(t, rest)) == PrependAll(us + [t], rest)
  {
    if rest.Tokens? {
      assert us + ([t] + rest.ts) == us + [t] + rest.ts;
    }
  }

  lemma AppendToken(ts: seq<Token<Cell>>, us: seq<Token<Value>>, t: Token<Cell>, size: nat)
    requires TokensView(ts, us) && Apart(ts, size)
    requires t.Operand? && t.v.Buffer? ==> t.v.a.Length == size && t.v.a !in TokenBuffers(ts)
    ensures TokensView(ts + [t], us + [ViewToken(t)]) && Apart(ts + [t], size)
    ensures forall o :: o in TokenBuffers(ts + [t]) ==>
      o in TokenBuffers(ts) || (t.Operand? && t.v.Buffer? && o == t.v.a)
  {
    var all := ts + [t];
    forall i | 0 <= i < |all| && all[i].Operand? && all[i].v.Buffer?
      ensures all[i].v.a in TokenBuffers(all) && (i < |ts| ==> all[i].v.a in TokenBuffers(ts))
    {
    }
  }

  // ---------------------------------------------------------------- reordering

  /** The token list with every operand replaced by its position. */
  function Skeleton<V>(ts: seq<Token<V>>): (r: seq<Token<nat>>)
    ensures |r| == |ts|
    ensures forall i :: 0 <= i < |ts| ==>
      r[i] == match ts[i] case Operand(_) => Operand(i) case Operator(op) => Operator(op)
  {
    seq(|ts|, i requires 0 <= i < |ts| => match ts[i] case Operand(_) => Operand(i) case Operator(op) => Operator(op))
  }

  function Pick<V>(ts: seq<Token<V>>, otherwise: V, i: nat): V {
    if i < |ts| && ts[i].Operand? then ts[i].v else otherwise
  }

  lemma ParseBySkeleton<V>(ts: seq<Token<V>>, otherwise: V)
    ensures Parse(ts) == MapTokens(i => Pick(ts, otherwise, i), Parse(Skeleton(ts)))
  {
    ParseNatural(i => Pick(ts, otherwise, i), Skeleton(ts));
    assert MapTokens(i => Pick(ts, otherwise, i), Skeleton(ts)) == ts;
  }

  lemma PickedViews(ts: seq<Token<Cell>>, us: seq<Token<Value>>, p: seq<Token<nat>>, k: nat)
    requires TokensView(ts, us) && k < |p| && p[k] in multiset(Skeleton(ts))
    ensures MapToken(i => Pick(us, Scalar(ZERO), i), p[k]) ==
            ViewToken(MapToken(i => Pick(ts, Number(ZERO), i), p[k]))
  {
    var i :| 0 <= i < |ts| && Skeleton(ts)[i] == p[k];
    assert us[i] == ViewToken(ts[i]);
  }

  /** Reordering tokens on the heap reorders the values they stand for. */
  lemma ParseViews(ts: seq<Token<Cell>>, us: seq<Token<Value>>)
    requires TokensView(ts, us)
    ensures TokensView(Parse(ts), Parse(us))
  {
    var p := Parse(Skeleton(ts));
    assert Skeleton(ts) == Skeleton(us);
    ParseBySkeleton(ts, Number(ZERO));
    ParseBySkeleton(us, Scalar(ZERO));
    NothingLost(Skeleton(ts));
    var ps := Parse(ts);
    forall k | 0 <= k < |p|
      ensures (ps[k].Operand? && ps[k].v.Buffer? ==> ps[k].v.a in TokenBuffers(ps)) && Parse(us)[k] == ViewToken(ps[k])
    {
      assert p[k] in multiset(Skeleton(ts));
      PickedViews(ts, us, p, k);
    }
  }

  lemma {:induction false} BufferTokenOnce(ts: seq<Token<Cell>>, size: nat, t: Token<Cell>)
    requires Apart(ts, size) && t.Operand? && t.v.Buffer?
    ensures multiset(ts)[t] <= 1
    decreases |ts|
  {
    if ts != [] {
      var front := Front(ts);
      BufferTokenOnce(front, size, t);
      assert ts == front + [Last(ts)];
      if Last(ts) == t {
        forall i | 0 <= i < |front| ensures front[i] != t {
          assert front[i] == ts[i];
        }
      }
    }
  }

  lemma TwoPlacesCountTwice<T>(s: seq<T>, i: nat, j: nat)
    requires i < j < |s| && s[i] == s[j]
    ensures multiset(s)[s[i]] >= 2
  {
    assert s == s[..j] + [s[j]] + s[j + 1..];
    assert s[i] in s[..j];
  }

  /** Reordering keeps tokens in buffers of their own. */
  lemma ParseApart(ts: seq<Token<Cell>>, size: nat)
    requires Apart(ts, size)
    ensures Apart(Parse(ts), size) && TokenBuffers(Parse(ts)) <= TokenBuffers(ts)
  {
    NothingLost(ts);
    var ps := Parse(ts);
    forall k | 0 <= k < |ps| ensures exists i :: 0 <= i < |ts| && ts[i] == ps[k] {
      assert ps[k] in multiset(ts);
    }
    forall k, l | 0 <= k < l < |ps| && ps[k].Operand? && ps[l].Operand? && ps[k].v.Buffer? && ps[l].v.Buffer?
      ensures ps[k].v.a != ps[l].v.a
    {
      BufferTokenOnce(ts, size, ps[k]);
      if ps[k] == ps[l] {
        TwoPlacesCountTwice(ps, k, l);
      }
    }
  }

  // ---------------------------------------------------------------- the whole evaluation

  /** The result handed to the caller, or one of the two ways the program fails to return one. */
  datatype MathOutput =
    | MathOutputImage(image: array<Pixel>)
    | MathOutputScalar(scalar: Complex)
    | MathOutputError(error: Error)
    | ReadsBelowStack
    | NeverReturned

  ghost predicate Reports(out: MathOutput, report: Report)
    reads if out.MathOutputImage? then {out.image} else {}
  {
    match out
    case MathOutputImage(a) => report == Ended(Done(Image(a[..])))
    case MathOutputScalar(z) => report == Ended(Done(Scalar(z)))
    case MathOutputError(error) => report == Ended(Done(Bad(error)))
    case ReadsBelowStack => report == Ended(Underflow)
    case NeverReturned => report == NeverReturns
  }

  /** Evaluates an expression over the caller's images. Nothing is modified that existed before, an
      image result is a new buffer, and the result is what the specification calculates. */
  method EvaluateMathExpression(lib: Library, expression: string, images: seq<array<Pixel>>, ghost size: nat)
    returns (out: MathOutput)
    requires forall k :: 0 <= k < |images| ==> images[k].Length == size
    ensures Reports(out, Calculate(lib, expression, old(Pictures(images))))
    ensures out.MathOutputImage? ==> fresh(out.image)
  {
    ghost var pictures := Pictures(images);
    NeverCallsAbort(lib, expression, pictures);
    var reading, us := TokenizeString(expression, images, pictures, size);
    match reading {
      case Diverges =>
        out := NeverReturned;
      case ErrorToken(error) =>
        ErrorsComeOut(lib, expression, pictures);
        out := MathOutputError(error);
      case TokenList(ts) =>
        ParseViews(ts, us);
        ParseApart(ts, size);
        var postfix := ParseTokens(ts);
        var end := EvaluatePostfix(lib, postfix, Parse(us), size);
        match end {
          case Finished(c) =>
            match c {
              case Buffer(a) => out := MathOutputImage(a);
              case Number(z) => out := MathOutputScalar(z);
              case Failure(error) => out := MathOutputError(error);
            }
          case ReadBelowStack =>
            out := ReadsBelowStack;
          case CalledAbort =>
            assert false;
            out := NeverReturned;
        }
    }
  }
}
