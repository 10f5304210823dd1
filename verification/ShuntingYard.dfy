/** From infix to postfix: the operator stack, and the tree its output spells.

    Parentheses have already been folded into the precedences, so every token is an
    operand or an operator with an effective precedence. */
module ShuntingYard {
  import opened Common
  import opened Operators

  datatype Token<V> = Operand(v: V) | Operator(op: Op)

  /** The postfix tokens emitted so far and the operators waiting, the last one on top. */
  datatype Yard<V> = Yard(out: seq<Token<V>>, stack: seq<Op>)

  // ---------------------------------------------------------------- the algorithm

  /** Emits waiting operators while their precedence is above p. */
  function PopAbove<V>(y: Yard<V>, p: int): Yard<V>
    decreases |y.stack|
  {
    if y.stack != [] && p < Last(y.stack).precedence
    then PopAbove(Yard(y.out + [Operator(Last(y.stack))], Front(y.stack)), p)
    else y
  }

  /** Emits waiting operators while their precedence is p. */
  function PopEqual<V>(y: Yard<V>, p: int): Yard<V>
    decreases |y.stack|
  {
    if y.stack != [] && p == Last(y.stack).precedence
    then PopEqual(Yard(y.out + [Operator(Last(y.stack))], Front(y.stack)), p)
    else y
  }

  function MakeRoom<V>(y: Yard<V>, op: Op): Yard<V> {
    var above := PopAbove(y, op.precedence);
    if op.Associates() == LeftAssociative then PopEqual(above, op.precedence) else above
  }

  function Step<V>(y: Yard<V>, t: Token<V>): Yard<V> {
    match t
    case Operand(_) => Yard(y.out + [t], y.stack)
    case Operator(op) => var z := MakeRoom(y, op); Yard(z.out, z.stack + [op])
  }

  function Run<V>(y: Yard<V>, ts: seq<Token<V>>): Yard<V>
    decreases |ts|
  {
    if ts == [] then y else Run(Step(y, ts[0]), ts[1..])
  }

  /** Emits every waiting operator. */
  function Drain<V>(y: Yard<V>): seq<Token<V>>
    decreases |y.stack|
  {
    if y.stack == [] then y.out
    else Drain(Yard(y.out + [Operator(Last(y.stack))], Front(y.stack)))
  }

  function Parse<V>(ts: seq<Token<V>>): seq<Token<V>> {
    Drain(Run(Yard([], []), ts))
  }

  // ---------------------------------------------------------------- dominance

  /** An incoming operator sends a waiting one to the output. */
  predicate Evicts(incoming: Op, waiting: Op) {
    incoming.precedence < waiting.precedence ||
    (incoming.precedence == waiting.precedence && incoming.Associates() == LeftAssociative)
  }

  /** op evicts every operator among the tokens before it. */
  predicate EvictsAll<V>(op: Op, ts: seq<Token<V>>) {
    forall i :: 0 <= i < |ts| && ts[i].Operator? ==> Evicts(op, ts[i].op)
  }

  /** op is evicted by no operator among the tokens after it. */
  predicate Withstands<V>(op: Op, ts: seq<Token<V>>) {
    forall i :: 0 <= i < |ts| && ts[i].Operator? ==> !Evicts(ts[i].op, op)
  }

  /** op is the last of the lowest operators if they associate to the left, otherwise the first. */
  predicate Dominates<V>(left: seq<Token<V>>, op: Op, right: seq<Token<V>>) {
    EvictsAll(op, left) && Withstands(op, right)
  }

  // ---------------------------------------------------------------- the reference: splitting trees

  /** A tree over operators; a leaf holds the operands found between two operators. */
  datatype Tree<V> = Leaf(operands: seq<V>) | Node(left: Tree<V>, op: Op, right: Tree<V>)

  function Operands<V>(vs: seq<V>): seq<Token<V>> {
    seq(|vs|, i requires 0 <= i < |vs| => Operand(vs[i]))
  }

  function Inorder<V>(t: Tree<V>): seq<Token<V>> {
    match t
    case Leaf(vs) => Operands(vs)
    case Node(l, op, r) => Inorder(l) + [Operator(op)] + Inorder(r)
  }

  function Postorder<V>(t: Tree<V>): seq<Token<V>> {
    match t
    case Leaf(vs) => Operands(vs)
    case Node(l, op, r) => Postorder(l) + Postorder(r) + [Operator(op)]
  }

  /** At every node the operator dominates the two sides it separates. */
  ghost predicate Layered<V>(t: Tree<V>) {
    match t
    case Leaf(_) => true
    case Node(l, op, r) => Dominates(Inorder(l), op, Inorder(r)) && Layered(l) && Layered(r)
  }

  // ---------------------------------------------------------------- splitting at a dominating operator

  /** Running from a deeper stack only adds to the output in front and to the stack below,
      as long as nothing evicts the entry at the seam. */
  lemma {:induction false} PopFramed<V>(out: seq<Token<V>>, base: seq<Op>, y: Yard<V>, op: Op)
    requires base != [] ==> !Evicts(op, Last(base))
    ensures MakeRoom(Yard(out + y.out, base + y.stack), op) ==
            Yard(out + MakeRoom(y, op).out, base + MakeRoom(y, op).stack)
    decreases |y.stack|
  {
    var p := op.precedence;
    PopAboveFramed(out, base, y, p);
    if op.Associates() == LeftAssociative {
      PopEqualFramed(out, base, PopAbove(y, p), p);
    }
  }

  lemma {:induction false} PopAboveFramed<V>(out: seq<Token<V>>, base: seq<Op>, y: Yard<V>, p: int)
    requires base != [] ==> Last(base).precedence <= p
    ensures PopAbove(Yard(out + y.out, base + y.stack), p) ==
            Yard(out + PopAbove(y, p).out, base + PopAbove(y, p).stack)
    decreases |y.stack|
  {
    var deep := Yard(out + y.out, base + y.stack);
    if y.stack == [] {
      assert base + y.stack == base;
    } else if p < Last(y.stack).precedence {
      var z := Yard(y.out + [Operator(Last(y.stack))], Front(y.stack));
      PopAboveFramed(out, base, z, p);
      assert out + z.out == deep.out + [Operator(Last(deep.stack))];
      assert base + z.stack == Front(deep.stack);
    }
  }

  lemma {:induction false} PopEqualFramed<V>(out: seq<Token<V>>, base: seq<Op>, y: Yard<V>, p: int)
    requires base != [] ==> Last(base).precedence != p
    ensures PopEqual(Yard(out + y.out, base + y.stack), p) ==
            Yard(out + PopEqual(y, p).out, base + PopEqual(y, p).stack)
    decreases |y.stack|
  {
    var deep := Yard(out + y.out, base + y.stack);
    if y.stack == [] {
      assert base + y.stack == base;
    } else if p == Last(y.stack).precedence {
      var z := Yard(y.out + [Operator(Last(y.stack))], Front(y.stack));
      PopEqualFramed(out, base, z, p);
      assert out + z.out == deep.out + [Operator(Last(deep.stack))];
      assert base + z.stack == Front(deep.stack);
    }
  }

  lemma {:induction false} RunFramed<V>(out: seq<Token<V>>, base: seq<Op>, y: Yard<V>, ts: seq<Token<V>>)
    requires base != [] ==> Withstands(Last(base), ts)
    ensures Run(Yard(out + y.out, base + y.stack), ts) ==
            Yard(out + Run(y, ts).out, base + Run(y, ts).stack)
    decreases |ts|
  {
    if ts != [] {
      var deep := Yard(out + y.out, base + y.stack);
      var z := Step(y, ts[0]);
      match ts[0] {
        case Operand(_) =>
          assert out + z.out == deep.out + [ts[0]];
        case Operator(op) =>
          PopFramed(out, base, y, op);
          var w := MakeRoom(y, op);
          assert base + z.stack == (base + w.stack) + [op];
      }
      assert Step(deep, ts[0]) == Yard(out + z.out, base + z.stack);
      RunFramed(out, base, z, ts[1..]);
    }
  }

  lemma {:induction false} DrainFramed<V>(out: seq<Token<V>>, y: Yard<V>)
    ensures Drain(Yard(out + y.out, y.stack)) == out + Drain(y)
    decreases |y.stack|
  {
    if y.stack != [] {
      var z := Yard(y.out + [Operator(Last(y.stack))], Front(y.stack));
      DrainFramed(out, z);
      assert out + z.out == out + y.out + [Operator(Last(y.stack))];
    }
  }

  /** The bottom entry of the stack comes out last. */
  lemma {:induction false} DrainBottom<V>(y: Yard<V>, bottom: Op)
    ensures Drain(Yard(y.out, [bottom] + y.stack)) == Drain(y) + [Operator(bottom)]
    decreases |y.stack|
  {
    var deep := Yard(y.out, [bottom] + y.stack);
    if y.stack == [] {
      assert deep.stack == [bottom];
      assert Front(deep.stack) == [];
      var z := Yard(y.out + [Operator(bottom)], []);
      assert Drain(deep) == Drain(z);
    } else {
      var z := Yard(y.out + [Operator(Last(y.stack))], Front(y.stack));
      DrainBottom(z, bottom);
      assert [bottom] + z.stack == Front(deep.stack);
    }
  }

  lemma {:induction false} RunAppend<V>(y: Yard<V>, s: seq<Token<V>>, t: seq<Token<V>>)
    ensures Run(y, s + t) == Run(Run(y, s), t)
    decreases |s|
  {
    if s == [] {
      assert s + t == t;
    } else {
      assert (s + t)[0] == s[0] && (s + t)[1..] == s[1..] + t;
      RunAppend(Step(y, s[0]), s[1..], t);
    }
  }

  // ---------------------------------------------------------------- the stack stays sorted

  /** Precedences never decrease from the bottom of the stack to its top. */
  predicate Sorted(stack: seq<Op>) {
    forall i, j :: 0 <= i < j < |stack| ==> stack[i].precedence <= stack[j].precedence
  }

  lemma {:induction false} PopsKeep<V>(y: Yard<V>, p: int)
    ensures PopAbove(y, p).stack <= y.stack && PopEqual(y, p).stack <= y.stack
    ensures var z := PopAbove(y, p).stack; z != [] ==> Last(z).precedence <= p
    ensures var z := PopEqual(y, p).stack; z != [] ==> Last(z).precedence != p
    decreases |y.stack|
  {
    if y.stack != [] {
      PopsKeep(Yard(y.out + [Operator(Last(y.stack))], Front(y.stack)), p);
    }
  }

  lemma StepSorted<V>(y: Yard<V>, t: Token<V>)
    requires Sorted(y.stack)
    ensures Sorted(Step(y, t).stack)
  {
    if t.Operator? {
      var p := t.op.precedence;
      PopsKeep(y, p);
      PopsKeep(PopAbove(y, p), p);
      var z := MakeRoom(y, t.op).stack;
      assert z != [] ==> Last(z) == PopAbove(y, p).stack[|z| - 1];
    }
  }

  /** The stack is sorted after every token of every input. */
  lemma {:induction false} AlwaysSorted<V>(ts: seq<Token<V>>, i: nat)
    requires i <= |ts|
    ensures Sorted(Run(Yard([], []), ts[..i]).stack)
  {
    if i > 0 {
      AlwaysSorted(ts, i - 1);
      assert ts[..i] == ts[..i - 1] + [ts[i - 1]];
      RunAppend(Yard([], []), ts[..i - 1], [ts[i - 1]]);
      StepSorted(Run(Yard([], []), ts[..i - 1]), ts[i - 1]);
    }
  }

  // ---------------------------------------------------------------- splitting at a dominating operator

  lemma {:induction false} WaitingEvicted<V>(y: Yard<V>, ts: seq<Token<V>>, op: Op)
    requires Sorted(y.stack) && forall i :: 0 <= i < |y.stack| ==> Evicts(op, y.stack[i])
    requires EvictsAll(op, ts)
    ensures var z := Run(y, ts);
            Sorted(z.stack) && forall i :: 0 <= i < |z.stack| ==> Evicts(op, z.stack[i])
    decreases |ts|
  {
    if ts != [] {
      StepSorted(y, ts[0]);
      if ts[0].Operator? {
        var p := ts[0].op.precedence;
        PopsKeep(y, p);
        PopsKeep(PopAbove(y, p), p);
      }
      WaitingEvicted(Step(y, ts[0]), ts[1..], op);
    }
  }

  lemma {:induction false} EvictsEverything<V>(y: Yard<V>, op: Op)
    requires Sorted(y.stack) && forall i :: 0 <= i < |y.stack| ==> Evicts(op, y.stack[i])
    ensures MakeRoom(y, op) == Yard(Drain(y), [])
    decreases |y.stack|
  {
    if y.stack != [] {
      var z := Yard(y.out + [Operator(Last(y.stack))], Front(y.stack));
      EvictsEverything(z, op);
      if Last(y.stack).precedence == op.precedence {
        assert z.stack == [] || Last(z.stack).precedence == op.precedence;
      }
    }
  }

  /** An operator that evicts everything before it finds the whole stack emitted. */
  lemma EverythingBefore<V>(left: seq<Token<V>>, op: Op)
    requires EvictsAll(op, left)
    ensures Run(Yard([], []), left + [Operator(op)]) == Yard(Parse(left), [op])
  {
    var start: Yard<V> := Yard([], []);
    var y := Run(start, left);
    WaitingEvicted(start, left, op);
    EvictsEverything(y, op);
    RunAppend(start, left, [Operator(op)]);
    assert Step(y, Operator(op)) == Yard(Drain(y), [] + [op]);
    assert Run(y, [Operator(op)]) == Run(Step(y, Operator(op)), []);
  }

  /** An operator that withstands everything behind it is emitted last. */
  lemma EverythingBehind<V>(done: seq<Token<V>>, op: Op, right: seq<Token<V>>)
    requires Withstands(op, right)
    ensures Drain(Run(Yard(done, [op]), right)) == done + Parse(right) + [Operator(op)]
  {
    var start: Yard<V> := Yard([], []);
    RunFramed(done, [op], start, right);
    assert Yard(done, [op]) == Yard(done + start.out, [op] + start.stack);
    var z := Run(start, right);
    DrainBottom(Yard(done + z.out, z.stack), op);
    DrainFramed(done, z);
  }

  /** An operator that dominates its two sides is emitted after both of them. */
  lemma SplitAtDominant<V>(left: seq<Token<V>>, op: Op, right: seq<Token<V>>)
    requires Dominates(left, op, right)
    ensures Parse(left + [Operator(op)] + right) == Parse(left) + Parse(right) + [Operator(op)]
  {
    RunAppend(Yard([], []), left + [Operator(op)], right);
    EverythingBefore(left, op);
    EverythingBehind(Parse(left), op, right);
  }

  // ---------------------------------------------------------------- the root of a token list

  /** The operator a reader would split at first, or -1 when there is none. */
  function RootIndex<V>(ts: seq<Token<V>>): (k: int)
    ensures -1 <= k < |ts|
    ensures k >= 0 ==> ts[k].Operator? && Dominates(ts[..k], ts[k].op, ts[k + 1..])
    ensures k < 0 ==> forall i :: 0 <= i < |ts| ==> ts[i].Operand?
    decreases |ts|
  {
    if ts == [] then -1
    else
      var front, t := Front(ts), Last(ts);
      var k := RootIndex(front);
      if t.Operator? && (k < 0 || Evicts(t.op, ts[k].op)) then
        assert EvictsAll(t.op, front) by {
          forall i | 0 <= i < |front| && front[i].Operator? ensures Evicts(t.op, front[i].op) {
            assert i < k ==> front[i] == front[..k][i];
            assert i > k >= 0 ==> front[i] == front[k + 1..][i - k - 1];
          }
        }
        |ts| - 1
      else
        assert k >= 0 ==> ts[..k] == front[..k] && ts[k + 1..] == front[k + 1..] + [t];
        k
  }

  /** No two positions dominate the same token list. */
  lemma RootIsUnique<V>(ts: seq<Token<V>>, j: nat, k: nat)
    requires j < |ts| && ts[j].Operator? && Dominates(ts[..j], ts[j].op, ts[j + 1..])
    requires k < |ts| && ts[k].Operator? && Dominates(ts[..k], ts[k].op, ts[k + 1..])
    ensures j == k
  {
    if j != k {
      LaterCannotEvict(ts, if j < k then j else k, if j < k then k else j);
    }
  }

  lemma LaterCannotEvict<V>(ts: seq<Token<V>>, j: nat, k: nat)
    requires j < k < |ts| && ts[j].Operator? && ts[k].Operator?
    requires Withstands(ts[j].op, ts[j + 1..])
    ensures !EvictsAll(ts[k].op, ts[..k])
  {
    assert ts[..k][j] == ts[j] && ts[j + 1..][k - j - 1] == ts[k];
  }

  /** Operators of one effective precedence associate the same way. */
  ghost predicate ShareAssociativity<V>(ts: seq<Token<V>>) {
    forall i, j :: 0 <= i < |ts| && 0 <= j < |ts| && ts[i].Operator? && ts[j].Operator? &&
      ts[i].op.precedence == ts[j].op.precedence
      ==> ts[i].op.Associates() == ts[j].op.Associates()
  }

  /** The root is a lowest operator: the last of them if they associate to the left, the first otherwise. */
  lemma RootPosition<V>(ts: seq<Token<V>>, i: nat)
    requires ShareAssociativity(ts)
    requires RootIndex(ts) >= 0 && i < |ts| && ts[i].Operator? && i != RootIndex(ts)
    ensures var root := ts[RootIndex(ts)].op;
            root.precedence <= ts[i].op.precedence &&
            (root.precedence == ts[i].op.precedence ==>
               (i < RootIndex(ts) <==> root.Associates() == LeftAssociative))
  {
    var k := RootIndex(ts);
    assert i < k ==> ts[..k][i] == ts[i];
    assert i > k ==> ts[k + 1..][i - k - 1] == ts[i];
  }

  lemma SplitAtRoot<V>(ts: seq<Token<V>>)
    requires RootIndex(ts) >= 0
    ensures var k := RootIndex(ts); Parse(ts) == Parse(ts[..k]) + Parse(ts[k + 1..]) + [ts[k]]
  {
    var k := RootIndex(ts);
    Rejoin(ts, k);
    SplitAtDominant(ts[..k], ts[k].op, ts[k + 1..]);
  }

  function Values<V>(ts: seq<Token<V>>): seq<V>
    requires forall i :: 0 <= i < |ts| ==> ts[i].Operand?
  {
    seq(|ts|, i requires 0 <= i < |ts| => ts[i].v)
  }

  /** The tree obtained by splitting at the root, over and over. */
  function SplitTree<V>(ts: seq<Token<V>>): Tree<V>
    decreases |ts|
  {
    var k := RootIndex(ts);
    if k < 0 then Leaf(Values(ts))
    else Node(SplitTree(ts[..k]), ts[k].op, SplitTree(ts[k + 1..]))
  }

  lemma Rejoin<V>(ts: seq<Token<V>>, k: nat)
    requires k < |ts| && ts[k].Operator?
    ensures ts[..k] + [Operator(ts[k].op)] + ts[k + 1..] == ts
  {
  }

  lemma {:induction false} SplitTreeSpells<V>(ts: seq<Token<V>>)
    ensures Inorder(SplitTree(ts)) == ts && Layered(SplitTree(ts))
    decreases |ts|
  {
    var k := RootIndex(ts);
    if k >= 0 {
      var before, after := ts[..k], ts[k + 1..];
      SplitTreeSpells(before);
      SplitTreeSpells(after);
      Rejoin(ts, k);
      assert SplitTree(ts) == Node(SplitTree(before), ts[k].op, SplitTree(after));
    }
  }

  lemma {:induction false} RunOperands<V>(y: Yard<V>, ts: seq<Token<V>>)
    requires forall i :: 0 <= i < |ts| ==> ts[i].Operand?
    ensures Run(y, ts) == Yard(y.out + ts, y.stack)
    decreases |ts|
  {
    if ts == [] {
      assert y.out + ts == y.out;
    } else {
      RunOperands(Step(y, ts[0]), ts[1..]);
      assert y.out + [ts[0]] + ts[1..] == y.out + ts;
    }
  }

  /** For every token list, the output is the postorder of the splitting tree. */
  lemma {:induction false} ParseIsPostorder<V>(ts: seq<Token<V>>)
    ensures Parse(ts) == Postorder(SplitTree(ts))
    decreases |ts|
  {
    var k := RootIndex(ts);
    if k < 0 {
      RunOperands(Yard([], []), ts);
      assert Operands(Values(ts)) == ts;
    } else {
      SplitAtRoot(ts);
      ParseIsPostorder(ts[..k]);
      ParseIsPostorder(ts[k + 1..]);
    }
  }

  // ---------------------------------------------------------------- which trees are recovered

  /** A layered tree is the splitting tree of the tokens it spells. */
  lemma {:induction false} LayeredIsSplit<V>(t: Tree<V>)
    requires Layered(t)
    ensures SplitTree(Inorder(t)) == t
  {
    var ts := Inorder(t);
    match t {
      case Leaf(vs) =>
        assert Values(ts) == vs;
      case Node(l, op, r) =>
        var j := |Inorder(l)|;
        assert ts[..j] == Inorder(l) && ts[j] == Operator(op) && ts[j + 1..] == Inorder(r);
        RootIsUnique(ts, j, RootIndex(ts));
        LayeredIsSplit(l);
        LayeredIsSplit(r);
    }
  }

  /** No operator token occurs twice, as when every token is its own allocation. */
  ghost predicate DistinctOperators<V>(ts: seq<Token<V>>) {
    forall i, j :: 0 <= i < j < |ts| && ts[i].Operator? ==> ts[i] != ts[j]
  }

  lemma PostorderEnd<V>(t: Tree<V>)
    ensures t.Node? <==> Postorder(t) != [] && Last(Postorder(t)).Operator?
    ensures t.Node? ==> Last(Postorder(t)) == Operator(t.op)
  {
  }

  /** The two orders together determine a tree. */
  lemma {:induction false} OrdersDetermineTree<V>(s: Tree<V>, t: Tree<V>)
    requires Inorder(s) == Inorder(t) && Postorder(s) == Postorder(t)
    requires DistinctOperators(Inorder(s))
    ensures s == t
  {
    PostorderEnd(s);
    PostorderEnd(t);
    if s.Leaf? {
      assert Values(Inorder(s)) == s.operands && Values(Inorder(t)) == t.operands;
    } else {
      var ts := Inorder(s);
      var i, j := |Inorder(s.left)|, |Inorder(t.left)|;
      assert ts[i] == Operator(s.op) && ts[j] == Operator(t.op);
      assert i == j;
      assert Inorder(s.left) == ts[..i] == Inorder(t.left);
      assert Inorder(s.right) == ts[i + 1..] == Inorder(t.right);
      SameLength(s.left);
      SameLength(t.left);
      var p := Front(Postorder(s));
      assert p == Postorder(s.left) + Postorder(s.right) == Postorder(t.left) + Postorder(t.right);
      assert Postorder(s.left) == p[..i] == Postorder(t.left);
      assert Postorder(s.right) == p[i..] == Postorder(t.right);
      OrdersDetermineTree(s.left, t.left);
      OrdersDetermineTree(s.right, t.right);
    }
  }

  lemma SameLength<V>(t: Tree<V>)
    ensures |Postorder(t)| == |Inorder(t)|
  {
  }

  /** A written tree is read back as itself exactly when every operator dominates its sides. */
  lemma ReadBackExactlyWhenLayered<V>(t: Tree<V>)
    requires DistinctOperators(Inorder(t))
    ensures Parse(Inorder(t)) == Postorder(t) <==> Layered(t)
  {
    var s := SplitTree(Inorder(t));
    ParseIsPostorder(Inorder(t));
    SplitTreeSpells(Inorder(t));
    if Layered(t) {
      LayeredIsSplit(t);
    }
    if Parse(Inorder(t)) == Postorder(t) {
      OrdersDetermineTree(s, t);
    }
  }

  /** The half of the previous result that needs no distinctness. */
  lemma LayeredIsReadBack<V>(t: Tree<V>)
    requires Layered(t)
    ensures Parse(Inorder(t)) == Postorder(t)
  {
    ParseIsPostorder(Inorder(t));
    LayeredIsSplit(t);
  }

  // ---------------------------------------------------------------- nothing is lost

  function OperandsOf<V>(ts: seq<Token<V>>): seq<V>
    decreases |ts|
  {
    if ts == [] then []
    else (if ts[0].Operand? then [ts[0].v] else []) + OperandsOf(ts[1..])
  }

  lemma {:induction false} OperandsOfConcat<V>(s: seq<Token<V>>, t: seq<Token<V>>)
    ensures OperandsOf(s + t) == OperandsOf(s) + OperandsOf(t)
    decreases |s|
  {
    if s == [] {
      assert s + t == t;
    } else {
      assert (s + t)[0] == s[0] && (s + t)[1..] == s[1..] + t;
      OperandsOfConcat(s[1..], t);
    }
  }

  lemma {:induction false} SameMultiset<V>(t: Tree<V>)
    ensures multiset(Postorder(t)) == multiset(Inorder(t))
  {
    if t.Node? {
      SameMultiset(t.left);
      SameMultiset(t.right);
    }
  }

  lemma {:induction false} SameOperands<V>(t: Tree<V>)
    ensures OperandsOf(Postorder(t)) == OperandsOf(Inorder(t))
  {
    if t.Node? {
      SameOperands(t.left);
      SameOperands(t.right);
      OperandsAround(Inorder(t.left), t.op, Inorder(t.right));
      OperandsAround(Postorder(t.left) + Postorder(t.right), t.op, []);
      OperandsOfConcat(Postorder(t.left), Postorder(t.right));
      assert Postorder(t.left) + Postorder(t.right) + [Operator(t.op)] + [] == Postorder(t);
    }
  }

  lemma OperandsAround<V>(s: seq<Token<V>>, op: Op, t: seq<Token<V>>)
    ensures OperandsOf(s + [Operator(op)] + t) == OperandsOf(s) + OperandsOf(t)
  {
    OperandsOfConcat(s + [Operator(op)], t);
    OperandsOfConcat(s, [Operator(op)]);
  }

  /** The output is a permutation of the input with the operands in their original order. */
  lemma NothingLost<V>(ts: seq<Token<V>>)
    ensures |Parse(ts)| == |ts|
    ensures multiset(Parse(ts)) == multiset(ts)
    ensures OperandsOf(Parse(ts)) == OperandsOf(ts)
  {
    ParseIsPostorder(ts);
    SplitTreeSpells(ts);
    SameMultiset(SplitTree(ts));
    SameOperands(SplitTree(ts));
    SameLength(SplitTree(ts));
  }

  // ---------------------------------------------------------------- naturality

  function MapToken<V, W>(f: V -> W, t: Token<V>): Token<W> {
    match t case Operand(v) => Operand(f(v)) case Operator(op) => Operator(op)
  }

  function MapTokens<V, W>(f: V -> W, ts: seq<Token<V>>): (r: seq<Token<W>>)
    ensures |r| == |ts| && forall i :: 0 <= i < |r| ==> r[i] == MapToken(f, ts[i])
  {
    seq(|ts|, i requires 0 <= i < |ts| => MapToken(f, ts[i]))
  }

  lemma {:induction false} RootIndexNatural<V, W>(f: V -> W, ts: seq<Token<V>>)
    ensures RootIndex(MapTokens(f, ts)) == RootIndex(ts)
  {
    var us := MapTokens(f, ts);
    var j, k := RootIndex(ts), RootIndex(us);
    if j >= 0 {
      assert us[j].Operator?;
      assert Dominates(us[..j], us[j].op, us[j + 1..]) by {
        assert us[..j] == MapTokens(f, ts[..j]) && us[j + 1..] == MapTokens(f, ts[j + 1..]);
      }
      RootIsUnique(us, j, k);
    }
  }

  /** The order of the output does not depend on what the operands are. */
  lemma {:induction false} ParseNatural<V, W>(f: V -> W, ts: seq<Token<V>>)
    ensures Parse(MapTokens(f, ts)) == MapTokens(f, Parse(ts))
    decreases |ts|
  {
    var us := MapTokens(f, ts);
    var k := RootIndex(ts);
    RootIndexNatural(f, ts);
    if k < 0 {
      RunOperands(Yard([], []), ts);
      RunOperands(Yard([], []), us);
    } else {
      var before, after := ts[..k], ts[k + 1..];
      ParseNatural(f, before);
      ParseNatural(f, after);
      SplitAtRoot(ts);
      SplitAtRoot(us);
      assert us[..k] == MapTokens(f, before) && us[k + 1..] == MapTokens(f, after);
    }
  }

  // ---------------------------------------------------------------- the loops

  method EmitAbove<V>(slots: array<Token<V>>, start: nat, waiting: seq<Op>, p: int)
    returns (used: nat, stack: seq<Op>)
    requires start + |waiting| <= slots.Length
    modifies slots
    ensures used + |stack| == start + |waiting|
    ensures Yard(slots[..used], stack) == PopAbove(Yard(old(slots[..start]), waiting), p)
  {
    used, stack := start, waiting;
    while stack != [] && p < Last(stack).precedence
      invariant used + |stack| == start + |waiting|
      invariant PopAbove(Yard(slots[..used], stack), p) == PopAbove(Yard(old(slots[..start]), waiting), p)
      decreases |stack|
    {
      ghost var emitted := slots[..used];
      slots[used] := Operator(Last(stack));
      assert slots[..used + 1] == emitted + [Operator(Last(stack))];
      used, stack := used + 1, Front(stack);
    }
  }

  method EmitEqual<V>(slots: array<Token<V>>, start: nat, waiting: seq<Op>, p: int)
    returns (used: nat, stack: seq<Op>)
    requires start + |waiting| <= slots.Length
    modifies slots
    ensures used + |stack| == start + |waiting|
    ensures Yard(slots[..used], stack) == PopEqual(Yard(old(slots[..start]), waiting), p)
  {
    used, stack := start, waiting;
    while stack != [] && p == Last(stack).precedence
      invariant used + |stack| == start + |waiting|
      invariant PopEqual(Yard(slots[..used], stack), p) == PopEqual(Yard(old(slots[..start]), waiting), p)
      decreases |stack|
    {
      ghost var emitted := slots[..used];
      slots[used] := Operator(Last(stack));
      assert slots[..used + 1] == emitted + [Operator(Last(stack))];
      used, stack := used + 1, Front(stack);
    }
  }

  /** The stack loops of the program, filling a buffer of exactly the input's size. */
  method ParseTokens<V>(infix: seq<Token<V>>) returns (postfix: seq<Token<V>>)
    ensures postfix == Parse(infix)
  {
    var slots := new Token<V>[|infix|](i requires 0 <= i < |infix| => infix[i]);
    var stack: seq<Op> := [];
    var used := 0;
    for i := 0 to |infix|
      invariant used >= 0 && used + |stack| == i
      invariant Run(Yard(slots[..used], stack), infix[i..]) == Run(Yard([], []), infix)
    {
      var t := infix[i];
      ghost var before := Yard(slots[..used], stack);
      match t {
        case Operand(_) =>
          slots[used] := t;
          used := used + 1;
          assert slots[..used] == before.out + [t];
        case Operator(op) =>
          used, stack := EmitAbove(slots, used, stack, op.precedence);
          if op.Associates() == LeftAssociative {
            used, stack := EmitEqual(slots, used, stack, op.precedence);
          }
          stack := stack + [op];
      }
      assert Yard(slots[..used], stack) == Step(before, t);
      assert infix[i..][1..] == infix[i + 1..];
    }
    assert infix[|infix|..] == [];
    while stack != []
      invariant used >= 0 && used + |stack| == |infix|
      invariant Drain(Yard(slots[..used], stack)) == Parse(infix)
      decreases |stack|
    {
      ghost var emitted := slots[..used];
      slots[used] := Operator(Last(stack));
      assert slots[..used + 1] == emitted + [Operator(Last(stack))];
      used, stack := used + 1, Front(stack);
    }
    return slots[..used];
  }
}
