/** The stack machine as the program runs it: a stack of tokens whose images are overwritten in place. */
module StackEvaluation {
  import opened Common
  import opened Operators
  import opened Machine
  import opened ImageBuffers

  class TokenStack {
    var cells: seq<Cell>

    constructor ()
      ensures cells == []
    {
      cells := [];
    }

    method Push(c: Cell)
      modifies this
      ensures cells == old(cells) + [c]
    {
      cells := cells + [c];
    }

    method Pop() returns (c: Cell)
      requires cells != []
      modifies this
      ensures c == Last(old(cells)) && cells == Front(old(cells))
    {
      c := cells[|cells| - 1];
      cells := cells[..|cells| - 1];
    }
  }

  /** How running one operator ends. */
  datatype Fate = Fine | ReadsBelow | Aborts

  /** What the in-place operators rely on and keep: images of one size, none of them held twice. */
  ghost predicate Sound(cs: seq<Cell>, size: nat) {
    Separate(cs) && SameSize(cs, size)
  }

  /** Replacing the popped cells by one of them, or by something new, keeps the stack sound. */
  lemma ReplaceTop(cs: seq<Cell>, k: nat, r: Cell, size: nat)
    requires k <= |cs| && Sound(cs, size)
    requires r.Buffer? ==> r.a.Length == size && (r.a !in Buffers(cs) || r in Top(cs, k))
    ensures Sound(cs[..|cs| - k] + [r], size)
    ensures forall o :: o in Buffers(cs[..|cs| - k] + [r]) ==>
      o in Buffers(cs) || (r.Buffer? && o == r.a && r !in Top(cs, k))
  {
    var after := cs[..|cs| - k] + [r];
    if r.Buffer? && r in Top(cs, k) {
      var i :| |cs| - k <= i < |cs| && cs[i] == r;
    }
    forall i | 0 <= i < |cs| - k && after[i].Buffer? ensures after[i] == cs[i] && after[i].a in Buffers(cs) {
    }
  }

  /** Cells below the popped ones keep their values while the popped ones are overwritten. */
  ghost predicate Below(cs: seq<Cell>, vs: seq<Value>, k: nat)
    requires k <= |cs| == |vs|
    reads Buffers(cs)
  {
    forall i :: 0 <= i < |cs| - k ==> (cs[i].Buffer? ==> cs[i].a in Buffers(cs)) && vs[i] == View(cs[i])
  }

  /** The cells from the k-th last on. */
  ghost function Top(cs: seq<Cell>, k: nat): seq<Cell>
    requires k <= |cs|
  {
    cs[|cs| - k..]
  }

  lemma PairCompatible(cs: seq<Cell>, i: nat, j: nat, size: nat)
    requires i < j < |cs| && Sound(cs, size) && !cs[i].Failure? && !cs[j].Failure?
    ensures Compatible(cs[i], cs[j])
  {
  }

  method OnOne(lib: Library, n: Name, stack: TokenStack, ghost vs: seq<Value>, ghost size: nat) returns (r: Cell)
    requires Pops(n) == 1 <= |stack.cells| && Sound(stack.cells, size) && Views(stack.cells, vs)
    requires forall i :: |stack.cells| - 1 <= i < |stack.cells| ==> !stack.cells[i].Failure?
    modifies stack, Buffers(stack.cells)
    ensures stack.cells == old(stack.cells)[..|old(stack.cells)| - 1] + [r]
    ensures View(r) == Result(lib, n, vs) && Below(old(stack.cells), vs, 1)
    ensures r.Buffer? ==> r.a.Length == size && (fresh(r.a) || r in Top(old(stack.cells), 1))
  {
    var a := stack.Pop();
    r := UnaryInPlace(lib, n, a);
    stack.Push(r);
  }

  lemma TopTwo(cs: seq<Cell>, size: nat)
    requires |cs| >= 2 && Sound(cs, size) && forall i :: |cs| - 2 <= i < |cs| ==> !cs[i].Failure?
    ensures var a, b := cs[|cs| - 2], cs[|cs| - 1];
            Compatible(a, b) && Top(cs, 2) == [a, b] &&
            forall i :: 0 <= i < |cs| - 2 && cs[i].Buffer? ==> cs[i].a !in Owned(a, b)
  {
    PairCompatible(cs, |cs| - 2, |cs| - 1, size);
  }

  method OnTwo(lib: Library, n: Name, stack: TokenStack, ghost vs: seq<Value>, ghost size: nat) returns (r: Cell)
    requires Pops(n) == 2 <= |stack.cells| && Sound(stack.cells, size) && Views(stack.cells, vs)
    requires forall i :: |stack.cells| - 2 <= i < |stack.cells| ==> !stack.cells[i].Failure?
    modifies stack, Buffers(stack.cells)
    ensures stack.cells == old(stack.cells)[..|old(stack.cells)| - 2] + [r]
    ensures View(r) == Result(lib, n, vs) && Below(old(stack.cells), vs, 2)
    ensures r.Buffer? ==> r.a.Length == size && r in Top(old(stack.cells), 2)
  {
    ghost var cs := stack.cells;
    var b := stack.Pop();
    var a := stack.Pop();
    TopTwo(cs, size);
    r := BinaryInPlace(lib, n, a, b);
    stack.Push(r);
  }

  lemma TopThree(cs: seq<Cell>, size: nat)
    requires |cs| >= 3 && Sound(cs, size) && forall i :: |cs| - 3 <= i < |cs| ==> !cs[i].Failure?
    ensures var a, b, c := cs[|cs| - 3], cs[|cs| - 2], cs[|cs| - 1];
            Compatible(a, b) && Compatible(a, c) && Compatible(b, c) && Top(cs, 3) == [a, b, c] &&
            forall i :: 0 <= i < |cs| - 3 && cs[i].Buffer? ==> cs[i].a !in Owned(a, b) + Owned(b, c)
  {
    var m := |cs|;
    PairCompatible(cs, m - 3, m - 2, size);
    PairCompatible(cs, m - 3, m - 1, size);
    PairCompatible(cs, m - 2, m - 1, size);
  }

  method OnThree(lib: Library, n: Name, stack: TokenStack, ghost vs: seq<Value>, ghost size: nat) returns (r: Cell)
    requires Pops(n) == 3 <= |stack.cells| && Sound(stack.cells, size) && Views(stack.cells, vs)
    requires forall i :: |stack.cells| - 3 <= i < |stack.cells| ==> !stack.cells[i].Failure?
    modifies stack, Buffers(stack.cells)
    ensures stack.cells == old(stack.cells)[..|old(stack.cells)| - 3] + [r]
    ensures View(r) == Result(lib, n, vs) && Below(old(stack.cells), vs, 3)
    ensures r.Buffer? ==> r.a.Length == size && r in Top(old(stack.cells), 3)
  {
    ghost var cs := stack.cells;
    var c := stack.Pop();
    var b := stack.Pop();
    var a := stack.Pop();
    TopThree(cs, size);
    r := ChooseInPlace(a, b, c);
    stack.Push(r);
  }

  /** One of the k topmost cells holds an error. */
  predicate FailureOnTop(cs: seq<Cell>, k: nat)
    requires k <= |cs|
  {
    exists i :: |cs| - k <= i < |cs| && cs[i].Failure?
  }

  /** Pops the operands of one operator, works in their buffers and pushes the result. */
  method Operate(lib: Library, n: Name, stack: TokenStack, ghost vs: seq<Value>, ghost size: nat) returns (r: Cell)
    requires 1 <= Pops(n) <= |stack.cells| && !FailureOnTop(stack.cells, Pops(n))
    requires Sound(stack.cells, size) && Views(stack.cells, vs)
    modifies stack, Buffers(stack.cells)
    ensures stack.cells == old(stack.cells)[..|old(stack.cells)| - Pops(n)] + [r]
    ensures Views(stack.cells, vs[..|vs| - Pops(n)] + [Result(lib, n, vs)])
    ensures r.Buffer? ==> r.a.Length == size && (fresh(r.a) || r in Top(old(stack.cells), Pops(n)))
  {
    ghost var cs := stack.cells;
    if Pops(n) == 1 {
      r := OnOne(lib, n, stack, vs, size);
    } else if Pops(n) == 2 {
      r := OnTwo(lib, n, stack, vs, size);
    } else {
      r := OnThree(lib, n, stack, vs, size);
    }
    ViewReplaced(cs, vs, Pops(n), r, Result(lib, n, vs));
  }

  /** What the specification calls the fate of an operator. */
  function FateOf(e: Effect): Fate {
    match e
    case Stack(_) => Fine
    case Fault(outcome) => if outcome == Abort then Aborts else ReadsBelow
  }

  /** One operator: the stack comes to hold the values the specification computes, in buffers it held
      before or in new ones. */
  method Execute(lib: Library, n: Name, stack: TokenStack, ghost vs: seq<Value>, ghost size: nat) returns (fate: Fate)
    requires Sound(stack.cells, size) && Views(stack.cells, vs)
    modifies stack, Buffers(stack.cells)
    ensures fate == FateOf(Exec(lib, n, vs))
    ensures fate == Fine ==> Views(stack.cells, Exec(lib, n, vs).values) && Sound(stack.cells, size)
    ensures fate == Fine ==>
      forall o :: o in Buffers(stack.cells) ==> o in old(Buffers(stack.cells)) || fresh(o)
  {
    ghost var cs := stack.cells;
    if |stack.cells| < Pops(n) {
      return ReadsBelow;
    }
    FailuresAreBad(cs, vs, Pops(n));
    if FailureOnTop(stack.cells, Pops(n)) {
      return Aborts;
    }
    if Pops(n) == 0 {
      return Fine;
    }
    ExecLeavesResult(lib, n, vs);
    var r := Operate(lib, n, stack, vs, size);
    ReplaceTop(cs, Pops(n), r, size);
    return Fine;
  }

  lemma FailuresAreBad(cs: seq<Cell>, vs: seq<Value>, k: nat)
    requires k <= |cs| && Views(cs, vs)
    ensures FailureOnTop(cs, k) <==> exists i :: |vs| - k <= i < |vs| && vs[i].Bad?
  {
    if i :| |cs| - k <= i < |cs| && cs[i].Failure? {
      assert vs[i].Bad?;
    }
    if i :| |vs| - k <= i < |vs| && vs[i].Bad? {
      assert cs[i].Failure?;
    }
  }

  lemma ViewReplaced(cs: seq<Cell>, vs: seq<Value>, k: nat, r: Cell, v: Value)
    requires k <= |cs| == |vs| && Below(cs, vs, k) && View(r) == v
    ensures Views(cs[..|cs| - k] + [r], vs[..|vs| - k] + [v])
  {
    var after := cs[..|cs| - k] + [r];
    forall i | 0 <= i < |after| && after[i].Buffer? ensures after[i].a in Buffers(after) {
    }
  }
}
