/** How expressions without parentheses are grouped. */
module Grouping {
  import opened Operators
  import opened Machine
  import opened Expressions
  import opened Compiler
  import opened Calculator
  import opened WrittenOperators

  /** An operand of one value with no operator outside parentheses: a single token, or anything in parentheses. */
  predicate Closed(x: Expr) {
    WellFormed(x) && Width(x) == 1 && Readable(x) && Exposed(x) == []
  }

  /** A named operator of one operand. */
  predicate Named(f: Name) {
    IsFunction(f) && Pops(f) == 1
  }

  // ---------------------------------------------------------------- the tiers

  const POWERS: set<Name> := {Exponentiation}
  const PRODUCTS: set<Name> := {Multiplication, Division}
  const SUMS: set<Name> := {Addition, Subtraction}
  const ORDERS: set<Name> := {SmallerThan, GreaterThan}
  const EQUALITIES: set<Name> := {Equality}
  const CONNECTIVES: set<Name> := {LogicalAnd, LogicalOr}

  /** The tiers are all the operators between operands. */
  lemma TiersAreInfix(n: Name)
    ensures IsInfix(n) <==> n in POWERS + PRODUCTS + SUMS + ORDERS + EQUALITIES + CONNECTIVES
  {
  }

  /** The tier of an operator between operands, the tightest first. */
  function Tier(n: Name): nat {
    if n in POWERS then 0
    else if n in PRODUCTS then 1
    else if n in SUMS then 2
    else if n in ORDERS then 3
    else if n in EQUALITIES then 4
    else 5
  }

  /** In x m y n z, the first two operands belong together: m is in a tighter tier, or in the same one, which
      is not that of powers. */
  predicate FirstTogether(m: Name, n: Name) {
    Tier(m) < Tier(n) || (Tier(m) == Tier(n) && m !in POWERS)
  }

  lemma TiersDecide(m: Name, n: Name)
    requires IsInfix(m) && IsInfix(n)
    ensures BindsLooser(n, m) <==> FirstTogether(m, n)
  {
  }

  /** Signs stand between powers and products. */
  lemma SignsDecide(s: Name, t: Name, n: Name)
    requires IsSign(s) && IsSign(t) && IsInfix(n)
    ensures BindsLooser(n, s) <==> n !in POWERS
    ensures BindsLooser(s, n) <==> n in POWERS
    ensures !BindsLooser(s, t)
  {
  }

  /** So does the unit behind an operand; it leaves a sign waiting. */
  lemma UnitDecides(s: Name, n: Name)
    requires IsSign(s) && IsInfix(n)
    ensures BindsLooser(n, ImaginaryUnit) <==> n !in POWERS
    ensures BindsLooser(ImaginaryUnit, n) <==> n in POWERS
    ensures !BindsLooser(ImaginaryUnit, s)
  {
  }

  /** Named operators stand in front of all. */
  lemma NamedDecide(f: Name, n: Name)
    requires IsFunction(f)
    ensures IsInfix(n) || n == ImaginaryUnit ==> BindsLooser(n, f)
    ensures IsInfix(n) || IsSign(n) || IsFunction(n) ==> !BindsLooser(f, n)
  {
  }

  lemma CommaDecides(n: Name)
    requires IsInfix(n)
    ensures BindsLooser(Comma, n) && !BindsLooser(n, Comma)
  {
  }

  // ---------------------------------------------------------------- building readable expressions

  /** A readable expression of one value with these operators outside parentheses. */
  predicate Reads(e: Expr, names: seq<Name>) {
    WellFormed(e) && Width(e) == 1 && Readable(e) && Exposed(e) == names
  }

  lemma InfixReads(n: Name, l: Expr, r: Expr, ms: seq<Name>, ks: seq<Name>, e: Expr)
    requires e == Infix(n, l, r) && IsInfix(n) && Reads(l, ms) && Reads(r, ks)
    requires (forall m :: m in ms ==> BindsLooser(n, m)) && forall k :: k in ks ==> !BindsLooser(k, n)
    ensures Reads(e, ms + [n] + ks)
  {
  }

  lemma PrefixReads(n: Name, x: Expr, ks: seq<Name>, e: Expr)
    requires e == Prefix(n, x) && (IsSign(n) || Named(n)) && Reads(x, ks)
    requires forall k :: k in ks ==> !BindsLooser(k, n)
    ensures Reads(e, [n] + ks)
  {
  }

  lemma UnitReads(x: Expr, ms: seq<Name>, e: Expr)
    requires e == TimesI(x) && Reads(x, ms) && forall m :: m in ms ==> BindsLooser(ImaginaryUnit, m)
    ensures Reads(e, ms + [ImaginaryUnit])
  {
  }

  lemma InfixPrints(n: Name, l: Expr, r: Expr, rest: string)
    ensures PrintTo(Infix(n, l, r), rest) == PrintTo(l, Put(n, PrintTo(r, rest)))
  {
  }

  lemma PrefixPrints(n: Name, x: Expr, rest: string)
    ensures PrintTo(Prefix(n, x), rest) == Put(n, PrintTo(x, rest))
  {
  }

  lemma UnitPrints(x: Expr, rest: string)
    ensures PrintTo(TimesI(x), rest) == PrintTo(x, Put(ImaginaryUnit, rest))
  {
  }

  lemma Evaluates(lib: Library, e: Expr, names: seq<Name>, text: string, images: seq<seq<Pixel>>)
    requires Reads(e, names) && text == PrintTo(e, "")
    ensures Calculate(lib, text, images) == Ended(Done(Expected(lib, e, images)))
  {
    CalculatesMeaning(lib, e, images);
  }

  // ---------------------------------------------------------------- two operators between operands

  /** `x m y n z`, for all operators between operands: grouped by the tiers. */
  lemma ThreeOperands(lib: Library, m: Name, n: Name, x: Expr, y: Expr, z: Expr, images: seq<seq<Pixel>>)
    requires IsInfix(m) && IsInfix(n) && Closed(x) && Closed(y) && Closed(z)
    ensures WellFormed(Infix(n, Infix(m, x, y), z)) && WellFormed(Infix(m, x, Infix(n, y, z)))
    ensures Calculate(lib, PrintTo(x, Put(m, PrintTo(y, Put(n, PrintTo(z, ""))))), images) ==
            Ended(Done(Expected(lib, if FirstTogether(m, n) then Infix(n, Infix(m, x, y), z)
                                     else Infix(m, x, Infix(n, y, z)), images)))
  {
    TiersDecide(m, n);
    var xy, yz := Infix(m, x, y), Infix(n, y, z);
    InfixReads(m, x, y, [], [], xy);
    InfixReads(n, y, z, [], [], yz);
    InfixPrints(m, x, y, Put(n, PrintTo(z, "")));
    InfixPrints(n, xy, z, "");
    InfixPrints(n, y, z, "");
    InfixPrints(m, x, yz, "");
    var text := PrintTo(x, Put(m, PrintTo(y, Put(n, PrintTo(z, "")))));
    if FirstTogether(m, n) {
      InfixReads(n, xy, z, [] + [m] + [], [], Infix(n, xy, z));
      Evaluates(lib, Infix(n, xy, z), [] + [m] + [] + [n] + [], text, images);
    } else {
      InfixReads(m, x, yz, [], [] + [n] + [], Infix(m, x, yz));
      Evaluates(lib, Infix(m, x, yz), [] + [m] + ([] + [n] + []), text, images);
    }
  }

  // ---------------------------------------------------------------- signs

  /** `s x n y`: the sign belongs to x, unless the operator is a power. */
  lemma SignFirst(lib: Library, s: Name, n: Name, x: Expr, y: Expr, images: seq<seq<Pixel>>)
    requires IsSign(s) && IsInfix(n) && Closed(x) && Closed(y)
    ensures WellFormed(Infix(n, Prefix(s, x), y)) && WellFormed(Prefix(s, Infix(n, x, y)))
    ensures Calculate(lib, Put(s, PrintTo(x, Put(n, PrintTo(y, "")))), images) ==
            Ended(Done(Expected(lib, if n in POWERS then Prefix(s, Infix(n, x, y)) else Infix(n, Prefix(s, x), y),
                                images)))
  {
    SignsDecide(s, s, n);
    var sx, xy := Prefix(s, x), Infix(n, x, y);
    PrefixReads(s, x, [], sx);
    InfixReads(n, x, y, [], [], xy);
    PrefixPrints(s, x, Put(n, PrintTo(y, "")));
    InfixPrints(n, sx, y, "");
    InfixPrints(n, x, y, "");
    PrefixPrints(s, xy, "");
    var text := Put(s, PrintTo(x, Put(n, PrintTo(y, ""))));
    if n in POWERS {
      PrefixReads(s, xy, [] + [n] + [], Prefix(s, xy));
      Evaluates(lib, Prefix(s, xy), [s] + ([] + [n] + []), text, images);
    } else {
      InfixReads(n, sx, y, [s] + [], [], Infix(n, sx, y));
      Evaluates(lib, Infix(n, sx, y), [s] + [] + [n] + [], text, images);
    }
  }

  /** `x n s y`, for every operator but a power: the sign belongs to y. */
  lemma SignSecond(lib: Library, s: Name, n: Name, x: Expr, y: Expr, images: seq<seq<Pixel>>)
    requires IsSign(s) && IsInfix(n) && n !in POWERS && Closed(x) && Closed(y)
    ensures WellFormed(Infix(n, x, Prefix(s, y)))
    ensures Calculate(lib, PrintTo(x, Put(n, Put(s, PrintTo(y, "")))), images) ==
            Ended(Done(Expected(lib, Infix(n, x, Prefix(s, y)), images)))
  {
    SignsDecide(s, s, n);
    var sy := Prefix(s, y);
    PrefixReads(s, y, [], sy);
    PrefixPrints(s, y, "");
    InfixPrints(n, x, sy, "");
    InfixReads(n, x, sy, [], [s] + [], Infix(n, x, sy));
    Evaluates(lib, Infix(n, x, sy), [] + [n] + ([s] + []), PrintTo(x, Put(n, Put(s, PrintTo(y, "")))), images);
  }

  /** `s t x`: signs apply from the last to the first. */
  lemma SignOfSign(lib: Library, s: Name, t: Name, x: Expr, images: seq<seq<Pixel>>)
    requires IsSign(s) && IsSign(t) && Closed(x)
    ensures WellFormed(Prefix(s, Prefix(t, x)))
    ensures Calculate(lib, Put(s, Put(t, PrintTo(x, ""))), images) ==
            Ended(Done(Expected(lib, Prefix(s, Prefix(t, x)), images)))
  {
    SignsDecide(t, s, Addition);
    var tx := Prefix(t, x);
    PrefixReads(t, x, [], tx);
    PrefixPrints(t, x, "");
    PrefixPrints(s, tx, "");
    PrefixReads(s, tx, [t] + [], Prefix(s, tx));
    Evaluates(lib, Prefix(s, tx), [s] + ([t] + []), Put(s, Put(t, PrintTo(x, ""))), images);
  }

  // ---------------------------------------------------------------- named operators

  /** `f x n y`: the named operator belongs to x, even before a power. */
  lemma NamedFirst(lib: Library, f: Name, n: Name, x: Expr, y: Expr, images: seq<seq<Pixel>>)
    requires Named(f) && IsInfix(n) && Closed(x) && Closed(y)
    ensures WellFormed(Infix(n, Prefix(f, x), y))
    ensures Calculate(lib, Put(f, PrintTo(x, Put(n, PrintTo(y, "")))), images) ==
            Ended(Done(Expected(lib, Infix(n, Prefix(f, x), y), images)))
  {
    NamedDecide(f, n);
    var fx := Prefix(f, x);
    PrefixReads(f, x, [], fx);
    PrefixPrints(f, x, Put(n, PrintTo(y, "")));
    InfixPrints(n, fx, y, "");
    InfixReads(n, fx, y, [f] + [], [], Infix(n, fx, y));
    Evaluates(lib, Infix(n, fx, y), [f] + [] + [n] + [], Put(f, PrintTo(x, Put(n, PrintTo(y, "")))), images);
  }

  /** `x n f y`: it belongs to y. */
  lemma NamedSecond(lib: Library, f: Name, n: Name, x: Expr, y: Expr, images: seq<seq<Pixel>>)
    requires Named(f) && IsInfix(n) && Closed(x) && Closed(y)
    ensures WellFormed(Infix(n, x, Prefix(f, y)))
    ensures Calculate(lib, PrintTo(x, Put(n, Put(f, PrintTo(y, "")))), images) ==
            Ended(Done(Expected(lib, Infix(n, x, Prefix(f, y)), images)))
  {
    NamedDecide(f, n);
    var fy := Prefix(f, y);
    PrefixReads(f, y, [], fy);
    PrefixPrints(f, y, "");
    InfixPrints(n, x, fy, "");
    InfixReads(n, x, fy, [], [f] + [], Infix(n, x, fy));
    Evaluates(lib, Infix(n, x, fy), [] + [n] + ([f] + []), PrintTo(x, Put(n, Put(f, PrintTo(y, "")))), images);
  }

  /** `f g x` and `s f x`: named operators and a sign in front of one apply from the last to the first. */
  lemma OfNamed(lib: Library, f: Name, g: Name, x: Expr, images: seq<seq<Pixel>>)
    requires (Named(f) || IsSign(f)) && Named(g) && Closed(x)
    ensures WellFormed(Prefix(f, Prefix(g, x)))
    ensures Calculate(lib, Put(f, Put(g, PrintTo(x, ""))), images) ==
            Ended(Done(Expected(lib, Prefix(f, Prefix(g, x)), images)))
  {
    NamedDecide(g, f);
    var gx := Prefix(g, x);
    PrefixReads(g, x, [], gx);
    PrefixPrints(g, x, "");
    PrefixPrints(f, gx, "");
    PrefixReads(f, gx, [g] + [], Prefix(f, gx));
    Evaluates(lib, Prefix(f, gx), [f] + ([g] + []), Put(f, Put(g, PrintTo(x, ""))), images);
  }

  // ---------------------------------------------------------------- the unit behind an operand

  /** `x i n y`, for every operator but a power: the unit belongs to x. */
  lemma UnitFirst(lib: Library, n: Name, x: Expr, y: Expr, images: seq<seq<Pixel>>)
    requires IsInfix(n) && n !in POWERS && Closed(x) && Closed(y)
    ensures WellFormed(Infix(n, TimesI(x), y))
    ensures Calculate(lib, PrintTo(x, Put(ImaginaryUnit, Put(n, PrintTo(y, "")))), images) ==
            Ended(Done(Expected(lib, Infix(n, TimesI(x), y), images)))
  {
    UnitDecides(UnaryMinus, n);
    var xi := TimesI(x);
    UnitReads(x, [], xi);
    UnitPrints(x, Put(n, PrintTo(y, "")));
    InfixPrints(n, xi, y, "");
    InfixReads(n, xi, y, [] + [ImaginaryUnit], [], Infix(n, xi, y));
    Evaluates(lib, Infix(n, xi, y), [] + [ImaginaryUnit] + [n] + [],
              PrintTo(x, Put(ImaginaryUnit, Put(n, PrintTo(y, "")))), images);
  }

  /** `x n y i`: the unit belongs to y, unless the operator is a power. */
  lemma UnitLast(lib: Library, n: Name, x: Expr, y: Expr, images: seq<seq<Pixel>>)
    requires IsInfix(n) && Closed(x) && Closed(y)
    ensures WellFormed(Infix(n, x, TimesI(y))) && WellFormed(TimesI(Infix(n, x, y)))
    ensures Calculate(lib, PrintTo(x, Put(n, PrintTo(y, Put(ImaginaryUnit, "")))), images) ==
            Ended(Done(Expected(lib, if n in POWERS then TimesI(Infix(n, x, y)) else Infix(n, x, TimesI(y)), images)))
  {
    UnitDecides(UnaryMinus, n);
    var yi, xy := TimesI(y), Infix(n, x, y);
    UnitReads(y, [], yi);
    InfixReads(n, x, y, [], [], xy);
    UnitPrints(y, "");
    InfixPrints(n, x, yi, "");
    InfixPrints(n, x, y, Put(ImaginaryUnit, ""));
    UnitPrints(xy, "");
    var text := PrintTo(x, Put(n, PrintTo(y, Put(ImaginaryUnit, ""))));
    if n in POWERS {
      UnitReads(xy, [] + [n] + [], TimesI(xy));
      Evaluates(lib, TimesI(xy), [] + [n] + [] + [ImaginaryUnit], text, images);
    } else {
      InfixReads(n, x, yi, [], [] + [ImaginaryUnit], Infix(n, x, yi));
      Evaluates(lib, Infix(n, x, yi), [] + [n] + ([] + [ImaginaryUnit]), text, images);
    }
  }

  /** `s x i`: the sign applies to the operand with its unit. `f x i`: the unit to the named operator's result. */
  lemma UnitAfterPrefix(lib: Library, s: Name, f: Name, x: Expr, images: seq<seq<Pixel>>)
    requires IsSign(s) && Named(f) && Closed(x)
    ensures WellFormed(Prefix(s, TimesI(x))) && WellFormed(TimesI(Prefix(f, x)))
    ensures Calculate(lib, Put(s, PrintTo(x, Put(ImaginaryUnit, ""))), images) ==
            Ended(Done(Expected(lib, Prefix(s, TimesI(x)), images)))
    ensures Calculate(lib, Put(f, PrintTo(x, Put(ImaginaryUnit, ""))), images) ==
            Ended(Done(Expected(lib, TimesI(Prefix(f, x)), images)))
  {
    UnitDecides(s, Addition);
    NamedDecide(f, ImaginaryUnit);
    var xi, fx := TimesI(x), Prefix(f, x);
    UnitReads(x, [], xi);
    PrefixReads(f, x, [], fx);
    UnitPrints(x, "");
    PrefixPrints(s, xi, "");
    PrefixPrints(f, x, Put(ImaginaryUnit, ""));
    UnitPrints(fx, "");
    PrefixReads(s, xi, [] + [ImaginaryUnit], Prefix(s, xi));
    Evaluates(lib, Prefix(s, xi), [s] + ([] + [ImaginaryUnit]), Put(s, PrintTo(x, Put(ImaginaryUnit, ""))), images);
    UnitReads(fx, [f] + [], TimesI(fx));
    Evaluates(lib, TimesI(fx), [f] + [] + [ImaginaryUnit], Put(f, PrintTo(x, Put(ImaginaryUnit, ""))), images);
  }

  // ---------------------------------------------------------------- commas

  lemma CallReads(f: Name, l: Expr, r: Expr, m: Name, n: Name)
    requires IsFunction(f) && Pops(f) == 2 && Reads(l, [] + [m] + []) && Reads(r, [] + [n] + [])
    requires BindsLooser(Comma, m) && !BindsLooser(n, Comma)
    ensures WellFormed(Prefix(f, Group(Infix(Comma, l, r)))) && Readable(Prefix(f, Group(Infix(Comma, l, r))))
  {
    var list := Infix(Comma, l, r);
    assert WellFormed(list) && Readable(list) && Width(list) == 2;
    assert WellFormed(Group(list)) && Readable(Group(list)) && Width(Group(list)) == 2 && Exposed(Group(list)) == [];
  }

  lemma CommaPrints(f: Name, m: Name, n: Name, x: Expr, y: Expr, z: Expr, w: Expr)
    ensures Print(Prefix(f, Group(Infix(Comma, Infix(m, x, y), Infix(n, z, w))))) ==
            Put(f, "( " + PrintTo(x, Put(m, PrintTo(y, Put(Comma, PrintTo(z, Put(n, PrintTo(w, ") "))))))))
  {
    var xy, zw := Infix(m, x, y), Infix(n, z, w);
    InfixPrints(n, z, w, ") ");
    InfixPrints(m, x, y, Put(Comma, PrintTo(zw, ") ")));
    InfixPrints(Comma, xy, zw, ") ");
    CallPrints(f, Infix(Comma, xy, zw));
  }

  /** `f ( x m y , z n w )`: the comma stands outside both operators. */
  lemma CommaBetween(lib: Library, f: Name, m: Name, n: Name, x: Expr, y: Expr, z: Expr, w: Expr,
                     images: seq<seq<Pixel>>)
    requires IsFunction(f) && Pops(f) == 2 && IsInfix(m) && IsInfix(n)
    requires Closed(x) && Closed(y) && Closed(z) && Closed(w)
    ensures WellFormed(Prefix(f, Group(Infix(Comma, Infix(m, x, y), Infix(n, z, w)))))
    ensures Calculate(lib,
                      Put(f, "( " + PrintTo(x, Put(m, PrintTo(y, Put(Comma, PrintTo(z, Put(n, PrintTo(w, ") ")))))))),
                      images) ==
            Ended(Done(Expected(lib, Prefix(f, Group(Infix(Comma, Infix(m, x, y), Infix(n, z, w)))), images)))
  {
    CommaDecides(m);
    CommaDecides(n);
    var xy, zw := Infix(m, x, y), Infix(n, z, w);
    InfixReads(m, x, y, [], [], xy);
    InfixReads(n, z, w, [], [], zw);
    CallReads(f, xy, zw, m, n);
    CommaPrints(f, m, n, x, y, z, w);
    CalculatesMeaning(lib, Prefix(f, Group(Infix(Comma, xy, zw))), images);
  }
}
