/** Which numbers the numerals of expressions are. */
module Numerals {
  import opened ComplexNumbers
  import opened Decimals
  import opened ShuntingYard
  import opened Machine
  import opened Tokenizer

  /** Digits, with or without a point between them, on their own. */
  lemma {:induction false} RunOfDigits(s: string)
    requires AllDigits(s)
    ensures DigitRun(s) == |s|
    decreases |s|
  {
    if s != "" {
      RunOfDigits(s[1..]);
    }
  }

  lemma PointedLength(whole: string, fraction: string)
    requires AllDigits(whole) && AllDigits(fraction) && whole + fraction != ""
    ensures var s := whole + "." + fraction;
            NumeralLength(s) == |s| && (IsDigit(s[0]) || s[0] == '.')
    ensures DigitRun(whole + "." + fraction) == |whole|
  {
    var s := whole + "." + fraction;
    DigitRunStops(whole, "." + fraction);
    RunOfDigits(whole);
    RunOfDigits(fraction);
    assert s == whole + ("." + fraction) && s[|whole| + 1..] == fraction;
  }

  /** A text that is a numeral is read as one scalar. */
  lemma NumeralAlone(s: string, images: seq<seq<Pixel>>)
    requires s != "" && NumeralLength(s) == |s| && (IsDigit(s[0]) || s[0] == '.')
    ensures Tokenize(s, images) == Tokens([Operand(Scalar(Complex(NumeralValue(s), 0.0)))])
  {
    assert s[..|s|] == s && s[|s|..] == "";
    assert TurnAt(s, 0, Nothing, images) ==
           Take(|s|, Operand(Scalar(Complex(NumeralValue(s), 0.0))), AnOperand);
    assert Lex("", 0, AnOperand, images) == Tokens([]);
  }

  lemma FractionOverPower(w: int, f: int, p: nat)
    requires p > 0
    ensures w as real + f as real / p as real == (w * p + f) as real / p as real
  {
    assert (w * p) as real == w as real * p as real;
  }

  /** Digits with a point are the number of all the digits, over ten to the number of digits behind the point. */
  lemma PointedValue(whole: string, fraction: string)
    requires AllDigits(whole) && AllDigits(fraction) && whole + fraction != ""
    ensures NumeralValue(whole + "." + fraction) ==
            NumberOf(whole + fraction) as real / Power10(|fraction|) as real
  {
    var s := whole + "." + fraction;
    PointedLength(whole, fraction);
    assert s[..|whole|] == whole && s[|whole| + 1..] == fraction;
    NumberConcat(whole, fraction);
    FractionOverPower(NumberOf(whole), NumberOf(fraction), Power10(|fraction|));
  }

  /** For every number: its decimal text, with any zeros in front, is read as the scalar of that number. */
  lemma DecimalIsRead(n: nat, zeros: nat, images: seq<seq<Pixel>>)
    ensures Tokenize(Zeros(zeros) + Decimal(n), images) == Tokens([Operand(Scalar(Complex(n as real, 0.0)))])
  {
    var s := Zeros(zeros) + Decimal(n);
    RunOfDigits(s);
    LeadingZeros(zeros, Decimal(n));
    NumberOfDecimal(n);
    NumeralAlone(s, images);
  }

  /** For every number and every place of the point: when the digits around the point are, after any zeros,
      those of n, and k of them stand behind it, they are read as n over ten to the k. Either side may be
      empty. */
  lemma PointedDecimalIsRead(n: nat, zeros: nat, whole: string, fraction: string, k: nat, images: seq<seq<Pixel>>)
    requires AllDigits(whole) && AllDigits(fraction) && |fraction| == k
    requires whole + fraction == Zeros(zeros) + Decimal(n)
    ensures NumberOf("1" + Zeros(k)) > 0
    ensures Tokenize(whole + "." + fraction, images) ==
            Tokens([Operand(Scalar(Complex(n as real / NumberOf("1" + Zeros(k)) as real, 0.0)))])
  {
    PointedLength(whole, fraction);
    PointedValue(whole, fraction);
    LeadingZeros(zeros, Decimal(n));
    NumberOfDecimal(n);
    OneAndZeros(k);
    NumeralAlone(whole + "." + fraction, images);
  }

  /** Zeros behind the point change nothing. */
  lemma TrailingZeros(whole: string, fraction: string, k: nat)
    requires AllDigits(whole) && AllDigits(fraction) && whole + fraction != ""
    ensures NumeralValue(whole + "." + (fraction + Zeros(k))) == NumeralValue(whole + "." + fraction)
  {
    PointedValue(whole, fraction);
    PointedValue(whole, fraction + Zeros(k));
    assert whole + (fraction + Zeros(k)) == (whole + fraction) + Zeros(k);
    NumberConcat(whole + fraction, Zeros(k));
    NumberOfZeros(k);
    PowerSplits(|fraction|, k);
    Shortened(NumberOf(whole + fraction), Power10(|fraction|), Power10(k));
  }

  lemma {:induction false} PowerSplits(j: nat, k: nat)
    ensures Power10(j + k) == Power10(j) * Power10(k)
  {
    if k > 0 {
      PowerSplits(j, k - 1);
      assert Power10(j) * (10 * Power10(k - 1)) == 10 * (Power10(j) * Power10(k - 1));
    }
  }

  lemma Shortened(v: int, p: nat, q: nat)
    requires p > 0 && q > 0 && p * q > 0
    ensures (v * q) as real / (p * q) as real == v as real / p as real
  {
    var a, b, c := v as real, p as real, q as real;
    assert (v * q) as real == a * c && (p * q) as real == b * c;
    assert a / b * (b * c) == a * c;
  }

  /** A point that starts no numeral is never passed. */
  lemma PointNeverEnds(rest: string, images: seq<seq<Pixel>>)
    requires rest != "" ==> !IsDigit(rest[0])
    ensures Tokenize("." + rest, images) == NoProgress
  {
    var s := "." + rest;
    assert s[1..] == rest && DigitRun(s) == 0 && DigitRun(rest) == 0;
    assert TurnAt(s, 0, Nothing, images) == Stall;
  }
}
