/** Numbered output files: how the watcher steps from one file name to another. Names are those of files in
    the watched directory, without the path. */
module FileNames {
  import opened Decimals

  /** Padded with zeros to seven places. */
  function Pad(s: string): (r: string)
    requires AllDigits(s)
    ensures |r| >= 7 && |r| >= |s| && AllDigits(r)
    decreases 7 - |s|
  {
    if |s| < 7 then Pad("0" + s) else s
  }

  lemma {:induction false} PaddingKeepsValue(s: string)
    requires AllDigits(s)
    ensures NumberOf(Pad(s)) == NumberOf(s)
    decreases 7 - |s|
  {
    if |s| < 7 {
      PaddingKeepsValue("0" + s);
      LeadingZeros(1, s);
      assert Zeros(1) + s == "0" + s;
    }
  }

  // ---------------------------------------------------------------- the parts of a name

  /** Up to the first point, and after it. */
  function FirstPoint(file: string): (n: nat)
    ensures n <= |file| && forall i :: 0 <= i < n ==> file[i] != '.'
    ensures n < |file| ==> file[n] == '.'
  {
    if file == "" || file[0] == '.' then 0 else 1 + FirstPoint(file[1..])
  }

  function BaseName(file: string): (r: string)
    ensures forall i :: 0 <= i < |r| ==> r[i] != '.'
  {
    file[..FirstPoint(file)]
  }

  function CompleteSuffix(file: string): string {
    if FirstPoint(file) < |file| then file[FirstPoint(file) + 1..] else ""
  }

  /** How many digits a name ends in. */
  function DigitTail(s: string): (n: nat)
    ensures n <= |s| && forall i :: |s| - n <= i < |s| ==> IsDigit(s[i])
    ensures n < |s| ==> !IsDigit(s[|s| - n - 1])
  {
    if s == "" || !IsDigit(s[|s| - 1]) then 0 else 1 + DigitTail(s[..|s| - 1])
  }

  /** The name is something, a dash, and at least one digit. */
  predicate Numbered(base: string) {
    0 < DigitTail(base) < |base| && base[|base| - DigitTail(base) - 1] == '-'
  }

  function Prefix(base: string): (r: string)
    ensures (forall i :: 0 <= i < |base| ==> base[i] != '.') ==> forall i :: 0 <= i < |r| ==> r[i] != '.'
  {
    if Numbered(base) then base[..|base| - DigitTail(base) - 1] else ""
  }

  function Iteration(base: string): nat {
    if Numbered(base) then NumberOf(base[|base| - DigitTail(base)..]) else 0
  }

  function Numbering(prefix: string, n: nat, suffix: string): string {
    prefix + "-" + Pad(Decimal(n)) + "." + suffix
  }

  /** A numbered name, or no name at all for a negative number. */
  function Renumbered(prefix: string, n: int, suffix: string): string {
    if n < 0 then "" else Numbering(prefix, n, suffix)
  }

  /** The name with its number moved. */
  function IncrementFilename(file: string, increment: int): string {
    Renumbered(Prefix(BaseName(file)), Iteration(BaseName(file)) + increment, CompleteSuffix(file))
  }

  /** There is no name exactly below zero. */
  lemma NothingBelowZero(file: string, k: int)
    ensures IncrementFilename(file, k) == "" <==> Iteration(BaseName(file)) + k < 0
  {
  }

  lemma {:induction false} FirstPointIs(base: string, suffix: string)
    requires forall i :: 0 <= i < |base| ==> base[i] != '.'
    ensures FirstPoint(base + "." + suffix) == |base|
  {
    var file := base + "." + suffix;
    if base != "" {
      assert file[1..] == base[1..] + "." + suffix;
      FirstPointIs(base[1..], suffix);
    }
  }

  lemma {:induction false} DigitTailIs(prefix: string, digits: string)
    requires AllDigits(digits)
    ensures DigitTail(prefix + "-" + digits) == |digits|
  {
    var base := prefix + "-" + digits;
    if digits != "" {
      assert base[..|base| - 1] == prefix + "-" + digits[..|digits| - 1];
      DigitTailIs(prefix, digits[..|digits| - 1]);
    }
  }

  /** A numbered name is taken apart into what it was made of. */
  lemma NumberingParts(prefix: string, n: nat, suffix: string)
    requires forall i :: 0 <= i < |prefix| ==> prefix[i] != '.'
    ensures Prefix(BaseName(Numbering(prefix, n, suffix))) == prefix
    ensures Iteration(BaseName(Numbering(prefix, n, suffix))) == n
    ensures CompleteSuffix(Numbering(prefix, n, suffix)) == suffix
  {
    var digits := Pad(Decimal(n));
    var base := prefix + "-" + digits;
    FirstPointIs(base, suffix);
    assert BaseName(Numbering(prefix, n, suffix)) == base;
    DigitTailIs(prefix, digits);
    assert base[|base| - |digits|..] == digits;
    assert base[..|base| - |digits| - 1] == prefix;
    PaddingKeepsValue(Decimal(n));
    NumberOfDecimal(n);
  }

  lemma NumberingInjective(prefix: string, m: nat, n: nat, suffix: string)
    requires forall i :: 0 <= i < |prefix| ==> prefix[i] != '.'
    ensures Numbering(prefix, m, suffix) == Numbering(prefix, n, suffix) <==> m == n
  {
    NumberingParts(prefix, m, suffix);
    NumberingParts(prefix, n, suffix);
  }

  lemma IncrementNumbering(prefix: string, n: nat, suffix: string, k: int)
    requires forall i :: 0 <= i < |prefix| ==> prefix[i] != '.'
    ensures IncrementFilename(Numbering(prefix, n, suffix), k) == Renumbered(prefix, n + k, suffix)
  {
    NumberingParts(prefix, n, suffix);
  }

  lemma IncrementNothing(k: int)
    ensures IncrementFilename("", k) == Renumbered("", k, "")
  {
    assert BaseName("") == "" && Iteration("") == 0 && Prefix("") == "" && CompleteSuffix("") == "";
  }

  lemma DifferentNumbers(prefix: string, suffix: string, m: int, n: int)
    requires forall i :: 0 <= i < |prefix| ==> prefix[i] != '.'
    requires m < n
    ensures Renumbered(prefix, m, suffix) == Renumbered("", n, "") <==> n < 0
  {
    if m >= 0 {
      NumberingParts(prefix, m, suffix);
      NumberingParts("", n, "");
    }
  }

  lemma SecondIncrement(prefix: string, m: int, suffix: string, first: string, k: int)
    requires forall i :: 0 <= i < |prefix| ==> prefix[i] != '.'
    requires first == Renumbered(prefix, m, suffix)
    ensures IncrementFilename(first, k) == Renumbered(prefix, m + k, suffix) <==> m >= 0 || k < 0
  {
    if m >= 0 {
      IncrementNumbering(prefix, m, suffix, k);
    } else {
      IncrementNothing(k);
      DifferentNumbers(prefix, suffix, m + k, k);
    }
  }

  /** Two steps are one step of the sum exactly when the first does not lead below zero, or the second
      does not come up again. */
  lemma IncrementsAddExactlyAboveZero(file: string, j: int, k: int)
    ensures IncrementFilename(IncrementFilename(file, j), k) == IncrementFilename(file, j + k) <==>
            Iteration(BaseName(file)) + j >= 0 || k < 0
  {
    var prefix, n, suffix := Prefix(BaseName(file)), Iteration(BaseName(file)), CompleteSuffix(file);
    SecondIncrement(prefix, n + j, suffix, IncrementFilename(file, j), k);
    assert n + j + k == n + (j + k);
  }

  // ---------------------------------------------------------------- the files of the real space images

  function RealSpaceFile(n: nat): string {
    Numbering("real_space", n, "h5")
  }

  lemma RealSpaceIncrements(m: nat, k: int)
    requires m + k >= 0
    ensures IncrementFilename(RealSpaceFile(m), k) == RealSpaceFile(m + k)
  {
    IncrementNumbering("real_space", m, "h5", k);
  }

  lemma RealSpaceDistinct(m: nat, n: nat)
    requires m != n
    ensures RealSpaceFile(m) != RealSpaceFile(n)
  {
    NumberingInjective("real_space", m, n, "h5");
  }

  /** The name of the twentieth iteration's image. */
  lemma NineteenIsPadded()
    ensures RealSpaceFile(19) == "real_space-0000019.h5"
  {
    assert Decimal(1) == "1" && Decimal(19) == "19";
    assert "0" + "19" == "019" && "0" + "019" == "0019" && "0" + "0019" == "00019";
    assert "0" + "00019" == "000019" && "0" + "000019" == "0000019";
    assert Pad("0000019") == "0000019";
    assert Pad("00019") == Pad("000019") == "0000019";
    assert Pad("019") == Pad("0019") == Pad("00019");
    assert Pad("19") == "0000019";
  }
}
