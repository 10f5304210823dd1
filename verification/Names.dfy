/** Capital-letter names as base-26 numerals with A as zero: how the parser numbers variables and
    how the image view names its items. */
module Names {

  predicate IsCapital(c: char) {
    'A' <= c <= 'Z'
  }

  predicate IsName(s: string) {
    forall i :: 0 <= i < |s| ==> IsCapital(s[i])
  }

  function Digit(c: char): int {
    c as int - 'A' as int
  }

  function Letter(d: nat): char
    requires d < 26
  {
    ('A' as int + d) as char
  }

  /** The numeral a name denotes, most significant letter first. */
  function Decode(s: string): (n: int)
    ensures IsName(s) ==> n >= 0
  {
    if s == "" then 0 else Decode(s[..|s| - 1]) * 26 + Digit(s[|s| - 1])
  }

  /** The shortest name of a number. */
  function Encode(n: nat): (s: string)
    ensures s != "" && IsName(s)
  {
    if n < 26 then [Letter(n)] else Encode(n / 26) + [Letter(n % 26)]
  }

  lemma {:induction false} DecodeEncode(n: nat)
    ensures Decode(Encode(n)) == n
  {
    if n >= 26 {
      DecodeEncode(n / 26);
      assert Encode(n)[..|Encode(n)| - 1] == Encode(n / 26);
    }
  }

  function Power26(k: nat): nat {
    if k == 0 then 1 else 26 * Power26(k - 1)
  }

  lemma MoveFactor(d: int, p: int, e: int)
    ensures (d * p + e) * 26 == d * (26 * p) + e * 26
  {
    assert (d * p) * 26 == d * (26 * p);
  }

  /** The value of a name splits at its first letter. */
  lemma {:induction false} DecodeFirst(c: char, s: string)
    ensures Decode([c] + s) == Digit(c) * Power26(|s|) + Decode(s)
    decreases |s|
  {
    var t := [c] + s;
    if s == "" {
      assert t == [c] && t[..0] == "";
    } else {
      var front := s[..|s| - 1];
      assert t[..|t| - 1] == [c] + front;
      DecodeFirst(c, front);
      MoveFactor(Digit(c), Power26(|front|), Decode(front));
    }
  }

  /** The parser's loop over the letters, from the last to the first. */
  method IndexFromVariableName(name: string) returns (index: int)
    ensures index == Decode(name)
  {
    index := 0;
    var base := 1;
    var i := |name| - 1;
    while i >= 0
      invariant -1 <= i < |name|
      invariant base == Power26(|name| - 1 - i)
      invariant index == Decode(name[i + 1..])
    {
      DecodeFirst(name[i], name[i + 1..]);
      assert [name[i]] + name[i + 1..] == name[i..];
      index := index + Digit(name[i]) * base;
      base := base * 26;
      i := i - 1;
    }
    assert name[0..] == name;
  }

  /** The name after s: its number goes up by one, and the result is a shortest name. */
  method NextId(s: string) returns (ret: string)
    requires IsName(s)
    ensures Decode(ret) == Decode(s) + 1
    ensures ret == Encode(Decode(s) + 1)
  {
    var from := IndexFromVariableName(s);
    ret := Spell(from + 1);
    DecodeEncode(from + 1);
  }

  /** The do-while loop that spells a number, last letter first. */
  method Spell(n: nat) returns (ret: string)
    ensures ret == Encode(n)
  {
    var left := n;
    ret := [Letter(left % 26)];
    LastLetter(left);
    while left / 26 != 0
      invariant left >= 0
      invariant Encode(n) == Higher(left) + ret
      decreases left
    {
      NextLetter(left, ret);
      left, ret := left / 26, [Letter(left / 26 % 26)] + ret;
    }
  }

  lemma LastLetter(n: nat)
    ensures Encode(n) == Higher(n) + [Letter(n % 26)]
  {
  }

  lemma NextLetter(n: nat, ret: string)
    requires n >= 26
    ensures Higher(n) + ret == Higher(n / 26) + ([Letter(n / 26 % 26)] + ret)
  {
    LastLetter(n / 26);
  }

  /** The letters of a number's name before its last one. */
  function Higher(n: nat): string {
    if n < 26 then "" else Encode(n / 26)
  }

  // ---------------------------------------------------------------- the first free name

  /** The shortest names of all numbers below n are taken. */
  ghost predicate TakenBelow(taken: seq<string>, n: nat) {
    forall k: nat :: k < n ==> Encode(k) in taken
  }

  /** n is the least number whose shortest name is not taken. */
  ghost predicate LeastFree(taken: seq<string>, n: nat) {
    Encode(n) !in taken && TakenBelow(taken, n)
  }

  lemma OneMoreTaken(taken: seq<string>, n: nat, id: string)
    requires TakenBelow(taken, n) && id == Encode(n) && id in taken
    ensures TakenBelow(taken, n + 1)
  {
  }

  function Numbers(taken: seq<string>): set<int> {
    set i | 0 <= i < |taken| :: Decode(taken[i])
  }

  lemma {:induction false} FewNumbers(taken: seq<string>)
    ensures |Numbers(taken)| <= |taken|
    decreases |taken|
  {
    if taken != [] {
      var front, last := taken[..|taken| - 1], taken[|taken| - 1];
      FewNumbers(front);
      assert Numbers(taken) == Numbers(front) + {Decode(last)};
    }
  }

  lemma {:induction false} InitialSegment(n: nat, s: set<int>)
    requires forall k :: 0 <= k < n ==> k in s
    ensures n <= |s|
    decreases n
  {
    if n > 0 {
      InitialSegment(n - 1, s - {n - 1});
    }
  }

  /** A run of taken names is no longer than the list of items. */
  lemma TakenRunIsShort(taken: seq<string>, n: nat)
    requires TakenBelow(taken, n)
    ensures n <= |taken|
  {
    forall k | 0 <= k < n ensures k in Numbers(taken) {
      DecodeEncode(k);
      assert Encode(k) in taken;
    }
    InitialSegment(n, Numbers(taken));
    FewNumbers(taken);
  }

  /** The rescanning loop ends, and the name it settles on is the least free one. */
  method ImageItemIdentifier(taken: seq<string>) returns (id: string)
    ensures IsName(id) && LeastFree(taken, Decode(id)) && id == Encode(Decode(id))
  {
    id := "A";
    ghost var n: nat := 0;
    var conflicts := true;
    while conflicts
      invariant id == Encode(n) && n <= |taken|
      invariant TakenBelow(taken, n)
      invariant !conflicts ==> id !in taken
      decreases |taken| - n, if conflicts then 1 else 0
    {
      conflicts := false;
      ghost var before := n;
      for i := 0 to |taken|
        invariant id == Encode(n) && before <= n
        invariant TakenBelow(taken, n)
        invariant conflicts <==> before < n
        invariant !conflicts ==> id !in taken[..i]
      {
        if taken[i] == id {
          DecodeEncode(n);
          OneMoreTaken(taken, n, id);
          id := NextId(id);
          n := n + 1;
          conflicts := true;
        }
      }
      TakenRunIsShort(taken, n);
      assert taken[..|taken|] == taken;
    }
    DecodeEncode(n);
  }

  /** The first names: A, B, and so on to Z, and then BA; AA is A again. */
  lemma FirstNames()
    ensures Encode(0) == "A" && Encode(1) == "B" && Encode(25) == "Z" && Encode(26) == "BA"
    ensures Decode("AA") == 0 && Decode("BA") == 26 && Decode("BC") == 28
  {
    assert Decode("A") == 0 && Decode("B") == 1;
    assert "AA"[..1] == "A" && "BA"[..1] == "B" && "BC"[..1] == "B";
  }
}
