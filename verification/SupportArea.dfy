/** The support of a requested area: the level read off the sorted magnitudes, and the threshold made of it. */
module SupportArea {
  import opened Common
  import opened ComplexNumbers

  /** The area constrained choices of the support update. */
  datatype Algorithm = ConstantArea | DecreasingArea | ComplexDecreasingArea

  /** The library's blur and its magnitude of a complex number. */
  datatype Imaging = Imaging(blur: (Picture, real) -> Picture, abs: Complex -> real)

  ghost predicate Lawful(m: Imaging) {
    (forall z :: m.abs(z) >= 0.0 && (m.abs(z) == 0.0 <==> z == ZERO)) &&
    (forall r: real {:trigger Complex(r, 0.0)} :: r >= 0.0 ==> m.abs(Complex(r, 0.0)) == r) &&
    (forall p, r {:trigger m.blur(p, r)} :: |m.blur(p, r)| == |p|)
  }

  function Magnitudes(m: Imaging, p: Picture): (r: seq<real>)
    ensures |r| == |p| && forall i :: 0 <= i < |p| ==> r[i] == m.abs(p[i])
  {
    seq(|p|, i requires 0 <= i < |p| => m.abs(p[i]))
  }

  /** Every pixel replaced by its magnitude. */
  function Dephased(m: Imaging, p: Picture): (r: Picture)
    ensures |r| == |p| && forall i :: 0 <= i < |p| ==> r[i] == Complex(m.abs(p[i]), 0.0)
  {
    seq(|p|, i requires 0 <= i < |p| => Complex(m.abs(p[i]), 0.0))
  }

  /** The image that is sorted for the level, and that is thresholded for the support. */
  function Blurred(m: Imaging, algorithm: Algorithm, input: Picture, radius: real): (r: Picture)
    requires Lawful(m)
    ensures |r| == |input|
  {
    m.blur(if algorithm.ComplexDecreasingArea? then input else Dephased(m, input), radius)
  }

  /** Only the complex algorithm sees the phases of its input: the others cannot tell two images of equal
      magnitudes apart. */
  lemma PhasesAreIgnored(m: Imaging, algorithm: Algorithm, a: Picture, b: Picture, radius: real)
    requires Lawful(m) && !algorithm.ComplexDecreasingArea? && Magnitudes(m, a) == Magnitudes(m, b)
    ensures Blurred(m, algorithm, a, radius) == Blurred(m, algorithm, b, radius)
  {
    assert Dephased(m, a) == Dephased(m, b) by {
      forall i | 0 <= i < |a| ensures Dephased(m, a)[i] == Dephased(m, b)[i] {
        assert Magnitudes(m, a)[i] == Magnitudes(m, b)[i];
      }
    }
  }

  /** It blurs the input as it is, the others its magnitudes. */
  lemma PhasesAreBlurred(m: Imaging, input: Picture, radius: real)
    requires Lawful(m)
    ensures Blurred(m, ComplexDecreasingArea, input, radius) == m.blur(input, radius)
    ensures Blurred(m, ConstantArea, input, radius) == Blurred(m, DecreasingArea, input, radius) ==
            m.blur(Dephased(m, input), radius)
  {
  }

  ghost predicate NonNegative(s: seq<real>) {
    forall i :: 0 <= i < |s| ==> s[i] >= 0.0
  }

  // ---------------------------------------------------------------- sorting and counting

  ghost predicate Descending(s: seq<real>) {
    forall i, j :: 0 <= i < j < |s| ==> s[i] >= s[j]
  }

  function Insert(x: real, s: seq<real>): (r: seq<real>)
    ensures |r| == |s| + 1
  {
    if s == [] || x >= s[0] then [x] + s else [s[0]] + Insert(x, s[1..])
  }

  function Sorted(s: seq<real>): (r: seq<real>)
    ensures |r| == |s|
  {
    if s == [] then [] else Insert(s[0], Sorted(s[1..]))
  }

  /** How many entries are at or above the cut, or strictly above it. */
  function Count(s: seq<real>, cut: real, strict: bool): (n: nat)
    ensures n <= |s|
  {
    if s == [] then 0
    else (if s[0] > cut || (!strict && s[0] == cut) then 1 else 0) + Count(s[1..], cut, strict)
  }

  lemma {:induction false} CountConcat(s: seq<real>, t: seq<real>, cut: real, strict: bool)
    ensures Count(s + t, cut, strict) == Count(s, cut, strict) + Count(t, cut, strict)
  {
    if s == [] {
      assert s + t == t;
    } else {
      assert (s + t)[1..] == s[1..] + t;
      CountConcat(s[1..], t, cut, strict);
    }
  }

  lemma {:induction false} InsertKeepsCount(x: real, s: seq<real>, cut: real, strict: bool)
    ensures Count(Insert(x, s), cut, strict) == Count([x], cut, strict) + Count(s, cut, strict)
  {
    CountConcat([x], s, cut, strict);
    if s != [] && x < s[0] {
      InsertKeepsCount(x, s[1..], cut, strict);
      CountConcat([s[0]], Insert(x, s[1..]), cut, strict);
    }
  }

  lemma {:induction false} SortingKeepsCount(s: seq<real>, cut: real, strict: bool)
    ensures Count(Sorted(s), cut, strict) == Count(s, cut, strict)
  {
    if s != [] {
      InsertKeepsCount(s[0], Sorted(s[1..]), cut, strict);
      SortingKeepsCount(s[1..], cut, strict);
    }
  }

  lemma {:induction false} InsertDescends(x: real, s: seq<real>)
    requires Descending(s)
    ensures Descending(Insert(x, s))
    ensures forall i :: 0 <= i < |s| + 1 ==> Insert(x, s)[i] <= x || (s != [] && Insert(x, s)[i] <= s[0])
  {
    if s != [] && x < s[0] {
      InsertDescends(x, s[1..]);
    }
  }

  lemma {:induction false} SortedDescends(s: seq<real>)
    ensures Descending(Sorted(s))
  {
    if s != [] {
      SortedDescends(s[1..]);
      InsertDescends(s[0], Sorted(s[1..]));
    }
  }

  lemma InsertPermutes(x: real, s: seq<real>)
    ensures multiset(Insert(x, s)) == multiset{x} + multiset(s)
  {
    if s != [] && x < s[0] {
      InsertPermutes(x, s[1..]);
      assert s == [s[0]] + s[1..];
    }
  }

  lemma {:induction false} SortedPermutes(s: seq<real>)
    ensures multiset(Sorted(s)) == multiset(s)
  {
    if s != [] {
      SortedPermutes(s[1..]);
      InsertPermutes(s[0], Sorted(s[1..]));
      assert s == [s[0]] + s[1..];
    }
  }

  /** Between the first entry that fails the cut and the last that passes it lies the count. */
  lemma {:induction false} CountAtCut(s: seq<real>, cut: real, strict: bool, k: nat)
    requires Descending(s) && k <= |s|
    ensures (forall i :: 0 <= i < k ==> s[i] > cut || (!strict && s[i] == cut)) ==> Count(s, cut, strict) >= k
    ensures k < |s| && (s[k] < cut || (strict && s[k] == cut)) ==> Count(s, cut, strict) <= k
    ensures k == |s| ==> Count(s, cut, strict) <= k
  {
    if k > 0 {
      CountAtCut(s[1..], cut, strict, k - 1);
    } else if s != [] && (s[0] < cut || (strict && s[0] == cut)) {
      assert Descending(s[1..]);
      CountAtCut(s[1..], cut, strict, 0);
    }
  }

  // ---------------------------------------------------------------- the level

  /** The largest magnitude, as the running maximum from zero finds it. */
  function Largest(s: seq<real>): (r: real)
    ensures r >= 0.0
  {
    if s == [] then 0.0
    else
      var before := Largest(s[..|s| - 1]);
      if before < s[|s| - 1] then s[|s| - 1] else before
  }

  lemma {:induction false} LargestIsLargest(s: seq<real>)
    ensures forall i :: 0 <= i < |s| ==> s[i] <= Largest(s)
    ensures Largest(s) == 0.0 || Largest(s) in s
  {
    if s != [] {
      LargestIsLargest(s[..|s| - 1]);
    }
  }

  /** The first of the sorted magnitudes is the largest of them. */
  lemma FirstIsLargest(s: seq<real>)
    requires NonNegative(s) && s != []
    ensures Sorted(s)[0] == Largest(s)
  {
    var d := Sorted(s);
    SortedDescends(s);
    SortedPermutes(s);
    LargestIsLargest(s);
    assert d[0] in multiset(d);
    assert d[0] in s;
    if Largest(s) in s {
      assert Largest(s) in multiset(d);
      assert Largest(s) in d;
    }
  }

  /** The index that an area selects: the truncated product with the number of pixels. */
  function AreaIndex(n: nat, area: real): int {
    (n as real * area).Floor
  }

  /** The index is the area in pixels, cut to an integer. */
  lemma AreaIndexCuts(n: nat, area: real)
    ensures AreaIndex(n, area) as real <= n as real * area < AreaIndex(n, area) as real + 1.0
  {
  }

  lemma AreaIndexGrows(n: nat, small: real, large: real)
    requires n > 0 && 0.0 <= small <= large < 1.0
    ensures 0 <= AreaIndex(n, small) <= AreaIndex(n, large) < n
  {
    var r := n as real;
    ScaledOrder(r, 0.0, small);
    ScaledOrder(r, small, large);
    ScaledOrder(r, large, 1.0);
  }

  lemma ScaledOrder(r: real, a: real, b: real)
    requires r > 0.0 && a <= b
    ensures r * a <= r * b
    ensures a < b ==> r * a < r * b
  {
    if a < b {
      var p :| p == r * (b - a);
      NamedProductPositive(r, b - a, p);
    }
  }

  /** The level is a fraction of the first, and largest, of the sorted magnitudes. */
  function Level(sorted: seq<real>, k: nat): real
    requires k < |sorted| && sorted[0] != 0.0
  {
    sorted[k] / sorted[0]
  }

  /** What a level means as a magnitude. */
  function Cut(largest: real, level: real): real {
    largest * level
  }

  /** Multiplied with the largest magnitude again, the level is the magnitude at the chosen index. */
  lemma CutIsEntry(sorted: seq<real>, k: nat, largest: real, level: real)
    requires k < |sorted| && sorted[0] == largest > 0.0 && level == Level(sorted, k)
    ensures Cut(largest, level) == sorted[k]
  {
    assert level * largest == sorted[k];
  }

  lemma PositiveEntries(d: seq<real>, k: nat)
    requires Descending(d) && NonNegative(d) && k < |d|
    ensures d[k] > 0.0 <==> Count(d, 0.0, true) > k
  {
    CountAtCut(d, 0.0, true, k + 1);
    CountAtCut(d, 0.0, true, k);
  }

  lemma SortedNonNegative(s: seq<real>)
    requires NonNegative(s)
    ensures NonNegative(Sorted(s))
  {
    SortedPermutes(s);
    forall i | 0 <= i < |s| ensures Sorted(s)[i] >= 0.0 {
      assert Sorted(s)[i] in multiset(Sorted(s));
      assert Sorted(s)[i] in s;
    }
  }

  /** The magnitude at an index is positive exactly when more pixels than that are lit. */
  lemma EntryPositiveExactlyWhenEnoughLit(magnitudes: seq<real>, k: nat)
    requires NonNegative(magnitudes) && k < |magnitudes|
    ensures Sorted(magnitudes)[k] >= 0.0
    ensures Sorted(magnitudes)[k] > 0.0 <==> Count(magnitudes, 0.0, true) > k
  {
    SortedDescends(magnitudes);
    SortedNonNegative(magnitudes);
    SortingKeepsCount(magnitudes, 0.0, true);
    PositiveEntries(Sorted(magnitudes), k);
  }

  /** The run aborts on a level of zero; it is positive exactly when more than k pixels are lit. */
  lemma LevelPositiveExactlyWhenEnoughLit(magnitudes: seq<real>, k: nat, sorted: seq<real>)
    requires NonNegative(magnitudes) && k < |magnitudes| && sorted == Sorted(magnitudes) && sorted[0] > 0.0
    ensures Level(sorted, k) > 0.0 <==> Count(magnitudes, 0.0, true) > k
  {
    EntryPositiveExactlyWhenEnoughLit(magnitudes, k);
    QuotientPositive(sorted[k], sorted[0], Level(sorted, k));
  }

  lemma QuotientPositive(a: real, b: real, q: real)
    requires a >= 0.0 && b > 0.0 && q == a / b
    ensures q > 0.0 <==> a > 0.0
  {
    assert q * b == a;
  }

  // ---------------------------------------------------------------- the threshold

  function Kept(magnitudes: seq<real>, cut: real): (r: Picture)
    ensures |r| == |magnitudes|
    ensures forall i :: 0 <= i < |r| ==> r[i] == if magnitudes[i] < cut then ZERO else ONE
  {
    seq(|magnitudes|, i requires 0 <= i < |magnitudes| => if magnitudes[i] < cut then ZERO else ONE)
  }

  /** Whatever is not zero becomes one. */
  function Flattened(z: Complex): Complex {
    if z == ZERO then ZERO else ONE
  }

  /** The optional fixed mask is added, and the sum is made zeros and ones again. */
  function WithMask(kept: Picture, mask: Option<Picture>): (r: Picture)
    requires mask.Some? ==> |mask.value| == |kept|
    ensures |r| == |kept|
    ensures forall i :: 0 <= i < |r| ==>
      r[i] == Flattened(if mask.Some? then Plus(kept[i], mask.value[i]) else kept[i])
  {
    seq(|kept|, i requires 0 <= i < |kept| =>
      Flattened(if mask.Some? then Plus(kept[i], mask.value[i]) else kept[i]))
  }

  /** How many pixels a support has. */
  function Area(support: Picture): (n: nat) {
    if support == [] then 0 else (if support[0] == ZERO then 0 else 1) + Area(support[1..])
  }

  lemma {:induction false} AreaOfKept(magnitudes: seq<real>, cut: real)
    ensures Area(Kept(magnitudes, cut)) == Count(magnitudes, cut, false)
  {
    if magnitudes != [] {
      assert Kept(magnitudes, cut)[1..] == Kept(magnitudes[1..], cut);
      AreaOfKept(magnitudes[1..], cut);
    }
  }

  /** At least k + 1 pixels are kept, at most k of them lie above the cut, and there are exactly k + 1
      unless the next magnitude ties with the cut. */
  lemma KeepsRequestedArea(magnitudes: seq<real>, k: nat)
    requires k < |magnitudes|
    ensures Area(Kept(magnitudes, Sorted(magnitudes)[k])) >= k + 1
    ensures Count(magnitudes, Sorted(magnitudes)[k], true) <= k
    ensures Area(Kept(magnitudes, Sorted(magnitudes)[k])) == k + 1 <==>
            k + 1 == |magnitudes| || Sorted(magnitudes)[k + 1] < Sorted(magnitudes)[k]
  {
    var d := Sorted(magnitudes);
    SortedDescends(magnitudes);
    CountsAtEntry(d, k);
    AreaOfKept(magnitudes, d[k]);
    SortingKeepsCount(magnitudes, d[k], false);
    SortingKeepsCount(magnitudes, d[k], true);
  }

  lemma CountsAtEntry(d: seq<real>, k: nat)
    requires Descending(d) && k < |d|
    ensures Count(d, d[k], false) >= k + 1 && Count(d, d[k], true) <= k
    ensures Count(d, d[k], false) == k + 1 <==> k + 1 == |d| || d[k + 1] < d[k]
  {
    CountsUpTo(d, k, d[k]);
    if k + 1 < |d| {
      CountsBehind(d, k, d[k]);
    } else {
      CountAtCut(d, d[k], false, |d|);
    }
  }

  lemma CountsUpTo(d: seq<real>, k: nat, cut: real)
    requires Descending(d) && k < |d| && cut == d[k]
    ensures Count(d, cut, false) >= k + 1 && Count(d, cut, true) <= k
  {
    CountAtCut(d, cut, false, k + 1);
    CountAtCut(d, cut, true, k);
  }

  lemma CountsBehind(d: seq<real>, k: nat, cut: real)
    requires Descending(d) && k + 1 < |d| && cut == d[k]
    ensures d[k + 1] < cut ==> Count(d, cut, false) <= k + 1
    ensures d[k + 1] == cut ==> Count(d, cut, false) >= k + 2
  {
    CountAtCut(d, cut, false, k + 1);
    CountAtCut(d, cut, false, k + 2);
  }

  /** No pixel that is left out is as bright as one that is kept. */
  lemma KeepsTheBrightest(magnitudes: seq<real>, cut: real, i: nat, j: nat)
    requires i < |magnitudes| && j < |magnitudes|
    ensures Kept(magnitudes, cut)[i] == ONE && Kept(magnitudes, cut)[j] == ZERO ==> magnitudes[j] < magnitudes[i]
  {
  }

  ghost predicate Distinct(s: seq<real>) {
    forall i, j :: 0 <= i < j < |s| ==> s[i] != s[j]
  }

  lemma {:induction false} DistinctOnce(s: seq<real>, x: real)
    requires Distinct(s)
    ensures multiset(s)[x] <= 1
  {
    if s != [] {
      DistinctOnce(s[1..], x);
      assert s == [s[0]] + s[1..];
    }
  }

  /** With distinct magnitudes the area is exact. */
  lemma DistinctMagnitudesAreExact(magnitudes: seq<real>, k: nat)
    requires k < |magnitudes| && Distinct(magnitudes)
    ensures Area(Kept(magnitudes, Sorted(magnitudes)[k])) == k + 1
  {
    KeepsRequestedArea(magnitudes, k);
    SortedDescends(magnitudes);
    if k + 1 < |magnitudes| {
      SortedPermutes(magnitudes);
      DistinctOnce(magnitudes, Sorted(magnitudes)[k]);
      TieCountsTwice(Sorted(magnitudes), k);
    }
  }

  lemma TieCountsTwice(d: seq<real>, k: nat)
    requires k + 1 < |d|
    ensures d[k + 1] == d[k] ==> multiset(d)[d[k]] >= 2
  {
    assert d == d[..k] + [d[k], d[k + 1]] + d[k + 2..];
  }

  lemma LargerIndexKeepsMore(magnitudes: seq<real>, j: nat, k: nat, i: nat)
    requires i < |magnitudes| && j <= k < |magnitudes|
    ensures Kept(magnitudes, Sorted(magnitudes)[j])[i] == ONE ==> Kept(magnitudes, Sorted(magnitudes)[k])[i] == ONE
  {
    SortedDescends(magnitudes);
  }

  /** A larger area keeps every pixel that a smaller one keeps. */
  lemma LargerAreaKeepsMore(magnitudes: seq<real>, small: real, large: real, i: nat)
    requires i < |magnitudes| && 0.0 <= small <= large < 1.0
    ensures 0 <= AreaIndex(|magnitudes|, small) <= AreaIndex(|magnitudes|, large) < |magnitudes|
    ensures Kept(magnitudes, Sorted(magnitudes)[AreaIndex(|magnitudes|, small)])[i] == ONE ==>
            Kept(magnitudes, Sorted(magnitudes)[AreaIndex(|magnitudes|, large)])[i] == ONE
  {
    AreaIndexGrows(|magnitudes|, small, large);
    LargerIndexKeepsMore(magnitudes, AreaIndex(|magnitudes|, small), AreaIndex(|magnitudes|, large), i);
  }

  /** With a fixed mask of zeros and positive values, the support is the union of the kept pixels and the mask. */
  lemma MaskUnites(magnitudes: seq<real>, cut: real, mask: Picture, i: nat)
    requires |mask| == |magnitudes| && i < |mask| && mask[i].re >= 0.0
    ensures WithMask(Kept(magnitudes, cut), Some(mask))[i] == ONE <==>
            magnitudes[i] >= cut || mask[i] != ZERO
  {
    var kept := Kept(magnitudes, cut);
    assert WithMask(kept, Some(mask))[i] == Flattened(Plus(kept[i], mask[i]));
    assert magnitudes[i] >= cut ==> Plus(kept[i], mask[i]).re >= 1.0;
    assert magnitudes[i] < cut ==> Plus(kept[i], mask[i]) == mask[i];
  }

  // ---------------------------------------------------------------- the two steps of the program

  /** The level at an index into the sorted magnitudes. */
  method LevelAt(magnitudes: seq<real>, k: nat) returns (level: real)
    requires NonNegative(magnitudes) && Largest(magnitudes) > 0.0 && k < |magnitudes|
    ensures Sorted(magnitudes)[0] == Largest(magnitudes)
    ensures level == Level(Sorted(magnitudes), k)
  {
    FirstIsLargest(magnitudes);
    var res := Sorted(magnitudes);
    level := res[k] / res[0];
  }

  /** The level for a requested area. */
  method GetSupportLevel(m: Imaging, algorithm: Algorithm, input: Picture, radius: real, area: real)
    returns (level: real)
    requires Lawful(m) && |input| > 0 && 0.0 <= area < 1.0
    requires Largest(Magnitudes(m, Blurred(m, algorithm, input, radius))) > 0.0
    ensures 0 <= AreaIndex(|input|, area) < |input|
    ensures Sorted(Magnitudes(m, Blurred(m, algorithm, input, radius)))[0] ==
            Largest(Magnitudes(m, Blurred(m, algorithm, input, radius)))
    ensures level == Level(Sorted(Magnitudes(m, Blurred(m, algorithm, input, radius))), AreaIndex(|input|, area))
  {
    AreaIndexGrows(|input|, area, area);
    level := LevelAt(Magnitudes(m, Blurred(m, algorithm, input, radius)), AreaIndex(|input|, area));
  }

  method LargestMagnitude(m: Imaging, res: array<Complex>) returns (max: real)
    ensures max == Largest(Magnitudes(m, res[..]))
  {
    ghost var magnitudes := Magnitudes(m, res[..]);
    max := 0.0;
    for i := 0 to res.Length
      invariant max == Largest(magnitudes[..i])
    {
      assert magnitudes[..i + 1][..i] == magnitudes[..i];
      if max < m.abs(res[i]) {
        max := m.abs(res[i]);
      }
    }
    assert magnitudes[..res.Length] == magnitudes;
  }

  method Threshold(m: Imaging, res: array<Complex>, cut: real)
    modifies res
    ensures res[..] == Kept(Magnitudes(m, old(res[..])), cut)
  {
    for i := 0 to res.Length
      invariant forall k :: 0 <= k < i ==> res[k] == if m.abs(old(res[k])) < cut then ZERO else ONE
      invariant forall k :: i <= k < res.Length ==> res[k] == old(res[k])
    {
      if m.abs(res[i]) < cut {
        res[i] := ZERO;
      } else {
        res[i] := ONE;
      }
    }
  }

  method AddMask(res: array<Complex>, mask: Picture)
    requires |mask| == res.Length
    modifies res
    ensures forall k :: 0 <= k < res.Length ==> res[k] == Plus(old(res[k]), mask[k])
  {
    for i := 0 to res.Length
      invariant forall k :: 0 <= k < i ==> res[k] == Plus(old(res[k]), mask[k])
      invariant forall k :: i <= k < res.Length ==> res[k] == old(res[k])
    {
      res[i] := Plus(res[i], mask[i]);
    }
  }

  method Flatten(m: Imaging, res: array<Complex>)
    requires Lawful(m)
    modifies res
    ensures forall k :: 0 <= k < res.Length ==> res[k] == Flattened(old(res[k]))
  {
    for i := 0 to res.Length
      invariant forall k :: 0 <= k < i ==> res[k] == Flattened(old(res[k]))
      invariant forall k :: i <= k < res.Length ==> res[k] == old(res[k])
    {
      if m.abs(res[i]) != 0.0 {
        res[i] := ONE;
      }
    }
  }

  method ThresholdAndMask(m: Imaging, res: array<Complex>, cut: real, mask: Option<Picture>)
    requires Lawful(m) && (mask.Some? ==> |mask.value| == res.Length)
    modifies res
    ensures res[..] == WithMask(Kept(Magnitudes(m, old(res[..])), cut), mask)
  {
    Threshold(m, res, cut);
    if mask.Some? {
      AddMask(res, mask.value);
    }
    Flatten(m, res);
  }

  /** The support made of a level: running maximum, threshold, mask, and back to zeros and ones. */
  method GetUpdatedSupport(m: Imaging, algorithm: Algorithm, input: Picture, level: real, radius: real,
                           mask: Option<Picture>)
    returns (res: array<Complex>)
    requires Lawful(m) && (mask.Some? ==> |mask.value| == |input|)
    ensures fresh(res) && res.Length == |input|
    ensures var magnitudes := Magnitudes(m, Blurred(m, algorithm, input, radius));
            res[..] == WithMask(Kept(magnitudes, Cut(Largest(magnitudes), level)), mask)
  {
    var blurred := Dephased(m, Blurred(m, algorithm, input, radius));
    assert Magnitudes(m, blurred) == Magnitudes(m, Blurred(m, algorithm, input, radius));
    res := new Complex[|blurred|](i requires 0 <= i < |blurred| => blurred[i]);
    assert res[..] == blurred;
    var max := LargestMagnitude(m, res);
    ThresholdAndMask(m, res, Cut(max, level), mask);
  }

  /** The cut a level makes, on the magnitudes it was read from. */
  lemma LevelCuts(magnitudes: seq<real>, k: nat, level: real, mask: Option<Picture>)
    requires k < |magnitudes| && (mask.Some? ==> |mask.value| == |magnitudes|)
    requires Sorted(magnitudes)[0] == Largest(magnitudes) > 0.0 && level == Level(Sorted(magnitudes), k)
    ensures WithMask(Kept(magnitudes, Cut(Largest(magnitudes), level)), mask) ==
            WithMask(Kept(magnitudes, Sorted(magnitudes)[k]), mask)
  {
    CutIsEntry(Sorted(magnitudes), k, Largest(magnitudes), level);
  }

  lemma WithoutMask(magnitudes: seq<real>, k: nat)
    requires k < |magnitudes|
    ensures Area(WithMask(Kept(magnitudes, Sorted(magnitudes)[k]), None)) >= k + 1
  {
    KeepsRequestedArea(magnitudes, k);
    NothingMasked(magnitudes, Sorted(magnitudes)[k]);
  }

  lemma NothingMasked(magnitudes: seq<real>, cut: real)
    ensures WithMask(Kept(magnitudes, cut), None) == Kept(magnitudes, cut)
  {
  }

  /** Level and threshold together: a support of the requested area, and the fixed mask; nothing when the
      level is zero, on which the program aborts. */
  method UpdateSupport(m: Imaging, algorithm: Algorithm, input: Picture, radius: real, area: real,
                       mask: Option<Picture>)
    returns (support: Option<array<Complex>>)
    requires Lawful(m) && |input| > 0 && 0.0 <= area < 1.0 && (mask.Some? ==> |mask.value| == |input|)
    requires Largest(Magnitudes(m, Blurred(m, algorithm, input, radius))) > 0.0
    ensures 0 <= AreaIndex(|input|, area) < |input|
    ensures support.Some? <==>
            Count(Magnitudes(m, Blurred(m, algorithm, input, radius)), 0.0, true) > AreaIndex(|input|, area)
    ensures support.Some? ==>
            fresh(support.value) &&
            var magnitudes := Magnitudes(m, Blurred(m, algorithm, input, radius));
            support.value[..] == WithMask(Kept(magnitudes, Sorted(magnitudes)[AreaIndex(|input|, area)]), mask)
    ensures support.Some? && mask.None? ==> Area(support.value[..]) as real > |input| as real * area
  {
    var level := GetSupportLevel(m, algorithm, input, radius, area);
    ghost var magnitudes := Magnitudes(m, Blurred(m, algorithm, input, radius));
    ghost var k := AreaIndex(|input|, area);
    LevelPositiveExactlyWhenEnoughLit(magnitudes, k, Sorted(magnitudes));
    if level <= 0.0 {
      return None;
    }
    var res := GetUpdatedSupport(m, algorithm, input, level, radius, mask);
    LevelCuts(magnitudes, k, level, mask);
    WithoutMask(magnitudes, k);
    AreaIndexCuts(|input|, area);
    return Some(res);
  }
}
