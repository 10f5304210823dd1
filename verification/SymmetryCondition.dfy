/** Exactly for which shapes averaging about the centre leaves every image symmetric. */
module SymmetryCondition {
  import opened ComplexNumbers
  import opened PointSymmetry

  // ---------------------------------------------------------------- the coordinates of an axis that have partners

  /** The first integer not below twice the centre. */
  function Ceiling(c: real): int {
    var f := (2.0 * c).Floor;
    if f as real == 2.0 * c then f else f + 1
  }

  function Lowest(c: real, n: nat): int {
    var f := (2.0 * c).Floor;
    if f - n + 1 < 0 then 0 else f - n + 1
  }

  function Highest(c: real, n: nat): int {
    if n - 1 < Ceiling(c) then n - 1 else Ceiling(c)
  }

  /** They are an interval. */
  lemma PartnersAreAnInterval(c: real, n: nat, x: int)
    ensures 0 <= x < n && 0 <= Mirrored(c, x) < n <==> Lowest(c, n) <= x <= Highest(c, n)
  {
    MirroredIs(c, x);
  }

  /** The highest of them is paired with the lowest; the lowest with the highest exactly when the centre fits. */
  lemma EndsOfInterval(c: real, n: nat)
    requires Lowest(c, n) <= Highest(c, n)
    ensures Mirrored(c, Highest(c, n)) == Lowest(c, n)
    ensures Mirrored(c, Lowest(c, n)) == Highest(c, n) <==> CentreFits(c, n)
    ensures !CentreFits(c, n) ==>
      Lowest(c, n) == 0 && Highest(c, n) == (2.0 * c).Floor + 1 && Mirrored(c, 0) == (2.0 * c).Floor
  {
    MirroredIs(c, Highest(c, n));
    MirroredIs(c, Lowest(c, n));
  }

  predicate HasPairs(s: Shape) {
    Lowest(s.cx, s.nx) <= Highest(s.cx, s.nx) && Lowest(s.cy, s.ny) <= Highest(s.cy, s.ny) &&
    Lowest(s.cz, s.nz) <= Highest(s.cz, s.nz)
  }

  predicate InPair(s: Shape, p: Point) {
    InRange(s, p) && InRange(s, Mirror(s, p))
  }

  /** The first and the last pixel that have a partner. */
  function Bottom(s: Shape): Point {
    Point(Lowest(s.cx, s.nx), Lowest(s.cy, s.ny), Lowest(s.cz, s.nz))
  }

  function Top(s: Shape): Point {
    Point(Highest(s.cx, s.nx), Highest(s.cy, s.ny), Highest(s.cz, s.nz))
  }

  predicate Between(p: Point, q: Point, r: Point) {
    p.x <= q.x <= r.x && p.y <= q.y <= r.y && p.z <= q.z <= r.z
  }

  lemma InPairExactlyBetween(s: Shape, p: Point)
    ensures InPair(s, p) <==> Between(Bottom(s), p, Top(s))
  {
    PartnersAreAnInterval(s.cx, s.nx, p.x);
    PartnersAreAnInterval(s.cy, s.ny, p.y);
    PartnersAreAnInterval(s.cz, s.nz, p.z);
  }

  lemma TopMeetsBottom(s: Shape)
    requires HasPairs(s)
    ensures InPair(s, Top(s)) && InPair(s, Bottom(s)) && Mirror(s, Top(s)) == Bottom(s)
  {
    InPairExactlyBetween(s, Top(s));
    InPairExactlyBetween(s, Bottom(s));
    EndsOfInterval(s.cx, s.nx);
    EndsOfInterval(s.cy, s.ny);
    EndsOfInterval(s.cz, s.nz);
  }

  // ---------------------------------------------------------------- the last visit

  /** Points come before the end of their line and of their plane. */
  lemma BeforeEnds(s: Shape, p: Point, x: int, y: int)
    requires InRange(s, p)
    ensures Before(p, Point(x, y, 0)) ==> Before(p, Point(x, y - 1, s.nz))
    ensures Before(p, Point(x, 0, 0)) ==> Before(p, Point(x - 1, s.ny, 0))
  {
  }

  /** Nobody visits the last pair again. */
  lemma {:induction false} LastPairStays(abs: Complex -> real, s: Shape, f: Frame, x: nat, y: nat, z: nat, q: Point,
                                         out: Frame)
    requires HasPairs(s) && Sized(s, f) && x <= s.nx && y <= s.ny && z <= s.nz
    requires (x == s.nx ==> y == 0) && (x == s.nx || y == s.ny ==> z == 0)
    requires InPair(s, Top(s)) && InPair(s, Bottom(s)) && Mirror(s, Top(s)) == Bottom(s)
    requires Before(Top(s), Point(x, y, z)) && (q == Top(s) || q == Bottom(s)) && out == Done(abs, s, f, x, y, z)
    ensures At(s, out, q) == Averaged(abs, At(s, f, Top(s)), At(s, f, Bottom(s)))
    decreases x, y, z
  {
    BeforeEnds(s, Top(s), x, y);
    if z > 0 {
      var v := Point(x, y, z - 1);
      var earlier := Done(abs, s, f, x, y, z - 1);
      if v == Top(s) {
        VisitAt(abs, s, f, earlier, v, q);
      } else {
        InPairExactlyBetween(s, v);
        LastPairStays(abs, s, f, x, y, z - 1, q, earlier);
      }
    } else if y > 0 {
      LastPairStays(abs, s, f, x, y - 1, s.nz, q, out);
    } else if x > 0 {
      LastPairStays(abs, s, f, x - 1, s.ny, 0, q, out);
    }
  }

  // ---------------------------------------------------------------- an image with a single bright pixel

  function Spike(s: Shape, m: Point): (f: Frame)
    ensures Sized(s, f)
  {
    Frame(seq(Size(s), i => if i == Index(s, m) then ONE else ZERO), seq(Size(s), i => 1))
  }

  lemma SpikeAt(s: Shape, m: Point, q: Point)
    requires InRange(s, m) && InRange(s, q)
    ensures At(s, Spike(s, m), q) == Cell(if q == m then ONE else ZERO, 1)
  {
    IndexInside(s, q);
    IndicesApart(s, q, m);
  }

  lemma AverageOfSpike(abs: Complex -> real, a: Cell, b: Cell)
    requires Magnitude(abs) && a.mask == 1 && b.mask == 1 && a.value in {ZERO, ONE} && b.value in {ZERO, ONE}
    ensures a.value == b.value == ZERO ==> Averaged(abs, a, b) == Cell(ZERO, 1)
    ensures a.value == ONE || b.value == ONE ==> Averaged(abs, a, b).value.re > 0.0
  {
    assert abs(Complex(0.0, 0.0)) == 0.0 && abs(Complex(1.0, 0.0)) == 1.0;
  }

  /** Once visited, the bright pixel never becomes dark: its pairs hold it. */
  lemma {:induction false} SpikeStaysBright(abs: Complex -> real, s: Shape, m: Point, x: nat, y: nat, z: nat,
                                            out: Frame)
    requires Magnitude(abs) && InPair(s, m) && x <= s.nx && y <= s.ny && z <= s.nz
    requires (x == s.nx ==> y == 0) && (x == s.nx || y == s.ny ==> z == 0)
    requires Before(m, Point(x, y, z)) && out == Done(abs, s, Spike(s, m), x, y, z)
    ensures At(s, out, m).value.re > 0.0
    decreases x, y, z
  {
    BeforeEnds(s, m, x, y);
    if z > 0 {
      SpikeVisit(abs, s, m, x, y, z, out);
    } else if y > 0 {
      SpikeStaysBright(abs, s, m, x, y - 1, s.nz, out);
    } else if x > 0 {
      SpikeStaysBright(abs, s, m, x - 1, s.ny, 0, out);
    }
  }

  lemma {:induction false} SpikeVisit(abs: Complex -> real, s: Shape, m: Point, x: nat, y: nat, z: nat, out: Frame)
    requires Magnitude(abs) && InPair(s, m) && x < s.nx && y < s.ny && 0 < z <= s.nz
    requires Before(m, Point(x, y, z)) && out == Done(abs, s, Spike(s, m), x, y, z)
    ensures At(s, out, m).value.re > 0.0
    decreases x, y, z, 0
  {
    var f, v := Spike(s, m), Point(x, y, z - 1);
    var earlier := Done(abs, s, f, x, y, z - 1);
    if InPair(s, v) {
      VisitAt(abs, s, f, earlier, v, m);
      SpikeAt(s, m, v);
      SpikeAt(s, m, Mirror(s, v));
      AverageOfSpike(abs, At(s, f, v), At(s, f, Mirror(s, v)));
    }
    if v != m {
      SpikeStaysBright(abs, s, m, x, y, z - 1, earlier);
    }
  }

  /** A bright pixel of a pair, other than the first and the last, ends bright, while the first ends dark. */
  lemma SpikeShows(abs: Complex -> real, s: Shape, m: Point, out: Frame)
    requires Magnitude(abs) && HasPairs(s) && InPair(s, m) && m != Top(s) && m != Bottom(s)
    requires out == Done(abs, s, Spike(s, m), s.nx, 0, 0)
    ensures InPair(s, Bottom(s)) && At(s, out, m) != At(s, out, Bottom(s))
  {
    TopMeetsBottom(s);
    LastPairStays(abs, s, Spike(s, m), s.nx, 0, 0, Bottom(s), out);
    SpikeStaysBright(abs, s, m, s.nx, 0, 0, out);
    SpikeAt(s, m, Top(s));
    SpikeAt(s, m, Bottom(s));
    AverageOfSpike(abs, At(s, Spike(s, m), Top(s)), At(s, Spike(s, m), Bottom(s)));
  }

  // ---------------------------------------------------------------- the condition

  /** The averaged image agrees at a pixel and its partner. */
  ghost predicate SymmetricAt(abs: Complex -> real, s: Shape, f: Frame, p: Point) {
    Sized(s, f) && InPair(s, p) ==>
      var out := Done(abs, s, f, s.nx, 0, 0);
      At(s, out, p) == At(s, out, Mirror(s, p))
  }

  /** A single coordinate has a partner, itself. */
  predicate Lone(c: real, n: nat) {
    CentreFits(c, n) && Lowest(c, n) == Highest(c, n)
  }

  /** The coordinates 0 and 1 are both paired with 0. */
  predicate Doubled(c: real, n: nat) {
    !CentreFits(c, n) && (2.0 * c).Floor == 0
  }

  /** The only pixels with a partner are two, which are both paired with the first. */
  predicate TwoMeet(s: Shape) {
    (Doubled(s.cx, s.nx) && Lone(s.cy, s.ny) && Lone(s.cz, s.nz)) ||
    (Lone(s.cx, s.nx) && Doubled(s.cy, s.ny) && Lone(s.cz, s.nz)) ||
    (Lone(s.cx, s.nx) && Lone(s.cy, s.ny) && Doubled(s.cz, s.nz))
  }

  ghost predicate KeepsSymmetry(s: Shape) {
    !HasPairs(s) || Fits(s) || TwoMeet(s)
  }

  lemma DoubledMeets(c: real, n: nat)
    requires Lowest(c, n) <= Highest(c, n)
    ensures Doubled(c, n) ==> Lowest(c, n) == 0 && Highest(c, n) == 1
    ensures Mirrored(c, Lowest(c, n)) == Lowest(c, n) <==> Doubled(c, n) || Lone(c, n)
  {
    EndsOfInterval(c, n);
  }

  lemma TwoMeetIsSymmetric(abs: Complex -> real, s: Shape, f: Frame, p: Point)
    requires HasPairs(s) && TwoMeet(s) && Sized(s, f) && InPair(s, p)
    ensures SymmetricAt(abs, s, f, p)
  {
    TopMeetsBottom(s);
    InPairExactlyBetween(s, p);
    DoubledMeets(s.cx, s.nx);
    DoubledMeets(s.cy, s.ny);
    DoubledMeets(s.cz, s.nz);
    assert p == Top(s) || p == Bottom(s);
    assert Mirror(s, Bottom(s)) == Bottom(s);
    var out := Done(abs, s, f, s.nx, 0, 0);
    LastPairStays(abs, s, f, s.nx, 0, 0, Top(s), out);
    LastPairStays(abs, s, f, s.nx, 0, 0, Bottom(s), out);
  }

  lemma KeptIsSymmetric(abs: Complex -> real, s: Shape, f: Frame, p: Point)
    requires KeepsSymmetry(s)
    ensures SymmetricAt(abs, s, f, p)
  {
    if Sized(s, f) && InPair(s, p) {
      InPairExactlyBetween(s, p);
      if Fits(s) {
        DoneIsAverage(abs, s, f);
        AverageIsSymmetric(abs, s, f, Done(abs, s, f, s.nx, 0, 0), p);
      } else {
        TwoMeetIsSymmetric(abs, s, f, p);
      }
    }
  }

  /** A pixel that meets the first one, and is neither the first nor the last. */
  predicate Third(s: Shape, m: Point) {
    InPair(s, m) && m != Top(s) && m != Bottom(s) && (Mirror(s, Bottom(s)) == m || Mirror(s, m) == Bottom(s))
  }

  /** The first pixel's partner, when that is not itself. */
  lemma PartnerOfBottom(s: Shape)
    requires HasPairs(s) && !Fits(s) && Mirror(s, Bottom(s)) != Bottom(s)
    ensures Third(s, Mirror(s, Bottom(s)))
  {
    TopMeetsBottom(s);
    EndsOfInterval(s.cx, s.nx);
    EndsOfInterval(s.cy, s.ny);
    EndsOfInterval(s.cz, s.nz);
    InPairExactlyBetween(s, Mirror(s, Bottom(s)));
    PartnersAreAnInterval(s.cx, s.nx, Mirrored(s.cx, Lowest(s.cx, s.nx)));
    MirrorStaysPaired(s.cx, s.nx);
    MirrorStaysPaired(s.cy, s.ny);
    MirrorStaysPaired(s.cz, s.nz);
  }

  lemma MirrorStaysPaired(c: real, n: nat)
    requires Lowest(c, n) <= Highest(c, n)
    ensures Lowest(c, n) <= Mirrored(c, Lowest(c, n)) <= Highest(c, n)
  {
    EndsOfInterval(c, n);
  }

  /** When the first pixel is its own partner along two axes that do not fit, a corner between them. */
  function Corner(s: Shape): Point {
    if !CentreFits(s.cx, s.nx) then Bottom(s).(x := 1)
    else Bottom(s).(y := 1)
  }

  lemma CornerMeetsBottom(s: Shape)
    requires HasPairs(s) && !Fits(s) && !TwoMeet(s) && Mirror(s, Bottom(s)) == Bottom(s)
    ensures Third(s, Corner(s))
  {
    TopMeetsBottom(s);
    DoubledMeets(s.cx, s.nx);
    DoubledMeets(s.cy, s.ny);
    DoubledMeets(s.cz, s.nz);
    EndsOfInterval(s.cx, s.nx);
    EndsOfInterval(s.cy, s.ny);
    EndsOfInterval(s.cz, s.nz);
    InPairExactlyBetween(s, Corner(s));
  }

  /** In every other shape there is an image whose average is not symmetric. */
  lemma OtherwiseNotSymmetric(abs: Complex -> real, s: Shape)
    requires Magnitude(abs) && !KeepsSymmetry(s)
    ensures exists f, p :: !SymmetricAt(abs, s, f, p)
  {
    if Mirror(s, Bottom(s)) != Bottom(s) {
      PartnerOfBottom(s);
      ThirdShows(abs, s, Mirror(s, Bottom(s)));
    } else {
      CornerMeetsBottom(s);
      ThirdShows(abs, s, Corner(s));
    }
  }

  lemma ThirdShows(abs: Complex -> real, s: Shape, m: Point)
    requires Magnitude(abs) && HasPairs(s) && Third(s, m)
    ensures !SymmetricAt(abs, s, Spike(s, m), m) || !SymmetricAt(abs, s, Spike(s, m), Bottom(s))
  {
    SpikeShows(abs, s, m, Done(abs, s, Spike(s, m), s.nx, 0, 0));
  }

  /** The averaged image agrees at every pixel and its partner, for every image, exactly when no pixel has a
      partner, or the centre fits, or only two pixels have one and both the same. */
  lemma SymmetricExactlyWhenKept(abs: Complex -> real, s: Shape)
    requires Magnitude(abs)
    ensures (forall f, p :: SymmetricAt(abs, s, f, p)) <==> KeepsSymmetry(s)
  {
    if KeepsSymmetry(s) {
      forall f, p ensures SymmetricAt(abs, s, f, p) {
        KeptIsSymmetric(abs, s, f, p);
      }
    } else {
      OtherwiseNotSymmetric(abs, s);
    }
  }

  // ---------------------------------------------------------------- one image

  lemma EndsOfMisfit(c: real, n: nat, f: int)
    requires (2.0 * c).Floor == f && f as real != 2.0 * c && 0 <= f < n - 1
    ensures Lowest(c, n) == 0 && Highest(c, n) == f + 1
  {
  }

  lemma EndsOfPoint(c: real)
    requires 2.0 * c == 0.0
    ensures Lowest(c, 1) == 0 && Highest(c, 1) == 0
  {
  }

  /** Three pixels that all have partners, the first one's partner being the second. */
  ghost predicate Triple(s: Shape) {
    s.nx == 3 && s.ny == 1 && s.nz == 1 && HasPairs(s) && Bottom(s) == Pixel(0) && Top(s) == Pixel(2) &&
    Mirror(s, Pixel(0)) == Pixel(1)
  }

  lemma LineIsTriple()
    ensures Triple(LINE)
  {
    LineMirrors();
    EndsOfMisfit(LINE.cx, LINE.nx, 1);
    EndsOfPoint(LINE.cy);
    EndsOfPoint(LINE.cz);
  }

  lemma SpikeOfThree(s: Shape, f: Frame, m: Point)
    requires s.nx == 3 && s.ny == 1 && s.nz == 1 && m == Pixel(1) && f == Frame([ZERO, ONE, ZERO], [1, 1, 1])
    ensures f == Spike(s, m)
  {
    assert Size(s) == 3 && Index(s, m) == 1;
    assert f.image == Spike(s, m).image && f.mask == Spike(s, m).mask;
  }

  lemma TripleIsNotSymmetric(abs: Complex -> real, s: Shape, f: Frame, out: Frame)
    requires Magnitude(abs) && Triple(s) && f == Frame([ZERO, ONE, ZERO], [1, 1, 1])
    requires Sized(s, f) && out == Done(abs, s, f, s.nx, 0, 0)
    ensures InPair(s, Pixel(0)) && At(s, out, Pixel(0)) != At(s, out, Pixel(1))
  {
    InPairExactlyBetween(s, Pixel(1));
    SpikeOfThree(s, f, Pixel(1));
    SpikeShows(abs, s, Pixel(1), out);
  }

  /** Three pixels in a line with the centre at 3/4 and the middle one bright: the average is not symmetric. */
  lemma LineIsNotSymmetric(abs: Complex -> real, s: Shape, f: Frame, out: Frame)
    requires Magnitude(abs) && s == LINE && f == Frame([ZERO, ONE, ZERO], [1, 1, 1])
    requires Sized(s, f) && out == Done(abs, s, f, s.nx, 0, 0)
    ensures Mirror(s, Pixel(0)) == Pixel(1) && InPair(s, Pixel(0))
    ensures At(s, out, Pixel(0)) != At(s, out, Pixel(1))
  {
    LineIsTriple();
    TripleIsNotSymmetric(abs, s, f, out);
  }
}
