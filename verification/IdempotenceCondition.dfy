/** Exactly for which shapes averaging about the centre a second time changes no image. */
module IdempotenceCondition {
  import opened ComplexNumbers
  import opened PointSymmetry
  import opened SymmetryCondition

  // ---------------------------------------------------------------- what the loops leave at a pixel

  /** No later visit writes to the pixel q. */
  ghost predicate LastFor(s: Shape, p: Point, q: Point) {
    forall v :: InPair(s, v) && Before(p, v) ==> v != q && Mirror(s, v) != q
  }

  /** A pixel keeps what the last visit that writes to it has written. */
  lemma {:induction false} LastVisitStays(abs: Complex -> real, s: Shape, f: Frame, p: Point, q: Point,
                                          x: nat, y: nat, z: nat, out: Frame)
    requires Sized(s, f) && x <= s.nx && y <= s.ny && z <= s.nz
    requires (x == s.nx ==> y == 0) && (x == s.nx || y == s.ny ==> z == 0)
    requires InPair(s, p) && (q == p || q == Mirror(s, p)) && LastFor(s, p, q)
    requires Before(p, Point(x, y, z)) && out == Done(abs, s, f, x, y, z)
    ensures At(s, out, q) == Averaged(abs, At(s, f, p), At(s, f, Mirror(s, p)))
    decreases x, y, z
  {
    BeforeEnds(s, p, x, y);
    if z > 0 {
      var v := Point(x, y, z - 1);
      var earlier := Done(abs, s, f, x, y, z - 1);
      if InPair(s, v) {
        VisitAt(abs, s, f, earlier, v, q);
      }
      if v != p {
        LastVisitStays(abs, s, f, p, q, x, y, z - 1, earlier);
      }
    } else if y > 0 {
      LastVisitStays(abs, s, f, p, q, x, y - 1, s.nz, out);
    } else if x > 0 {
      LastVisitStays(abs, s, f, p, q, x - 1, s.ny, 0, out);
    }
  }

  /** A pixel without a partner keeps what it had. */
  lemma {:induction false} OthersStay(abs: Complex -> real, s: Shape, f: Frame, q: Point, x: nat, y: nat, z: nat,
                                      out: Frame)
    requires Sized(s, f) && x <= s.nx && y <= s.ny && z <= s.nz
    requires (x == s.nx ==> y == 0) && (x == s.nx || y == s.ny ==> z == 0)
    requires InRange(s, q) && !InPair(s, q) && out == Done(abs, s, f, x, y, z)
    ensures At(s, out, q) == At(s, f, q)
    decreases x, y, z
  {
    if z > 0 {
      var v := Point(x, y, z - 1);
      var earlier := Done(abs, s, f, x, y, z - 1);
      if InPair(s, v) {
        MirrorInPair(s, v);
        VisitAt(abs, s, f, earlier, v, q);
      }
      OthersStay(abs, s, f, q, x, y, z - 1, earlier);
    } else if y > 0 {
      OthersStay(abs, s, f, q, x, y - 1, s.nz, out);
    } else if x > 0 {
      OthersStay(abs, s, f, q, x - 1, s.ny, 0, out);
    }
  }

  /** Partners have partners. */
  lemma MirrorInPair(s: Shape, v: Point)
    requires InPair(s, v)
    ensures InPair(s, Mirror(s, v))
  {
    InPairExactlyBetween(s, v);
    InPairExactlyBetween(s, Mirror(s, v));
    MirrorBetween(s.cx, s.nx, v.x);
    MirrorBetween(s.cy, s.ny, v.y);
    MirrorBetween(s.cz, s.nz, v.z);
  }

  lemma MirrorBetween(c: real, n: nat, x: int)
    requires Lowest(c, n) <= x <= Highest(c, n)
    ensures Lowest(c, n) <= Mirrored(c, x) <= Highest(c, n)
  {
    MirroredIs(c, x);
  }

  // ---------------------------------------------------------------- the condition

  /** Averaging the averaged image leaves the pixel alone. */
  ghost predicate IdempotentAt(abs: Complex -> real, s: Shape, f: Frame, q: Point) {
    Sized(s, f) && InRange(s, q) ==>
      var once := Done(abs, s, f, s.nx, 0, 0);
      At(s, Done(abs, s, once, s.nx, 0, 0), q) == At(s, once, q)
  }

  /** A single axis does not fit, which pairs 0 and 1 with 0; the axes of the loops around its own pair a single
      coordinate with itself. */
  predicate OneDoubled(s: Shape) {
    (Doubled(s.cx, s.nx) && CentreFits(s.cy, s.ny) && CentreFits(s.cz, s.nz)) ||
    (Lone(s.cx, s.nx) && Doubled(s.cy, s.ny) && CentreFits(s.cz, s.nz)) ||
    (Lone(s.cx, s.nx) && Lone(s.cy, s.ny) && Doubled(s.cz, s.nz))
  }

  ghost predicate KeepsAverage(s: Shape) {
    !HasPairs(s) || Fits(s) || OneDoubled(s)
  }

  // ---------------------------------------------------------------- the condition suffices

  /** The visit p is the last for both of its pixels. */
  ghost predicate LastForBoth(s: Shape, p: Point) {
    InPair(s, p) && LastFor(s, p, p) && LastFor(s, p, Mirror(s, p))
  }

  /** Pixels that a visit writes last, both of them, stay as they are when everything is done again. */
  lemma LastForBothIsIdempotent(abs: Complex -> real, s: Shape, f: Frame, p: Point, q: Point)
    requires Magnitude(abs) && Sized(s, f) && LastForBoth(s, p) && (q == p || q == Mirror(s, p))
    ensures IdempotentAt(abs, s, f, q)
  {
    var once := Done(abs, s, f, s.nx, 0, 0);
    var twice := Done(abs, s, once, s.nx, 0, 0);
    LastVisitStays(abs, s, f, p, p, s.nx, 0, 0, once);
    LastVisitStays(abs, s, f, p, Mirror(s, p), s.nx, 0, 0, once);
    LastVisitStays(abs, s, once, p, q, s.nx, 0, 0, twice);
    AveragedAgain(abs, At(s, f, p), At(s, f, Mirror(s, p)));
  }

  /** What an axis does between its bounds. */
  lemma AxisFacts(c: real, n: nat, x: int)
    requires Lowest(c, n) <= x <= Highest(c, n)
    ensures CentreFits(c, n) ==> Mirrored(c, Mirrored(c, x)) == x && Mirrored(c, x) == Lowest(c, n) + Highest(c, n) - x
    ensures Doubled(c, n) ==> Lowest(c, n) == 0 && Highest(c, n) == 1 && Mirrored(c, x) == 0
    ensures Lone(c, n) ==> x == Lowest(c, n) == Mirrored(c, x)
  {
    MirroredIs(c, x);
    MirroredIs(c, Mirrored(c, x));
  }

  lemma PointFacts(s: Shape, v: Point)
    requires InPair(s, v)
    ensures Between(Bottom(s), v, Top(s)) && Between(Bottom(s), Mirror(s, v), Top(s))
    ensures CentreFits(s.cx, s.nx) ==> Mirrored(s.cx, Mirrored(s.cx, v.x)) == v.x
    ensures CentreFits(s.cy, s.ny) ==> Mirrored(s.cy, Mirrored(s.cy, v.y)) == v.y
    ensures CentreFits(s.cz, s.nz) ==> Mirrored(s.cz, Mirrored(s.cz, v.z)) == v.z
    ensures Doubled(s.cx, s.nx) ==> 0 <= v.x <= 1 && Mirrored(s.cx, v.x) == 0
    ensures Doubled(s.cy, s.ny) ==> 0 <= v.y <= 1 && Mirrored(s.cy, v.y) == 0
    ensures Doubled(s.cz, s.nz) ==> 0 <= v.z <= 1 && Mirrored(s.cz, v.z) == 0
    ensures Lone(s.cx, s.nx) ==> v.x == Lowest(s.cx, s.nx) == Mirrored(s.cx, v.x)
    ensures Lone(s.cy, s.ny) ==> v.y == Lowest(s.cy, s.ny) == Mirrored(s.cy, v.y)
  {
    InPairExactlyBetween(s, v);
    AxisFacts(s.cx, s.nx, v.x);
    AxisFacts(s.cy, s.ny, v.y);
    AxisFacts(s.cz, s.nz, v.z);
    MirrorInPair(s, v);
    InPairExactlyBetween(s, Mirror(s, v));
  }

  /** The point with 1 along the axis that does not fit, whose visit is the last for q. */
  function Upper(s: Shape, q: Point): Point {
    if Doubled(s.cx, s.nx) then if q.x == 1 then q else Mirror(s, q).(x := 1)
    else if Doubled(s.cy, s.ny) then if q.y == 1 then q else Mirror(s, q).(y := 1)
    else if q.z == 1 then q else Mirror(s, q).(z := 1)
  }

  lemma UpperInPair(s: Shape, q: Point)
    requires HasPairs(s) && OneDoubled(s) && InPair(s, q)
    ensures InPair(s, Upper(s, q)) && (q == Upper(s, q) || q == Mirror(s, Upper(s, q)))
  {
    PointFacts(s, q);
    DoubledMeets(s.cx, s.nx);
    DoubledMeets(s.cy, s.ny);
    DoubledMeets(s.cz, s.nz);
    InPairExactlyBetween(s, Upper(s, q));
  }

  lemma UpperIsLast(s: Shape, q: Point, v: Point)
    requires HasPairs(s) && OneDoubled(s) && InPair(s, q) && InPair(s, v) && Before(Upper(s, q), v)
    ensures var p := Upper(s, q);
            v != p && Mirror(s, v) != p && v != Mirror(s, p) && Mirror(s, v) != Mirror(s, p)
  {
    var p := Upper(s, q);
    UpperInPair(s, q);
    PointFacts(s, p);
    PointFacts(s, q);
    PointFacts(s, v);
  }

  lemma OneDoubledIsIdempotent(abs: Complex -> real, s: Shape, f: Frame, q: Point)
    requires Magnitude(abs) && HasPairs(s) && OneDoubled(s) && Sized(s, f) && InPair(s, q)
    ensures IdempotentAt(abs, s, f, q)
  {
    var p := Upper(s, q);
    UpperInPair(s, q);
    forall v | InPair(s, v) && Before(p, v)
      ensures v != p && Mirror(s, v) != p && v != Mirror(s, p) && Mirror(s, v) != Mirror(s, p)
    {
      UpperIsLast(s, q, v);
    }
    LastForBothIsIdempotent(abs, s, f, p, q);
  }

  lemma KeptIsIdempotent(abs: Complex -> real, s: Shape, f: Frame, q: Point)
    requires Magnitude(abs) && KeepsAverage(s)
    ensures IdempotentAt(abs, s, f, q)
  {
    if Sized(s, f) && InRange(s, q) {
      var once := Done(abs, s, f, s.nx, 0, 0);
      if !InPair(s, q) {
        OthersStay(abs, s, f, q, s.nx, 0, 0, once);
        OthersStay(abs, s, once, q, s.nx, 0, 0, Done(abs, s, once, s.nx, 0, 0));
      } else if Fits(s) {
        DoneIsAverage(abs, s, f);
        DoneIsAverage(abs, s, once);
        AverageIsIdempotent(abs, s, f, once, Done(abs, s, once, s.nx, 0, 0), q);
      } else {
        InPairExactlyBetween(s, q);
        OneDoubledIsIdempotent(abs, s, f, q);
      }
    }
  }

  // ---------------------------------------------------------------- the condition is needed

  /** A pixel whose own visit is the last for it, with a partner that a visit r takes into another pair. */
  ghost predicate Torn(s: Shape, q: Point, r: Point) {
    InPair(s, q) && InPair(s, r) && Mirror(s, q) != q && LastFor(s, q, q) &&
    (Mirror(s, q) == r || Mirror(s, q) == Mirror(s, r)) && LastFor(s, r, Mirror(s, q)) &&
    q != r && q != Mirror(s, r)
  }

  /** Bright alone, such a pixel is halved by the first averaging and halved again by the second. */
  lemma TornIsHalvedTwice(abs: Complex -> real, s: Shape, q: Point, r: Point, once: Frame, twice: Frame)
    requires Magnitude(abs) && Torn(s, q, r)
    requires once == Done(abs, s, Spike(s, q), s.nx, 0, 0)
    requires twice == Done(abs, s, once, s.nx, 0, 0)
    ensures At(s, once, q) == Cell(Complex(0.5, 0.0), 1) && At(s, twice, q) == Cell(Complex(0.25, 0.0), 1)
  {
    var f, m := Spike(s, q), Mirror(s, q);
    LastVisitStays(abs, s, f, q, q, s.nx, 0, 0, once);
    LastVisitStays(abs, s, f, r, m, s.nx, 0, 0, once);
    LastVisitStays(abs, s, once, q, q, s.nx, 0, 0, twice);
    SpikeAt(s, q, q);
    SpikeAt(s, q, m);
    SpikeAt(s, q, r);
    SpikeAt(s, q, Mirror(s, r));
    Halves(abs);
  }

  lemma Halves(abs: Complex -> real)
    requires Magnitude(abs)
    ensures Averaged(abs, Cell(ONE, 1), Cell(ZERO, 1)) == Cell(Complex(0.5, 0.0), 1)
    ensures Averaged(abs, Cell(ZERO, 1), Cell(ZERO, 1)) == Cell(ZERO, 1)
    ensures Averaged(abs, Cell(Complex(0.5, 0.0), 1), Cell(ZERO, 1)) == Cell(Complex(0.25, 0.0), 1)
  {
    assert abs(Complex(0.0, 0.0)) == 0.0 && abs(Complex(1.0, 0.0)) == 1.0 && abs(Complex(0.5, 0.0)) == 0.5;
  }

  /** Nothing comes after the last pair. */
  lemma TopIsLast(s: Shape, q: Point)
    requires HasPairs(s)
    ensures LastFor(s, Top(s), q)
  {
    forall v | InPair(s, v) && Before(Top(s), v) ensures false {
      InPairExactlyBetween(s, v);
    }
  }

  /** One below the last coordinate of an axis that does not fit. */
  function Below(s: Shape): Point {
    if !CentreFits(s.cx, s.nx) then Top(s).(x := Highest(s.cx, s.nx) - 1)
    else if !CentreFits(s.cy, s.ny) then Top(s).(y := Highest(s.cy, s.ny) - 1)
    else Top(s).(z := Highest(s.cz, s.nz) - 1)
  }

  /** Along an axis, only the lowest coordinate or none is paired with the highest or the one below it. */
  lemma HighPartners(c: real, n: nat, x: int)
    requires Lowest(c, n) <= x <= Highest(c, n)
    ensures Mirrored(c, x) == Highest(c, n) ==> x == Lowest(c, n)
    ensures !CentreFits(c, n) ==> Mirrored(c, x) != Highest(c, n)
    ensures !CentreFits(c, n) && !Doubled(c, n) && Mirrored(c, x) == Highest(c, n) - 1 ==> x == Lowest(c, n)
  {
    MirroredIs(c, x);
  }

  /** A single axis does not fit, which pairs 0 and 1 with 0. */
  predicate SingleDoubled(s: Shape) {
    (Doubled(s.cx, s.nx) && CentreFits(s.cy, s.ny) && CentreFits(s.cz, s.nz)) ||
    (CentreFits(s.cx, s.nx) && Doubled(s.cy, s.ny) && CentreFits(s.cz, s.nz)) ||
    (CentreFits(s.cx, s.nx) && CentreFits(s.cy, s.ny) && Doubled(s.cz, s.nz))
  }

  lemma BelowMeetsBottom(s: Shape)
    requires HasPairs(s) && !Fits(s) && !SingleDoubled(s)
    ensures InPair(s, Below(s)) && Mirror(s, Below(s)) == Bottom(s)
    ensures Below(s) != Bottom(s) && Below(s) != Top(s)
  {
    TopMeetsBottom(s);
    EndsOfInterval(s.cx, s.nx);
    EndsOfInterval(s.cy, s.ny);
    EndsOfInterval(s.cz, s.nz);
    BelowHighest(s.cx, s.nx);
    BelowHighest(s.cy, s.ny);
    BelowHighest(s.cz, s.nz);
    InPairExactlyBetween(s, Below(s));
  }

  lemma BelowHighest(c: real, n: nat)
    requires Lowest(c, n) <= Highest(c, n)
    ensures !CentreFits(c, n) ==> Lowest(c, n) <= Highest(c, n) - 1 && Mirrored(c, Highest(c, n) - 1) == Lowest(c, n)
    ensures !CentreFits(c, n) && !Doubled(c, n) ==> Highest(c, n) - 1 != Lowest(c, n)
  {
    MirroredIs(c, Highest(c, n) - 1);
  }

  lemma BelowIsLast(s: Shape, v: Point)
    requires HasPairs(s) && !Fits(s) && !SingleDoubled(s) && InPair(s, v) && Before(Below(s), v)
    ensures v != Below(s) && Mirror(s, v) != Below(s)
  {
    InPairExactlyBetween(s, v);
    HighPartners(s.cx, s.nx, v.x);
    HighPartners(s.cy, s.ny, v.y);
    HighPartners(s.cz, s.nz, v.z);
    BelowMeetsBottom(s);
    InPairExactlyBetween(s, Below(s));
  }

  /** The last pixel but one along an axis that does not fit is torn, unless that is the only one and doubled. */
  lemma BelowIsTorn(s: Shape)
    requires HasPairs(s) && !Fits(s) && !SingleDoubled(s)
    ensures Torn(s, Below(s), Top(s))
  {
    BelowMeetsBottom(s);
    TopMeetsBottom(s);
    TopIsLast(s, Bottom(s));
    forall v | InPair(s, v) && Before(Below(s), v) ensures v != Below(s) && Mirror(s, v) != Below(s) {
      BelowIsLast(s, v);
    }
  }

  /** The first pixel moved to 1 along the doubled axis. */
  function Raised(s: Shape): Point {
    if Doubled(s.cx, s.nx) then Bottom(s).(x := 1)
    else if Doubled(s.cy, s.ny) then Bottom(s).(y := 1)
    else Bottom(s).(z := 1)
  }

  lemma RaisedFacts(s: Shape)
    requires HasPairs(s) && SingleDoubled(s)
    ensures InPair(s, Raised(s)) && Raised(s) != Bottom(s) && Raised(s) != Mirror(s, Raised(s))
    ensures Mirror(s, Mirror(s, Raised(s))) == Bottom(s)
  {
    TopMeetsBottom(s);
    InPairExactlyBetween(s, Bottom(s));
    PointFacts(s, Bottom(s));
    InPairExactlyBetween(s, Raised(s));
    PointFacts(s, Raised(s));
    MirrorInPair(s, Raised(s));
    PointFacts(s, Mirror(s, Raised(s)));
  }

  lemma RaisedIsLast(s: Shape, v: Point)
    requires HasPairs(s) && SingleDoubled(s) && InPair(s, v)
    ensures Before(Raised(s), v) ==> v != Raised(s) && Mirror(s, v) != Raised(s)
  {
    PointFacts(s, v);
  }

  lemma RaisedPartnerIsLast(s: Shape, v: Point)
    requires HasPairs(s) && SingleDoubled(s) && !OneDoubled(s) && InPair(s, v)
    ensures var r := Mirror(s, Raised(s)); Before(r, v) ==> v != r && Mirror(s, v) != r
  {
    RaisedFacts(s);
    PointFacts(s, v);
    PointFacts(s, Raised(s));
    AxisFacts(s.cx, s.nx, v.x);
    AxisFacts(s.cy, s.ny, v.y);
    AxisFacts(s.cz, s.nz, v.z);
    AxisFacts(s.cx, s.nx, Raised(s).x);
    AxisFacts(s.cy, s.ny, Raised(s).y);
    AxisFacts(s.cz, s.nz, Raised(s).z);
  }

  /** With a doubled axis inside a longer one, the raised pixel is torn. */
  lemma RaisedIsTorn(s: Shape)
    requires HasPairs(s) && SingleDoubled(s) && !OneDoubled(s)
    ensures Torn(s, Raised(s), Mirror(s, Raised(s)))
  {
    var q, r := Raised(s), Mirror(s, Raised(s));
    RaisedFacts(s);
    MirrorInPair(s, q);
    forall v | InPair(s, v) && Before(q, v) ensures v != q && Mirror(s, v) != q {
      RaisedIsLast(s, v);
    }
    forall v | InPair(s, v) && Before(r, v) ensures v != r && Mirror(s, v) != r {
      RaisedPartnerIsLast(s, v);
    }
  }

  lemma TornIsNotIdempotent(abs: Complex -> real, s: Shape, q: Point, r: Point)
    requires Magnitude(abs) && Torn(s, q, r)
    ensures !IdempotentAt(abs, s, Spike(s, q), q)
  {
    var once := Done(abs, s, Spike(s, q), s.nx, 0, 0);
    TornIsHalvedTwice(abs, s, q, r, once, Done(abs, s, once, s.nx, 0, 0));
  }

  /** In every other shape there is an image that averaging again changes. */
  lemma OtherwiseNotIdempotent(abs: Complex -> real, s: Shape)
    requires Magnitude(abs) && !KeepsAverage(s)
    ensures exists f, q :: !IdempotentAt(abs, s, f, q)
  {
    if SingleDoubled(s) {
      RaisedIsTorn(s);
      TornIsNotIdempotent(abs, s, Raised(s), Mirror(s, Raised(s)));
    } else {
      BelowIsTorn(s);
      TornIsNotIdempotent(abs, s, Below(s), Top(s));
    }
  }

  /** Averaging the averaged image changes nothing, for every image, exactly when no pixel has a partner, or the
      centre fits, or a single axis is doubled and the loops outside its own have a single coordinate to pair. */
  lemma IdempotentExactlyWhenKept(abs: Complex -> real, s: Shape)
    requires Magnitude(abs)
    ensures (forall f, q :: IdempotentAt(abs, s, f, q)) <==> KeepsAverage(s)
  {
    if KeepsAverage(s) {
      forall f, q ensures IdempotentAt(abs, s, f, q) {
        KeptIsIdempotent(abs, s, f, q);
      }
    } else {
      OtherwiseNotIdempotent(abs, s);
    }
  }

  /** A number splits into a multiple and a remainder, with bounds for both. */
  lemma Split(k: nat, step: nat, n: nat)
    requires k < n * step
    ensures step > 0 && 0 <= k / step < n && 0 <= k % step < step && k == k / step * step + k % step
  {
    TimesZero(n, step);
    QuotientBelow(k, step, n, k / step, k % step);
  }

  lemma QuotientBelow(k: nat, step: nat, n: nat, q: int, r: nat)
    requires k == q * step + r && k < n * step
    ensures q < n
  {
    assert (q - n) * step == q * step - n * step;
    NotNegative(q - n, step);
  }

  lemma TimesZero(n: nat, step: nat)
    ensures step == 0 ==> n * step == 0
  {
  }

  lemma NotNegative(d: int, step: nat)
    ensures d >= 0 ==> d * step >= 0
  {
  }

  /** Every place in the flat array belongs to a point. */
  lemma PointOfIndex(s: Shape, k: nat) returns (p: Point)
    requires k < Size(s)
    ensures InRange(s, p) && Index(s, p) == k
  {
    Split(k, s.nx, s.nz * s.ny);
    var row := k / s.nx;
    Split(row, s.ny, s.nz);
    p := Point(k % s.nx, row % s.ny, row / s.ny);
    RowIs(s, p);
  }

  lemma SamePixelsSameFrame(s: Shape, f: Frame, g: Frame)
    requires Sized(s, f) && Sized(s, g) && forall p :: InRange(s, p) ==> At(s, f, p) == At(s, g, p)
    ensures f == g
  {
    forall k: nat | k < Size(s) ensures f.image[k] == g.image[k] && f.mask[k] == g.mask[k] {
      var p := PointOfIndex(s, k);
      assert At(s, f, p) == At(s, g, p);
    }
  }

  ghost predicate Idempotent(abs: Complex -> real, s: Shape, f: Frame) {
    Sized(s, f) ==>
      var once := Done(abs, s, f, s.nx, 0, 0);
      Done(abs, s, once, s.nx, 0, 0) == once
  }

  /** The same about whole images. */
  lemma AgainIsOnceExactlyWhenKept(abs: Complex -> real, s: Shape)
    requires Magnitude(abs)
    ensures (forall f :: Idempotent(abs, s, f)) <==> KeepsAverage(s)
  {
    if KeepsAverage(s) {
      forall f ensures Idempotent(abs, s, f) {
        KeptIsIdempotentFrame(abs, s, f);
      }
    } else {
      OtherwiseNotIdempotent(abs, s);
      var f, q :| !IdempotentAt(abs, s, f, q);
      assert !Idempotent(abs, s, f);
    }
  }

  lemma KeptIsIdempotentFrame(abs: Complex -> real, s: Shape, f: Frame)
    requires Magnitude(abs) && KeepsAverage(s)
    ensures Idempotent(abs, s, f)
  {
    if Sized(s, f) {
      var once := Done(abs, s, f, s.nx, 0, 0);
      var twice := Done(abs, s, once, s.nx, 0, 0);
      forall q | InRange(s, q) ensures At(s, twice, q) == At(s, once, q) {
        KeptIsIdempotent(abs, s, f, q);
        assert IdempotentAt(abs, s, f, q);
      }
      SamePixelsSameFrame(s, twice, once);
    }
  }

  /** A symmetric average is always kept. */
  lemma SymmetricIsIdempotent(s: Shape)
    requires KeepsSymmetry(s)
    ensures KeepsAverage(s)
  {
  }

  // ---------------------------------------------------------------- one image

  lemma TripleIsHalvedTwice(abs: Complex -> real, s: Shape, f: Frame, once: Frame, twice: Frame)
    requires Magnitude(abs) && Triple(s) && !Fits(s) && !SingleDoubled(s) && Below(s) == Pixel(1)
    requires f == Frame([ZERO, ONE, ZERO], [1, 1, 1]) && Sized(s, f)
    requires once == Done(abs, s, f, s.nx, 0, 0) && twice == Done(abs, s, once, s.nx, 0, 0)
    ensures At(s, once, Pixel(1)) == Cell(Complex(0.5, 0.0), 1) && At(s, twice, Pixel(1)) == Cell(Complex(0.25, 0.0), 1)
  {
    SpikeOfThree(s, f, Pixel(1));
    BelowIsTorn(s);
    TornIsHalvedTwice(abs, s, Pixel(1), Top(s), once, twice);
  }

  lemma LineIsNotDoubled(s: Shape)
    requires s == LINE
    ensures Triple(s) && !Fits(s) && !SingleDoubled(s) && Below(s) == Pixel(1)
  {
    LineIsTriple();
    LineIsCrowded();
    assert (2.0 * 0.75).Floor == 1;
    assert Top(s) == Pixel(2);
  }

  /** Three pixels in a line with the centre at 3/4 and the middle one bright: it goes to a half, then to a
      quarter. */
  lemma LineIsHalvedTwice(abs: Complex -> real, s: Shape, f: Frame, once: Frame, twice: Frame)
    requires Magnitude(abs) && s == LINE && f == Frame([ZERO, ONE, ZERO], [1, 1, 1]) && Sized(s, f)
    requires once == Done(abs, s, f, s.nx, 0, 0) && twice == Done(abs, s, once, s.nx, 0, 0)
    ensures At(s, once, Pixel(1)) == Cell(Complex(0.5, 0.0), 1) && At(s, twice, Pixel(1)) == Cell(Complex(0.25, 0.0), 1)
  {
    LineIsNotDoubled(s);
    TripleIsHalvedTwice(abs, s, f, once, twice);
  }
}
