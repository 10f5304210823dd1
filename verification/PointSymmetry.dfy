/** Averaging an image with its mirror image in a point, pixel by pixel and in place. */
module PointSymmetry {
  import opened ComplexNumbers

  datatype Point = Point(x: int, y: int, z: int)

  /** The size of an image, and its centre. */
  datatype Shape = Shape(nx: nat, ny: nat, nz: nat, cx: real, cy: real, cz: real)

  predicate InRange(s: Shape, p: Point) {
    0 <= p.x < s.nx && 0 <= p.y < s.ny && 0 <= p.z < s.nz
  }

  // ---------------------------------------------------------------- mirrored coordinates

  /** Conversion to an integer cuts toward zero. */
  function Truncated(r: real): int {
    if r >= 0.0 then r.Floor else -(-r).Floor
  }

  function Mirrored(c: real, x: int): int {
    Truncated(2.0 * c - x as real)
  }

  function Mirror(s: Shape, p: Point): Point {
    Point(Mirrored(s.cx, p.x), Mirrored(s.cy, p.y), Mirrored(s.cz, p.z))
  }

  /** Twice the centre is integral, or no coordinate is cut toward zero from below. */
  predicate CentreFits(c: real, n: nat) {
    var f := (2.0 * c).Floor;
    f as real == 2.0 * c || f < 0 || f + 1 >= n
  }

  lemma MirroredIs(c: real, x: int)
    ensures var f := (2.0 * c).Floor;
            Mirrored(c, x) == if x <= f || f as real == 2.0 * c then f - x else f + 1 - x
  {
  }

  ghost predicate UndoneAt(c: real, n: nat, x: int) {
    0 <= x < n && 0 <= Mirrored(c, x) < n ==> Mirrored(c, Mirrored(c, x)) == x
  }

  /** Mirroring within an axis undoes itself exactly when the centre fits the axis. */
  lemma MirrorUndoneExactlyWhenCentreFits(c: real, n: nat)
    ensures (forall x :: UndoneAt(c, n, x)) <==> CentreFits(c, n)
  {
    var f := (2.0 * c).Floor;
    if CentreFits(c, n) {
      forall x ensures UndoneAt(c, n, x) {
        MirroredIs(c, x);
        MirroredIs(c, Mirrored(c, x));
      }
    } else {
      MirroredIs(c, f + 1);
      MirroredIs(c, 0);
      assert !UndoneAt(c, n, f + 1);
    }
  }

  ghost predicate Fits(s: Shape) {
    CentreFits(s.cx, s.nx) && CentreFits(s.cy, s.ny) && CentreFits(s.cz, s.nz)
  }

  lemma MirrorMirror(s: Shape, p: Point)
    requires Fits(s) && InRange(s, p) && InRange(s, Mirror(s, p))
    ensures Mirror(s, Mirror(s, p)) == p
  {
    MirrorUndoneExactlyWhenCentreFits(s.cx, s.nx);
    MirrorUndoneExactlyWhenCentreFits(s.cy, s.ny);
    MirrorUndoneExactlyWhenCentreFits(s.cz, s.nz);
    assert UndoneAt(s.cx, s.nx, p.x) && UndoneAt(s.cy, s.ny, p.y) && UndoneAt(s.cz, s.nz, p.z);
  }

  // ---------------------------------------------------------------- the flat arrays

  /** Where a row is in the image. */
  function Row(s: Shape, y: int, z: int): int {
    z * s.ny * s.nx + y * s.nx
  }

  function Index(s: Shape, p: Point): int {
    Row(s, p.y, p.z) + p.x
  }

  function Size(s: Shape): nat {
    s.nz * s.ny * s.nx
  }

  /** The first pixel is at 0, its neighbours are 1, a row and a plane further on. */
  lemma IndexOfNeighbours(s: Shape, p: Point)
    ensures Index(s, Point(0, 0, 0)) == 0
    ensures Index(s, p.(x := p.x + 1)) == Index(s, p) + 1
    ensures Index(s, p.(y := p.y + 1)) == Index(s, p) + s.nx
    ensures Index(s, p.(z := p.z + 1)) == Index(s, p) + s.ny * s.nx
  {
  }

  /** A number below the step is recovered from its multiple and remainder. */
  lemma DigitsUnique(step: nat, a: int, r: int, b: int, t: int)
    requires 0 <= r < step && 0 <= t < step && a * step + r == b * step + t
    ensures a == b && r == t
  {
    assert (a - b) * step == t - r;
    StepsApart(a - b, step);
  }

  lemma StepsApart(d: int, step: nat)
    ensures d >= 1 ==> d * step >= step
    ensures d <= -1 ==> d * step + step <= 0
  {
  }

  lemma StepsWithin(a: int, n: nat, step: nat, r: int)
    requires 0 <= a < n && 0 <= r < step
    ensures 0 <= a * step + r < n * step
  {
    StepsApart(n - a, step);
    assert (n - a) * step == n * step - a * step;
  }

  lemma IndexInside(s: Shape, p: Point)
    requires InRange(s, p)
    ensures 0 <= Index(s, p) < Size(s)
  {
    StepsWithin(p.z, s.nz, s.ny, p.y);
    StepsWithin(p.z * s.ny + p.y, s.nz * s.ny, s.nx, p.x);
    RowIs(s, p);
  }

  lemma RowIs(s: Shape, p: Point)
    ensures Index(s, p) == (p.z * s.ny + p.y) * s.nx + p.x
  {
  }

  lemma IndexInjective(s: Shape, p: Point, q: Point)
    requires InRange(s, p) && InRange(s, q) && Index(s, p) == Index(s, q)
    ensures p == q
  {
    RowIs(s, p);
    RowIs(s, q);
    DigitsUnique(s.nx, p.z * s.ny + p.y, p.x, q.z * s.ny + q.y, q.x);
    DigitsUnique(s.ny, p.z, p.y, q.z, q.y);
  }

  // ---------------------------------------------------------------- averaging

  /** A pixel and whether it was measured. */
  datatype Cell = Cell(value: Complex, mask: int)

  /** The two arrays of an image. */
  datatype Frame = Frame(image: seq<Complex>, mask: seq<int>)

  ghost predicate Magnitude(abs: Complex -> real) {
    (forall z :: abs(z) >= 0.0) &&
    forall r: real {:trigger Complex(r, 0.0)} :: r >= 0.0 ==> abs(Complex(r, 0.0)) == r
  }

  /** The mean of the magnitudes of whatever is measured of a pair. */
  function Averaged(abs: Complex -> real, a: Cell, b: Cell): Cell {
    var den := (if a.mask != 0 then 1 else 0) + (if b.mask != 0 then 1 else 0);
    var num := (if a.mask != 0 then abs(a.value) else 0.0) + (if b.mask != 0 then abs(b.value) else 0.0);
    if den == 2 then Cell(Complex(num / 2.0, 0.0), 1)
    else if den == 1 then Cell(Complex(num, 0.0), 1)
    else Cell(ZERO, 0)
  }

  /** What a pair becomes: the mean magnitude when both are measured, the one magnitude when one is, nothing when
      neither is; measured exactly when either was. */
  lemma AverageOfMeasured(abs: Complex -> real, a: Cell, b: Cell)
    ensures var c := Averaged(abs, a, b);
            c.value.im == 0.0 && (c.mask == 1 || c.mask == 0) && (c.mask == 1 <==> a.mask != 0 || b.mask != 0) &&
            (a.mask != 0 && b.mask != 0 ==> 2.0 * c.value.re == abs(a.value) + abs(b.value)) &&
            (a.mask != 0 && b.mask == 0 ==> c.value.re == abs(a.value)) &&
            (a.mask == 0 && b.mask != 0 ==> c.value.re == abs(b.value)) &&
            (a.mask == 0 && b.mask == 0 ==> c.value.re == 0.0)
  {
  }

  ghost predicate Sized(s: Shape, f: Frame) {
    |f.image| == |f.mask| == Size(s)
  }

  ghost function At(s: Shape, f: Frame, p: Point): Cell
    requires Sized(s, f) && InRange(s, p)
  {
    IndexInside(s, p);
    Cell(f.image[Index(s, p)], f.mask[Index(s, p)])
  }

  /** What a pixel must become: the average with its partner, when it has one. */
  ghost function Target(abs: Complex -> real, s: Shape, f: Frame, p: Point): Cell
    requires Sized(s, f) && InRange(s, p)
  {
    if InRange(s, Mirror(s, p)) then Averaged(abs, At(s, f, p), At(s, f, Mirror(s, p))) else At(s, f, p)
  }

  ghost predicate IsAverage(abs: Complex -> real, s: Shape, f: Frame, out: Frame)
    requires Sized(s, f) && Sized(s, out)
  {
    forall p :: InRange(s, p) ==> At(s, out, p) == Target(abs, s, f, p)
  }

  /** The averaged image and mask are symmetric in the centre. */
  lemma AverageIsSymmetric(abs: Complex -> real, s: Shape, f: Frame, out: Frame, p: Point)
    requires Fits(s) && Sized(s, f) && Sized(s, out) && IsAverage(abs, s, f, out)
    requires InRange(s, p) && InRange(s, Mirror(s, p))
    ensures At(s, out, Mirror(s, p)) == At(s, out, p)
  {
    MirrorMirror(s, p);
  }

  /** Pixels without a partner keep what they had. */
  lemma AverageKeepsTheRest(abs: Complex -> real, s: Shape, f: Frame, out: Frame, p: Point)
    requires Sized(s, f) && Sized(s, out) && IsAverage(abs, s, f, out)
    requires InRange(s, p) && !InRange(s, Mirror(s, p))
    ensures At(s, out, p) == At(s, f, p)
  {
  }

  lemma AveragedAgain(abs: Complex -> real, a: Cell, b: Cell)
    requires Magnitude(abs)
    ensures Averaged(abs, Averaged(abs, a, b), Averaged(abs, a, b)) == Averaged(abs, a, b)
  {
  }

  /** Averaging again changes nothing. */
  lemma AverageIsIdempotent(abs: Complex -> real, s: Shape, f: Frame, out: Frame, again: Frame, p: Point)
    requires Fits(s) && Magnitude(abs) && Sized(s, f) && Sized(s, out) && Sized(s, again)
    requires IsAverage(abs, s, f, out) && IsAverage(abs, s, out, again) && InRange(s, p)
    ensures At(s, again, p) == At(s, out, p)
  {
    if InRange(s, Mirror(s, p)) {
      MirrorMirror(s, p);
      AverageIsSymmetric(abs, s, f, out, p);
      AveragedAgain(abs, At(s, f, p), At(s, f, Mirror(s, p)));
    }
  }

  // ---------------------------------------------------------------- the loops

  /** The order in which the loops come to the points. */
  predicate Before(p: Point, q: Point) {
    p.x < q.x || (p.x == q.x && (p.y < q.y || (p.y == q.y && p.z < q.z)))
  }

  ghost predicate Untouched(abs: Complex -> real, s: Shape, f: Frame, out: Frame, p: Point)
    requires Sized(s, f) && Sized(s, out) && InRange(s, p)
  {
    At(s, out, p) == At(s, f, p) || At(s, out, p) == Target(abs, s, f, p)
  }

  /** Every pixel is as it was or as it must be, and those before the point are as they must be. */
  ghost predicate DoneBefore(abs: Complex -> real, s: Shape, f: Frame, out: Frame, point: Point) {
    Sized(s, f) && Sized(s, out) &&
    (forall p :: InRange(s, p) ==> Untouched(abs, s, f, out, p)) &&
    (forall p :: InRange(s, p) && Before(p, point) ==> At(s, out, p) == Target(abs, s, f, p))
  }

  /** Points without a partner may be passed over. */
  lemma PassOver(abs: Complex -> real, s: Shape, f: Frame, out: Frame, from: Point, to: Point)
    requires DoneBefore(abs, s, f, out, from)
    requires forall p :: InRange(s, p) && Before(p, to) && !Before(p, from) ==> !InRange(s, Mirror(s, p))
    ensures DoneBefore(abs, s, f, out, to)
  {
    forall p | InRange(s, p) && Before(p, to) ensures At(s, out, p) == Target(abs, s, f, p) {
      assert Untouched(abs, s, f, out, p);
    }
  }

  /** The frame after a pair has been written. */
  ghost function Paired(f: Frame, i: nat, j: nat, c: Cell): Frame
    requires i < |f.image| == |f.mask| && j < |f.image|
  {
    Frame(f.image[i := c.value][j := c.value], f.mask[i := c.mask][j := c.mask])
  }

  lemma IndicesApart(s: Shape, p: Point, q: Point)
    requires InRange(s, p) && InRange(s, q)
    ensures Index(s, p) == Index(s, q) <==> p == q
  {
    if Index(s, p) == Index(s, q) {
      IndexInjective(s, p, q);
    }
  }

  lemma PairedAtIndex(f: Frame, i: nat, j: nat, c: Cell, k: nat)
    requires i < |f.image| == |f.mask| && j < |f.image| && k < |f.image|
    ensures |Paired(f, i, j, c).image| == |Paired(f, i, j, c).mask| == |f.image|
    ensures Cell(Paired(f, i, j, c).image[k], Paired(f, i, j, c).mask[k]) ==
            if k == i || k == j then c else Cell(f.image[k], f.mask[k])
  {
  }

  lemma PairedAt(s: Shape, f: Frame, p: Point, m: Point, c: Cell, q: Point, i: nat, j: nat)
    requires Sized(s, f) && InRange(s, p) && InRange(s, m) && InRange(s, q)
    requires i == Index(s, p) && j == Index(s, m) && i < Size(s) && j < Size(s)
    ensures At(s, Paired(f, i, j, c), q) == if q == p || q == m then c else At(s, f, q)
  {
    IndexInside(s, q);
    IndicesApart(s, q, p);
    IndicesApart(s, q, m);
    PairedAtIndex(f, i, j, c, Index(s, q));
  }

  lemma PairIsDone(abs: Complex -> real, s: Shape, f: Frame, out: Frame, p: Point, next: Frame, i: nat, j: nat)
    requires Fits(s) && DoneBefore(abs, s, f, out, p) && InRange(s, p) && InRange(s, Mirror(s, p))
    requires i == Index(s, p) && j == Index(s, Mirror(s, p)) && i < Size(s) && j < Size(s)
    requires next == Paired(out, i, j, Target(abs, s, f, p))
    ensures DoneBefore(abs, s, f, next, Point(p.x, p.y, p.z + 1))
  {
    var m := Mirror(s, p);
    MirrorMirror(s, p);
    forall q | InRange(s, q)
      ensures At(s, next, q) == if q == p || q == m then Target(abs, s, f, q) else At(s, out, q)
    {
      PairedAt(s, out, p, m, Target(abs, s, f, p), q, i, j);
    }
    forall q | InRange(s, q) ensures Untouched(abs, s, f, next, q) {
      assert Untouched(abs, s, f, out, q);
    }
  }

  /** One visit of the innermost loop. */
  ghost function Visit(abs: Complex -> real, s: Shape, f: Frame, out: Frame, p: Point): (next: Frame)
    requires Sized(s, f) && Sized(s, out) && InRange(s, p)
    ensures Sized(s, next)
  {
    if InRange(s, Mirror(s, p)) then
      IndexInside(s, p);
      IndexInside(s, Mirror(s, p));
      Paired(out, Index(s, p), Index(s, Mirror(s, p)), Target(abs, s, f, p))
    else out
  }

  /** The frame when the loops come to a point, for any centre: later visits overwrite earlier ones. */
  ghost function Done(abs: Complex -> real, s: Shape, f: Frame, x: nat, y: nat, z: nat): (out: Frame)
    requires Sized(s, f) && x <= s.nx && y <= s.ny && z <= s.nz
    requires (x == s.nx ==> y == 0) && (x == s.nx || y == s.ny ==> z == 0)
    ensures Sized(s, out)
    decreases x, y, z
  {
    if z > 0 then Visit(abs, s, f, Done(abs, s, f, x, y, z - 1), Point(x, y, z - 1))
    else if y > 0 then Done(abs, s, f, x, y - 1, s.nz)
    else if x > 0 then Done(abs, s, f, x - 1, s.ny, 0)
    else f
  }

  lemma {:induction false} NoPartnerInLine(abs: Complex -> real, s: Shape, f: Frame, x: nat, y: nat, z: nat)
    requires Sized(s, f) && x < s.nx && y < s.ny && z <= s.nz
    requires !(0 <= Mirrored(s.cx, x) < s.nx) || !(0 <= Mirrored(s.cy, y) < s.ny)
    ensures Done(abs, s, f, x, y, z) == Done(abs, s, f, x, y, 0)
  {
    if z > 0 {
      NoPartnerInLine(abs, s, f, x, y, z - 1);
    }
  }

  lemma {:induction false} NoPartnerInPlane(abs: Complex -> real, s: Shape, f: Frame, x: nat, y: nat)
    requires Sized(s, f) && x < s.nx && y <= s.ny && !(0 <= Mirrored(s.cx, x) < s.nx)
    ensures Done(abs, s, f, x, y, 0) == Done(abs, s, f, x, 0, 0)
  {
    if y > 0 {
      NoPartnerInLine(abs, s, f, x, y - 1, s.nz);
      NoPartnerInPlane(abs, s, f, x, y - 1);
    }
  }

  lemma VisitIsDone(abs: Complex -> real, s: Shape, f: Frame, out: Frame, p: Point, next: Frame)
    requires Fits(s) && DoneBefore(abs, s, f, out, p) && InRange(s, p) && next == Visit(abs, s, f, out, p)
    ensures DoneBefore(abs, s, f, next, Point(p.x, p.y, p.z + 1))
  {
    if InRange(s, Mirror(s, p)) {
      IndexInside(s, p);
      IndexInside(s, Mirror(s, p));
      PairIsDone(abs, s, f, out, p, next, Index(s, p), Index(s, Mirror(s, p)));
    } else {
      PassOver(abs, s, f, out, p, Point(p.x, p.y, p.z + 1));
    }
  }

  lemma NextLine(abs: Complex -> real, s: Shape, f: Frame, out: Frame, x: int, y: int)
    requires DoneBefore(abs, s, f, out, Point(x, y, s.nz))
    ensures DoneBefore(abs, s, f, out, Point(x, y + 1, 0))
  {
    PassOver(abs, s, f, out, Point(x, y, s.nz), Point(x, y + 1, 0));
  }

  lemma NextPlane(abs: Complex -> real, s: Shape, f: Frame, out: Frame, x: int)
    requires DoneBefore(abs, s, f, out, Point(x, s.ny, 0))
    ensures DoneBefore(abs, s, f, out, Point(x + 1, 0, 0))
  {
    PassOver(abs, s, f, out, Point(x, s.ny, 0), Point(x + 1, 0, 0));
  }

  /** When the centre fits, writing each pair twice does no harm. */
  lemma {:induction false} DoneIsDone(abs: Complex -> real, s: Shape, f: Frame, x: nat, y: nat, z: nat, out: Frame)
    requires Fits(s) && Sized(s, f) && x <= s.nx && y <= s.ny && z <= s.nz
    requires (x == s.nx ==> y == 0) && (x == s.nx || y == s.ny ==> z == 0)
    requires out == Done(abs, s, f, x, y, z)
    ensures DoneBefore(abs, s, f, out, Point(x, y, z))
    decreases x, y, z
  {
    if z > 0 {
      var before := Done(abs, s, f, x, y, z - 1);
      DoneIsDone(abs, s, f, x, y, z - 1, before);
      VisitIsDone(abs, s, f, before, Point(x, y, z - 1), out);
    } else if y > 0 {
      DoneIsDone(abs, s, f, x, y - 1, s.nz, out);
      NextLine(abs, s, f, out, x, y - 1);
    } else if x > 0 {
      DoneIsDone(abs, s, f, x - 1, s.ny, 0, out);
      NextPlane(abs, s, f, out, x - 1);
    } else {
      NothingBefore(abs, s, f);
    }
  }

  lemma NothingBefore(abs: Complex -> real, s: Shape, f: Frame)
    requires Sized(s, f)
    ensures DoneBefore(abs, s, f, f, Point(0, 0, 0))
  {
  }

  /** When the centre fits, the loops leave the average of every original pair. */
  lemma DoneIsAverage(abs: Complex -> real, s: Shape, f: Frame)
    requires Fits(s) && Sized(s, f)
    ensures IsAverage(abs, s, f, Done(abs, s, f, s.nx, 0, 0))
  {
    DoneIsDone(abs, s, f, s.nx, 0, 0, Done(abs, s, f, s.nx, 0, 0));
  }

  // ---------------------------------------------------------------- a centre that does not fit

  /** A visit writes the pair's average to both of its pixels and to no other. */
  lemma VisitAt(abs: Complex -> real, s: Shape, f: Frame, out: Frame, p: Point, q: Point)
    requires Sized(s, f) && Sized(s, out) && InRange(s, p) && InRange(s, Mirror(s, p)) && InRange(s, q)
    ensures At(s, Visit(abs, s, f, out, p), q) ==
            if q == p || q == Mirror(s, p) then Averaged(abs, At(s, f, p), At(s, f, Mirror(s, p))) else At(s, out, q)
  {
    IndexInside(s, p);
    IndexInside(s, Mirror(s, p));
    PairedAt(s, out, p, Mirror(s, p), Target(abs, s, f, p), q, Index(s, p), Index(s, Mirror(s, p)));
  }

  /** Two pixels with the same mirror point: the later visit overwrites what they share. */
  lemma LaterVisitWins(abs: Complex -> real, s: Shape, f: Frame, one: Frame, two: Frame, out: Frame,
                       a: Point, b: Point, c: Point)
    requires Sized(s, f) && Sized(s, one) && Sized(s, two) && Sized(s, out)
    requires InRange(s, a) && InRange(s, b) && InRange(s, c) && a != b && b != c
    requires Mirror(s, b) == a && Mirror(s, c) == a
    requires two == Visit(abs, s, f, one, b) && out == Visit(abs, s, f, two, c)
    ensures At(s, out, a) == Averaged(abs, At(s, f, c), At(s, f, a))
    ensures At(s, out, b) == Averaged(abs, At(s, f, b), At(s, f, a))
  {
    VisitAt(abs, s, f, one, b, b);
    VisitAt(abs, s, f, two, c, a);
    VisitAt(abs, s, f, two, c, b);
  }

  /** Three pixels in a line, with a centre at 3/4. */
  const LINE := Shape(3, 1, 1, 0.75, 0.0, 0.0)

  function Pixel(x: int): Point {
    Point(x, 0, 0)
  }

  lemma LineMirrors()
    ensures Mirror(LINE, Pixel(0)) == Pixel(1) && Mirror(LINE, Pixel(1)) == Pixel(0)
    ensures Mirror(LINE, Pixel(2)) == Pixel(0)
  {
    MirroredIs(0.75, 0);
    MirroredIs(0.75, 1);
    MirroredIs(0.75, 2);
    MirroredIs(0.0, 0);
    assert (2.0 * 0.75).Floor == 1 && (2.0 * 0.0).Floor == 0;
  }

  lemma LineIsCrowded()
    ensures !CentreFits(LINE.cx, LINE.nx) && Crowded(LINE)
  {
    LineMirrors();
    assert (2.0 * 0.75).Floor == 1;
  }

  lemma LineStep(abs: Complex -> real, s: Shape, f: Frame, x: nat, p: Point, from: Frame, to: Frame)
    requires s.ny == 1 && s.nz == 1 && x < s.nx && Sized(s, f) && p == Pixel(x)
    requires from == Done(abs, s, f, x, 0, 0) && to == Done(abs, s, f, x + 1, 0, 0)
    ensures to == Visit(abs, s, f, from, p)
  {
    assert Done(abs, s, f, x + 1, 0, 0) == Done(abs, s, f, x, 1, 0);
    assert Done(abs, s, f, x, 1, 0) == Done(abs, s, f, x, 0, 1);
  }

  /** A line whose last two pixels have the same mirror point, neither of them. */
  ghost predicate Crowded(s: Shape) {
    s.nx >= 2 && s.ny == 1 && s.nz == 1 &&
    var a := Mirror(s, Pixel(s.nx - 1));
    Mirror(s, Pixel(s.nx - 2)) == a && InRange(s, a) && a != Pixel(s.nx - 1) && a != Pixel(s.nx - 2)
  }

  /** The visit of the last pixel takes the mirror point away from the one before: the two averages belong
      to different pairs. */
  lemma LaterPairWins(abs: Complex -> real, s: Shape, f: Frame, out: Frame)
    requires Crowded(s) && Sized(s, f) && out == Done(abs, s, f, s.nx, 0, 0)
    ensures var a, b, c := Mirror(s, Pixel(s.nx - 1)), Pixel(s.nx - 2), Pixel(s.nx - 1);
            At(s, out, a) == Averaged(abs, At(s, f, c), At(s, f, a)) &&
            At(s, out, b) == Averaged(abs, At(s, f, b), At(s, f, a))
  {
    var one, two := Done(abs, s, f, s.nx - 2, 0, 0), Done(abs, s, f, s.nx - 1, 0, 0);
    var a, b, c := Mirror(s, Pixel(s.nx - 1)), Pixel(s.nx - 2), Pixel(s.nx - 1);
    LineStep(abs, s, f, s.nx - 2, b, one, two);
    LineStep(abs, s, f, s.nx - 1, c, two, out);
    LaterVisitWins(abs, s, f, one, two, out, a, b, c);
  }

  // ---------------------------------------------------------------- the program

  method CentrosymetryAverage(abs: Complex -> real, s: Shape, image: array<Complex>, mask: array<int>)
    returns (outImage: array<Complex>, outMask: array<int>)
    requires image.Length == mask.Length == Size(s)
    ensures fresh(outImage) && fresh(outMask)
    ensures Frame(outImage[..], outMask[..]) == Done(abs, s, Frame(image[..], mask[..]), s.nx, 0, 0)
  {
    outImage := new Complex[image.Length](k requires 0 <= k < image.Length reads image => image[k]);
    outMask := new int[mask.Length](k requires 0 <= k < mask.Length reads mask => mask[k]);
    ghost var f := Frame(image[..], mask[..]);
    assert Frame(outImage[..], outMask[..]) == f;
    for x := 0 to s.nx
      invariant image[..] == f.image && mask[..] == f.mask
      invariant Frame(outImage[..], outMask[..]) == Done(abs, s, f, x, 0, 0)
    {
      var xs := Mirrored(s.cx, x);
      if 0 <= xs < s.nx {
        for y := 0 to s.ny
          invariant image[..] == f.image && mask[..] == f.mask
          invariant Frame(outImage[..], outMask[..]) == Done(abs, s, f, x, y, 0)
        {
          var ys := Mirrored(s.cy, y);
          if 0 <= ys < s.ny {
            for z := 0 to s.nz
              invariant image[..] == f.image && mask[..] == f.mask
              invariant Frame(outImage[..], outMask[..]) == Done(abs, s, f, x, y, z)
            {
              var zs := Mirrored(s.cz, z);
              if 0 <= zs < s.nz {
                VisitPair(abs, s, image, mask, outImage, outMask, Point(x, y, z), Point(xs, ys, zs));
              }
            }
          } else {
            NoPartnerInLine(abs, s, f, x, y, s.nz);
          }
        }
      } else {
        NoPartnerInPlane(abs, s, f, x, s.ny);
      }
    }
  }

  method FlatIndex(s: Shape, p: Point) returns (i: nat)
    requires InRange(s, p)
    ensures i == Index(s, p) && i < Size(s)
  {
    IndexInside(s, p);
    i := p.z * s.ny * s.nx + p.y * s.nx + p.x;
  }

  /** The innermost step, on a pixel and its partner. */
  method VisitPair(abs: Complex -> real, s: Shape, image: array<Complex>, mask: array<int>,
                   outImage: array<Complex>, outMask: array<int>, p: Point, m: Point)
    requires image.Length == mask.Length == outImage.Length == outMask.Length == Size(s)
    requires InRange(s, p) && m == Mirror(s, p) && InRange(s, m)
    requires outImage != image && outMask != mask
    modifies outImage, outMask
    ensures Frame(outImage[..], outMask[..]) ==
            Visit(abs, s, Frame(image[..], mask[..]), old(Frame(outImage[..], outMask[..])), p)
  {
    var i := FlatIndex(s, p);
    var j := FlatIndex(s, m);
    AveragePair(abs, image, mask, outImage, outMask, i, j);
  }

  method AveragePair(abs: Complex -> real, image: array<Complex>, mask: array<int>,
                     outImage: array<Complex>, outMask: array<int>, i: nat, j: nat)
    requires i < image.Length == mask.Length == outImage.Length == outMask.Length && j < image.Length
    requires outImage != image && outMask != mask
    modifies outImage, outMask
    ensures Frame(outImage[..], outMask[..]) ==
            Paired(old(Frame(outImage[..], outMask[..])), i, j,
                   Averaged(abs, Cell(image[i], mask[i]), Cell(image[j], mask[j])))
  {
    var den, num := 0, 0.0;
    if mask[i] != 0 {
      den := den + 1;
      num := num + abs(image[i]);
    }
    if mask[j] != 0 {
      den := den + 1;
      num := num + abs(image[j]);
    }
    ghost var c := Averaged(abs, Cell(image[i], mask[i]), Cell(image[j], mask[j]));
    if den != 0 {
      assert den as real == (if den == 2 then 2.0 else 1.0);
      assert Cell(Complex(num / den as real, 0.0), 1) == c;
      outImage[i] := Complex(num / den as real, 0.0);
      outMask[i] := 1;
      outImage[j] := Complex(num / den as real, 0.0);
      outMask[j] := 1;
    } else {
      outImage[i] := ZERO;
      outMask[i] := 0;
      outImage[j] := ZERO;
      outMask[j] := 0;
    }
  }
}
