/** Image buffers on the heap, and the operators that overwrite them in place. */
module ImageBuffers {
  import opened ComplexNumbers
  import opened Operators
  import opened Machine

  /** What a token of the program holds: an image buffer, a number or an error. */
  datatype Cell = Buffer(a: array<Pixel>) | Number(z: Complex) | Failure(error: Error)

  ghost function Buffers(cs: seq<Cell>): set<object> {
    set i | 0 <= i < |cs| && cs[i].Buffer? :: cs[i].a
  }

  /** No two cells hold the same buffer. */
  ghost predicate Separate(cs: seq<Cell>) {
    forall i, j :: 0 <= i < j < |cs| && cs[i].Buffer? && cs[j].Buffer? ==> cs[i].a != cs[j].a
  }

  ghost predicate SameSize(cs: seq<Cell>, size: nat) {
    forall i :: 0 <= i < |cs| && cs[i].Buffer? ==> cs[i].a.Length == size
  }

  /** The value a cell has in the current heap. */
  ghost function View(c: Cell): Value
    reads if c.Buffer? then {c.a} else {}
  {
    match c
    case Buffer(a) => Image(a[..])
    case Number(z) => Scalar(z)
    case Failure(error) => Bad(error)
  }

  /** The cells have these values in the current heap. */
  ghost predicate Views(cs: seq<Cell>, vs: seq<Value>)
    reads Buffers(cs)
  {
    |vs| == |cs| &&
    forall i :: 0 <= i < |cs| ==>
      (cs[i].Buffer? ==> cs[i].a in Buffers(cs)) && vs[i] == View(cs[i])
  }

  // ---------------------------------------------------------------- pixel loops

  method MapInPlace(a: array<Pixel>, f: Complex -> Complex)
    modifies a
    ensures a[..] == MapPixels(f, old(a[..]))
  {
    for i := 0 to a.Length
      invariant forall k :: 0 <= k < i ==> a[k] == old(a[k]).(z := f(old(a[k].z)))
      invariant forall k :: i <= k < a.Length ==> a[k] == old(a[k])
    {
      a[i] := a[i].(z := f(a[i].z));
    }
  }

  /** Two images of one size: the result goes to the second for some operators and to the first for others. */
  method ZipInPlace(n: Name, s: array<Pixel>, t: array<Pixel>) returns (kept: array<Pixel>)
    requires s != t && s.Length == t.Length
    modifies s, t
    ensures kept == if KeepsSecond(n) then t else s
    ensures Image(kept[..]) == Zip(n, Image(old(s[..])), Image(old(t[..])))
  {
    if KeepsSecond(n) {
      for i := 0 to t.Length
        invariant forall k :: 0 <= k < i ==> t[k] == old(t[k]).(z := OnPair(n, old(s[k].z), old(t[k].z)))
        invariant forall k :: i <= k < t.Length ==> t[k] == old(t[k])
        invariant s[..] == old(s[..])
      {
        t[i] := t[i].(z := OnPair(n, s[i].z, t[i].z));
      }
      kept := t;
    } else {
      for i := 0 to s.Length
        invariant forall k :: 0 <= k < i ==> s[k] == old(s[k]).(z := OnPair(n, old(s[k].z), old(t[k].z)))
        invariant forall k :: i <= k < s.Length ==> s[k] == old(s[k])
        invariant t[..] == old(t[..])
      {
        s[i] := s[i].(z := OnPair(n, s[i].z, t[i].z));
      }
      kept := s;
    }
  }

  /** A copy of an image in a buffer of its own. */
  method Duplicate(a: array<Pixel>) returns (r: array<Pixel>)
    ensures fresh(r) && r[..] == a[..]
  {
    r := new Pixel[a.Length](i requires 0 <= i < a.Length reads a => a[i]);
  }

  /** The position operators overwrite the pixels and leave the mask. */
  method PositionInPlace(lib: Library, n: Name, a: array<Pixel>)
    requires n in {PositionX, PositionY, PositionZ}
    modifies a
    ensures a[..] == WholeImage(lib, n, old(a[..]))
  {
    for i := 0 to a.Length
      invariant forall k :: 0 <= k < i ==> a[k] == old(a[k]).(z := Complex(lib.position(n, a.Length, k), 0.0))
      invariant forall k :: i <= k < a.Length ==> a[k] == old(a[k])
    {
      a[i] := a[i].(z := Complex(lib.position(n, a.Length, i), 0.0));
    }
  }

  /** The transforms make a new image and then set its mask; the mask operator makes a new image. */
  method NewImage(lib: Library, n: Name, a: array<Pixel>) returns (b: array<Pixel>)
    requires n in {Mask, FourierTransform, InverseFourierTransform}
    ensures fresh(b) && b[..] == WholeImage(lib, n, a[..])
  {
    var s := a[..];
    if n == Mask {
      b := new Pixel[|s|](i requires 0 <= i < |s| => lib.maskImage(s, i));
    } else {
      b := new Pixel[|s|](i requires 0 <= i < |s| => Pixel(lib.transform(n, s, i), s[i].mask));
      for i := 0 to b.Length
        invariant forall k :: 0 <= k < i ==> b[k] == Pixel(lib.transform(n, s, k), 1)
        invariant forall k :: i <= k < b.Length ==> b[k].z == lib.transform(n, s, k)
      {
        b[i] := b[i].(mask := 1);
      }
    }
  }

  // ---------------------------------------------------------------- operators on cells

  method UnaryInPlace(lib: Library, n: Name, c: Cell) returns (r: Cell)
    requires !c.Failure?
    modifies if c.Buffer? then {c.a} else {}
    ensures View(r) == Unary(lib, n, old(View(c)))
    ensures r.Buffer? ==> r == c || fresh(r.a)
    ensures r.Buffer? && c.Buffer? ==> r.a.Length == c.a.Length
  {
    match c {
      case Buffer(a) =>
        r := c;
        if Pointwise(n) {
          MapInPlace(a, x => OnComplex(lib, n, x));
        } else if n in {PositionX, PositionY, PositionZ} {
          PositionInPlace(lib, n, a);
        } else if NeedsImage(n) {
          var b := NewImage(lib, n, a);
          r := Buffer(b);
        } else if n == ComplexArgument {
          MapInPlace(a, x => Complex(lib.carg(x), 0.0));
        } else if n == Integrate {
          r := Number(lib.integrate(a[..]));
        }
      case Number(z) =>
        r := c;
        if Pointwise(n) {
          r := Number(OnComplex(lib, n, z));
        } else if NeedsImage(n) {
          r := Failure(ImagesOnly(n));
        } else if n == ComplexArgument {
          r := Number(Complex(lib.carg(z), z.im));
        }
    }
  }

  /** The buffers of two operands. */
  ghost function Owned(x: Cell, y: Cell): set<object> {
    (if x.Buffer? then {x.a} else {}) + (if y.Buffer? then {y.a} else {})
  }

  /** Two operands of one size that share nothing. */
  ghost predicate Compatible(x: Cell, y: Cell) {
    !x.Failure? && !y.Failure? && (x.Buffer? && y.Buffer? ==> x.a != y.a && x.a.Length == y.a.Length)
  }

  /** The four ways an image or a number meets another. */
  method ZipCells(n: Name, x: Cell, y: Cell) returns (r: Cell)
    requires Compatible(x, y)
    modifies Owned(x, y)
    ensures View(r) == Zip(n, old(View(x)), old(View(y)))
    ensures r.Buffer? ==> r == x || r == y
  {
    match (x, y) {
      case (Buffer(s), Buffer(t)) =>
        var kept := ZipInPlace(n, s, t);
        r := Buffer(kept);
      case (Buffer(s), Number(c)) =>
        MapInPlace(s, z => OnPair(n, z, c));
        r := x;
      case (Number(c), Buffer(t)) =>
        MapInPlace(t, z => OnPair(n, c, z));
        r := y;
      case (Number(c), Number(d)) =>
        r := Number(OnPair(n, c, d));
    }
  }

  /** Negates an operand where it stands. */
  method OppositeInPlace(y: Cell) returns (r: Cell)
    requires !y.Failure?
    modifies if y.Buffer? then {y.a} else {}
    ensures View(r) == Opposite(old(View(y))) && !r.Failure? && (r.Buffer? <==> y.Buffer?)
    ensures r.Buffer? ==> r == y
  {
    match y {
      case Buffer(t) =>
        MapInPlace(t, z => Scale(-1.0, z));
        r := y;
      case Number(z) =>
        r := Number(Times(z, MINUS_ONE));
    }
  }

  /** Inverts an operand where it stands. */
  method ReciprocalInPlace(lib: Library, y: Cell) returns (r: Cell)
    requires !y.Failure?
    modifies if y.Buffer? then {y.a} else {}
    ensures View(r) == Reciprocal(lib, old(View(y))) && !r.Failure? && (r.Buffer? <==> y.Buffer?)
    ensures r.Buffer? ==> r == y
  {
    match y {
      case Buffer(t) =>
        MapInPlace(t, lib.invert);
        r := y;
      case Number(z) =>
        r := Number(Complex(if z.re != 0.0 then 1.0 / z.re else z.re, if z.im != 0.0 then 1.0 / z.im else z.im));
    }
  }

  method PowerInPlace(lib: Library, x: Cell, y: Cell) returns (r: Cell)
    requires Compatible(x, y)
    modifies Owned(x, y)
    ensures View(r) == Power(lib, old(View(x)), old(View(y)))
    ensures r.Buffer? ==> r == x
  {
    if !y.Number? {
      return Failure(ScalarPowerOnly);
    }
    match x {
      case Buffer(s) =>
        MapInPlace(s, z => lib.cpow(z, y.z));
        r := x;
      case Number(z) =>
        r := Number(lib.cpow(z, y.z));
    }
  }

  method SetMaskInPlace(lib: Library, x: Cell, y: Cell) returns (r: Cell)
    requires Compatible(x, y)
    modifies Owned(x, y)
    ensures View(r) == WithMask(lib, old(View(x)), old(View(y)))
    ensures r.Buffer? ==> r == x
  {
    if !x.Buffer? {
      return Failure(ImagesOnly(SetMask));
    }
    var s := x.a;
    r := x;
    for i := 0 to s.Length
      invariant forall k :: 0 <= k < i ==>
        s[k] == old(s[k]).(mask := lib.toMask(if y.Buffer? then old(y.a[k].z) else y.z))
      invariant forall k :: i <= k < s.Length ==> s[k] == old(s[k])
      invariant y.Buffer? ==> y.a[..] == old(y.a[..])
    {
      if y.Buffer? {
        s[i] := s[i].(mask := lib.toMask(y.a[i].z));
      } else {
        s[i] := s[i].(mask := lib.toMask(y.z));
      }
    }
  }

  method BinaryInPlace(lib: Library, n: Name, x: Cell, y: Cell) returns (r: Cell)
    requires Compatible(x, y)
    modifies Owned(x, y)
    ensures View(r) == Binary(lib, n, old(View(x)), old(View(y)))
    ensures r.Buffer? ==> r == x || r == y
  {
    match n {
      case Subtraction =>
        var minus := OppositeInPlace(y);
        r := ZipCells(Addition, x, minus);
      case Division =>
        var inverse := ReciprocalInPlace(lib, y);
        r := ZipCells(Multiplication, x, inverse);
      case Exponentiation =>
        r := PowerInPlace(lib, x, y);
      case SetMask =>
        r := SetMaskInPlace(lib, x, y);
      case _ =>
        r := ZipCells(n, x, y);
    }
  }

  /** The conditional on images and numbers, in the buffer the program chooses. */
  method ChooseInPlace(a: Cell, b: Cell, c: Cell) returns (r: Cell)
    requires Compatible(a, b) && Compatible(a, c) && Compatible(b, c)
    modifies Owned(a, b) + Owned(b, c)
    ensures View(r) == Choose(old(View(a)), old(View(b)), old(View(c)))
    ensures r.Buffer? ==> r == a || r == b || r == c
  {
    if a.Number? {
      return if Nonzero(a.z) then b else c;
    }
    var s := a.a;
    match (b, c) {
      case (Buffer(t), Buffer(u)) =>
        for i := 0 to s.Length
          invariant forall k :: 0 <= k < i ==>
            t[k] == if Nonzero(old(s[k].z)) then old(t[k]) else old(t[k]).(z := old(u[k].z))
          invariant forall k :: i <= k < s.Length ==> t[k] == old(t[k])
          invariant s[..] == old(s[..]) && u[..] == old(u[..])
        {
          if !Nonzero(s[i].z) {
            t[i] := t[i].(z := u[i].z);
          }
        }
        r := b;
      case (Buffer(t), Number(d)) =>
        for i := 0 to s.Length
          invariant forall k :: 0 <= k < i ==>
            t[k] == if Nonzero(old(s[k].z)) then old(t[k]) else old(t[k]).(z := d)
          invariant forall k :: i <= k < s.Length ==> t[k] == old(t[k])
          invariant s[..] == old(s[..])
        {
          if !Nonzero(s[i].z) {
            t[i] := t[i].(z := d);
          }
        }
        r := b;
      case (Number(d), Buffer(u)) =>
        for i := 0 to s.Length
          invariant forall k :: 0 <= k < i ==>
            u[k] == if Nonzero(old(s[k].z)) then old(u[k]).(z := d) else old(u[k])
          invariant forall k :: i <= k < s.Length ==> u[k] == old(u[k])
          invariant s[..] == old(s[..])
        {
          if Nonzero(s[i].z) {
            u[i] := u[i].(z := d);
          }
        }
        r := c;
      case (Number(d), Number(e)) =>
        MapInPlace(s, z => if Nonzero(z) then d else e);
        r := a;
    }
  }
}
