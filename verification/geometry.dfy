/**
  Integer plane geometry shared by every part of the polyline model:
  the point type (wxPoint), its vector arithmetic, squared lengths and
  C++'s truncating integer division by two.
 */
module Geometry {

  /** A vertex or a cursor position, with unbounded integer coordinates. */
  datatype Point = Point(x: int, y: int)

  /** Largest value of a 32-bit C++ `int`, the initial "no distance yet" value. */
  const IntMax: int := 0x7FFF_FFFF

  function Add(a: Point, b: Point): Point
  {
    Point(a.x + b.x, a.y + b.y)
  }

  function Sub(a: Point, b: Point): Point
  {
    Point(a.x - b.x, a.y - b.y)
  }

  function Neg(a: Point): Point
  {
    Point(-a.x, -a.y)
  }

  /**
    `a * a`, built up one odd number at a time. Stating the square this
    way keeps products of unknowns away from the solver wherever only the
    properties below are needed; `SquareIsProduct` ties it to `a * a`.
   */
  function Square(a: int): (r: nat)
    ensures r == 0 <==> a == 0
    decreases if a < 0 then -a else a, if a < 0 then 1 else 0
  {
    if a < 0 then Square(-a)
    else if a == 0 then 0
    else Square(a - 1) + 2 * a - 1
  }

  /** `(a - 1) * (a - 1)` is `a * a` less the odd number `2 * a - 1`. */
  lemma ProductOfPredecessor(a: int)
    ensures (a - 1) * (a - 1) == a * a - 2 * a + 1
  {
    assert (a - 1) * (a - 1) == a * (a - 1) - (a - 1);
  }

  /** `Square` is the product of a number with itself. */
  lemma {:induction false} SquareIsProduct(a: int)
    ensures Square(a) == a * a
    decreases if a < 0 then -a else a, if a < 0 then 1 else 0
  {
    if a < 0 {
      SquareIsProduct(-a);
      assert (-a) * (-a) == a * a;
    } else if a > 0 {
      SquareIsProduct(a - 1);
      ProductOfPredecessor(a);
    }
  }

  /** Squared Euclidean length of the vector `v`, as `x * x + y * y`. */
  function SquaredLength(v: Point): (r: nat)
    ensures r == 0 <==> v == Point(0, 0)
  {
    Square(v.x) + Square(v.y)
  }

  /** Doubling a number multiplies its square by four. */
  lemma {:induction false} SquareOfDouble(a: int)
    ensures Square(a + a) == 4 * Square(a)
    decreases if a < 0 then -a else a, if a < 0 then 1 else 0
  {
    if a < 0 {
      SquareOfDouble(-a);
    } else if a > 0 {
      SquareOfDouble(a - 1);
      assert Square(a + a) == Square(a + a - 2) + 4 * a - 3 + 4 * a - 1;
    }
  }

  /** Doubling a vector multiplies its squared length by four. */
  lemma SquaredLengthOfDouble(v: Point)
    ensures SquaredLength(Add(v, v)) == 4 * SquaredLength(v)
  {
    SquareOfDouble(v.x);
    SquareOfDouble(v.y);
  }

  /** Absolute value: decodes a possibly negated vertex index, and measures coordinate gaps. */
  function Abs(a: int): nat
  {
    if a < 0 then -a else a
  }

  /**
    C++ `a / 2` on `int`: the quotient is truncated toward zero, unlike
    Dafny's Euclidean `/`, which rounds a negative odd `a` downwards.
   */
  function HalfTowardZero(a: int): (r: int)
    ensures 0 <= a ==> 0 <= 2 * r <= a < 2 * r + 2
    ensures a < 0 ==> 2 * r - 2 < a <= 2 * r <= 0
  {
    if a >= 0 then a / 2 else -((-a) / 2)
  }
}
