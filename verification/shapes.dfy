/**
 * Tool footprints: the containment tests `circle`, `square` and `diamond`,
 * and the cyclic order in which the user interface steps through them.
 */
module Shapes {
  import opened Wrappers

  datatype Shape = Circle | Square | Diamond

  function Abs(n: int): nat
  {
    if n < 0 then -n else n
  }

  /**
   * Whether the pixel (x, y) belongs to the footprint of `shape` centred on
   * (x0, y0) with the given thickness. The square test ignores its arguments
   * and accepts every pixel, which is what the engine does. The centre
   * belongs to its own circle and square, and to its diamond exactly when
   * the thickness is positive.
   */
  predicate Contains(shape: Shape, x: int, y: int, x0: int, y0: int, thickness: int)
    ensures x == x0 && y == y0 ==>
      (Contains(shape, x, y, x0, y0, thickness) <==> shape != Diamond || thickness > 0)
  {
    match shape
    case Circle => (x - x0) * (x - x0) + (y - y0) * (y - y0) <= thickness * thickness
    case Square => true
    case Diamond => Abs(x - x0) + Abs(y - y0) < thickness
  }

  /** The circle and the diamond lie inside the box of half-width `thickness` that the tools sweep. */
  lemma FootprintInsideBox(shape: Shape, x: int, y: int, x0: int, y0: int, t: nat)
    requires shape != Square && Contains(shape, x, y, x0, y0, t)
    ensures Abs(x - x0) <= t && Abs(y - y0) <= t
  {
    CircleInsideBox(x - x0, y - y0, t);
  }

  /** Both offsets of a point within distance `t` of the origin are at most `t`. */
  lemma CircleInsideBox(dx: int, dy: int, t: int)
    ensures t >= 0 && dx * dx + dy * dy <= t * t ==> Abs(dx) <= t && Abs(dy) <= t
  {
    if t >= 0 && dx * dx + dy * dy <= t * t {
      var ax, ay := Abs(dx), Abs(dy);
      assert ax * ax == dx * dx && ay * ay == dy * dy;
      SquareBelow(ax, t, ay * ay);
      SquareBelow(ay, t, ax * ax);
    }
  }

  /**
   * The first and the last row (or column) of the box swept around a centre
   * `c`: `c - thickness` raised to 0 and `c + thickness` lowered to `size`,
   * both ends included. The box never starts before 0 nor ends past `size`,
   * and it covers every offset up to `thickness` that those limits allow.
   */
  function BoxLow(c: int, thickness: int): (r: int)
    ensures 0 <= r && c - thickness <= r
    ensures r == 0 || r == c - thickness
  {
    if c - thickness < 0 then 0 else c - thickness
  }

  function BoxHigh(c: int, thickness: int, size: int): (r: int)
    ensures r <= size && r <= c + thickness
    ensures r == size || r == c + thickness
  {
    if c + thickness < size then c + thickness else size
  }

  /** The circle is inclusive: a pixel exactly `thickness` away along an axis is inside. */
  lemma CircleBoundaryInclusive(x0: int, y0: int, t: nat)
    ensures Contains(Circle, x0 + t, y0, x0, y0, t)
    ensures Contains(Circle, x0, y0 - t, x0, y0, t)
    ensures !Contains(Circle, x0 + t + 1, y0, x0, y0, t)
  {
    var d := t + 1;
    assert d * d > t * t by {
      assert d * d == t * t + 2 * t + 1;
    }
  }

  /** The diamond is exclusive: a pixel at Manhattan distance exactly `thickness` is outside. */
  lemma DiamondBoundaryExclusive(x: int, y: int, x0: int, y0: int, t: int)
    requires Abs(x - x0) + Abs(y - y0) == t
    ensures !Contains(Diamond, x, y, x0, y0, t)
    ensures Contains(Diamond, x, y, x0, y0, t + 1)
  {
  }

  /** The square accepts every pixel, whatever the centre and the thickness. */
  lemma SquareAcceptsEverything(x: int, y: int, x0: int, y0: int, t: int)
    ensures Contains(Square, x, y, x0, y0, t)
  {
  }

  /** Helper: a non-negative number whose square (plus something non-negative) is at most t*t is at most t. */
  lemma SquareBelow(d: nat, t: nat, extra: nat)
    requires d * d + extra <= t * t
    ensures d <= t
  {
    assert (d - t) * (d + t) == d * d - t * t;
    if d + t > 0 {
      NonPositiveFactor(d - t, d + t);
    }
  }

  /** Helpers: the sign of a product with a positive factor. */
  lemma NonPositiveFactor(a: int, n: int)
    requires n > 0 && a * n <= 0
    ensures a <= 0
  {
  }

  lemma NegativeFactor(a: int, n: int)
    requires n > 0 && a * n < 0
    ensures a < 0
  {
  }

  /** Every pixel of the diamond is also a pixel of the circle of the same thickness. */
  lemma DiamondInsideCircle(x: int, y: int, x0: int, y0: int, t: int)
    requires Contains(Diamond, x, y, x0, y0, t)
    ensures Contains(Circle, x, y, x0, y0, t)
  {
    ManhattanInsideCircle(x - x0, y - y0, t);
  }

  lemma ManhattanInsideCircle(dx: int, dy: int, t: int)
    requires Abs(dx) + Abs(dy) < t
    ensures dx * dx + dy * dy <= t * t
  {
    var ax, ay := Abs(dx), Abs(dy);
    assert dx * dx == ax * ax && dy * dy == ay * ay;
    assert ax * ax + ay * ay <= (ax + ay) * (ax + ay) by {
      assert (ax + ay) * (ax + ay) == ax * ax + ay * ay + 2 * ax * ay;
    }
    var s := ax + ay;
    assert 0 <= s < t;
    assert s * s <= t * t by {
      assert t * t - s * s == (t - s) * (t + s);
    }
  }

  /** The name under which the user interface selects a shape. */
  function ShapeName(s: Shape): string
  {
    match s
    case Circle => "circle"
    case Square => "square"
    case Diamond => "diamond"
  }

  /** The shape with a given name, if there is one. */
  function ParseShape(name: string): (r: Option<Shape>)
    ensures r.Some? ==> ShapeName(r.value) == name
    ensures r.None? ==> forall s: Shape :: ShapeName(s) != name
  {
    if name == "circle" then Some(Circle)
    else if name == "square" then Some(Square)
    else if name == "diamond" then Some(Diamond)
    else None
  }

  predicate IsShapeName(name: string)
  {
    name == "circle" || name == "square" || name == "diamond"
  }

  /**
   * The shape that follows `name` in the cycle circle, square, diamond; any
   * other name is an error. The direction of the cycle is fixed by the body
   * alone: the lemmas below hold of the reverse cycle too.
   */
  function NextShape(name: string): (r: Result<string>)
    ensures r.Ok? <==> IsShapeName(name)
    ensures r.Ok? ==> IsShapeName(r.value) && r.value != name
  {
    match name
    case "circle" => Ok("square")
    case "square" => Ok("diamond")
    case "diamond" => Ok("circle")
    case _ => Error("nextShape: invalid shape")
  }

  /** The shape that precedes `name` in the cycle circle, square, diamond (the body fixes the direction); any other name is an error. */
  function PrevShape(name: string): (r: Result<string>)
    ensures r.Ok? <==> IsShapeName(name)
    ensures r.Ok? ==> IsShapeName(r.value) && r.value != name
  {
    match name
    case "circle" => Ok("diamond")
    case "square" => Ok("circle")
    case "diamond" => Ok("square")
    case _ => Error("prevShape: invalid shape")
  }

  /** `NextShape` and `PrevShape` undo each other on every valid name. */
  lemma NextPrevInverse(name: string)
    requires IsShapeName(name)
    ensures NextShape(name).Ok? && PrevShape(NextShape(name).value) == Ok(name)
    ensures PrevShape(name).Ok? && NextShape(PrevShape(name).value) == Ok(name)
  {
  }

  /** Stepping forward three times comes back to the start. */
  lemma NextThriceIsIdentity(name: string)
    requires IsShapeName(name)
    ensures NextShape(NextShape(NextShape(name).value).value) == Ok(name)
  {
  }

  /** The cycle visits all three shapes: from any valid name, the name itself and its two successors are distinct. */
  lemma NextVisitsAll(name: string)
    requires IsShapeName(name)
    ensures var n1 := NextShape(name).value; var n2 := NextShape(n1).value;
            {name, n1, n2} == {"circle", "square", "diamond"}
  {
  }
}
