/** Points, vectors, distances and bearings (src/Structure.hpp Point/Vector2d and
    the free functions at the top of src/Algorithm.hpp).

    The square root and the two-argument arctangent of the C library are not
    defined here: they are supplied as a `MathOracle` value, and the only facts
    the model relies on are the ones `ValidOracle` states. */
module Geometry {

  const Pi: real := 3.141592653589793

  datatype Point = Point(x: real, y: real)

  datatype Vector2d = Vector2d(x: real, y: real)

  /** The transcendental functions the client calls into. */
  datatype MathOracle = MathOracle(sqrt: real -> real, atan2: (real, real) -> real)

  /** The sign and range facts of `sqrt` and `atan2` that the model uses. */
  ghost predicate ValidOracle(o: MathOracle) {
    && (forall v :: o.sqrt(v) >= 0.0)
    && o.sqrt(0.0) == 0.0
    && (forall y, x :: -Pi <= o.atan2(y, x) <= Pi)
  }

  function Abs(x: real): (r: real)
    ensures r >= 0.0
    ensures r == x || r == -x
  {
    if x < 0.0 then -x else x
  }

  function Square(x: real): (r: real)
    ensures r >= 0.0
    ensures x == 0.0 ==> r == 0.0
  {
    x * x
  }

  /** The vector from p1 to p2. */
  function FromTo(p1: Point, p2: Point): Vector2d {
    Vector2d(p2.x - p1.x, p2.y - p1.y)
  }

  function Magnitude(o: MathOracle, v: Vector2d): real {
    o.sqrt(Square(v.x) + Square(v.y))
  }

  /** Bearing of a vector, measured from the positive x axis. */
  function Orientation(o: MathOracle, v: Vector2d): real {
    o.atan2(v.y, v.x)
  }

  /** Euclidean distance, written as the source writes it: the root of the
      summed squares of p1 - p2. */
  function Distance(o: MathOracle, p1: Point, p2: Point): (d: real)
    requires ValidOracle(o)
    ensures d >= 0.0
    ensures p1 == p2 ==> d == 0.0
  {
    o.sqrt(Square(p1.x - p2.x) + Square(p1.y - p2.y))
  }

  /** Absolute bearing of the direction from p1 towards p2. */
  function Direction(o: MathOracle, p1: Point, p2: Point): (a: real)
    requires ValidOracle(o)
    ensures -Pi <= a <= Pi
    ensures a == Orientation(o, FromTo(p1, p2))
  {
    Orientation(o, FromTo(p1, p2))
  }

  /** Signed difference a1 - a2 of two angles, wrapped once by 2*pi when its
      magnitude exceeds pi. */
  function AngleDiff(a1: real, a2: real): (r: real)
    ensures r == a1 - a2 || r == a1 - a2 + 2.0 * Pi || r == a1 - a2 - 2.0 * Pi
    ensures Abs(a1 - a2) <= Pi ==> r == a1 - a2
    ensures Abs(r) <= Abs(a1 - a2)
    ensures -Pi <= a1 <= Pi && -Pi <= a2 <= Pi ==> -Pi <= r <= Pi
  {
    var d := a1 - a2;
    if Abs(d) > Pi then
      if d < 0.0 then d + 2.0 * Pi else d - 2.0 * Pi
    else
      d
  }
}
