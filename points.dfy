/** The integer point of the geometry kernel: vector arithmetic, the mapping of
    a grid cell to its bit in the bottom-right-oriented storage grid, and the
    clamped bounds of a square search window around a point. */
module Points {
  import opened Common

  /** An immutable pair of integer coordinates. */
  datatype Point = Point(x: int, y: int)

  /** Point equality compares both coordinates, and that is exactly value
      equality of the pair. */
  predicate Equals(a: Point, b: Point)
    ensures Equals(a, b) <==> a == b
  {
    a.x == b.x && a.y == b.y
  }

  /** Vector addition: taking away the second summand leaves the first. */
  function Add(a: Point, b: Point): (r: Point)
    ensures Sub(r, b) == a
  {
    Point(a.x + b.x, a.y + b.y)
  }

  /** Vector subtraction: the difference is the origin exactly when the two
      points are equal. */
  function Sub(a: Point, b: Point): (r: Point)
    ensures r == Point(0, 0) <==> a == b
  {
    Point(a.x - b.x, a.y - b.y)
  }

  /** The "product" of two points crosses the components: x with the other's
      y and y with the other's x, so the difference of its components is the
      2D cross product. */
  function Mul(a: Point, b: Point): (r: Point)
    ensures r.x - r.y == a.x * b.y - a.y * b.x
    ensures r.x == 0 <==> a.x == 0 || b.y == 0
    ensures r.y == 0 <==> a.y == 0 || b.x == 0
  {
    Point(a.x * b.y, a.y * b.x)
  }

  /** The dot product; a point's product with itself is its squared length,
      zero only at the origin. */
  function Dot(a: Point, b: Point): (r: int)
    ensures a == b ==> r >= 0
    ensures a == b ==> (r == 0 <==> a == Point(0, 0))
  {
    a.x * b.x + a.y * b.y
  }

  /** Subtraction undoes addition. */
  lemma AddSubInverse(a: Point, b: Point)
    ensures Sub(Add(a, b), b) == a
    ensures Add(Sub(a, b), b) == a
  {
  }

  /** The two scenarios of the point tests. */
  lemma ArithmeticScenarios()
    ensures Add(Point(2, 2), Point(5, 5)) == Point(7, 7)
    ensures Sub(Point(7, 7), Point(5, 5)) == Point(2, 2)
    ensures Equals(Point(2, 2), Point(2, 2)) && !Equals(Point(2, 2), Point(5, 5))
  {
  }

  /** Swapping the operands of the crossed product swaps its components, and
      the difference of its components is the 2D cross product. */
  lemma MulCrossed(a: Point, b: Point)
    ensures Mul(b, a) == Point(Mul(a, b).y, Mul(a, b).x)
    ensures Mul(a, b).x - Mul(a, b).y == a.x * b.y - a.y * b.x
  {
  }

  lemma DotSymmetric(a: Point, b: Point)
    ensures Dot(a, b) == Dot(b, a)
  {
  }

  /** Reflects a coordinate within [0, span): 0 and span - 1 trade places. */
  function InvertCoordinate(c: int, span: int): (r: int)
    ensures 0 <= c < span ==> 0 <= r < span
    ensures r + c == span - 1
  {
    (span - c) - 1
  }

  /** Inverting twice against the same span gives the coordinate back. */
  lemma InvertCoordinateInvolution(c: int, span: int)
    ensures InvertCoordinate(InvertCoordinate(c, span), span) == c
  {
  }

  /** Both coordinates reflected: the point and its inverse add up to the
      far corner, and a cell of the grid stays in the grid. */
  function InvertPoint(p: Point, width: int, height: int): (r: Point)
    ensures r.x + p.x == width - 1 && r.y + p.y == height - 1
    ensures InGrid(p, width, height) ==> InGrid(r, width, height)
  {
    Point(InvertCoordinate(p.x, width), InvertCoordinate(p.y, height))
  }

  predicate InGrid(p: Point, width: int, height: int)
  {
    0 <= p.x < width && 0 <= p.y < height
  }

  /** The row-major index of the cell in the inverted grid. Inside the grid it
      is `width*(height-1-y) + (width-1-x)` and lies in [0, width*height). */
  function BinaryGridIndexPos(p: Point, width: int, height: int): (i: int)
    ensures i == width * (height - 1 - p.y) + (width - 1 - p.x)
    ensures InGrid(p, width, height) ==> 0 <= i < width * height
  {
    var inverted := InvertPoint(p, width, height);
    var i := (width * inverted.y) + inverted.x;
    if InGrid(p, width, height) then
      assert 0 <= width * inverted.y <= width * (height - 1) by {
        MulMonotone(width, inverted.y, height - 1);
      }
      i
    else i
  }

  lemma MulMonotone(w: nat, a: nat, b: nat)
    requires a <= b
    ensures w * a <= w * b
  {
  }

  /** Distinct cells of the grid are stored at distinct bits. */
  lemma {:induction false} BinaryGridIndexPosInjective(p: Point, q: Point, width: int, height: int)
    requires InGrid(p, width, height) && InGrid(q, width, height)
    requires BinaryGridIndexPos(p, width, height) == BinaryGridIndexPos(q, width, height)
    ensures p == q
  {
    var a, b := height - 1 - p.y, width - 1 - p.x;
    var c, d := height - 1 - q.y, width - 1 - q.x;
    RowMajorUnique(width, a, b, c, d);
  }

  /** A row-major index determines its row and its column. */
  lemma RowMajorUnique(width: int, a: int, b: int, c: int, d: int)
    requires 0 <= b < width && 0 <= d < width
    requires width * a + b == width * c + d
    ensures a == c && b == d
  {
    if a < c {
      assert width * c - width * a == width * (c - a);
      MulMonotone(width, 1, c - a);
    } else if c < a {
      assert width * a - width * c == width * (a - c);
      MulMonotone(width, 1, a - c);
    }
  }

  /** The value `2**index` that the search map ORs in for a cell: a number
      with exactly one bit set, the cell's own storage bit. The model takes
      in-grid cells only; outside the grid the index may name another
      cell's bit or one beyond the grid, and a negative one makes the
      value a float. */
  function BinaryGridValue(p: Point, width: int, height: int): (v: nat)
    requires InGrid(p, width, height)
    ensures v >= 1
    ensures forall j: nat :: BitSet(v, j) <==> j == BinaryGridIndexPos(p, width, height)
  {
    Pow2Bits(BinaryGridIndexPos(p, width, height));
    Pow2(BinaryGridIndexPos(p, width, height))
  }

  /** The first cell of a search window: `max(0, floor(c - r))`. */
  function MinSearch(c: int, searchRadius: real): (lo: int)
    ensures lo >= 0
    ensures lo > 0 ==> lo as real <= c as real - searchRadius < lo as real + 1.0
    ensures lo == 0 ==> c as real - searchRadius < 1.0
  {
    Max(0, Floor(c as real - searchRadius))
  }

  /** One past the last cell of a search window: `min(span, ceil(c + r))`. */
  function MaxSearch(c: int, searchRadius: real, span: int): (hi: int)
    ensures hi <= span
    ensures hi < span ==> hi as real - 1.0 < c as real + searchRadius <= hi as real
    ensures hi == span ==> c as real + searchRadius > span as real - 1.0
  {
    Min(span, Ceil(c as real + searchRadius))
  }

  /** Every integer within the radius of c, at or above 0, is at or after the
      window's first cell. */
  lemma MinSearchCovers(c: int, searchRadius: real, v: int)
    requires 0 <= v && (c - v) as real <= searchRadius
    ensures MinSearch(c, searchRadius) <= v
  {
  }

  /** Every integer within the radius of c and below span is before the
      window's end, except the one at exactly c + r when that is an integer:
      the window is half-open while the radius test is not. */
  lemma MaxSearchCovers(c: int, searchRadius: real, span: int, v: int)
    requires v < span && (v - c) as real <= searchRadius
    ensures v < MaxSearch(c, searchRadius, span) || v as real == c as real + searchRadius
  {
  }

  /** With radius 2.0 around 5 the window is [3, 7): cells 3 and 7 are both at
      distance 2, yet only 3 is scanned. */
  lemma IntegralRadiusWindow()
    ensures MinSearch(5, 2.0) == 3 && MaxSearch(5, 2.0, 16) == 7
  {
  }

  /** The window end `floor(c + r) + 1`: never before the end as written, and
      past every cell within the radius. */
  function CorrectedMaxSearch(c: int, searchRadius: real, span: int): (hi: int)
    ensures hi <= span
    ensures MaxSearch(c, searchRadius, span) <= hi
  {
    Min(span, Floor(c as real + searchRadius) + 1)
  }

  lemma CorrectedMaxSearchCovers(c: int, searchRadius: real, span: int, v: int)
    requires v < span && (v - c) as real <= searchRadius
    ensures v < CorrectedMaxSearch(c, searchRadius, span)
  {
  }

  function MinSearchX(p: Point, searchRadius: real): (lo: int)
    ensures lo >= 0
    ensures searchRadius >= 0.0 && p.x >= 0 ==> lo <= p.x
  {
    MinSearch(p.x, searchRadius)
  }

  function MaxSearchX(p: Point, searchRadius: real, width: int): (hi: int)
    ensures hi <= width
    ensures searchRadius > 0.0 && p.x < width ==> p.x < hi
  {
    MaxSearch(p.x, searchRadius, width)
  }

  function MinSearchY(p: Point, searchRadius: real): (lo: int)
    ensures lo >= 0
    ensures searchRadius >= 0.0 && p.y >= 0 ==> lo <= p.y
  {
    MinSearch(p.y, searchRadius)
  }

  function MaxSearchY(p: Point, searchRadius: real, height: int): (hi: int)
    ensures hi <= height
    ensures searchRadius > 0.0 && p.y < height ==> p.y < hi
  {
    MaxSearch(p.y, searchRadius, height)
  }

  /** `distance_to(q) <= r` with the square root taken away: for a real r the
      Euclidean distance is at most r exactly when r is not negative and the
      squared distance is at most r squared. */
  predicate WithinRadius(centre: Point, q: Point, searchRadius: real)
    ensures WithinRadius(centre, q, searchRadius) ==> searchRadius >= 0.0
    ensures centre == q ==> (WithinRadius(centre, q, searchRadius) <==> searchRadius >= 0.0)
  {
    var dx, dy := centre.x - q.x, centre.y - q.y;
    searchRadius >= 0.0 && (dx * dx + dy * dy) as real <= searchRadius * searchRadius
  }

  /** WithinRadius is the source's test `hypot(dx, dy) <= r`: for the distance
      d, the non-negative number whose square is dx*dx + dy*dy, it holds
      exactly when d <= r. */
  lemma WithinRadiusIsDistanceTest(centre: Point, q: Point, searchRadius: real, d: real)
    requires d >= 0.0
    requires d * d == ((centre.x - q.x) * (centre.x - q.x) + (centre.y - q.y) * (centre.y - q.y)) as real
    ensures WithinRadius(centre, q, searchRadius) <==> d <= searchRadius
  {
    if d <= searchRadius {
      SquareMonotone(d, searchRadius);
    } else if searchRadius >= 0.0 {
      SquareStrictlyMonotone(searchRadius, d);
    }
  }

  /** Distance does not depend on the direction it is measured in. */
  lemma WithinRadiusSymmetric(centre: Point, q: Point, searchRadius: real)
    ensures WithinRadius(centre, q, searchRadius) <==> WithinRadius(q, centre, searchRadius)
  {
    var dx, dy := centre.x - q.x, centre.y - q.y;
    assert (-dx) * (-dx) + (-dy) * (-dy) == dx * dx + dy * dy;
  }
}
