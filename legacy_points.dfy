/** The older stand-alone point of the repository root: a 16 x 16 search map,
    a fixed search radius of 4.5, the window around a point that radius
    spans, and the scan of that window for the cells within the radius. */
module LegacyPoints {
  import opened Common

  /** `SEARCH_MAP_SIZE`: cells per side of the search map. */
  const SearchMapSize: int := 16

  /** `SEARCH_RAD`: the search radius. */
  const SearchRad: real := 4.5

  datatype Point = Point(x: int, y: int)

  /** `max(0, ceil(c - 4.5))`: for an integer c, ceil(c - 4.5) is c - 4. */
  function SearchMin(c: int): (lo: int)
    ensures lo >= 0
    ensures lo == Max(0, c - 4)
  {
    Max(0, Ceil(c as real - SearchRad))
  }

  /** `min(16, floor(c + 4.5))`: for an integer c, floor(c + 4.5) is c + 4. */
  function SearchMax(c: int): (hi: int)
    ensures hi <= SearchMapSize
    ensures hi == Min(SearchMapSize, c + 4)
  {
    Min(SearchMapSize, Floor(c as real + SearchRad))
  }

  function SearchMinX(p: Point): (lo: int)
    ensures lo >= 0 && lo == Max(0, p.x - 4)
  {
    SearchMin(p.x)
  }

  function SearchMaxX(p: Point): (hi: int)
    ensures hi <= SearchMapSize && hi == Min(SearchMapSize, p.x + 4)
  {
    SearchMax(p.x)
  }

  function SearchMinY(p: Point): (lo: int)
    ensures lo >= 0 && lo == Max(0, p.y - 4)
  {
    SearchMin(p.y)
  }

  function SearchMaxY(p: Point): (hi: int)
    ensures hi <= SearchMapSize && hi == Min(SearchMapSize, p.y + 4)
  {
    SearchMax(p.y)
  }

  /** `inverse_coordinate`: `16 - (-1 * c) - 1`, which is c + 15 and not a
      reflection within the map. */
  function InverseCoordinate(c: int): (r: int)
    ensures r == c + 15
  {
    (SearchMapSize - (-1 * c)) - 1
  }

  /** `inverse_y`: the inverse of the y coordinate. */
  function InverseY(p: Point): (r: int)
    ensures r == p.y + 15
  {
    InverseCoordinate(p.y)
  }

  /** Applying the inverse twice moves a coordinate by 30: it is never its own
      inverse, and it maps no cell of the map into the map. */
  lemma InverseCoordinateNotInvolution(c: int)
    ensures InverseCoordinate(InverseCoordinate(c)) == c + 30
    ensures InverseCoordinate(InverseCoordinate(c)) != c
    ensures 0 <= c < SearchMapSize ==> InverseCoordinate(c) >= SearchMapSize - 1
  {
  }

  /** The reflection the name promises: 0 and 15 trade places, and applying
      it twice gives the coordinate back. */
  function CorrectedInverseCoordinate(c: int): (r: int)
    ensures 0 <= c < SearchMapSize ==> 0 <= r < SearchMapSize
    ensures r + c == SearchMapSize - 1
  {
    SearchMapSize - c - 1
  }

  lemma CorrectedInverseCoordinateInvolution(c: int)
    ensures CorrectedInverseCoordinate(CorrectedInverseCoordinate(c)) == c
  {
  }

  /** `distance_to(q) <= SEARCH_RAD`, that is `sqrt(dx*dx + dy*dy) <= 4.5`,
      compared without the square root: both sides are non-negative, so
      squaring them keeps the order (WithinSearchRadIsDistanceTest). */
  predicate WithinSearchRad(p: Point, q: Point)
    ensures p == q ==> WithinSearchRad(p, q)
  {
    var dx, dy := p.x - q.x, p.y - q.y;
    (dx * dx + dy * dy) as real <= SearchRad * SearchRad
  }

  /** For d the distance between the points (the non-negative root of
      dx*dx + dy*dy, which `distance_to` computes), the test is d <= 4.5. */
  lemma WithinSearchRadIsDistanceTest(p: Point, q: Point, d: real)
    requires d >= 0.0
    requires d * d == ((p.x - q.x) * (p.x - q.x) + (p.y - q.y) * (p.y - q.y)) as real
    ensures WithinSearchRad(p, q) <==> d <= SearchRad
  {
    if d <= SearchRad {
      SquareMonotone(d, SearchRad);
    } else {
      SquareStrictlyMonotone(SearchRad, d);
    }
  }

  /** The distance is the same measured from either point. */
  lemma WithinSearchRadSymmetric(p: Point, q: Point)
    ensures WithinSearchRad(p, q) <==> WithinSearchRad(q, p)
  {
    assert (p.x - q.x) * (p.x - q.x) == (q.x - p.x) * (q.x - p.x);
    assert (p.y - q.y) * (p.y - q.y) == (q.y - p.y) * (q.y - p.y);
  }

  /** For integer points the radius test is a squared distance of at most 20. */
  lemma WithinSearchRadSquared(p: Point, q: Point)
    ensures WithinSearchRad(p, q) <==> (p.x - q.x) * (p.x - q.x) + (p.y - q.y) * (p.y - q.y) <= 20
  {
  }

  /** The cells the scan visits. */
  predicate InWindow(p: Point, q: Point)
  {
    SearchMinX(p) <= q.x < SearchMaxX(p) && SearchMinY(p) <= q.y < SearchMaxY(p)
  }

  predicate InMap(q: Point)
  {
    0 <= q.x < SearchMapSize && 0 <= q.y < SearchMapSize
  }

  /** Scan order: x first, then y. */
  predicate Before(p: Point, q: Point)
  {
    p.x < q.x || (p.x == q.x && p.y < q.y)
  }

  /** `get_points_in_search_radius`: exactly the window's cells within the
      radius, each once, in x-major then ascending-y order, all in the map. */
  method GetPointsInSearchRadius(p: Point) returns (points: seq<Point>)
    ensures forall q :: q in points <==> InWindow(p, q) && WithinSearchRad(p, q)
    ensures forall i, j | 0 <= i < j < |points| :: Before(points[i], points[j])
    ensures forall q | q in points :: InMap(q) && WithinSearchRad(p, q)
  {
    points := [];
    var xLo, xHi := SearchMinX(p), SearchMaxX(p);
    var yLo, yHi := SearchMinY(p), SearchMaxY(p);
    var xValue := xLo;
    while xValue < xHi
      invariant xLo <= xValue && (xLo <= xHi ==> xValue <= xHi)
      invariant forall q :: q in points <==> InWindow(p, q) && WithinSearchRad(p, q) && q.x < xValue
      invariant forall i, j | 0 <= i < j < |points| :: Before(points[i], points[j])
      invariant forall q | q in points :: q.x < xValue
    {
      var yValue := yLo;
      while yValue < yHi
        invariant yLo <= yValue && (yLo <= yHi ==> yValue <= yHi)
        invariant forall q :: q in points <==>
          (InWindow(p, q) && WithinSearchRad(p, q) && (q.x < xValue || (q.x == xValue && q.y < yValue)))
        invariant forall i, j | 0 <= i < j < |points| :: Before(points[i], points[j])
        invariant forall q | q in points :: q.x < xValue || (q.x == xValue && q.y < yValue)
      {
        var point := Point(xValue, yValue);
        if WithinSearchRad(p, point) {
          points := points + [point];
        }
        yValue := yValue + 1;
      }
      xValue := xValue + 1;
    }
  }

  /** The window reaches 4 cells below the centre but only 3 above it: the
      cell 4 to the right, well within the radius, is never visited, while
      the cell 4 to the left is. */
  lemma WindowMissesFourthCell(p: Point)
    requires 4 <= p.x && p.x + 4 < SearchMapSize && 0 <= p.y < SearchMapSize
    ensures WithinSearchRad(p, Point(p.x + 4, p.y)) && !InWindow(p, Point(p.x + 4, p.y))
    ensures WithinSearchRad(p, Point(p.x - 4, p.y)) && InWindow(p, Point(p.x - 4, p.y))
  {
  }

  /** The window with its upper bound one further, `floor(c + 4.5) + 1`. */
  function CorrectedSearchMax(c: int): (hi: int)
    ensures hi <= SearchMapSize
    ensures hi == Min(SearchMapSize, c + 5)
  {
    Min(SearchMapSize, Floor(c as real + SearchRad) + 1)
  }

  predicate CorrectedInWindow(p: Point, q: Point)
  {
    SearchMinX(p) <= q.x < CorrectedSearchMax(p.x) && SearchMinY(p) <= q.y < CorrectedSearchMax(p.y)
  }

  /** A coordinate whose square is at most 20 is within 4 of zero. */
  lemma SquareBound(d: int, e: int)
    requires d * d + e * e <= 20
    ensures -4 <= d <= 4
  {
  }

  /** The corrected window holds every cell of the map within the radius. */
  lemma CorrectedWindowCovers(p: Point, q: Point)
    requires InMap(q) && WithinSearchRad(p, q)
    ensures CorrectedInWindow(p, q)
  {
    var dx, dy := p.x - q.x, p.y - q.y;
    WithinSearchRadSquared(p, q);
    SquareBound(dx, dy);
    SquareBound(dy, dx);
  }
}
