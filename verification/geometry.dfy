/** Planar geometry in the projected (metric) frame: points, polygons given
    by their corners, bounds, and strict-interior containment for the
    axis-aligned squares the grid is made of. */
module Geometry {

  datatype Point = Point(x: real, y: real)

  /** A polygon by its corners, in order; the closing vertex is implicit. */
  datatype Polygon = Polygon(corners: seq<Point>)

  /** Axis-aligned bounds `(minx, miny, maxx, maxy)`. */
  datatype Bounds = Bounds(minX: real, minY: real, maxX: real, maxY: real)

  function MinOf(s: seq<real>): (m: real)
    requires |s| > 0
    ensures m in s
    ensures forall v :: v in s ==> m <= v
  {
    if |s| == 1 then s[0]
    else
      var rest := MinOf(s[1..]);
      assert forall v :: v in s ==> v == s[0] || v in s[1..];
      if s[0] <= rest then s[0] else rest
  }

  function MaxOf(s: seq<real>): (m: real)
    requires |s| > 0
    ensures m in s
    ensures forall v :: v in s ==> v <= m
  {
    if |s| == 1 then s[0]
    else
      var rest := MaxOf(s[1..]);
      assert forall v :: v in s ==> v == s[0] || v in s[1..];
      if s[0] >= rest then s[0] else rest
  }

  function Xs(ps: seq<Point>): seq<real>
  {
    seq(|ps|, i requires 0 <= i < |ps| => ps[i].x)
  }

  function Ys(ps: seq<Point>): seq<real>
  {
    seq(|ps|, i requires 0 <= i < |ps| => ps[i].y)
  }

  /** Shapely's `Polygon.bounds`. */
  function BoundsOf(p: Polygon): Bounds
    requires |p.corners| > 0
  {
    Bounds(MinOf(Xs(p.corners)), MinOf(Ys(p.corners)),
           MaxOf(Xs(p.corners)), MaxOf(Ys(p.corners)))
  }

  /** Shapely's `Polygon.exterior.coords`: the ring, closed by repeating the
      first corner. */
  function Exterior(p: Polygon): seq<Point>
    requires |p.corners| > 0
  {
    p.corners + [p.corners[0]]
  }

  /** Twice the signed area enclosed by a closed ring (shoelace formula);
      positive when the ring runs counter-clockwise. */
  function TwiceSignedArea(ring: seq<Point>): real
  {
    if |ring| < 2 then 0.0
    else ring[0].x * ring[1].y - ring[1].x * ring[0].y + TwiceSignedArea(ring[1..])
  }

  function Centre(b: Bounds): Point
  {
    Point((b.minX + b.maxX) / 2.0, (b.minY + b.maxY) / 2.0)
  }

  /** The bounds a four-cornered polygon would have if it were a box in
      counter-clockwise order from the lower-left corner: the lower-left
      and upper-right corners. */
  function BoxOf(p: Polygon): Bounds
    requires |p.corners| == 4
  {
    Bounds(p.corners[0].x, p.corners[0].y, p.corners[2].x, p.corners[2].y)
  }

  /** The polygon is a non-degenerate axis-aligned rectangle whose corners
      run counter-clockwise from the lower-left one. */
  predicate IsAxisBox(p: Polygon)
  {
    && |p.corners| == 4
    && var b := BoxOf(p);
       && b.minX < b.maxX && b.minY < b.maxY
       && p == BoxPolygon(b)
  }

  /** Shapely's `point.within(polygon)` for an axis-aligned box: the point
      lies in the open interior, not on the boundary. */
  predicate Within(q: Point, p: Polygon)
  {
    && IsAxisBox(p)
    && var b := BoxOf(p);
       b.minX < q.x < b.maxX && b.minY < q.y < b.maxY
  }

  /** The rectangle with the given bounds, corners counter-clockwise from
      the lower-left one. */
  function BoxPolygon(b: Bounds): Polygon
  {
    Polygon([Point(b.minX, b.minY), Point(b.maxX, b.minY),
             Point(b.maxX, b.maxY), Point(b.minX, b.maxY)])
  }

  lemma MinOf4(a: real, b: real, c: real, d: real, m: real)
    requires m <= a && m <= b && m <= c && m <= d
    requires m == a || m == b || m == c || m == d
    ensures MinOf([a, b, c, d]) == m
  {
    var s := [a, b, c, d];
    var r := MinOf(s);
    assert r in s;
    assert r == s[0] || r == s[1] || r == s[2] || r == s[3];
    assert m in s;
  }

  lemma MaxOf4(a: real, b: real, c: real, d: real, m: real)
    requires m >= a && m >= b && m >= c && m >= d
    requires m == a || m == b || m == c || m == d
    ensures MaxOf([a, b, c, d]) == m
  {
    var s := [a, b, c, d];
    var r := MaxOf(s);
    assert r in s;
    assert r == s[0] || r == s[1] || r == s[2] || r == s[3];
    assert m in s;
  }

  /** A non-degenerate box polygon has exactly the bounds it was built from
      and is an axis box. */
  lemma BoxPolygonBounds(b: Bounds)
    requires b.minX < b.maxX && b.minY < b.maxY
    ensures BoundsOf(BoxPolygon(b)) == b
    ensures IsAxisBox(BoxPolygon(b)) && BoxOf(BoxPolygon(b)) == b
  {
    BoxCoordinates(b);
    MinOf4(b.minX, b.maxX, b.maxX, b.minX, b.minX);
    MaxOf4(b.minX, b.maxX, b.maxX, b.minX, b.maxX);
    MinOf4(b.minY, b.minY, b.maxY, b.maxY, b.minY);
    MaxOf4(b.minY, b.minY, b.maxY, b.maxY, b.maxY);
  }

  lemma BoxCoordinates(b: Bounds)
    ensures Xs(BoxPolygon(b).corners) == [b.minX, b.maxX, b.maxX, b.minX]
    ensures Ys(BoxPolygon(b).corners) == [b.minY, b.minY, b.maxY, b.maxY]
  {
  }

  /** The closed ring of a box polygon has five vertices and encloses
      (maxX - minX) * (maxY - minY), running counter-clockwise. */
  lemma BoxPolygonArea(b: Bounds)
    ensures |Exterior(BoxPolygon(b))| == 5
    ensures TwiceSignedArea(Exterior(BoxPolygon(b))) == 2.0 * (b.maxX - b.minX) * (b.maxY - b.minY)
  {
    var ring := Exterior(BoxPolygon(b));
    var x0, y0, x1, y1 := b.minX, b.minY, b.maxX, b.maxY;
    assert ring == [Point(x0, y0), Point(x1, y0), Point(x1, y1), Point(x0, y1), Point(x0, y0)];
    var t4 := TwiceSignedArea(ring[4..]);
    var t3 := TwiceSignedArea(ring[3..]);
    var t2 := TwiceSignedArea(ring[2..]);
    var t1 := TwiceSignedArea(ring[1..]);
    assert t4 == 0.0;
    assert ring[3..][1..] == ring[4..];
    assert t3 == x0 * y0 - x0 * y1;
    assert ring[2..][1..] == ring[3..];
    assert t2 == x1 * y1 - x0 * y1 + t3;
    assert ring[1..][1..] == ring[2..];
    assert t1 == x1 * y1 - x1 * y0 + t2;
    assert TwiceSignedArea(ring) == x0 * y0 - x1 * y0 + t1;
    assert x0 * y0 - x1 * y0 + x1 * y1 - x1 * y0 + x1 * y1 - x0 * y1 + x0 * y0 - x0 * y1
        == 2.0 * (x1 - x0) * (y1 - y0);
  }

  /** The point lies on the boundary of the box. */
  predicate OnBoundary(q: Point, p: Polygon)
  {
    && IsAxisBox(p)
    && var b := BoxOf(p);
       && b.minX <= q.x <= b.maxX && b.minY <= q.y <= b.maxY
       && (q.x == b.minX || q.x == b.maxX || q.y == b.minY || q.y == b.maxY)
  }

  lemma BoundaryIsNotWithin(q: Point, p: Polygon)
    requires OnBoundary(q, p)
    ensures !Within(q, p)
  {
  }

  /** Both polygons are boxes and their open interiors do not meet. */
  predicate InteriorsDisjoint(p: Polygon, p': Polygon)
  {
    && IsAxisBox(p) && IsAxisBox(p')
    && var b, b' := BoxOf(p), BoxOf(p');
       b.maxX <= b'.minX || b'.maxX <= b.minX || b.maxY <= b'.minY || b'.maxY <= b.minY
  }

  /** No point lies within two boxes whose interiors are disjoint. */
  lemma DisjointBoxesShareNoPoint(q: Point, p: Polygon, p': Polygon)
    requires InteriorsDisjoint(p, p')
    ensures !(Within(q, p) && Within(q, p'))
  {
  }
}
