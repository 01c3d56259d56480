/** Dense 3-axis grids, points, offsets and flat structuring elements.

    A grid of size (sx, sy, sz) stores its samples in one sequence; the sample at
    (x, y, z) sits at offset x + y·sx + z·sx·sy, written here in the equivalent
    Horner form x + sx·(y + sy·z).  A flat structuring element (a connectivity) is
    an ordered sequence of relative points; once a grid size is fixed, each point
    becomes a relative offset. */
module Grid {

  /** The size of a grid along its three axes (TSize[3]). */
  datatype Size = Size(x: nat, y: nat, z: nat)

  /** A point, or a relative displacement, of the 3-axis grid. */
  datatype Point = Point(x: int, y: int, z: int)

  /** A grid of samples of type T, stored x fastest, then y, then z. */
  datatype Image<T> = Image(size: Size, data: seq<T>)

  /** A flat structuring element: the ordered relative points of a neighbourhood. */
  datatype FlatSE = FlatSE(points: seq<Point>)

  function Count(s: Size): nat
  {
    s.x * (s.y * s.z)
  }

  predicate Valid<T>(im: Image<T>)
  {
    |im.data| == Count(im.size)
  }

  predicate InGrid(s: Size, p: Point)
  {
    0 <= p.x < s.x && 0 <= p.y < s.y && 0 <= p.z < s.z
  }

  function Add(p: Point, d: Point): Point
  {
    Point(p.x + d.x, p.y + d.y, p.z + d.z)
  }

  function Sub(p: Point, d: Point): Point
  {
    Point(p.x - d.x, p.y - d.y, p.z - d.z)
  }

  /** The opposite displacement, origin minus p. */
  function Neg(p: Point): Point
  {
    Sub(Point(0, 0, 0), p)
  }

  /** A size read as a displacement (a border width). */
  function AsPoint(s: Size): Point
  {
    Point(s.x, s.y, s.z)
  }

  /** Offset of a point: x + y·sx + z·sx·sy. */
  function Offset(s: Size, p: Point): int
  {
    p.x + s.x * (p.y + s.y * p.z)
  }

  /** Coordinates of an offset (what the grid's getCoord computes). */
  function CoordOf(s: Size, o: nat): Point
    requires s.x > 0 && s.y > 0
  {
    Point(o % s.x, (o / s.x) % s.y, (o / s.x) / s.y)
  }

  /** Size of a grid padded by pre before and post after the original, per axis. */
  function Grow(s: Size, pre: Size, post: Size): Size
  {
    Size(s.x + pre.x + post.x, s.y + pre.y + post.y, s.z + pre.z + post.z)
  }

  lemma {:induction false} MulAtLeast(k: int, d: int)
    requires k >= 1 && d > 0
    ensures k * d >= d
    decreases k
  {
    if k > 1 {
      MulAtLeast(k - 1, d);
      assert k * d == (k - 1) * d + d;
    }
  }

  /** Euclidean division is determined by a quotient and a remainder in range. */
  lemma DivModUnique(q: int, d: int, a: int, r: int)
    requires d > 0 && 0 <= r < d && q == a * d + r
    ensures q / d == a && q % d == r
  {
    var a' := q / d;
    var r' := q % d;
    assert q == a' * d + r';
    if a' > a {
      assert (a' - a) * d == a' * d - a * d;
      MulAtLeast(a' - a, d);
    } else if a' < a {
      assert (a - a') * d == a * d - a' * d;
      MulAtLeast(a - a', d);
    }
  }

  /** A row-major offset below d·w lies in range. */
  lemma HornerBound(r: int, d: int, w: int, bound: int)
    requires d > 0 && 0 <= r < d && 0 <= w < bound
    ensures 0 <= r + d * w < d * bound
  {
    assert d * w >= 0;
    assert d * bound == d * (bound - 1) + d;
    assert d * w <= d * (bound - 1) by {
      if w < bound - 1 {
        assert d * (bound - 1) - d * w == d * (bound - 1 - w);
        MulAtLeast(bound - 1 - w, d);
      }
    }
  }

  lemma OffsetInRange(s: Size, p: Point)
    requires InGrid(s, p)
    ensures 0 <= Offset(s, p) < Count(s)
  {
    HornerBound(p.y, s.y, p.z, s.z);
    HornerBound(p.x, s.x, p.y + s.y * p.z, s.y * s.z);
  }

  /** Reading the coordinates of the offset of p gives p back. */
  lemma CoordOfOffset(s: Size, p: Point)
    requires InGrid(s, p)
    ensures CoordOf(s, Offset(s, p)) == p
  {
    OffsetInRange(s, p);
    var w := p.y + s.y * p.z;
    DivModUnique(Offset(s, p), s.x, w, p.x);
    DivModUnique(w, s.y, p.z, p.y);
  }

  lemma MulNonNeg(a: int, b: int)
    requires a >= 0 && b >= 0
    ensures a * b >= 0
  {
  }

  /** Cancelling a positive factor from a strict inequality. */
  lemma MulLessCancel(d: int, a: int, b: int)
    requires d > 0 && d * a < d * b
    ensures a < b
  {
    assert d * a - d * b == d * (a - b);
    if a >= b {
      MulNonNeg(d, a - b);
    }
  }

  /** A grid holding at least one sample has every extent positive. */
  lemma PositiveExtents(s: Size)
    requires Count(s) > 0
    ensures s.x > 0 && s.y > 0 && s.z > 0
  {
  }

  /** One step of decoding a row-major offset. */
  lemma Decompose(o: int, d: int, bound: int)
    requires d > 0 && 0 <= o < d * bound
    ensures 0 <= o % d < d && 0 <= o / d < bound && o == o % d + d * (o / d)
  {
    assert d * (o / d) <= o;
    MulLessCancel(d, o / d, bound);
  }

  /** Every offset in range is the offset of the point it decodes to. */
  lemma OffsetOfCoord(s: Size, o: int)
    requires 0 <= o < Count(s)
    ensures s.x > 0 && s.y > 0 && s.z > 0
    ensures InGrid(s, CoordOf(s, o)) && Offset(s, CoordOf(s, o)) == o
  {
    PositiveExtents(s);
    Decompose(o, s.x, s.y * s.z);
    Decompose(o / s.x, s.y, s.z);
  }

  lemma OffsetInjective(s: Size, p: Point, q: Point)
    requires InGrid(s, p) && InGrid(s, q) && Offset(s, p) == Offset(s, q)
    ensures p == q
  {
    CoordOfOffset(s, p);
    CoordOfOffset(s, q);
  }

  /** Offsets are linear in the point. */
  lemma OffsetAdd(s: Size, p: Point, d: Point)
    ensures Offset(s, Add(p, d)) == Offset(s, p) + Offset(s, d)
  {
    assert s.y * (p.z + d.z) == s.y * p.z + s.y * d.z;
    assert s.x * ((p.y + d.y) + s.y * (p.z + d.z)) == s.x * (p.y + s.y * p.z) + s.x * (d.y + s.y * d.z);
  }

  /* ---- Flat structuring elements ---- */

  function Coord(p: Point, axis: nat): int
    requires axis < 3
  {
    if axis == 0 then p.x else if axis == 1 then p.y else p.z
  }

  /** min(0, smallest coordinate of the points along axis). */
  function Lowest(pts: seq<Point>, axis: nat): (r: int)
    requires axis < 3
    ensures r <= 0
    ensures forall i | 0 <= i < |pts| :: r <= Coord(pts[i], axis)
  {
    if pts == [] then 0
    else
      var rest := Lowest(pts[..|pts| - 1], axis);
      var c := Coord(pts[|pts| - 1], axis);
      if c < rest then c else rest
  }

  /** max(0, largest coordinate of the points along axis). */
  function Highest(pts: seq<Point>, axis: nat): (r: int)
    requires axis < 3
    ensures r >= 0
    ensures forall i | 0 <= i < |pts| :: Coord(pts[i], axis) <= r
  {
    if pts == [] then 0
    else
      var rest := Highest(pts[..|pts| - 1], axis);
      var c := Coord(pts[|pts| - 1], axis);
      if c > rest then c else rest
  }

  /** Border widths needed before the grid: |min(0, min coordinate)| per axis. */
  function NegativeOffsets(se: FlatSE): Size
  {
    Size(-Lowest(se.points, 0), -Lowest(se.points, 1), -Lowest(se.points, 2))
  }

  /** Border widths needed after the grid: max(0, max coordinate) per axis. */
  function PositiveOffsets(se: FlatSE): Size
  {
    Size(Highest(se.points, 0), Highest(se.points, 1), Highest(se.points, 2))
  }

  /** Every point of se lies within the extents that size the borders. */
  lemma PointsWithinExtents(se: FlatSE, i: int)
    requires 0 <= i < |se.points|
    ensures 0 <= se.points[i].x + NegativeOffsets(se).x && se.points[i].x <= PositiveOffsets(se).x
    ensures 0 <= se.points[i].y + NegativeOffsets(se).y && se.points[i].y <= PositiveOffsets(se).y
    ensures 0 <= se.points[i].z + NegativeOffsets(se).z && se.points[i].z <= PositiveOffsets(se).z
  {
    assert Coord(se.points[i], 0) == se.points[i].x;
    assert Coord(se.points[i], 1) == se.points[i].y;
    assert Coord(se.points[i], 2) == se.points[i].z;
  }

  /** The symmetric element: every point negated. */
  function MakeSymmetric(se: FlatSE): (r: FlatSE)
    ensures |r.points| == |se.points|
    ensures forall i | 0 <= i < |se.points| :: r.points[i] == Neg(se.points[i])
  {
    FlatSE(seq(|se.points|, i requires 0 <= i < |se.points| => Neg(se.points[i])))
  }

  /** The relative offsets of the points in a grid of the given size (setContext). */
  function Offsets(se: FlatSE, s: Size): (r: seq<int>)
    ensures |r| == |se.points|
    ensures forall i | 0 <= i < |r| :: r[i] == Offset(s, se.points[i])
  {
    seq(|se.points|, i requires 0 <= i < |se.points| => Offset(s, se.points[i]))
  }

  /** A point of the original grid, seen in a grid padded by pre/post, stays inside
      the padded grid when moved by any displacement within [-pre, post]. */
  lemma ShiftInPadded(s: Size, pre: Size, post: Size, p: Point, d: Point)
    requires InGrid(s, p)
    requires 0 <= d.x + pre.x && d.x <= post.x && 0 <= d.y + pre.y && d.y <= post.y
    requires 0 <= d.z + pre.z && d.z <= post.z
    ensures InGrid(Grow(s, pre, post), Add(Add(p, AsPoint(pre)), d))
  {
  }
}
