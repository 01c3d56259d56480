/** Border padding and flat grey-level morphology (Algorithms/Morphology.hxx).

    The sample type's numeric limits (std::numeric_limits<T>::min() and max()) are
    the parameters tmin and tmax: dilation pads with tmin and erosion with tmax.
    Samples are unbounded integers; every lemma that compares against the padding
    asks that the image's samples lie in [tmin, tmax], as they do for the type. */
module Morphology {
  import opened Grid

  /** The sample of im at p, or pad when p lies outside the grid: what a copy of im
      padded with pad holds at the corresponding position. */
  function At<T>(im: Image<T>, p: Point, pad: T): T
    requires Valid(im)
  {
    if InGrid(im.size, p) then OffsetInRange(im.size, p); im.data[Offset(im.size, p)] else pad
  }

  /** The grid that addBorders builds: size grown by pre and post, the original
      copied at offset pre, every other cell holding v. */
  function Padded<T>(im: Image<T>, pre: Size, post: Size, v: T): (r: Image<T>)
    requires Valid(im)
    ensures Valid(r) && r.size == Grow(im.size, pre, post)
  {
    var g := Grow(im.size, pre, post);
    Image(g, seq(Count(g), o requires 0 <= o < Count(g) =>
      PositiveExtents(g); At(im, Sub(CoordOf(g, o), AsPoint(pre)), v)))
  }

  predicate SamplesIn(im: Image<int>, lo: int, hi: int)
  {
    forall i | 0 <= i < |im.data| :: lo <= im.data[i] <= hi
  }

  /** Pads im with v: a fresh grid is filled with v, then im is copied into it at
      offset pre (Morphology.hxx:18-37). */
  method AddBorders<T(0)>(im: Image<T>, pre: Size, post: Size, v: T) returns (r: Image<T>)
    requires Valid(im)
    ensures r == Padded(im, pre, post, v)
  {
    var g := Grow(im.size, pre, post);
    var n := Count(g);
    var temp := new T[n];
    var i := 0;
    while i < n
      invariant 0 <= i <= n
      invariant forall q | 0 <= q < i :: temp[q] == v
    {
      temp[i] := v;
      i := i + 1;
    }
    var j := 0;
    while j < |im.data|
      invariant 0 <= j <= |im.data|
      invariant forall q | 0 <= q < n :: temp[q] == CopiedBelow(im, g, pre, v, q, j)
    {
      var p := CoordOfValid(im, j);
      var dst := Offset(g, Add(p, AsPoint(pre)));
      OffsetInRange(g, Add(p, AsPoint(pre)));
      temp[dst] := im.data[j];
      forall q | 0 <= q < n
        ensures temp[q] == CopiedBelow(im, g, pre, v, q, j + 1)
      {
        CopyStep(im, g, pre, post, v, q, j);
      }
      j := j + 1;
    }
    forall q | 0 <= q < n
      ensures temp[q] == Padded(im, pre, post, v).data[q]
    {
      OffsetOfCoord(g, q);
      var p := Sub(CoordOf(g, q), AsPoint(pre));
      if InGrid(im.size, p) {
        OffsetInRange(im.size, p);
      }
    }
    r := Image(g, temp[..]);
  }

  /** The coordinates of an offset of a valid grid, decoded. */
  function CoordOfValid<T>(im: Image<T>, o: int): (p: Point)
    requires Valid(im) && 0 <= o < |im.data|
    ensures InGrid(im.size, p) && Offset(im.size, p) == o
  {
    OffsetOfCoord(im.size, o);
    CoordOf(im.size, o)
  }

  /** What cell q of the grid being padded holds once the first j samples are copied. */
  function CopiedBelow<T>(im: Image<T>, g: Size, pre: Size, v: T, q: int, j: int): T
    requires Valid(im) && 0 <= q < Count(g)
  {
    PositiveExtents(g);
    var p := Sub(CoordOf(g, q), AsPoint(pre));
    if InGrid(im.size, p) && Offset(im.size, p) < j then At(im, p, v) else v
  }

  lemma CopyStep<T>(im: Image<T>, g: Size, pre: Size, post: Size, v: T, q: int, j: int)
    requires Valid(im) && g == Grow(im.size, pre, post)
    requires 0 <= q < Count(g) && 0 <= j < |im.data|
    ensures var p := CoordOfValid(im, j);
      q == Offset(g, Add(p, AsPoint(pre))) ==> CopiedBelow(im, g, pre, v, q, j + 1) == im.data[j]
    ensures var p := CoordOfValid(im, j);
      q != Offset(g, Add(p, AsPoint(pre))) ==> CopiedBelow(im, g, pre, v, q, j + 1) == CopiedBelow(im, g, pre, v, q, j)
  {
    var p := CoordOfValid(im, j);
    OffsetOfCoord(g, q);
    var c := CoordOf(g, q);
    var p' := Sub(c, AsPoint(pre));
    if q == Offset(g, Add(p, AsPoint(pre))) {
      CoordOfOffset(g, Add(p, AsPoint(pre)));
      assert p' == p;
    } else if InGrid(im.size, p') && Offset(im.size, p') == j {
      OffsetInjective(im.size, p', p);
    }
  }

  /** Cell o of the padded grid reads the original at its coordinates less pre. */
  lemma PaddedAt<T>(im: Image<T>, pre: Size, post: Size, v: T, o: int)
    requires Valid(im) && 0 <= o < Count(Grow(im.size, pre, post))
    ensures Grow(im.size, pre, post).x > 0 && Grow(im.size, pre, post).y > 0
    ensures Padded(im, pre, post, v).data[o] == At(im, Sub(CoordOf(Grow(im.size, pre, post), o), AsPoint(pre)), v)
  {
    PositiveExtents(Grow(im.size, pre, post));
  }

  /** The original sample at p (inside the grid) lands at p + pre in the padded grid. */
  lemma PaddedPlacesOriginal<T>(im: Image<T>, pre: Size, post: Size, v: T, p: Point)
    requires Valid(im) && InGrid(im.size, p)
    ensures var r := Padded(im, pre, post, v);
      InGrid(r.size, Add(p, AsPoint(pre))) && 0 <= Offset(r.size, Add(p, AsPoint(pre))) < |r.data|
      && r.data[Offset(r.size, Add(p, AsPoint(pre)))] == At(im, p, v)
  {
    ReadThroughPadding(im, pre, post, v, p, Point(0, 0, 0));
    assert Add(p, Point(0, 0, 0)) == p;
    ShiftInPadded(im.size, pre, post, p, Point(0, 0, 0));
  }

  /** Every cell of the padded grid outside the copy of the original holds v. */
  lemma PaddedBorder<T>(im: Image<T>, pre: Size, post: Size, v: T, q: Point)
    requires Valid(im) && InGrid(Grow(im.size, pre, post), q) && !InGrid(im.size, Sub(q, AsPoint(pre)))
    ensures var r := Padded(im, pre, post, v);
      0 <= Offset(r.size, q) < |r.data| && r.data[Offset(r.size, q)] == v
  {
    var g := Grow(im.size, pre, post);
    OffsetInRange(g, q);
    CoordOfOffset(g, q);
    PaddedAt(im, pre, post, v, Offset(g, q));
  }

  /** Reading the padded grid at (p + pre) + d, for d within [-pre, post], reads the
      original at p + d, or the padding value outside it. */
  lemma ReadThroughPadding<T>(im: Image<T>, pre: Size, post: Size, v: T, p: Point, d: Point)
    requires Valid(im) && InGrid(im.size, p)
    requires 0 <= d.x + pre.x && d.x <= post.x && 0 <= d.y + pre.y && d.y <= post.y
    requires 0 <= d.z + pre.z && d.z <= post.z
    ensures var r := Padded(im, pre, post, v);
      var o := Offset(r.size, Add(p, AsPoint(pre))) + Offset(r.size, d);
      0 <= o < |r.data| && r.data[o] == At(im, Add(p, d), v)
  {
    var g := Grow(im.size, pre, post);
    var q := Add(Add(p, AsPoint(pre)), d);
    OffsetAdd(g, Add(p, AsPoint(pre)), d);
    ShiftInPadded(im.size, pre, post, p, d);
    OffsetInRange(g, q);
    CoordOfOffset(g, q);
    PaddedAt(im, pre, post, v, Offset(g, q));
    assert Sub(q, AsPoint(pre)) == Add(p, d);
  }

  /** The SE overload sizes the border from the element itself: back is
      |min(0, min coordinate)| and front is max(0, max coordinate) per axis, and the
      original is copied at offset |back| (Morphology.hxx:39-78). */
  method AddBordersSE<T(0)>(im: Image<T>, se: FlatSE, v: T) returns (r: Image<T>)
    requires Valid(im)
    ensures r == Padded(im, NegativeOffsets(se), PositiveOffsets(se), v)
    ensures r.size == Grow(im.size, NegativeOffsets(se), PositiveOffsets(se))
  {
    var pts := se.points;
    var lx, ly, lz := 0, 0, 0;
    var k := 0;
    while k < |pts|
      invariant 0 <= k <= |pts|
      invariant lx == Lowest(pts[..k], 0) && ly == Lowest(pts[..k], 1) && lz == Lowest(pts[..k], 2)
    {
      assert pts[..k + 1][..k] == pts[..k];
      lx := if pts[k].x < lx then pts[k].x else lx;
      ly := if pts[k].y < ly then pts[k].y else ly;
      lz := if pts[k].z < lz then pts[k].z else lz;
      k := k + 1;
    }
    assert pts[..k] == pts;
    var fx, fy, fz := 0, 0, 0;
    k := 0;
    while k < |pts|
      invariant 0 <= k <= |pts|
      invariant fx == Highest(pts[..k], 0) && fy == Highest(pts[..k], 1) && fz == Highest(pts[..k], 2)
    {
      assert pts[..k + 1][..k] == pts[..k];
      fx := if pts[k].x > fx then pts[k].x else fx;
      fy := if pts[k].y > fy then pts[k].y else fy;
      fz := if pts[k].z > fz then pts[k].z else fz;
      k := k + 1;
    }
    assert pts[..k] == pts;
    r := AddBorders(im, Size(-lx, -ly, -lz), Size(fx, fy, fz), v);
  }

  /* ---- Dilation and erosion ---- */

  function Max(a: int, b: int): int { if a < b then b else a }
  function Min(a: int, b: int): int { if b < a then b else a }

  /** Running maximum, from pad, of the samples at p + d for the displacements d of
      pts, taken in order, reading pad outside the grid. */
  function SupOver(im: Image<int>, pts: seq<Point>, p: Point, pad: int): int
    requires Valid(im)
  {
    if pts == [] then pad
    else Max(SupOver(im, pts[..|pts| - 1], p, pad), At(im, Add(p, pts[|pts| - 1]), pad))
  }

  /** Running minimum, from pad, of the samples at p + d for the displacements d of pts. */
  function InfOver(im: Image<int>, pts: seq<Point>, p: Point, pad: int): int
    requires Valid(im)
  {
    if pts == [] then pad
    else Min(InfOver(im, pts[..|pts| - 1], p, pad), At(im, Add(p, pts[|pts| - 1]), pad))
  }

  /** Dilation at p: the maximum over the symmetric element (p - s for s in se). */
  function DilateAt(im: Image<int>, se: FlatSE, tmin: int, p: Point): int
    requires Valid(im)
  {
    SupOver(im, MakeSymmetric(se).points, p, tmin)
  }

  /** Erosion at p: the minimum over the element (p + s for s in se). */
  function ErodeAt(im: Image<int>, se: FlatSE, tmax: int, p: Point): int
    requires Valid(im)
  {
    InfOver(im, se.points, p, tmax)
  }

  function DilationImage(im: Image<int>, se: FlatSE, tmin: int): (r: Image<int>)
    requires Valid(im)
    ensures Valid(r) && r.size == im.size
  {
    Image(im.size, seq(|im.data|, o requires 0 <= o < |im.data| => DilateAt(im, se, tmin, CoordOfValid(im, o))))
  }

  function ErosionImage(im: Image<int>, se: FlatSE, tmax: int): (r: Image<int>)
    requires Valid(im)
    ensures Valid(r) && r.size == im.size
  {
    Image(im.size, seq(|im.data|, o requires 0 <= o < |im.data| => ErodeAt(im, se, tmax, CoordOfValid(im, o))))
  }

  /** Pointwise difference a - b of two grids of one size (Image's operator -=). */
  function Difference(a: Image<int>, b: Image<int>): (r: Image<int>)
    requires Valid(a) && Valid(b) && a.size == b.size
    ensures Valid(r) && r.size == a.size
  {
    Image(a.size, seq(|a.data|, i requires 0 <= i < |a.data| => a.data[i] - b.data[i]))
  }

  /** The inner loop of dilation and erosion: the running maximum (or minimum), from
      pad, of the padded grid read at the element's offsets around p. */
  method ExtremumThroughPadding(im: Image<int>, se: FlatSE, pad: int, padded: Image<int>,
                                offs: seq<int>, p: Point, takeMax: bool) returns (m: int)
    requires Valid(im) && InGrid(im.size, p)
    requires padded == Padded(im, NegativeOffsets(se), PositiveOffsets(se), pad)
    requires offs == Offsets(se, padded.size)
    ensures takeMax ==> m == SupOver(im, se.points, p, pad)
    ensures !takeMax ==> m == InfOver(im, se.points, p, pad)
  {
    var back := NegativeOffsets(se);
    var offsetRes := Offset(padded.size, Add(p, AsPoint(back)));
    m := pad;
    var k := 0;
    while k < |offs|
      invariant 0 <= k <= |offs|
      invariant takeMax ==> m == SupOver(im, se.points[..k], p, pad)
      invariant !takeMax ==> m == InfOver(im, se.points[..k], p, pad)
    {
      PointsWithinExtents(se, k);
      ReadThroughPadding(im, back, PositiveOffsets(se), pad, p, se.points[k]);
      assert se.points[..k + 1][..k] == se.points[..k];
      m := if takeMax then Max(m, padded.data[offsetRes + offs[k]]) else Min(m, padded.data[offsetRes + offs[k]]);
      k := k + 1;
    }
    assert se.points[..k] == se.points;
  }

  /** Grey dilation by the symmetric of se (Morphology.hxx:80-117): the input is padded
      with tmin by the symmetric element's extents, and each output sample is the
      running maximum over the element's offsets in the padded grid. */
  method Dilation(im: Image<int>, se: FlatSE, tmin: int) returns (res: Image<int>)
    requires Valid(im)
    ensures res == DilationImage(im, se, tmin)
  {
    var sym := MakeSymmetric(se);
    var padded := AddBorders(im, NegativeOffsets(sym), PositiveOffsets(sym), tmin);
    var offs := Offsets(sym, padded.size);
    var out := new int[|im.data|](i requires 0 <= i < |im.data| => im.data[i]);
    ghost var spec := DilationImage(im, se, tmin).data;
    var o := 0;
    while o < |im.data|
      invariant 0 <= o <= |im.data|
      invariant forall j | 0 <= j < o :: out[j] == spec[j]
    {
      var currentMax := ExtremumThroughPadding(im, sym, tmin, padded, offs, CoordOfValid(im, o), true);
      out[o] := currentMax;
      o := o + 1;
    }
    assert out[..] == spec;
    res := Image(im.size, out[..]);
  }

  /** Grey erosion by se (Morphology.hxx:119-152): padding with tmax, running minimum. */
  method Erosion(im: Image<int>, se: FlatSE, tmax: int) returns (res: Image<int>)
    requires Valid(im)
    ensures res == ErosionImage(im, se, tmax)
  {
    var padded := AddBorders(im, NegativeOffsets(se), PositiveOffsets(se), tmax);
    var offs := Offsets(se, padded.size);
    var out := new int[|im.data|](i requires 0 <= i < |im.data| => im.data[i]);
    ghost var spec := ErosionImage(im, se, tmax).data;
    var o := 0;
    while o < |im.data|
      invariant 0 <= o <= |im.data|
      invariant forall j | 0 <= j < o :: out[j] == spec[j]
    {
      var currentMin := ExtremumThroughPadding(im, se, tmax, padded, offs, CoordOfValid(im, o), false);
      out[o] := currentMin;
      o := o + 1;
    }
    assert out[..] == spec;
    res := Image(im.size, out[..]);
  }

  /** opening = dilation(erosion(im)) with the same element (Morphology.hxx:154-157). */
  method Opening(im: Image<int>, se: FlatSE, tmin: int, tmax: int) returns (res: Image<int>)
    requires Valid(im)
    ensures res == DilationImage(ErosionImage(im, se, tmax), se, tmin)
  {
    var e := Erosion(im, se, tmax);
    res := Dilation(e, se, tmin);
  }

  /** closing = erosion(dilation(im)) with the same element (Morphology.hxx:159-162). */
  method Closing(im: Image<int>, se: FlatSE, tmin: int, tmax: int) returns (res: Image<int>)
    requires Valid(im)
    ensures res == ErosionImage(DilationImage(im, se, tmin), se, tmax)
  {
    var d := Dilation(im, se, tmin);
    res := Erosion(d, se, tmax);
  }

  /** dilation - erosion (Morphology.hxx:164-170). */
  method MorphologicalGradient(im: Image<int>, se: FlatSE, tmin: int, tmax: int) returns (res: Image<int>)
    requires Valid(im)
    ensures res == Difference(DilationImage(im, se, tmin), ErosionImage(im, se, tmax))
  {
    var tmp := Erosion(im, se, tmax);
    var d := Dilation(im, se, tmin);
    res := Difference(d, tmp);
  }

  /** im - erosion (Morphology.hxx:172-177). */
  method InternalMorphologicalGradient(im: Image<int>, se: FlatSE, tmax: int) returns (res: Image<int>)
    requires Valid(im)
    ensures res == Difference(im, ErosionImage(im, se, tmax))
  {
    var tmp := Erosion(im, se, tmax);
    res := Difference(im, tmp);
  }

  /** dilation - im (Morphology.hxx:179-184). */
  method ExternalMorphologicalGradient(im: Image<int>, se: FlatSE, tmin: int) returns (res: Image<int>)
    requires Valid(im)
    ensures res == Difference(DilationImage(im, se, tmin), im)
  {
    var tmp := Dilation(im, se, tmin);
    res := Difference(tmp, im);
  }

  /* ---- Properties of dilation and erosion ---- */

  /** The running maximum bounds every sample read from above. */
  lemma {:induction false} SupOverAtLeast(im: Image<int>, pts: seq<Point>, p: Point, pad: int, k: int)
    requires Valid(im) && 0 <= k < |pts|
    ensures SupOver(im, pts, p, pad) >= At(im, Add(p, pts[k]), pad)
    decreases |pts|
  {
    if k < |pts| - 1 {
      SupOverAtLeast(im, pts[..|pts| - 1], p, pad, k);
    }
  }

  /** The running maximum is pad or one of the samples read, and never below pad. */
  lemma {:induction false} SupOverAttained(im: Image<int>, pts: seq<Point>, p: Point, pad: int) returns (k: int)
    requires Valid(im)
    ensures SupOver(im, pts, p, pad) >= pad
    ensures SupOver(im, pts, p, pad) == pad
         || (0 <= k < |pts| && SupOver(im, pts, p, pad) == At(im, Add(p, pts[k]), pad))
    decreases |pts|
  {
    k := 0;
    if pts != [] {
      k := SupOverAttained(im, pts[..|pts| - 1], p, pad);
      if SupOver(im, pts, p, pad) != SupOver(im, pts[..|pts| - 1], p, pad) {
        k := |pts| - 1;
      }
    }
  }

  /** The running maximum is exactly the maximum of pad and the samples read. */
  lemma SupOverIsMax(im: Image<int>, pts: seq<Point>, p: Point, pad: int)
    requires Valid(im)
    ensures SupOver(im, pts, p, pad) >= pad
    ensures forall k | 0 <= k < |pts| :: SupOver(im, pts, p, pad) >= At(im, Add(p, pts[k]), pad)
    ensures SupOver(im, pts, p, pad) == pad
         || exists k | 0 <= k < |pts| :: SupOver(im, pts, p, pad) == At(im, Add(p, pts[k]), pad)
  {
    var k := SupOverAttained(im, pts, p, pad);
    forall j | 0 <= j < |pts|
      ensures SupOver(im, pts, p, pad) >= At(im, Add(p, pts[j]), pad)
    {
      SupOverAtLeast(im, pts, p, pad, j);
    }
  }

  /** The running minimum bounds every sample read from below. */
  lemma {:induction false} InfOverAtMost(im: Image<int>, pts: seq<Point>, p: Point, pad: int, k: int)
    requires Valid(im) && 0 <= k < |pts|
    ensures InfOver(im, pts, p, pad) <= At(im, Add(p, pts[k]), pad)
    decreases |pts|
  {
    if k < |pts| - 1 {
      InfOverAtMost(im, pts[..|pts| - 1], p, pad, k);
    }
  }

  /** The running minimum is pad or one of the samples read, and never above pad. */
  lemma {:induction false} InfOverAttained(im: Image<int>, pts: seq<Point>, p: Point, pad: int) returns (k: int)
    requires Valid(im)
    ensures InfOver(im, pts, p, pad) <= pad
    ensures InfOver(im, pts, p, pad) == pad
         || (0 <= k < |pts| && InfOver(im, pts, p, pad) == At(im, Add(p, pts[k]), pad))
    decreases |pts|
  {
    k := 0;
    if pts != [] {
      k := InfOverAttained(im, pts[..|pts| - 1], p, pad);
      if InfOver(im, pts, p, pad) != InfOver(im, pts[..|pts| - 1], p, pad) {
        k := |pts| - 1;
      }
    }
  }

  /** The running minimum is exactly the minimum of pad and the samples read. */
  lemma InfOverIsMin(im: Image<int>, pts: seq<Point>, p: Point, pad: int)
    requires Valid(im)
    ensures InfOver(im, pts, p, pad) <= pad
    ensures forall k | 0 <= k < |pts| :: InfOver(im, pts, p, pad) <= At(im, Add(p, pts[k]), pad)
    ensures InfOver(im, pts, p, pad) == pad
         || exists k | 0 <= k < |pts| :: InfOver(im, pts, p, pad) == At(im, Add(p, pts[k]), pad)
  {
    var k := InfOverAttained(im, pts, p, pad);
    forall j | 0 <= j < |pts|
      ensures InfOver(im, pts, p, pad) <= At(im, Add(p, pts[j]), pad)
    {
      InfOverAtMost(im, pts, p, pad, j);
    }
  }

  /** The dilated grid at an in-grid point is the dilation there. */
  lemma DilationImageAt(im: Image<int>, se: FlatSE, tmin: int, q: Point, pad: int)
    requires Valid(im) && InGrid(im.size, q)
    ensures At(DilationImage(im, se, tmin), q, pad) == DilateAt(im, se, tmin, q)
  {
    OffsetInRange(im.size, q);
    CoordOfOffset(im.size, q);
  }

  /** The eroded grid at an in-grid point is the erosion there. */
  lemma ErosionImageAt(im: Image<int>, se: FlatSE, tmax: int, q: Point, pad: int)
    requires Valid(im) && InGrid(im.size, q)
    ensures At(ErosionImage(im, se, tmax), q, pad) == ErodeAt(im, se, tmax, q)
  {
    OffsetInRange(im.size, q);
    CoordOfOffset(im.size, q);
  }

  /** The element holds the origin (0, 0, 0). */
  predicate HasOrigin(se: FlatSE)
  {
    exists k | 0 <= k < |se.points| :: IsOrigin(se.points[k])
  }

  predicate IsOrigin(p: Point)
  {
    p.x == 0 && p.y == 0 && p.z == 0
  }

  /** When se holds the origin, dilation never lowers a sample and erosion never
      raises one. */
  lemma OriginMakesDilationExtensive(im: Image<int>, se: FlatSE, tmin: int, tmax: int, p: Point)
    requires Valid(im) && InGrid(im.size, p) && HasOrigin(se)
    ensures ErodeAt(im, se, tmax, p) <= At(im, p, tmin) <= DilateAt(im, se, tmin, p)
  {
    var k :| 0 <= k < |se.points| && IsOrigin(se.points[k]);
    var sym := MakeSymmetric(se).points;
    assert Add(p, sym[k]) == p && Add(p, se.points[k]) == p;
    SupOverAtLeast(im, sym, p, tmin, k);
    InfOverAtMost(im, se.points, p, tmax, k);
  }

  /** The three morphological gradients are nonnegative when se holds the origin. */
  lemma GradientNonNegative(im: Image<int>, se: FlatSE, tmin: int, tmax: int, i: int)
    requires Valid(im) && HasOrigin(se) && 0 <= i < |im.data|
    ensures Difference(DilationImage(im, se, tmin), ErosionImage(im, se, tmax)).data[i] >= 0
    ensures Difference(im, ErosionImage(im, se, tmax)).data[i] >= 0
    ensures Difference(DilationImage(im, se, tmin), im).data[i] >= 0
  {
    var p := CoordOfValid(im, i);
    OriginMakesDilationExtensive(im, se, tmin, tmax, p);
  }

  /** Opening never raises a sample, whatever the element (samples in [tmin, tmax]). */
  lemma OpeningAntiExtensive(im: Image<int>, se: FlatSE, tmin: int, tmax: int, p: Point)
    requires Valid(im) && SamplesIn(im, tmin, tmax) && InGrid(im.size, p)
    ensures At(DilationImage(ErosionImage(im, se, tmax), se, tmin), p, tmin) <= At(im, p, tmin)
  {
    var e := ErosionImage(im, se, tmax);
    var sym := MakeSymmetric(se).points;
    DilationImageAt(e, se, tmin, p, tmin);
    OffsetInRange(im.size, p);
    var k := SupOverAttained(e, sym, p, tmin);
    if SupOver(e, sym, p, tmin) != tmin {
      var q := Add(p, sym[k]);
      if InGrid(im.size, q) {
        ErosionImageAt(im, se, tmax, q, tmin);
        InfOverAtMost(im, se.points, q, tmax, k);
        assert Add(q, se.points[k]) == p;
      }
    }
  }

  /** Closing never lowers a sample, whatever the element (samples in [tmin, tmax]). */
  lemma ClosingExtensive(im: Image<int>, se: FlatSE, tmin: int, tmax: int, p: Point)
    requires Valid(im) && SamplesIn(im, tmin, tmax) && InGrid(im.size, p)
    ensures At(im, p, tmin) <= At(ErosionImage(DilationImage(im, se, tmin), se, tmax), p, tmin)
  {
    var d := DilationImage(im, se, tmin);
    var sym := MakeSymmetric(se).points;
    ErosionImageAt(d, se, tmax, p, tmin);
    OffsetInRange(im.size, p);
    var k := InfOverAttained(d, se.points, p, tmax);
    if InfOver(d, se.points, p, tmax) != tmax {
      var q := Add(p, se.points[k]);
      if InGrid(im.size, q) {
        DilationImageAt(im, se, tmin, q, tmax);
        SupOverAtLeast(im, sym, q, tmin, k);
        assert Add(q, sym[k]) == p;
      }
    }
  }
}
