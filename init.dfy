/** What init of Algorithms/ComponentTree.hxx hands the flooding: the image and a
    STATUS grid padded by the connectivity's extents, the connectivity as offsets
    of the padded grid, and the range of grey levels of the image. */
module Initialisation {
  import opened Grid
  import Morphology
  import opened Flooding
  import Salembier

  /** The smallest sample of an image (Image::getMin); 0 when there is none. */
  function ImageMin(d: seq<int>): (r: int)
    ensures forall i | 0 <= i < |d| :: r <= d[i]
  {
    if d == [] then 0
    else if |d| == 1 then d[0]
    else
      var rest := ImageMin(d[..|d| - 1]);
      assert forall i | 0 <= i < |d| - 1 :: d[..|d| - 1][i] == d[i];
      if d[|d| - 1] < rest then d[|d| - 1] else rest
  }

  /** The largest sample of an image (Image::getMax); 0 when there is none. */
  function ImageMax(d: seq<int>): (r: int)
    ensures forall i | 0 <= i < |d| :: d[i] <= r
  {
    if d == [] then 0
    else if |d| == 1 then d[0]
    else
      var rest := ImageMax(d[..|d| - 1]);
      assert forall i | 0 <= i < |d| - 1 :: d[..|d| - 1][i] == d[i];
      if d[|d| - 1] > rest then d[|d| - 1] else rest
  }

  lemma {:induction false} ImageMinAttained(d: seq<int>) returns (i: int)
    requires d != []
    ensures 0 <= i < |d| && d[i] == ImageMin(d)
  {
    if |d| == 1 {
      i := 0;
    } else if d[|d| - 1] < ImageMin(d[..|d| - 1]) {
      i := |d| - 1;
    } else {
      i := ImageMinAttained(d[..|d| - 1]);
    }
  }

  lemma {:induction false} ImageMaxAttained(d: seq<int>) returns (i: int)
    requires d != []
    ensures 0 <= i < |d| && d[i] == ImageMax(d)
  {
    if |d| == 1 {
      i := 0;
    } else if d[|d| - 1] > ImageMax(d[..|d| - 1]) {
      i := |d| - 1;
    } else {
      i := ImageMaxAttained(d[..|d| - 1]);
    }
  }

  /** numberOfLevels: hMax - hMin + 1. */
  function Levels(im: Image<int>): int
  {
    ImageMax(im.data) - ImageMin(im.data) + 1
  }

  /** There is always at least one level. */
  lemma LevelsPositive(im: Image<int>)
    ensures Levels(im) >= 1
  {
    if im.data != [] {
      var i := ImageMinAttained(im.data);
    }
  }

  /** The STATUS grid before padding: every cell ACTIVE.  A cell of the padded
      STATUS grid is written true when it holds BORDER_STATUS. */
  function ActiveGrid(im: Image<int>): (r: Image<bool>)
    ensures Valid(r) == Valid(im) && r.size == im.size
  {
    Image(im.size, seq(|im.data|, _ => false))
  }

  /** The setup init leaves: imBorder is im padded with the border value bv, STATUS
      is padded with BORDER_STATUS, both by the connectivity's negative extents
      before and positive extents after; the connectivity's points become offsets
      of the padded grid (setContext), and hMin is the image's minimum.  far is the
      start of a new node's lower box bounds. */
  function InitSetup(im: Image<int>, se: FlatSE, bv: int, far: int): Setup
    requires Valid(im)
  {
    var pre, post := NegativeOffsets(se), PositiveOffsets(se);
    var padded := Morphology.Padded(im, pre, post, bv);
    var mask := Morphology.Padded(ActiveGrid(im), pre, post, true);
    Setup(padded.data, mask.data, Frame(padded.size, im.size, AsPoint(pre)), Offsets(se, padded.size), ImageMin(im.data), far)
  }

  /** Each cell of the padded grid: it is border exactly when it lies outside the
      copy of the original; a border cell holds bv; a cell that is not border holds
      a level of the image's range and its neighbours are cells of the padded grid. */
  lemma CellReady(im: Image<int>, se: FlatSE, bv: int, far: int, c: int)
    requires Valid(im) && 0 <= c < |InitSetup(im, se, bv, far).img|
    ensures var s := InitSetup(im, se, bv, far);
      |s.border| == |s.img| == Count(s.frame.padded) && s.frame.padded.x > 0 && s.frame.padded.y > 0 &&
      (s.border[c] <==> !Inside(s, c)) && (s.border[c] ==> s.img[c] == bv) &&
      (!s.border[c] ==> InteriorAt(s, Levels(im), c))
  {
    var s := InitSetup(im, se, bv, far);
    var pre, post := NegativeOffsets(se), PositiveOffsets(se);
    var g := Grow(im.size, pre, post);
    Morphology.PaddedAt(im, pre, post, bv, c);
    Morphology.PaddedAt(ActiveGrid(im), pre, post, true, c);
    OffsetOfCoord(g, c);
    var p := Sub(CoordOf(g, c), AsPoint(pre));
    assert ImCoord(s.frame, c) == p;
    if InGrid(im.size, p) {
      OffsetInRange(im.size, p);
      var o := Offset(im.size, p);
      assert s.img[c] == im.data[o];
      assert ImageMin(im.data) <= im.data[o] <= ImageMax(im.data);
      assert Add(p, AsPoint(pre)) == CoordOf(g, c);
      forall k | 0 <= k < |s.se|
        ensures 0 <= c + s.se[k] < |s.img|
      {
        PointsWithinExtents(se, k);
        Morphology.ReadThroughPadding(im, pre, post, bv, p, se.points[k]);
      }
    }
  }

  /** The original pixel at offset off is read at its own place in imBorder. */
  lemma GreyReady(im: Image<int>, se: FlatSE, bv: int, far: int, off: int)
    requires Valid(im) && 0 <= off < |im.data|
    ensures GreyOf(InitSetup(im, se, bv, far), off) == im.data[off]
    ensures var s := InitSetup(im, se, bv, far);
      0 <= CellOf(s.frame, off) < |s.img| && !s.border[CellOf(s.frame, off)]
  {
    var pre, post := NegativeOffsets(se), PositiveOffsets(se);
    var p := Morphology.CoordOfValid(im, off);
    PositiveExtents(im.size);
    assert PixelCoord(im.size, off) == p;
    Morphology.PaddedPlacesOriginal(im, pre, post, bv, p);
    Morphology.PaddedPlacesOriginal(ActiveGrid(im), pre, post, true, p);
  }

  /** init's padded setup satisfies what the flooding asks of its input, and ties
      the padded grid back to the image: the border mask is exactly the cells
      outside the original, border cells hold bv, each original pixel is read at
      its place, and, for an image with a pixel, some cell that is not border holds
      hMin (the cell the flooding starts from). */
  lemma InitSetupReady(im: Image<int>, se: FlatSE, bv: int, far: int)
    requires Valid(im) && im.size.x <= far && im.size.y <= far && im.size.z <= far
    ensures var s := InitSetup(im, se, bv, far);
      |s.border| == |s.img| == Count(s.frame.padded) &&
      s.frame.padded == Grow(im.size, NegativeOffsets(se), PositiveOffsets(se)) &&
      s.hMin == ImageMin(im.data) && Levels(im) >= 1 &&
      Interior(s, Levels(im)) && Framed(s) && Far(s)
    ensures var s := InitSetup(im, se, bv, far);
      forall c | 0 <= c < |s.img| :: (s.border[c] <==> !Inside(s, c)) && (s.border[c] ==> s.img[c] == bv)
    ensures forall off | 0 <= off < |im.data| :: GreyOf(InitSetup(im, se, bv, far), off) == im.data[off]
    ensures var s := InitSetup(im, se, bv, far);
      im.data != [] ==>
        s.frame.padded.x > 0 && s.frame.padded.y > 0 &&
        exists c | 0 <= c < |s.img| :: !s.border[c] && s.img[c] == s.hMin
  {
    var s := InitSetup(im, se, bv, far);
    LevelsPositive(im);
    forall c | 0 <= c < |s.img|
      ensures (s.border[c] <==> !Inside(s, c)) && (s.border[c] ==> s.img[c] == bv)
      ensures !s.border[c] ==> InteriorAt(s, Levels(im), c)
    {
      CellReady(im, se, bv, far, c);
    }
    forall off | 0 <= off < |im.data|
      ensures GreyOf(s, off) == im.data[off]
    {
      GreyReady(im, se, bv, far, off);
    }
    if im.data != [] {
      var i := ImageMinAttained(im.data);
      GreyReady(im, se, bv, far, i);
      var c := CellOf(s.frame, i);
      CellReady(im, se, bv, far, c);
      assert !s.border[c] && s.img[c] == s.hMin;
    }
  }

  /** init: pads the image with bv and the all-ACTIVE STATUS grid with
      BORDER_STATUS by the connectivity's extents, turns the connectivity into
      offsets of the padded grid, and sets up one queue per level from hMin to
      hMax.  The builder is then ready for computeTree: a cell of level hMin is
      ACTIVE. */
  method Init(im: Image<int>, se: FlatSE, bv: int, far: int) returns (b: Salembier.Builder)
    requires Valid(im) && im.data != [] && im.size.x <= far && im.size.y <= far && im.size.z <= far
    ensures fresh(b) && b.setup == InitSetup(im, se, bv, far) && b.Inv() && |b.hq| == Levels(im)
    ensures b.popped == [] && b.nodes == [] && b.index == map[]
    ensures forall l | 0 <= l < |b.hq| :: b.hq[l] == [] && b.numberNodes[l] == 0 && !b.nodeAtLevel[l]
    ensures exists c | 0 <= c < |b.status| :: b.status[c] == Active && b.setup.img[c] == b.setup.hMin
  {
    var imBorder := Morphology.AddBordersSE(im, se, bv);
    var status := Morphology.AddBordersSE(ActiveGrid(im), se, true);
    var s := Setup(imBorder.data, status.data, Frame(imBorder.size, im.size, AsPoint(NegativeOffsets(se))),
                   Offsets(se, imBorder.size), ImageMin(im.data), far);
    assert s == InitSetup(im, se, bv, far);
    InitSetupReady(im, se, bv, far);
    b := new Salembier.Builder(s, Levels(im));
  }
}
