/** computeAttributes with a selection mask: the integer attribute passes run on
    the finished tree in the library's order (area, contrast, volume, contour,
    bounding box), each only when selected.  Every selected attribute comes out as
    its own pass computes it on the tree given, and the volume is computed from
    the areas of the same call when those are selected too. */
module Dispatch {
  import opened Tree
  import opened Attributes
  import opened Boxes
  import opened Flooding
  import opened Contour
  import Queries

  /** The attributes asked for.  The flag values of the library's enumeration are
      not part of this model; each flag is a field. */
  datatype Selection = Selection(
    area: bool, otsu: bool, areaDerivatives: bool, contrast: bool, volume: bool,
    borderGradient: bool, complexity: bool, boundingBox: bool, subNodes: bool)

  /** Both the border gradient and the complexity need the contour pass. */
  predicate Contoured(sel: Selection)
  {
    sel.borderGradient || sel.complexity
  }

  /** The selection restricted to the first k passes. */
  function Upto(sel: Selection, k: int): (r: Selection)
    ensures Contoured(r) ==> Contoured(sel)
  {
    sel.(area := sel.area && k > 0, contrast := sel.contrast && k > 1, volume := sel.volume && k > 2,
         borderGradient := sel.borderGradient && k > 3, complexity := sel.complexity && k > 3,
         boundingBox := sel.boundingBox && k > 4)
  }

  /** The arena after the area pass alone. */
  function AreaPass(t: seq<Node>): (r: seq<Node>)
    requires Nested(t)
    ensures |r| == |t| && forall y | 0 <= y < |t| :: r[y] == t[y].(area := SubtreeArea(t, y))
  {
    seq(|t|, y requires 0 <= y < |t| => t[y].(area := SubtreeArea(t, y)))
  }

  lemma AreaPassShape(t: seq<Node>, root: int)
    requires Shaped(t, root)
    ensures SameHeights(t, AreaPass(t)) && Shaped(AreaPass(t), root) && Attributes.Linked(AreaPass(t))
  {
    ShapedSameShape(t, AreaPass(t), root);
    ShapedLinked(AreaPass(t), root);
  }

  /** The volume of y's subtree, from the areas the area pass leaves when withArea
      and else from the areas stored. */
  function VolumeFrom(t: seq<Node>, root: int, withArea: bool, y: int): int
    requires Shaped(t, root) && 0 <= y < |t|
  {
    ShapedLinked(t, root);
    AreaPassShape(t, root);
    SubtreeVolume(AreaBase(t, withArea), y)
  }

  /** Node y after computeAttributes with selection sel: each selected attribute as
      its pass computes it on t. */
  function Expected(s: Setup, status: seq<Status>, index: map<(int, int), int>, t: seq<Node>, root: int,
                    sel: Selection, y: int): Node
    requires Shaped(t, root) && 0 <= y < |t| && (Contoured(sel) ==> Ready(s, status, index, t, root))
  {
    var n1 := if sel.area then t[y].(area := SubtreeArea(t, y)) else t[y];
    var n2 := if sel.contrast then n1.(contrast := ContrastOf(t, y)) else n1;
    var n3 := if sel.volume then n2.(volume := VolumeFrom(t, root, sel.area, y)) else n2;
    var n4 := if Contoured(sel) then Counted(n3, Hits(s, status, index, t, root, y, |status|), sel.borderGradient) else n3;
    if sel.boundingBox then WithBox(n4, SubtreeBox(t, y)) else n4
  }

  /** After the first k passes every node is as the selection of those passes
      leaves it. */
  predicate Done(s: Setup, status: seq<Status>, index: map<(int, int), int>, t: seq<Node>, root: int,
                 sel: Selection, k: int, u: seq<Node>)
    requires Shaped(t, root) && (Contoured(sel) ==> Ready(s, status, index, t, root))
  {
    |u| == |t| && forall y | 0 <= y < |t| :: u[y] == Expected(s, status, index, t, root, Upto(sel, k), y)
  }

  /** On a tree as the flooding leaves it (each node at its original level, owning
      as many pixels as its area says, each pixel of that grey level), the volume
      computeAttributes stores on the root, with the area and volume selected, is
      the grey mass of the pixels of the tree: by what the flooding ensures, the
      sum of the grey levels of the labelled cells. */
  lemma BuiltRootVolume(s: Setup, status: seq<Status>, index: map<(int, int), int>, t: seq<Node>, root: int,
                        sel: Selection, u: seq<Node>)
    requires Shaped(t, root) && (Contoured(sel) ==> Ready(s, status, index, t, root)) && sel.area && sel.volume
    requires forall n | 0 <= n < |t| :: t[n].area == |t[n].pixels| && t[n].h == t[n].oriH
    requires forall n | 0 <= n < |t| :: forall i | 0 <= i < |t[n].pixels| :: GreyOf(s, t[n].pixels[i]) == t[n].oriH
    requires |u| == |t| && forall y | 0 <= y < |t| :: u[y] == Expected(s, status, index, t, root, sel, y)
    ensures u[root].volume == PixelMass(s, PixelsOf(t, Desc(t, root)))
  {
    var a := AreaPass(t);
    var d := Desc(t, root);
    AreaPassShape(t, root);
    ShapedLinked(t, root);
    AreaThenCounted(t, root, root, a);
    RootVolumeIsGreyMass(a, root);
    DescSameShape(t, a, root);
    SumFrame(t, a, d, GreyMass);
    NodesMass(s, t, d, GreyMass);
    assert u[root] == Expected(s, status, index, t, root, sel, root);
  }

  /** getAttribute on node y after computeAttributes, on a tree whose nodes hold
      their own pixel counts as the builder leaves them: H is the node's level;
      with the area selected, AREA is the number of pixels of y's subtree; with the
      contrast selected, CONTRAST is the largest level difference between y and a
      node of its subtree; with area and volume selected, VOLUME is the grey mass
      of y's subtree less its pixel count times the father's level (0 at the root). */
  lemma AttributesRead(s: Setup, status: seq<Status>, index: map<(int, int), int>, t: seq<Node>, root: int,
                       sel: Selection, u: seq<Node>, y: int)
    requires Shaped(t, root) && (Contoured(sel) ==> Ready(s, status, index, t, root))
    requires forall n | 0 <= n < |t| :: t[n].area == |t[n].pixels|
    requires |u| == |t| && forall z | 0 <= z < |t| :: u[z] == Expected(s, status, index, t, root, sel, z)
    requires 0 <= y < |t|
    ensures Queries.GetAttribute(u[y], Queries.H) == t[y].h
    ensures sel.area ==> Queries.GetAttribute(u[y], Queries.Area) == |PixelsOf(t, Desc(t, y))|
    ensures sel.contrast ==>
      (forall z | z in Desc(t, y) :: 0 <= z < |t| && Queries.GetAttribute(u[y], Queries.Contrast) >= t[z].h - t[y].h) &&
      (exists z | z in Desc(t, y) :: 0 <= z < |t| && Queries.GetAttribute(u[y], Queries.Contrast) == t[z].h - t[y].h)
    ensures Attributes.Linked(t)
    ensures sel.area && sel.volume ==>
      Queries.GetAttribute(u[y], Queries.Volume) ==
        Sum(t, Desc(t, y), GreyMass) - |PixelsOf(t, Desc(t, y))| * Base(t, y)
  {
    ExpectedFields(s, status, index, t, root, sel, y);
    assert u[y] == Expected(s, status, index, t, root, sel, y);
    ShapedLinked(t, root);
    AreaCountsPixels(t, y);
    if sel.contrast {
      ContrastRead(t, y);
    }
    if sel.area && sel.volume {
      VolumeRead(t, root, y);
    }
  }

  /** The fields computeAttributes leaves on node y, one per selected pass. */
  lemma ExpectedFields(s: Setup, status: seq<Status>, index: map<(int, int), int>, t: seq<Node>, root: int,
                       sel: Selection, y: int)
    requires Shaped(t, root) && (Contoured(sel) ==> Ready(s, status, index, t, root)) && 0 <= y < |t|
    ensures var n := Expected(s, status, index, t, root, sel, y);
      n.h == t[y].h && (sel.area ==> n.area == SubtreeArea(t, y)) &&
      (sel.contrast ==> n.contrast == ContrastOf(t, y)) &&
      (sel.volume ==> n.volume == VolumeFrom(t, root, sel.area, y))
  {
  }

  /** The contrast of y bounds, and is reached by, the level differences to its subtree. */
  lemma ContrastRead(t: seq<Node>, y: int)
    requires Nested(t) && 0 <= y < |t|
    ensures forall z | z in Desc(t, y) :: 0 <= z < |t| && ContrastOf(t, y) >= t[z].h - t[y].h
    ensures exists z | z in Desc(t, y) :: 0 <= z < |t| && ContrastOf(t, y) == t[z].h - t[y].h
  {
    forall z | z in Desc(t, y)
      ensures 0 <= z < |t| && ContrastOf(t, y) >= t[z].h - t[y].h
    {
      ContrastBounds(t, y, z);
    }
    var z := ContrastReached(t, y);
  }

  /** The volume of y after the area pass, on a tree whose nodes hold their own
      pixel counts. */
  lemma VolumeRead(t: seq<Node>, root: int, y: int)
    requires Shaped(t, root) && 0 <= y < |t|
    requires forall n | 0 <= n < |t| :: t[n].area == |t[n].pixels|
    ensures Attributes.Linked(t)
    ensures VolumeFrom(t, root, true, y) == Sum(t, Desc(t, y), GreyMass) - |PixelsOf(t, Desc(t, y))| * Base(t, y)
  {
    ShapedLinked(t, root);
    var a, d := AreaPass(t), Desc(t, y);
    AreaPassShape(t, root);
    AreaThenCounted(t, root, y, a);
    VolumeTelescopes(a, root, y);
    DescSameShape(t, a, y);
    SumFrame(t, a, d, GreyMass);
    SumFrame(t, a, d, PixelCount);
    PixelCountSum(t, d);
  }

  /** The passes change attributes only: links, levels, and the fields of later
      passes stay as in t. */
  lemma DoneShape(s: Setup, status: seq<Status>, index: map<(int, int), int>, t: seq<Node>, root: int,
                  sel: Selection, k: int, u: seq<Node>)
    requires Shaped(t, root) && (Contoured(sel) ==> Ready(s, status, index, t, root))
    requires Done(s, status, index, t, root, sel, k, u)
    ensures SameHeights(t, u) && Shaped(u, root)
    ensures k <= 4 ==> forall z | 0 <= z < |t| :: BoxOf(u[z]) == BoxOf(t[z])
    ensures forall z | 0 <= z < |t| :: u[z].area == if sel.area && k > 0 then SubtreeArea(t, z) else t[z].area
  {
    forall z | 0 <= z < |t|
      ensures u[z].h == t[z].h && u[z].father == t[z].father && u[z].children == t[z].children
      ensures u[z].oriH == t[z].oriH && u[z].pixels == t[z].pixels
      ensures u[z].area == if sel.area && k > 0 then SubtreeArea(t, z) else t[z].area
      ensures k <= 4 ==> BoxOf(u[z]) == BoxOf(t[z])
    {
      assert u[z] == Expected(s, status, index, t, root, Upto(sel, k), z);
    }
    ShapedSameShape(t, u, root);
  }

  /** A bounding box reads only the links and the boxes of the arena. */
  lemma SubtreeBoxFrame(t: seq<Node>, u: seq<Node>, y: int)
    requires Nested(t) && SameShape(t, u) && 0 <= y < |t|
    requires forall z | 0 <= z < |t| :: BoxOf(u[z]) == BoxOf(t[z])
    ensures Nested(u) && SubtreeBox(u, y) == SubtreeBox(t, y)
  {
    DescSameShape(t, u, y);
    HullOverFrame(t, u, Desc(t, y), BoxOf(t[y]));
  }

  /** The area pass, when selected, on the tree as given. */
  method AreaStage(s: Setup, status: seq<Status>, index: map<(int, int), int>, t: seq<Node>, root: int,
                   sel: Selection, u: seq<Node>) returns (v: seq<Node>)
    requires Shaped(t, root) && (Contoured(sel) ==> Ready(s, status, index, t, root))
    requires Done(s, status, index, t, root, sel, 0, u)
    ensures Done(s, status, index, t, root, sel, 1, v)
  {
    v := u;
    assert u == t by {
      forall y | 0 <= y < |t|
        ensures u[y] == t[y]
      {
        assert u[y] == Expected(s, status, index, t, root, Upto(sel, 0), y);
      }
    }
    if sel.area {
      var a;
      v, a := ComputeArea(t, root, root);
      forall y | 0 <= y < |t|
        ensures v[y] == Expected(s, status, index, t, root, Upto(sel, 1), y)
      {
        RootCoversAll(t, root, y);
        assert AreaAt(t, v, y);
      }
    }
  }

  /** The contrast pass, when selected: the contrast reads levels only, so the
      areas set before do not change it. */
  method ContrastStage(s: Setup, status: seq<Status>, index: map<(int, int), int>, t: seq<Node>, root: int,
                       sel: Selection, u: seq<Node>) returns (v: seq<Node>)
    requires Shaped(t, root) && (Contoured(sel) ==> Ready(s, status, index, t, root))
    requires Done(s, status, index, t, root, sel, 1, u)
    ensures Done(s, status, index, t, root, sel, 2, v)
  {
    v := u;
    if sel.contrast {
      DoneShape(s, status, index, t, root, sel, 1, u);
      var c;
      v, c := ComputeContrast(u, root, root);
      forall y | 0 <= y < |t|
        ensures v[y] == Expected(s, status, index, t, root, Upto(sel, 2), y)
      {
        RootCoversAll(u, root, y);
        assert ContrastAt(u, v, y);
        ContrastAgree(t, u, y);
        assert u[y] == Expected(s, status, index, t, root, Upto(sel, 1), y);
      }
    }
  }

  /** The volume pass, when selected: it reads the areas, which are those of the
      area pass when that was selected. */
  method VolumeStage(s: Setup, status: seq<Status>, index: map<(int, int), int>, t: seq<Node>, root: int,
                     sel: Selection, u: seq<Node>) returns (v: seq<Node>)
    requires Shaped(t, root) && (Contoured(sel) ==> Ready(s, status, index, t, root))
    requires Done(s, status, index, t, root, sel, 2, u)
    ensures Done(s, status, index, t, root, sel, 3, v)
  {
    v := u;
    if sel.volume {
      DoneShape(s, status, index, t, root, sel, 2, u);
      ShapedLinked(u, root);
      var vol;
      v, vol := ComputeVolume(u, root, root);
      VolumeStep(s, status, index, t, root, sel, u, v);
    }
  }

  /** The arena whose areas the volume pass reads: that of the area pass when it
      was selected, else the one given. */
  function AreaBase(t: seq<Node>, withArea: bool): seq<Node>
    requires Nested(t)
  {
    if withArea then AreaPass(t) else t
  }

  /** After the first two passes the levels and the areas are those of AreaBase. */
  lemma VolumeLevels(s: Setup, status: seq<Status>, index: map<(int, int), int>, t: seq<Node>, root: int,
                     sel: Selection, u: seq<Node>)
    requires Shaped(t, root) && (Contoured(sel) ==> Ready(s, status, index, t, root))
    requires Done(s, status, index, t, root, sel, 2, u)
    ensures Shaped(AreaBase(t, sel.area), root) && Attributes.Linked(AreaBase(t, sel.area))
    ensures SameLevels(AreaBase(t, sel.area), u)
  {
    DoneShape(s, status, index, t, root, sel, 2, u);
    AreaPassShape(t, root);
    ShapedLinked(t, root);
  }

  /** Node y after the volume pass, when its subtree and subtree volume agree with
      those of AreaBase. */
  lemma VolumeNode(s: Setup, status: seq<Status>, index: map<(int, int), int>, t: seq<Node>, root: int,
                   sel: Selection, u: seq<Node>, v: seq<Node>, y: int)
    requires Shaped(t, root) && (Contoured(sel) ==> Ready(s, status, index, t, root)) && sel.volume
    requires Done(s, status, index, t, root, sel, 2, u) && 0 <= y < |t|
    requires Shaped(u, root) && Attributes.Linked(u) && VolumeAt(u, v, y)
    requires Shaped(AreaBase(t, sel.area), root) && Attributes.Linked(AreaBase(t, sel.area))
    requires SubtreeVolume(u, y) == SubtreeVolume(AreaBase(t, sel.area), y)
    ensures v[y] == Expected(s, status, index, t, root, Upto(sel, 3), y)
  {
    assert u[y] == Expected(s, status, index, t, root, Upto(sel, 2), y);
  }

  /** One volume pass over the arena of the first two passes gives the arena of
      the first three. */
  lemma VolumeStep(s: Setup, status: seq<Status>, index: map<(int, int), int>, t: seq<Node>, root: int,
                   sel: Selection, u: seq<Node>, v: seq<Node>)
    requires Shaped(t, root) && (Contoured(sel) ==> Ready(s, status, index, t, root)) && sel.volume
    requires Done(s, status, index, t, root, sel, 2, u) && Shaped(u, root) && Attributes.Linked(u)
    requires |v| == |u| && forall y | y in Desc(u, root) :: VolumeAt(u, v, y)
    ensures Done(s, status, index, t, root, sel, 3, v)
  {
    VolumeLevels(s, status, index, t, root, sel, u);
    var a := AreaBase(t, sel.area);
    VolumeAgree(a, u, root);
    forall y | 0 <= y < |t|
      ensures v[y] == Expected(s, status, index, t, root, Upto(sel, 3), y)
    {
      RootCoversAll(a, root, y);
      RootCoversAll(u, root, y);
      VolumeNode(s, status, index, t, root, sel, u, v, y);
    }
  }

  /** The contour pass, when the border gradient or the complexity is selected,
      keeping the border pixels only for the border gradient. */
  method ContourStage(s: Setup, status: seq<Status>, index: map<(int, int), int>, t: seq<Node>, root: int,
                      sel: Selection, u: seq<Node>) returns (v: seq<Node>)
    requires Shaped(t, root) && (Contoured(sel) ==> Ready(s, status, index, t, root))
    requires Done(s, status, index, t, root, sel, 3, u)
    ensures Done(s, status, index, t, root, sel, 4, v)
  {
    v := u;
    if Contoured(sel) {
      DoneShape(s, status, index, t, root, sel, 3, u);
      ReadyFrame(s, status, index, t, u, root);
      v := ComputeContour(s, status, index, u, root, sel.borderGradient);
      forall y | 0 <= y < |t|
        ensures v[y] == Expected(s, status, index, t, root, Upto(sel, 4), y)
      {
        HitsFrame(s, status, index, t, u, root, y, |status|);
        assert u[y] == Expected(s, status, index, t, root, Upto(sel, 3), y);
      }
    }
  }

  /** The bounding-box pass, when selected: the boxes are not touched by the
      passes before it. */
  method BoxStage(s: Setup, status: seq<Status>, index: map<(int, int), int>, t: seq<Node>, root: int,
                  sel: Selection, u: seq<Node>) returns (v: seq<Node>)
    requires Shaped(t, root) && (Contoured(sel) ==> Ready(s, status, index, t, root))
    requires Done(s, status, index, t, root, sel, 4, u)
    ensures Done(s, status, index, t, root, sel, 5, v)
  {
    v := u;
    if sel.boundingBox {
      DoneShape(s, status, index, t, root, sel, 4, u);
      v := ComputeBoundingBox(u, root);
      forall y | 0 <= y < |t|
        ensures v[y] == Expected(s, status, index, t, root, Upto(sel, 5), y)
      {
        assert BoxAt(u, v, y);
        SubtreeBoxFrame(t, u, y);
        assert u[y] == Expected(s, status, index, t, root, Upto(sel, 4), y);
      }
    }
  }

  /** computeAttributes(tree, ca, delta) on the integer attributes: nothing for a
      missing tree (a negative root), else every node as the selected passes leave
      it. */
  method ComputeAttributes(s: Setup, status: seq<Status>, index: map<(int, int), int>, t: seq<Node>, root: int,
                           sel: Selection) returns (u: seq<Node>)
    requires root >= 0 ==> Shaped(t, root) && (Contoured(sel) ==> Ready(s, status, index, t, root))
    ensures |u| == |t|
    ensures root < 0 ==> u == t
    ensures root >= 0 ==> forall y | 0 <= y < |t| :: u[y] == Expected(s, status, index, t, root, sel, y)
  {
    assert Upto(sel, 5) == sel;
    u := t;
    if root >= 0 {
      u := AllPasses(s, status, index, t, root, sel);
    }
  }

  /** The five passes in order on an existing tree. */
  method AllPasses(s: Setup, status: seq<Status>, index: map<(int, int), int>, t: seq<Node>, root: int,
                   sel: Selection) returns (u: seq<Node>)
    requires Shaped(t, root) && (Contoured(sel) ==> Ready(s, status, index, t, root))
    ensures Done(s, status, index, t, root, sel, 5, u)
  {
    assert Done(s, status, index, t, root, sel, 0, t);
    u := EarlyPasses(s, status, index, t, root, sel, t);
    u := LatePasses(s, status, index, t, root, sel, u);
  }

  /** The area, contrast and volume passes. */
  method EarlyPasses(s: Setup, status: seq<Status>, index: map<(int, int), int>, t: seq<Node>, root: int,
                     sel: Selection, u: seq<Node>) returns (v: seq<Node>)
    requires Shaped(t, root) && (Contoured(sel) ==> Ready(s, status, index, t, root))
    requires Done(s, status, index, t, root, sel, 0, u)
    ensures Done(s, status, index, t, root, sel, 3, v)
  {
    v := AreaStage(s, status, index, t, root, sel, u);
    v := ContrastStage(s, status, index, t, root, sel, v);
    v := VolumeStage(s, status, index, t, root, sel, v);
  }

  /** The contour and bounding-box passes. */
  method LatePasses(s: Setup, status: seq<Status>, index: map<(int, int), int>, t: seq<Node>, root: int,
                    sel: Selection, u: seq<Node>) returns (v: seq<Node>)
    requires Shaped(t, root) && (Contoured(sel) ==> Ready(s, status, index, t, root))
    requires Done(s, status, index, t, root, sel, 3, u)
    ensures Done(s, status, index, t, root, sel, 5, v)
  {
    v := ContourStage(s, status, index, t, root, sel, u);
    v := BoxStage(s, status, index, t, root, sel, v);
  }
}
