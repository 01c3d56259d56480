/** Salembier's recursive flooding, as the max-tree builder of
    Algorithms/ComponentTree.hxx runs it: one FIFO of cells per grey level, a
    STATUS grid marking cells unvisited, queued, border or labelled with their
    component number, and an arena of nodes created lazily per (level, number). */
module Flooding {
  import opened Tree
  import opened Grid
  import Boxes

  /** The STATUS of a cell of the padded grid. */
  datatype Status = Active | NotActive | BorderStatus | Label(n: nat)

  /** Where the padded grid sits: its size, the original image's size, and the
      width of the border before the original on each axis. */
  datatype Frame = Frame(padded: Size, ori: Size, back: Point)

  /** The coordinates in the original image of cell c of the padded grid. */
  function ImCoord(f: Frame, c: int): Point
  {
    if f.padded.x > 0 && f.padded.y > 0 && c >= 0 then Sub(CoordOf(f.padded, c), f.back) else Point(0, 0, 0)
  }

  /** The offset in the original image of cell c (the conversion of update_attributes). */
  function ImOffset(f: Frame, c: int): int
  {
    Offset(f.ori, ImCoord(f, c))
  }

  /** The original-image offsets of the cells s. */
  function ImBag(f: Frame, s: seq<int>): (r: multiset<int>)
    ensures |r| == |s|
  {
    if s == [] then multiset{} else ImBag(f, s[..|s| - 1]) + multiset{ImOffset(f, s[|s| - 1])}
  }

  /** Cells of the padded grid inside the original image map to distinct offsets. */
  lemma ImOffsetInjective(f: Frame, c: int, d: int)
    requires f.padded.x > 0 && f.padded.y > 0 && 0 <= c < Count(f.padded) && 0 <= d < Count(f.padded)
    requires InGrid(f.ori, ImCoord(f, c)) && InGrid(f.ori, ImCoord(f, d)) && c != d
    ensures ImOffset(f, c) != ImOffset(f, d)
  {
    OffsetOfCoord(f.padded, c);
    OffsetOfCoord(f.padded, d);
    assert CoordOf(f.padded, c) != CoordOf(f.padded, d);
    CoordOfOffset(f.ori, ImCoord(f, c));
    CoordOfOffset(f.ori, ImCoord(f, d));
  }

  /** A node as new_node creates it.  Node's own constructor is not part of this
      model: counters start at 0, the node active, and the box empty, its lower
      bounds at far (a value above every coordinate) and its upper bounds at -1. */
  function FreshNode(h: int, number: int, far: int): (r: Node)
    ensures r.oriH == h && r.h == h && r.component == number && r.father == -1
    ensures r.children == [] && r.pixels == [] && r.area == 0
    ensures Boxes.BoxOf(r) == PixelHull(Size(0, 0, 0), far, [])
  {
    Node(h, h, number, -1, [], [], 0, 0, 0, 0, 0, 0, [], far, -1, far, -1, far, -1, true)
  }

  /** The box spanned by the single point p. */
  function PointBox(p: Point): Boxes.Box
  {
    Boxes.Box(p.x, p.x, p.y, p.y, p.z, p.z)
  }

  /** update_attributes: the pixel at original offset off and coordinates p joins n. */
  function AddPixel(n: Node, off: int, p: Point): (r: Node)
    ensures r.pixels == n.pixels + [off] && r.area == n.area + 1
    ensures r.sum == n.sum + n.h && r.sumSquare == n.sumSquare + n.h * n.h
    ensures Boxes.BoxOf(r) == Boxes.Hull(Boxes.BoxOf(n), PointBox(p))
    ensures Boxes.Within(PointBox(p), Boxes.BoxOf(r)) && Boxes.Within(Boxes.BoxOf(n), Boxes.BoxOf(r))
    ensures r == n.(pixels := r.pixels, area := r.area, sum := r.sum, sumSquare := r.sumSquare,
                    xmin := r.xmin, xmax := r.xmax, ymin := r.ymin, ymax := r.ymax, zmin := r.zmin, zmax := r.zmax)
  {
    n.(pixels := n.pixels + [off], area := n.area + 1, sum := n.sum + n.h, sumSquare := n.sumSquare + n.h * n.h,
       xmin := if p.x < n.xmin then p.x else n.xmin, xmax := if p.x > n.xmax then p.x else n.xmax,
       ymin := if p.y < n.ymin then p.y else n.ymin, ymax := if p.y > n.ymax then p.y else n.ymax,
       zmin := if p.z < n.zmin then p.z else n.zmin, zmax := if p.z > n.zmax then p.z else n.zmax)
  }

  /** The cell of the padded grid that holds the pixel at offset off of the original image. */
  function CellOf(f: Frame, off: int): int
  {
    Offset(f.padded, Add(PixelCoord(f.ori, off), f.back))
  }

  /** The grey level of the original pixel at offset off, as the padded image holds it. */
  function GreyOf(s: Setup, off: int): int
  {
    var c := CellOf(s.frame, off);
    if 0 <= c < |s.img| then s.img[c] else 0
  }

  /** A cell inside the original image is the cell of its own original offset. */
  lemma CellOfImOffset(f: Frame, c: int)
    requires f.padded.x > 0 && f.padded.y > 0 && 0 <= c < Count(f.padded) && InGrid(f.ori, ImCoord(f, c))
    ensures CellOf(f, ImOffset(f, c)) == c
  {
    OffsetOfCoord(f.padded, c);
    OffsetInRange(f.ori, ImCoord(f, c));
    CoordOfOffset(f.ori, ImCoord(f, c));
    assert PixelCoord(f.ori, ImOffset(f, c)) == ImCoord(f, c);
    assert Add(ImCoord(f, c), f.back) == CoordOf(f.padded, c);
  }

  /** The coordinates in an image of size ori of the pixel at offset off. */
  function PixelCoord(ori: Size, off: int): Point
  {
    if ori.x > 0 && ori.y > 0 && off >= 0 then CoordOf(ori, off) else Point(0, 0, 0)
  }

  /** The box update_attributes leaves on a fresh node after the pixels px, in
      order: each pixel's coordinates widen it. */
  function PixelHull(ori: Size, far: int, px: seq<int>): Boxes.Box
  {
    if px == [] then Boxes.Box(far, -1, far, -1, far, -1)
    else Boxes.Hull(PixelHull(ori, far, px[..|px| - 1]), PointBox(PixelCoord(ori, px[|px| - 1])))
  }

  /** With far no lower than any extent of the image, the box of a pixel list is
      the bounding box of its pixels: it encloses each of them, any box that
      encloses them all encloses it, and with no pixel it is empty. */
  lemma {:induction false} PixelHullLeast(ori: Size, far: int, px: seq<int>, b: Boxes.Box)
    requires forall i | 0 <= i < |px| :: 0 <= px[i] < Count(ori)
    requires ori.x <= far && ori.y <= far && ori.z <= far
    ensures forall i | 0 <= i < |px| :: Boxes.Within(PointBox(PixelCoord(ori, px[i])), PixelHull(ori, far, px))
    ensures px != [] ==>
      ((forall i | 0 <= i < |px| :: Boxes.Within(PointBox(PixelCoord(ori, px[i])), b)) <==>
       Boxes.Within(PixelHull(ori, far, px), b))
    ensures px == [] ==>
      var e := PixelHull(ori, far, px); e.xmax < e.xmin && e.ymax < e.ymin && e.zmax < e.zmin
    decreases |px|
  {
    if px != [] {
      var q, px' := px[|px| - 1], px[..|px| - 1];
      var c := PixelCoord(ori, q);
      OffsetOfCoord(ori, q);
      assert 0 <= c.x < ori.x && 0 <= c.y < ori.y && 0 <= c.z < ori.z;
      var h' := PixelHull(ori, far, px');
      assert PixelHull(ori, far, px) == Boxes.Hull(h', PointBox(c));
      Boxes.HullLeast(h', PointBox(c), b);
      if px' == [] {
        assert PixelHull(ori, far, px) == PointBox(c);
      } else {
        PixelHullLeast(ori, far, px', b);
        forall i | 0 <= i < |px|
          ensures Boxes.Within(PointBox(PixelCoord(ori, px[i])), PixelHull(ori, far, px))
        {
          if i < |px'| {
            assert px[i] == px'[i];
            Boxes.WithinTrans(PointBox(PixelCoord(ori, px[i])), h', PixelHull(ori, far, px));
          }
        }
        assert (forall i | 0 <= i < |px| :: Boxes.Within(PointBox(PixelCoord(ori, px[i])), b)) <==>
          (forall i | 0 <= i < |px'| :: Boxes.Within(PointBox(PixelCoord(ori, px'[i])), b)) &&
          Boxes.Within(PointBox(c), b);
      }
    }
  }

  /* ---- Counting measures ---- */

  /** The number of ACTIVE (unvisited) cells. */
  function ActiveCount(s: seq<Status>): nat
  {
    if s == [] then 0 else ActiveCount(s[..|s| - 1]) + (if s[|s| - 1] == Active then 1 else 0)
  }

  /** Marking an ACTIVE cell visited lowers the count by one; relabelling a visited
      cell leaves it. */
  lemma {:induction false} ActiveCountSet(s: seq<Status>, i: int, v: Status)
    requires 0 <= i < |s| && v != Active
    ensures ActiveCount(s[i := v]) == ActiveCount(s) - (if s[i] == Active then 1 else 0)
    decreases |s|
  {
    var u := s[i := v];
    if i < |s| - 1 {
      assert u[..|u| - 1] == s[..|s| - 1][i := v];
      ActiveCountSet(s[..|s| - 1], i, v);
    } else {
      assert u[..|u| - 1] == s[..|s| - 1];
    }
  }

  /** The number of cells queued at all levels. */
  function TotalLen(hq: seq<seq<int>>): nat
  {
    if hq == [] then 0 else TotalLen(hq[..|hq| - 1]) + |hq[|hq| - 1]|
  }

  /** Replacing one queue changes the total by the difference of the lengths. */
  lemma {:induction false} TotalLenSet(hq: seq<seq<int>>, l: int, s: seq<int>)
    requires 0 <= l < |hq|
    ensures TotalLen(hq[l := s]) + |hq[l]| == TotalLen(hq) + |s|
    decreases |hq|
  {
    var u := hq[l := s];
    if l < |hq| - 1 {
      assert u[..|u| - 1] == hq[..|hq| - 1][l := s];
      TotalLenSet(hq[..|hq| - 1], l, s);
    } else {
      assert u[..|u| - 1] == hq[..|hq| - 1];
    }
  }

  /** The pixels of all nodes of the arena. */
  function AllPixels(t: seq<Node>): multiset<int>
  {
    if t == [] then multiset{} else AllPixels(t[..|t| - 1]) + multiset(t[|t| - 1].pixels)
  }

  lemma {:induction false} AllPixelsSet(t: seq<Node>, n: int, x: Node)
    requires 0 <= n < |t|
    ensures AllPixels(t[n := x]) + multiset(t[n].pixels) == AllPixels(t) + multiset(x.pixels)
    decreases |t|
  {
    var u := t[n := x];
    var t', last := t[..|t| - 1], t[|t| - 1];
    assert AllPixels(t) == AllPixels(t') + multiset(last.pixels);
    if n < |t| - 1 {
      assert u[..|u| - 1] == t'[n := x] && u[|u| - 1] == last && t'[n] == t[n];
      AllPixelsSet(t', n, x);
      calc {
        AllPixels(u) + multiset(t[n].pixels);
        AllPixels(t'[n := x]) + multiset(last.pixels) + multiset(t'[n].pixels);
        (AllPixels(t'[n := x]) + multiset(t'[n].pixels)) + multiset(last.pixels);
        AllPixels(t') + multiset(x.pixels) + multiset(last.pixels);
        AllPixels(t) + multiset(x.pixels);
      }
    } else {
      assert u[..|u| - 1] == t';
      assert AllPixels(u) == AllPixels(t') + multiset(x.pixels);
    }
  }

  lemma MultisetCancel(a: multiset<int>, b: multiset<int>, c: multiset<int>)
    requires a + c == b + c
    ensures a == b
  {
    forall z
      ensures a[z] == b[z]
    {
      assert (a + c)[z] == (b + c)[z];
    }
  }

  /** Replacing a node by one that holds the pixels d more. */
  lemma AllPixelsGrow(t: seq<Node>, n: int, x: Node, d: seq<int>)
    requires 0 <= n < |t| && x.pixels == t[n].pixels + d
    ensures AllPixels(t[n := x]) == AllPixels(t) + multiset(d)
  {
    AllPixelsSet(t, n, x);
    assert multiset(x.pixels) == multiset(t[n].pixels) + multiset(d);
    MultisetCancel(AllPixels(t[n := x]), AllPixels(t) + multiset(d), multiset(t[n].pixels));
  }

  lemma AllPixelsPush(t: seq<Node>, x: Node)
    ensures AllPixels(t + [x]) == AllPixels(t) + multiset(x.pixels)
  {
    assert (t + [x])[..|t|] == t;
  }

  /** Distinct cells inside the original image have distinct offsets there, so
      each offset occurs at most once among them. */
  lemma {:induction false} ImBagOnce(f: Frame, s: seq<int>, x: int)
    requires f.padded.x > 0 && f.padded.y > 0 && Distinct(s)
    requires forall k | 0 <= k < |s| :: 0 <= s[k] < Count(f.padded) && InGrid(f.ori, ImCoord(f, s[k]))
    ensures ImBag(f, s)[x] <= 1
    decreases |s|
  {
    if s != [] {
      var s' := s[..|s| - 1];
      ImBagOnce(f, s', x);
      if x == ImOffset(f, s[|s| - 1]) && ImBag(f, s')[x] == 1 {
        var k := ImBagWitness(f, s', x);
        ImOffsetInjective(f, s'[k], s[|s| - 1]);
      }
    }
  }

  lemma {:induction false} ImBagWitness(f: Frame, s: seq<int>, x: int) returns (k: int)
    requires x in ImBag(f, s)
    ensures 0 <= k < |s| && ImOffset(f, s[k]) == x
    decreases |s|
  {
    if x == ImOffset(f, s[|s| - 1]) {
      k := |s| - 1;
    } else {
      k := ImBagWitness(f, s[..|s| - 1], x);
    }
  }

  /* ---- What the arena weighs ---- */

  /** The sum of the grey levels of the cells cs of the padded image. */
  function CellMass(img: seq<int>, cs: seq<int>): int
    requires forall k | 0 <= k < |cs| :: 0 <= cs[k] < |img|
  {
    if cs == [] then 0 else CellMass(img, cs[..|cs| - 1]) + img[cs[|cs| - 1]]
  }

  /** The sum of the grey levels of the original pixels px. */
  function PixelMass(s: Setup, px: seq<int>): int
  {
    if px == [] then 0 else PixelMass(s, px[..|px| - 1]) + GreyOf(s, px[|px| - 1])
  }

  /** The original offsets of the cells cs, in order. */
  function ImOffsets(f: Frame, cs: seq<int>): (r: seq<int>)
    ensures |r| == |cs| && multiset(r) == ImBag(f, cs)
  {
    if cs == [] then [] else ImOffsets(f, cs[..|cs| - 1]) + [ImOffset(f, cs[|cs| - 1])]
  }

  lemma {:induction false} PixelMassAppend(s: Setup, a: seq<int>, b: seq<int>)
    ensures PixelMass(s, a + b) == PixelMass(s, a) + PixelMass(s, b)
    decreases |b|
  {
    if b == [] {
      assert a + b == a;
    } else {
      assert (a + b)[..|a + b| - 1] == a + b[..|b| - 1];
      PixelMassAppend(s, a, b[..|b| - 1]);
    }
  }

  /** The mass of a pixel list depends only on its multiset of pixels. */
  lemma {:induction false} PixelMassPerm(s: Setup, a: seq<int>, b: seq<int>)
    requires multiset(a) == multiset(b)
    ensures PixelMass(s, a) == PixelMass(s, b)
    decreases |a|
  {
    if a != [] {
      var a', x := a[..|a| - 1], a[|a| - 1];
      assert a == a' + [x];
      assert x in multiset(b);
      var i :| 0 <= i < |b| && b[i] == x;
      var b' := b[..i] + b[i + 1..];
      assert b == b[..i] + ([x] + b[i + 1..]);
      assert multiset(b) == multiset(b[..i]) + multiset{x} + multiset(b[i + 1..]);
      assert multiset(b') == multiset(b[..i]) + multiset(b[i + 1..]);
      assert multiset(a) == multiset(a') + multiset{x};
      MultisetCancel(multiset(a'), multiset(b'), multiset{x});
      PixelMassPerm(s, a', b');
      PixelMassAppend(s, b[..i], [x] + b[i + 1..]);
      PixelMassAppend(s, [x], b[i + 1..]);
      PixelMassAppend(s, b[..i], b[i + 1..]);
      assert [x][..0] == [];
    }
  }

  /** Cells inside the original image weigh what their original pixels weigh. */
  lemma {:induction false} CellMassIsPixelMass(s: Setup, cs: seq<int>)
    requires s.frame.padded.x > 0 && s.frame.padded.y > 0 && |s.img| == Count(s.frame.padded)
    requires forall k | 0 <= k < |cs| :: 0 <= cs[k] < |s.img| && InGrid(s.frame.ori, ImCoord(s.frame, cs[k]))
    ensures PixelMass(s, ImOffsets(s.frame, cs)) == CellMass(s.img, cs)
    decreases |cs|
  {
    if cs != [] {
      CellMassIsPixelMass(s, cs[..|cs| - 1]);
      CellOfImOffset(s.frame, cs[|cs| - 1]);
    }
  }

  /** A node whose pixels all have grey level h weighs its pixel count times h. */
  lemma {:induction false} OwnMass(s: Setup, px: seq<int>, h: int)
    requires forall i | 0 <= i < |px| :: GreyOf(s, px[i]) == h
    ensures PixelMass(s, px) == |px| * h
    decreases |px|
  {
    if px != [] {
      OwnMass(s, px[..|px| - 1], h);
      assert (|px| - 1) * h + h == |px| * h;
    }
  }

  /** The pixels of the nodes q weigh the sum of f over them, when f gives each
      node its pixel count times its level and each pixel has its node's level. */
  lemma {:induction false} NodesMass(s: Setup, t: seq<Node>, q: seq<int>, f: Node -> int)
    requires AllNodes(t, q)
    requires forall n | 0 <= n < |t| :: f(t[n]) == |t[n].pixels| * t[n].h
    requires forall n | 0 <= n < |t| :: forall i | 0 <= i < |t[n].pixels| :: GreyOf(s, t[n].pixels[i]) == t[n].h
    ensures Sum(t, q, f) == PixelMass(s, PixelsOf(t, q))
    decreases |q|
  {
    if q != [] {
      NodesMass(s, t, q[1..], f);
      OwnMass(s, t[q[0]].pixels, t[q[0]].h);
      PixelMassAppend(s, t[q[0]].pixels, PixelsOf(t, q[1..]));
    }
  }

  /** Pixel lists read only the nodes they list. */
  lemma {:induction false} PixelsPrefix(t: seq<Node>, m: int, q: seq<int>)
    requires 0 <= m <= |t| && AllNodes(t[..m], q)
    ensures AllNodes(t, q) && PixelsOf(t[..m], q) == PixelsOf(t, q)
    decreases |q|
  {
    if q != [] {
      PixelsPrefix(t, m, q[1..]);
    }
  }

  /** A list naming every node of the arena once holds all of its pixels. */
  lemma {:induction false} CoverPixels(t: seq<Node>, q: seq<int>)
    requires AllNodes(t, q) && Distinct(q) && forall n | 0 <= n < |t| :: n in q
    ensures multiset(PixelsOf(t, q)) == AllPixels(t)
    decreases |t|
  {
    if t == [] {
      assert q == [];
    } else {
      var m := |t| - 1;
      assert m in q;
      var i :| 0 <= i < |q| && q[i] == m;
      DropOne(q, i, m);
      CoverPixels(t[..m], q[..i] + q[i + 1..]);
      CoverLast(t, q, i);
    }
  }

  /** Dropping the only occurrence of m from a list of distinct entries that lists
      exactly 0 to m leaves a list of distinct entries listing exactly 0 to m - 1. */
  lemma DropOne(q: seq<int>, i: int, m: int)
    requires 0 <= i < |q| && q[i] == m && Distinct(q) && forall k | 0 <= k < |q| :: 0 <= q[k] <= m
    requires forall n | 0 <= n < m :: n in q
    ensures var q' := q[..i] + q[i + 1..];
      Distinct(q') && (forall k | 0 <= k < |q'| :: 0 <= q'[k] < m) && forall n | 0 <= n < m :: n in q'
  {
    var q' := q[..i] + q[i + 1..];
    forall k | 0 <= k < |q'|
      ensures q'[k] == q[if k < i then k else k + 1]
    {
    }
    forall n | 0 <= n < m
      ensures n in q'
    {
      assert n in q;
      var j :| 0 <= j < |q| && q[j] == n;
      assert q'[if j < i then j else j - 1] == n;
    }
  }

  lemma SplitAt(q: seq<int>, i: int)
    requires 0 <= i < |q|
    ensures q == q[..i] + ([q[i]] + q[i + 1..])
  {
    assert q[i..] == [q[i]] + q[i + 1..];
    assert q == q[..i] + q[i..];
  }

  /** The pixels of the nodes q, split at position i. */
  lemma PixelsDrop(t: seq<Node>, q: seq<int>, i: int)
    requires 0 <= i < |q| && AllNodes(t, q)
    ensures AllNodes(t, q[..i] + q[i + 1..])
    ensures PixelsOf(t, q) == PixelsOf(t, q[..i]) + (t[q[i]].pixels + PixelsOf(t, q[i + 1..]))
    ensures PixelsOf(t, q[..i] + q[i + 1..]) == PixelsOf(t, q[..i]) + PixelsOf(t, q[i + 1..])
  {
    var l, r := q[..i], q[i + 1..];
    SplitAt(q, i);
    assert ([q[i]] + r)[1..] == r;
    assert AllNodes(t, l) && AllNodes(t, r) by {
      forall k | 0 <= k < |l| ensures 0 <= l[k] < |t| { assert l[k] == q[k]; }
      forall k | 0 <= k < |r| ensures 0 <= r[k] < |t| { assert r[k] == q[i + 1 + k]; }
    }
    PixelsAppend(t, l, [q[i]] + r);
    PixelsAppend(t, l, r);
  }

  /** The pixels of the last node, listed at position i of q, complete those of
      the nodes before it, listed by q without position i. */
  lemma CoverLast(t: seq<Node>, q: seq<int>, i: int)
    requires |t| > 0 && 0 <= i < |q| && q[i] == |t| - 1 && AllNodes(t, q)
    requires AllNodes(t[..|t| - 1], q[..i] + q[i + 1..])
    requires multiset(PixelsOf(t[..|t| - 1], q[..i] + q[i + 1..])) == AllPixels(t[..|t| - 1])
    ensures multiset(PixelsOf(t, q)) == AllPixels(t)
  {
    var m := |t| - 1;
    PixelsPrefix(t, m, q[..i] + q[i + 1..]);
    PixelsDrop(t, q, i);
    BagSplit(PixelsOf(t, q), PixelsOf(t, q[..i]), t[m].pixels, PixelsOf(t, q[i + 1..]), PixelsOf(t, q[..i] + q[i + 1..]));
    assert AllPixels(t) == AllPixels(t[..m]) + multiset(t[m].pixels);
  }

  lemma BagSplit(x: seq<int>, a: seq<int>, b: seq<int>, c: seq<int>, y: seq<int>)
    requires x == a + (b + c) && y == a + c
    ensures multiset(x) == multiset(y) + multiset(b)
  {
  }

  /** The pixels of a tree built over the taken cells weigh what those cells weigh. */
  lemma ArenaMass(s: Setup, t: seq<Node>, root: int, pop: seq<int>)
    requires Shaped(t, root) && AllPixels(t) == ImBag(s.frame, pop)
    requires s.frame.padded.x > 0 && s.frame.padded.y > 0 && |s.img| == Count(s.frame.padded)
    requires forall k | 0 <= k < |pop| :: 0 <= pop[k] < |s.img| && InGrid(s.frame.ori, ImCoord(s.frame, pop[k]))
    ensures PixelMass(s, PixelsOf(t, Desc(t, root))) == CellMass(s.img, pop)
  {
    DescDistinct(t, root, root);
    forall n | 0 <= n < |t|
      ensures n in Desc(t, root)
    {
      RootCoversAll(t, root, n);
    }
    CoverPixels(t, Desc(t, root));
    PixelMassPerm(s, PixelsOf(t, Desc(t, root)), ImOffsets(s.frame, pop));
    CellMassIsPixelMass(s, pop);
  }

  /* ---- Arena updates ---- */

  /** link_node on the arena: child gets father as its father and joins its children. */
  function Linked(t: seq<Node>, father: int, child: int): (r: seq<Node>)
    requires 0 <= father < |t| && 0 <= child < |t|
    ensures |r| == |t| && forall i | 0 <= i < |t| :: r[i].oriH == t[i].oriH
  {
    var u := t[child := t[child].(father := father)];
    u[father := u[father].(children := u[father].children + [child])]
  }

  /** Replacing a node by one with the same level and children keeps the arena nested. */
  lemma NestedSame(t: seq<Node>, n: int, x: Node)
    requires Nested(t) && 0 <= n < |t| && x.oriH == t[n].oriH && x.children == t[n].children
    ensures Nested(t[n := x])
  {
    var u := t[n := x];
    forall i, k | 0 <= i < |u| && 0 <= k < |u[i].children|
      ensures 0 <= u[i].children[k] < |u| && u[i].oriH < u[u[i].children[k]].oriH
    {
      assert u[i].children == t[i].children && u[i].oriH == t[i].oriH;
      assert 0 <= t[i].children[k] < |t| && t[i].oriH < t[t[i].children[k]].oriH;
    }
  }

  /** Linking a node under one of a lower level keeps the arena nested, and keeps
      every level and every pixel list. */
  lemma LinkKeeps(t: seq<Node>, father: int, child: int)
    requires Nested(t) && 0 <= father < |t| && 0 <= child < |t| && t[father].oriH < t[child].oriH
    ensures Nested(Linked(t, father, child)) && AllPixels(Linked(t, father, child)) == AllPixels(t)
  {
    var u := t[child := t[child].(father := father)];
    NestedSame(t, child, u[child]);
    var v := Linked(t, father, child);
    forall i, k | 0 <= i < |v| && 0 <= k < |v[i].children|
      ensures 0 <= v[i].children[k] < |v| && v[i].oriH < v[v[i].children[k]].oriH
    {
      if i != father || k < |u[father].children| {
        assert v[i].children[k] == u[i].children[k];
      }
    }
    AllPixelsGrow(t, child, u[child], []);
    AllPixelsGrow(u, father, v[father], []);
  }

  /** Linking changes only the child's father and the father's children. */
  lemma LinkedSame(t: seq<Node>, father: int, child: int)
    requires 0 <= father < |t| && 0 <= child < |t| && father != child
    ensures var u := Linked(t, father, child);
      u[child].father == father &&
      (forall i | 0 <= i < |t| :: u[i].oriH == t[i].oriH && u[i].component == t[i].component) &&
      (forall i | 0 <= i < |t| && i != child :: u[i].father == t[i].father)
  {
  }

  /** Making n its own father keeps the arena nested and every pixel list. */
  lemma SelfFatherKeeps(t: seq<Node>, n: int)
    requires Nested(t) && 0 <= n < |t|
    ensures Nested(t[n := t[n].(father := n)]) && AllPixels(t[n := t[n].(father := n)]) == AllPixels(t)
  {
    NestedSame(t, n, t[n].(father := n));
    AllPixelsGrow(t, n, t[n].(father := n), []);
  }

  /** Appending a fresh node keeps the arena nested and every pixel list. */
  lemma FreshKeeps(t: seq<Node>, h: int, number: int, far: int)
    requires Nested(t)
    ensures Nested(t + [FreshNode(h, number, far)]) && AllPixels(t + [FreshNode(h, number, far)]) == AllPixels(t)
  {
    AllPixelsPush(t, FreshNode(h, number, far));
  }

  /* ---- The state of the flooding ---- */

  /** What init fixes: the padded grey levels, which padded cells are border,
      where the original sits in the padded grid, the connectivity as offsets of
      the padded grid, and the lowest level; far is where the lower bounds of a
      new node's box start. */
  datatype Setup = Setup(img: seq<int>, border: seq<bool>, frame: Frame, se: seq<int>, hMin: int, far: int)

  /** A cell that is not border has a level in range and all its neighbours are
      cells of the padded grid. */
  ghost predicate Interior(s: Setup, levels: int)
  {
    |s.border| == |s.img| && forall c | 0 <= c < |s.img| && !s.border[c] :: InteriorAt(s, levels, c)
  }

  /** Cell c has a level in range and all its neighbours are cells of the padded grid. */
  ghost predicate InteriorAt(s: Setup, levels: int, c: int)
    requires 0 <= c < |s.img|
  {
    0 <= s.img[c] - s.hMin < levels && forall k | 0 <= k < |s.se| :: 0 <= c + s.se[k] < |s.img|
  }

  /** Cell c lies inside the original image. */
  ghost predicate Inside(s: Setup, c: int)
  {
    InGrid(s.frame.ori, ImCoord(s.frame, c))
  }

  /** A cell that is not border lies inside the original image. */
  ghost predicate Framed(s: Setup)
  {
    forall c | 0 <= c < |s.img| && c < |s.border| && !s.border[c] :: Inside(s, c)
  }

  /** far lies beyond every coordinate of the original image. */
  ghost predicate Far(s: Setup)
  {
    s.frame.ori.x <= s.far && s.frame.ori.y <= s.far && s.frame.ori.z <= s.far
  }

  /** The sizes of the grids and of the per-level tables; BORDER_STATUS marks
      exactly the border. */
  ghost predicate Layout(s: Setup, status: seq<Status>, hq: seq<seq<int>>, nn: seq<nat>, open: seq<bool>)
  {
    |status| == |s.img| == Count(s.frame.padded) && s.frame.padded.x > 0 && s.frame.padded.y > 0 &&
    |nn| == |hq| && |open| == |hq| && Interior(s, |hq|) && Framed(s) && Far(s) &&
    forall c | 0 <= c < |status| :: BorderAt(s, status, c)
  }
  ghost predicate BorderAt(s: Setup, status: seq<Status>, c: int)
    requires 0 <= c < |status|
  { c < |s.border| && (status[c] == BorderStatus) == s.border[c] }

  /** Each queue holds distinct NOT_ACTIVE cells of its own level (so no cell is
      queued twice, as cells of two queues differ in level). */
  ghost predicate Queued(s: Setup, status: seq<Status>, hq: seq<seq<int>>)
  {
    forall l | 0 <= l < |hq| :: QueuedAt(s, status, hq, l)
  }
  ghost predicate QueuedAt(s: Setup, status: seq<Status>, hq: seq<seq<int>>, l: int)
    requires 0 <= l < |hq|
  {
    (forall k | 0 <= k < |hq[l]| ::
       0 <= hq[l][k] < |status| && hq[l][k] < |s.img| && s.img[hq[l][k]] - s.hMin == l && status[hq[l][k]] == NotActive) &&
    Distinct(hq[l])
  }

  /** The cells taken off the queues so far, each once, are the labelled cells. */
  ghost predicate Visited(status: seq<Status>, pop: seq<int>)
  {
    Distinct(pop) && forall c :: LabelledAt(status, pop, c)
  }
  ghost predicate LabelledAt(status: seq<Status>, pop: seq<int>, c: int)
  { c in pop <==> 0 <= c < |status| && status[c].Label? }

  /** Where a node sits in the index: its level less hMin and its component number. */
  function Key(s: Setup, x: Node): (int, int)
  {
    (x.oriH - s.hMin, x.component)
  }

  /** Index entries are nodes of their level and component. */
  ghost predicate Indexed(s: Setup, index: map<(int, int), int>, nodes: seq<Node>)
  {
    forall key | key in index :: IndexedAt(s, index, nodes, key)
  }
  ghost predicate IndexedAt(s: Setup, index: map<(int, int), int>, nodes: seq<Node>, key: (int, int))
    requires key in index
  { 0 <= index[key] < |nodes| && Key(s, nodes[index[key]]) == key }

  /** Node n is the index entry of its own key. */
  ghost predicate KeyedAt(s: Setup, index: map<(int, int), int>, nodes: seq<Node>, n: int)
    requires 0 <= n < |nodes|
  {
    Key(s, nodes[n]) in index && index[Key(s, nodes[n])] == n
  }

  /** The component of key is one its level has started. */
  ghost predicate Started(nn: seq<nat>, key: (int, int))
  {
    0 <= key.0 < |nn| && key.1 <= nn[key.0]
  }

  /** Every node is the index entry of its own key, and the index holds only
      components their level has started. */
  ghost predicate Keyed(s: Setup, nn: seq<nat>, index: map<(int, int), int>, nodes: seq<Node>)
  {
    (forall n | 0 <= n < |nodes| :: KeyedAt(s, index, nodes, n)) &&
    (forall key | key in index :: Started(nn, key))
  }

  /** The current component of level l has a node only while l is open, and that
      node is not linked yet. */
  ghost predicate CurrentAt(nn: seq<nat>, open: seq<bool>, index: map<(int, int), int>, nodes: seq<Node>, l: int)
    requires 0 <= l < |nn| && l < |open|
  {
    (l, nn[l]) in index ==> open[l] && 0 <= index[(l, nn[l])] < |nodes| && nodes[index[(l, nn[l])]].father == -1
  }

  /** A node not linked yet is the node of the current component of its level. */
  ghost predicate WaitingAt(s: Setup, nn: seq<nat>, nodes: seq<Node>, n: int)
    requires 0 <= n < |nodes|
  {
    nodes[n].father == -1 ==> 0 <= nodes[n].oriH - s.hMin < |nn| && nodes[n].component == nn[nodes[n].oriH - s.hMin]
  }

  /** Exactly the nodes of the current components are not linked yet, and they
      belong to open levels. */
  ghost predicate Pending(s: Setup, nn: seq<nat>, open: seq<bool>, index: map<(int, int), int>, nodes: seq<Node>)
  {
    (forall l | 0 <= l < |nn| && l < |open| :: CurrentAt(nn, open, index, nodes, l)) &&
    (forall n | 0 <= n < |nodes| :: WaitingAt(s, nn, nodes, n))
  }

  /** Each child of n names n as its father, and none is listed twice. */
  ghost predicate ChildrenAt(nodes: seq<Node>, n: int)
    requires 0 <= n < |nodes|
  {
    (forall k | 0 <= k < |nodes[n].children| ::
       0 <= nodes[n].children[k] < |nodes| && nodes[nodes[n].children[k]].father == n) &&
    Distinct(nodes[n].children)
  }

  /** Node n is not linked yet, or is the root (the first component of the lowest
      level, its own father), or is listed among the children of its father. */
  ghost predicate FatherAt(s: Setup, nodes: seq<Node>, n: int)
    requires 0 <= n < |nodes|
  {
    nodes[n].father == -1 || (nodes[n].father == n && Key(s, nodes[n]) == (0, 0)) || FatherOk(nodes, n)
  }

  /** The links made so far agree: children above fathers, fathers and children
      lists in step. */
  ghost predicate Links(s: Setup, nodes: seq<Node>)
  {
    Nested(nodes) && forall n | 0 <= n < |nodes| :: ChildrenAt(nodes, n) && FatherAt(s, nodes, n)
  }

  /** An open level has a queued cell or already the node of its current component. */
  ghost predicate Open(hq: seq<seq<int>>, nn: seq<nat>, open: seq<bool>, index: map<(int, int), int>)
  {
    forall l | 0 <= l < |hq| && l < |nn| && l < |open| :: OpenAt(hq, nn, open, index, l)
  }
  ghost predicate OpenAt(hq: seq<seq<int>>, nn: seq<nat>, open: seq<bool>, index: map<(int, int), int>, l: int)
    requires 0 <= l < |hq| && l < |nn| && l < |open|
  { open[l] ==> hq[l] != [] || (l, nn[l]) in index }

  /** Node n's pixels are offsets of the original image whose grey level is the
      node's own, its level is still that level, its area is their number and its
      box what update_attributes made of them. */
  ghost predicate OwnAt(s: Setup, nodes: seq<Node>, n: int)
    requires 0 <= n < |nodes|
  {
    nodes[n].area == |nodes[n].pixels| && nodes[n].h == nodes[n].oriH &&
    Boxes.BoxOf(nodes[n]) == PixelHull(s.frame.ori, s.far, nodes[n].pixels) &&
    forall i | 0 <= i < |nodes[n].pixels| ::
      0 <= nodes[n].pixels[i] < Count(s.frame.ori) && GreyOf(s, nodes[n].pixels[i]) == nodes[n].oriH
  }

  /** A labelled cell sits, by its original offset, among the pixels of the node
      that the index holds for its level and label. */
  ghost predicate Placed(s: Setup, status: seq<Status>, index: map<(int, int), int>, nodes: seq<Node>)
  {
    forall c | 0 <= c < |status| :: PlacedAt(s, status, index, nodes, c)
  }
  ghost predicate PlacedAt(s: Setup, status: seq<Status>, index: map<(int, int), int>, nodes: seq<Node>, c: int)
    requires 0 <= c < |status|
  {
    status[c].Label? ==>
      c < |s.img| && (s.img[c] - s.hMin, status[c].n) in index &&
      0 <= index[(s.img[c] - s.hMin, status[c].n)] < |nodes| &&
      ImOffset(s.frame, c) in nodes[index[(s.img[c] - s.hMin, status[c].n)]].pixels
  }

  /** The pixels of the nodes are the original offsets of the labelled cells,
      children sit strictly above their fathers, and every node owns its pixels. */
  ghost predicate Arena(s: Setup, nodes: seq<Node>, pop: seq<int>)
  {
    AllPixels(nodes) == ImBag(s.frame, pop) && Nested(nodes) && forall n | 0 <= n < |nodes| :: OwnAt(s, nodes, n)
  }

  /* ---- One step of the flooding at a time ---- */

  /** Relabelling a cell that is not border keeps the layout. */
  lemma LayoutSet(s: Setup, status: seq<Status>, hq: seq<seq<int>>, nn: seq<nat>, open: seq<bool>,
                  hq': seq<seq<int>>, open': seq<bool>, c: int, v: Status)
    requires Layout(s, status, hq, nn, open) && 0 <= c < |status| && status[c] != BorderStatus && v != BorderStatus
    requires |hq'| == |hq| && |open'| == |open|
    ensures Layout(s, status[c := v], hq', nn, open')
  {
    var st := status[c := v];
    forall c' | 0 <= c' < |st|
      ensures BorderAt(s, st, c')
    {
      assert BorderAt(s, status, c');
    }
  }

  /** Taking the head p of the queue of level h and labelling it. */
  lemma PopQueued(s: Setup, status: seq<Status>, hq: seq<seq<int>>, nn: seq<nat>, open: seq<bool>, h: int, n: nat)
    requires Layout(s, status, hq, nn, open) && Queued(s, status, hq) && 0 <= h < |hq| && hq[h] != []
    ensures var p := hq[h][0];
      0 <= p < |status| && status[p] == NotActive && s.img[p] - s.hMin == h &&
      InGrid(s.frame.ori, ImCoord(s.frame, p)) &&
      Layout(s, status[p := Label(n)], hq[h := hq[h][1..]], nn, open) &&
      Queued(s, status[p := Label(n)], hq[h := hq[h][1..]]) &&
      TotalLen(hq[h := hq[h][1..]]) + 1 == TotalLen(hq) &&
      ActiveCount(status[p := Label(n)]) == ActiveCount(status)
  {
    var p := hq[h][0];
    var hq' := hq[h := hq[h][1..]];
    assert QueuedAt(s, status, hq, h);
    assert 0 <= p < |status| && status[p] == NotActive;
    var st := status[p := Label(n)];
    assert BorderAt(s, status, p);
    assert !s.border[p] && Inside(s, p);
    LayoutSet(s, status, hq, nn, open, hq', open, p, Label(n));
    TotalLenSet(hq, h, hq[h][1..]);
    ActiveCountSet(status, p, Label(n));
    forall l | 0 <= l < |hq'|
      ensures QueuedAt(s, st, hq', l)
    {
      assert QueuedAt(s, status, hq, l);
      forall k | 0 <= k < |hq'[l]|
        ensures 0 <= hq'[l][k] < |st| && hq'[l][k] < |s.img| && s.img[hq'[l][k]] - s.hMin == l && st[hq'[l][k]] == NotActive
      {
        if l == h {
          assert hq'[l][k] == hq[h][k + 1];
        } else {
          assert hq'[l][k] == hq[l][k];
        }
      }
    }
  }

  lemma PopVisited(status: seq<Status>, pop: seq<int>, p: int, n: nat)
    requires Visited(status, pop) && 0 <= p < |status| && status[p] == NotActive
    ensures Visited(status[p := Label(n)], pop + [p])
  {
    assert LabelledAt(status, pop, p);
    DistinctConcat(pop, [p]);
    var st, pop' := status[p := Label(n)], pop + [p];
    forall c
      ensures LabelledAt(st, pop', c)
    {
      assert LabelledAt(status, pop, c);
    }
  }

  /** The queue of an open level may empty once the node of its component exists. */
  lemma PopOpen(hq: seq<seq<int>>, nn: seq<nat>, open: seq<bool>, index: map<(int, int), int>, h: int)
    requires Open(hq, nn, open, index) && 0 <= h < |hq| && h < |nn| && (h, nn[h]) in index && hq[h] != []
    ensures Open(hq[h := hq[h][1..]], nn, open, index)
  {
    var hq' := hq[h := hq[h][1..]];
    forall l | 0 <= l < |hq'| && l < |nn| && l < |open|
      ensures OpenAt(hq', nn, open, index, l)
    {
      assert OpenAt(hq, nn, open, index, l);
    }
  }

  /** Adding the pixel of cell p, inside the original image, to node n. */
  lemma AddKeeps(s: Setup, index: map<(int, int), int>, nodes: seq<Node>, pop: seq<int>, n: int, p: int)
    requires Arena(s, nodes, pop) && 0 <= n < |nodes|
    requires s.frame.padded.x > 0 && s.frame.padded.y > 0 && 0 <= p < Count(s.frame.padded) && p < |s.img|
    requires InGrid(s.frame.ori, ImCoord(s.frame, p)) && s.img[p] == nodes[n].oriH
    ensures Arena(s, nodes[n := AddPixel(nodes[n], ImOffset(s.frame, p), ImCoord(s.frame, p))], pop + [p])
  {
    var off := ImOffset(s.frame, p);
    var x := AddPixel(nodes[n], off, ImCoord(s.frame, p));
    var u := nodes[n := x];
    NestedSame(nodes, n, x);
    AllPixelsGrow(nodes, n, x, [off]);
    assert (pop + [p])[..|pop|] == pop;
    assert ImBag(s.frame, pop + [p]) == ImBag(s.frame, pop) + multiset{off};
    AddOwn(s, nodes, n, p);
    forall y | 0 <= y < |u|
      ensures OwnAt(s, u, y)
    {
      if y != n {
        assert OwnAt(s, nodes, y) && u[y] == nodes[y];
      }
    }
  }

  /** The pixel of cell p, of the node's grey level, joins node n: its area, box,
      pixel range and pixel levels stay right. */
  lemma AddOwn(s: Setup, nodes: seq<Node>, n: int, p: int)
    requires 0 <= n < |nodes| && OwnAt(s, nodes, n) && InGrid(s.frame.ori, ImCoord(s.frame, p))
    requires s.frame.padded.x > 0 && s.frame.padded.y > 0 && 0 <= p < Count(s.frame.padded) && p < |s.img|
    requires s.img[p] == nodes[n].oriH
    ensures var u := nodes[n := AddPixel(nodes[n], ImOffset(s.frame, p), ImCoord(s.frame, p))];
      OwnAt(s, u, n)
  {
    var off := ImOffset(s.frame, p);
    var x := AddPixel(nodes[n], off, ImCoord(s.frame, p));
    var u := nodes[n := x];
    OffsetInRange(s.frame.ori, ImCoord(s.frame, p));
    CoordOfOffset(s.frame.ori, ImCoord(s.frame, p));
    assert PixelCoord(s.frame.ori, off) == ImCoord(s.frame, p);
    assert x.pixels[..|x.pixels| - 1] == nodes[n].pixels;
    assert Boxes.BoxOf(x) == PixelHull(s.frame.ori, s.far, x.pixels);
    CellOfImOffset(s.frame, p);
    forall i | 0 <= i < |x.pixels|
      ensures 0 <= x.pixels[i] < Count(s.frame.ori) && GreyOf(s, x.pixels[i]) == x.oriH
    {
      if i < |nodes[n].pixels| {
        assert x.pixels[i] == nodes[n].pixels[i];
      }
    }
    assert u[n] == x;
  }

  /** Queueing the ACTIVE cell q at its own level l, which becomes open. */
  lemma EnqueueQueued(s: Setup, status: seq<Status>, hq: seq<seq<int>>, nn: seq<nat>, open: seq<bool>,
                      index: map<(int, int), int>, q: int)
    requires Layout(s, status, hq, nn, open) && Queued(s, status, hq) && Open(hq, nn, open, index)
    requires 0 <= q < |status| && status[q] == Active
    ensures var l := s.img[q] - s.hMin;
      0 <= l < |hq| &&
      Layout(s, status[q := NotActive], hq[l := hq[l] + [q]], nn, open[l := true]) &&
      Queued(s, status[q := NotActive], hq[l := hq[l] + [q]]) &&
      Open(hq[l := hq[l] + [q]], nn, open[l := true], index) &&
      TotalLen(hq[l := hq[l] + [q]]) == TotalLen(hq) + 1 &&
      ActiveCount(status[q := NotActive]) + 1 == ActiveCount(status)
  {
    var l := s.img[q] - s.hMin;
    assert BorderAt(s, status, q) && InteriorAt(s, |hq|, q);
    var hq' := hq[l := hq[l] + [q]];
    var st := status[q := NotActive];
    var open' := open[l := true];
    LayoutSet(s, status, hq, nn, open, hq', open', q, NotActive);
    TotalLenSet(hq, l, hq[l] + [q]);
    ActiveCountSet(status, q, NotActive);
    forall l' | 0 <= l' < |hq'|
      ensures QueuedAt(s, st, hq', l')
    {
      assert QueuedAt(s, status, hq, l');
      forall k | 0 <= k < |hq'[l']|
        ensures 0 <= hq'[l'][k] < |st| && hq'[l'][k] < |s.img| && s.img[hq'[l'][k]] - s.hMin == l' && st[hq'[l'][k]] == NotActive
      {
        if l' != l || k < |hq[l]| {
          assert hq'[l'][k] == hq[l'][k];
        }
      }
      if l' == l {
        forall k | 0 <= k < |hq[l]|
          ensures hq[l][k] != q
        {
        }
        DistinctConcat(hq[l], [q]);
      }
    }
    forall l' | 0 <= l' < |hq'| && l' < |nn| && l' < |open'|
      ensures OpenAt(hq', nn, open', index, l')
    {
      assert OpenAt(hq, nn, open, index, l');
    }
  }

  lemma EnqueueVisited(status: seq<Status>, pop: seq<int>, q: int)
    requires Visited(status, pop) && 0 <= q < |status| && status[q] == Active
    ensures Visited(status[q := NotActive], pop)
  {
    var st := status[q := NotActive];
    forall c
      ensures LabelledAt(st, pop, c)
    {
      assert LabelledAt(status, pop, c);
    }
  }

  /** Closing level h after its component count moved on. */
  lemma FinishOpen(hq: seq<seq<int>>, nn: seq<nat>, open: seq<bool>, index: map<(int, int), int>, h: int)
    requires Open(hq, nn, open, index) && 0 <= h < |nn| && h < |open|
    ensures Open(hq, nn[h := nn[h] + 1], open[h := false], index)
  {
    var nn', open' := nn[h := nn[h] + 1], open[h := false];
    forall l | 0 <= l < |hq| && l < |nn'| && l < |open'|
      ensures OpenAt(hq, nn', open', index, l)
    {
      assert OpenAt(hq, nn, open, index, l);
    }
  }

  /** The labelled cells lie inside the original image. */
  lemma VisitedInside(s: Setup, status: seq<Status>, hq: seq<seq<int>>, nn: seq<nat>, open: seq<bool>, pop: seq<int>)
    requires Layout(s, status, hq, nn, open) && Visited(status, pop)
    ensures forall k | 0 <= k < |pop| :: 0 <= pop[k] < Count(s.frame.padded) && InGrid(s.frame.ori, ImCoord(s.frame, pop[k]))
  {
    forall k | 0 <= k < |pop|
      ensures 0 <= pop[k] < Count(s.frame.padded) && InGrid(s.frame.ori, ImCoord(s.frame, pop[k]))
    {
      assert pop[k] in pop && LabelledAt(status, pop, pop[k]) && BorderAt(s, status, pop[k]);
      assert Inside(s, pop[k]);
    }
  }

  /* ---- The links between the nodes ---- */

  /** A node not linked yet is listed by no father. */
  lemma UnlinkedUnlisted(s: Setup, nodes: seq<Node>, c: int, n: int, k: int)
    requires Links(s, nodes) && 0 <= c < |nodes| && nodes[c].father == -1
    requires 0 <= n < |nodes| && 0 <= k < |nodes[n].children|
    ensures nodes[n].children[k] != c
  {
    assert ChildrenAt(nodes, n);
  }

  /** Replacing node id by one with the same level, component, father and children
      keeps every fact about the links and keys. */
  lemma SameLinks(s: Setup, nn: seq<nat>, open: seq<bool>, index: map<(int, int), int>, t: seq<Node>, id: int, x: Node)
    requires 0 <= id < |t| && x.oriH == t[id].oriH && x.component == t[id].component
    requires x.father == t[id].father && x.children == t[id].children
    requires Indexed(s, index, t) && Keyed(s, nn, index, t) && Pending(s, nn, open, index, t) && Links(s, t)
    ensures Indexed(s, index, t[id := x]) && Keyed(s, nn, index, t[id := x])
    ensures Pending(s, nn, open, index, t[id := x]) && Links(s, t[id := x])
  {
    var u := t[id := x];
    assert Key(s, x) == Key(s, t[id]);
    NestedSame(t, id, x);
    forall n | 0 <= n < |u|
      ensures KeyedAt(s, index, u, n) && WaitingAt(s, nn, u, n) && ChildrenAt(u, n) && FatherAt(s, u, n)
    {
      assert KeyedAt(s, index, t, n) && WaitingAt(s, nn, t, n) && ChildrenAt(t, n) && FatherAt(s, t, n);
    }
    forall l | 0 <= l < |nn| && l < |open|
      ensures CurrentAt(nn, open, index, u, l)
    {
      assert CurrentAt(nn, open, index, t, l);
    }
  }

  /** new_node for the current component n of the open level h, recorded in the index. */
  lemma FreshLinks(s: Setup, nn: seq<nat>, open: seq<bool>, index: map<(int, int), int>, nodes: seq<Node>, h: int, n: nat)
    requires Indexed(s, index, nodes) && Keyed(s, nn, index, nodes) && Pending(s, nn, open, index, nodes) && Links(s, nodes)
    requires 0 <= h < |nn| && h < |open| && open[h] && n == nn[h] && (h, n) !in index
    ensures var u, index' := nodes + [FreshNode(h + s.hMin, n, s.far)], index[(h, n) := |nodes|];
      Indexed(s, index', u) && Keyed(s, nn, index', u) && Pending(s, nn, open, index', u) && Links(s, u)
  {
    var x := FreshNode(h + s.hMin, n, s.far);
    var u, index' := nodes + [x], index[(h, n) := |nodes|];
    assert Key(s, x) == (h, n);
    FreshKeeps(nodes, h + s.hMin, n, s.far);
    forall key | key in index'
      ensures IndexedAt(s, index', u, key) && Started(nn, key)
    {
      if key != (h, n) {
        assert IndexedAt(s, index, nodes, key);
        assert u[index[key]] == nodes[index[key]];
      }
    }
    forall i | 0 <= i < |u|
      ensures KeyedAt(s, index', u, i) && WaitingAt(s, nn, u, i) && ChildrenAt(u, i) && FatherAt(s, u, i)
    {
      if i < |nodes| {
        assert u[i] == nodes[i];
        assert KeyedAt(s, index, nodes, i) && WaitingAt(s, nn, nodes, i) && ChildrenAt(nodes, i) && FatherAt(s, nodes, i);
        forall k | 0 <= k < |u[i].children|
          ensures u[u[i].children[k]] == nodes[nodes[i].children[k]]
        {
        }
      }
    }
    forall l | 0 <= l < |nn| && l < |open|
      ensures CurrentAt(nn, open, index', u, l)
    {
      if l != h {
        assert CurrentAt(nn, open, index, nodes, l);
      }
    }
  }

  /** The key facts across a step that links the current node child of level h:
      levels and components stay, only the child stops being unlinked, and level h
      closes with its count moved on. */
  lemma LinkPending(s: Setup, nn: seq<nat>, open: seq<bool>, index: map<(int, int), int>, nodes: seq<Node>, u: seq<Node>,
                    h: int, child: int)
    requires Indexed(s, index, nodes) && Keyed(s, nn, index, nodes) && Pending(s, nn, open, index, nodes)
    requires 0 <= h < |nn| && h < |open| && (h, nn[h]) in index && child == index[(h, nn[h])]
    requires |u| == |nodes| && 0 <= child < |u| && u[child].father != -1
    requires forall i | 0 <= i < |nodes| :: Key(s, u[i]) == Key(s, nodes[i])
    requires forall i | 0 <= i < |nodes| && i != child :: u[i].father == nodes[i].father
    ensures var nn', open' := nn[h := nn[h] + 1], open[h := false];
      Indexed(s, index, u) && Keyed(s, nn', index, u) && Pending(s, nn', open', index, u)
  {
    var nn', open' := nn[h := nn[h] + 1], open[h := false];
    forall key | key in index
      ensures Started(nn', key)
    {
      assert Started(nn, key);
    }
    forall l | 0 <= l < |nn'| && l < |open'|
      ensures CurrentAt(nn', open', index, u, l)
    {
      assert Started(nn, (h, nn[h] + 1)) ==> false;
      if l != h {
        assert CurrentAt(nn, open, index, nodes, l);
        if (l, nn[l]) in index {
          assert Key(s, nodes[index[(l, nn[l])]]) == (l, nn[l]);
        }
      }
    }
    forall n | 0 <= n < |u|
      ensures KeyedAt(s, index, u, n) && WaitingAt(s, nn', u, n)
    {
      assert KeyedAt(s, index, nodes, n) && WaitingAt(s, nn, nodes, n);
    }
  }

  /** link_node for the finished current component of level h, under a node of
      a lower level, with level h closed and its count moved on. */
  lemma LinkLinks(s: Setup, nn: seq<nat>, open: seq<bool>, index: map<(int, int), int>, nodes: seq<Node>,
                  h: int, father: int, child: int)
    requires Indexed(s, index, nodes) && Keyed(s, nn, index, nodes) && Pending(s, nn, open, index, nodes) && Links(s, nodes)
    requires 0 <= h < |nn| && h < |open| && (h, nn[h]) in index && child == index[(h, nn[h])]
    requires 0 <= father < |nodes| && nodes[father].oriH < nodes[child].oriH
    ensures var u, nn', open' := Linked(nodes, father, child), nn[h := nn[h] + 1], open[h := false];
      Indexed(s, index, u) && Keyed(s, nn', index, u) && Pending(s, nn', open', index, u) && Links(s, u)
  {
    var u := Linked(nodes, father, child);
    assert CurrentAt(nn, open, index, nodes, h);
    LinkedSame(nodes, father, child);
    LinkPending(s, nn, open, index, nodes, u, h, child);
    LinkedLinks(s, nodes, father, child);
  }

  /** link_node of an unlinked child under a node of a lower level keeps the links. */
  lemma LinkedLinks(s: Setup, nodes: seq<Node>, father: int, child: int)
    requires Links(s, nodes) && 0 <= father < |nodes| && 0 <= child < |nodes|
    requires nodes[child].father == -1 && nodes[father].oriH < nodes[child].oriH
    ensures Links(s, Linked(nodes, father, child))
  {
    var u := Linked(nodes, father, child);
    LinkKeeps(nodes, father, child);
    forall i | 0 <= i < |u|
      ensures ChildrenAt(u, i) && FatherAt(s, u, i)
    {
      LinkedAt(s, nodes, father, child, i);
    }
  }

  /** After link_node, node i still agrees with its children and its father. */
  lemma LinkedAt(s: Setup, nodes: seq<Node>, father: int, child: int, i: int)
    requires Links(s, nodes) && 0 <= father < |nodes| && 0 <= child < |nodes| && father != child
    requires nodes[child].father == -1 && 0 <= i < |nodes|
    ensures ChildrenAt(Linked(nodes, father, child), i) && FatherAt(s, Linked(nodes, father, child), i)
  {
    var u := Linked(nodes, father, child);
    assert ChildrenAt(nodes, i) && FatherAt(s, nodes, i);
    if i == father {
      LinkedChildren(s, nodes, father, child);
    } else {
      assert u[i].children == nodes[i].children;
      forall k | 0 <= k < |u[i].children|
        ensures u[u[i].children[k]].father == i
      {
        UnlinkedUnlisted(s, nodes, child, i, k);
      }
    }
    if i != child && nodes[i].father != -1 && !(nodes[i].father == i && Key(s, nodes[i]) == (0, 0)) {
      var f := nodes[i].father;
      assert i in u[f].children;
    }
  }

  /** The children of the new father after link_node. */
  lemma LinkedChildren(s: Setup, nodes: seq<Node>, father: int, child: int)
    requires Links(s, nodes) && 0 <= father < |nodes| && 0 <= child < |nodes| && father != child
    requires nodes[child].father == -1
    ensures ChildrenAt(Linked(nodes, father, child), father)
  {
    var u := Linked(nodes, father, child);
    assert ChildrenAt(nodes, father);
    assert u[father].children == nodes[father].children + [child];
    forall k | 0 <= k < |nodes[father].children|
      ensures nodes[father].children[k] != child && u[nodes[father].children[k]].father == father
    {
      UnlinkedUnlisted(s, nodes, child, father, k);
    }
    DistinctConcat(nodes[father].children, [child]);
  }

  /** The first component of the lowest level becomes its own father. */
  lemma RootLinks(s: Setup, nn: seq<nat>, open: seq<bool>, index: map<(int, int), int>, nodes: seq<Node>, root: int)
    requires Indexed(s, index, nodes) && Keyed(s, nn, index, nodes) && Pending(s, nn, open, index, nodes) && Links(s, nodes)
    requires 0 < |nn| && 0 < |open| && nn[0] == 0 && (0, 0) in index && root == index[(0, 0)]
    ensures var u, nn', open' := nodes[root := nodes[root].(father := root)], nn[0 := 1], open[0 := false];
      Indexed(s, index, u) && Keyed(s, nn', index, u) && Pending(s, nn', open', index, u) && Links(s, u)
  {
    var u := nodes[root := nodes[root].(father := root)];
    assert CurrentAt(nn, open, index, nodes, 0);
    assert Key(s, u[root]) == (0, 0);
    LinkPending(s, nn, open, index, nodes, u, 0, root);
    assert nn[0 := nn[0] + 1] == nn[0 := 1];
    NestedSame(nodes, root, u[root]);
    forall i | 0 <= i < |u|
      ensures ChildrenAt(u, i) && FatherAt(s, u, i)
    {
      assert ChildrenAt(nodes, i) && FatherAt(s, nodes, i);
      forall k | 0 <= k < |u[i].children|
        ensures u[u[i].children[k]].father == i
      {
        UnlinkedUnlisted(s, nodes, root, i, k);
      }
    }
  }

  /** Once every level is closed, no node waits for its father: the links form
      the tree of the self-parented root. */
  lemma LinkedTree(s: Setup, nn: seq<nat>, open: seq<bool>, index: map<(int, int), int>, nodes: seq<Node>, root: int)
    requires Indexed(s, index, nodes) && Keyed(s, nn, index, nodes) && Pending(s, nn, open, index, nodes) && Links(s, nodes)
    requires |open| == |nn| && forall l | 0 <= l < |open| :: !open[l]
    requires (0, 0) in index && root == index[(0, 0)] && nodes[root].father == root
    ensures Shaped(nodes, root)
  {
    forall n, k | 0 <= n < |nodes| && 0 <= k < |nodes[n].children|
      ensures nodes[nodes[n].children[k]].father == n
    {
      assert ChildrenAt(nodes, n);
    }
    forall n, k, k' | 0 <= n < |nodes| && 0 <= k < k' < |nodes[n].children|
      ensures nodes[n].children[k] != nodes[n].children[k']
    {
      assert ChildrenAt(nodes, n);
    }
    forall n | 0 <= n < |nodes| && n != root
      ensures FatherOk(nodes, n)
    {
      assert FatherAt(s, nodes, n) && KeyedAt(s, index, nodes, n) && WaitingAt(s, nn, nodes, n);
      assert Started(nn, Key(s, nodes[n]));
      assert CurrentAt(nn, open, index, nodes, nodes[n].oriH - s.hMin);
    }
  }

  /** What the arena promises node by node, spelled out. */
  lemma ArenaOwned(s: Setup, nodes: seq<Node>, pop: seq<int>)
    requires Arena(s, nodes, pop)
    ensures PixelsIn(nodes, Count(s.frame.ori))
    ensures forall n | 0 <= n < |nodes| :: nodes[n].area == |nodes[n].pixels|
    ensures forall n | 0 <= n < |nodes| :: Boxes.BoxOf(nodes[n]) == PixelHull(s.frame.ori, s.far, nodes[n].pixels)
    ensures forall n | 0 <= n < |nodes| :: nodes[n].h == nodes[n].oriH
    ensures forall n | 0 <= n < |nodes| :: forall i | 0 <= i < |nodes[n].pixels| :: GreyOf(s, nodes[n].pixels[i]) == nodes[n].oriH
  {
    forall n | 0 <= n < |nodes|
      ensures nodes[n].area == |nodes[n].pixels| && nodes[n].h == nodes[n].oriH
      ensures forall i | 0 <= i < |nodes[n].pixels| :: GreyOf(s, nodes[n].pixels[i]) == nodes[n].oriH
      ensures Boxes.BoxOf(nodes[n]) == PixelHull(s.frame.ori, s.far, nodes[n].pixels)
      ensures forall i | 0 <= i < |nodes[n].pixels| :: 0 <= nodes[n].pixels[i] < Count(s.frame.ori)
    {
      assert OwnAt(s, nodes, n);
    }
  }

  /** What the flooding leaves once every level is closed and the root is its own
      father: a tree whose pixels are the taken cells, each once, each in the node
      of its level and label, and weighing what those cells weigh. */
  lemma Finished(s: Setup, status: seq<Status>, hq: seq<seq<int>>, nn: seq<nat>, open: seq<bool>,
                 index: map<(int, int), int>, nodes: seq<Node>, pop: seq<int>, root: int)
    requires Flooded(s, status, hq, nn, open, index, nodes, pop) && forall l | 0 <= l < |open| :: !open[l]
    requires (0, 0) in index && root == index[(0, 0)] && nodes[root].father == root
    ensures Shaped(nodes, root)
    ensures forall x :: AllPixels(nodes)[x] <= 1
    ensures forall c | 0 <= c < |status| :: status[c].Label? <==> c in pop
    ensures forall k | 0 <= k < |pop| :: 0 <= pop[k] < |s.img|
    ensures PixelMass(s, PixelsOf(nodes, Desc(nodes, root))) == CellMass(s.img, pop)
  {
    LinkedTree(s, nn, open, index, nodes, root);
    VisitedInside(s, status, hq, nn, open, pop);
    forall x
      ensures AllPixels(nodes)[x] <= 1
    {
      ImBagOnce(s.frame, pop, x);
    }
    forall c | 0 <= c < |status|
      ensures status[c].Label? <==> c in pop
    {
      assert LabelledAt(status, pop, c);
    }
    ArenaMass(s, nodes, root, pop);
  }

  /* ---- The whole invariant ---- */

  /** The whole invariant of the flooding. */
  ghost predicate Flooded(s: Setup, status: seq<Status>, hq: seq<seq<int>>, nn: seq<nat>, open: seq<bool>,
                          index: map<(int, int), int>, nodes: seq<Node>, pop: seq<int>)
  {
    Layout(s, status, hq, nn, open) && Queued(s, status, hq) && Visited(status, pop) &&
    Indexed(s, index, nodes) && Keyed(s, nn, index, nodes) && Pending(s, nn, open, index, nodes) && Links(s, nodes) &&
    Open(hq, nn, open, index) && Arena(s, nodes, pop) && Placed(s, status, index, nodes)
  }

  /** new_node for the current component n of the open level h, recorded in the index. */
  lemma FreshStep(s: Setup, status: seq<Status>, hq: seq<seq<int>>, nn: seq<nat>, open: seq<bool>,
                  index: map<(int, int), int>, nodes: seq<Node>, pop: seq<int>, h: int, n: nat)
    requires Flooded(s, status, hq, nn, open, index, nodes, pop)
    requires 0 <= h < |nn| && open[h] && n == nn[h] && (h, n) !in index
    ensures Flooded(s, status, hq, nn, open, index[(h, n) := |nodes|], nodes + [FreshNode(h + s.hMin, n, s.far)], pop)
  {
    FreshLinks(s, nn, open, index, nodes, h, n);
    FreshArena(s, nodes, pop, h, n);
    var index' := index[(h, n) := |nodes|];
    FreshPlaced(s, status, index, nodes, (h, n), FreshNode(h + s.hMin, n, s.far));
    forall l | 0 <= l < |hq| && l < |nn| && l < |open|
      ensures OpenAt(hq, nn, open, index', l)
    {
      assert OpenAt(hq, nn, open, index, l);
    }
  }

  /** A fresh node owns no pixel, with an empty box. */
  lemma FreshArena(s: Setup, nodes: seq<Node>, pop: seq<int>, h: int, n: nat)
    requires Arena(s, nodes, pop)
    ensures Arena(s, nodes + [FreshNode(h + s.hMin, n, s.far)], pop)
  {
    var u := nodes + [FreshNode(h + s.hMin, n, s.far)];
    FreshKeeps(nodes, h + s.hMin, n, s.far);
    forall i | 0 <= i < |u|
      ensures OwnAt(s, u, i)
    {
      if i < |nodes| {
        assert OwnAt(s, nodes, i) && u[i] == nodes[i];
      }
    }
  }

  /** One pass of the flooding loop's head: the head p of queue h is labelled with
      the current number of h and its pixel joins node id of that component. */
  lemma PopStep(s: Setup, status: seq<Status>, hq: seq<seq<int>>, nn: seq<nat>, open: seq<bool>,
                index: map<(int, int), int>, nodes: seq<Node>, pop: seq<int>, h: int, id: int)
    requires Flooded(s, status, hq, nn, open, index, nodes, pop)
    requires 0 <= h < |hq| && hq[h] != [] && (h, nn[h]) in index && id == index[(h, nn[h])]
    ensures var p := hq[h][0];
      0 <= p < |status| && status[p] == NotActive && s.img[p] - s.hMin == h && 0 <= id < |nodes| &&
      Flooded(s, status[p := Label(nn[h])], hq[h := hq[h][1..]], nn, open, index,
              nodes[id := AddPixel(nodes[id], ImOffset(s.frame, p), ImCoord(s.frame, p))], pop + [p]) &&
      TotalLen(hq[h := hq[h][1..]]) + 1 == TotalLen(hq) &&
      ActiveCount(status[p := Label(nn[h])]) == ActiveCount(status)
  {
    var p := hq[h][0];
    PopQueued(s, status, hq, nn, open, h, nn[h]);
    PopVisited(status, pop, p, nn[h]);
    PopOpen(hq, nn, open, index, h);
    assert IndexedAt(s, index, nodes, (h, nn[h]));
    AddKeeps(s, index, nodes, pop, id, p);
    SameLinks(s, nn, open, index, nodes, id, AddPixel(nodes[id], ImOffset(s.frame, p), ImCoord(s.frame, p)));
    PopPlaced(s, status, index, nodes, p, nn[h], id, AddPixel(nodes[id], ImOffset(s.frame, p), ImCoord(s.frame, p)));
  }

  /** The cell p, labelled n, joins the node id of its level and label. */
  lemma PopPlaced(s: Setup, status: seq<Status>, index: map<(int, int), int>, nodes: seq<Node>,
                  p: int, n: nat, id: int, x: Node)
    requires Placed(s, status, index, nodes) && 0 <= p < |status| && p < |s.img| && !status[p].Label?
    requires (s.img[p] - s.hMin, n) in index && id == index[(s.img[p] - s.hMin, n)] && 0 <= id < |nodes|
    requires x.pixels == nodes[id].pixels + [ImOffset(s.frame, p)]
    ensures Placed(s, status[p := Label(n)], index, nodes[id := x])
  {
    var st, u := status[p := Label(n)], nodes[id := x];
    forall c | 0 <= c < |st|
      ensures PlacedAt(s, st, index, u, c)
    {
      assert PlacedAt(s, status, index, nodes, c);
      if c != p && st[c].Label? {
        var k := index[(s.img[c] - s.hMin, st[c].n)];
        assert nodes[k].pixels <= u[k].pixels;
      }
    }
  }

  /** A cell that is not labelled may change its status. */
  lemma UnlabelledPlaced(s: Setup, status: seq<Status>, index: map<(int, int), int>, nodes: seq<Node>, q: int, v: Status)
    requires Placed(s, status, index, nodes) && 0 <= q < |status| && !v.Label?
    ensures Placed(s, status[q := v], index, nodes)
  {
    var st := status[q := v];
    forall c | 0 <= c < |st|
      ensures PlacedAt(s, st, index, nodes, c)
    {
      assert PlacedAt(s, status, index, nodes, c);
    }
  }

  /** A new node under a new key leaves the old entries where they were. */
  lemma FreshPlaced(s: Setup, status: seq<Status>, index: map<(int, int), int>, nodes: seq<Node>, key: (int, int), x: Node)
    requires Placed(s, status, index, nodes) && key !in index
    ensures Placed(s, status, index[key := |nodes|], nodes + [x])
  {
    var index', u := index[key := |nodes|], nodes + [x];
    forall c | 0 <= c < |status|
      ensures PlacedAt(s, status, index', u, c)
    {
      assert PlacedAt(s, status, index, nodes, c);
    }
  }

  /** Links change no pixel list. */
  lemma LinkPlaced(s: Setup, status: seq<Status>, index: map<(int, int), int>, nodes: seq<Node>, u: seq<Node>)
    requires Placed(s, status, index, nodes) && |u| == |nodes|
    requires forall i | 0 <= i < |u| :: u[i].pixels == nodes[i].pixels
    ensures Placed(s, status, index, u)
  {
    forall c | 0 <= c < |status|
      ensures PlacedAt(s, status, index, u, c)
    {
      assert PlacedAt(s, status, index, nodes, c);
    }
  }

  /** Queueing the ACTIVE cell q. */
  lemma EnqueueStep(s: Setup, status: seq<Status>, hq: seq<seq<int>>, nn: seq<nat>, open: seq<bool>,
                    index: map<(int, int), int>, nodes: seq<Node>, pop: seq<int>, q: int)
    requires Flooded(s, status, hq, nn, open, index, nodes, pop) && 0 <= q < |status| && status[q] == Active
    ensures var l := s.img[q] - s.hMin;
      0 <= l < |hq| &&
      Flooded(s, status[q := NotActive], hq[l := hq[l] + [q]], nn, open[l := true], index, nodes, pop) &&
      TotalLen(hq[l := hq[l] + [q]]) == TotalLen(hq) + 1 &&
      ActiveCount(status[q := NotActive]) + 1 == ActiveCount(status)
  {
    var l := s.img[q] - s.hMin;
    EnqueueQueued(s, status, hq, nn, open, index, q);
    EnqueueVisited(status, pop, q);
    UnlabelledPlaced(s, status, index, nodes, q, NotActive);
    var open' := open[l := true];
    forall l' | 0 <= l' < |nn| && l' < |open'|
      ensures CurrentAt(nn, open', index, nodes, l')
    {
      assert CurrentAt(nn, open, index, nodes, l');
    }
  }

  /** The end of a component of level h: its node child is linked under the node
      father of a lower level, and h is closed with its count moved on. */
  lemma LinkStep(s: Setup, status: seq<Status>, hq: seq<seq<int>>, nn: seq<nat>, open: seq<bool>,
                 index: map<(int, int), int>, nodes: seq<Node>, pop: seq<int>, h: int, father: int, child: int)
    requires Flooded(s, status, hq, nn, open, index, nodes, pop) && 0 <= h < |nn|
    requires (h, nn[h]) in index && child == index[(h, nn[h])]
    requires 0 <= father < |nodes| && nodes[father].oriH < nodes[child].oriH
    ensures Flooded(s, status, hq, nn[h := nn[h] + 1], open[h := false], index, Linked(nodes, father, child), pop)
  {
    var u := Linked(nodes, father, child);
    LinkKeeps(nodes, father, child);
    LinkLinks(s, nn, open, index, nodes, h, father, child);
    FinishOpen(hq, nn, open, index, h);
    LinkPlaced(s, status, index, nodes, u);
    forall i | 0 <= i < |u|
      ensures OwnAt(s, u, i)
    {
      assert OwnAt(s, nodes, i);
    }
  }

  /** The end of the lowest component: its node becomes its own father. */
  lemma RootStep(s: Setup, status: seq<Status>, hq: seq<seq<int>>, nn: seq<nat>, open: seq<bool>,
                 index: map<(int, int), int>, nodes: seq<Node>, pop: seq<int>, root: int)
    requires Flooded(s, status, hq, nn, open, index, nodes, pop) && 0 < |nn| && nn[0] == 0
    requires (0, 0) in index && root == index[(0, 0)]
    ensures Flooded(s, status, hq, nn[0 := 1], open[0 := false], index, nodes[root := nodes[root].(father := root)], pop)
  {
    var u := nodes[root := nodes[root].(father := root)];
    SelfFatherKeeps(nodes, root);
    RootLinks(s, nn, open, index, nodes, root);
    FinishOpen(hq, nn, open, index, 0);
    LinkPlaced(s, status, index, nodes, u);
    assert nn[0 := nn[0] + 1] == nn[0 := 1];
    forall i | 0 <= i < |u|
      ensures OwnAt(s, u, i)
    {
      assert OwnAt(s, nodes, i);
    }
  }
}

/** The builder object of the max-tree: SalembierRecursiveImplementation. */
module Salembier {
  import opened Tree
  import opened Grid
  import opened Flooding
  import Boxes

  class Builder {
    var setup: Setup            // imBorder, the border frame, the connectivity, hMin
    var status: seq<Status>     // STATUS
    var hq: seq<seq<int>>       // one FIFO per level index h - hMin
    var numberNodes: seq<nat>   // number_nodes: components started per level
    var nodeAtLevel: seq<bool>  // node_at_level
    var index: map<(int, int), int>  // index[level][number], absent for a null entry
    var nodes: seq<Node>        // the arena of created nodes
    ghost var popped: seq<int>  // every cell taken off a queue, in order

    ghost predicate Inv()
      reads this
    {
      Flooded(setup, status, hq, numberNodes, nodeAtLevel, index, nodes, popped)
    }

    /** What no step of the flooding changes: the number of levels; and cells
        once labelled stay labelled (the taken cells only grow). */
    twostate predicate Fixed()
      reads this
    {
      |hq| == old(|hq|) && old(popped) <= popped
    }

    /** Every level above h is closed. */
    ghost predicate ClosedAbove(h: int)
      reads this
    {
      forall l | 0 <= l < |nodeAtLevel| && h < l :: !nodeAtLevel[l]
    }

    /** The levels below h stay open if they were, and keep their component count. */
    twostate predicate Keeps(h: int)
      reads this
    {
      forall l | 0 <= l < h && l < |nodeAtLevel| && l < old(|nodeAtLevel|) && l < |numberNodes| && l < old(|numberNodes|) ::
        (old(nodeAtLevel[l]) ==> nodeAtLevel[l]) && numberNodes[l] == old(numberNodes[l])
    }

    /** init, after the padding: every cell of the padded grid ACTIVE except the
        border, one empty queue, a zero count and a closed flag per level, no node. */
    constructor (s: Setup, levels: nat)
      requires |s.img| == Count(s.frame.padded) && s.frame.padded.x > 0 && s.frame.padded.y > 0
      requires Interior(s, levels) && Framed(s) && Far(s)
      ensures Inv() && setup == s && |hq| == levels && popped == [] && nodes == [] && index == map[]
      ensures forall c | 0 <= c < |status| :: status[c] == if s.border[c] then BorderStatus else Active
      ensures forall l | 0 <= l < levels :: hq[l] == [] && numberNodes[l] == 0 && !nodeAtLevel[l]
    {
      setup := s;
      status := seq(|s.border|, c requires 0 <= c < |s.border| => if s.border[c] then BorderStatus else Active);
      hq := seq(levels, l => []);
      numberNodes := seq(levels, l => 0);
      nodeAtLevel := seq(levels, l => false);
      index := map[];
      nodes := [];
      popped := [];
    }

    /** The node of component n of level h, created by new_node on first use. */
    method NodeAt(h: int, n: nat) returns (id: int)
      requires Inv() && 0 <= h < |hq| && n == numberNodes[h] && nodeAtLevel[h]
      modifies this`index, this`nodes
      ensures Inv() && (h, n) in index && id == index[(h, n)]
      ensures old((h, n) in index) ==> index == old(index) && nodes == old(nodes)
      ensures forall key | key in old(index) :: key in index && index[key] == old(index[key])
    {
      if (h, n) !in index {
        FreshStep(setup, status, hq, numberNodes, nodeAtLevel, index, nodes, popped, h, n);
        id := |nodes|;
        nodes := nodes + [FreshNode(h + setup.hMin, n, setup.far)];
        index := index[(h, n) := id];
      }
      id := index[(h, n)];
    }

    /** The start of the flooding loop: the head p of the queue of level h is taken,
        labelled with the current component number of h, and its pixel joins that
        component's node, created first if need be. */
    method Pop(h: int) returns (p: int)
      requires Inv() && 0 <= h < |hq| && hq[h] != [] && nodeAtLevel[h]
      modifies this`status, this`hq, this`index, this`nodes, this`popped
      ensures Inv() && Fixed()
      ensures ActiveCount(status) == old(ActiveCount(status)) && TotalLen(hq) + 1 == old(TotalLen(hq))
      ensures 0 <= p < |status| && status[p].Label? && setup.img[p] - setup.hMin == h
    {
      var n := NodeAt(h, numberNodes[h]);
      p := Take(h, n);
    }

    /** The labelling of the head p of queue h and update_attributes on node n. */
    method Take(h: int, n: int) returns (p: int)
      requires Inv() && 0 <= h < |hq| && hq[h] != [] && (h, numberNodes[h]) in index && n == index[(h, numberNodes[h])]
      modifies this`status, this`hq, this`nodes, this`popped
      ensures Inv() && Fixed()
      ensures ActiveCount(status) == old(ActiveCount(status)) && TotalLen(hq) + 1 == old(TotalLen(hq))
      ensures 0 <= p < |status| && status[p].Label? && setup.img[p] - setup.hMin == h
    {
      p := hq[h][0];
      PopStep(setup, status, hq, numberNodes, nodeAtLevel, index, nodes, popped, h, n);
      var x := AddPixel(nodes[n], ImOffset(setup.frame, p), ImCoord(setup.frame, p));
      hq, status, popped, nodes := hq[h := hq[h][1..]], status[p := Label(numberNodes[h])], popped + [p], nodes[n := x];
    }

    /** A neighbour q that is still ACTIVE is queued at its own level, marked
        NOT_ACTIVE, and its level marked open. */
    method Enqueue(q: int)
      requires Inv() && 0 <= q < |status| && status[q] == Active
      modifies this`hq, this`status, this`nodeAtLevel
      ensures Inv() && Fixed()
      ensures 0 <= setup.img[q] - setup.hMin < |hq| && status[q] == NotActive
      ensures nodeAtLevel == old(nodeAtLevel)[setup.img[q] - setup.hMin := true]
      ensures ActiveCount(status) + 1 == old(ActiveCount(status)) && TotalLen(hq) == old(TotalLen(hq)) + 1
    {
      var l := setup.img[q] - setup.hMin;
      EnqueueStep(setup, status, hq, numberNodes, nodeAtLevel, index, nodes, popped, q);
      hq, status, nodeAtLevel := hq[l := hq[l] + [q]], status[q := NotActive], nodeAtLevel[l := true];
    }
  
    /** computeTree: the first ACTIVE cell at the lowest level seeds its queue and
        level 0 is flooded.  The nodes form a tree: the node of the first component
        at the lowest level is the root, its own father, every other node is listed
        among its father's children, and children sit strictly above their fathers.
        The pixel lists of the nodes hold the original offset of each labelled
        cell, each once: a cell labelled k at level l sits in the node the index
        holds for (l - hMin, k), and every pixel of a node has the node's level as
        its grey level, so the pixels of the tree weigh what the labelled cells
        weigh.  Each node's area is the number of its pixels, and its box what
        update_attributes made of them. */
    method ComputeTree() returns (root: int)
      requires Inv() && popped == [] && |hq| > 0
      requires forall l | 0 <= l < |hq| :: hq[l] == [] && numberNodes[l] == 0 && !nodeAtLevel[l]
      requires exists c | 0 <= c < |status| :: status[c] == Active && setup.img[c] == setup.hMin
      modifies this`status, this`hq, this`numberNodes, this`nodeAtLevel, this`index, this`nodes, this`popped
      ensures Inv()
      ensures Shaped(nodes, root) && nodes[root].oriH == setup.hMin
      ensures AllPixels(nodes) == ImBag(setup.frame, popped) && Distinct(popped)
      ensures forall c | 0 <= c < |status| :: status[c].Label? <==> c in popped
      ensures forall x :: AllPixels(nodes)[x] <= 1
      ensures PixelsIn(nodes, Count(setup.frame.ori))
      ensures forall n | 0 <= n < |nodes| :: nodes[n].area == |nodes[n].pixels|
      ensures Far(setup) && forall n | 0 <= n < |nodes| :: Boxes.BoxOf(nodes[n]) == PixelHull(setup.frame.ori, setup.far, nodes[n].pixels)
      ensures Placed(setup, status, index, nodes)
      ensures forall n | 0 <= n < |nodes| :: nodes[n].h == nodes[n].oriH
      ensures forall n | 0 <= n < |nodes| :: forall i | 0 <= i < |nodes[n].pixels| :: GreyOf(setup, nodes[n].pixels[i]) == nodes[n].oriH
      ensures forall k | 0 <= k < |popped| :: 0 <= popped[k] < |setup.img|
      ensures PixelMass(setup, PixelsOf(nodes, Desc(nodes, root))) == CellMass(setup.img, popped)
    {
      var c := Seed();
      Enqueue(c);
      var m := Flood(0);
      root := index[(0, 0)];
      Finished(setup, status, hq, numberNodes, nodeAtLevel, index, nodes, popped, root);
      ArenaOwned(setup, nodes, popped);
    }

    /** The seed of computeTree: the first cell in grid order that is ACTIVE at
        the lowest level. */
    method Seed() returns (c: int)
      requires |setup.img| == |status|
      requires exists c | 0 <= c < |status| :: status[c] == Active && setup.img[c] == setup.hMin
      ensures 0 <= c < |status| && status[c] == Active && setup.img[c] == setup.hMin
      ensures forall d | 0 <= d < c :: !(status[d] == Active && setup.img[d] == setup.hMin)
    {
      c := 0;
      while !(status[c] == Active && setup.img[c] == setup.hMin)
        invariant 0 <= c < |status|
        invariant forall d | 0 <= d < c :: !(status[d] == Active && setup.img[d] == setup.hMin)
        invariant exists d | c <= d < |status| :: status[d] == Active && setup.img[d] == setup.hMin
        decreases |status| - c
      {
        c := c + 1;
      }
    }

    /** flood(h): empties the queue of level h, then finishes the component of h.
        Returns the nearest lower open level, or -1 once the root is made. */
    method Flood(h: int) returns (m: int)
      requires Inv() && 0 <= h < |hq| && nodeAtLevel[h]
      requires h == 0 ==> numberNodes[0] == 0
      requires h > 0 ==> exists l | 0 <= l < h :: nodeAtLevel[l]
      requires ClosedAbove(h)
      modifies this`status, this`hq, this`numberNodes, this`nodeAtLevel, this`index, this`nodes, this`popped
      ensures Inv() && Fixed() && Keeps(h) && ClosedAbove(m)
      ensures -1 <= m < h && (m >= 0 ==> nodeAtLevel[m]) && forall l | m < l < h :: !nodeAtLevel[l]
      ensures ActiveCount(status) <= old(ActiveCount(status))
      ensures ActiveCount(status) + TotalLen(hq) <= old(ActiveCount(status) + TotalLen(hq))
      ensures m == -1 ==> (0, 0) in index && nodes[index[(0, 0)]].father == index[(0, 0)]
      decreases ActiveCount(status), 5
    {
      Drain(h);
      m := Finish(h);
    }

    /** The loop of flood(h), until the queue of level h is empty. */
    method Drain(h: int)
      requires Inv() && 0 <= h < |hq| && nodeAtLevel[h] && ClosedAbove(h)
      modifies this`status, this`hq, this`numberNodes, this`nodeAtLevel, this`index, this`nodes, this`popped
      ensures Inv() && Fixed() && Keeps(h + 1) && hq[h] == [] && ClosedAbove(h)
      ensures ActiveCount(status) <= old(ActiveCount(status))
      ensures ActiveCount(status) + TotalLen(hq) <= old(ActiveCount(status) + TotalLen(hq))
      decreases ActiveCount(status), 4
    {
      while hq[h] != []
        invariant Inv() && Fixed() && Keeps(h + 1) && ClosedAbove(h)
        invariant ActiveCount(status) <= old(ActiveCount(status))
        invariant ActiveCount(status) + TotalLen(hq) <= old(ActiveCount(status) + TotalLen(hq))
        decreases ActiveCount(status) + TotalLen(hq)
      {
        Step(h);
      }
    }

    /** One pass of the loop of flood(h): the head of the queue is labelled and
        its neighbours handled. */
    method Step(h: int)
      requires Inv() && 0 <= h < |hq| && nodeAtLevel[h] && hq[h] != [] && ClosedAbove(h)
      modifies this`status, this`hq, this`numberNodes, this`nodeAtLevel, this`index, this`nodes, this`popped
      ensures Inv() && Fixed() && Keeps(h + 1) && ClosedAbove(h)
      ensures ActiveCount(status) <= old(ActiveCount(status))
      ensures ActiveCount(status) + TotalLen(hq) < old(ActiveCount(status) + TotalLen(hq))
      decreases ActiveCount(status), 3
    {
      var p := Pop(h);
      Neighbours(h, p);
    }

    /** The neighbour loop of flood(h) for the cell p just labelled. */
    method Neighbours(h: int, p: int)
      requires Inv() && 0 <= h < |hq| && nodeAtLevel[h]
      requires 0 <= p < |status| && status[p].Label? && setup.img[p] - setup.hMin == h && ClosedAbove(h)
      modifies this`status, this`hq, this`numberNodes, this`nodeAtLevel, this`index, this`nodes, this`popped
      ensures Inv() && Fixed() && Keeps(h + 1) && ClosedAbove(h)
      ensures ActiveCount(status) <= old(ActiveCount(status))
      ensures ActiveCount(status) + TotalLen(hq) <= old(ActiveCount(status) + TotalLen(hq))
      decreases ActiveCount(status), 2
    {
      assert LabelledAt(status, popped, p);
      var k := 0;
      while k < |setup.se|
        invariant 0 <= k <= |setup.se|
        invariant Inv() && Fixed() && Keeps(h + 1) && ClosedAbove(h)
        invariant ActiveCount(status) <= old(ActiveCount(status))
        invariant ActiveCount(status) + TotalLen(hq) <= old(ActiveCount(status) + TotalLen(hq))
      {
        assert LabelledAt(status, popped, p) && BorderAt(setup, status, p) && InteriorAt(setup, |hq|, p);
        Visit(h, p, p + setup.se[k]);
        k := k + 1;
      }
    }

    /** A neighbour q of p that is still ACTIVE is queued; if it lies above h,
        its level is flooded first, down to h again. */
    method Visit(h: int, p: int, q: int)
      requires Inv() && 0 <= h < |hq| && nodeAtLevel[h]
      requires 0 <= p < |status| && setup.img[p] - setup.hMin == h && 0 <= q < |status| && ClosedAbove(h)
      modifies this`status, this`hq, this`numberNodes, this`nodeAtLevel, this`index, this`nodes, this`popped
      ensures Inv() && Fixed() && Keeps(h + 1) && ClosedAbove(h)
      ensures ActiveCount(status) <= old(ActiveCount(status))
      ensures ActiveCount(status) + TotalLen(hq) <= old(ActiveCount(status) + TotalLen(hq))
      decreases ActiveCount(status), 1
    {
      if status[q] == Active {
        Enqueue(q);
        if setup.img[q] > setup.img[p] {
          FloodTo(h, setup.img[q] - setup.hMin);
        }
      }
    }

    /** The do-while of flood(h): level l above h is flooded, then each open level
        it returns, until the flooding comes back to h. */
    method FloodTo(h: int, l: int)
      requires Inv() && 0 <= h < l < |hq| && nodeAtLevel[h] && nodeAtLevel[l]
      requires ClosedAbove(l) && forall l' | h < l' < l :: !nodeAtLevel[l']
      modifies this`status, this`hq, this`numberNodes, this`nodeAtLevel, this`index, this`nodes, this`popped
      ensures Inv() && Fixed() && Keeps(h + 1) && ClosedAbove(h)
      ensures ActiveCount(status) <= old(ActiveCount(status))
      ensures ActiveCount(status) + TotalLen(hq) <= old(ActiveCount(status) + TotalLen(hq))
      decreases ActiveCount(status) + 1, 0
    {
      var m := Flood(l);
      while m != h
        invariant Inv() && Fixed() && Keeps(h + 1) && ClosedAbove(m)
        invariant h <= m < |hq| && (m > h ==> nodeAtLevel[m])
        invariant ActiveCount(status) <= old(ActiveCount(status))
        invariant ActiveCount(status) + TotalLen(hq) <= old(ActiveCount(status) + TotalLen(hq))
        decreases m
      {
        m := Flood(m);
      }
    }

    /** The end of flood(h): the component of level h is finished; it is linked
        under the current node of the nearest lower open level m, or, when there
        is none, the node of the lowest level becomes the root, its own father.
        Level h is closed and m returned. */
    method Finish(h: int) returns (m: int)
      requires Inv() && 0 <= h < |hq| && hq[h] == [] && nodeAtLevel[h]
      requires h == 0 ==> numberNodes[0] == 0
      requires h > 0 ==> exists l | 0 <= l < h :: nodeAtLevel[l]
      modifies this`numberNodes, this`nodeAtLevel, this`index, this`nodes
      ensures Inv() && Fixed()
      ensures numberNodes == old(numberNodes)[h := old(numberNodes[h]) + 1]
      ensures nodeAtLevel == old(nodeAtLevel)[h := false]
      ensures -1 <= m < h && (m >= 0 ==> nodeAtLevel[m]) && forall l | m < l < h :: !nodeAtLevel[l]
      ensures m == -1 ==> (0, 0) in index && nodes[index[(0, 0)]].father == index[(0, 0)]
    {
      m := NearestOpen(h);
      if m >= 0 {
        Attach(h, m);
      } else {
        MakeRoot(h);
      }
    }

    /** The nearest open level below h, or -1. */
    method NearestOpen(h: int) returns (m: int)
      requires 0 <= h <= |nodeAtLevel|
      ensures -1 <= m < h && (m >= 0 ==> nodeAtLevel[m]) && forall l | m < l < h :: !nodeAtLevel[l]
    {
      m := h - 1;
      while m >= 0 && !nodeAtLevel[m]
        invariant -1 <= m < h && forall l | m < l < h :: !nodeAtLevel[l]
      {
        m := m - 1;
      }
    }

    /** The finished component of level h is linked under the current node of
        level m, created by new_node if need be. */
    method Attach(h: int, m: int)
      requires Inv() && 0 <= m < h < |hq| && hq[h] == [] && nodeAtLevel[h] && nodeAtLevel[m]
      modifies this`numberNodes, this`nodeAtLevel, this`index, this`nodes
      ensures Inv() && Fixed()
      ensures numberNodes == old(numberNodes)[h := old(numberNodes[h]) + 1]
      ensures nodeAtLevel == old(nodeAtLevel)[h := false]
      ensures (h, old(numberNodes[h])) in index && (m, numberNodes[m]) in index
      ensures nodes[index[(h, old(numberNodes[h]))]].father == index[(m, numberNodes[m])]
    {
      var i := numberNodes[h];
      assert OpenAt(hq, numberNodes, nodeAtLevel, index, h);
      var child := index[(h, i)];
      var father := NodeAt(m, numberNodes[m]);
      LinkStep(setup, status, hq, numberNodes, nodeAtLevel, index, nodes, popped, h, father, child);
      numberNodes, nodeAtLevel := numberNodes[h := i + 1], nodeAtLevel[h := false];
      LinkNode(father, child);
    }

    /** The lowest component, with no open level below: its node, the root, is
        made its own father. */
    method MakeRoot(h: int)
      requires Inv() && 0 <= h < |hq| && hq[h] == [] && nodeAtLevel[h]
      requires h == 0 ==> numberNodes[0] == 0
      requires h > 0 ==> exists l | 0 <= l < h :: nodeAtLevel[l]
      requires forall l | -1 < l < h :: !nodeAtLevel[l]
      modifies this`numberNodes, this`nodeAtLevel, this`nodes
      ensures Inv() && Fixed()
      ensures numberNodes == old(numberNodes)[h := old(numberNodes[h]) + 1]
      ensures nodeAtLevel == old(nodeAtLevel)[h := false]
      ensures (0, 0) in index && nodes[index[(0, 0)]].father == index[(0, 0)]
    {
      assert h == 0 && OpenAt(hq, numberNodes, nodeAtLevel, index, 0);
      var root := index[(0, 0)];
      RootStep(setup, status, hq, numberNodes, nodeAtLevel, index, nodes, popped, root);
      numberNodes, nodeAtLevel := numberNodes[0 := 1], nodeAtLevel[0 := false];
      nodes := nodes[root := nodes[root].(father := root)];
    }

    /** link_node: child gets tree as its father and joins tree's children. */
    method LinkNode(tree: int, child: int)
      requires 0 <= tree < |nodes| && 0 <= child < |nodes|
      modifies this`nodes
      ensures nodes == Linked(old(nodes), tree, child)
    {
      nodes := nodes[child := nodes[child].(father := tree)];
      nodes := nodes[tree := nodes[tree].(children := nodes[tree].children + [child])];
    }
  }
}
