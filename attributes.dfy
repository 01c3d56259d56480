/** The integer attribute traversals run over a finished max-tree: area, volume,
    contrast and the ancestor walk of the MSER measure (the bounding box is in
    boxes.dfy, the contour in contour.dfy).

    Each traversal of the library updates the nodes in place, recursing into the
    children.  Here the arena is passed in and the updated arena handed back, and
    every traversal states the value it leaves on each node of the subtree it
    visits as a function of the arena it was given. */
module Attributes {
  import opened Tree

  function AreaOf(n: Node): int { n.area }

  /** What the area traversal leaves on x: the areas stored on entry, summed over
      the subtree of x.  The builder stores each node's own pixel count. */
  function SubtreeArea(t: seq<Node>, x: int): int
    requires Nested(t) && 0 <= x < |t|
  {
    Sum(t, Desc(t, x), AreaOf)
  }

  /** Node y of u carries the summed area of its subtree in t, and is otherwise
      the node of t. */
  predicate AreaAt(t: seq<Node>, u: seq<Node>, y: int)
    requires Nested(t)
  {
    0 <= y < |t| && |u| == |t| && u[y] == t[y].(area := SubtreeArea(t, y))
  }

  /** A subtree's summed area reads only the nodes of that subtree. */
  lemma AreaAgree(t: seq<Node>, u: seq<Node>, x: int)
    requires Nested(t) && SameShape(t, u) && 0 <= x < |t|
    requires forall z | z in Desc(t, x) :: Kept(t, u, z)
    ensures Nested(u)
    ensures forall y | y in Desc(t, x) :: Desc(u, y) == Desc(t, y) && SubtreeArea(u, y) == SubtreeArea(t, y)
  {
    DescSameShape(t, u, x);
    forall y | y in Desc(t, x)
      ensures Desc(u, y) == Desc(t, y) && SubtreeArea(u, y) == SubtreeArea(t, y)
    {
      DescSameShape(t, u, y);
      forall z | z in Desc(t, y)
        ensures u[z] == t[z]
      {
        DescTrans(t, x, y, z);
        assert Kept(t, u, z);
      }
      SumFrame(t, u, Desc(t, y), AreaOf);
    }
  }

  /** After the first k children of n: their subtrees carry their summed areas, n
      has gathered those sums, and nothing else has changed. */
  predicate AreaUpTo(t: seq<Node>, n: int, k: int, u: seq<Node>)
    requires Nested(t) && 0 <= n < |t| && 0 <= k <= |t[n].children|
  {
    var done := Forest(t, t[n].children[..k]);
    SameShape(t, u) &&
    u[n] == t[n].(area := t[n].area + Sum(t, done, AreaOf)) &&
    (forall y | y in done :: AreaAt(t, u, y)) &&
    (forall y | 0 <= y < |t| && y != n && y !in done :: Kept(t, u, y))
  }

  /** What the recursive call on child c promises, on the arena u it was given. */
  predicate AreaCall(u: seq<Node>, c: int, v: seq<Node>, a: int)
    requires Nested(u) && 0 <= c < |u|
  {
    SameShape(u, v) &&
    (forall y | y in Desc(u, c) :: AreaAt(u, v, y)) &&
    (forall y | 0 <= y < |u| && y !in Desc(u, c) :: Kept(u, v, y)) &&
    a == SubtreeArea(u, c)
  }

  lemma AreaStepChild(t: seq<Node>, root: int, n: int, k: int, u: seq<Node>, v: seq<Node>, a: int)
    requires Shaped(t, root) && 0 <= n < |t| && 0 <= k < |t[n].children|
    requires AreaUpTo(t, n, k, u) && Nested(u) && AreaCall(u, t[n].children[k], v, a)
    ensures forall y | y in Desc(t, t[n].children[k]) :: AreaAt(t, v, y)
    ensures forall y | 0 <= y < |t| && y !in Desc(t, t[n].children[k]) :: Kept(u, v, y)
    ensures a == Sum(t, Desc(t, t[n].children[k]), AreaOf)
  {
    var c := t[n].children[k];
    var d := Forest(t, t[n].children[..k]);
    ChildStep(t, root, n, k);
    forall z | z in Desc(t, c)
      ensures Kept(t, u, z)
    {
      assert z != n && z !in d;
    }
    AreaAgree(t, u, c);
    forall y | y in Desc(t, c)
      ensures AreaAt(t, v, y)
    {
      assert Kept(t, u, y);
      assert y in Desc(u, c);
      assert AreaAt(u, v, y);
    }
  }

  lemma AreaStep(t: seq<Node>, root: int, n: int, k: int, u: seq<Node>, v: seq<Node>, a: int)
    requires Shaped(t, root) && 0 <= n < |t| && 0 <= k < |t[n].children|
    requires AreaUpTo(t, n, k, u) && Nested(u) && AreaCall(u, t[n].children[k], v, a)
    ensures AreaUpTo(t, n, k + 1, v[n := v[n].(area := v[n].area + a)])
  {
    AreaStepChild(t, root, n, k, u, v, a);
    var w := v[n := v[n].(area := v[n].area + a)];
    AreaClose(t, root, n, k, u, v, a, w);
    assert AreaUpTo(t, n, k + 1, w);
  }

  /** The nodes outside n and its first k + 1 children's subtrees are untouched by
      the first k children, by the call on child k and by the update of n. */
  lemma CloseKept(t: seq<Node>, root: int, n: int, k: int, u: seq<Node>, v: seq<Node>, w: seq<Node>)
    requires Shaped(t, root) && 0 <= n < |t| && 0 <= k < |t[n].children|
    requires forall y | 0 <= y < |t| && y != n && y !in Forest(t, t[n].children[..k]) :: Kept(t, u, y)
    requires forall y | 0 <= y < |t| && y !in Desc(t, t[n].children[k]) :: Kept(u, v, y)
    requires forall y | 0 <= y < |t| && y != n :: Kept(v, w, y)
    ensures forall y | 0 <= y < |t| && y != n && y !in Forest(t, t[n].children[..k + 1]) :: Kept(t, w, y)
  {
    ChildStep(t, root, n, k);
    forall y | 0 <= y < |t| && y != n && y !in Forest(t, t[n].children[..k + 1])
      ensures Kept(t, w, y)
    {
      assert y !in Forest(t, t[n].children[..k]) && y !in Desc(t, t[n].children[k]);
      assert Kept(t, u, y) && Kept(u, v, y) && Kept(v, w, y);
    }
  }

  lemma AreaCloseDone(t: seq<Node>, root: int, n: int, k: int, u: seq<Node>, v: seq<Node>, w: seq<Node>)
    requires Shaped(t, root) && 0 <= n < |t| && 0 <= k < |t[n].children|
    requires AreaUpTo(t, n, k, u) && |v| == |t| && |w| == |t|
    requires forall y | y in Desc(t, t[n].children[k]) :: AreaAt(t, v, y)
    requires forall y | 0 <= y < |t| && y !in Desc(t, t[n].children[k]) :: Kept(u, v, y)
    requires forall y | 0 <= y < |t| && y != n :: Kept(v, w, y)
    ensures forall y | y in Forest(t, t[n].children[..k + 1]) :: AreaAt(t, w, y)
  {
    var c := t[n].children[k];
    var d := Forest(t, t[n].children[..k]);
    ChildStep(t, root, n, k);
    forall y | y in Forest(t, t[n].children[..k + 1])
      ensures AreaAt(t, w, y)
    {
      assert y != n;
      assert Kept(v, w, y);
      if y in Desc(t, c) {
        assert AreaAt(t, v, y);
      } else {
        assert y in d;
        assert AreaAt(t, u, y) && Kept(u, v, y);
      }
    }
  }

  /** The update of n after child k: shape unchanged, and n holds its own area
      plus the areas of its first k + 1 children's subtrees. */
  lemma AreaCloseTop(t: seq<Node>, root: int, n: int, k: int, u: seq<Node>, v: seq<Node>, a: int, w: seq<Node>)
    requires Shaped(t, root) && 0 <= n < |t| && 0 <= k < |t[n].children|
    requires SameShape(t, u) && SameShape(u, v) && Kept(u, v, n)
    requires u[n] == t[n].(area := t[n].area + Sum(t, Forest(t, t[n].children[..k]), AreaOf))
    requires a == Sum(t, Desc(t, t[n].children[k]), AreaOf)
    requires |w| == |t| && w[n] == v[n].(area := v[n].area + a)
    requires forall y | 0 <= y < |t| && y != n :: Kept(v, w, y)
    ensures SameShape(t, w)
    ensures w[n] == t[n].(area := t[n].area + Sum(t, Forest(t, t[n].children[..k + 1]), AreaOf))
  {
    var d := Forest(t, t[n].children[..k]);
    ChildStep(t, root, n, k);
    SumAppend(t, d, Desc(t, t[n].children[k]), AreaOf);
    SameShapeTrans(t, u, v);
    SameShapeUpdate(v, n, w);
    SameShapeTrans(t, v, w);
    AddArea(t[n], v[n], t[n].area + Sum(t, d, AreaOf), a);
  }

  lemma AddArea(x: Node, y: Node, b: int, a: int)
    requires y == x.(area := b)
    ensures y.(area := y.area + a) == x.(area := b + a)
  {
  }

  lemma AreaClose(t: seq<Node>, root: int, n: int, k: int, u: seq<Node>, v: seq<Node>, a: int, w: seq<Node>)
    requires Shaped(t, root) && 0 <= n < |t| && 0 <= k < |t[n].children|
    requires AreaUpTo(t, n, k, u) && |v| == |t| && SameShape(u, v)
    requires forall y | y in Desc(t, t[n].children[k]) :: AreaAt(t, v, y)
    requires forall y | 0 <= y < |t| && y !in Desc(t, t[n].children[k]) :: Kept(u, v, y)
    requires a == Sum(t, Desc(t, t[n].children[k]), AreaOf)
    requires |w| == |t| && w[n] == v[n].(area := v[n].area + a)
    requires forall y | 0 <= y < |t| && y != n :: Kept(v, w, y)
    ensures AreaUpTo(t, n, k + 1, w)
  {
    ChildStep(t, root, n, k);
    assert Kept(u, v, n);
    AreaCloseDone(t, root, n, k, u, v, w);
    CloseKept(t, root, n, k, u, v, w);
    AreaCloseTop(t, root, n, k, u, v, a, w);
  }

  /** computeArea: adds to each node of the subtree of n the areas of its
      children's subtrees, children first, and returns the area left on n. */
  method ComputeArea(t: seq<Node>, root: int, n: int) returns (u: seq<Node>, a: int)
    requires Shaped(t, root) && 0 <= n < |t|
    ensures SameShape(t, u)
    ensures forall y | y in Desc(t, n) :: AreaAt(t, u, y)
    ensures forall y | 0 <= y < |t| && y !in Desc(t, n) :: Kept(t, u, y)
    ensures a == SubtreeArea(t, n)
    decreases Top(t) - t[n].oriH
  {
    var children := t[n].children;
    u := t;
    for k := 0 to |children|
      invariant AreaUpTo(t, n, k, u)
    {
      ShapedSameShape(t, u, root);
      var v, ca := ComputeArea(u, root, children[k]);
      AreaStep(t, root, n, k, u, v, ca);
      u := v[n := v[n].(area := v[n].area + ca)];
    }
    ChildrenAll(t, n);
    SumAppend(t, [n], Forest(t, children), AreaOf);
    a := u[n].area;
    forall y | y in Desc(t, n)
      ensures AreaAt(t, u, y)
    {
      if y != n {
        assert y in Forest(t, children);
      }
    }
    forall y | 0 <= y < |t| && y !in Desc(t, n)
      ensures Kept(t, u, y)
    {
      assert y != n && y !in Forest(t, children);
    }
  }

  function PixelCount(n: Node): int { |n.pixels| }

  /** The builder leaves on every node the number of pixels it owns; from there the
      area traversal gives each node the number of pixels of its whole subtree. */
  lemma AreaCountsPixels(t: seq<Node>, x: int)
    requires Nested(t) && 0 <= x < |t|
    requires forall z | z in Desc(t, x) :: t[z].area == |t[z].pixels|
    ensures SubtreeArea(t, x) == Sum(t, Desc(t, x), PixelCount)
    ensures SubtreeArea(t, x) == |PixelsOf(t, Desc(t, x))|
  {
    var s := Desc(t, x);
    forall i | 0 <= i < |s|
      ensures AreaOf(t[s[i]]) == PixelCount(t[s[i]])
    {
      assert s[i] in s;
    }
    SumSame(t, s, AreaOf, PixelCount);
    PixelCountSum(t, s);
  }

  lemma {:induction false} PixelCountSum(t: seq<Node>, s: seq<int>)
    requires AllNodes(t, s)
    ensures Sum(t, s, PixelCount) == |PixelsOf(t, s)|
    decreases |s|
  {
    if s != [] {
      PixelCountSum(t, s[1..]);
    }
  }

  /** The subtrees carry their pixel counts as areas: what the area traversal
      leaves when the builder left each node its own pixel count, and what the
      volume traversal relies on. */
  predicate AreasCounted(t: seq<Node>, x: int)
    requires Nested(t) && 0 <= x < |t|
  {
    forall z | z in Desc(t, x) :: 0 <= z < |t| && t[z].area == Sum(t, Desc(t, z), PixelCount)
  }

  /** Running the area traversal on a tree whose nodes hold their own pixel counts
      leaves every subtree's pixel count on its top node. */
  lemma AreaThenCounted(t: seq<Node>, root: int, x: int, u: seq<Node>)
    requires Shaped(t, root) && 0 <= x < |t| && SameShape(t, u)
    requires forall z | z in Desc(t, x) :: t[z].area == |t[z].pixels|
    requires forall y | y in Desc(t, x) :: AreaAt(t, u, y)
    ensures Nested(u) && AreasCounted(u, x)
  {
    DescSameShape(t, u, x);
    forall z | z in Desc(u, x)
      ensures 0 <= z < |u| && u[z].area == Sum(u, Desc(u, z), PixelCount)
    {
      assert AreaAt(t, u, z);
      DescSameShape(t, u, z);
      forall w | w in Desc(t, z)
        ensures t[w].area == |t[w].pixels|
      {
        DescTrans(t, x, z, w);
      }
      AreaCountsPixels(t, z);
      var s := Desc(t, z);
      forall i | 0 <= i < |s|
        ensures PixelCount(t[s[i]]) == PixelCount(u[s[i]])
      {
      }
      SumFrame(t, u, s, PixelCount);
    }
  }

  /* ---- Volume ---- */

  /** Every node names a father inside the arena. */
  predicate Linked(t: seq<Node>)
  {
    forall z | 0 <= z < |t| :: 0 <= t[z].father < |t|
  }

  lemma ShapedLinked(t: seq<Node>, root: int)
    requires Shaped(t, root)
    ensures Linked(t)
  {
    forall z | 0 <= z < |t|
      ensures 0 <= t[z].father < |t|
    {
      if z != root {
        assert FatherOk(t, z);
      }
    }
  }

  /** Two arenas with the same shape, levels and areas. */
  predicate SameLevels(t: seq<Node>, u: seq<Node>)
  {
    SameShape(t, u) && forall z | 0 <= z < |t| :: u[z].h == t[z].h && u[z].area == t[z].area
  }

  lemma SameLevelsTrans(t: seq<Node>, u: seq<Node>, v: seq<Node>)
    requires SameLevels(t, u) && SameLevels(u, v)
    ensures SameLevels(t, v)
  {
    SameShapeTrans(t, u, v);
  }

  /** Changing one node, outside its shape, level and area, keeps all three. */
  lemma SameLevelsUpdate(t: seq<Node>, n: int, u: seq<Node>)
    requires 0 <= n < |t| && |u| == |t|
    requires u[n].children == t[n].children && u[n].father == t[n].father
    requires u[n].oriH == t[n].oriH && u[n].pixels == t[n].pixels
    requires u[n].h == t[n].h && u[n].area == t[n].area
    requires forall z | 0 <= z < |t| && z != n :: Kept(t, u, z)
    ensures SameLevels(t, u)
  {
    forall z | 0 <= z < |t| && z != n
      ensures u[z] == t[z]
    {
      assert Kept(t, u, z);
    }
  }

  /** A node's own share of the volume: its area times its height above its
      father, or times its level for the self-parented root. */
  function LocalVolume(t: seq<Node>, z: int): int
    requires Linked(t) && 0 <= z < |t|
  {
    var f := t[z].father;
    t[z].area * (if f == z then t[z].h else t[z].h - t[f].h)
  }

  function VolumeSum(t: seq<Node>, s: seq<int>): int
    requires Linked(t) && AllNodes(t, s)
  {
    if s == [] then 0 else LocalVolume(t, s[0]) + VolumeSum(t, s[1..])
  }

  /** What the volume traversal leaves on x: the local volumes summed over the
      subtree of x. */
  function SubtreeVolume(t: seq<Node>, x: int): int
    requires Nested(t) && Linked(t) && 0 <= x < |t|
  {
    VolumeSum(t, Desc(t, x))
  }

  lemma {:induction false} VolumeSumAppend(t: seq<Node>, a: seq<int>, b: seq<int>)
    requires Linked(t) && AllNodes(t, a) && AllNodes(t, b)
    ensures AllNodes(t, a + b) && VolumeSum(t, a + b) == VolumeSum(t, a) + VolumeSum(t, b)
    decreases |a|
  {
    if a == [] {
      assert a + b == b;
    } else {
      assert (a + b)[0] == a[0] && (a + b)[1..] == a[1..] + b;
      VolumeSumAppend(t, a[1..], b);
    }
  }

  lemma {:induction false} VolumeSumAgree(t: seq<Node>, u: seq<Node>, s: seq<int>)
    requires Linked(t) && SameLevels(t, u) && AllNodes(t, s)
    ensures Linked(u) && VolumeSum(t, s) == VolumeSum(u, s)
    decreases |s|
  {
    assert Linked(u);
    if s != [] {
      VolumeSumAgree(t, u, s[1..]);
    }
  }

  /** Node y of u carries the volume of its subtree in t, and is otherwise the node
      of t. */
  predicate VolumeAt(t: seq<Node>, u: seq<Node>, y: int)
    requires Nested(t) && Linked(t)
  {
    0 <= y < |t| && |u| == |t| && u[y] == t[y].(volume := SubtreeVolume(t, y))
  }

  lemma VolumeAgree(t: seq<Node>, u: seq<Node>, x: int)
    requires Nested(t) && Linked(t) && SameLevels(t, u) && 0 <= x < |t|
    ensures Nested(u) && Linked(u)
    ensures forall y | y in Desc(t, x) :: Desc(u, y) == Desc(t, y) && SubtreeVolume(u, y) == SubtreeVolume(t, y)
  {
    DescSameShape(t, u, x);
    VolumeSumAgree(t, u, []);
    forall y | y in Desc(t, x)
      ensures Desc(u, y) == Desc(t, y) && SubtreeVolume(u, y) == SubtreeVolume(t, y)
    {
      DescSameShape(t, u, y);
      VolumeSumAgree(t, u, Desc(t, y));
    }
  }

  /** After the first k children of n: their subtrees carry their volumes, n holds
      its local volume plus those volumes, and nothing else has changed. */
  predicate VolumeUpTo(t: seq<Node>, n: int, k: int, u: seq<Node>)
    requires Nested(t) && Linked(t) && 0 <= n < |t| && 0 <= k <= |t[n].children|
  {
    var done := Forest(t, t[n].children[..k]);
    SameLevels(t, u) &&
    u[n] == t[n].(volume := LocalVolume(t, n) + VolumeSum(t, done)) &&
    (forall y | y in done :: VolumeAt(t, u, y)) &&
    (forall y | 0 <= y < |t| && y != n && y !in done :: Kept(t, u, y))
  }

  predicate VolumeCall(u: seq<Node>, c: int, v: seq<Node>, a: int)
    requires Nested(u) && Linked(u) && 0 <= c < |u|
  {
    SameLevels(u, v) &&
    (forall y | y in Desc(u, c) :: VolumeAt(u, v, y)) &&
    (forall y | 0 <= y < |u| && y !in Desc(u, c) :: Kept(u, v, y)) &&
    a == SubtreeVolume(u, c)
  }

  lemma VolumeStepChild(t: seq<Node>, root: int, n: int, k: int, u: seq<Node>, v: seq<Node>, a: int)
    requires Shaped(t, root) && Linked(t) && 0 <= n < |t| && 0 <= k < |t[n].children|
    requires VolumeUpTo(t, n, k, u) && Nested(u) && Linked(u) && VolumeCall(u, t[n].children[k], v, a)
    ensures forall y | y in Desc(t, t[n].children[k]) :: VolumeAt(t, v, y)
    ensures forall y | 0 <= y < |t| && y !in Desc(t, t[n].children[k]) :: Kept(u, v, y)
    ensures a == VolumeSum(t, Desc(t, t[n].children[k]))
  {
    var c := t[n].children[k];
    var d := Forest(t, t[n].children[..k]);
    ChildStep(t, root, n, k);
    VolumeAgree(t, u, c);
    forall y | y in Desc(t, c)
      ensures VolumeAt(t, v, y)
    {
      assert y != n && y !in d;
      assert Kept(t, u, y);
      assert y in Desc(u, c);
      assert VolumeAt(u, v, y);
    }
  }

  lemma VolumeStep(t: seq<Node>, root: int, n: int, k: int, u: seq<Node>, v: seq<Node>, a: int)
    requires Shaped(t, root) && Linked(t) && 0 <= n < |t| && 0 <= k < |t[n].children|
    requires VolumeUpTo(t, n, k, u) && Nested(u) && Linked(u) && VolumeCall(u, t[n].children[k], v, a)
    ensures VolumeUpTo(t, n, k + 1, v[n := v[n].(volume := v[n].volume + a)])
  {
    VolumeStepChild(t, root, n, k, u, v, a);
    var w := v[n := v[n].(volume := v[n].volume + a)];
    VolumeClose(t, root, n, k, u, v, a, w);
    assert VolumeUpTo(t, n, k + 1, w);
  }

  lemma VolumeCloseDone(t: seq<Node>, root: int, n: int, k: int, u: seq<Node>, v: seq<Node>, w: seq<Node>)
    requires Shaped(t, root) && Linked(t) && 0 <= n < |t| && 0 <= k < |t[n].children|
    requires VolumeUpTo(t, n, k, u) && |v| == |t| && |w| == |t|
    requires forall y | y in Desc(t, t[n].children[k]) :: VolumeAt(t, v, y)
    requires forall y | 0 <= y < |t| && y !in Desc(t, t[n].children[k]) :: Kept(u, v, y)
    requires forall y | 0 <= y < |t| && y != n :: Kept(v, w, y)
    ensures forall y | y in Forest(t, t[n].children[..k + 1]) :: VolumeAt(t, w, y)
  {
    var c := t[n].children[k];
    var d := Forest(t, t[n].children[..k]);
    ChildStep(t, root, n, k);
    forall y | y in Forest(t, t[n].children[..k + 1])
      ensures VolumeAt(t, w, y)
    {
      assert y != n;
      assert Kept(v, w, y);
      if y in Desc(t, c) {
        assert VolumeAt(t, v, y);
      } else {
        assert y in d;
        assert VolumeAt(t, u, y) && Kept(u, v, y);
      }
    }
  }

  lemma AddVolume(x: Node, y: Node, b: int, a: int)
    requires y == x.(volume := b)
    ensures y.(volume := y.volume + a) == x.(volume := b + a)
  {
  }

  /** The update of n after child k: levels unchanged, and n holds its local
      volume plus the volumes of its first k + 1 children's subtrees. */
  lemma VolumeCloseTop(t: seq<Node>, root: int, n: int, k: int, u: seq<Node>, v: seq<Node>, a: int, w: seq<Node>)
    requires Shaped(t, root) && Linked(t) && 0 <= n < |t| && 0 <= k < |t[n].children|
    requires SameLevels(t, u) && SameLevels(u, v) && Kept(u, v, n)
    requires u[n] == t[n].(volume := LocalVolume(t, n) + VolumeSum(t, Forest(t, t[n].children[..k])))
    requires a == VolumeSum(t, Desc(t, t[n].children[k]))
    requires |w| == |t| && w[n] == v[n].(volume := v[n].volume + a)
    requires forall y | 0 <= y < |t| && y != n :: Kept(v, w, y)
    ensures SameLevels(t, w)
    ensures w[n] == t[n].(volume := LocalVolume(t, n) + VolumeSum(t, Forest(t, t[n].children[..k + 1])))
  {
    var d := Forest(t, t[n].children[..k]);
    ChildStep(t, root, n, k);
    VolumeSumAppend(t, d, Desc(t, t[n].children[k]));
    SameLevelsTrans(t, u, v);
    SameLevelsUpdate(v, n, w);
    SameLevelsTrans(t, v, w);
    AddVolume(t[n], v[n], LocalVolume(t, n) + VolumeSum(t, d), a);
  }

  lemma VolumeClose(t: seq<Node>, root: int, n: int, k: int, u: seq<Node>, v: seq<Node>, a: int, w: seq<Node>)
    requires Shaped(t, root) && Linked(t) && 0 <= n < |t| && 0 <= k < |t[n].children|
    requires VolumeUpTo(t, n, k, u) && |v| == |t| && SameLevels(u, v)
    requires forall y | y in Desc(t, t[n].children[k]) :: VolumeAt(t, v, y)
    requires forall y | 0 <= y < |t| && y !in Desc(t, t[n].children[k]) :: Kept(u, v, y)
    requires a == VolumeSum(t, Desc(t, t[n].children[k]))
    requires |w| == |t| && w[n] == v[n].(volume := v[n].volume + a)
    requires forall y | 0 <= y < |t| && y != n :: Kept(v, w, y)
    ensures VolumeUpTo(t, n, k + 1, w)
  {
    ChildStep(t, root, n, k);
    assert Kept(u, v, n);
    VolumeCloseDone(t, root, n, k, u, v, w);
    CloseKept(t, root, n, k, u, v, w);
    VolumeCloseTop(t, root, n, k, u, v, a, w);
  }

  /** computeVolume: sets each node of the subtree of n to its area times its height
      above its father (its level, for the root) plus the volumes of its children,
      and returns the volume left on n.  Reads the areas the area traversal left. */
  method ComputeVolume(t: seq<Node>, root: int, n: int) returns (u: seq<Node>, vol: int)
    requires Shaped(t, root) && 0 <= n < |t|
    ensures Linked(t) && SameLevels(t, u)
    ensures forall y | y in Desc(t, n) :: VolumeAt(t, u, y)
    ensures forall y | 0 <= y < |t| && y !in Desc(t, n) :: Kept(t, u, y)
    ensures vol == SubtreeVolume(t, n)
    decreases Top(t) - t[n].oriH
  {
    ShapedLinked(t, root);
    var children := t[n].children;
    var f := t[n].father;
    var local := if f == n then t[n].h else t[n].h - t[f].h;
    u := t[n := t[n].(volume := t[n].area * local)];
    SameLevelsUpdate(t, n, u);
    for k := 0 to |children|
      invariant VolumeUpTo(t, n, k, u)
    {
      ShapedSameShape(t, u, root);
      ShapedLinked(u, root);
      var v, cv := ComputeVolume(u, root, children[k]);
      VolumeStep(t, root, n, k, u, v, cv);
      u := v[n := v[n].(volume := v[n].volume + cv)];
    }
    ChildrenAll(t, n);
    VolumeSumAppend(t, [n], Forest(t, children));
    vol := u[n].volume;
    forall y | y in Desc(t, n)
      ensures VolumeAt(t, u, y)
    {
      if y != n {
        assert y in Forest(t, children);
      }
    }
    forall y | 0 <= y < |t| && y !in Desc(t, n)
      ensures Kept(t, u, y)
    {
      assert y != n && y !in Forest(t, children);
    }
  }

  /* ---- Contrast ---- */

  function Larger(a: int, b: int): int { if b > a then b else a }

  /** The contrast of y: the largest rise h(c) - h(y) + contrast(c) over its
      children c, and 0 when none rises (a leaf, in particular). */
  function ContrastOf(t: seq<Node>, y: int): (r: int)
    requires Nested(t) && 0 <= y < |t|
    ensures r >= 0
    decreases Top(t) - t[y].oriH, 1, 0
  {
    assert AllNodes(t, t[y].children);
    ChildMax(t, y, t[y].children)
  }

  /** The largest rise h(c) - h(y) + contrast(c) over the nodes c of q, floored at 0. */
  function ChildMax(t: seq<Node>, y: int, q: seq<int>): (r: int)
    requires Nested(t) && 0 <= y < |t| && AllNodes(t, q)
    ensures r >= 0
    decreases Top(t) - MinOri(t, q) + 1, 0, |q|
  {
    if q == [] then 0
    else Larger(ChildMax(t, y, q[1..]), t[q[0]].h - t[y].h + ContrastOf(t, q[0]))
  }

  /** Taking one more child into the running maximum, as the loop does. */
  lemma {:induction false} ChildMaxAppend(t: seq<Node>, y: int, q: seq<int>, c: int)
    requires Nested(t) && 0 <= y < |t| && AllNodes(t, q) && 0 <= c < |t|
    ensures AllNodes(t, q + [c])
    ensures ChildMax(t, y, q + [c]) == Larger(ChildMax(t, y, q), t[c].h - t[y].h + ContrastOf(t, c))
    decreases |q|
  {
    if q == [] {
      assert [c][1..] == [];
    } else {
      assert (q + [c])[0] == q[0] && (q + [c])[1..] == q[1..] + [c];
      ChildMaxAppend(t, y, q[1..], c);
    }
  }

  /** The contrast is the largest h(z) - h(y) over the subtree of y: it bounds every
      such difference ... */
  lemma {:induction false} ContrastBounds(t: seq<Node>, y: int, z: int)
    requires Nested(t) && 0 <= y < |t| && z in Desc(t, y)
    ensures 0 <= z < |t| && ContrastOf(t, y) >= t[z].h - t[y].h
    decreases Top(t) - t[y].oriH, 1, 0
  {
    if z != y {
      assert AllNodes(t, t[y].children);
      ChildMaxBounds(t, y, t[y].children, z);
    }
  }

  lemma {:induction false} ChildMaxBounds(t: seq<Node>, y: int, q: seq<int>, z: int)
    requires Nested(t) && 0 <= y < |t| && AllNodes(t, q) && z in Forest(t, q)
    ensures 0 <= z < |t| && ChildMax(t, y, q) >= t[z].h - t[y].h
    decreases Top(t) - MinOri(t, q) + 1, 0, |q|
  {
    if z in Desc(t, q[0]) {
      ContrastBounds(t, q[0], z);
    } else {
      ChildMaxBounds(t, y, q[1..], z);
    }
  }

  /** ... and is reached by one node of the subtree (y itself when nothing rises). */
  lemma {:induction false} ContrastReached(t: seq<Node>, y: int) returns (z: int)
    requires Nested(t) && 0 <= y < |t|
    ensures z in Desc(t, y) && 0 <= z < |t| && ContrastOf(t, y) == t[z].h - t[y].h
    decreases Top(t) - t[y].oriH, 1, 0
  {
    assert AllNodes(t, t[y].children);
    z := ChildMaxReached(t, y, t[y].children);
  }

  lemma {:induction false} ChildMaxReached(t: seq<Node>, y: int, q: seq<int>) returns (z: int)
    requires Nested(t) && 0 <= y < |t| && AllNodes(t, q)
    ensures z == y || z in Forest(t, q)
    ensures 0 <= z < |t| && ChildMax(t, y, q) == t[z].h - t[y].h
    decreases Top(t) - MinOri(t, q) + 1, 0, |q|
  {
    if q == [] {
      z := y;
    } else {
      var rest := ChildMaxReached(t, y, q[1..]);
      if ChildMax(t, y, q[1..]) >= t[q[0]].h - t[y].h + ContrastOf(t, q[0]) {
        z := rest;
      } else {
        z := ContrastReached(t, q[0]);
      }
    }
  }

  /** The contrast reads only the shape and the current levels of the subtree. */
  lemma {:induction false} ContrastAgree(t: seq<Node>, u: seq<Node>, y: int)
    requires Nested(t) && SameHeights(t, u) && 0 <= y < |t|
    ensures Nested(u) && ContrastOf(u, y) == ContrastOf(t, y)
    decreases Top(t) - t[y].oriH, 1, 0
  {
    assert AllNodes(t, t[y].children);
    ChildMaxAgree(t, u, y, t[y].children);
  }

  lemma {:induction false} ChildMaxAgree(t: seq<Node>, u: seq<Node>, y: int, q: seq<int>)
    requires Nested(t) && SameHeights(t, u) && 0 <= y < |t| && AllNodes(t, q)
    ensures Nested(u) && ChildMax(u, y, q) == ChildMax(t, y, q)
    decreases Top(t) - MinOri(t, q) + 1, 0, |q|
  {
    if q != [] {
      ContrastAgree(t, u, q[0]);
      ChildMaxAgree(t, u, y, q[1..]);
    }
  }

  /** Node y of u carries the contrast of y in t, and is otherwise the node of t. */
  predicate ContrastAt(t: seq<Node>, u: seq<Node>, y: int)
    requires Nested(t)
  {
    0 <= y < |t| && |u| == |t| && u[y] == t[y].(contrast := ContrastOf(t, y))
  }

  /** After the first k children of n: their subtrees carry their contrasts, the
      running maximum is the maximum over those children, and nothing else has
      changed (n itself included). */
  predicate ContrastUpTo(t: seq<Node>, n: int, k: int, u: seq<Node>, m: int)
    requires Nested(t) && 0 <= n < |t| && 0 <= k <= |t[n].children|
  {
    var done := Forest(t, t[n].children[..k]);
    SameLevels(t, u) &&
    m == ChildMax(t, n, t[n].children[..k]) &&
    (forall y | y in done :: ContrastAt(t, u, y)) &&
    (forall y | 0 <= y < |t| && y !in done :: Kept(t, u, y))
  }

  predicate ContrastCall(u: seq<Node>, c: int, v: seq<Node>, a: int)
    requires Nested(u) && 0 <= c < |u|
  {
    SameLevels(u, v) &&
    (forall y | y in Desc(u, c) :: ContrastAt(u, v, y)) &&
    (forall y | 0 <= y < |u| && y !in Desc(u, c) :: Kept(u, v, y)) &&
    a == ContrastOf(u, c)
  }

  lemma ContrastStepChild(t: seq<Node>, root: int, n: int, k: int, u: seq<Node>, m: int, v: seq<Node>, a: int)
    requires Shaped(t, root) && 0 <= n < |t| && 0 <= k < |t[n].children|
    requires ContrastUpTo(t, n, k, u, m) && Nested(u) && ContrastCall(u, t[n].children[k], v, a)
    ensures forall y | y in Desc(t, t[n].children[k]) :: ContrastAt(t, v, y)
    ensures forall y | 0 <= y < |t| && y !in Desc(t, t[n].children[k]) :: Kept(u, v, y)
    ensures a == ContrastOf(t, t[n].children[k])
  {
    var c := t[n].children[k];
    var d := Forest(t, t[n].children[..k]);
    ChildStep(t, root, n, k);
    DescSameShape(t, u, c);
    ContrastAgree(t, u, c);
    forall y | y in Desc(t, c)
      ensures ContrastAt(t, v, y)
    {
      assert y != n && y !in d;
      assert Kept(t, u, y);
      assert ContrastAt(u, v, y);
      ContrastAgree(t, u, y);
    }
  }

  lemma ContrastCloseDone(t: seq<Node>, root: int, n: int, k: int, u: seq<Node>, m: int, v: seq<Node>)
    requires Shaped(t, root) && 0 <= n < |t| && 0 <= k < |t[n].children|
    requires ContrastUpTo(t, n, k, u, m) && |v| == |t|
    requires forall y | y in Desc(t, t[n].children[k]) :: ContrastAt(t, v, y)
    requires forall y | 0 <= y < |t| && y !in Desc(t, t[n].children[k]) :: Kept(u, v, y)
    ensures forall y | y in Forest(t, t[n].children[..k + 1]) :: ContrastAt(t, v, y)
    ensures forall y | 0 <= y < |t| && y !in Forest(t, t[n].children[..k + 1]) :: Kept(t, v, y)
  {
    var c := t[n].children[k];
    var d := Forest(t, t[n].children[..k]);
    ChildStep(t, root, n, k);
    forall y | y in Forest(t, t[n].children[..k + 1])
      ensures ContrastAt(t, v, y)
    {
      if y !in Desc(t, c) {
        assert y in d;
        assert ContrastAt(t, u, y) && Kept(u, v, y);
      }
    }
    forall y | 0 <= y < |t| && y !in Forest(t, t[n].children[..k + 1])
      ensures Kept(t, v, y)
    {
      assert y !in d && y !in Desc(t, c);
      assert Kept(t, u, y) && Kept(u, v, y);
    }
  }

  lemma ContrastStep(t: seq<Node>, root: int, n: int, k: int, u: seq<Node>, m: int, v: seq<Node>, a: int)
    requires Shaped(t, root) && 0 <= n < |t| && 0 <= k < |t[n].children|
    requires ContrastUpTo(t, n, k, u, m) && Nested(u) && ContrastCall(u, t[n].children[k], v, a)
    ensures ContrastUpTo(t, n, k + 1, v, Larger(m, t[t[n].children[k]].h - t[n].h + a))
  {
    var q := t[n].children;
    ContrastStepChild(t, root, n, k, u, m, v, a);
    ContrastCloseDone(t, root, n, k, u, m, v);
    SameLevelsTrans(t, u, v);
    assert q[..k + 1] == q[..k] + [q[k]];
    ChildMaxAppend(t, n, q[..k], q[k]);
  }

  /** computeContrast: the contrast of each node of the subtree of n, children
      first; returns the contrast of n. */
  method ComputeContrast(t: seq<Node>, root: int, n: int) returns (u: seq<Node>, c: int)
    requires Shaped(t, root) && 0 <= n < |t|
    ensures SameLevels(t, u)
    ensures forall y | y in Desc(t, n) :: ContrastAt(t, u, y)
    ensures forall y | 0 <= y < |t| && y !in Desc(t, n) :: Kept(t, u, y)
    ensures c == ContrastOf(t, n)
    decreases Top(t) - t[n].oriH
  {
    var children := t[n].children;
    var level := t[n].h;
    var currentMax := 0;
    u := t;
    for k := 0 to |children|
      invariant ContrastUpTo(t, n, k, u, currentMax)
    {
      ShapedSameShape(t, u, root);
      var v, cc := ComputeContrast(u, root, children[k]);
      ContrastStep(t, root, n, k, u, currentMax, v, cc);
      var current := (v[children[k]].h - level) + cc;
      if current > currentMax {
        currentMax := current;
      }
      u := v;
    }
    ChildrenAll(t, n);
    assert Kept(t, u, n);
    var u0 := u;
    u := u[n := u[n].(contrast := currentMax)];
    c := currentMax;
    SameLevelsUpdate(u0, n, u);
    SameLevelsTrans(t, u0, u);
    forall y | y in Desc(t, n)
      ensures ContrastAt(t, u, y)
    {
      if y != n {
        assert y in Forest(t, children);
      }
    }
    forall y | 0 <= y < |t| && y !in Desc(t, n)
      ensures Kept(t, u, y)
    {
      assert y != n && y !in Forest(t, children);
    }
  }

  /* ---- What the volume sums to ---- */

  /** The grey mass a node owns: its own pixel count times its level. */
  function GreyMass(n: Node): int { |n.pixels| * n.h }

  /** The level a subtree's volume is measured from: its father's, or 0 for the root. */
  function Base(t: seq<Node>, y: int): int
    requires Linked(t) && 0 <= y < |t|
  {
    if t[y].father == y then 0 else t[t[y].father].h
  }

  lemma SumCons(t: seq<Node>, y: int, s: seq<int>, f: Node -> int)
    requires 0 <= y < |t| && AllNodes(t, s)
    ensures AllNodes(t, [y] + s) && Sum(t, [y] + s, f) == f(t[y]) + Sum(t, s, f)
    ensures Linked(t) ==> VolumeSum(t, [y] + s) == LocalVolume(t, y) + VolumeSum(t, s)
  {
    assert ([y] + s)[0] == y && ([y] + s)[1..] == s;
  }

  lemma AreasCountedChild(t: seq<Node>, root: int, n: int, c: int)
    requires Shaped(t, root) && 0 <= n < |t| && c in t[n].children && AreasCounted(t, n)
    ensures 0 <= c < |t| && AreasCounted(t, c)
  {
    var k :| 0 <= k < |t[n].children| && t[n].children[k] == c;
    forall z | z in Desc(t, c)
      ensures 0 <= z < |t| && t[z].area == Sum(t, Desc(t, z), PixelCount)
    {
      DescChild(t, root, n, n, c);
      DescTrans(t, n, c, z);
    }
  }

  /** Volumes telescope: once the areas count pixels, the volume of a subtree is
      its grey mass less its pixel count times the level it stands on. */
  lemma {:induction false} VolumeTelescopes(t: seq<Node>, root: int, y: int)
    requires Shaped(t, root) && 0 <= y < |t| && AreasCounted(t, y)
    ensures Linked(t)
    ensures SubtreeVolume(t, y) == Sum(t, Desc(t, y), GreyMass) - Sum(t, Desc(t, y), PixelCount) * Base(t, y)
    decreases Top(t) - t[y].oriH, 1, 0
  {
    ShapedLinked(t, root);
    var q := t[y].children;
    ChildrenAll(t, y);
    var f := Forest(t, q);
    PrefixVolume(t, root, y, |q|);
    SumCons(t, y, f, GreyMass);
    SumCons(t, y, f, PixelCount);
    assert y in Desc(t, y);
    var p := Sum(t, Desc(t, y), PixelCount);
    assert t[y].area == p;
    var pf := Sum(t, f, PixelCount);
    var gf := Sum(t, f, GreyMass);
    var hy := t[y].h;
    var b := Base(t, y);
    assert LocalVolume(t, y) == p * (hy - b);
    assert VolumeSum(t, f) == gf - pf * hy;
    assert p == |t[y].pixels| + pf;
    calc {
      p * (hy - b) + (gf - pf * hy);
      p * hy - p * b + gf - pf * hy;
      (|t[y].pixels| + pf) * hy - p * b + gf - pf * hy;
      { assert (|t[y].pixels| + pf) * hy == |t[y].pixels| * hy + pf * hy; }
      |t[y].pixels| * hy + gf - p * b;
    }
  }

  /** The forest of the first k children of n measures its volume from h(n). */
  lemma {:induction false} PrefixVolume(t: seq<Node>, root: int, n: int, k: int)
    requires Shaped(t, root) && 0 <= n < |t| && 0 <= k <= |t[n].children| && AreasCounted(t, n)
    ensures Linked(t) && AllNodes(t, t[n].children[..k])
    ensures VolumeSum(t, Forest(t, t[n].children[..k])) ==
      Sum(t, Forest(t, t[n].children[..k]), GreyMass) - Sum(t, Forest(t, t[n].children[..k]), PixelCount) * t[n].h
    decreases Top(t) - t[n].oriH, 0, k
  {
    ShapedLinked(t, root);
    var q := t[n].children;
    if k == 0 {
      assert q[..0] == [];
    } else {
      PrefixVolume(t, root, n, k - 1);
      var c := q[k - 1];
      assert c in q;
      AreasCountedChild(t, root, n, c);
      VolumeTelescopes(t, root, c);
      PrefixVolumeStep(t, root, n, k);
    }
  }

  lemma PrefixVolumeStep(t: seq<Node>, root: int, n: int, k: int)
    requires Shaped(t, root) && Linked(t) && 0 <= n < |t| && 0 < k <= |t[n].children|
    requires var d := Forest(t, t[n].children[..k - 1]);
      VolumeSum(t, d) == Sum(t, d, GreyMass) - Sum(t, d, PixelCount) * t[n].h
    requires var c := t[n].children[k - 1];
      SubtreeVolume(t, c) == Sum(t, Desc(t, c), GreyMass) - Sum(t, Desc(t, c), PixelCount) * Base(t, c)
    ensures AllNodes(t, t[n].children[..k])
    ensures VolumeSum(t, Forest(t, t[n].children[..k])) ==
      Sum(t, Forest(t, t[n].children[..k]), GreyMass) - Sum(t, Forest(t, t[n].children[..k]), PixelCount) * t[n].h
  {
    var q := t[n].children;
    ChildStep(t, root, n, k - 1);
    var c := q[k - 1];
    assert t[c].father == n && c != n;
    var d := Forest(t, q[..k - 1]);
    var e := Desc(t, c);
    assert Base(t, c) == t[n].h;
    VolumeSumAppend(t, d, e);
    SumAppend(t, d, e, GreyMass);
    SumAppend(t, d, e, PixelCount);
    Telescope(VolumeSum(t, d), Sum(t, d, GreyMass), Sum(t, d, PixelCount),
              VolumeSum(t, e), Sum(t, e, GreyMass), Sum(t, e, PixelCount), t[n].h);
    assert Forest(t, q[..k]) == d + e;
  }

  lemma Telescope(vd: int, gd: int, pd: int, ve: int, ge: int, pe: int, h: int)
    requires vd == gd - pd * h && ve == ge - pe * h
    ensures vd + ve == (gd + ge) - (pd + pe) * h
  {
    assert (pd + pe) * h == pd * h + pe * h;
  }

  /** At the root, which stands on level 0, the volume is the grey mass of all the
      pixels the tree holds: each node's pixel count times its level.  What those
      pixels weigh on the image is Dispatch.BuiltRootVolume. */
  lemma RootVolumeIsGreyMass(t: seq<Node>, root: int)
    requires Shaped(t, root) && AreasCounted(t, root)
    ensures Linked(t) && SubtreeVolume(t, root) == Sum(t, Desc(t, root), GreyMass)
  {
    VolumeTelescopes(t, root, root);
  }

  /* ---- The ancestor walk of the MSER measure ---- */

  /** The node k steps up the fathers from y, stopping at the root. */
  function Up(t: seq<Node>, root: int, y: int, k: nat): (r: int)
    requires Shaped(t, root) && 0 <= y < |t|
    ensures 0 <= r < |t| && IsAnc(t, root, r, y)
    decreases k
  {
    if k == 0 || y == root then y
    else
      FatherBelow(t, root, y);
      var r := Up(t, root, t[y].father, k - 1);
      AncTrans(t, root, r, t[y].father, y);
      r
  }

  lemma {:induction false} UpStep(t: seq<Node>, root: int, y: int, k: nat)
    requires Shaped(t, root) && 0 <= y < |t| && Up(t, root, y, k) != root
    ensures Up(t, root, y, k + 1) == t[Up(t, root, y, k)].father
    decreases k
  {
    if k > 0 && y != root {
      FatherBelow(t, root, y);
      UpStep(t, root, t[y].father, k - 1);
    }
  }

  /** The walk inside computeMSER: from n, climb while the level difference stays
      below delta and the father is not the root.  reached says whether the
      difference got to delta; the walk never climbs onto the root itself. */
  method MserAncestor(t: seq<Node>, root: int, n: int, delta: nat) returns (m: int, reached: bool, ghost steps: nat)
    requires Shaped(t, root) && 0 <= n < |t|
    ensures 0 <= m < |t| && IsAnc(t, root, m, n) && m == Up(t, root, n, steps)
    ensures forall j | 0 <= j < steps ::
      t[n].h - t[Up(t, root, n, j)].h < delta && t[Up(t, root, n, j)].father != root
    ensures reached <==> t[n].h - t[m].h >= delta
    ensures !reached ==> t[m].father == root
    ensures m == root ==> n == root
  {
    ShapedLinked(t, root);
    var hNode := t[n].h;
    m := n;
    steps := 0;
    while hNode - t[m].h < delta && t[m].father != t[t[m].father].father
      invariant 0 <= m < |t| && m == Up(t, root, n, steps)
      invariant forall j | 0 <= j < steps ::
        t[n].h - t[Up(t, root, n, j)].h < delta && t[Up(t, root, n, j)].father != root
      invariant m == root ==> n == root
      decreases t[m].oriH - Low(t)
    {
      assert t[root].father == root;
      assert m != root;
      FatherBelow(t, root, m);
      UpStep(t, root, n, steps);
      m := t[m].father;
      steps := steps + 1;
    }
    reached := hNode - t[m].h >= delta;
    if m != root && t[m].father != root {
      FatherBelow(t, root, m);
      assert FatherOk(t, t[m].father);
    }
  }
}
