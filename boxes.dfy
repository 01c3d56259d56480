/** The bounding-box attribute: after the traversal every node's box encloses the
    boxes the builder left on the nodes of its subtree, and is the least box that
    does. */
module Boxes {
  import opened Tree
  import Attributes

  /** The six bounds a node carries, per axis the least and the greatest coordinate. */
  datatype Box = Box(xmin: int, xmax: int, ymin: int, ymax: int, zmin: int, zmax: int)

  function BoxOf(n: Node): Box
  {
    Box(n.xmin, n.xmax, n.ymin, n.ymax, n.zmin, n.zmax)
  }

  /** Node n with its bounds replaced by those of b. */
  function WithBox(n: Node, b: Box): (r: Node)
    ensures BoxOf(r) == b
  {
    n.(xmin := b.xmin, xmax := b.xmax, ymin := b.ymin, ymax := b.ymax, zmin := b.zmin, zmax := b.zmax)
  }

  function Min(a: int, b: int): int { if b < a then b else a }
  function Max(a: int, b: int): int { if b > a then b else a }

  /** Box a lies inside box b: its lower bounds are no lower and its upper bounds no
      higher, axis by axis. */
  predicate Within(a: Box, b: Box)
  {
    b.xmin <= a.xmin && a.xmax <= b.xmax &&
    b.ymin <= a.ymin && a.ymax <= b.ymax &&
    b.zmin <= a.zmin && a.zmax <= b.zmax
  }

  /** The merge a father makes with a child's box: the lower of the lower bounds and
      the higher of the upper bounds. */
  function Hull(a: Box, b: Box): Box
  {
    Box(Min(a.xmin, b.xmin), Max(a.xmax, b.xmax), Min(a.ymin, b.ymin), Max(a.ymax, b.ymax),
        Min(a.zmin, b.zmin), Max(a.zmax, b.zmax))
  }

  /** The hull encloses both boxes, and any box enclosing both encloses the hull. */
  lemma HullLeast(a: Box, b: Box, c: Box)
    ensures Within(a, Hull(a, b)) && Within(b, Hull(a, b))
    ensures Within(a, c) && Within(b, c) <==> Within(Hull(a, b), c)
  {
  }

  lemma HullAssoc(a: Box, b: Box, c: Box)
    ensures Hull(Hull(a, b), c) == Hull(a, Hull(b, c))
  {
  }

  lemma WithinTrans(a: Box, b: Box, c: Box)
    requires Within(a, b) && Within(b, c)
    ensures Within(a, c)
  {
  }

  /** The box acc merged, left to right, with the boxes of the nodes s. */
  function HullOver(t: seq<Node>, s: seq<int>, acc: Box): Box
    requires AllNodes(t, s)
    decreases |s|
  {
    if s == [] then acc else HullOver(t, s[1..], Hull(acc, BoxOf(t[s[0]])))
  }

  /** What the traversal leaves on x: the hull of the boxes of its subtree. */
  function SubtreeBox(t: seq<Node>, x: int): Box
    requires Nested(t) && 0 <= x < |t|
  {
    HullOver(t, Desc(t, x), BoxOf(t[x]))
  }

  lemma {:induction false} HullOverAppend(t: seq<Node>, a: seq<int>, b: seq<int>, acc: Box)
    requires AllNodes(t, a) && AllNodes(t, b)
    ensures AllNodes(t, a + b) && HullOver(t, a + b, acc) == HullOver(t, b, HullOver(t, a, acc))
    decreases |a|
  {
    if a == [] {
      assert a + b == b;
    } else {
      assert (a + b)[0] == a[0] && (a + b)[1..] == a[1..] + b;
      HullOverAppend(t, a[1..], b, Hull(acc, BoxOf(t[a[0]])));
    }
  }

  /** Merging can start from a partial hull and take the rest in afterwards. */
  lemma {:induction false} HullOverShift(t: seq<Node>, s: seq<int>, a: Box, b: Box)
    requires AllNodes(t, s)
    ensures HullOver(t, s, Hull(a, b)) == Hull(a, HullOver(t, s, b))
    decreases |s|
  {
    if s != [] {
      HullAssoc(a, b, BoxOf(t[s[0]]));
      HullOverShift(t, s[1..], a, Hull(b, BoxOf(t[s[0]])));
    }
  }

  /** A hull reads only the boxes of the nodes it merges. */
  lemma {:induction false} HullOverFrame(t: seq<Node>, u: seq<Node>, s: seq<int>, acc: Box)
    requires AllNodes(t, s) && |t| == |u|
    requires forall i | 0 <= i < |s| :: BoxOf(t[s[i]]) == BoxOf(u[s[i]])
    ensures AllNodes(u, s) && HullOver(t, s, acc) == HullOver(u, s, acc)
    decreases |s|
  {
    if s != [] {
      HullOverFrame(t, u, s[1..], Hull(acc, BoxOf(t[s[0]])));
    }
  }

  /** The merged hull encloses the start box and the box of every node merged. */
  lemma {:induction false} HullOverCovers(t: seq<Node>, s: seq<int>, acc: Box)
    requires AllNodes(t, s)
    ensures Within(acc, HullOver(t, s, acc))
    ensures forall i | 0 <= i < |s| :: Within(BoxOf(t[s[i]]), HullOver(t, s, acc))
    decreases |s|
  {
    if s != [] {
      var next := Hull(acc, BoxOf(t[s[0]]));
      HullOverCovers(t, s[1..], next);
      HullLeast(acc, BoxOf(t[s[0]]), next);
      WithinTrans(acc, next, HullOver(t, s, acc));
      WithinTrans(BoxOf(t[s[0]]), next, HullOver(t, s, acc));
      forall i | 1 <= i < |s|
        ensures Within(BoxOf(t[s[i]]), HullOver(t, s, acc))
      {
        assert s[i] == s[1..][i - 1];
      }
    }
  }

  /** A box enclosing the start box and every merged box encloses the hull. */
  lemma {:induction false} HullOverLeast(t: seq<Node>, s: seq<int>, acc: Box, c: Box)
    requires AllNodes(t, s) && Within(acc, c)
    requires forall i | 0 <= i < |s| :: Within(BoxOf(t[s[i]]), c)
    ensures Within(HullOver(t, s, acc), c)
    decreases |s|
  {
    if s != [] {
      HullLeast(acc, BoxOf(t[s[0]]), c);
      forall i | 0 <= i < |s[1..]|
        ensures Within(BoxOf(t[s[1..][i]]), c)
      {
        assert s[1..][i] == s[i + 1];
      }
      HullOverLeast(t, s[1..], Hull(acc, BoxOf(t[s[0]])), c);
    }
  }

  /** The box left on x encloses the box of every node of its subtree, and is the
      least box that does. */
  lemma SubtreeBoxLeast(t: seq<Node>, x: int, c: Box)
    requires Nested(t) && 0 <= x < |t|
    ensures forall y | y in Desc(t, x) :: Within(BoxOf(t[y]), SubtreeBox(t, x))
    ensures (forall y | y in Desc(t, x) :: Within(BoxOf(t[y]), c)) <==> Within(SubtreeBox(t, x), c)
  {
    var d := Desc(t, x);
    HullOverCovers(t, d, BoxOf(t[x]));
    forall y | y in d
      ensures Within(BoxOf(t[y]), SubtreeBox(t, x))
    {
      var i :| 0 <= i < |d| && d[i] == y;
    }
    if forall y | y in d :: Within(BoxOf(t[y]), c) {
      assert d[0] == x;
      HullOverLeast(t, d, BoxOf(t[x]), c);
    }
    if Within(SubtreeBox(t, x), c) {
      forall y | y in d
        ensures Within(BoxOf(t[y]), c)
      {
        WithinTrans(BoxOf(t[y]), SubtreeBox(t, x), c);
      }
    }
  }

  /** Node y of u carries the hull of its subtree in t, and is otherwise the node of
      t. */
  predicate BoxAt(t: seq<Node>, u: seq<Node>, y: int)
    requires Nested(t)
  {
    0 <= y < |t| && |u| == |t| && u[y] == WithBox(t[y], SubtreeBox(t, y))
  }

  /** A subtree's hull reads only the nodes of that subtree. */
  lemma BoxAgree(t: seq<Node>, u: seq<Node>, x: int)
    requires Nested(t) && SameShape(t, u) && 0 <= x < |t|
    requires forall z | z in Desc(t, x) :: Kept(t, u, z)
    ensures Nested(u)
    ensures forall y | y in Desc(t, x) :: Desc(u, y) == Desc(t, y) && SubtreeBox(u, y) == SubtreeBox(t, y)
  {
    DescSameShape(t, u, x);
    forall y | y in Desc(t, x)
      ensures Desc(u, y) == Desc(t, y) && SubtreeBox(u, y) == SubtreeBox(t, y)
    {
      DescSameShape(t, u, y);
      forall z | z in Desc(t, y)
        ensures u[z] == t[z]
      {
        DescTrans(t, x, y, z);
        assert Kept(t, u, z);
      }
      assert y in Desc(t, y);
      HullOverFrame(t, u, Desc(t, y), BoxOf(t[y]));
    }
  }

  /** After the first k children of n: their subtrees carry their hulls, n has
      merged them into its own box, and nothing else has changed. */
  predicate BoxUpTo(t: seq<Node>, n: int, k: int, u: seq<Node>)
    requires Nested(t) && 0 <= n < |t| && 0 <= k <= |t[n].children|
  {
    var done := Forest(t, t[n].children[..k]);
    SameShape(t, u) &&
    u[n] == WithBox(t[n], HullOver(t, done, BoxOf(t[n]))) &&
    (forall y | y in done :: BoxAt(t, u, y)) &&
    (forall y | 0 <= y < |t| && y != n && y !in done :: Kept(t, u, y))
  }

  /** What the recursive call on child c promises, on the arena u it was given. */
  predicate BoxCall(u: seq<Node>, c: int, v: seq<Node>)
    requires Nested(u) && 0 <= c < |u|
  {
    SameShape(u, v) &&
    (forall y | y in Desc(u, c) :: BoxAt(u, v, y)) &&
    (forall y | 0 <= y < |u| && y !in Desc(u, c) :: Kept(u, v, y))
  }

  lemma BoxStepChild(t: seq<Node>, root: int, n: int, k: int, u: seq<Node>, v: seq<Node>)
    requires Shaped(t, root) && 0 <= n < |t| && 0 <= k < |t[n].children|
    requires BoxUpTo(t, n, k, u) && Nested(u) && BoxCall(u, t[n].children[k], v)
    ensures forall y | y in Desc(t, t[n].children[k]) :: BoxAt(t, v, y)
    ensures forall y | 0 <= y < |t| && y !in Desc(t, t[n].children[k]) :: Kept(u, v, y)
  {
    var c := t[n].children[k];
    var d := Forest(t, t[n].children[..k]);
    ChildStep(t, root, n, k);
    forall z | z in Desc(t, c)
      ensures Kept(t, u, z)
    {
      assert z != n && z !in d;
    }
    BoxAgree(t, u, c);
    forall y | y in Desc(t, c)
      ensures BoxAt(t, v, y)
    {
      assert Kept(t, u, y);
      assert y in Desc(u, c);
      assert BoxAt(u, v, y);
    }
  }

  lemma BoxCloseDone(t: seq<Node>, root: int, n: int, k: int, u: seq<Node>, v: seq<Node>, w: seq<Node>)
    requires Shaped(t, root) && 0 <= n < |t| && 0 <= k < |t[n].children|
    requires BoxUpTo(t, n, k, u) && |v| == |t| && |w| == |t|
    requires forall y | y in Desc(t, t[n].children[k]) :: BoxAt(t, v, y)
    requires forall y | 0 <= y < |t| && y !in Desc(t, t[n].children[k]) :: Kept(u, v, y)
    requires forall y | 0 <= y < |t| && y != n :: Kept(v, w, y)
    ensures forall y | y in Forest(t, t[n].children[..k + 1]) :: BoxAt(t, w, y)
  {
    var c := t[n].children[k];
    var d := Forest(t, t[n].children[..k]);
    ChildStep(t, root, n, k);
    forall y | y in Forest(t, t[n].children[..k + 1])
      ensures BoxAt(t, w, y)
    {
      assert y != n;
      assert Kept(v, w, y);
      if y in Desc(t, c) {
        assert BoxAt(t, v, y);
      } else {
        assert y in d;
        assert BoxAt(t, u, y) && Kept(u, v, y);
      }
    }
  }

  /** The merge into n after child k: n's box is the hull of its own box and the
      boxes of its first k + 1 children's subtrees. */
  lemma BoxCloseTop(t: seq<Node>, root: int, n: int, k: int, u: seq<Node>, v: seq<Node>, w: seq<Node>)
    requires Shaped(t, root) && 0 <= n < |t| && 0 <= k < |t[n].children|
    requires SameShape(t, u) && SameShape(u, v) && Kept(u, v, n)
    requires u[n] == WithBox(t[n], HullOver(t, Forest(t, t[n].children[..k]), BoxOf(t[n])))
    requires BoxAt(t, v, t[n].children[k])
    requires |w| == |t| && w[n] == WithBox(v[n], Hull(BoxOf(v[n]), BoxOf(v[t[n].children[k]])))
    requires forall y | 0 <= y < |t| && y != n :: Kept(v, w, y)
    ensures SameShape(t, w)
    ensures w[n] == WithBox(t[n], HullOver(t, Forest(t, t[n].children[..k + 1]), BoxOf(t[n])))
  {
    var c := t[n].children[k];
    var d := Forest(t, t[n].children[..k]);
    var acc := HullOver(t, d, BoxOf(t[n]));
    ChildStep(t, root, n, k);
    HullOverAppend(t, d, Desc(t, c), BoxOf(t[n]));
    ChildrenAll(t, c);
    HullOverAppend(t, [c], Forest(t, t[c].children), acc);
    HullOverAppend(t, [c], Forest(t, t[c].children), BoxOf(t[c]));
    assert HullOver(t, [c], acc) == Hull(acc, BoxOf(t[c]));
    assert HullOver(t, [c], BoxOf(t[c])) == Hull(BoxOf(t[c]), BoxOf(t[c]));
    HullOverShift(t, Forest(t, t[c].children), acc, BoxOf(t[c]));
    assert Hull(BoxOf(t[c]), BoxOf(t[c])) == BoxOf(t[c]);
    assert BoxOf(v[c]) == SubtreeBox(t, c);
    SameShapeTrans(t, u, v);
    SameShapeUpdate(v, n, w);
    SameShapeTrans(t, v, w);
  }

  lemma BoxStep(t: seq<Node>, root: int, n: int, k: int, u: seq<Node>, v: seq<Node>)
    requires Shaped(t, root) && 0 <= n < |t| && 0 <= k < |t[n].children|
    requires BoxUpTo(t, n, k, u) && Nested(u) && BoxCall(u, t[n].children[k], v)
    ensures BoxUpTo(t, n, k + 1, v[n := WithBox(v[n], Hull(BoxOf(v[n]), BoxOf(v[t[n].children[k]])))])
  {
    var c := t[n].children[k];
    BoxStepChild(t, root, n, k, u, v);
    var w := v[n := WithBox(v[n], Hull(BoxOf(v[n]), BoxOf(v[c])))];
    ChildStep(t, root, n, k);
    assert Kept(u, v, n);
    assert c in Desc(t, c);
    BoxCloseDone(t, root, n, k, u, v, w);
    Attributes.CloseKept(t, root, n, k, u, v, w);
    BoxCloseTop(t, root, n, k, u, v, w);
    assert BoxUpTo(t, n, k + 1, w);
  }

  /** The traversal of the subtree of n: each child's subtree first, then the
      child's finished box merged into n's, so that every node of the subtree ends
      with the hull of its subtree's boxes. */
  method BoxSubtree(t: seq<Node>, root: int, n: int) returns (u: seq<Node>)
    requires Shaped(t, root) && 0 <= n < |t|
    ensures SameShape(t, u)
    ensures forall y | y in Desc(t, n) :: BoxAt(t, u, y)
    ensures forall y | 0 <= y < |t| && y !in Desc(t, n) :: Kept(t, u, y)
    decreases Top(t) - t[n].oriH
  {
    var children := t[n].children;
    u := t;
    for k := 0 to |children|
      invariant BoxUpTo(t, n, k, u)
    {
      ShapedSameShape(t, u, root);
      var v := BoxSubtree(u, root, children[k]);
      BoxStep(t, root, n, k, u, v);
      u := v[n := WithBox(v[n], Hull(BoxOf(v[n]), BoxOf(v[children[k]])))];
    }
    ChildrenAll(t, n);
    HullOverAppend(t, [n], Forest(t, children), BoxOf(t[n]));
    assert HullOver(t, [n], BoxOf(t[n])) == Hull(BoxOf(t[n]), BoxOf(t[n])) == BoxOf(t[n]);
    forall y | y in Desc(t, n)
      ensures BoxAt(t, u, y)
    {
      if y != n {
        assert y in Forest(t, children);
      }
    }
    forall y | 0 <= y < |t| && y !in Desc(t, n)
      ensures Kept(t, u, y)
    {
      assert y != n && y !in Forest(t, children);
    }
  }

  /** computeBoundingBox on the root: every node ends with the least box enclosing
      the boxes of its subtree, and keeps everything else. */
  method ComputeBoundingBox(t: seq<Node>, root: int) returns (u: seq<Node>)
    requires Shaped(t, root)
    ensures |u| == |t|
    ensures forall y | 0 <= y < |t| :: BoxAt(t, u, y)
  {
    u := BoxSubtree(t, root, root);
    forall y | 0 <= y < |t|
      ensures BoxAt(t, u, y)
    {
      RootCoversAll(t, root, y);
    }
  }
}
