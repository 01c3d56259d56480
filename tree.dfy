/** The node model of the max-tree, stored as an arena.

    The nodes of a tree live in one sequence and refer to one another by index:
    `father` is the index of the parent (the root's father is the root itself;
    while the builder runs, -1 marks a node not yet linked), `children` the ordered
    indices of the children, `pixels` the offsets the node owns itself (not those of
    its descendants).  A child's original grey level is strictly above its
    father's, which is what makes every walk down the tree terminate. */
module Tree {

  datatype Node = Node(
    h: int,               // current level, changed by reconstruction
    oriH: int,            // level at which the node was created
    component: int,       // component number at that level (label)
    father: int,
    children: seq<int>,
    pixels: seq<int>,
    area: int,
    sum: int,
    sumSquare: int,
    volume: int,
    contrast: int,
    contourLength: int,
    pixelsBorder: seq<int>,
    xmin: int, xmax: int,
    ymin: int, ymax: int,
    zmin: int, zmax: int,
    active: bool)

  /** Every child index is a node of the arena, at a strictly higher original level. */
  predicate Nested(t: seq<Node>)
  {
    forall n, k | 0 <= n < |t| && 0 <= k < |t[n].children| ::
      0 <= t[n].children[k] < |t| && t[n].oriH < t[t[n].children[k]].oriH
  }

  predicate AllNodes(t: seq<Node>, q: seq<int>)
  {
    forall i | 0 <= i < |q| :: 0 <= q[i] < |t|
  }

  /** The highest original level in the arena (0 for an empty arena). */
  function Top(t: seq<Node>): (r: int)
    ensures forall i | 0 <= i < |t| :: t[i].oriH <= r
  {
    if t == [] then 0
    else
      var rest := Top(t[..|t| - 1]);
      if t[|t| - 1].oriH > rest then t[|t| - 1].oriH else rest
  }

  /** The lowest original level among the nodes q, or Top(t) + 1 when q is empty. */
  function MinOri(t: seq<Node>, q: seq<int>): (r: int)
    requires AllNodes(t, q)
    ensures r <= Top(t) + 1
    ensures forall i | 0 <= i < |q| :: r <= t[q[i]].oriH
    ensures q == [] || exists i | 0 <= i < |q| :: r == t[q[i]].oriH
  {
    if q == [] then Top(t) + 1
    else
      var rest := MinOri(t, q[1..]);
      if t[q[0]].oriH < rest then t[q[0]].oriH else rest
  }

  /** The subtree of n in depth-first pre-order: n, then the subtrees of its
      children in order. */
  function Desc(t: seq<Node>, n: int): (r: seq<int>)
    requires Nested(t) && 0 <= n < |t|
    ensures |r| >= 1 && r[0] == n && AllNodes(t, r)
    decreases Top(t) - t[n].oriH, 1, 0
  {
    assert AllNodes(t, t[n].children);
    [n] + Forest(t, t[n].children)
  }

  /** The subtrees of the nodes q, concatenated in order. */
  function Forest(t: seq<Node>, q: seq<int>): (r: seq<int>)
    requires Nested(t) && AllNodes(t, q)
    ensures AllNodes(t, r)
    decreases Top(t) - MinOri(t, q) + 1, 0, |q|
  {
    if q == [] then []
    else Desc(t, q[0]) + Forest(t, q[1..])
  }

  lemma {:induction false} ForestAppend(t: seq<Node>, a: seq<int>, b: seq<int>)
    requires Nested(t) && AllNodes(t, a) && AllNodes(t, b)
    ensures AllNodes(t, a + b) && Forest(t, a + b) == Forest(t, a) + Forest(t, b)
    decreases |a|
  {
    if a == [] {
      assert a + b == b;
    } else {
      var c := a + b;
      assert c[0] == a[0] && c[1..] == a[1..] + b;
      ForestAppend(t, a[1..], b);
      assert Forest(t, c) == Desc(t, a[0]) + Forest(t, a[1..] + b);
      assert Forest(t, a) == Desc(t, a[0]) + Forest(t, a[1..]);
    }
  }

  /** Taking the first node off a queue of subtrees and putting its children at the
      back leaves the same nodes to visit, less that one. */
  lemma ForestPop(t: seq<Node>, q: seq<int>)
    requires Nested(t) && AllNodes(t, q) && q != []
    ensures AllNodes(t, q[1..] + t[q[0]].children)
    ensures multiset(Forest(t, q)) == multiset{q[0]} + multiset(Forest(t, q[1..] + t[q[0]].children))
    ensures |Forest(t, q)| == 1 + |Forest(t, q[1..] + t[q[0]].children)|
  {
    ForestAppend(t, q[1..], t[q[0]].children);
    assert Forest(t, q) == [q[0]] + Forest(t, t[q[0]].children) + Forest(t, q[1..]);
  }

  /** The same step read as membership: the subtrees still to visit are the popped
      node and the subtrees of what is queued after it. */
  lemma ForestPopIn(t: seq<Node>, q: seq<int>)
    requires Nested(t) && AllNodes(t, q) && q != []
    ensures AllNodes(t, q[1..] + t[q[0]].children)
    ensures forall z :: z in Forest(t, q) <==> z == q[0] || z in Forest(t, q[1..] + t[q[0]].children)
    ensures |Forest(t, q[1..] + t[q[0]].children)| < |Forest(t, q)|
  {
    ForestPop(t, q);
    forall z
      ensures z in Forest(t, q) <==> z == q[0] || z in Forest(t, q[1..] + t[q[0]].children)
    {
      assert z in Forest(t, q) <==> z in multiset(Forest(t, q));
      assert z in Forest(t, q[1..] + t[q[0]].children) <==> z in multiset(Forest(t, q[1..] + t[q[0]].children));
    }
  }

  /** Node y is the same in t and u. */
  predicate Kept(t: seq<Node>, u: seq<Node>, y: int)
  {
    0 <= y < |t| && |u| == |t| && u[y] == t[y]
  }

  /** Two arenas with the same links and original levels. */
  predicate SameShape(t: seq<Node>, u: seq<Node>)
  {
    |t| == |u| &&
    forall i | 0 <= i < |t| ::
      t[i].children == u[i].children && t[i].father == u[i].father &&
      t[i].oriH == u[i].oriH && t[i].pixels == u[i].pixels
  }

  /** Two arenas with the same shape and the same current levels. */
  predicate SameHeights(t: seq<Node>, u: seq<Node>)
  {
    SameShape(t, u) && forall z | 0 <= z < |t| :: u[z].h == t[z].h
  }

  lemma SameShapeTrans(t: seq<Node>, u: seq<Node>, v: seq<Node>)
    requires SameShape(t, u) && SameShape(u, v)
    ensures SameShape(t, v)
  {
  }

  /** Replacing one node by a node with the same links keeps the shape. */
  lemma SameShapeSet(t: seq<Node>, n: int, x: Node)
    requires 0 <= n < |t|
    requires x.children == t[n].children && x.father == t[n].father
    requires x.oriH == t[n].oriH && x.pixels == t[n].pixels
    ensures SameShape(t, t[n := x])
  {
  }

  /** Changing one node, outside its shape fields, keeps the shape. */
  lemma SameShapeUpdate(t: seq<Node>, n: int, u: seq<Node>)
    requires 0 <= n < |t| && |u| == |t|
    requires u[n].children == t[n].children && u[n].father == t[n].father
    requires u[n].oriH == t[n].oriH && u[n].pixels == t[n].pixels
    requires forall z | 0 <= z < |t| && z != n :: Kept(t, u, z)
    ensures SameShape(t, u)
  {
    forall z | 0 <= z < |t| && z != n
      ensures u[z] == t[z]
    {
      assert Kept(t, u, z);
    }
  }

  lemma TopSameShape(t: seq<Node>, u: seq<Node>)
    requires SameShape(t, u)
    ensures Top(t) == Top(u)
    decreases |t|
  {
    if t != [] {
      TopSameShape(t[..|t| - 1], u[..|u| - 1]);
    }
  }

  /** The subtrees depend on the links alone. */
  lemma {:induction false} DescSameShape(t: seq<Node>, u: seq<Node>, n: int)
    requires Nested(t) && SameShape(t, u) && 0 <= n < |t|
    ensures Nested(u) && Desc(t, n) == Desc(u, n)
    decreases Top(t) - t[n].oriH, 1, 0
  {
    ForestSameShape(t, u, t[n].children);
  }

  lemma {:induction false} ForestSameShape(t: seq<Node>, u: seq<Node>, q: seq<int>)
    requires Nested(t) && SameShape(t, u) && AllNodes(t, q)
    ensures Nested(u) && Forest(t, q) == Forest(u, q)
    decreases Top(t) - MinOri(t, q) + 1, 0, |q|
  {
    assert Nested(u);
    if q != [] {
      DescSameShape(t, u, q[0]);
      ForestSameShape(t, u, q[1..]);
    }
  }

  /* ---- Trees: fathers and children agree ---- */

  /** The lowest original level in the arena (0 for an empty arena). */
  function Low(t: seq<Node>): (r: int)
    ensures forall i | 0 <= i < |t| :: r <= t[i].oriH
  {
    if t == [] then 0
    else
      var rest := Low(t[..|t| - 1]);
      if t[|t| - 1].oriH < rest then t[|t| - 1].oriH else rest
  }

  /** A finished tree: the root is self-parented, every other node is a child of its
      father, every child names its parent as father, and no node is listed twice
      among its father's children. */
  predicate Shaped(t: seq<Node>, root: int)
  {
    Nested(t) && 0 <= root < |t| && t[root].father == root &&
    (forall n, k | 0 <= n < |t| && 0 <= k < |t[n].children| :: t[t[n].children[k]].father == n) &&
    (forall n, k, k' | 0 <= n < |t| && 0 <= k < k' < |t[n].children| ::
       t[n].children[k] != t[n].children[k']) &&
    (forall n | 0 <= n < |t| && n != root :: FatherOk(t, n))
  }

  predicate FatherOk(t: seq<Node>, n: int)
    requires 0 <= n < |t|
  {
    0 <= t[n].father < |t| && t[n].father != n && n in t[t[n].father].children
  }

  /** A node other than the root sits strictly above its father. */
  lemma FatherBelow(t: seq<Node>, root: int, n: int)
    requires Shaped(t, root) && 0 <= n < |t| && n != root
    ensures 0 <= t[n].father < |t| && t[t[n].father].oriH < t[n].oriH
  {
    assert FatherOk(t, n);
    var k :| 0 <= k < |t[t[n].father].children| && t[t[n].father].children[k] == n;
  }

  /** a is y or an ancestor of y: walking up the fathers from y reaches a. */
  predicate IsAnc(t: seq<Node>, root: int, a: int, y: int)
    requires Shaped(t, root) && 0 <= y < |t|
    decreases t[y].oriH - Low(t)
  {
    y == a || (y != root && (FatherBelow(t, root, y); IsAnc(t, root, a, t[y].father)))
  }

  lemma {:induction false} AncBelow(t: seq<Node>, root: int, a: int, y: int)
    requires Shaped(t, root) && 0 <= y < |t| && IsAnc(t, root, a, y)
    ensures 0 <= a < |t| && t[a].oriH <= t[y].oriH
    ensures a != y ==> t[a].oriH < t[y].oriH
    decreases t[y].oriH - Low(t)
  {
    if y != a {
      FatherBelow(t, root, y);
      AncBelow(t, root, a, t[y].father);
    }
  }

  lemma {:induction false} AncTrans(t: seq<Node>, root: int, a: int, b: int, y: int)
    requires Shaped(t, root) && 0 <= y < |t| && 0 <= b < |t|
    requires IsAnc(t, root, a, b) && IsAnc(t, root, b, y)
    ensures IsAnc(t, root, a, y)
    decreases t[y].oriH - Low(t)
  {
    if y != b {
      FatherBelow(t, root, y);
      AncTrans(t, root, a, b, t[y].father);
    }
  }

  /** The root is an ancestor of every node: the arena holds a single tree. */
  lemma {:induction false} RootAncOfAll(t: seq<Node>, root: int, y: int)
    requires Shaped(t, root) && 0 <= y < |t|
    ensures IsAnc(t, root, root, y)
    decreases t[y].oriH - Low(t)
  {
    if y != root {
      FatherBelow(t, root, y);
      RootAncOfAll(t, root, t[y].father);
    }
  }

  /** Two ancestors of y with a common father are the same node. */
  lemma {:induction false} AncSameFather(t: seq<Node>, root: int, a: int, b: int, y: int)
    requires Shaped(t, root) && 0 <= y < |t| && IsAnc(t, root, a, y) && IsAnc(t, root, b, y)
    requires a != root && b != root
    ensures 0 <= a < |t| && 0 <= b < |t|
    ensures t[a].father == t[b].father ==> a == b
    decreases t[y].oriH - Low(t)
  {
    AncBelow(t, root, a, y);
    AncBelow(t, root, b, y);
    if a != y && b != y {
      FatherBelow(t, root, y);
      AncSameFather(t, root, a, b, t[y].father);
    } else if a == y && b != y && t[a].father == t[b].father {
      // b lies at or above the father of a, yet b's own father is that father.
      FatherBelow(t, root, y);
      AncBelow(t, root, b, t[y].father);
      FatherBelow(t, root, b);
    } else if b == y && a != y && t[a].father == t[b].father {
      FatherBelow(t, root, y);
      AncBelow(t, root, a, t[y].father);
      FatherBelow(t, root, a);
    }
  }

  /** The subtree of x (Desc) is exactly the nodes x is an ancestor of. */
  lemma {:induction false} DescIffAnc(t: seq<Node>, root: int, x: int, y: int)
    requires Shaped(t, root) && 0 <= x < |t| && 0 <= y < |t|
    ensures y in Desc(t, x) <==> IsAnc(t, root, x, y)
    decreases t[y].oriH - t[x].oriH + (Top(t) - Low(t)) + 1
  {
    if y == x {
    } else if y in Desc(t, x) {
      var i := ForestMember(t, t[x].children, y);
      var c := t[x].children[i];
      assert t[c].father == x;
      DescIffAnc(t, root, c, y);
      AncTrans(t, root, x, c, y);
    } else if IsAnc(t, root, x, y) {
      FatherBelow(t, root, y);
      assert FatherOk(t, y);
      var f := t[y].father;
      DescIffAnc(t, root, x, f);
      DescChild(t, root, x, f, y);
    }
  }

  /** A node of a forest lies in the subtree of one of its roots. */
  lemma {:induction false} ForestMember(t: seq<Node>, q: seq<int>, y: int) returns (i: int)
    requires Nested(t) && AllNodes(t, q) && y in Forest(t, q)
    ensures 0 <= i < |q| && y in Desc(t, q[i])
    decreases |q|
  {
    if y in Desc(t, q[0]) {
      i := 0;
    } else {
      var j := ForestMember(t, q[1..], y);
      i := j + 1;
    }
  }

  lemma {:induction false} InForest(t: seq<Node>, q: seq<int>, i: int, y: int)
    requires Nested(t) && AllNodes(t, q) && 0 <= i < |q| && y in Desc(t, q[i])
    ensures y in Forest(t, q)
    decreases |q|
  {
    if i > 0 {
      InForest(t, q[1..], i - 1, y);
    }
  }

  /** Subtrees nest: a node in the subtree of f, itself in the subtree of x, is in
      the subtree of x. */
  lemma {:induction false} DescTrans(t: seq<Node>, x: int, f: int, y: int)
    requires Nested(t) && 0 <= x < |t| && 0 <= f < |t|
    requires f in Desc(t, x) && y in Desc(t, f)
    ensures y in Desc(t, x)
    decreases Top(t) - t[x].oriH
  {
    if f != x {
      var i := ForestMember(t, t[x].children, f);
      var c := t[x].children[i];
      DescTrans(t, c, f, y);
      InForest(t, t[x].children, i, y);
    }
  }

  lemma DescChild(t: seq<Node>, root: int, x: int, f: int, y: int)
    requires Shaped(t, root) && 0 <= x < |t| && 0 <= f < |t| && 0 <= y < |t|
    requires f in Desc(t, x) && y in t[f].children
    ensures y in Desc(t, x)
  {
    var k :| 0 <= k < |t[f].children| && t[f].children[k] == y;
    InForest(t, t[f].children, k, y);
    DescTrans(t, x, f, y);
  }

  /** Every node of a subtree sits at or above the subtree's top, strictly above it
      when it is not the top itself. */
  lemma {:induction false} DescAbove(t: seq<Node>, x: int, y: int)
    requires Nested(t) && 0 <= x < |t| && y in Desc(t, x)
    ensures 0 <= y < |t| && t[x].oriH <= t[y].oriH
    ensures y != x ==> t[x].oriH < t[y].oriH
    decreases Top(t) - t[x].oriH
  {
    if y != x {
      var i := ForestMember(t, t[x].children, y);
      DescAbove(t, t[x].children[i], y);
    }
  }

  /** The subtrees of two different children of one node share no node. */
  lemma SiblingsDisjoint(t: seq<Node>, root: int, n: int, i: int, j: int, y: int)
    requires Shaped(t, root) && 0 <= n < |t|
    requires 0 <= i < |t[n].children| && 0 <= j < |t[n].children| && i != j
    ensures !(y in Desc(t, t[n].children[i]) && y in Desc(t, t[n].children[j]))
  {
    var a, b := t[n].children[i], t[n].children[j];
    if y in Desc(t, a) && y in Desc(t, b) {
      DescAbove(t, a, y);
      DescIffAnc(t, root, a, y);
      DescIffAnc(t, root, b, y);
      assert t[a].father == n && t[b].father == n;
      assert a != root && b != root;
      AncSameFather(t, root, a, b, y);
      assert false;
    }
  }

  /* ---- Sums and pixel lists over sequences of nodes ---- */

  /** The sum of f over the nodes s. */
  function Sum(t: seq<Node>, s: seq<int>, f: Node -> int): (r: int)
    requires AllNodes(t, s)
    ensures s == [] ==> r == 0
    ensures |s| == 1 ==> r == f(t[s[0]])
  {
    if s == [] then 0 else f(t[s[0]]) + Sum(t, s[1..], f)
  }

  lemma {:induction false} SumAppend(t: seq<Node>, a: seq<int>, b: seq<int>, f: Node -> int)
    requires AllNodes(t, a) && AllNodes(t, b)
    ensures AllNodes(t, a + b) && Sum(t, a + b, f) == Sum(t, a, f) + Sum(t, b, f)
    decreases |a|
  {
    if a == [] {
      assert a + b == b;
    } else {
      assert (a + b)[0] == a[0] && (a + b)[1..] == a[1..] + b;
      SumAppend(t, a[1..], b, f);
    }
  }

  /** A sum reads only the nodes it adds up. */
  lemma {:induction false} SumFrame(t: seq<Node>, u: seq<Node>, s: seq<int>, f: Node -> int)
    requires AllNodes(t, s) && |t| == |u|
    requires forall i | 0 <= i < |s| :: f(t[s[i]]) == f(u[s[i]])
    ensures AllNodes(u, s) && Sum(t, s, f) == Sum(u, s, f)
    decreases |s|
  {
    if s != [] {
      SumFrame(t, u, s[1..], f);
    }
  }

  /** Two functions that agree on the nodes s have the same sum over them. */
  lemma {:induction false} SumSame(t: seq<Node>, s: seq<int>, f: Node -> int, g: Node -> int)
    requires AllNodes(t, s)
    requires forall i | 0 <= i < |s| :: f(t[s[i]]) == g(t[s[i]])
    ensures Sum(t, s, f) == Sum(t, s, g)
    decreases |s|
  {
    if s != [] {
      SumSame(t, s[1..], f, g);
    }
  }

  /** The own pixels of the nodes s, in order. */
  function PixelsOf(t: seq<Node>, s: seq<int>): (r: seq<int>)
    requires AllNodes(t, s)
    ensures s == [] ==> r == []
  {
    if s == [] then [] else t[s[0]].pixels + PixelsOf(t, s[1..])
  }

  lemma {:induction false} PixelsAppend(t: seq<Node>, a: seq<int>, b: seq<int>)
    requires AllNodes(t, a) && AllNodes(t, b)
    ensures AllNodes(t, a + b) && PixelsOf(t, a + b) == PixelsOf(t, a) + PixelsOf(t, b)
    decreases |a|
  {
    if a == [] {
      assert a + b == b;
    } else {
      assert (a + b)[0] == a[0] && (a + b)[1..] == a[1..] + b;
      PixelsAppend(t, a[1..], b);
    }
  }

  lemma ShapedSameShape(t: seq<Node>, u: seq<Node>, root: int)
    requires Shaped(t, root) && SameShape(t, u)
    ensures Shaped(u, root) && Top(u) == Top(t)
  {
    TopSameShape(t, u);
    forall n | 0 <= n < |u| && n != root
      ensures FatherOk(u, n)
    {
      assert FatherOk(t, n);
      assert u[t[n].father].children == t[t[n].father].children;
    }
  }

  /** Walking the children of n in order: the forest of the first k + 1 children is
      the forest of the first k followed by the subtree of child k, and that subtree
      contains neither n nor any node of the first k subtrees. */
  lemma ChildStep(t: seq<Node>, root: int, n: int, k: int)
    requires Shaped(t, root) && 0 <= n < |t| && 0 <= k < |t[n].children|
    ensures AllNodes(t, t[n].children[..k]) && AllNodes(t, t[n].children[..k + 1])
    ensures Forest(t, t[n].children[..k + 1]) == Forest(t, t[n].children[..k]) + Desc(t, t[n].children[k])
    ensures forall z | z in Desc(t, t[n].children[k]) :: z != n && z !in Forest(t, t[n].children[..k])
    ensures n !in Forest(t, t[n].children[..k]) && n !in Forest(t, t[n].children[..k + 1])
  {
    var q := t[n].children;
    var c := q[k];
    assert q[..k + 1] == q[..k] + [c];
    ForestAppend(t, q[..k], [c]);
    assert Forest(t, [c]) == Desc(t, c) + Forest(t, []);
    forall z | z in Desc(t, c)
      ensures z != n && z !in Forest(t, q[..k])
    {
      DescAbove(t, c, z);
      if z in Forest(t, q[..k]) {
        var j := ForestMember(t, q[..k], z);
        SiblingsDisjoint(t, root, n, j, k, z);
      }
    }
    if n in Forest(t, q[..k + 1]) {
      var j := ForestMember(t, q[..k + 1], n);
      DescAbove(t, q[j], n);
      assert false;
    }
  }

  lemma ChildrenAll(t: seq<Node>, n: int)
    requires Nested(t) && 0 <= n < |t|
    ensures t[n].children[..|t[n].children|] == t[n].children
    ensures Desc(t, n) == [n] + Forest(t, t[n].children)
    ensures n !in Forest(t, t[n].children)
  {
    if n in Forest(t, t[n].children) {
      var i := ForestMember(t, t[n].children, n);
      DescAbove(t, t[n].children[i], n);
    }
  }

  /** Every pixel a node owns is an offset of the image. */
  predicate PixelsIn(t: seq<Node>, n: nat)
  {
    forall y, i | 0 <= y < |t| && 0 <= i < |t[y].pixels| :: 0 <= t[y].pixels[i] < n
  }

  /** No pixel is owned by two nodes. */
  predicate OwnersUnique(t: seq<Node>)
  {
    forall a, b, p | 0 <= a < |t| && 0 <= b < |t| && p in t[a].pixels && p in t[b].pixels :: a == b
  }

  /* ---- The subtree of the root lists every node once ---- */

  predicate Distinct(s: seq<int>)
  {
    forall i, j | 0 <= i < j < |s| :: s[i] != s[j]
  }

  lemma DistinctConcat(a: seq<int>, b: seq<int>)
    requires Distinct(a) && Distinct(b) && forall z | z in b :: z !in a
    ensures Distinct(a + b)
  {
    forall i, j | 0 <= i < j < |a + b|
      ensures (a + b)[i] != (a + b)[j]
    {
      if i < |a| && j >= |a| {
        assert (a + b)[j] == b[j - |a|];
        assert b[j - |a|] in b;
      }
    }
  }

  /** The two halves of a sequence without repeats have none either, and share
      no element. */
  lemma DistinctSplit(a: seq<int>, b: seq<int>)
    requires Distinct(a + b)
    ensures Distinct(a) && Distinct(b) && forall z | z in b :: z !in a
  {
    assert a == (a + b)[..|a|] && b == (a + b)[|a|..];
    forall z | z in b
      ensures z !in a
    {
      var j :| 0 <= j < |b| && b[j] == z;
      assert (a + b)[|a| + j] == z;
    }
  }

  /** Rotating a sequence keeps it free of repeats. */
  lemma DistinctRotate(a: seq<int>, b: seq<int>)
    requires Distinct(a + b)
    ensures Distinct(b + a)
  {
    DistinctSplit(a, b);
    DistinctConcat(b, a);
  }

  /** Moving the first of three blocks to the back keeps a sequence free of repeats. */
  lemma DistinctMove(a: seq<int>, b: seq<int>, c: seq<int>)
    requires Distinct(a + b + c)
    ensures Distinct(b + (c + a))
  {
    assert a + b + c == a + (b + c);
    DistinctRotate(a, b + c);
    assert b + c + a == b + (c + a);
  }

  /** Exchanging the first two of three blocks keeps a sequence free of repeats. */
  lemma DistinctSwap(a: seq<int>, b: seq<int>, c: seq<int>)
    requires Distinct(a + b + c)
    ensures Distinct(b + a + c)
  {
    DistinctSplit(a + b, c);
    DistinctSplit(a, b);
    DistinctConcat(b, a);
    DistinctConcat(b + a, c);
  }

  /** Dropping the head of a sequence free of repeats and exchanging the next two
      blocks keeps it free of repeats. */
  lemma DistinctUnshift(x: int, a: seq<int>, b: seq<int>, c: seq<int>)
    requires Distinct([x] + a + b + c)
    ensures Distinct(b + a + c)
  {
    assert [x] + a + b + c == [x] + (a + b + c);
    DistinctSplit([x], a + b + c);
    DistinctSwap(a, b, c);
  }

  /** A forest without repeated nodes has no repeated root. */
  lemma {:induction false} DistinctRoots(t: seq<Node>, q: seq<int>)
    requires Nested(t) && AllNodes(t, q) && Distinct(Forest(t, q))
    ensures Distinct(q)
    decreases |q|
  {
    if q != [] {
      DistinctSplit(Desc(t, q[0]), Forest(t, q[1..]));
      DistinctRoots(t, q[1..]);
      forall j | 1 <= j < |q|
        ensures q[0] != q[j]
      {
        InForest(t, q[1..], j - 1, q[j]);
      }
      assert q == [q[0]] + q[1..];
      DistinctConcat([q[0]], q[1..]);
    }
  }

  /** No node appears twice in a subtree. */
  lemma {:induction false} DescDistinct(t: seq<Node>, root: int, x: int)
    requires Shaped(t, root) && 0 <= x < |t|
    ensures Distinct(Desc(t, x))
    decreases Top(t) - t[x].oriH, 1, 0
  {
    ChildrenAll(t, x);
    PrefixDistinct(t, root, x, |t[x].children|);
    DistinctConcat([x], Forest(t, t[x].children));
  }

  lemma {:induction false} PrefixDistinct(t: seq<Node>, root: int, n: int, k: int)
    requires Shaped(t, root) && 0 <= n < |t| && 0 <= k <= |t[n].children|
    ensures AllNodes(t, t[n].children[..k]) && Distinct(Forest(t, t[n].children[..k]))
    decreases Top(t) - t[n].oriH, 0, k
  {
    if k == 0 {
      assert t[n].children[..0] == [];
    } else {
      PrefixDistinct(t, root, n, k - 1);
      ChildStep(t, root, n, k - 1);
      var c := t[n].children[k - 1];
      DescAbove(t, n, n);
      assert t[n].oriH < t[c].oriH;
      DescDistinct(t, root, c);
      DistinctConcat(Forest(t, t[n].children[..k - 1]), Desc(t, c));
    }
  }

  /** Every node of the arena lies in the subtree of the root. */
  lemma RootCoversAll(t: seq<Node>, root: int, y: int)
    requires Shaped(t, root) && 0 <= y < |t|
    ensures y in Desc(t, root)
  {
    RootAncOfAll(t, root, y);
    DescIffAnc(t, root, root, y);
  }
}
