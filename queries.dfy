/** What the queries, filters and reconstructions of the component tree compute,
    stated as functions of the arena, with the facts the tree walks rely on.

    Every walk of the library is breadth-first from one node: it pops a node off a
    FIFO, handles it and pushes its children.  Visiting and AppliedTo describe such a
    walk half way through; the methods of the ComponentTree class carry them as loop
    invariants. */
module Queries {
  import opened Tree

  /* ---- Breadth-first walks ---- */

  /** The walk from start has handled the nodes of done and still has the subtrees
      of queue ahead of it; between them they make up the subtree of start. */
  ghost predicate Visiting(t: seq<Node>, start: int, done: set<int>, queue: seq<int>)
    requires Nested(t) && 0 <= start < |t|
  {
    AllNodes(t, queue) && forall z :: z in Desc(t, start) <==> z in done || z in Forest(t, queue)
  }

  lemma VisitStart(t: seq<Node>, start: int)
    requires Nested(t) && 0 <= start < |t|
    ensures Visiting(t, start, {}, [start])
  {
    assert Forest(t, [start]) == Desc(t, start) + Forest(t, []);
  }

  /** Popping the head of the queue and queueing its children keeps the cover, and
      leaves fewer nodes ahead. */
  lemma VisitStep(t: seq<Node>, start: int, done: set<int>, queue: seq<int>)
    requires Nested(t) && 0 <= start < |t| && Visiting(t, start, done, queue) && queue != []
    ensures AllNodes(t, queue[1..] + t[queue[0]].children)
    ensures Visiting(t, start, done + {queue[0]}, queue[1..] + t[queue[0]].children)
    ensures |Forest(t, queue[1..] + t[queue[0]].children)| < |Forest(t, queue)|
  {
    ForestPopIn(t, queue);
  }

  /** When the queue is empty the walk has handled the whole subtree; from the root,
      that is every node. */
  lemma VisitEnd(t: seq<Node>, root: int, done: set<int>)
    requires Shaped(t, root) && Visiting(t, root, done, [])
    ensures forall y | 0 <= y < |t| :: y in done
  {
    forall y | 0 <= y < |t|
      ensures y in done
    {
      RootCoversAll(t, root, y);
    }
  }

  /** When the queue is empty the walk has handled exactly the subtree of start. */
  lemma VisitDone(t: seq<Node>, start: int, done: set<int>)
    requires Nested(t) && 0 <= start < |t| && Visiting(t, start, done, [])
    ensures done == set z | z in Desc(t, start)
  {
    assert Forest(t, []) == [];
    forall z
      ensures z in done <==> z in Desc(t, start)
    {
      assert z !in Forest(t, []);
    }
  }

  /** The subtrees of the children from k on: child k's subtree, then the rest. */
  lemma ForestFrom(t: seq<Node>, q: seq<int>, k: int)
    requires Nested(t) && AllNodes(t, q) && 0 <= k < |q|
    ensures AllNodes(t, q[k..]) && AllNodes(t, q[k + 1..])
    ensures Forest(t, q[k..]) == Desc(t, q[k]) + Forest(t, q[k + 1..])
  {
    assert q[k..][0] == q[k] && q[k..][1..] == q[k + 1..];
  }

  /** Queueing one more subtree. */
  lemma ForestPush(t: seq<Node>, q: seq<int>, c: int)
    requires Nested(t) && AllNodes(t, q) && 0 <= c < |t|
    ensures AllNodes(t, q + [c]) && Forest(t, q + [c]) == Forest(t, q) + Desc(t, c)
  {
    ForestAppend(t, q, [c]);
    assert Forest(t, [c]) == Desc(t, c) + Forest(t, []);
  }

  /** A walk that handles the children ch of a popped node one by one, either
      taking a child's whole subtree as done or queueing the child: every node of
      the subtree of start is done, queued or below a child not yet handled. */
  ghost predicate Covering(t: seq<Node>, start: int, done: set<int>, queue: seq<int>, ch: seq<int>)
    requires Nested(t) && 0 <= start < |t|
  {
    AllNodes(t, queue) && AllNodes(t, ch) &&
    forall z :: z in Desc(t, start) <==> z in done || z in Forest(t, queue) || z in Forest(t, ch)
  }

  /** Popping the head of a walk's queue, with its children still to handle. */
  lemma VisitToCover(t: seq<Node>, start: int, done: set<int>, queue: seq<int>)
    requires Nested(t) && 0 <= start < |t| && Visiting(t, start, done, queue) && queue != []
    ensures Covering(t, start, done + {queue[0]}, queue[1..], t[queue[0]].children)
    ensures |Forest(t, queue[1..])| + |Forest(t, t[queue[0]].children)| < |Forest(t, queue)|
  {
    VisitStep(t, start, done, queue);
    ForestAppend(t, queue[1..], t[queue[0]].children);
  }

  /** Handling the next child by taking its whole subtree as done. */
  lemma CoverTake(t: seq<Node>, start: int, done: set<int>, queue: seq<int>, ch: seq<int>)
    requires Nested(t) && 0 <= start < |t| && Covering(t, start, done, queue, ch) && ch != []
    ensures Covering(t, start, done + (set z | z in Desc(t, ch[0])), queue, ch[1..])
    ensures |Forest(t, ch[1..])| < |Forest(t, ch)|
  {
  }

  /** Handling the next child by queueing it. */
  lemma CoverQueue(t: seq<Node>, start: int, done: set<int>, queue: seq<int>, ch: seq<int>)
    requires Nested(t) && 0 <= start < |t| && Covering(t, start, done, queue, ch) && ch != []
    ensures Covering(t, start, done, queue + [ch[0]], ch[1..])
    ensures |Forest(t, queue + [ch[0]])| + |Forest(t, ch[1..])| == |Forest(t, queue)| + |Forest(t, ch)|
  {
    ForestPush(t, queue, ch[0]);
  }

  /** Applies f to every node. */
  function MapNodes(t: seq<Node>, f: Node -> Node): (r: seq<Node>)
    ensures |r| == |t| && forall i | 0 <= i < |t| :: r[i] == f(t[i])
  {
    seq(|t|, i requires 0 <= i < |t| => f(t[i]))
  }

  /** u is t with f applied to the nodes of done. */
  ghost predicate AppliedTo(t: seq<Node>, u: seq<Node>, done: set<int>, f: Node -> Node)
  {
    |u| == |t| && forall y | 0 <= y < |t| :: u[y] == if y in done then f(t[y]) else t[y]
  }

  /** Handling one more node with an update that is idempotent: a node reached
      twice is left as the first visit left it. */
  lemma ApplyStep(t: seq<Node>, u: seq<Node>, done: set<int>, f: Node -> Node, x: int)
    requires AppliedTo(t, u, done, f) && 0 <= x < |t| && f(f(t[x])) == f(t[x])
    ensures AppliedTo(t, u[x := f(u[x])], done + {x}, f)
  {
  }

  lemma ApplyEnd(t: seq<Node>, u: seq<Node>, done: set<int>, f: Node -> Node)
    requires AppliedTo(t, u, done, f) && forall y | 0 <= y < |t| :: y in done
    ensures u == MapNodes(t, f)
  {
  }

  /** An update of single nodes that keeps the links, the original level and the
      pixels, and that is idempotent, so a walk may apply it in any order. */
  ghost predicate Local(f: Node -> Node)
  {
    forall n: Node ::
      f(n).children == n.children && f(n).father == n.father &&
      f(n).oriH == n.oriH && f(n).pixels == n.pixels && f(f(n)) == f(n)
  }

  lemma MapKeepsShape(t: seq<Node>, f: Node -> Node)
    requires Local(f)
    ensures SameShape(t, MapNodes(t, f))
  {
  }

  /* ---- Restoring and filtering ---- */

  /** The integer attributes a node can be read or filtered by. */
  datatype Attribute = H | Area | Contrast | Volume | ContourLength

  /** getAttribute, for the integer attributes: each attribute reads its own field
      of the node.  These ensures are only the case analysis; what the fields hold
      on a built tree (the subtree's area, contrast and volume) is stated by
      Dispatch.AttributesRead. */
  function GetAttribute(n: Node, a: Attribute): (r: int)
    ensures a == H ==> r == n.h
    ensures a == Area ==> r == n.area
    ensures a == Contrast ==> r == n.contrast
    ensures a == Volume ==> r == n.volume
    ensures a == ContourLength ==> r == n.contourLength
  {
    match a
    case H => n.h
    case Area => n.area
    case Contrast => n.contrast
    case Volume => n.volume
    case ContourLength => n.contourLength
  }

  function RestoreNode(n: Node): Node { n.(active := true, h := n.oriH) }

  function DeactivateNode(n: Node): Node { n.(active := false) }

  /** One node through a filter on attribute a: switched off when the attribute lies
      outside [lo, hi], untouched otherwise. */
  function FilterNode(a: Attribute, lo: int, hi: int): Node -> Node
  {
    n => if GetAttribute(n, a) < lo || GetAttribute(n, a) > hi then n.(active := false) else n
  }

  /** The arena after restore: every node active again, back at its original level. */
  function Restored(t: seq<Node>): (r: seq<Node>)
    ensures |r| == |t| && forall i | 0 <= i < |t| :: r[i] == RestoreNode(t[i])
  {
    MapNodes(t, RestoreNode)
  }

  /** The arena after setFalse: every node inactive. */
  function Deactivated(t: seq<Node>): (r: seq<Node>)
    ensures |r| == |t| && forall i | 0 <= i < |t| :: r[i] == DeactivateNode(t[i])
  {
    MapNodes(t, DeactivateNode)
  }

  /** The arena after filtering on attribute a with bounds lo and hi. */
  function Filtered(t: seq<Node>, a: Attribute, lo: int, hi: int): seq<Node>
  {
    MapNodes(t, FilterNode(a, lo, hi))
  }

  /** A filter only switches nodes off: a node is active afterwards exactly when it
      was active and its attribute lies within the bounds, and nothing but the
      active flag changes. */
  lemma FilterOnlyDeactivates(t: seq<Node>, a: Attribute, lo: int, hi: int, i: int)
    requires 0 <= i < |t|
    ensures var r := Filtered(t, a, lo, hi);
      |r| == |t| &&
      (r[i].active <==> t[i].active && lo <= GetAttribute(t[i], a) <= hi) &&
      r[i] == t[i].(active := r[i].active)
  {
  }

  /** Restoring undoes any filter, and undoes setFalse. */
  lemma RestoreUndoesFilter(t: seq<Node>, a: Attribute, lo: int, hi: int)
    ensures Restored(Filtered(t, a, lo, hi)) == Restored(t)
    ensures Restored(Deactivated(t)) == Restored(t)
  {
    var f := Filtered(t, a, lo, hi);
    assert forall i | 0 <= i < |t| :: Restored(f)[i] == Restored(t)[i];
    var d := Deactivated(t);
    assert forall i | 0 <= i < |t| :: Restored(d)[i] == Restored(t)[i];
  }

  /** Filters commute: the active nodes after two filters are those that pass both. */
  lemma FiltersCommute(t: seq<Node>, a: Attribute, lo: int, hi: int, b: Attribute, lo': int, hi': int)
    ensures Filtered(Filtered(t, a, lo, hi), b, lo', hi') == Filtered(Filtered(t, b, lo', hi'), a, lo, hi)
  {
    var l := Filtered(Filtered(t, a, lo, hi), b, lo', hi');
    var r := Filtered(Filtered(t, b, lo', hi'), a, lo, hi);
    forall i | 0 <= i < |t|
      ensures l[i] == r[i]
    {
      FilterOnlyDeactivates(t, a, lo, hi, i);
      FilterOnlyDeactivates(t, b, lo', hi', i);
      FilterOnlyDeactivates(Filtered(t, a, lo, hi), b, lo', hi', i);
      FilterOnlyDeactivates(Filtered(t, b, lo', hi'), a, lo, hi, i);
    }
  }

  lemma UpdatesAreLocal(a: Attribute, lo: int, hi: int)
    ensures Local(RestoreNode) && Local(DeactivateNode) && Local(FilterNode(a, lo, hi))
  {
  }

  /** After restore every node is active at its original level, and restoring twice
      is restoring once. */
  lemma RestoredIsOriginal(t: seq<Node>)
    ensures forall i | 0 <= i < |t| :: Restored(t)[i].active && Restored(t)[i].h == t[i].oriH
    ensures Restored(Restored(t)) == Restored(t)
  {
    assert forall i | 0 <= i < |t| :: Restored(Restored(t))[i] == Restored(t)[i];
  }

  /* ---- Pixels of subtrees ---- */

  /** A pixel is in the pixel list of the nodes s exactly when one of them owns it. */
  lemma {:induction false} PixelsOfMember(t: seq<Node>, s: seq<int>, p: int)
    requires AllNodes(t, s)
    ensures p in PixelsOf(t, s) <==> exists i | 0 <= i < |s| :: p in t[s[i]].pixels
    decreases |s|
  {
    if s != [] {
      PixelsOfMember(t, s[1..], p);
      if p in PixelsOf(t, s[1..]) {
        var i :| 0 <= i < |s[1..]| && p in t[s[1..][i]].pixels;
        assert p in t[s[i + 1]].pixels;
      }
    }
  }

  /** merge_pixels' partner: the pixels of the subtree of n are those owned by a
      node that n is an ancestor of. */
  lemma SubtreePixels(t: seq<Node>, root: int, n: int, p: int)
    requires Shaped(t, root) && 0 <= n < |t|
    ensures p in PixelsOf(t, Desc(t, n)) <==>
      exists y | 0 <= y < |t| :: IsAnc(t, root, n, y) && p in t[y].pixels
  {
    var d := Desc(t, n);
    PixelsOfMember(t, d, p);
    if p in PixelsOf(t, d) {
      var i :| 0 <= i < |d| && p in t[d[i]].pixels;
      DescIffAnc(t, root, n, d[i]);
    }
    if exists y | 0 <= y < |t| :: IsAnc(t, root, n, y) && p in t[y].pixels {
      var y :| 0 <= y < |t| && IsAnc(t, root, n, y) && p in t[y].pixels;
      DescIffAnc(t, root, n, y);
      var i :| 0 <= i < |d| && d[i] == y;
    }
  }

  /** One step of a walk collecting pixels: the pixels still to collect are those
      of the popped node and of the subtrees queued after it. */
  lemma PixelsPop(t: seq<Node>, q: seq<int>)
    requires Nested(t) && AllNodes(t, q) && q != []
    ensures AllNodes(t, q[1..] + t[q[0]].children)
    ensures multiset(PixelsOf(t, Forest(t, q))) ==
      multiset(t[q[0]].pixels) + multiset(PixelsOf(t, Forest(t, q[1..] + t[q[0]].children)))
    ensures |Forest(t, q[1..] + t[q[0]].children)| < |Forest(t, q)|
  {
    var ch := t[q[0]].children;
    ForestAppend(t, q[1..], ch);
    var a := Forest(t, ch);
    var b := Forest(t, q[1..]);
    assert Forest(t, q) == [q[0]] + (a + b);
    PixelsTriple(t, q[0], a, b);
  }

  /** The pixels of [x] + (a + b) and of b + a, as multisets. */
  lemma PixelsTriple(t: seq<Node>, x: int, a: seq<int>, b: seq<int>)
    requires 0 <= x < |t| && AllNodes(t, a) && AllNodes(t, b)
    ensures AllNodes(t, [x] + (a + b)) && AllNodes(t, b + a)
    ensures multiset(PixelsOf(t, [x] + (a + b))) == multiset(t[x].pixels) + multiset(PixelsOf(t, b + a))
  {
    PixelsAppend(t, [x], a + b);
    PixelsAppend(t, a, b);
    PixelsAppend(t, b, a);
    assert PixelsOf(t, [x]) == t[x].pixels + PixelsOf(t, []);
    var pa, pb := PixelsOf(t, a), PixelsOf(t, b);
    assert PixelsOf(t, [x] + (a + b)) == t[x].pixels + (pa + pb);
    assert PixelsOf(t, b + a) == pb + pa;
  }

  /** The maximal inactive part of the subtree of n, in pre-order: nothing when n
      is active, otherwise n followed by the inactive parts of its children. */
  function InactiveDesc(t: seq<Node>, n: int): (r: seq<int>)
    requires Nested(t) && 0 <= n < |t|
    ensures AllNodes(t, r)
    decreases Top(t) - t[n].oriH, 1, 0
  {
    assert AllNodes(t, t[n].children);
    if t[n].active then [] else [n] + InactiveForest(t, t[n].children)
  }

  function InactiveForest(t: seq<Node>, q: seq<int>): (r: seq<int>)
    requires Nested(t) && AllNodes(t, q)
    ensures AllNodes(t, r)
    decreases Top(t) - MinOri(t, q) + 1, 0, |q|
  {
    if q == [] then [] else InactiveDesc(t, q[0]) + InactiveForest(t, q[1..])
  }

  lemma {:induction false} InactiveForestAppend(t: seq<Node>, a: seq<int>, b: seq<int>)
    requires Nested(t) && AllNodes(t, a) && AllNodes(t, b)
    ensures AllNodes(t, a + b) && InactiveForest(t, a + b) == InactiveForest(t, a) + InactiveForest(t, b)
    decreases |a|
  {
    if a == [] {
      assert a + b == b;
    } else {
      assert (a + b)[0] == a[0] && (a + b)[1..] == a[1..] + b;
      InactiveForestAppend(t, a[1..], b);
    }
  }

  /** One step of merge_pixelsFalseNodes: an active node is dropped with its
      subtree; an inactive one gives its own pixels and queues its children. */
  lemma InactivePop(t: seq<Node>, q: seq<int>)
    requires Nested(t) && AllNodes(t, q) && q != []
    ensures AllNodes(t, q[1..] + t[q[0]].children)
    ensures t[q[0]].active ==>
      InactiveForest(t, q) == InactiveForest(t, q[1..]) && |Forest(t, q[1..])| < |Forest(t, q)|
    ensures !t[q[0]].active ==>
      multiset(PixelsOf(t, InactiveForest(t, q))) ==
        multiset(t[q[0]].pixels) + multiset(PixelsOf(t, InactiveForest(t, q[1..] + t[q[0]].children)))
    ensures |Forest(t, q[1..] + t[q[0]].children)| < |Forest(t, q)|
  {
    var ch := t[q[0]].children;
    ForestAppend(t, q[1..], ch);
    assert Forest(t, q) == [q[0]] + (Forest(t, ch) + Forest(t, q[1..]));
    if !t[q[0]].active {
      InactiveForestAppend(t, q[1..], ch);
      var a := InactiveForest(t, ch);
      var b := InactiveForest(t, q[1..]);
      assert InactiveForest(t, q) == [q[0]] + (a + b);
      PixelsTriple(t, q[0], a, b);
    }
  }

  /** z lies below n on a path of inactive nodes: z and every node from z up to n
      is inactive. */
  predicate InactivePath(t: seq<Node>, root: int, n: int, z: int)
    requires Shaped(t, root) && 0 <= z < |t|
    decreases t[z].oriH - Low(t)
  {
    !t[z].active && (z == n || (z != root && (FatherBelow(t, root, z); InactivePath(t, root, n, t[z].father))))
  }

  lemma {:induction false} InactivePathAnc(t: seq<Node>, root: int, n: int, z: int)
    requires Shaped(t, root) && 0 <= z < |t| && InactivePath(t, root, n, z)
    ensures IsAnc(t, root, n, z)
    decreases t[z].oriH - Low(t)
  {
    if z != n {
      FatherBelow(t, root, z);
      InactivePathAnc(t, root, n, t[z].father);
    }
  }

  /** merge_pixelsFalseNodes' partner: the inactive part of the subtree of n is
      exactly the nodes reached from n through inactive nodes only. */
  lemma {:induction false} InactiveDescIff(t: seq<Node>, root: int, n: int, z: int)
    requires Shaped(t, root) && 0 <= n < |t| && 0 <= z < |t|
    ensures z in InactiveDesc(t, n) <==> InactivePath(t, root, n, z)
    decreases t[z].oriH - t[n].oriH + (Top(t) - Low(t)) + 1
  {
    if z == n {
    } else if z in InactiveDesc(t, n) {
      var i := InactiveMember(t, t[n].children, z);
      var c := t[n].children[i];
      assert t[c].father == n;
      InactiveDescIff(t, root, c, z);
      InactivePathAnc(t, root, c, z);
      DescIffAnc(t, root, c, z);
      InactiveInDesc(t, c, z);
      DescAbove(t, c, z);
      InactivePathTrans(t, root, n, c, z);
    } else if InactivePath(t, root, n, z) {
      FatherBelow(t, root, z);
      assert FatherOk(t, z);
      var f := t[z].father;
      InactivePathAnc(t, root, n, f);
      AncBelow(t, root, n, f);
      InactiveDescIff(t, root, n, f);
      InactiveChild(t, n, f, z);
    }
  }

  lemma {:induction false} InactiveMember(t: seq<Node>, q: seq<int>, y: int) returns (i: int)
    requires Nested(t) && AllNodes(t, q) && y in InactiveForest(t, q)
    ensures 0 <= i < |q| && y in InactiveDesc(t, q[i])
    decreases |q|
  {
    if y in InactiveDesc(t, q[0]) {
      i := 0;
    } else {
      var j := InactiveMember(t, q[1..], y);
      i := j + 1;
    }
  }

  lemma {:induction false} InactiveInForest(t: seq<Node>, q: seq<int>, i: int, y: int)
    requires Nested(t) && AllNodes(t, q) && 0 <= i < |q| && y in InactiveDesc(t, q[i])
    ensures y in InactiveForest(t, q)
    decreases |q|
  {
    if i > 0 {
      InactiveInForest(t, q[1..], i - 1, y);
    }
  }

  /** The inactive part of a subtree lies within the subtree. */
  lemma {:induction false} InactiveInDesc(t: seq<Node>, n: int, z: int)
    requires Nested(t) && 0 <= n < |t| && z in InactiveDesc(t, n)
    ensures z in Desc(t, n)
    decreases Top(t) - t[n].oriH
  {
    if z != n {
      var i := InactiveMember(t, t[n].children, z);
      InactiveInDesc(t, t[n].children[i], z);
      InForest(t, t[n].children, i, z);
    }
  }

  lemma {:induction false} InactivePathTrans(t: seq<Node>, root: int, n: int, c: int, z: int)
    requires Shaped(t, root) && 0 <= c < |t| && 0 <= z < |t| && 0 <= n < |t|
    requires c != root && t[c].father == n && !t[n].active && InactivePath(t, root, c, z)
    ensures InactivePath(t, root, n, z)
    decreases t[z].oriH - Low(t)
  {
    if z != c {
      FatherBelow(t, root, z);
      InactivePathTrans(t, root, n, c, t[z].father);
    }
  }

  lemma {:induction false} InactiveChild(t: seq<Node>, n: int, f: int, z: int)
    requires Nested(t) && 0 <= n < |t| && 0 <= f < |t| && 0 <= z < |t|
    requires f in InactiveDesc(t, n) && z in t[f].children && !t[z].active
    ensures z in InactiveDesc(t, n)
    decreases Top(t) - t[n].oriH
  {
    var k :| 0 <= k < |t[f].children| && t[f].children[k] == z;
    assert z in InactiveDesc(t, z);
    InactiveInForest(t, t[f].children, k, z);
    if f != n {
      var i := InactiveMember(t, t[n].children, f);
      InactiveChild(t, t[n].children[i], f, z);
      InactiveInForest(t, t[n].children, i, z);
    }
  }
}
