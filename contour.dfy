/** The contour-length attribute, computed on the padded grid the builder leaves
    behind: a cell counts toward the contour of every node whose component holds it
    and reaches a neighbour outside that component, that is a border cell or a cell
    below the node's level. */
module Contour {
  import opened Tree
  import opened Flooding

  /** The neighbour k of cell c is a border cell. */
  predicate Outside(s: Setup, status: seq<Status>, c: int, k: int)
    requires 0 <= k < |s.se| && 0 <= c + s.se[k] < |status|
  {
    status[c + s.se[k]] == BorderStatus
  }

  /** The neighbour k of cell c is an image cell strictly below c. */
  predicate Below(s: Setup, status: seq<Status>, c: int, k: int)
    requires |status| == |s.img| && 0 <= c < |status| && 0 <= k < |s.se| && 0 <= c + s.se[k] < |status|
  {
    status[c + s.se[k]] != BorderStatus && s.img[c] > s.img[c + s.se[k]]
  }

  /** Every neighbour of the image cell c is a cell of the padded grid. */
  predicate Neighboured(s: Setup, status: seq<Status>, c: int)
  {
    forall k | 0 <= k < |s.se| :: 0 <= c + s.se[k] < |status|
  }

  /** Cell c is a contour cell: some neighbour is border or below it. */
  predicate IsContour(s: Setup, status: seq<Status>, c: int)
    requires |status| == |s.img| && 0 <= c < |status| && Neighboured(s, status, c)
  {
    exists k | 0 <= k < |s.se| :: Outside(s, status, c, k) || Below(s, status, c, k)
  }

  /** Cell c touches the border. */
  predicate HitsBorder(s: Setup, status: seq<Status>, c: int)
    requires 0 <= c < |status| && Neighboured(s, status, c)
  {
    exists k | 0 <= k < |s.se| :: Outside(s, status, c, k)
  }

  /** The lowest level among the neighbours below c within the first k offsets, or
      the level of c when there is none. */
  function Lowest(s: Setup, status: seq<Status>, c: int, k: int): int
    requires |status| == |s.img| && 0 <= c < |status| && Neighboured(s, status, c) && 0 <= k <= |s.se|
  {
    if k == 0 then s.img[c]
    else
      var m := Lowest(s, status, c, k - 1);
      var q := c + s.se[k - 1];
      if Below(s, status, c, k - 1) && s.img[q] < m then s.img[q] else m
  }

  /** Lowest is a lower bound of the levels below c, and is attained by one of
      them unless there is none. */
  lemma {:induction false} LowestBounds(s: Setup, status: seq<Status>, c: int, k: int)
    requires |status| == |s.img| && 0 <= c < |status| && Neighboured(s, status, c) && 0 <= k <= |s.se|
    ensures Lowest(s, status, c, k) <= s.img[c]
    ensures forall j | 0 <= j < k && Below(s, status, c, j) :: Lowest(s, status, c, k) <= s.img[c + s.se[j]]
    ensures Lowest(s, status, c, k) == s.img[c] ||
            exists j | 0 <= j < k :: Below(s, status, c, j) && Lowest(s, status, c, k) == s.img[c + s.se[j]]
  {
    if k > 0 {
      LowestBounds(s, status, c, k - 1);
    }
  }

  /** What the flood leaves for this pass: every cell that is not border is
      labelled, the node of its level and label exists, and no such cell lies below
      the root. */
  predicate Ready(s: Setup, status: seq<Status>, index: map<(int, int), int>, t: seq<Node>, root: int)
  {
    Shaped(t, root) && |status| == |s.img| &&
    forall c | 0 <= c < |status| && status[c] != BorderStatus ::
      Neighboured(s, status, c) && status[c].Label? &&
      (s.img[c] - s.hMin, status[c].n) in index && 0 <= index[(s.img[c] - s.hMin, status[c].n)] < |t| &&
      t[root].h <= s.img[c]
  }

  /** Once every cell that is not border is labelled, the flooding leaves what this
      pass needs: each cell's neighbours lie in the grid, the index holds the node
      of each cell's level and label, that node stands at the cell's grey level,
      and no cell lies below the root. */
  lemma FloodReady(s: Setup, status: seq<Status>, hq: seq<seq<int>>, nn: seq<nat>, open: seq<bool>,
                   index: map<(int, int), int>, t: seq<Node>, pop: seq<int>, root: int)
    requires Flooded(s, status, hq, nn, open, index, t, pop) && Shaped(t, root) && t[root].oriH == s.hMin
    requires forall c | 0 <= c < |status| && status[c] != BorderStatus :: status[c].Label?
    ensures Ready(s, status, index, t, root)
    ensures forall c | 0 <= c < |status| && status[c] != BorderStatus ::
      t[NodeOf(s, status, index, t, root, c)].h == s.img[c]
  {
    assert OwnAt(s, t, root);
    forall c | 0 <= c < |status| && status[c] != BorderStatus
      ensures Neighboured(s, status, c) && status[c].Label? && t[root].h <= s.img[c]
      ensures (s.img[c] - s.hMin, status[c].n) in index && 0 <= index[(s.img[c] - s.hMin, status[c].n)] < |t|
      ensures t[index[(s.img[c] - s.hMin, status[c].n)]].h == s.img[c]
    {
      assert BorderAt(s, status, c) && InteriorAt(s, |hq|, c) && PlacedAt(s, status, index, t, c);
      var key := (s.img[c] - s.hMin, status[c].n);
      assert IndexedAt(s, index, t, key) && OwnAt(s, t, index[key]);
    }
  }

  /** The node of a labelled cell. */
  function NodeOf(s: Setup, status: seq<Status>, index: map<(int, int), int>, t: seq<Node>, root: int, c: int): (r: int)
    requires Ready(s, status, index, t, root) && 0 <= c < |status| && status[c] != BorderStatus
    ensures 0 <= r < |t|
  {
    index[(s.img[c] - s.hMin, status[c].n)]
  }

  /** The nodes a walk from n visits: with toRoot every node up to the root, else
      the nodes up to, not including, the first whose level is at most stop. */
  function Chain(t: seq<Node>, root: int, n: int, toRoot: bool, stop: int): (r: seq<int>)
    requires Shaped(t, root) && 0 <= n < |t|
    ensures forall i | 0 <= i < |r| :: 0 <= r[i] < |t| && t[r[i]].oriH <= t[n].oriH
    decreases t[n].oriH - Low(t)
  {
    if !toRoot && t[n].h <= stop then []
    else if n == root then [n]
    else
      FatherBelow(t, root, n);
      [n] + Chain(t, root, t[n].father, toRoot, stop)
  }

  /** On a tree whose levels are still the original ones, a walk visits exactly the
      ancestors of n, all of them with toRoot and else those above stop. */
  lemma {:induction false} ChainIsAncestors(t: seq<Node>, root: int, n: int, toRoot: bool, stop: int, y: int)
    requires Shaped(t, root) && 0 <= n < |t|
    requires forall z | 0 <= z < |t| :: t[z].h == t[z].oriH
    requires !toRoot ==> t[root].h <= stop
    ensures y in Chain(t, root, n, toRoot, stop) <==> 0 <= y < |t| && IsAnc(t, root, y, n) && (toRoot || t[y].h > stop)
    decreases t[n].oriH - Low(t)
  {
    if !toRoot && t[n].h <= stop {
      if 0 <= y < |t| && IsAnc(t, root, y, n) {
        AncBelow(t, root, y, n);
      }
    } else if n != root {
      FatherBelow(t, root, n);
      ChainIsAncestors(t, root, t[n].father, toRoot, stop, y);
    }
  }

  /** A walk reads only the links and levels of the arena. */
  lemma {:induction false} ChainFrame(t: seq<Node>, u: seq<Node>, root: int, n: int, toRoot: bool, stop: int)
    requires Shaped(t, root) && SameHeights(t, u) && 0 <= n < |t|
    ensures Shaped(u, root) && Chain(u, root, n, toRoot, stop) == Chain(t, root, n, toRoot, stop)
    decreases t[n].oriH - Low(t)
  {
    ShapedSameShape(t, u, root);
    if !(!toRoot && t[n].h <= stop) && n != root {
      FatherBelow(t, root, n);
      ChainFrame(t, u, root, t[n].father, toRoot, stop);
    }
  }

  /** The nodes of a walk, each strictly below the one before, are distinct. */
  lemma {:induction false} ChainDistinct(t: seq<Node>, root: int, n: int, toRoot: bool, stop: int)
    requires Shaped(t, root) && 0 <= n < |t|
    ensures Distinct(Chain(t, root, n, toRoot, stop))
    decreases t[n].oriH - Low(t)
  {
    var r := Chain(t, root, n, toRoot, stop);
    if r != [] && n != root {
      FatherBelow(t, root, n);
      var f := t[n].father;
      ChainDistinct(t, root, f, toRoot, stop);
      assert r == [n] + Chain(t, root, f, toRoot, stop);
      forall i, j | 0 <= i < j < |r|
        ensures r[i] != r[j]
      {
        if i == 0 {
          assert t[r[j]].oriH <= t[f].oriH;
        } else {
          assert r[i] == Chain(t, root, f, toRoot, stop)[i - 1];
          assert r[j] == Chain(t, root, f, toRoot, stop)[j - 1];
        }
      }
    }
  }

  /** Only the root is its own father. */
  lemma FatherNotSelf(t: seq<Node>, root: int, n: int)
    requires Shaped(t, root) && 0 <= n < |t|
    ensures n != root ==> t[n].father != n
  {
    if n != root {
      assert FatherOk(t, n);
    }
  }

  /** Node n after a walk passed it: one more contour cell, and with save the cell's
      original offset px appended to its border pixels. */
  function Bump(n: Node, px: int, save: bool): (r: Node)
    ensures r.contourLength == n.contourLength + 1
    ensures r.pixelsBorder == n.pixelsBorder + (if save then [px] else [])
    ensures r == n.(contourLength := r.contourLength, pixelsBorder := r.pixelsBorder)
  {
    n.(contourLength := n.contourLength + 1, pixelsBorder := if save then n.pixelsBorder + [px] else n.pixelsBorder)
  }

  /** The arena after a walk from n: the nodes visited are bumped, the rest kept. */
  predicate Walked(t: seq<Node>, u: seq<Node>, root: int, n: int, toRoot: bool, stop: int, px: int, save: bool)
    requires Shaped(t, root) && 0 <= n < |t|
  {
    |u| == |t| &&
    forall y | 0 <= y < |t| ::
      u[y] == if y in Chain(t, root, n, toRoot, stop) then Bump(t[y], px, save) else t[y]
  }

  /** Part way up a walk from n: the nodes done so far, all above tmp, are bumped,
      and the walk from tmp visits the rest. */
  predicate Climbing(t: seq<Node>, root: int, n: int, toRoot: bool, stop: int, px: int, save: bool,
                     tmp: int, done: seq<int>, u: seq<Node>)
    requires Shaped(t, root) && 0 <= n < |t|
  {
    0 <= tmp < |t| && |u| == |t| &&
    done + Chain(t, root, tmp, toRoot, stop) == Chain(t, root, n, toRoot, stop) &&
    (forall y | y in done :: 0 <= y < |t| && t[y].oriH > t[tmp].oriH) &&
    (forall y | 0 <= y < |t| :: u[y] == if y in done then Bump(t[y], px, save) else t[y])
  }

  /** Bumping tmp, below the root and still on the walk, and moving to its father. */
  lemma ClimbUp(t: seq<Node>, root: int, n: int, toRoot: bool, stop: int, px: int, save: bool,
                tmp: int, done: seq<int>, u: seq<Node>)
    requires Shaped(t, root) && 0 <= n < |t|
    requires Climbing(t, root, n, toRoot, stop, px, save, tmp, done, u)
    requires tmp != root && (toRoot || t[tmp].h > stop)
    ensures 0 <= t[tmp].father < |t| && t[t[tmp].father].oriH < t[tmp].oriH
    ensures Climbing(t, root, n, toRoot, stop, px, save, t[tmp].father, done + [tmp], u[tmp := Bump(u[tmp], px, save)])
  {
    FatherBelow(t, root, tmp);
    var f := t[tmp].father;
    assert Chain(t, root, tmp, toRoot, stop) == [tmp] + Chain(t, root, f, toRoot, stop);
    assert done + [tmp] + Chain(t, root, f, toRoot, stop) == done + Chain(t, root, tmp, toRoot, stop);
  }

  /** A walk whose remaining part is empty is complete. */
  lemma ClimbEnd(t: seq<Node>, root: int, n: int, toRoot: bool, stop: int, px: int, save: bool,
                 tmp: int, done: seq<int>, u: seq<Node>)
    requires Shaped(t, root) && 0 <= n < |t|
    requires Climbing(t, root, n, toRoot, stop, px, save, tmp, done, u)
    requires Chain(t, root, tmp, toRoot, stop) == []
    ensures Walked(t, u, root, n, toRoot, stop, px, save)
  {
    assert done + [] == done;
  }

  /** Bumping the root, the last node of a walk that reaches it. */
  lemma ClimbRoot(t: seq<Node>, root: int, n: int, toRoot: bool, stop: int, px: int, save: bool,
                  done: seq<int>, u: seq<Node>)
    requires Shaped(t, root) && 0 <= n < |t|
    requires Climbing(t, root, n, toRoot, stop, px, save, root, done, u)
    requires toRoot || t[root].h > stop
    ensures Walked(t, u[root := Bump(u[root], px, save)], root, n, toRoot, stop, px, save)
  {
    assert Chain(t, root, root, toRoot, stop) == [root];
    assert done + [root] == Chain(t, root, n, toRoot, stop);
  }

  /** The loop of computeContour for a cell without a border neighbour: up from n
      while the node's level is above stop. */
  method ClimbAbove(t: seq<Node>, root: int, n: int, stop: int, px: int, save: bool) returns (u: seq<Node>)
    requires Shaped(t, root) && 0 <= n < |t| && t[root].h <= stop
    ensures Walked(t, u, root, n, false, stop, px, save)
  {
    var tmp := n;
    ghost var done: seq<int> := [];
    u := t;
    while t[tmp].h > stop
      invariant Climbing(t, root, n, false, stop, px, save, tmp, done, u)
      decreases t[tmp].oriH - Low(t)
    {
      ClimbUp(t, root, n, false, stop, px, save, tmp, done, u);
      u, done, tmp := u[tmp := Bump(u[tmp], px, save)], done + [tmp], t[tmp].father;
    }
    ClimbEnd(t, root, n, false, stop, px, save, tmp, done, u);
  }

  /** The loop of computeContour for a cell with a border neighbour: every node
      from n up to the root. */
  method ClimbToRoot(t: seq<Node>, root: int, n: int, stop: int, px: int, save: bool) returns (u: seq<Node>)
    requires Shaped(t, root) && 0 <= n < |t|
    ensures Walked(t, u, root, n, true, stop, px, save)
  {
    var tmp := n;
    ghost var done: seq<int> := [];
    u := t;
    var finished := false;
    while !finished
      invariant 0 <= tmp < |t|
      invariant !finished ==> Climbing(t, root, n, true, stop, px, save, tmp, done, u)
      invariant finished ==> Walked(t, u, root, n, true, stop, px, save)
      decreases !finished, t[tmp].oriH - Low(t)
    {
      if tmp != t[tmp].father {
        FatherNotSelf(t, root, tmp);
        ClimbUp(t, root, n, true, stop, px, save, tmp, done, u);
        u, done, tmp := u[tmp := Bump(u[tmp], px, save)], done + [tmp], t[tmp].father;
      } else {
        FatherNotSelf(t, root, tmp);
        ClimbRoot(t, root, n, true, stop, px, save, done, u);
        u := u[tmp := Bump(u[tmp], px, save)];
        finished := true;
      }
    }
  }

  /** The inner loop of computeContour over the neighbourhood of an image cell c:
      whether c is a contour cell, whether it touches the border, and the lowest
      level below it. */
  method ScanCell(s: Setup, status: seq<Status>, c: int) returns (contour: bool, hitsBorder: bool, minValue: int)
    requires |status| == |s.img| && 0 <= c < |status| && Neighboured(s, status, c)
    ensures contour <==> IsContour(s, status, c)
    ensures hitsBorder <==> HitsBorder(s, status, c)
    ensures !hitsBorder ==> minValue == Lowest(s, status, c, |s.se|)
  {
    contour, hitsBorder, minValue := false, false, s.img[c];
    for k := 0 to |s.se|
      invariant contour <==> exists j | 0 <= j < k :: Outside(s, status, c, j) || Below(s, status, c, j)
      invariant hitsBorder <==> exists j | 0 <= j < k :: Outside(s, status, c, j)
      invariant !hitsBorder ==> minValue == Lowest(s, status, c, k)
    {
      var q := c + s.se[k];
      if status[q] != BorderStatus {
        if s.img[c] > s.img[q] {
          contour := true;
          if s.img[q] < minValue {
            minValue := s.img[q];
          }
        }
      } else {
        contour, hitsBorder, minValue := true, true, s.hMin;
      }
      assert Outside(s, status, c, k) <==> status[q] == BorderStatus;
      assert Below(s, status, c, k) <==> status[q] != BorderStatus && s.img[c] > s.img[q];
    }
  }

  /** The nodes cell c counts toward: none for a border or non-contour cell, else
      the walk computeContour makes from the cell's node. */
  function CellChain(s: Setup, status: seq<Status>, index: map<(int, int), int>, t: seq<Node>, root: int, c: int): (r: seq<int>)
    requires Ready(s, status, index, t, root) && 0 <= c < |status|
    ensures forall i | 0 <= i < |r| :: 0 <= r[i] < |t|
  {
    if status[c] == BorderStatus || !IsContour(s, status, c) then []
    else if HitsBorder(s, status, c) then Chain(t, root, NodeOf(s, status, index, t, root, c), true, s.hMin)
    else Chain(t, root, NodeOf(s, status, index, t, root, c), false, Lowest(s, status, c, |s.se|))
  }

  /** The original offsets of the cells before k that count toward node y. */
  function Hits(s: Setup, status: seq<Status>, index: map<(int, int), int>, t: seq<Node>, root: int, y: int, k: int): (r: seq<int>)
    requires Ready(s, status, index, t, root) && 0 <= k <= |status|
    ensures |r| <= k
  {
    if k == 0 then []
    else
      Hits(s, status, index, t, root, y, k - 1) +
      (if y in CellChain(s, status, index, t, root, k - 1) then [ImOffset(s.frame, k - 1)] else [])
  }

  lemma ReadyFrame(s: Setup, status: seq<Status>, index: map<(int, int), int>, t: seq<Node>, u: seq<Node>, root: int)
    requires Ready(s, status, index, t, root) && SameHeights(t, u)
    ensures Ready(s, status, index, u, root)
  {
    ShapedSameShape(t, u, root);
  }

  /** Which nodes a cell counts toward reads only the links and the current levels
      of the arena. */
  lemma CellChainFrame(s: Setup, status: seq<Status>, index: map<(int, int), int>, t: seq<Node>, u: seq<Node>,
                       root: int, c: int)
    requires Ready(s, status, index, t, root) && SameHeights(t, u) && 0 <= c < |status|
    ensures Ready(s, status, index, u, root)
    ensures CellChain(s, status, index, u, root, c) == CellChain(s, status, index, t, root, c)
  {
    ReadyFrame(s, status, index, t, u, root);
    if status[c] != BorderStatus && IsContour(s, status, c) {
      var n := NodeOf(s, status, index, t, root, c);
      var hb := HitsBorder(s, status, c);
      ChainFrame(t, u, root, n, hb, if hb then s.hMin else Lowest(s, status, c, |s.se|));
    }
  }

  /** The counting reads only the links and the current levels of the arena. */
  lemma {:induction false} HitsFrame(s: Setup, status: seq<Status>, index: map<(int, int), int>, t: seq<Node>, u: seq<Node>,
                                     root: int, y: int, k: int)
    requires Ready(s, status, index, t, root) && SameHeights(t, u) && 0 <= k <= |status|
    ensures Ready(s, status, index, u, root)
    ensures Hits(s, status, index, u, root, y, k) == Hits(s, status, index, t, root, y, k)
    decreases k
  {
    ReadyFrame(s, status, index, t, u, root);
    if k > 0 {
      HitsFrame(s, status, index, t, u, root, y, k - 1);
      CellChainFrame(s, status, index, t, u, root, k - 1);
    }
  }

  /** Node y after counting the cells hits toward it. */
  function Counted(n: Node, hits: seq<int>, save: bool): Node
  {
    n.(contourLength := n.contourLength + |hits|, pixelsBorder := n.pixelsBorder + (if save then hits else []))
  }

  lemma BumpCounted(n: Node, hits: seq<int>, px: int, save: bool)
    ensures Bump(Counted(n, hits, save), px, save) == Counted(n, hits + [px], save)
  {
  }

  /** After the cells before k: every node has counted exactly the cells before k
      that count toward it. */
  predicate Counts(s: Setup, status: seq<Status>, index: map<(int, int), int>, t: seq<Node>, root: int,
                   save: bool, u: seq<Node>, k: int)
    requires Ready(s, status, index, t, root) && 0 <= k <= |status|
  {
    |u| == |t| && forall y | 0 <= y < |t| :: u[y] == Counted(t[y], Hits(s, status, index, t, root, y, k), save)
  }

  lemma CountedShape(s: Setup, status: seq<Status>, index: map<(int, int), int>, t: seq<Node>, root: int,
                     save: bool, u: seq<Node>, k: int)
    requires Ready(s, status, index, t, root) && 0 <= k <= |status|
    requires Counts(s, status, index, t, root, save, u, k)
    ensures SameHeights(t, u) && Shaped(u, root)
  {
    assert SameHeights(t, u);
    ShapedSameShape(t, u, root);
  }

  /** A cell that counts toward no node changes nothing. */
  lemma CountSkip(s: Setup, status: seq<Status>, index: map<(int, int), int>, t: seq<Node>, root: int,
                  save: bool, u: seq<Node>, c: int)
    requires Ready(s, status, index, t, root) && 0 <= c < |status|
    requires Counts(s, status, index, t, root, save, u, c)
    requires CellChain(s, status, index, t, root, c) == []
    ensures Counts(s, status, index, t, root, save, u, c + 1)
  {
    forall y | 0 <= y < |t|
      ensures u[y] == Counted(t[y], Hits(s, status, index, t, root, y, c + 1), save)
    {
      assert Hits(s, status, index, t, root, y, c + 1) == Hits(s, status, index, t, root, y, c) + [];
    }
  }

  /** A walk from the cell's node bumps exactly the nodes the cell counts toward. */
  lemma CountWalk(s: Setup, status: seq<Status>, index: map<(int, int), int>, t: seq<Node>, root: int,
                  save: bool, u: seq<Node>, c: int, n: int, toRoot: bool, stop: int, w: seq<Node>)
    requires Ready(s, status, index, t, root) && 0 <= c < |status| && 0 <= n < |t|
    requires Counts(s, status, index, t, root, save, u, c) && SameHeights(t, u) && Shaped(u, root)
    requires CellChain(s, status, index, t, root, c) == Chain(t, root, n, toRoot, stop)
    requires Walked(u, w, root, n, toRoot, stop, ImOffset(s.frame, c), save)
    ensures Counts(s, status, index, t, root, save, w, c + 1)
  {
    ChainFrame(t, u, root, n, toRoot, stop);
    var cells := CellChain(s, status, index, t, root, c);
    forall y | 0 <= y < |t|
      ensures w[y] == Counted(t[y], Hits(s, status, index, t, root, y, c + 1), save)
    {
      assert u[y] == Counted(t[y], Hits(s, status, index, t, root, y, c), save);
      assert w[y] == if y in cells then Bump(u[y], ImOffset(s.frame, c), save) else u[y];
      CountAt(s, status, index, t, root, save, u[y], c, y, w[y]);
    }
  }

  /** The same step for one node y, whose state before cell c is x. */
  lemma CountAt(s: Setup, status: seq<Status>, index: map<(int, int), int>, t: seq<Node>, root: int,
                save: bool, x: Node, c: int, y: int, z: Node)
    requires Ready(s, status, index, t, root) && 0 <= c < |status| && 0 <= y < |t|
    requires x == Counted(t[y], Hits(s, status, index, t, root, y, c), save)
    requires z == if y in CellChain(s, status, index, t, root, c) then Bump(x, ImOffset(s.frame, c), save) else x
    ensures z == Counted(t[y], Hits(s, status, index, t, root, y, c + 1), save)
  {
    var h := Hits(s, status, index, t, root, y, c);
    if y in CellChain(s, status, index, t, root, c) {
      BumpCounted(t[y], h, ImOffset(s.frame, c), save);
    } else {
      assert h + [] == h;
    }
  }

  /** The walk computeContour makes for a contour cell c, with the results of the
      scan of its neighbourhood; a walk that stops above a level never passes the
      root. */
  lemma CellWalk(s: Setup, status: seq<Status>, index: map<(int, int), int>, t: seq<Node>, root: int,
                 c: int, hitsBorder: bool, minValue: int)
    requires Ready(s, status, index, t, root) && 0 <= c < |status|
    requires status[c] != BorderStatus && IsContour(s, status, c)
    requires hitsBorder <==> HitsBorder(s, status, c)
    requires !hitsBorder ==> minValue == Lowest(s, status, c, |s.se|)
    ensures CellChain(s, status, index, t, root, c) ==
            Chain(t, root, NodeOf(s, status, index, t, root, c), hitsBorder, if hitsBorder then s.hMin else minValue)
    ensures !hitsBorder ==> t[root].h <= minValue
  {
    if !hitsBorder {
      LowestBounds(s, status, c, |s.se|);
      if minValue != s.img[c] {
        var j :| 0 <= j < |s.se| && Below(s, status, c, j) && minValue == s.img[c + s.se[j]];
        assert status[c + s.se[j]] != BorderStatus;
      }
    }
  }

  /** One cell of computeContour on the arena u: nothing for a border cell. */
  method ContourCell(s: Setup, status: seq<Status>, index: map<(int, int), int>, t: seq<Node>, root: int,
                     save: bool, u: seq<Node>, c: int) returns (w: seq<Node>)
    requires Ready(s, status, index, t, root) && 0 <= c < |status|
    requires Counts(s, status, index, t, root, save, u, c)
    ensures Counts(s, status, index, t, root, save, w, c + 1)
  {
    if status[c] != BorderStatus {
      w := ScanAndWalk(s, status, index, t, root, save, u, c);
    } else {
      CountSkip(s, status, index, t, root, save, u, c);
      w := u;
    }
  }

  /** An image cell: scan its neighbourhood, and walk up if it is a contour cell. */
  method ScanAndWalk(s: Setup, status: seq<Status>, index: map<(int, int), int>, t: seq<Node>, root: int,
                     save: bool, u: seq<Node>, c: int) returns (w: seq<Node>)
    requires Ready(s, status, index, t, root) && 0 <= c < |status| && status[c] != BorderStatus
    requires Counts(s, status, index, t, root, save, u, c)
    ensures Counts(s, status, index, t, root, save, w, c + 1)
  {
    var contour, hitsBorder, minValue := ScanCell(s, status, c);
    if contour {
      w := ContourWalk(s, status, index, t, root, save, u, c, hitsBorder, minValue);
    } else {
      CountSkip(s, status, index, t, root, save, u, c);
      w := u;
    }
  }

  /** A contour cell: the walk from the node of its level and label, to the root
      when it touches the border, else while the level is above the lowest level
      below the cell. */
  method ContourWalk(s: Setup, status: seq<Status>, index: map<(int, int), int>, t: seq<Node>, root: int,
                     save: bool, u: seq<Node>, c: int, hitsBorder: bool, minValue: int) returns (w: seq<Node>)
    requires Ready(s, status, index, t, root) && 0 <= c < |status|
    requires status[c] != BorderStatus && IsContour(s, status, c)
    requires hitsBorder <==> HitsBorder(s, status, c)
    requires !hitsBorder ==> minValue == Lowest(s, status, c, |s.se|)
    requires Counts(s, status, index, t, root, save, u, c)
    ensures Counts(s, status, index, t, root, save, w, c + 1)
  {
    var n := NodeOf(s, status, index, t, root, c);
    var stop := if hitsBorder then s.hMin else minValue;
    CellWalk(s, status, index, t, root, c, hitsBorder, minValue);
    w := WalkCell(s, status, index, t, root, save, u, c, n, hitsBorder, stop);
  }

  /** The walk of a contour cell from node n, the node of its level and label. */
  method WalkCell(s: Setup, status: seq<Status>, index: map<(int, int), int>, t: seq<Node>, root: int,
                  save: bool, u: seq<Node>, c: int, n: int, toRoot: bool, stop: int) returns (w: seq<Node>)
    requires Ready(s, status, index, t, root) && 0 <= c < |status| && 0 <= n < |t|
    requires Counts(s, status, index, t, root, save, u, c)
    requires CellChain(s, status, index, t, root, c) == Chain(t, root, n, toRoot, stop)
    requires !toRoot ==> t[root].h <= stop
    ensures Counts(s, status, index, t, root, save, w, c + 1)
  {
    CountedShape(s, status, index, t, root, save, u, c);
    if !toRoot {
      w := ClimbAbove(u, root, n, stop, ImOffset(s.frame, c), save);
    } else {
      w := ClimbToRoot(u, root, n, stop, ImOffset(s.frame, c), save);
    }
    CountWalk(s, status, index, t, root, save, u, c, n, toRoot, stop, w);
  }

  /** computeContour: every cell of the padded grid in offset order; each node ends
      with one more contour cell, and with save that cell's original offset, for
      every cell that counts toward it. */
  method ComputeContour(s: Setup, status: seq<Status>, index: map<(int, int), int>, t: seq<Node>, root: int,
                        save: bool) returns (u: seq<Node>)
    requires Ready(s, status, index, t, root)
    ensures |u| == |t|
    ensures forall y | 0 <= y < |t| :: u[y] == Counted(t[y], Hits(s, status, index, t, root, y, |status|), save)
  {
    u := t;
    for c := 0 to |status|
      invariant Counts(s, status, index, t, root, save, u, c)
    {
      u := ContourCell(s, status, index, t, root, save, u, c);
    }
  }

  /** What the count means: on a tree whose levels are the original ones and whose
      labelled cells sit at their node's level, cell c counts toward node y exactly
      when c lies in the component of y and has a neighbour outside it, a border
      cell or a cell below the level of y. */
  lemma CellChainMeaning(s: Setup, status: seq<Status>, index: map<(int, int), int>, t: seq<Node>, root: int, c: int, y: int)
    requires Ready(s, status, index, t, root) && 0 <= c < |status|
    requires forall z | 0 <= z < |t| :: t[z].h == t[z].oriH
    requires status[c] != BorderStatus ==> t[NodeOf(s, status, index, t, root, c)].h == s.img[c]
    ensures y in CellChain(s, status, index, t, root, c) <==>
      status[c] != BorderStatus && 0 <= y < |t| && IsAnc(t, root, y, NodeOf(s, status, index, t, root, c)) &&
      (HitsBorder(s, status, c) || exists k | 0 <= k < |s.se| :: Below(s, status, c, k) && s.img[c + s.se[k]] < t[y].h)
  {
    if status[c] != BorderStatus {
      var n := NodeOf(s, status, index, t, root, c);
      LowestBounds(s, status, c, |s.se|);
      var low := Lowest(s, status, c, |s.se|);
      if HitsBorder(s, status, c) {
        ChainIsAncestors(t, root, n, true, s.hMin, y);
      } else {
        if IsContour(s, status, c) {
          ChainIsAncestors(t, root, n, false, low, y);
        }
        if 0 <= y < |t| && IsAnc(t, root, y, n) {
          AncBelow(t, root, y, n);
          if t[y].h > low {
            var j :| 0 <= j < |s.se| && Below(s, status, c, j) && low == s.img[c + s.se[j]];
          }
        }
      }
    }
  }
}
