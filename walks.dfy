/** The walks over a component tree that only read it: gathering the pixels of
    a subtree, testing whether a structuring element fits a component, and the
    pixel-painting steps of the reconstructions. */
module Walks {
  import opened Tree
  import opened Queries
  import opened Reconstruction

  /** y is the node owning pixel p, or y is -1 and no node owns p. */
  ghost predicate Owner(t: seq<Node>, p: int, y: int)
  {
    (y == -1 && forall z | 0 <= z < |t| :: p !in t[z].pixels) ||
    (0 <= y < |t| && p in t[y].pixels)
  }

  /** The same, counting only the nodes of done as owners. */
  ghost predicate Indexed(t: seq<Node>, done: set<int>, p: int, y: int)
  {
    (y == -1 && forall z | z in done && 0 <= z < |t| :: p !in t[z].pixels) ||
    (y in done && 0 <= y < |t| && p in t[y].pixels)
  }

  lemma IndexedStep(t: seq<Node>, done: set<int>, n: int, before: seq<int>, index: seq<int>)
    requires 0 <= n < |t| && |before| == |index| && OwnersUnique(t)
    requires forall y | y in done :: 0 <= y < |t|
    requires forall p | 0 <= p < |before| :: Indexed(t, done, p, before[p])
    requires forall p | 0 <= p < |index| :: if p in t[n].pixels then index[p] == n else index[p] == before[p]
    ensures forall p | 0 <= p < |index| :: Indexed(t, done + {n}, p, index[p])
  {
    forall p | 0 <= p < |index|
      ensures Indexed(t, done + {n}, p, index[p])
    {
      assert Indexed(t, done, p, before[p]);
    }
  }

  /** Appends the elements of xs one by one (the push_back loops of the walks). */
  method AppendAll(res: seq<int>, xs: seq<int>) returns (r: seq<int>)
    ensures r == res + xs
  {
    r := res;
    for i := 0 to |xs|
      invariant r == res + xs[..i]
    {
      r := r + [xs[i]];
    }
    assert xs[..|xs|] == xs;
  }

  /** res.fill(v). */
  method Fill(res: array<int>, v: int)
    modifies res
    ensures forall p | 0 <= p < res.Length :: res[p] == v
  {
    for p := 0 to res.Length
      invariant forall q | 0 <= q < p :: res[q] == v
    {
      res[p] := v;
    }
  }

  /** Writes v at each offset of ps (the pixel-painting loops). */
  method Paint(res: array<int>, ps: seq<int>, v: int)
    requires forall i | 0 <= i < |ps| :: 0 <= ps[i] < res.Length
    modifies res
    ensures forall p | 0 <= p < res.Length :: res[p] == if p in ps then v else old(res[p])
  {
    for i := 0 to |ps|
      invariant forall p | 0 <= p < res.Length :: res[p] == if p in ps[..i] then v else old(res[p])
    {
      assert ps[..i + 1] == ps[..i] + [ps[i]];
      res[ps[i]] := v;
    }
    assert ps[..|ps|] == ps;
  }

  /** The structuring element se, shifted to p, lies inside pixels. */
  predicate Fits(se: seq<int>, pixels: seq<int>, p: int)
  {
    forall k | 0 <= k < |se| :: p + se[k] in pixels
  }

  /** isInclude: does the structuring element, given by its relative offsets, fit
      inside the component at one of its pixels?  An element with more points than
      the component has pixels is refused outright. */
  method IsInclude(se: seq<int>, pixels: seq<int>) returns (r: bool)
    ensures r <==> |se| <= |pixels| && exists i | 0 <= i < |pixels| :: Fits(se, pixels, pixels[i])
  {
    if |se| > |pixels| {
      return false;
    }
    var i := 0;
    while i < |pixels|
      invariant 0 <= i <= |pixels|
      invariant forall i' | 0 <= i' < i :: !Fits(se, pixels, pixels[i'])
    {
      var inside := FitsAt(se, pixels, pixels[i]);
      if inside {
        return true;
      }
      i := i + 1;
    }
    return false;
  }

  /** isInclude's partner: the size guard never changes the answer for an element
      whose offsets are distinct, since such an element can only fit inside a
      component with at least as many pixels. */
  lemma FitsNeedsRoom(se: seq<int>, pixels: seq<int>, p: int)
    requires Distinct(se) && Fits(se, pixels, p)
    ensures |se| <= |pixels|
  {
    var shifted := seq(|se|, k requires 0 <= k < |se| => p + se[k]);
    assert Distinct(shifted);
    DistinctWithin(shifted, pixels);
  }

  /** Where v first occurs in b. */
  function IndexOf(b: seq<int>, v: int): (j: int)
    requires v in b
    ensures 0 <= j < |b| && b[j] == v
  {
    if b[0] == v then 0 else 1 + IndexOf(b[1..], v)
  }

  /** Distinct values all found in b are no more than b's length. */
  lemma {:induction false} DistinctWithin(s: seq<int>, b: seq<int>)
    requires Distinct(s) && forall i | 0 <= i < |s| :: s[i] in b
    ensures |s| <= |b|
    decreases |s|
  {
    if s != [] {
      var j := IndexOf(b, s[0]);
      var b' := b[..j] + b[j + 1..];
      forall i | 0 <= i < |s[1..]|
        ensures s[1..][i] in b'
      {
        assert s[i + 1] != s[0];
        var m := IndexOf(b, s[i + 1]);
        if m < j {
          assert b'[m] == b[m];
        } else {
          assert b'[m - 1] == b[m];
        }
      }
      DistinctWithin(s[1..], b');
    }
  }

  /** The middle loop of isInclude: every point of se, shifted to p, is a pixel. */
  method FitsAt(se: seq<int>, pixels: seq<int>, p: int) returns (inside: bool)
    ensures inside <==> Fits(se, pixels, p)
  {
    inside := true;
    var k := 0;
    while k < |se|
      invariant 0 <= k <= |se|
      invariant inside ==> forall k' | 0 <= k' < k :: p + se[k'] in pixels
      invariant !inside ==> !Fits(se, pixels, p)
      decreases |se| - k, inside
    {
      var found := Contains(pixels, se[k] + p);
      if !found {
        inside := false;
        break;
      }
      k := k + 1;
    }
  }

  /** The inner loop of isInclude: a linear search of pixels for q. */
  method Contains(pixels: seq<int>, q: int) returns (found: bool)
    ensures found <==> q in pixels
  {
    var j := 0;
    while j < |pixels| && pixels[j] != q
      invariant 0 <= j <= |pixels| && q !in pixels[..j]
    {
      j := j + 1;
    }
    assert j == |pixels| ==> pixels[..j] == pixels;
    found := j < |pixels|;
  }

  /** A multiset identity used by the pixel-gathering walks: moving the pixels of
      the popped node from the pending part to the result keeps the total. */
  lemma MoveToResult(res: seq<int>, own: seq<int>, pending: multiset<int>, rest: multiset<int>, total: multiset<int>)
    requires multiset(res) + pending == total && pending == multiset(own) + rest
    ensures multiset(res + own) + rest == total
  {
  }

  /** The inner loop of indexedNodes: records n as the owner of each of its pixels. */
  method IndexPixels(index: seq<int>, pixels: seq<int>, n: int) returns (r: seq<int>)
    requires forall i | 0 <= i < |pixels| :: 0 <= pixels[i] < |index|
    ensures |r| == |index|
    ensures forall p | 0 <= p < |index| :: if p in pixels then r[p] == n else r[p] == index[p]
  {
    r := index;
    var i := 0;
    while i < |pixels|
      invariant 0 <= i <= |pixels| && |r| == |index|
      invariant forall p | 0 <= p < |index| :: if p in pixels[..i] then r[p] == n else r[p] == index[p]
    {
      assert pixels[..i + 1] == pixels[..i] + [pixels[i]];
      r := r[pixels[i] := n];
      i := i + 1;
    }
    assert pixels[..i] == pixels;
  }

  /** What painting the subtree of node by val leaves: the pixels of the nodes
      below node hold their value, the pixels outside the subtree are untouched. */
  lemma SubtreePainted(t: seq<Node>, root: int, node: int, val: int -> int, r: seq<int>, r0: seq<int>)
    requires Shaped(t, root) && 0 <= node < |t| && PixelsIn(t, |r|)
    requires PaintedBy(t, (set z | z in Desc(t, node)), val, r, r0)
    ensures forall y, i | 0 <= y < |t| && IsAnc(t, root, node, y) && 0 <= i < |t[y].pixels| ::
      r[t[y].pixels[i]] == val(y)
    ensures forall p | 0 <= p < |r| && p !in PixelsOf(t, Desc(t, node)) :: r[p] == r0[p]
  {
    forall y, i | 0 <= y < |t| && IsAnc(t, root, node, y) && 0 <= i < |t[y].pixels|
      ensures r[t[y].pixels[i]] == val(y)
    {
      DescIffAnc(t, root, node, y);
    }
    forall p | 0 <= p < |r| && p !in PixelsOf(t, Desc(t, node))
      ensures r[p] == r0[p]
    {
      PixelsOfMember(t, Desc(t, node), p);
      forall y | y in Desc(t, node) && 0 <= y < |t|
        ensures p !in t[y].pixels
      {
        var k :| 0 <= k < |Desc(t, node)| && Desc(t, node)[k] == y;
      }
    }
  }

  /** Pixels of nodes of an arena whose pixels lie in [0, n) lie in [0, n). */
  lemma PixelsOfBound(t: seq<Node>, s: seq<int>, n: nat)
    requires PixelsIn(t, n) && AllNodes(t, s)
    ensures forall i | 0 <= i < |PixelsOf(t, s)| :: 0 <= PixelsOf(t, s)[i] < n
  {
    forall i | 0 <= i < |PixelsOf(t, s)|
      ensures 0 <= PixelsOf(t, s)[i] < n
    {
      var p := PixelsOf(t, s)[i];
      PixelsOfMember(t, s, p);
    }
  }

  /** Two sequences holding the same multiset have the same elements. */
  lemma SameElements(a: seq<int>, b: seq<int>, n: nat)
    requires multiset(a) == multiset(b) && forall i | 0 <= i < |b| :: 0 <= b[i] < n
    ensures forall i | 0 <= i < |a| :: 0 <= a[i] < n
    ensures forall p :: p in a <==> p in b
  {
    forall p
      ensures p in a <==> p in b
    {
      assert p in a <==> p in multiset(a);
      assert p in b <==> p in multiset(b);
    }
    forall i | 0 <= i < |a|
      ensures 0 <= a[i] < n
    {
      assert a[i] in b;
    }
  }

  lemma ChildActivePath(t: seq<Node>, root: int, f: int, c: int)
    requires Shaped(t, root) && 0 <= f < |t| && c in t[f].children && ActivePath(t, root, f)
    requires 0 <= c < |t| && t[c].active
    ensures ActivePath(t, root, c)
  {
    assert t[c].father == f;
    DescAbove(t, f, f);
  }

  /** Every node below the inactive child c of tmp gets tmp's level by the MIN rule. */
  lemma CutValues(t: seq<Node>, root: int, tmp: int, c: int, val: int -> int)
    requires Shaped(t, root) && 0 <= tmp < |t| && 0 <= c < |t| && c in t[tmp].children && !t[c].active
    requires ActivePath(t, root, tmp) && forall y | 0 <= y < |t| :: val(y) == MinValue(t, root, y)
    ensures forall j | 0 <= j < |Desc(t, c)| :: val(Desc(t, c)[j]) == t[tmp].h
  {
    forall j | 0 <= j < |Desc(t, c)|
      ensures val(Desc(t, c)[j]) == t[tmp].h
    {
      var z := Desc(t, c)[j];
      DescIffAnc(t, root, c, z);
      MinBelowCut(t, root, tmp, c, z);
    }
  }

  /* ---- Gathering the pixels of a subtree ---- */

  /** merge_pixels, second overload: appends to init the pixels of the subtree of
      n, gathered breadth-first. */
  method MergePixelsInto(t: seq<Node>, n: int, init: seq<int>) returns (res: seq<int>)
    requires Nested(t) && 0 <= n < |t|
    ensures |init| <= |res| && res[..|init|] == init
    ensures multiset(res) == multiset(init) + multiset(PixelsOf(t, Desc(t, n)))
  {
    ghost var total := multiset(init) + multiset(PixelsOf(t, Desc(t, n)));
    res := init;
    var fifo := [n];
    assert Forest(t, fifo) == Desc(t, n) + Forest(t, fifo[1..]);
    assert Forest(t, fifo) == Desc(t, n);
    while fifo != []
      invariant Nested(t) && AllNodes(t, fifo) && |init| <= |res| && res[..|init|] == init
      invariant multiset(res) + multiset(PixelsOf(t, Forest(t, fifo))) == total
      decreases |Forest(t, fifo)|
    {
      var tmp := fifo[0];
      PixelsPop(t, fifo);
      var next := fifo[1..] + t[tmp].children;
      MoveToResult(res, t[tmp].pixels, multiset(PixelsOf(t, Forest(t, fifo))),
        multiset(PixelsOf(t, Forest(t, next))), total);
      res := AppendAll(res, t[tmp].pixels);
      fifo := next;
    }
  }

  /** merge_pixels, first overload: the pixels of the subtree of n. */
  method MergePixels(t: seq<Node>, n: int) returns (res: seq<int>)
    requires Nested(t) && 0 <= n < |t|
    ensures multiset(res) == multiset(PixelsOf(t, Desc(t, n)))
  {
    res := MergePixelsInto(t, n, []);
  }

  /** merge_pixelsFalseNodes: the pixels of the inactive part of the subtree of n;
      the walk does not go below an active node, and gives nothing when n itself
      is active. */
  method MergePixelsFalseNodes(t: seq<Node>, n: int) returns (res: seq<int>)
    requires Nested(t) && 0 <= n < |t|
    ensures multiset(res) == multiset(PixelsOf(t, InactiveDesc(t, n)))
  {
    ghost var total := multiset(PixelsOf(t, InactiveDesc(t, n)));
    res := [];
    var fifo := [n];
    assert InactiveForest(t, fifo) == InactiveDesc(t, n) + InactiveForest(t, fifo[1..]);
    assert InactiveForest(t, fifo) == InactiveDesc(t, n);
    while fifo != []
      invariant Nested(t) && AllNodes(t, fifo)
      invariant multiset(res) + multiset(PixelsOf(t, InactiveForest(t, fifo))) == total
      decreases |Forest(t, fifo)|
    {
      var tmp := fifo[0];
      InactivePop(t, fifo);
      if !t[tmp].active {
        var next := fifo[1..] + t[tmp].children;
        MoveToResult(res, t[tmp].pixels, multiset(PixelsOf(t, InactiveForest(t, fifo))),
          multiset(PixelsOf(t, InactiveForest(t, next))), total);
        res := AppendAll(res, t[tmp].pixels);
        fifo := next;
      } else {
        fifo := fifo[1..];
      }
    }
  }

  /** The child loop of constructImageMin for the popped node tmp: an inactive
      child has its whole subtree painted with tmp's level, an active one is
      queued. */
  method MinChildren(t: seq<Node>, root: int, res: array<int>, tmp: int, rest: seq<int>, ghost done: set<int>, ghost val: int -> int,
                     ghost r0: seq<int>) returns (fifo: seq<int>, ghost done': set<int>)
    requires Shaped(t, root) && PixelsIn(t, res.Length) && OwnersUnique(t) && 0 <= tmp < |t|
    requires ActivePath(t, root, tmp) && forall y | 0 <= y < |t| :: val(y) == MinValue(t, root, y)
    requires Covering(t, root, done, rest, t[tmp].children)
    requires forall k | 0 <= k < |rest| :: ActivePath(t, root, rest[k])
    requires PaintedBy(t, done, val, res[..], r0)
    modifies res
    ensures Visiting(t, root, done', fifo)
    ensures forall k | 0 <= k < |fifo| :: ActivePath(t, root, fifo[k])
    ensures PaintedBy(t, done', val, res[..], r0)
    ensures |Forest(t, fifo)| <= |Forest(t, rest)| + |Forest(t, t[tmp].children)|
  {
    var ch := t[tmp].children;
    fifo := rest;
    done' := done;
    var k := 0;
    while k < |ch|
      invariant 0 <= k <= |ch| && Covering(t, root, done', fifo, ch[k..])
      invariant forall j | 0 <= j < |fifo| :: ActivePath(t, root, fifo[j])
      invariant PaintedBy(t, done', val, res[..], r0)
      invariant |Forest(t, fifo)| + |Forest(t, ch[k..])| <= |Forest(t, rest)| + |Forest(t, ch)|
    {
      assert ch[k..][0] == ch[k] && ch[k..][1..] == ch[k + 1..];
      fifo, done' := MinChild(t, root, res, tmp, ch[k..], fifo, done', val, r0);
      k := k + 1;
    }
    assert Forest(t, ch[k..]) == [];
  }

  /** One step of the child loop of constructImageMin, on the first of the
      children cs of tmp not yet handled. */
  method MinChild(t: seq<Node>, root: int, res: array<int>, tmp: int, cs: seq<int>, fifo: seq<int>, ghost done: set<int>,
                  ghost val: int -> int, ghost r0: seq<int>) returns (fifo': seq<int>, ghost done': set<int>)
    requires Shaped(t, root) && PixelsIn(t, res.Length) && OwnersUnique(t) && 0 <= tmp < |t|
    requires ActivePath(t, root, tmp) && forall y | 0 <= y < |t| :: val(y) == MinValue(t, root, y)
    requires cs != [] && cs[0] in t[tmp].children && Covering(t, root, done, fifo, cs)
    requires forall k | 0 <= k < |fifo| :: ActivePath(t, root, fifo[k])
    requires PaintedBy(t, done, val, res[..], r0)
    modifies res
    ensures Covering(t, root, done', fifo', cs[1..])
    ensures forall k | 0 <= k < |fifo'| :: ActivePath(t, root, fifo'[k])
    ensures PaintedBy(t, done', val, res[..], r0)
    ensures |Forest(t, fifo')| + |Forest(t, cs[1..])| <= |Forest(t, fifo)| + |Forest(t, cs)|
  {
    var c := cs[0];
    if !t[c].active {
      CoverTake(t, root, done, fifo, cs);
      fifo' := fifo;
      done' := PaintCut(t, root, res, tmp, c, done, val, r0);
    } else {
      CoverQueue(t, root, done, fifo, cs);
      ChildActivePath(t, root, tmp, c);
      fifo' := fifo + [c];
      done' := done;
    }
  }

  /** An inactive child c of tmp: the pixels merge_pixels gathers from its
      subtree are painted with tmp's level. */
  method PaintCut(t: seq<Node>, root: int, res: array<int>, tmp: int, c: int, ghost done: set<int>, ghost val: int -> int,
                  ghost r0: seq<int>) returns (ghost done': set<int>)
    requires Shaped(t, root) && PixelsIn(t, res.Length) && OwnersUnique(t) && 0 <= tmp < |t| && 0 <= c < |t|
    requires ActivePath(t, root, tmp) && c in t[tmp].children && !t[c].active
    requires forall y | 0 <= y < |t| :: val(y) == MinValue(t, root, y)
    requires PaintedBy(t, done, val, res[..], r0)
    modifies res
    ensures done' == done + set z | z in Desc(t, c)
    ensures PaintedBy(t, done', val, res[..], r0)
  {
    var sub := MergePixels(t, c);
    PixelsOfBound(t, Desc(t, c), res.Length);
    SameElements(sub, PixelsOf(t, Desc(t, c)), res.Length);
    ghost var before := res[..];
    Paint(res, sub, t[tmp].h);
    CutValues(t, root, tmp, c, val);
    PaintMany(t, done, val, before, res[..], r0, Desc(t, c), t[tmp].h);
    done' := done + (set j | 0 <= j < |Desc(t, c)| :: Desc(t, c)[j]);
    assert (set j | 0 <= j < |Desc(t, c)| :: Desc(t, c)[j]) == set z | z in Desc(t, c);
  }

  /* ---- The DIRECT reconstruction ---- */

  /** The state of the first loop of constructImageDirectExpe: the nodes above
      every active node met so far, the queue of nodes with no active node
      above them, and the first active nodes found. */
  ghost predicate TopWalk(t: seq<Node>, root: int, above: set<int>, fifo: seq<int>, tops: seq<int>)
    requires Shaped(t, root)
  {
    AllNodes(t, fifo) && AllNodes(t, tops) &&
    (forall k | 0 <= k < |fifo| :: NoActiveAbove(t, root, fifo[k])) &&
    (forall k | 0 <= k < |tops| :: t[tops[k]].active && NoActiveAbove(t, root, tops[k])) &&
    (forall z | z in above :: 0 <= z < |t| && !HasActive(t, root, z)) &&
    (forall z :: z in Desc(t, root) <==> z in above || z in Forest(t, fifo) || z in Forest(t, tops)) &&
    Distinct(Forest(t, fifo) + Forest(t, tops))
  }

  lemma TopStart(t: seq<Node>, root: int)
    requires Shaped(t, root)
    ensures TopWalk(t, root, {}, [root], [])
  {
    assert Forest(t, [root]) == Desc(t, root) + Forest(t, []);
    DescDistinct(t, root, root);
    assert Forest(t, [root]) + Forest(t, []) == Desc(t, root);
  }

  /** An active head of the queue is one of the first active nodes. */
  lemma TopTake(t: seq<Node>, root: int, above: set<int>, fifo: seq<int>, tops: seq<int>)
    requires Shaped(t, root) && TopWalk(t, root, above, fifo, tops) && fifo != [] && t[fifo[0]].active
    ensures TopWalk(t, root, above, fifo[1..], tops + [fifo[0]])
    ensures |Forest(t, fifo[1..])| < |Forest(t, fifo)|
  {
    ForestPush(t, tops, fifo[0]);
    assert Forest(t, fifo) == Desc(t, fifo[0]) + Forest(t, fifo[1..]);
    TakeDistinct(t, fifo, tops);
  }

  lemma TakeDistinct(t: seq<Node>, fifo: seq<int>, tops: seq<int>)
    requires Nested(t) && AllNodes(t, fifo) && AllNodes(t, tops) && fifo != []
    requires Distinct(Forest(t, fifo) + Forest(t, tops))
    ensures AllNodes(t, tops + [fifo[0]])
    ensures Distinct(Forest(t, fifo[1..]) + Forest(t, tops + [fifo[0]]))
  {
    ForestPush(t, tops, fifo[0]);
    var d, f, q := Desc(t, fifo[0]), Forest(t, fifo[1..]), Forest(t, tops);
    assert Forest(t, fifo) == d + f;
    DistinctMove(d, f, q);
  }

  /** An inactive head of the queue has no active node at or above it; its
      children are queued. */
  lemma TopDown(t: seq<Node>, root: int, above: set<int>, fifo: seq<int>, tops: seq<int>)
    requires Shaped(t, root) && TopWalk(t, root, above, fifo, tops) && fifo != [] && !t[fifo[0]].active
    ensures TopWalk(t, root, above + {fifo[0]}, fifo[1..] + t[fifo[0]].children, tops)
    ensures |Forest(t, fifo[1..] + t[fifo[0]].children)| < |Forest(t, fifo)|
  {
    var tmp := fifo[0];
    ForestPopIn(t, fifo);
    forall k | 0 <= k < |t[tmp].children|
      ensures NoActiveAbove(t, root, t[tmp].children[k])
    {
      DirectChild(t, root, tmp, t[tmp].children[k]);
    }
    DownDistinct(t, fifo, tops);
  }

  lemma DownDistinct(t: seq<Node>, fifo: seq<int>, tops: seq<int>)
    requires Nested(t) && AllNodes(t, fifo) && AllNodes(t, tops) && fifo != []
    requires Distinct(Forest(t, fifo) + Forest(t, tops))
    ensures AllNodes(t, fifo[1..] + t[fifo[0]].children)
    ensures Distinct(Forest(t, fifo[1..] + t[fifo[0]].children) + Forest(t, tops))
  {
    var tmp := fifo[0];
    assert AllNodes(t, t[tmp].children);
    var c, f, q := Forest(t, t[tmp].children), Forest(t, fifo[1..]), Forest(t, tops);
    assert Forest(t, fifo) == [tmp] + c + f;
    DistinctUnshift(tmp, c, f, q);
    ForestAppend(t, fifo[1..], t[tmp].children);
  }

  /** An active node makes every node below it have an active node at or above it. */
  lemma {:induction false} ActiveAnc(t: seq<Node>, root: int, a: int, y: int)
    requires Shaped(t, root) && 0 <= a < |t| && 0 <= y < |t| && t[a].active && IsAnc(t, root, a, y)
    ensures HasActive(t, root, y)
    decreases t[y].oriH - Low(t)
  {
    if y != a {
      FatherBelow(t, root, y);
      ActiveAnc(t, root, a, t[y].father);
    }
  }

  /** Once the queue is empty, the collected nodes are exactly the active nodes
      with no active node above them, each collected once. */
  lemma TopsFirst(t: seq<Node>, root: int, above: set<int>, tops: seq<int>)
    requires Shaped(t, root) && TopWalk(t, root, above, [], tops)
    ensures Distinct(tops)
    ensures forall z :: z in tops <==> 0 <= z < |t| && t[z].active && NoActiveAbove(t, root, z)
  {
    assert Forest(t, []) + Forest(t, tops) == Forest(t, tops);
    DistinctRoots(t, tops);
    forall z | 0 <= z < |t| && t[z].active && NoActiveAbove(t, root, z)
      ensures z in tops
    {
      RootCoversAll(t, root, z);
      assert HasActive(t, root, z);
      var k := ForestMember(t, tops, z);
      var a := tops[k];
      if z != a {
        DescIffAnc(t, root, a, z);
        assert z != root;
        FatherBelow(t, root, z);
        ActiveAnc(t, root, a, t[z].father);
        assert false;
      }
    }
  }

  /** The first loop of constructImageDirectExpe: walks down from the root through
      inactive nodes and collects the first active node of each branch. */
  method FirstActive(t: seq<Node>, root: int) returns (tops: seq<int>, ghost above: set<int>)
    requires Shaped(t, root)
    ensures TopWalk(t, root, above, [], tops)
    ensures Distinct(tops)
    ensures forall z :: z in tops <==> 0 <= z < |t| && t[z].active && NoActiveAbove(t, root, z)
  {
    var fifo := [root];
    tops := [];
    above := {};
    TopStart(t, root);
    while fifo != []
      invariant TopWalk(t, root, above, fifo, tops)
      decreases |Forest(t, fifo)|
    {
      if t[fifo[0]].active {
        TopTake(t, root, above, fifo, tops);
        tops := tops + [fifo[0]];
        fifo := fifo[1..];
      } else {
        TopDown(t, root, above, fifo, tops);
        above := above + {fifo[0]};
        fifo := fifo[1..] + t[fifo[0]].children;
      }
    }
    TopsFirst(t, root, above, tops);
  }

  /** The state of the second loop of constructImageDirectExpe: every node of the
      tree is above all active nodes, walked, or in the subtree of a queued
      node; walked and queued nodes have their final level in u, the others
      still their original node. */
  ghost predicate DirectWalk(t: seq<Node>, root: int, above: set<int>, done: set<int>, fifo: seq<int>, u: seq<Node>)
    requires Shaped(t, root)
  {
    AllNodes(t, fifo) && (forall k | 0 <= k < |fifo| :: HasActive(t, root, fifo[k])) &&
    (forall z | z in done :: 0 <= z < |t| && HasActive(t, root, z)) &&
    (forall z | z in above :: 0 <= z < |t| && !HasActive(t, root, z)) &&
    (forall z :: z in Desc(t, root) <==> z in above || z in done || z in Forest(t, fifo)) &&
    |u| == |t| && forall z | 0 <= z < |t| :: u[z] == if z in done || z in fifo then DirectNodes(t, root)[z] else t[z]
  }

  lemma DirectStart(t: seq<Node>, root: int, above: set<int>, tops: seq<int>)
    requires Shaped(t, root) && TopWalk(t, root, above, [], tops)
    ensures DirectWalk(t, root, above, {}, tops, t)
  {
    assert Forest(t, []) == [];
    forall k | 0 <= k < |tops|
      ensures HasActive(t, root, tops[k])
    {
    }
  }

  /** Popping the head tmp of the second walk's queue once its children have
      been handled by DirectChildren. */
  lemma DirectStep(t: seq<Node>, root: int, above: set<int>, done: set<int>, fifo: seq<int>, u: seq<Node>,
                   fifo': seq<int>, u': seq<Node>)
    requires Shaped(t, root) && fifo != [] && DirectWalk(t, root, above, done, fifo, u)
    requires fifo' == fifo[1..] + t[fifo[0]].children && |u'| == |t|
    requires forall k | 0 <= k < |fifo'| :: HasActive(t, root, fifo'[k])
    requires forall z | 0 <= z < |t| ::
      u'[z] == if z in done + {fifo[0]} || z in fifo' then DirectNodes(t, root)[z] else t[z]
    ensures DirectWalk(t, root, above, done + {fifo[0]}, fifo', u')
    ensures |Forest(t, fifo')| < |Forest(t, fifo)|
  {
    ForestPopIn(t, fifo);
    var done' := done + {fifo[0]};
    assert HasActive(t, root, fifo[0]);
    assert forall z | z in done' :: 0 <= z < |t| && HasActive(t, root, z);
    assert forall z :: z in Desc(t, root) <==> z in above || z in done' || z in Forest(t, fifo');
  }

  /** The second loop of constructImageDirectExpe: walks down from the collected
      active nodes; each node's pixels get its current level, and each inactive
      child first takes its father's current level. */
  method DirectPaint(t: seq<Node>, root: int, res: array<int>, tops: seq<int>, ghost above: set<int>)
    returns (u: seq<Node>)
    requires Shaped(t, root) && PixelsIn(t, res.Length) && OwnersUnique(t)
    requires TopWalk(t, root, above, [], tops)
    requires forall p | 0 <= p < res.Length :: res[p] == 0
    modifies res
    ensures u == DirectNodes(t, root)
    ensures forall y, i | 0 <= y < |t| && 0 <= i < |t[y].pixels| :: res[t[y].pixels[i]] == DirectValue(t, root, y)
    ensures forall p | 0 <= p < res.Length && (forall y | 0 <= y < |t| :: p !in t[y].pixels) :: res[p] == 0
  {
    var fifo := tops;
    u := t;
    ghost var val := y => DirectValueOf(t, root, y);
    ghost var r0 := res[..];
    ghost var done: set<int> := {};
    PaintStart(t, val, r0);
    DirectStart(t, root, above, tops);
    while fifo != []
      invariant DirectWalk(t, root, above, done, fifo, u)
      invariant PaintedBy(t, done, val, res[..], r0)
      decreases |Forest(t, fifo)|
    {
      var tmp := fifo[0];
      DirectHead(t, root, above, done, fifo, u);
      ghost var before := res[..];
      Paint(res, t[tmp].pixels, u[tmp].h);
      PaintOne(t, done, val, before, res[..], r0, tmp);
      u, fifo := DirectChildren(t, root, above, done, fifo, u);
      done := done + {tmp};
    }
    DirectEnd(t, root, above, done, u, val, res[..], r0);
  }

  /** The walked head of the second walk's queue has its final level. */
  lemma DirectHead(t: seq<Node>, root: int, above: set<int>, done: set<int>, fifo: seq<int>, u: seq<Node>)
    requires Shaped(t, root) && fifo != [] && DirectWalk(t, root, above, done, fifo, u)
    ensures u[fifo[0]].h == DirectValueOf(t, root, fifo[0])
  {
  }

  /** The child loop of the second walk of constructImageDirectExpe, for the head
      of the queue fifo. */
  method DirectChildren(t: seq<Node>, root: int, ghost above: set<int>, ghost done: set<int>, fifo: seq<int>, u: seq<Node>)
    returns (u': seq<Node>, fifo': seq<int>)
    requires Shaped(t, root) && fifo != [] && DirectWalk(t, root, above, done, fifo, u)
    ensures fifo' == fifo[1..] + t[fifo[0]].children
    ensures DirectWalk(t, root, above, done + {fifo[0]}, fifo', u')
    ensures |Forest(t, fifo')| < |Forest(t, fifo)|
  {
    u', fifo' := DirectLevels(t, root, u, fifo[0], fifo[1..], done);
    DirectStep(t, root, above, done, fifo, u, fifo', u');
  }

  /** The child loop proper: inactive children take the level of tmp. */
  method DirectLevels(t: seq<Node>, root: int, u: seq<Node>, tmp: int, rest: seq<int>, ghost done: set<int>)
    returns (u': seq<Node>, fifo: seq<int>)
    requires Shaped(t, root) && 0 <= tmp < |t| && HasActive(t, root, tmp)
    requires AllNodes(t, rest) && forall k | 0 <= k < |rest| :: HasActive(t, root, rest[k])
    requires |u| == |t| && forall z | 0 <= z < |t| ::
      u[z] == if z in done || z in [tmp] + rest then DirectNodes(t, root)[z] else t[z]
    ensures fifo == rest + t[tmp].children
    ensures AllNodes(t, fifo) && forall k | 0 <= k < |fifo| :: HasActive(t, root, fifo[k])
    ensures |u'| == |t| && forall z | 0 <= z < |t| ::
      u'[z] == if z in done + {tmp} || z in fifo then DirectNodes(t, root)[z] else t[z]
  {
    var f := DirectNodes(t, root);
    var ch := t[tmp].children;
    u' := u;
    fifo := rest;
    var k := 0;
    while k < |ch|
      invariant 0 <= k <= |ch| && fifo == rest + ch[..k]
      invariant AllNodes(t, fifo) && forall j | 0 <= j < |fifo| :: HasActive(t, root, fifo[j])
      invariant |u'| == |t| && forall z | 0 <= z < |t| ::
        u'[z] == if z in done + {tmp} || z in fifo then f[z] else t[z]
    {
      var c := ch[k];
      DirectChild(t, root, tmp, c);
      assert ch[..k + 1] == ch[..k] + [c];
      if !u'[c].active {
        u' := u'[c := u'[c].(h := u'[tmp].h)];
      }
      fifo := fifo + [c];
      k := k + 1;
    }
    assert ch[..k] == ch;
  }

  /** At the end of the DIRECT walks every node is either above all active nodes
      (painted 0 by the fill, level unchanged) or was walked. */
  lemma DirectEnd(t: seq<Node>, root: int, above: set<int>, done: set<int>, u: seq<Node>,
                  val: int -> int, r: seq<int>, r0: seq<int>)
    requires Shaped(t, root) && PixelsIn(t, |r|) && OwnersUnique(t) && DirectWalk(t, root, above, done, [], u)
    requires forall y | 0 <= y < |t| :: val(y) == DirectValue(t, root, y)
    requires PaintedBy(t, done, val, r, r0) && forall p | 0 <= p < |r0| :: r0[p] == 0
    ensures u == DirectNodes(t, root)
    ensures forall y, i | 0 <= y < |t| && 0 <= i < |t[y].pixels| :: r[t[y].pixels[i]] == DirectValue(t, root, y)
    ensures forall p | 0 <= p < |r| && (forall y | 0 <= y < |t| :: p !in t[y].pixels) :: r[p] == 0
  {
    assert Forest(t, []) == [];
    forall y | 0 <= y < |t|
      ensures y in above || y in done
    {
      RootCoversAll(t, root, y);
    }
    forall y, i | 0 <= y < |t| && 0 <= i < |t[y].pixels|
      ensures r[t[y].pixels[i]] == DirectValue(t, root, y)
    {
      if y !in done {
        NoActiveZero(t, root, y);
        var p := t[y].pixels[i];
        forall y' | y' in done && 0 <= y' < |t|
          ensures p !in t[y'].pixels
        {
          assert y' != y;
        }
      }
    }
  }
}
