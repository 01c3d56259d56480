/** What the image reconstructions of a (filtered) component tree paint on each
    pixel, as functions of the arena, with the facts the painting walks rely on.

    Filtering switches nodes off; a reconstruction gives every pixel the level of
    some active node above it.  The MIN rule cuts each branch at its first inactive
    node; the DIRECT rule looks for the nearest active node above each node, and
    paints 0 where there is none. */
module Reconstruction {
  import opened Tree
  import opened Queries

  /* ---- The MIN rule ---- */

  /** Every node from y up to the root is active. */
  predicate ActivePath(t: seq<Node>, root: int, y: int)
    requires Shaped(t, root) && 0 <= y < |t|
    decreases t[y].oriH - Low(t)
  {
    t[y].active && (y == root || (FatherBelow(t, root, y); ActivePath(t, root, t[y].father)))
  }

  /** The node whose level the MIN rule gives the pixels of y: the deepest node
      at or above y whose path to the root is all active (the root when none is). */
  function MinNode(t: seq<Node>, root: int, y: int): (r: int)
    requires Shaped(t, root) && 0 <= y < |t|
    ensures 0 <= r < |t| && IsAnc(t, root, r, y)
    decreases t[y].oriH - Low(t)
  {
    if y == root || ActivePath(t, root, y) then y
    else
      FatherBelow(t, root, y);
      MinNode(t, root, t[y].father)
  }

  /** The level the MIN rule gives the pixels of y (0 off the tree). */
  function MinValue(t: seq<Node>, root: int, y: int): int
  {
    if Shaped(t, root) && 0 <= y < |t| then t[MinNode(t, root, y)].h else 0
  }

  lemma {:induction false} ActivePathUp(t: seq<Node>, root: int, c: int, z: int)
    requires Shaped(t, root) && 0 <= z < |t| && IsAnc(t, root, c, z) && ActivePath(t, root, z)
    ensures 0 <= c < |t| && ActivePath(t, root, c)
    decreases t[z].oriH - Low(t)
  {
    if z != c {
      FatherBelow(t, root, z);
      ActivePathUp(t, root, c, t[z].father);
    }
  }

  /** Below an inactive child c of a node f whose path to the root is active, the
      MIN rule paints f's level: what constructImageMin does with the pixels
      merge_pixels gathers from c. */
  lemma {:induction false} MinBelowCut(t: seq<Node>, root: int, f: int, c: int, z: int)
    requires Shaped(t, root) && 0 <= f < |t| && 0 <= c < |t| && 0 <= z < |t|
    requires ActivePath(t, root, f) && c in t[f].children && !t[c].active
    requires IsAnc(t, root, c, z)
    ensures MinNode(t, root, z) == f
    decreases t[z].oriH - Low(t)
  {
    assert t[c].father == f;
    assert c != root by {
      DescAbove(t, f, f);
      assert t[f].oriH < t[c].oriH;
    }
    if ActivePath(t, root, z) {
      ActivePathUp(t, root, c, z);
    }
    if z != c {
      FatherBelow(t, root, z);
      MinBelowCut(t, root, f, c, t[z].father);
    }
  }

  /** With every node active, the MIN rule gives each pixel its own node's level. */
  lemma {:induction false} MinAllActive(t: seq<Node>, root: int, y: int)
    requires Shaped(t, root) && 0 <= y < |t| && forall z | 0 <= z < |t| :: t[z].active
    ensures ActivePath(t, root, y) && MinNode(t, root, y) == y
    decreases t[y].oriH - Low(t)
  {
    if y != root {
      FatherBelow(t, root, y);
      MinAllActive(t, root, t[y].father);
    }
  }

  /** On a restored tree (levels at their original values) the MIN rule never
      raises a pixel: filtering then reconstructing is anti-extensive. */
  lemma MinLowers(t: seq<Node>, root: int, y: int)
    requires Shaped(t, root) && 0 <= y < |t| && forall z | 0 <= z < |t| :: t[z].h == t[z].oriH
    ensures MinValue(t, root, y) <= t[y].h
  {
    AncBelow(t, root, MinNode(t, root, y), y);
  }

  /* ---- The DIRECT rule ---- */

  /** Some node at or above y is active. */
  predicate HasActive(t: seq<Node>, root: int, y: int)
    requires Shaped(t, root) && 0 <= y < |t|
    decreases t[y].oriH - Low(t)
  {
    t[y].active || (y != root && (FatherBelow(t, root, y); HasActive(t, root, t[y].father)))
  }

  /** The level the DIRECT rule gives the pixels of y: the level of the nearest
      active node at or above y, or 0 when there is none. */
  function DirectValue(t: seq<Node>, root: int, y: int): int
    requires Shaped(t, root) && 0 <= y < |t|
    decreases t[y].oriH - Low(t)
  {
    if t[y].active then t[y].h
    else if y == root then 0
    else
      FatherBelow(t, root, y);
      DirectValue(t, root, t[y].father)
  }

  /** No node strictly above z is active. */
  predicate NoActiveAbove(t: seq<Node>, root: int, z: int)
    requires Shaped(t, root) && 0 <= z < |t|
  {
    z == root || (FatherBelow(t, root, z); !HasActive(t, root, t[z].father))
  }

  /** A child of a node with an active node at or above it has one too, and the
      DIRECT rule gives an inactive child its father's value. */
  lemma DirectChild(t: seq<Node>, root: int, f: int, c: int)
    requires Shaped(t, root) && 0 <= f < |t| && c in t[f].children
    ensures 0 <= c < |t| && c != root && t[c].father == f
    ensures HasActive(t, root, f) ==> HasActive(t, root, c)
    ensures !HasActive(t, root, f) ==> NoActiveAbove(t, root, c)
    ensures !t[c].active ==> DirectValue(t, root, c) == DirectValue(t, root, f)
  {
    DescAbove(t, f, f);
  }

  lemma {:induction false} NoActiveZero(t: seq<Node>, root: int, y: int)
    requires Shaped(t, root) && 0 <= y < |t| && !HasActive(t, root, y)
    ensures DirectValue(t, root, y) == 0
    decreases t[y].oriH - Low(t)
  {
    if y != root {
      FatherBelow(t, root, y);
      NoActiveZero(t, root, t[y].father);
    }
  }

  function DirectValueOf(t: seq<Node>, root: int, y: int): int
  {
    if Shaped(t, root) && 0 <= y < |t| then DirectValue(t, root, y) else 0
  }

  /** The arena after constructImageDirectExpe: each inactive node with an active
      node above it takes the level that node passes down; nothing else changes. */
  function DirectNodes(t: seq<Node>, root: int): (r: seq<Node>)
    requires Shaped(t, root)
    ensures |r| == |t|
  {
    seq(|t|, y requires 0 <= y < |t| =>
      if HasActive(t, root, y) then t[y].(h := DirectValue(t, root, y)) else t[y])
  }

  /** With every node active, the DIRECT rule gives each pixel its own node's level. */
  lemma DirectAllActive(t: seq<Node>, root: int, y: int)
    requires Shaped(t, root) && 0 <= y < |t| && forall z | 0 <= z < |t| :: t[z].active
    ensures DirectValue(t, root, y) == t[y].h
  {
  }

  /** Reconstructing again after a DIRECT reconstruction changes nothing: the
      levels it passed down are the ones it would paint. */
  lemma {:induction false} DirectStable(t: seq<Node>, root: int, y: int)
    requires Shaped(t, root) && 0 <= y < |t|
    ensures SameShape(t, DirectNodes(t, root)) && Shaped(DirectNodes(t, root), root)
    ensures DirectValue(DirectNodes(t, root), root, y) == DirectValue(t, root, y)
    ensures DirectNodes(t, root)[y].h == if HasActive(t, root, y) then DirectValue(t, root, y) else t[y].h
    decreases t[y].oriH - Low(t)
  {
    var u := DirectNodes(t, root);
    assert SameShape(t, u);
    ShapedSameShape(t, u, root);
    assert u[y].active == t[y].active;
    if !t[y].active && y != root {
      FatherBelow(t, root, y);
      DirectStable(t, root, t[y].father);
    }
  }

  /** The active nodes are closed upwards: the father of an active node is active. */
  predicate Pruned(t: seq<Node>, root: int)
  {
    forall z | 0 <= z < |t| && z != root && t[z].active ::
      0 <= t[z].father < |t| && t[t[z].father].active
  }

  /** When the active nodes are closed upwards (a pruning) and the root is active,
      the two rules agree. */
  lemma {:induction false} PrunedRulesAgree(t: seq<Node>, root: int, y: int)
    requires Shaped(t, root) && 0 <= y < |t| && t[root].active
    requires Pruned(t, root)
    ensures DirectValue(t, root, y) == MinValue(t, root, y)
    decreases t[y].oriH - Low(t)
  {
    if y != root {
      FatherBelow(t, root, y);
      PrunedRulesAgree(t, root, t[y].father);
      if t[y].active {
        PrunedActivePath(t, root, y);
      }
    }
  }

  lemma {:induction false} PrunedActivePath(t: seq<Node>, root: int, y: int)
    requires Shaped(t, root) && 0 <= y < |t| && t[root].active && t[y].active
    requires Pruned(t, root)
    ensures ActivePath(t, root, y)
    decreases t[y].oriH - Low(t)
  {
    if y != root {
      FatherBelow(t, root, y);
      PrunedActivePath(t, root, t[y].father);
    }
  }

  /* ---- Painting pixels node by node ---- */

  /** r is r0 with the pixels of the nodes of done painted by val; the others keep
      their value. */
  ghost predicate PaintedBy(t: seq<Node>, done: set<int>, val: int -> int, r: seq<int>, r0: seq<int>)
  {
    |r| == |r0| &&
    (forall y, i | y in done && 0 <= y < |t| && 0 <= i < |t[y].pixels| && 0 <= t[y].pixels[i] < |r| ::
       r[t[y].pixels[i]] == val(y)) &&
    (forall p | 0 <= p < |r| && (forall y | y in done && 0 <= y < |t| :: p !in t[y].pixels) :: r[p] == r0[p])
  }

  lemma PaintStart(t: seq<Node>, val: int -> int, r: seq<int>)
    ensures PaintedBy(t, {}, val, r, r)
  {
  }

  /** Painting the pixels of one node y with val(y). */
  lemma PaintOne(t: seq<Node>, done: set<int>, val: int -> int, before: seq<int>, after: seq<int>, r0: seq<int>, y: int)
    requires OwnersUnique(t) && 0 <= y < |t| && PaintedBy(t, done, val, before, r0)
    requires |after| == |before|
    requires forall p | 0 <= p < |after| :: after[p] == if p in t[y].pixels then val(y) else before[p]
    ensures PaintedBy(t, done + {y}, val, after, r0)
  {
  }

  /** Painting the pixels of the nodes s with one value v that val gives them all. */
  lemma PaintMany(t: seq<Node>, done: set<int>, val: int -> int, before: seq<int>, after: seq<int>, r0: seq<int>,
                  s: seq<int>, v: int)
    requires OwnersUnique(t) && AllNodes(t, s) && PaintedBy(t, done, val, before, r0)
    requires forall k | 0 <= k < |s| :: val(s[k]) == v
    requires |after| == |before|
    requires forall p | 0 <= p < |after| :: after[p] == if p in PixelsOf(t, s) then v else before[p]
    ensures PaintedBy(t, done + (set k | 0 <= k < |s| :: s[k]), val, after, r0)
  {
    var d := done + (set k | 0 <= k < |s| :: s[k]);
    forall y, i | y in d && 0 <= y < |t| && 0 <= i < |t[y].pixels| && 0 <= t[y].pixels[i] < |after|
      ensures after[t[y].pixels[i]] == val(y)
    {
      var p := t[y].pixels[i];
      PixelsOfMember(t, s, p);
      if p in PixelsOf(t, s) {
        var k :| 0 <= k < |s| && p in t[s[k]].pixels;
        assert y == s[k];
      }
    }
    forall p | 0 <= p < |after| && (forall y | y in d && 0 <= y < |t| :: p !in t[y].pixels)
      ensures after[p] == r0[p]
    {
      PixelsOfMember(t, s, p);
    }
  }

  /** Once every node is painted, each owned pixel holds its owner's value. */
  lemma PaintEnd(t: seq<Node>, done: set<int>, val: int -> int, r: seq<int>, r0: seq<int>)
    requires PaintedBy(t, done, val, r, r0) && forall y | 0 <= y < |t| :: y in done
    ensures forall y, i | 0 <= y < |t| && 0 <= i < |t[y].pixels| && 0 <= t[y].pixels[i] < |r| ::
      r[t[y].pixels[i]] == val(y)
    ensures forall p | 0 <= p < |r| && (forall y | 0 <= y < |t| :: p !in t[y].pixels) :: r[p] == r0[p]
  {
  }
}
