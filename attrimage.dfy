/** The attribute images of Algorithms/ComponentTree.hxx: for each pixel, a walk up
    the branch of its owning node picks a node, and the pixel gets one attribute of
    that node.  The walks are specified here as functions, with what they pick
    characterised by lemmas, and carried out by loops proved against them. */
module AttributeImages {
  import opened Tree
  import opened Queries
  import opened Grid

  /** The optional limit of the walks: the first walk climbs while the father's
      limit attribute is below lo, the selecting walk climbs while it is below hi. */
  datatype Limit = Unlimited | Within(attr: Attribute, lo: int, hi: int)

  /** Which way the selecting walk improves its pick: towards smaller positive
      selection attributes (constructImageAttributeMin), or towards larger ones
      below top, the largest value of the attribute's type
      (constructImageAttributeMax).  The walk starts from its first node whatever
      that node's value, so the pick is that node when no later one improves on it. */
  datatype Order = Smallest | Largest(top: int)

  /** A value the selecting walk may pick at all. */
  predicate Eligible(o: Order, v: int)
  {
    match o
    case Smallest => v > 0
    case Largest(top) => v < top
  }

  /** The selecting walk replaces its current pick of value best by a father of value v. */
  predicate Better(o: Order, v: int, best: int)
  {
    Eligible(o, v) && match o
      case Smallest => v < best
      case Largest(_) => v > best
  }

  /** Whether the "limit min" loop moves on from n: the father is not the root and
      its limit attribute is below lo. */
  predicate Climbs(t: seq<Node>, root: int, n: int, a: Attribute, lo: int)
    requires 0 <= n < |t|
  {
    t[n].father != root && 0 <= t[n].father < |t| && GetAttribute(t[t[n].father], a) < lo
  }

  /** The "limit min" loop: climbs from n while Climbs holds. */
  function Climb(t: seq<Node>, root: int, n: int, a: Attribute, lo: int): (r: int)
    requires Shaped(t, root) && 0 <= n < |t|
    ensures 0 <= r < |t|
    decreases t[n].oriH - Low(t)
  {
    if Climbs(t, root, n, a, lo) then
      FatherBelow(t, root, n);
      Climb(t, root, t[n].father, a, lo)
    else n
  }

  /** Whether the selecting walk moves on from n to its father. */
  predicate Goes(t: seq<Node>, root: int, n: int, lim: Limit)
    requires 0 <= n < |t|
  {
    t[n].father != root &&
    (lim.Unlimited? || (0 <= t[n].father < |t| && GetAttribute(t[t[n].father], lim.attr) < lim.hi))
  }

  /** The selecting walk from n with current pick ns: each father it reaches replaces
      the pick when its selection attribute is better. */
  function Select(t: seq<Node>, root: int, n: int, ns: int, sel: Attribute, o: Order, lim: Limit): (r: int)
    requires Shaped(t, root) && 0 <= n < |t| && 0 <= ns < |t|
    ensures 0 <= r < |t|
    decreases t[n].oriH - Low(t)
  {
    if Goes(t, root, n, lim) then
      FatherBelow(t, root, n);
      var m := t[n].father;
      if Better(o, GetAttribute(t[m], sel), GetAttribute(t[ns], sel)) then Select(t, root, m, m, sel, o, lim)
      else Select(t, root, m, ns, sel, o, lim)
    else ns
  }

  /** The nodes the selecting walk from n reaches, n itself excluded. */
  ghost predicate OnWalk(t: seq<Node>, root: int, n: int, m: int, lim: Limit)
    requires Shaped(t, root) && 0 <= n < |t|
    decreases t[n].oriH - Low(t)
  {
    Goes(t, root, n, lim) &&
    (FatherBelow(t, root, n); m == t[n].father || OnWalk(t, root, t[n].father, m, lim))
  }

  /** Where the selecting walk starts for a pixel owned by y. */
  function Start(t: seq<Node>, root: int, y: int, lim: Limit): (r: int)
    requires Shaped(t, root) && 0 <= y < |t|
    ensures 0 <= r < |t|
  {
    match lim
    case Unlimited => y
    case Within(a, lo, _) => Climb(t, root, y, a, lo)
  }

  /** The rule constructImageAttribute dispatches on: a selecting walk keeping one
      extreme (MIN, MAX), or the start node itself (DIRECT). */
  datatype Rule = Selecting(order: Order) | Own

  /** The node whose value attribute constructImageAttributeMin (Smallest) or
      constructImageAttributeMax (Largest) writes on the pixels of y. */
  function Selected(t: seq<Node>, root: int, y: int, sel: Attribute, o: Order, lim: Limit): (r: int)
    requires Shaped(t, root) && 0 <= y < |t|
    ensures 0 <= r < |t|
  {
    var s := Start(t, root, y, lim);
    Select(t, root, s, s, sel, o, lim)
  }

  /* ---- What the walks pick ---- */

  /** The limit-min climb stops at the first ancestor whose father is the root or
      has a limit attribute of at least lo; every node it passes above n has a
      limit attribute below lo. */
  lemma {:induction false} ClimbStops(t: seq<Node>, root: int, n: int, a: Attribute, lo: int)
    requires Shaped(t, root) && 0 <= n < |t|
    ensures IsAnc(t, root, Climb(t, root, n, a, lo), n)
    ensures var r := Climb(t, root, n, a, lo);
      t[r].father == root || (0 <= t[r].father < |t| && GetAttribute(t[t[r].father], a) >= lo)
    ensures forall m | 0 <= m < |t| && m != n && IsAnc(t, root, m, n) && IsAnc(t, root, Climb(t, root, n, a, lo), m) ::
      GetAttribute(t[m], a) < lo
    decreases t[n].oriH - Low(t)
  {
    var r := Climb(t, root, n, a, lo);
    if Climbs(t, root, n, a, lo) {
      FatherBelow(t, root, n);
      var f := t[n].father;
      ClimbStops(t, root, f, a, lo);
      forall m | 0 <= m < |t| && m != n && IsAnc(t, root, m, n) && IsAnc(t, root, r, m)
        ensures GetAttribute(t[m], a) < lo
      {
        assert IsAnc(t, root, m, f);
      }
    } else {
      if n != root {
        assert FatherOk(t, n);
      }
      forall m | 0 <= m < |t| && m != n && IsAnc(t, root, m, n) && IsAnc(t, root, r, m)
        ensures false
      {
        AncBelow(t, root, m, n);
        AncBelow(t, root, r, m);
      }
    }
  }

  /** The nodes the selecting walk reaches are proper ancestors of its start,
      below the root. */
  lemma {:induction false} WalkAbove(t: seq<Node>, root: int, n: int, m: int, lim: Limit)
    requires Shaped(t, root) && 0 <= n < |t| && OnWalk(t, root, n, m, lim)
    ensures 0 <= m < |t| && m != n && m != root && IsAnc(t, root, m, n)
    decreases t[n].oriH - Low(t)
  {
    FatherBelow(t, root, n);
    var f := t[n].father;
    if m != f {
      WalkAbove(t, root, f, m, lim);
      AncBelow(t, root, m, f);
    }
  }

  /** The selecting walk keeps the start ns or picks a node it reaches whose value
      is better, and no node it reaches has a better value than its pick. */
  lemma {:induction false} SelectBest(t: seq<Node>, root: int, n: int, ns: int, sel: Attribute, o: Order, lim: Limit)
    requires Shaped(t, root) && 0 <= n < |t| && 0 <= ns < |t|
    ensures var r := Select(t, root, n, ns, sel, o, lim);
      r == ns || (OnWalk(t, root, n, r, lim) && Better(o, GetAttribute(t[r], sel), GetAttribute(t[ns], sel)))
    ensures var r := Select(t, root, n, ns, sel, o, lim);
      forall m | OnWalk(t, root, n, m, lim) && 0 <= m < |t| :: !Better(o, GetAttribute(t[m], sel), GetAttribute(t[r], sel))
    decreases t[n].oriH - Low(t)
  {
    if Goes(t, root, n, lim) {
      FatherBelow(t, root, n);
      var m := t[n].father;
      if Better(o, GetAttribute(t[m], sel), GetAttribute(t[ns], sel)) {
        SelectBest(t, root, m, m, sel, o, lim);
      } else {
        SelectBest(t, root, m, ns, sel, o, lim);
      }
    }
  }

  /** The node an attribute image uses for the pixels of y lies on y's branch. */
  lemma SelectedAbove(t: seq<Node>, root: int, y: int, sel: Attribute, o: Order, lim: Limit)
    requires Shaped(t, root) && 0 <= y < |t|
    ensures IsAnc(t, root, Selected(t, root, y, sel, o, lim), y)
    ensures IsAnc(t, root, Start(t, root, y, lim), y)
  {
    var s := Start(t, root, y, lim);
    if lim.Within? {
      ClimbStops(t, root, y, lim.attr, lim.lo);
    }
    var r := Selected(t, root, y, sel, o, lim);
    SelectBest(t, root, s, s, sel, o, lim);
    if r != s {
      WalkAbove(t, root, s, r, lim);
      AncTrans(t, root, r, s, y);
    }
  }

  /* ---- The walks as loops ---- */

  /** The "limit min" loop of the attribute images. */
  method ClimbLoop(t: seq<Node>, root: int, y: int, a: Attribute, lo: int) returns (n: int)
    requires Shaped(t, root) && 0 <= y < |t|
    ensures n == Climb(t, root, y, a, lo)
  {
    n := y;
    while Climbs(t, root, n, a, lo)
      invariant 0 <= n < |t| && Climb(t, root, n, a, lo) == Climb(t, root, y, a, lo)
      decreases t[n].oriH - Low(t)
    {
      FatherBelow(t, root, n);
      n := t[n].father;
    }
  }

  /** The selecting loop of constructImageAttributeMin and constructImageAttributeMax. */
  method SelectLoop(t: seq<Node>, root: int, s: int, sel: Attribute, o: Order, lim: Limit) returns (ns: int)
    requires Shaped(t, root) && 0 <= s < |t|
    ensures ns == Select(t, root, s, s, sel, o, lim)
  {
    var n := s;
    ns := s;
    var attr := GetAttribute(t[s], sel);
    while Goes(t, root, n, lim)
      invariant 0 <= n < |t| && 0 <= ns < |t| && attr == GetAttribute(t[ns], sel)
      invariant Select(t, root, n, ns, sel, o, lim) == Select(t, root, s, s, sel, o, lim)
      decreases t[n].oriH - Low(t)
    {
      FatherBelow(t, root, n);
      n := t[n].father;
      var attrFather := GetAttribute(t[n], sel);
      if Better(o, attrFather, attr) {
        ns := n;
        attr := attrFather;
      }
    }
  }

  /** The node picked for one pixel owned by y, by either loop. */
  method PickNode(t: seq<Node>, root: int, y: int, sel: Attribute, o: Order, lim: Limit) returns (r: int)
    requires Shaped(t, root) && 0 <= y < |t|
    ensures r == Selected(t, root, y, sel, o, lim)
  {
    var s := y;
    if lim.Within? {
      s := ClimbLoop(t, root, y, lim.attr, lim.lo);
    }
    r := SelectLoop(t, root, s, sel, o, lim);
  }

  /** The node whose value attribute an attribute image writes on the pixels of y. */
  function Chosen(t: seq<Node>, root: int, y: int, sel: Attribute, rule: Rule, lim: Limit): (r: int)
    requires Shaped(t, root) && 0 <= y < |t|
    ensures 0 <= r < |t| && IsAnc(t, root, r, y)
  {
    match rule
    case Selecting(o) => SelectedAbove(t, root, y, sel, o, lim); Selected(t, root, y, sel, o, lim)
    case Own => SelectedAbove(t, root, y, sel, Smallest, lim); Start(t, root, y, lim)
  }

  ghost predicate Owned(t: seq<Node>, p: int)
  {
    exists y | 0 <= y < |t| :: p in t[y].pixels
  }

  /** Every offset of an image of n pixels is owned by some node. */
  ghost predicate Covered(t: seq<Node>, n: int)
  {
    forall p | 0 <= p < n :: Owned(t, p)
  }

  /** The value an attribute image has at offset p, through the owner index. */
  function AttributeAt(t: seq<Node>, root: int, index: seq<int>, p: int, value: Attribute, sel: Attribute,
                       rule: Rule, lim: Limit): int
  {
    if Shaped(t, root) && 0 <= p < |index| && 0 <= index[p] < |t| then
      GetAttribute(t[Chosen(t, root, index[p], sel, rule, lim)], value)
    else 0
  }

  /** The node picked for one pixel owned by y, by the loops of the rule. */
  method ChooseNode(t: seq<Node>, root: int, y: int, sel: Attribute, rule: Rule, lim: Limit) returns (r: int)
    requires Shaped(t, root) && 0 <= y < |t|
    ensures r == Chosen(t, root, y, sel, rule, lim)
  {
    match rule
    case Selecting(o) =>
      r := PickNode(t, root, y, sel, o, lim);
    case Own =>
      r := y;
      if lim.Within? {
        r := ClimbLoop(t, root, y, lim.attr, lim.lo);
      }
  }

  /** Offset p of the image r holds the value want gives it. */
  predicate Filled(r: seq<int>, want: seq<int>, p: int)
  {
    0 <= p < |r| && p < |want| && r[p] == want[p]
  }

  /** The three nested coordinate loops of the attribute images: each pixel gets
      the value attribute of the node chosen from its owner. */
  method FillAttribute(t: seq<Node>, root: int, size: Size, index: seq<int>, res: array<int>,
                       value: Attribute, sel: Attribute, rule: Rule, lim: Limit)
    requires Shaped(t, root) && |index| == Count(size) && res.Length == Count(size)
    requires forall p | 0 <= p < |index| :: 0 <= index[p] < |t|
    modifies res
    ensures forall p | 0 <= p < res.Length :: res[p] == AttributeAt(t, root, index, p, value, sel, rule, lim)
  {
    ghost var want := seq(Count(size), p => AttributeAt(t, root, index, p, value, sel, rule, lim));
    var i := 0;
    while i < size.x
      invariant 0 <= i <= size.x
      invariant forall q | InGrid(size, q) && q.x < i :: Filled(res[..], want, Offset(size, q))
    {
      FillPlane(t, root, size, index, res, value, sel, rule, lim, i, want);
      i := i + 1;
    }
    forall p | 0 <= p < res.Length
      ensures res[p] == want[p]
    {
      OffsetOfCoord(size, p);
      assert Filled(res[..], want, Offset(size, CoordOf(size, p)));
    }
  }

  /** The loops over y and z for one x; want holds the value each offset gets. */
  method FillPlane(t: seq<Node>, root: int, size: Size, index: seq<int>, res: array<int>,
                   value: Attribute, sel: Attribute, rule: Rule, lim: Limit, i: int, ghost want: seq<int>)
    requires Shaped(t, root) && |index| == Count(size) && res.Length == Count(size) && 0 <= i < size.x
    requires forall p | 0 <= p < |index| :: 0 <= index[p] < |t|
    requires |want| == Count(size) && forall p | 0 <= p < |want| :: want[p] == AttributeAt(t, root, index, p, value, sel, rule, lim)
    requires forall q | InGrid(size, q) && q.x < i :: Filled(res[..], want, Offset(size, q))
    modifies res
    ensures forall q | InGrid(size, q) && q.x <= i :: Filled(res[..], want, Offset(size, q))
  {
    var j := 0;
    while j < size.y
      invariant 0 <= j <= size.y
      invariant forall q | InGrid(size, q) && (q.x < i || (q.x == i && q.y < j)) :: Filled(res[..], want, Offset(size, q))
    {
      var k := 0;
      while k < size.z
        invariant 0 <= k <= size.z
        invariant forall q | InGrid(size, q) && (q.x < i || (q.x == i && q.y < j) || (q.x == i && q.y == j && q.z < k)) ::
          Filled(res[..], want, Offset(size, q))
      {
        var o := Offset(size, Point(i, j, k));
        OffsetInRange(size, Point(i, j, k));
        var n := ChooseNode(t, root, index[o], sel, rule, lim);
        res[o] := GetAttribute(t[n], value);
        assert Filled(res[..], want, o);
        k := k + 1;
      }
      j := j + 1;
    }
  }
}
