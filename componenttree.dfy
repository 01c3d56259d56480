/** The component tree object: the arena of nodes, the root and the size of the
    image the tree was built from, with the filters, queries and reconstructions
    that walk it (Algorithms/ComponentTree.hxx). */
module ComponentTrees {
  import opened Tree
  import opened Grid
  import opened Queries
  import opened Reconstruction
  import opened Walks
  import opened AttributeImages

  /** The reconstruction rules constructImage offers (MAX is not part of this model). */
  datatype Decision = Min | Direct

  class ComponentTree {
    var nodes: seq<Node>
    var root: int        // -1 when there is no tree
    var size: Size       // size of the image the tree was built from

    ghost predicate Valid()
      reads this
    {
      (root == -1 ==> nodes == []) &&
      (root != -1 ==> Shaped(nodes, root)) &&
      PixelsIn(nodes, Count(size)) && OwnersUnique(nodes)
    }

    /** The breadth-first walk from the root shared by restore, setFalse and the
        filters: each node popped off the FIFO is updated by f, its children are
        queued.  Without a root nothing happens. */
    method Walk(f: Node -> Node)
      requires Valid() && Local(f)
      modifies this
      ensures Valid() && root == old(root) && size == old(size)
      ensures nodes == MapNodes(old(nodes), f)
    {
      if root != -1 {
        ghost var t := nodes;
        var fifo := [root];
        ghost var done: set<int> := {};
        VisitStart(t, root);
        while fifo != []
          invariant root == old(root) && size == old(size) && t == old(nodes)
          invariant Visiting(t, root, done, fifo) && AppliedTo(t, nodes, done, f)
          decreases |Forest(t, fifo)|
        {
          var cur := fifo[0];
          VisitStep(t, root, done, fifo);
          ApplyStep(t, nodes, done, f, cur);
          nodes := nodes[cur := f(nodes[cur])];
          fifo := fifo[1..] + nodes[cur].children;
          done := done + {cur};
        }
        VisitEnd(t, root, done);
        ApplyEnd(t, nodes, done, f);
        MapKeepsShape(t, f);
        KeepsValid(t);
      }
    }

    /** restore: every node active again, back at its original level. */
    method Restore()
      requires Valid()
      modifies this
      ensures Valid() && root == old(root) && size == old(size)
      ensures nodes == Restored(old(nodes))
    {
      UpdatesAreLocal(H, 0, 0);
      Walk(RestoreNode);
    }

    /** setFalse: every node inactive. */
    method SetFalse()
      requires Valid()
      modifies this
      ensures Valid() && root == old(root) && size == old(size)
      ensures nodes == Deactivated(old(nodes))
    {
      UpdatesAreLocal(H, 0, 0);
      Walk(DeactivateNode);
    }

    /** areaFiltering: switches off the nodes whose area lies outside [tMin, tMax]. */
    method AreaFiltering(tMin: int, tMax: int) returns (r: int)
      requires Valid()
      modifies this
      ensures Valid() && root == old(root) && size == old(size)
      ensures nodes == Filtered(old(nodes), Area, tMin, tMax) && r == 0
    {
      UpdatesAreLocal(Area, tMin, tMax);
      Walk(FilterNode(Area, tMin, tMax));
      r := 0;
    }

    /** volumicFiltering: switches off the nodes whose volume lies outside [tMin, tMax]. */
    method VolumicFiltering(tMin: int, tMax: int)
      requires Valid()
      modifies this
      ensures Valid() && root == old(root) && size == old(size)
      ensures nodes == Filtered(old(nodes), Volume, tMin, tMax)
    {
      UpdatesAreLocal(Volume, tMin, tMax);
      Walk(FilterNode(Volume, tMin, tMax));
    }

    /** contrastFiltering: switches off the nodes whose contrast lies outside [tMin, tMax]. */
    method ContrastFiltering(tMin: int, tMax: int) returns (r: int)
      requires Valid()
      modifies this
      ensures Valid() && root == old(root) && size == old(size)
      ensures nodes == Filtered(old(nodes), Contrast, tMin, tMax) && r == 0
    {
      UpdatesAreLocal(Contrast, tMin, tMax);
      Walk(FilterNode(Contrast, tMin, tMax));
      r := 0;
    }

    /** offsetToNode: the node owning the pixel at offset, or -1 when no node owns
        it (or there is no tree). */
    method OffsetToNode(offset: int) returns (r: int)
      requires Valid()
      ensures -1 <= r < |nodes|
      ensures r == -1 <==> forall y | 0 <= y < |nodes| :: offset !in nodes[y].pixels
      ensures r != -1 ==> offset in nodes[r].pixels
    {
      if root == -1 {
        return -1;
      }
      var fifo := [root];
      ghost var done: set<int> := {};
      VisitStart(nodes, root);
      while fifo != []
        invariant Visiting(nodes, root, done, fifo)
        invariant forall y | y in done :: 0 <= y < |nodes| && offset !in nodes[y].pixels
        decreases |Forest(nodes, fifo)|
      {
        var n := fifo[0];
        VisitStep(nodes, root, done, fifo);
        var i := 0;
        while i < |nodes[n].pixels|
          invariant 0 <= i <= |nodes[n].pixels| && offset !in nodes[n].pixels[..i]
        {
          if nodes[n].pixels[i] == offset {
            return n;
          }
          i := i + 1;
        }
        assert nodes[n].pixels[..i] == nodes[n].pixels;
        fifo := fifo[1..] + nodes[n].children;
        done := done + {n};
      }
      VisitEnd(nodes, root, done);
      r := -1;
    }

    /** coordToNode: the node owning the pixel at (x, y, z) of the image's grid. */
    method CoordToNode(x: int, y: int, z: int) returns (r: int)
      requires Valid()
      ensures -1 <= r < |nodes|
      ensures r == -1 <==> forall n | 0 <= n < |nodes| :: Offset(size, Point(x, y, z)) !in nodes[n].pixels
      ensures r != -1 ==> Offset(size, Point(x, y, z)) in nodes[r].pixels
    {
      r := OffsetToNode(Offset(size, Point(x, y, z)));
    }

    /** indexedNodes: for each offset of the image, the node owning it, or -1. */
    method IndexedNodes() returns (index: seq<int>)
      requires Valid()
      ensures |index| == Count(size)
      ensures forall p | 0 <= p < Count(size) :: Owner(nodes, p, index[p])
    {
      var t := nodes;
      index := seq(Count(size), _ => -1);
      if root == -1 {
        return;
      }
      assert PixelsIn(t, Count(size)) && OwnersUnique(t);
      var fifo := [root];
      ghost var done: set<int> := {};
      VisitStart(t, root);
      while fifo != []
        invariant Shaped(t, root) && Visiting(t, root, done, fifo) && |index| == Count(size)
        invariant forall y | y in done :: 0 <= y < |t|
        invariant forall p | 0 <= p < |index| :: Indexed(t, done, p, index[p])
        decreases |Forest(t, fifo)|
      {
        var n := fifo[0];
        VisitStep(t, root, done, fifo);
        ghost var before := index;
        index := IndexPixels(index, t[n].pixels, n);
        IndexedStep(t, done, n, before, index);
        fifo := fifo[1..] + t[n].children;
        done := done + {n};
      }
      VisitEnd(t, root, done);
      forall p | 0 <= p < Count(size)
        ensures Owner(t, p, index[p])
      {
        assert Indexed(t, done, p, index[p]);
      }
    }

    /* ---- Painting subtrees ---- */

    /** The walk shared by constructNode and constructNodeDirect: breadth-first
        from node, the pixels of each node y visited are set to val(y). */
    method PaintSubtree(res: array<int>, node: int, val: int -> int)
      requires Valid() && 0 <= node < |nodes| && res.Length == Count(size)
      modifies res
      ensures PaintedBy(nodes, (set z | z in Desc(nodes, node)), val, res[..], old(res[..]))
    {
      var t := nodes;
      assert PixelsIn(t, res.Length) && OwnersUnique(t);
      ghost var r0 := res[..];
      var fifo := [node];
      ghost var done: set<int> := {};
      VisitStart(t, node);
      PaintStart(t, val, r0);
      while fifo != []
        invariant Nested(t) && Visiting(t, node, done, fifo)
        invariant PaintedBy(t, done, val, res[..], r0)
        decreases |Forest(t, fifo)|
      {
        var tmp := fifo[0];
        VisitStep(t, node, done, fifo);
        ghost var before := res[..];
        Paint(res, t[tmp].pixels, val(tmp));
        PaintOne(t, done, val, before, res[..], r0, tmp);
        fifo := fifo[1..] + t[tmp].children;
        done := done + {tmp};
      }
      VisitDone(t, node, done);
    }

    /** constructNode: paints the pixels of every node of the subtree of node with
        that node's own level; the other pixels are left as they were. */
    method ConstructNode(res: array<int>, node: int)
      requires Valid() && 0 <= node < |nodes| && res.Length == Count(size)
      modifies res
      ensures forall y, i | 0 <= y < |nodes| && IsAnc(nodes, root, node, y) && 0 <= i < |nodes[y].pixels| ::
        res[nodes[y].pixels[i]] == nodes[y].h
      ensures forall p | 0 <= p < res.Length && p !in PixelsOf(nodes, Desc(nodes, node)) :: res[p] == old(res[p])
    {
      var t := nodes;
      var val := y => if 0 <= y < |t| then t[y].h else 0;
      PaintSubtree(res, node, val);
      SubtreePainted(t, root, node, val, res[..], old(res[..]));
    }

    /** constructNodeDirect: paints the pixels of the whole subtree of node with the
        level of node itself. */
    method ConstructNodeDirect(res: array<int>, node: int)
      requires Valid() && 0 <= node < |nodes| && res.Length == Count(size)
      modifies res
      ensures forall y, i | 0 <= y < |nodes| && IsAnc(nodes, root, node, y) && 0 <= i < |nodes[y].pixels| ::
        res[nodes[y].pixels[i]] == nodes[node].h
      ensures forall p | 0 <= p < res.Length && p !in PixelsOf(nodes, Desc(nodes, node)) :: res[p] == old(res[p])
    {
      var t := nodes;
      var h := t[node].h;
      var val := y => h;
      PaintSubtree(res, node, val);
      SubtreePainted(t, root, node, val, res[..], old(res[..]));
    }

    /* ---- Image reconstruction ---- */

    /** constructImageMin: when the root is active, walks the active nodes from the
        root; each gets its own level on its pixels, and the whole subtree of each
        inactive child gets the level of the active father.  Otherwise the image is
        filled with 0.  (The caller makes sure there is a root.) */
    method ConstructImageMin(res: array<int>)
      requires Valid() && root != -1 && res.Length == Count(size)
      modifies res
      ensures !nodes[root].active ==> forall p | 0 <= p < res.Length :: res[p] == 0
      ensures nodes[root].active ==>
        forall y, i | 0 <= y < |nodes| && 0 <= i < |nodes[y].pixels| ::
          res[nodes[y].pixels[i]] == nodes[MinNode(nodes, root, y)].h
      ensures nodes[root].active ==>
        forall p | 0 <= p < res.Length && (forall y | 0 <= y < |nodes| :: p !in nodes[y].pixels) ::
          res[p] == old(res[p])
    {
      var t := nodes;
      if !t[root].active {
        Fill(res, 0);
        return;
      }
      assert PixelsIn(t, res.Length) && OwnersUnique(t);
      var r := root;
      ghost var val := y => MinValue(t, r, y);
      ghost var r0 := res[..];
      var fifo := [root];
      ghost var done: set<int> := {};
      VisitStart(t, root);
      PaintStart(t, val, r0);
      while fifo != []
        invariant Shaped(t, root) && Visiting(t, root, done, fifo)
        invariant forall k | 0 <= k < |fifo| :: ActivePath(t, root, fifo[k])
        invariant PaintedBy(t, done, val, res[..], r0)
        decreases |Forest(t, fifo)|
      {
        var tmp := fifo[0];
        VisitToCover(t, root, done, fifo);
        ghost var before := res[..];
        Paint(res, t[tmp].pixels, t[tmp].h);
        PaintOne(t, done, val, before, res[..], r0, tmp);
        done := done + {tmp};
        fifo, done := MinChildren(t, root, res, tmp, fifo[1..], done, val, r0);
      }
      VisitEnd(t, root, done);
      PaintEnd(t, done, val, res[..], r0);
    }

    /** constructImageDirectExpe: the image is filled with 0; a first walk from the
        root goes down through inactive nodes to the first active node of each
        branch; a second walk from those gives each node's pixels its level and
        passes that level down to each inactive child, so every pixel ends up
        with the level of the nearest active node at or above its owner.  The
        levels of those inactive nodes stay changed in the tree. */
    method ConstructImageDirectExpe(res: array<int>)
      requires Valid() && root != -1 && res.Length == Count(size)
      modifies this, res
      ensures Valid() && root == old(root) && size == old(size)
      ensures nodes == DirectNodes(old(nodes), root)
      ensures forall y, i | 0 <= y < |old(nodes)| && 0 <= i < |old(nodes)[y].pixels| ::
        res[old(nodes)[y].pixels[i]] == DirectValue(old(nodes), root, y)
      ensures forall p | 0 <= p < res.Length && (forall y | 0 <= y < |old(nodes)| :: p !in old(nodes)[y].pixels) ::
        res[p] == 0
    {
      var t := nodes;
      Fill(res, 0);
      var tops, above := FirstActive(t, root);
      var u := DirectPaint(t, root, res, tops, above);
      nodes := u;
      DirectStable(t, root, root);
      KeepsValid(t);
    }

    /** constructImage: a fresh image of the tree's size, reconstructed by the
        chosen rule, or all 0 when there is no tree. */
    method ConstructImage(decision: Decision) returns (res: array<int>)
      requires Valid()
      modifies this
      ensures fresh(res) && res.Length == Count(size)
      ensures Valid() && root == old(root) && size == old(size)
      ensures root == -1 ==> forall p | 0 <= p < res.Length :: res[p] == 0
      ensures root != -1 && decision == Min ==>
        nodes == old(nodes) &&
        (!nodes[root].active ==> forall p | 0 <= p < res.Length :: res[p] == 0) &&
        (nodes[root].active ==>
          forall y, i | 0 <= y < |nodes| && 0 <= i < |nodes[y].pixels| ::
            res[nodes[y].pixels[i]] == nodes[MinNode(nodes, root, y)].h)
      ensures root != -1 && decision == Direct ==>
        nodes == DirectNodes(old(nodes), root) &&
        forall y, i | 0 <= y < |old(nodes)| && 0 <= i < |old(nodes)[y].pixels| ::
          res[old(nodes)[y].pixels[i]] == DirectValue(old(nodes), root, y)
      ensures root != -1 ==>
        forall p | 0 <= p < res.Length && (forall y | 0 <= y < |old(nodes)| :: p !in old(nodes)[y].pixels) ::
          res[p] == 0
    {
      res := new int[Count(size)](_ => 0);
      if root != -1 {
        match decision
        case Min => ConstructImageMin(res);
        case Direct => ConstructImageDirectExpe(res);
      }
    }

    /** The work shared by the attribute images: the image is filled with 0, the
        owner of every offset is looked up with indexedNodes, and each pixel gets
        the value attribute of the node the rule chooses from its owner.  Every
        offset must have an owner: the loops follow the owner's father links. */
    method AttributeImage(res: array<int>, value: Attribute, sel: Attribute, rule: Rule, lim: Limit)
      requires Valid() && root != -1 && res.Length == Count(size) && Covered(nodes, Count(size))
      modifies res
      ensures forall y, i | 0 <= y < |nodes| && 0 <= i < |nodes[y].pixels| ::
        res[nodes[y].pixels[i]] == GetAttribute(nodes[Chosen(nodes, root, y, sel, rule, lim)], value)
    {
      Fill(res, 0);
      var index := IndexedNodes();
      var t := nodes;
      forall p | 0 <= p < |index|
        ensures 0 <= index[p] < |t|
      {
        assert Owned(t, p);
      }
      FillAttribute(t, root, size, index, res, value, sel, rule, lim);
      forall y, i | 0 <= y < |t| && 0 <= i < |t[y].pixels|
        ensures res[t[y].pixels[i]] == GetAttribute(t[Chosen(t, root, y, sel, rule, lim)], value)
      {
        var p := t[y].pixels[i];
        assert index[p] == y;
      }
    }

    /** constructImageAttributeMin (both overloads): each pixel gets the value
        attribute of the node the walk up from its owner picks: the start node,
        replaced along the walk by each node whose selection attribute is positive
        and smaller than the current pick's. */
    method ConstructImageAttributeMin(res: array<int>, value: Attribute, sel: Attribute, lim: Limit)
      requires Valid() && root != -1 && res.Length == Count(size) && Covered(nodes, Count(size))
      modifies res
      ensures forall y, i | 0 <= y < |nodes| && 0 <= i < |nodes[y].pixels| ::
        res[nodes[y].pixels[i]] == GetAttribute(nodes[Selected(nodes, root, y, sel, Smallest, lim)], value)
    {
      AttributeImage(res, value, sel, Selecting(Smallest), lim);
    }

    /** constructImageAttributeMax (both overloads): as the Min image, the pick
        replaced by each node whose selection attribute is below top, the largest
        value of the selection attribute's type, and larger than the current pick's. */
    method ConstructImageAttributeMax(res: array<int>, value: Attribute, sel: Attribute, top: int, lim: Limit)
      requires Valid() && root != -1 && res.Length == Count(size) && Covered(nodes, Count(size))
      modifies res
      ensures forall y, i | 0 <= y < |nodes| && 0 <= i < |nodes[y].pixels| ::
        res[nodes[y].pixels[i]] == GetAttribute(nodes[Selected(nodes, root, y, sel, Largest(top), lim)], value)
    {
      AttributeImage(res, value, sel, Selecting(Largest(top)), lim);
    }

    /** constructImageAttributeDirect (both overloads): each pixel gets the value
        attribute of its owner, or of the node the limit-min climb reaches. */
    method ConstructImageAttributeDirect(res: array<int>, value: Attribute, lim: Limit)
      requires Valid() && root != -1 && res.Length == Count(size) && Covered(nodes, Count(size))
      modifies res
      ensures forall y, i | 0 <= y < |nodes| && 0 <= i < |nodes[y].pixels| ::
        res[nodes[y].pixels[i]] == GetAttribute(nodes[Start(nodes, root, y, lim)], value)
    {
      AttributeImage(res, value, value, Own, lim);
    }

    /** constructImageAttribute (both overloads): a fresh image of the tree's size,
        built by the chosen rule, or all 0 when there is no tree. */
    method ConstructImageAttribute(value: Attribute, sel: Attribute, rule: Rule, lim: Limit) returns (res: array<int>)
      requires Valid() && (root != -1 ==> Covered(nodes, Count(size)))
      ensures fresh(res) && res.Length == Count(size)
      ensures root == -1 ==> forall p | 0 <= p < res.Length :: res[p] == 0
      ensures root != -1 ==> forall y, i | 0 <= y < |nodes| && 0 <= i < |nodes[y].pixels| ::
        res[nodes[y].pixels[i]] == GetAttribute(nodes[Chosen(nodes, root, y, sel, rule, lim)], value)
    {
      res := new int[Count(size)](_ => 0);
      if root != -1 {
        match rule
        case Selecting(Smallest) => ConstructImageAttributeMin(res, value, sel, lim);
        case Selecting(Largest(top)) => ConstructImageAttributeMax(res, value, sel, top, lim);
        case Own => ConstructImageAttributeDirect(res, value, lim);
      }
    }

    /** A map over the nodes that keeps links, original levels and pixels keeps
        the tree valid. */
    lemma KeepsValid(t: seq<Node>)
      requires root != -1 && Shaped(t, root) && PixelsIn(t, Count(size)) && OwnersUnique(t)
      requires SameShape(t, nodes)
      ensures Valid()
    {
      ShapedSameShape(t, nodes, root);
      assert forall y | 0 <= y < |t| :: nodes[y].pixels == t[y].pixels;
    }
  }
}
