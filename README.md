# Max-tree (component tree) of libTIM, modelled in Dafny

This project models the integer core of libTIM's component tree, a max-tree over a
grey-level image, and the flat morphology it relies on. It covers:

- the Salembier flooding that builds the tree (`init`, `computeTree`, `flood`,
  `update_attributes`, `link_node`, `new_node`);
- the integer attribute traversals run on the finished tree: area, volume,
  contrast, bounding box, contour length and border pixels, and the ancestor walk
  of the MSER measure;
- the `computeAttributes` dispatcher driven by a selection mask;
- the queries and state changes on the tree: `restore`, `setFalse`, the three
  filters, `merge_pixels`, `merge_pixelsFalseNodes`, `isInclude`, `indexedNodes`,
  `offsetToNode` and `coordToNode`;
- image reconstruction: `constructImage` with the MIN and DIRECT rules,
  `constructNode`, `constructNodeDirect` and the attribute images;
- the morphology helpers: both `addBorders` overloads, `dilation`, `erosion`,
  `opening`, `closing` and the three gradients.

## How the model is laid out

- **Nodes.** The nodes of a tree live in an arena `seq<Node>`. Nodes refer to one
  another by index, and the root is its own father (`tree.dfy`).
- **Subtrees.** `Desc(t, n)` is the subtree of `n` in pre-order. Walks down the
  tree terminate because a child's original level is strictly above its father's.
- **Images.** An image is a size and a row-major `seq` of samples, with
  offset = x + y·sx + z·sx·sy (`grid.dfy`). A connectivity is a sequence of points
  or, once its context is set, of relative offsets.
- **Attribute passes.** The library's recursive passes update nodes in place. Here
  each pass takes the arena and returns the updated arena. Its contract states,
  node by node, the value it leaves as a function of the arena it was given
  (`SubtreeArea`, `SubtreeVolume`, `ContrastOf`, `SubtreeBox`, `Counted`/`Hits`).
  Lemmas then prove what those values mean.
- **The tree object.** `ComponentTree` is a class with a `nodes` field, and its
  walks reassign that field. The reconstruction methods write an `array<int>`.
- **The builder.** The builder object is a class (`Salembier.Builder`) with the
  STATUS grid, the per-level FIFOs, `number_nodes`, `node_at_level`, the
  per-level index (a map from (level, number) to a node) and the arena. Each
  method's `modifies` clause names the fields it writes. The invariant `Inv()`
  is kept by every step. Node by node, it says that the area counts the pixels,
  that the box is their hull, and that a node still without a father is the
  current node of an open level. When `computeTree` ends every level is closed,
  so every node has been linked and the arena is a tree. The builder's input
  (`Setup`) is what `init` makes of the image and the connectivity
  (`init.dfy`, module `Initialisation`).
- **Termination of `flood`.** `flood` terminates because every enqueue flips one
  ACTIVE cell to NOT_ACTIVE. The measure is the number of ACTIVE cells plus the
  number of queued cells.

## Model

| member | source | states |
|---|---|---|
| Morphology.AddBorders | Algorithms/Morphology.hxx:18-37 | the result has size ori + pre + post per axis, and every cell holds the original sample at its coordinates less pre, or v outside the copy |
| Morphology.PaddedPlacesOriginal | Algorithms/Morphology.hxx:33-34 | the original sample at p lands at p + pre in the padded grid |
| Morphology.PaddedBorder | Algorithms/Morphology.hxx:33 | every cell of the padded grid outside the copy of the original holds v |
| Morphology.AddBordersSE | Algorithms/Morphology.hxx:39-78 | back = min(0, smallest point coordinate) and front = max(0, largest) per axis; the result is the original padded by abs(back) before and front after, with v around it |
| Grid.PointsWithinExtents | Algorithms/Morphology.hxx:50-62 | every point of the element lies within the extents that size the borders |
| Grid.Lowest | Algorithms/Morphology.hxx:50-55 | the back offset is at most 0 and at most every coordinate of the element along the axis |
| Grid.Highest | Algorithms/Morphology.hxx:57-62 | the front offset is at least 0 and at least every coordinate of the element along the axis |
| Grid.MakeSymmetric | Algorithms/Morphology.hxx:84-86 | the symmetric element holds the negation of each point, in order |
| Grid.CoordOfOffset | Algorithms/ComponentTree.hxx:1457-1463 | decoding the offset x + y·sx + z·sx·sy of an in-grid point gives the point back |
| Grid.OffsetOfCoord | Algorithms/ComponentTree.hxx:1457-1463 | every offset in range is the offset of the point it decodes to |
| Grid.OffsetInjective | Algorithms/ComponentTree.hxx:1462-1463 | distinct in-grid points have distinct offsets |
| Morphology.Dilation | Algorithms/Morphology.hxx:80-117 | the output has the input's size, and each sample is the running maximum, from the type's minimum, of the input over the symmetric element, read through minimum-valued padding |
| Morphology.Erosion | Algorithms/Morphology.hxx:119-152 | the output has the input's size, and each sample is the running minimum, from the type's maximum, of the input over the element, read through maximum-valued padding |
| Morphology.SupOverIsMax | Algorithms/Morphology.hxx:105-113 | the running maximum is exactly the maximum of the pad and every sample read |
| Morphology.InfOverIsMin | Algorithms/Morphology.hxx:140-148 | the running minimum is exactly the minimum of the pad and every sample read |
| Morphology.DilationImageAt | Algorithms/Morphology.hxx:88-113 | reading through the padding gives the dilation at every in-grid point; out-of-grid neighbours read the minimum and never raise it |
| Morphology.ErosionImageAt | Algorithms/Morphology.hxx:123-148 | reading through the padding gives the erosion at every in-grid point; out-of-grid neighbours read the maximum and never lower it |
| Morphology.Opening | Algorithms/Morphology.hxx:154-157 | opening is dilation of the erosion, with the same element |
| Morphology.Closing | Algorithms/Morphology.hxx:159-162 | closing is erosion of the dilation, with the same element |
| Morphology.MorphologicalGradient | Algorithms/Morphology.hxx:164-170 | pointwise dilation minus erosion |
| Morphology.InternalMorphologicalGradient | Algorithms/Morphology.hxx:172-177 | pointwise image minus erosion |
| Morphology.ExternalMorphologicalGradient | Algorithms/Morphology.hxx:179-184 | pointwise dilation minus image |
| Morphology.OriginMakesDilationExtensive | Algorithms/Morphology.hxx:80-152 | with the origin in the element, dilation never lowers and erosion never raises a sample |
| Morphology.GradientNonNegative | Algorithms/Morphology.hxx:164-184 | with the origin in the element, the three gradients are nonnegative |
| Morphology.OpeningAntiExtensive | Algorithms/Morphology.hxx:154-157 | for any element, opening never raises a sample |
| Morphology.ClosingExtensive | Algorithms/Morphology.hxx:159-162 | for any element, closing never lowers a sample |
| Tree.DescIffAnc | Algorithms/ComponentTree.hxx:1644-1647 | in a linked tree, the subtree of x is exactly the set of nodes that x is an ancestor of |
| Tree.RootAncOfAll | Algorithms/ComponentTree.hxx:1535-1536 | the self-parented root is an ancestor of every node |
| Tree.RootCoversAll | Algorithms/ComponentTree.hxx:1535-1536 | every node lies in the subtree of the root |
| Tree.DescDistinct | Algorithms/ComponentTree.hxx:1644-1647 | no node appears twice in a subtree |
| Tree.SiblingsDisjoint | Algorithms/ComponentTree.hxx:1644-1647 | the subtrees of two different children of a node share no node |
| Tree.FatherBelow | Algorithms/ComponentTree.hxx:1523-1533 | every node other than the root has a father in the arena, at a strictly lower original level |
| Flooding.FreshNode | Algorithms/ComponentTree.hxx:1650-1657 | a new node has ori_h = h = the given level, the given label, no father, no children, no pixels and a zero area; its box is the hull of no pixels |
| Flooding.AddPixel | Algorithms/ComponentTree.hxx:1454-1478 | the pixel's original offset joins the node's pixels; area grows by 1, sum by h and sum_square by h·h; the new box is the hull of the old box and the pixel's coordinates |
| Flooding.PixelHullLeast | Algorithms/ComponentTree.hxx:1470-1477 | the box update_attributes builds from a node's pixels encloses each pixel, and a box encloses all the pixels iff it encloses that box; with no pixel the box is empty |
| Flooding.LinkedTree | Algorithms/ComponentTree.hxx:1520-1539 | once every level is closed, every node has been linked: each child names its father, no child is listed twice, and every node but the self-parented root sits among its father's children above it |
| Flooding.LinkKeeps | Algorithms/ComponentTree.hxx:1526-1533 | linking under a node of lower level keeps every child above its father, and keeps all levels and pixel lists |
| Flooding.ImBagOnce | Algorithms/ComponentTree.hxx:1456-1465 | distinct padded cells inside the original image give each original offset at most once |
| Flooding.ActiveCountSet | Algorithms/ComponentTree.hxx:1503-1505 | marking an ACTIVE cell NOT_ACTIVE lowers the number of ACTIVE cells by one |
| Salembier.Builder.constructor | Algorithms/ComponentTree.hxx:1575-1641 | every padded cell is ACTIVE except the border, which is BORDER_STATUS; one empty queue, a zero count and a closed flag per level; no node |
| Initialisation.InitSetupReady | Algorithms/ComponentTree.hxx:1575-1603 | the setup `init` builds satisfies everything the builder's constructor asks: the padded image and STATUS grids have the padded size; a cell is border exactly when it lies outside the copy of the original, and then holds the border value; every other cell has a level in [hMin, hMax] and all its connectivity neighbours inside the padded grid; each original pixel is read back at its place; and, for an image with a pixel, some non-border cell holds hMin |
| Initialisation.Init | Algorithms/ComponentTree.hxx:1575-1603 | `init` pads the image and the all-ACTIVE STATUS grid with `addBorders` by the connectivity's extents, sets the context, takes hMin and hMax from the image, and leaves a builder whose invariant holds, with one empty queue per level and an ACTIVE cell of level hMin, as `computeTree` needs |
| Initialisation.ImageMinAttained | Algorithms/ComponentTree.hxx:1598 | hMin, the image's minimum, is attained by one of its samples, and no sample is below it |
| Initialisation.ImageMaxAttained | Algorithms/ComponentTree.hxx:1599 | hMax, the image's maximum, is attained by one of its samples, and no sample is above it |
| Salembier.Builder.NodeAt | Algorithms/ComponentTree.hxx:1490-1493 | the node of (level, number) is created by new_node on first use and otherwise returned unchanged |
| Salembier.Builder.Pop | Algorithms/ComponentTree.hxx:1484-1495 | the head of queue h is taken and labelled with number_nodes[h], and its pixel joins that component's node; queued cells drop by one |
| Salembier.Builder.Take | Algorithms/ComponentTree.hxx:1485-1488 | the labelling of the head of queue h and update_attributes on its node, keeping the invariant |
| Salembier.Builder.Enqueue | Algorithms/ComponentTree.hxx:1503-1507 | an ACTIVE neighbour is queued at its own level and marked NOT_ACTIVE, and that level is marked open; ACTIVE cells drop by one |
| Salembier.Builder.ComputeTree | Algorithms/ComponentTree.hxx:1543-1571 | the nodes form a tree (`Shaped`): the node of component 0 at hMin is the self-parented root, every other node is among its father's children, each child names its father, and children sit strictly above their fathers; the node pixel lists hold the original offset of each labelled cell exactly once, and the labelled cells are exactly the cells taken off the queues; each node's area is the number of its pixels and its box is the hull of their coordinates; a cell labelled k at grey level l sits, by its original offset, among the pixels of the node the index holds for (l − hMin, k) (`Placed`); every node keeps h = oriH and every pixel it owns has that grey level, so the grey levels of the tree's pixels add up to those of the labelled cells |
| Flooding.Finished | Algorithms/ComponentTree.hxx:1486-1495 | once every level is closed and the root is its own father, the nodes form a tree, each original offset is owned at most once, the labelled cells are exactly the taken ones, and the pixels of the tree weigh what the labelled cells weigh |
| Flooding.ArenaMass | Algorithms/ComponentTree.hxx:1454-1463 | when the arena's pixels are, as a multiset, the original offsets of the taken cells, the grey levels of the pixels of the root's subtree add up to those of the taken cells |
| Flooding.CoverPixels | Algorithms/ComponentTree.hxx:1463 | a list that names every node of the arena exactly once holds, as a multiset, all the pixels of the arena |
| Flooding.PixelMassPerm | Algorithms/ComponentTree.hxx:1463 | the summed grey level of a pixel list depends only on its multiset of pixels |
| Flooding.CellOfImOffset | Algorithms/ComponentTree.hxx:1456-1462 | the offset conversion of update_attributes is undone by the padding: a cell inside the original image is the padded cell of its own original offset |
| Salembier.Builder.Seed | Algorithms/ComponentTree.hxx:1548-1552 | the first cell in grid order that is ACTIVE at level hMin |
| Salembier.Builder.Flood | Algorithms/ComponentTree.hxx:1481-1540 | flood(h) returns the nearest lower open level or -1; in the latter case the root is its own father; levels below h stay open with their counts; ACTIVE plus queued cells never grow |
| Salembier.Builder.Drain | Algorithms/ComponentTree.hxx:1484-1519 | the loop of flood(h) ends with queue h empty, keeping the invariant |
| Salembier.Builder.Step | Algorithms/ComponentTree.hxx:1485-1518 | one pass of the loop strictly lowers ACTIVE plus queued cells |
| Salembier.Builder.Neighbours | Algorithms/ComponentTree.hxx:1500-1518 | the neighbour loop keeps the invariant and never raises ACTIVE plus queued cells |
| Salembier.Builder.Visit | Algorithms/ComponentTree.hxx:1501-1517 | an ACTIVE neighbour is queued, and a higher one is flooded first down to h again |
| Salembier.Builder.FloodTo | Algorithms/ComponentTree.hxx:1509-1516 | the do-while floods level l and each open level it returns until it comes back to h |
| Salembier.Builder.Finish | Algorithms/ComponentTree.hxx:1520-1539 | number_nodes[h] grows by one and level h is closed; m is the nearest lower open level, or -1 when the root has just been made its own father |
| Salembier.Builder.NearestOpen | Algorithms/ComponentTree.hxx:1523-1524 | m is the highest open level below h, or -1 when there is none |
| Salembier.Builder.Attach | Algorithms/ComponentTree.hxx:1526-1533 | the finished node of level h gets, as its father, the current node of level m, created if need be |
| Salembier.Builder.MakeRoot | Algorithms/ComponentTree.hxx:1534-1537 | the node of component 0 at the lowest level becomes its own father |
| Salembier.Builder.LinkNode | Algorithms/ComponentTree.hxx:1644-1647 | the child's father becomes tree, which gains the child at the end of its children; no other field of the builder changes |
| Attributes.ComputeArea | Algorithms/ComponentTree.hxx:1000-1011 | every node of the subtree gets the sum of the stored areas over its own subtree, nodes outside are untouched, and the returned value is the area of n |
| Attributes.AreaCountsPixels | Algorithms/ComponentTree.hxx:1000-1011 | when each node stores its own pixel count, the summed area of a subtree is the number of pixels its nodes own |
| Attributes.AreaThenCounted | Algorithms/ComponentTree.hxx:1466 | running the area pass on the builder's counts leaves every subtree's pixel count on its top node |
| Attributes.ComputeVolume | Algorithms/ComponentTree.hxx:1176-1196 | every node of the subtree gets area·(h − h(father)) summed over its subtree, with h itself for the root; levels and areas do not change |
| Attributes.VolumeTelescopes | Algorithms/ComponentTree.hxx:1166-1196 | once areas count pixels, a subtree's volume is its grey mass less its pixel count times its father's level |
| Attributes.RootVolumeIsGreyMass | Algorithms/ComponentTree.hxx:1168-1170 | once areas count pixels, the root's volume is the sum over all nodes of pixel count times level, the grey mass of the pixels the tree holds |
| Dispatch.BuiltRootVolume | Algorithms/ComponentTree.hxx:1166-1196 | on a tree as the builder leaves it, the volume computeAttributes stores on the root (area and volume selected) is the sum of the grey levels of the pixels of the tree, which `Salembier.Builder.ComputeTree` equates with the sum of the grey levels of the labelled cells |
| Attributes.ComputeContrast | Algorithms/ComponentTree.hxx:981-997 | every node of the subtree gets its contrast: the largest h(c) − h(n) + contrast(c) over its children, floored at 0 |
| Attributes.ContrastBounds | Algorithms/ComponentTree.hxx:981-997 | the contrast of y is at least h(z) − h(y) for every z of its subtree (so never negative) |
| Attributes.ContrastReached | Algorithms/ComponentTree.hxx:981-997 | the contrast of y equals h(z) − h(y) for some z of its subtree (so 0 for a leaf) |
| Attributes.MserAncestor | Algorithms/ComponentTree.hxx:1068-1073 | the walk ends at an ancestor of n; reached holds iff h(n) − h(m) ≥ delta; otherwise m's father is the root; the root itself is reached only from the root |
| Boxes.ComputeBoundingBox | Algorithms/ComponentTree.hxx:1343-1374 | every node's box becomes the hull of the boxes of its subtree; nothing else changes |
| Boxes.BoxSubtree | Algorithms/ComponentTree.hxx:1360-1372 | each node of the subtree of n gets the hull of its subtree's boxes; nodes outside are untouched |
| Boxes.SubtreeBoxLeast | Algorithms/ComponentTree.hxx:1343-1374 | the hull of a subtree's boxes encloses each of them, and a box encloses them all iff it encloses the hull |
| Contour.ScanCell | Algorithms/ComponentTree.hxx:1245-1265 | contour holds iff some neighbour is border or lower than the cell; hitsBorder holds iff some neighbour is border; otherwise minValue is the running minimum, from the cell's own level, of its lower neighbours |
| Contour.ChainIsAncestors | Algorithms/ComponentTree.hxx:1266-1307 | the nodes the walk bumps are the ancestors y of the cell's node with h(y) above minValue, or all of them up to the root when the border is hit |
| Contour.FloodReady | Algorithms/ComponentTree.hxx:1486-1495 | once every non-border cell is labelled, the builder's STATUS and index give the contour pass what it reads: each cell's node exists in the index and stands at the cell's grey level, as `Contour.CellChainMeaning` requires, and no cell lies below the root |
| Contour.CellChainMeaning | Algorithms/ComponentTree.hxx:1244-1309 | a cell counts toward node y iff it is not border, y is an ancestor of its node, and it touches the border or has a neighbour below h(y) |
| Contour.ClimbAbove | Algorithms/ComponentTree.hxx:1271-1286 | the walk below the border bumps exactly the chain of nodes above minValue |
| Contour.ClimbToRoot | Algorithms/ComponentTree.hxx:1287-1306 | the walk from a border-touching cell bumps every node up to and including the root |
| Contour.ComputeContour | Algorithms/ComponentTree.hxx:1232-1311 | each node's contourLength grows by the number of cells that count toward it; with save_pixels, their original offsets are appended to pixels_border in grid order |
| Dispatch.ComputeAttributes | Algorithms/ComponentTree.hxx:1405-1449 | nothing for a missing tree; otherwise each node holds exactly the selected attributes, each as its own pass computes it, the volume from the areas of the same call when area is selected, one contour pass for border gradient or complexity |
| Dispatch.AttributesRead | Algorithms/ComponentTree.hxx:378-424 | getAttribute after computeAttributes on the builder's tree: H is the node's level; with area selected, AREA is the number of pixels of its subtree; with contrast selected, CONTRAST bounds and is reached by the level differences to its subtree; with area and volume selected, VOLUME is the subtree's grey mass less its pixel count times the father's level (0 at the root) |
| Queries.GetAttribute | Algorithms/ComponentTree.hxx:378-424 | the case analysis alone: H, AREA, CONTRAST, VOLUME and CONTOUR_LENGTH each read their own field of the node; what those fields hold is `Dispatch.AttributesRead` |
| Queries.FilterOnlyDeactivates | Algorithms/ComponentTree.hxx:844-903 | after a filter a node is active iff it was active and its attribute lies in [tMin, tMax]; no other field changes |
| Queries.RestoreUndoesFilter | Algorithms/ComponentTree.hxx:826-841 | restoring after any filter, or after setFalse, gives the same arena as restoring alone |
| Queries.FiltersCommute | Algorithms/ComponentTree.hxx:844-903 | two filters applied in either order give the same arena |
| Queries.RestoredIsOriginal | Algorithms/ComponentTree.hxx:826-841 | after restore every node is active at its original level; restoring twice is restoring once |
| Queries.SubtreePixels | Algorithms/ComponentTree.hxx:758-773 | a pixel is among the pixels of n's subtree iff a node that n is an ancestor of owns it |
| Queries.InactiveDescIff | Algorithms/ComponentTree.hxx:778-796 | the inactive part of n's subtree is exactly the nodes reached from n through inactive nodes only; it is empty when n is active |
| ComponentTrees.ComponentTree.Walk | Algorithms/ComponentTree.hxx:706-722 | the breadth-first walk from the root applies the node update to every node exactly as a map over the arena; without a root nothing happens |
| ComponentTrees.ComponentTree.Restore | Algorithms/ComponentTree.hxx:826-841 | nodes become Restored(old nodes): every node active at its original level |
| ComponentTrees.ComponentTree.SetFalse | Algorithms/ComponentTree.hxx:706-722 | nodes become Deactivated(old nodes): every node inactive |
| ComponentTrees.ComponentTree.AreaFiltering | Algorithms/ComponentTree.hxx:844-862 | nodes become Filtered on area with [tMin, tMax]; the result is 0 |
| ComponentTrees.ComponentTree.VolumicFiltering | Algorithms/ComponentTree.hxx:865-882 | nodes become Filtered on volume with [tMin, tMax] |
| ComponentTrees.ComponentTree.ContrastFiltering | Algorithms/ComponentTree.hxx:885-903 | nodes become Filtered on contrast with [tMin, tMax]; the result is 0 |
| ComponentTrees.ComponentTree.OffsetToNode | Algorithms/ComponentTree.hxx:950-969 | the result is -1 iff no node owns the offset, and otherwise a node owning it |
| ComponentTrees.ComponentTree.CoordToNode | Algorithms/ComponentTree.hxx:912-915 | the same, for the offset of (x, y, z) |
| ComponentTrees.ComponentTree.IndexedNodes | Algorithms/ComponentTree.hxx:925-947 | for every offset of the image, the node owning it, or -1 when none does |
| ComponentTrees.ComponentTree.ConstructNode | Algorithms/ComponentTree.hxx:668-683 | every pixel of every node of the subtree gets that node's own level; the other pixels keep their value |
| ComponentTrees.ComponentTree.ConstructNodeDirect | Algorithms/ComponentTree.hxx:686-703 | every pixel of the subtree gets the level of the start node; the other pixels keep their value |
| ComponentTrees.ComponentTree.ConstructImageMin | Algorithms/ComponentTree.hxx:202-230 | with an inactive root every pixel is 0; otherwise each pixel gets the level of the deepest node on its branch whose path to the root is all active |
| ComponentTrees.ComponentTree.ConstructImageDirectExpe | Algorithms/ComponentTree.hxx:310-350 | each pixel gets the level of the nearest active node at or above its owner, or 0; inactive nodes below an active one take that level, and nothing else changes |
| ComponentTrees.ComponentTree.ConstructImage | Algorithms/ComponentTree.hxx:353-374 | a fresh image of the tree's size: all 0 without a tree, else the MIN or DIRECT reconstruction; pixels owned by no node stay 0 |
| ComponentTrees.ComponentTree.ConstructImageAttributeMin | Algorithms/ComponentTree.hxx:427-455 | each pixel gets the value attribute of the node the walk up from its owner (below the root) picks: the start node, replaced along the walk by each node whose selection attribute is positive and smaller than the current pick's |
| ComponentTrees.ComponentTree.ConstructImageAttributeMax | Algorithms/ComponentTree.hxx:459-488 | each pixel gets the value attribute of the node the walk up from its owner (below the root) picks: the start node, replaced along the walk by each node whose selection attribute is below the type's maximum and larger than the current pick's |
| ComponentTrees.ComponentTree.ConstructImageAttributeDirect | Algorithms/ComponentTree.hxx:492-504 | each pixel gets the value attribute of its owner, or of the node the limit-min climb reaches |
| ComponentTrees.ComponentTree.ConstructImageAttribute | Algorithms/ComponentTree.hxx:609-665 | a fresh image of the tree's size: all 0 without a tree, else the attribute image of the chosen rule |
| AttributeImages.ClimbStops | Algorithms/ComponentTree.hxx:519-523 | the limit-min climb stops at the first ancestor whose father is the root or has a limit attribute of at least limit_min, passing only nodes below it |
| AttributeImages.SelectBest | Algorithms/ComponentTree.hxx:527-539 | the selecting walk keeps its start or picks a node it reaches with a better selection value, and no node it reaches is better than its pick |
| AttributeImages.SelectedAbove | Algorithms/ComponentTree.hxx:508-543 | the node an attribute image uses for a pixel lies on the branch of its owner |
| Walks.MergePixels | Algorithms/ComponentTree.hxx:758-773 | as a multiset, the result is exactly the pixels owned by the nodes of n's subtree |
| Walks.MergePixelsInto | Algorithms/ComponentTree.hxx:800-811 | init followed by the pixels of n's subtree, as a multiset |
| Walks.MergePixelsFalseNodes | Algorithms/ComponentTree.hxx:778-796 | the pixels of the inactive part of n's subtree, as a multiset; nothing when n is active |
| Walks.IsInclude | Algorithms/ComponentTree.hxx:727-754 | false when the element has more points than the component has pixels; otherwise true iff the element shifted to some pixel lies inside the pixels |
| Walks.FitsNeedsRoom | Algorithms/ComponentTree.hxx:730-731 | for an element with distinct offsets, the size guard never changes the answer |
| Walks.FirstActive | Algorithms/ComponentTree.hxx:313-331 | the first walk collects, each exactly once, the active nodes with no active node strictly above them, and nothing else; every other node of the tree is either below a collected node or has no active node at or above it |
| Walks.TopsFirst | Algorithms/ComponentTree.hxx:313-331 | when the first walk's queue is empty, a node is collected if and only if it is active with no active ancestor, and no node is collected twice |
| Walks.DirectPaint | Algorithms/ComponentTree.hxx:333-349 | the second walk paints each node's pixels with its level after passing the father's level down to every inactive child |
| Reconstruction.MinAllActive | Algorithms/ComponentTree.hxx:202-230 | with every node active, the MIN rule gives each pixel its own node's level |
| Reconstruction.MinLowers | Algorithms/ComponentTree.hxx:202-230 | on a restored tree the MIN rule never raises a pixel above its own node's level |
| Reconstruction.DirectAllActive | Algorithms/ComponentTree.hxx:310-350 | with every node active, the DIRECT rule gives each pixel its own node's level |
| Reconstruction.DirectStable | Algorithms/ComponentTree.hxx:343-345 | reconstructing again after a DIRECT reconstruction paints the same values |
| Reconstruction.PrunedRulesAgree | Algorithms/ComponentTree.hxx:202-350 | when the active nodes are closed upwards and the root is active, MIN and DIRECT give the same values |

## Left out

- Image file I/O (PGM/PPM reading and writing) is not part of this model.
- The structuring-element generators in FlatSE.hxx are not part of this model. A
  connectivity is any sequence of points, with the per-axis extents computed from
  it.
- Sample types are unbounded integers. `numeric_limits<T>::min()` and `max()` in
  dilation and erosion, and BORDER in the builder, are parameters.
- Integer width, wrap-around and truncation are not modelled. This covers the
  `(int)` casts in the volume, the `int` counters and the `int64_t` areas.
- The floating-point attributes are not modelled: mean, variance, Otsu, the
  neighbourhood attributes, the area derivatives, the MSER ratios, the border
  gradient, complexity and compacity. Of `computeMSER`, only the integer ancestor
  walk is modelled.
- `computeSubNodes` is not modelled: it overwrites its count inside the child loop.
- `constructImageMax` is not modelled: the library marks it as not working. The
  MAX choice of `constructImage` is left out with it.
- `constructImageDirect` (the non-Expe variant) is not part of this model.
- `constructImageOptimized` is not part of this model.
- `erase_tree` and the destructor are not modelled: the arena makes them
  unnecessary.
- The tree constructors are not part of this model.
- Salembier.Builder.ComputeTree does not model these parts of `init` or its end:
  - computing the gradient image `imGradient`;
  - the histogram that sizes the index;
  - cropping STATUS back to the original size;
  - copying the index and hMin into the tree.

  The padded image, the border mask, the context-set connectivity and hMin are its
  input (`Setup`). `Initialisation.Init` builds that input from the image and the
  connectivity as `init` does, and `Initialisation.InitSetupReady` proves it meets
  the builder's requirements.
- Salembier.Builder.ComputeTree does not prove that every non-border cell ends up
  labelled (completeness of the flooding). It proves that the labelled cells are
  exactly the cells taken off the queues, each once. So the grey mass it and
  Dispatch.BuiltRootVolume state is that of the labelled cells; it is the sum of
  all grey levels of the image, as the library's comment on computeVolume says,
  only when every cell is labelled. For the same reason Contour.FloodReady takes
  that completeness as a hypothesis. Completeness does not hold for every
  connectivity: with one that does not connect the grid (the origin alone, say),
  `flood` never reaches some cells. Proving it would need a connectivity
  hypothesis the model does not carry.
- Initialisation.Init requires an image with at least one pixel. For an empty
  image `getMin` and `getMax` have no sample to read, and the model does not say
  what `init` does then. Init leaves out the gradient image and the histogram that
  sizes the index, as stated above. `Image::getMin` and `Image::getMax` are not
  part of this model; they are taken to return the smallest and largest sample.
- Salembier.Builder.ComputeTree queues the seed through Enqueue, which marks it
  NOT_ACTIVE; the library pushes it with its STATUS left ACTIVE. The seed is the
  only queued cell, so it is taken off the queue and labelled before any neighbour
  is examined, and the two agree.
- Flooding.FreshNode starts the counters at 0, the lower bounds of the box at
  `far` and the upper bounds at -1. `far` is a parameter above every coordinate
  of the original image, so the first pixel sets the box. Node's own constructor
  is not part of this model, and this is the start it is assumed to give.
- Walks.MergePixels, Walks.MergePixelsInto and Walks.MergePixelsFalseNodes
  state the gathered pixels as a multiset. The breadth-first order in which the
  library appends them is not promised.
- ComponentTrees.ComponentTree.ConstructImage and
  ComponentTrees.ComponentTree.ConstructImageAttribute start from an array of
  zeros. This assumes that the library's `Image` constructor fills a new image
  with zeros; that constructor is not part of this model.
- Boxes.ComputeBoundingBox is a recursive post-order, not the library's
  breadth-first order replayed backwards from a stack. Every node still ends with
  the hull of its subtree. Called on a node other than the root, the library would
  also merge that node's box into its father; the model only covers the call from
  the root that the dispatcher makes.
- Contour.ComputeContour starts the running minimum at the cell's own level, not
  at the type's maximum. The two agree for every contour cell that does not touch
  the border, since a lower neighbour then exists.
- Contour.ComputeContour takes the level index as h − hMin.
- Contour.ComputeContour requires that the root's level be at most every cell's
  level (the `Ready` condition). Without it, the library's non-border walk would
  climb past the root forever.
- Dispatch.ComputeAttributes drops the `delta` parameter, which only the MSER
  ratios use.
- Dispatch.ComputeAttributes leaves out the Otsu branch, including its integer
  sums, as well as the area-derivative branch, the border-gradient and complexity
  computations, and the sub-node count. The flag bit values are not part of the
  model: each flag is a field of `Selection`.
- ComponentTrees.ComponentTree.Restore returns nothing, and so does
  ComponentTrees.ComponentTree.VolumicFiltering. The library declares both `int`
  but has no return statement.
- ComponentTrees.ComponentTree.AttributeImage requires every offset to have an
  owner (`Covered`). The library would follow a null owner otherwise.
- Queries.GetAttribute covers only the integer attributes H, AREA, CONTRAST,
  VOLUME and CONTOUR_LENGTH.
