/** The beachline object the sweep mutates: an arena of entries, the index
    of the root entry, and (ghost) the tree the arena describes. Every
    navigation method walks the arena as the source does and is proved to
    return what the corresponding tree function specifies. */
module BeachlineState {
  import opened Wrappers
  import opened Geometry
  import opened Rays
  import opened Events
  import opened BeachlineTree
  import opened TreeFacts
  import opened TreeSplice
  import opened BeachlineArena
  import opened BeachlineQueries

  class Beachline {
    var root: Option<nat>
    var nodes: seq<BeachlineEntry>
    /** The tree the arena links describe; None while the beachline is empty. */
    ghost var shape: Option<Tree>

    /** The root field names the root of the shape, and the arena embeds
        the shape with no repeated index and no dangling link (so its child
        links alone describe the shape too). */
    ghost predicate Valid()
      reads this
    {
      LinksInRange(nodes)
      && (shape.None? ==> root.None?)
      && (shape.Some? ==>
            root == Some(Root(shape.value)) && WellFormed(nodes, shape.value)
            && Linked(nodes, shape.value))
    }

    constructor ()
      ensures root.None? && nodes == [] && shape.None?
      ensures Valid()
    {
      root := None;
      nodes := [];
      shape := None;
    }

    /** The first site: one arc entry with no links becomes the root. */
    method AddFirstParabola(p: Point)
      requires Valid() && root.None?
      modifies this
      ensures nodes == old(nodes) + [BeachlineEntry(None, None, None, ArcData(Arc(p)))]
      ensures root == Some(|old(nodes)|)
      ensures shape == Some(Leaf(|old(nodes)|))
      ensures Valid()
    {
      var entry := BeachlineEntry(None, None, None, ArcData(Arc(p)));
      root := Some(|nodes|);
      nodes := nodes + [entry];
      shape := Some(Leaf(|nodes| - 1));
    }

    /** The payload of an arc entry; the source panics on a breakpoint. */
    function ArcAt(idx: nat): (r: Arc)
      reads this
      requires idx < |nodes| && nodes[idx].data.ArcData?
      ensures nodes[idx].data == ArcData(r)
    {
      nodes[idx].data.arc
    }

    /** The arc vertically below p with the sweep line at yl: None on an
        empty beachline, otherwise the leaf Descend reaches. */
    method ArcUnderPoint(p: Point, yl: real, bpx: BreakpointAtXFn) returns (r: Option<(Arc, nat)>)
      requires Valid()
      ensures r.None? <==> root.None?
      ensures r.Some? ==> shape.Some? && r.value.1 == Descend(nodes, shape.value, p, yl, bpx)
      ensures r.Some? ==> r.value.1 < |nodes| && nodes[r.value.1].data == ArcData(r.value.0)
    {
      if root.None? {
        return None;
      }
      ghost var sub := shape.value;
      EmbedsLinked(nodes, sub, None);
      var cur := root.value;
      while nodes[cur].data.BreakPointData?
        invariant Linked(nodes, sub) && cur == Root(sub)
        invariant Descend(nodes, sub, p, yl, bpx) == Descend(nodes, shape.value, p, yl, bpx)
        decreases sub
      {
        var bp := nodes[cur].data.bp;
        var x := bpx(bp.l, bp.r, yl);
        if p.x < x {
          cur := nodes[cur].leftChild.value;
          sub := sub.left;
        } else {
          cur := nodes[cur].rightChild.value;
          sub := sub.right;
        }
      }
      r := Some((nodes[cur].data.arc, cur));
    }

    /** The leftmost arc of the subtree rooted at i, by following left
        children. */
    method Minimum(i: nat) returns (r: nat)
      requires Valid() && shape.Some? && i in Indices(shape.value)
      ensures r == Extreme(Subtree(shape.value, i), Left)
    {
      ghost var sub := Subtree(shape.value, i);
      EmbedsLinked(nodes, shape.value, None);
      SubFacts(shape.value, i);
      SubtreeFacts(nodes, sub, shape.value, None);
      var cur := i;
      while nodes[cur].data.BreakPointData?
        invariant Linked(nodes, sub) && cur == Root(sub)
        invariant Extreme(sub, Left) == Extreme(Subtree(shape.value, i), Left)
        decreases sub
      {
        cur := nodes[cur].leftChild.value;
        sub := sub.left;
      }
      r := cur;
    }

    /** The rightmost arc of the subtree rooted at i, by following right
        children. */
    method Maximum(i: nat) returns (r: nat)
      requires Valid() && shape.Some? && i in Indices(shape.value)
      ensures r == Extreme(Subtree(shape.value, i), Right)
    {
      ghost var sub := Subtree(shape.value, i);
      EmbedsLinked(nodes, shape.value, None);
      SubFacts(shape.value, i);
      SubtreeFacts(nodes, sub, shape.value, None);
      var cur := i;
      while nodes[cur].data.BreakPointData?
        invariant Linked(nodes, sub) && cur == Root(sub)
        invariant Extreme(sub, Right) == Extreme(Subtree(shape.value, i), Right)
        decreases sub
      {
        cur := nodes[cur].rightChild.value;
        sub := sub.right;
      }
      r := cur;
    }

    /** Walk up while the current entry is its parent's left child; the
        parent reached then (None above the root) is the breakpoint just
        left of i in in-order. */
    method Predecessor(i: nat) returns (r: Option<nat>)
      requires Valid() && shape.Some? && i in Indices(shape.value)
      ensures r == AncRoot(shape.value, i, Left)
    {
      ghost var t := shape.value;
      EmbedsLinked(nodes, t, None);
      LinkedInRange(nodes, t);
      var cur := i;
      while nodes[cur].parent.Some? && nodes[nodes[cur].parent.value].leftChild == Some(cur)
        invariant cur in Indices(t) && cur < |nodes|
        invariant AncRoot(t, cur, Left) == AncRoot(t, i, Left)
        decreases Depth(t, cur)
      {
        AscendStep(nodes, t, None, cur, Left);
        cur := nodes[cur].parent.value;
      }
      if cur == Root(t) {
        AncOfRoot(t, Left);
      } else {
        AscendStep(nodes, t, None, cur, Left);
      }
      r := nodes[cur].parent;
    }

    /** Walk up while the current entry is its parent's right child; the
        parent reached then (None above the root) is the breakpoint just
        right of i in in-order. */
    method Successor(i: nat) returns (r: Option<nat>)
      requires Valid() && shape.Some? && i in Indices(shape.value)
      ensures r == AncRoot(shape.value, i, Right)
    {
      ghost var t := shape.value;
      EmbedsLinked(nodes, t, None);
      LinkedInRange(nodes, t);
      var cur := i;
      while nodes[cur].parent.Some? && nodes[nodes[cur].parent.value].rightChild == Some(cur)
        invariant cur in Indices(t) && cur < |nodes|
        invariant AncRoot(t, cur, Right) == AncRoot(t, i, Right)
        decreases Depth(t, cur)
      {
        AscendStep(nodes, t, None, cur, Right);
        cur := nodes[cur].parent.value;
      }
      if cur == Root(t) {
        AncOfRoot(t, Right);
      } else {
        AscendStep(nodes, t, None, cur, Right);
      }
      r := nodes[cur].parent;
    }

    /** The arc left of i: the rightmost arc under the predecessor's left
        child; None when i is the leftmost arc. */
    method LeftArc(i: nat) returns (r: Option<(Arc, nat)>)
      requires Valid() && shape.Some? && i in Indices(shape.value)
      ensures r.None? <==> NeighbourArc(shape.value, i, Left).None?
      ensures r.Some? ==> r.value.1 == NeighbourArc(shape.value, i, Left).value
      ensures r.Some? ==> r.value.1 < |nodes| && nodes[r.value.1].data == ArcData(r.value.0)
    {
      NeighbourFacts(nodes, shape.value, i, Left);
      var pred := Predecessor(i);
      if pred.None? {
        return None;
      }
      NeighbourLink(nodes, shape.value, i, Left);
      var leftIdx := nodes[pred.value].leftChild.value;
      var arcIdx := Maximum(leftIdx);
      r := Some((ArcAt(arcIdx), arcIdx));
    }

    /** The arc right of i: the leftmost arc under the successor's right
        child; None when i is the rightmost arc. */
    method RightArc(i: nat) returns (r: Option<(Arc, nat)>)
      requires Valid() && shape.Some? && i in Indices(shape.value)
      ensures r.None? <==> NeighbourArc(shape.value, i, Right).None?
      ensures r.Some? ==> r.value.1 == NeighbourArc(shape.value, i, Right).value
      ensures r.Some? ==> r.value.1 < |nodes| && nodes[r.value.1].data == ArcData(r.value.0)
    {
      NeighbourFacts(nodes, shape.value, i, Right);
      var succ := Successor(i);
      if succ.None? {
        return None;
      }
      NeighbourLink(nodes, shape.value, i, Right);
      var rightIdx := nodes[succ.value].rightChild.value;
      var arcIdx := Minimum(rightIdx);
      r := Some((ArcAt(arcIdx), arcIdx));
    }

    /** The breakpoint bounding i on the left, with its index. */
    method LeftEdge(i: nat) returns (r: Option<(BreakPoint, nat)>)
      requires Valid() && shape.Some? && i in Indices(shape.value)
      ensures r.None? <==> AncRoot(shape.value, i, Left).None?
      ensures r.Some? ==> r.value.1 == AncRoot(shape.value, i, Left).value
      ensures r.Some? ==> r.value.1 < |nodes| && nodes[r.value.1].data == BreakPointData(r.value.0)
    {
      NeighbourFacts(nodes, shape.value, i, Left);
      var pred := Predecessor(i);
      if pred.Some? && nodes[pred.value].data.BreakPointData? {
        r := Some((nodes[pred.value].data.bp, pred.value));
      } else {
        r := None;
      }
    }

    /** The breakpoint bounding i on the right, with its index. */
    method RightEdge(i: nat) returns (r: Option<(BreakPoint, nat)>)
      requires Valid() && shape.Some? && i in Indices(shape.value)
      ensures r.None? <==> AncRoot(shape.value, i, Right).None?
      ensures r.Some? ==> r.value.1 == AncRoot(shape.value, i, Right).value
      ensures r.Some? ==> r.value.1 < |nodes| && nodes[r.value.1].data == BreakPointData(r.value.0)
    {
      NeighbourFacts(nodes, shape.value, i, Right);
      var succ := Successor(i);
      if succ.Some? && nodes[succ.value].data.BreakPointData? {
        r := Some((nodes[succ.value].data.bp, succ.value));
      } else {
        r := None;
      }
    }

    /** Queue the circle event of arc arcIdx when its neighbours' sites
        differ, its two edges meet, and the circle's top is not above the
        sweep line; leave the queue alone otherwise. */
    method CheckCircleEvent(arcIdx: nat, eq: EventQueue, yl: real, dist: DistanceFn)
      requires Valid() && shape.Some? && arcIdx in LeafSet(shape.value)
      modifies eq
      ensures eq.entries == Schedule(old(eq.entries), arcIdx, CircleTop(nodes, shape.value, arcIdx, yl, dist))
    {
      EmbedsLinked(nodes, shape.value, None);
      LinkedInRange(nodes, shape.value);
      NeighbourFacts(nodes, shape.value, arcIdx, Left);
      NeighbourFacts(nodes, shape.value, arcIdx, Right);
      var p := ArcAt(arcIdx);
      var lOpt := LeftArc(arcIdx);
      var rOpt := RightArc(arcIdx);
      var xlOpt := LeftEdge(arcIdx);
      var xrOpt := RightEdge(arcIdx);
      if lOpt.Some? && rOpt.Some? {
        if lOpt.value.0.site == rOpt.value.0.site {
          return;
        }
        var xl := xlOpt.value.0;
        var xr := xrOpt.value.0;
        var s := Intersection(xl.origin, xl.direction, xr.origin, xr.direction);
        if s.Some? {
          var r := dist(p.site, s.value);
          var circleTop := s.value.y - r;
          if circleTop > yl {
            return;
          }
          eq.Push(Circle(arcIdx), circleTop);
        }
      }
    }

    /** A site event under arc arcIdx: five entries a, xl, b, xr, c are
        appended, xl takes the arc's place under its parent (or becomes the
        root), and the circle events of the new outer arcs a and c are
        checked. */
    method ReplaceArc(arcIdx: nat, a: Arc, xl: BreakPoint, b: Arc, xr: BreakPoint, c: Arc,
                      eq: EventQueue, yl: real, dist: DistanceFn)
      requires Valid() && shape.Some? && arcIdx in LeafSet(shape.value)
      modifies this, eq
      ensures old(arcIdx < |nodes|) && nodes == SpliceArc(old(nodes), arcIdx, a, xl, b, xr, c)
      ensures old(root) == Some(arcIdx) ==> root == Some(|old(nodes)| + 1)
      ensures old(root) != Some(arcIdx) ==> root == old(root)
      ensures shape == Some(Replace(old(shape).value, arcIdx, Five(|old(nodes)|)))
      ensures Valid()
      ensures LeafSet(shape.value)
                == old(LeafSet(shape.value)) - {arcIdx} + {|old(nodes)|, |old(nodes)| + 2, |old(nodes)| + 4}
      ensures eq.entries
                == Schedule(Schedule(old(eq.entries), |old(nodes)|,
                                     CircleTop(nodes, shape.value, |old(nodes)|, yl, dist)),
                            |old(nodes)| + 4, CircleTop(nodes, shape.value, |old(nodes)| + 4, yl, dist))
    {
      ghost var t := shape.value;
      ghost var oldNodes := nodes;
      SpliceArcCorrect(nodes, t, arcIdx, a, xl, b, xr, c);
      var aIdx := |nodes|;
      SpliceIn(arcIdx, a, xl, b, xr, c);
      shape := Some(Replace(t, arcIdx, Five(aIdx)));
      EmbedsLinked(nodes, shape.value, None);
      CheckCircleEvent(aIdx, eq, yl, dist);
      CheckCircleEvent(aIdx + 4, eq, yl, dist);
    }

    /** The arena part of a site event: the five entries are appended and
        the old arc's parent (or the root) takes xl in the arc's place. The
        shape is updated by the caller. */
    method SpliceIn(arcIdx: nat, a: Arc, xl: BreakPoint, b: Arc, xr: BreakPoint, c: Arc)
      requires LinksInRange(nodes) && arcIdx < |nodes|
      modifies this
      ensures nodes == SpliceArc(old(nodes), arcIdx, a, xl, b, xr, c)
      ensures old(nodes[arcIdx].parent).None? ==> root == Some(|old(nodes)| + 1)
      ensures old(nodes[arcIdx].parent).Some? ==> root == old(root)
      ensures shape == old(shape)
    {
      ghost var oldNodes := nodes;
      var parent := nodes[arcIdx].parent;
      var aIdx := |nodes|;
      var xlIdx := aIdx + 1;
      var bIdx := aIdx + 2;
      var xrIdx := aIdx + 3;
      var cIdx := aIdx + 4;
      var aEntry := BeachlineEntry(None, None, Some(xlIdx), ArcData(a));
      var xlEntry := BeachlineEntry(Some(aIdx), Some(xrIdx), parent, BreakPointData(xl));
      var bEntry := BeachlineEntry(None, None, Some(xrIdx), ArcData(b));
      var xrEntry := BeachlineEntry(Some(bIdx), Some(cIdx), Some(xlIdx), BreakPointData(xr));
      var cEntry := BeachlineEntry(None, None, Some(xrIdx), ArcData(c));
      nodes := nodes + [aEntry];
      nodes := nodes + [xlEntry];
      nodes := nodes + [bEntry];
      nodes := nodes + [xrEntry];
      nodes := nodes + [cEntry];
      assert nodes == oldNodes + FiveEntries(aIdx, parent, a, xl, b, xr, c);
      if parent.Some? {
        var parentNode := nodes[parent.value];
        if parentNode.leftChild == Some(arcIdx) {
          nodes := nodes[parent.value := parentNode.(leftChild := Some(xlIdx))];
        } else {
          nodes := nodes[parent.value := parentNode.(rightChild := Some(xlIdx))];
        }
      } else {
        root := Some(xlIdx);
      }
    }

    /** A circle event on arc p with bounding breakpoints xlIdx and xrIdx:
        the bounding breakpoint that is not p's parent takes the merged
        breakpoint x, p's grandparent adopts p's sibling in place of p's
        parent, the sibling's parent link is re-pointed at the grandparent
        (the step the source leaves out), and the circle events of p's two
        neighbours are checked. */
    method ReplaceBreakpoint(xlIdx: nat, pIdx: nat, xrIdx: nat, x: BreakPoint,
                             eq: EventQueue, yl: real, dist: DistanceFn)
      requires Valid() && shape.Some? && pIdx in LeafSet(shape.value)
      requires AncRoot(shape.value, pIdx, Left) == Some(xlIdx)
      requires AncRoot(shape.value, pIdx, Right) == Some(xrIdx)
      modifies this, eq
      ensures old(xlIdx < |nodes| && pIdx < |nodes| && xrIdx < |nodes|)
      ensures SpliceFixed(old(nodes), xlIdx, pIdx, xrIdx, x) == Some(nodes)
      ensures root == old(root)
      ensures shape == Some(RemoveLeaf(old(shape).value, pIdx))
      ensures Valid()
      ensures LeafSet(shape.value) == old(LeafSet(shape.value)) - {pIdx}
      ensures LeafCount(shape.value) + 1 == old(LeafCount(shape.value))
      ensures NodeCount(shape.value) + 1 == old(NodeCount(shape.value))
      ensures var l := old(NeighbourArc(shape.value, pIdx, Left));
              var r := old(NeighbourArc(shape.value, pIdx, Right));
              l.Some? && r.Some? && l.value in LeafSet(shape.value) && r.value in LeafSet(shape.value)
              && eq.entries
                 == Schedule(Schedule(old(eq.entries), l.value, CircleTop(nodes, shape.value, l.value, yl, dist)),
                             r.value, CircleTop(nodes, shape.value, r.value, yl, dist))
    {
      ghost var t := shape.value;
      ghost var oldNodes := nodes;
      LeafSetInIndices(t);
      NeighbourFacts(nodes, t, pIdx, Left);
      NeighbourFacts(nodes, t, pIdx, Right);
      var lArc := LeftArc(pIdx);
      var rArc := RightArc(pIdx);
      var lIdx := lArc.value.1;
      var rIdx := rArc.value.1;
      SpliceOut(xlIdx, pIdx, xrIdx, x);
      SpliceCorrect(oldNodes, t, pIdx, xlIdx, xrIdx, x);
      RemoveArcCounts(oldNodes, t, pIdx, xlIdx, xrIdx);
      shape := Some(RemoveLeaf(t, pIdx));
      EmbedsLinked(nodes, shape.value, None);
      CheckCircleEvent(lIdx, eq, yl, dist);
      CheckCircleEvent(rIdx, eq, yl, dist);
    }

    /** The arena part of a circle event: the bounding breakpoint that is
        not p's parent takes x, the grandparent adopts p's sibling, and the
        sibling's parent link follows. The shape is updated by the caller. */
    method SpliceOut(xlIdx: nat, pIdx: nat, xrIdx: nat, x: BreakPoint)
      requires Valid() && shape.Some? && pIdx in LeafSet(shape.value)
      requires AncRoot(shape.value, pIdx, Left) == Some(xlIdx)
      requires AncRoot(shape.value, pIdx, Right) == Some(xrIdx)
      modifies this
      ensures old(xlIdx < |nodes| && pIdx < |nodes| && xrIdx < |nodes|)
      ensures SpliceFixed(old(nodes), xlIdx, pIdx, xrIdx, x) == Some(nodes)
      ensures root == old(root) && shape == old(shape)
    {
      ghost var q, g, su, other := SpliceSetting(nodes, shape.value, pIdx, xlIdx, xrIdx);
      SpliceUnfold(nodes, xlIdx, pIdx, xrIdx, x);
      var parentIdx := nodes[pIdx].parent.value;
      var otherIdx := if parentIdx == xrIdx then xlIdx else xrIdx;
      nodes := nodes[otherIdx := nodes[otherIdx].(data := BreakPointData(x))];
      var parentNode := nodes[parentIdx];
      var sibling := if parentNode.leftChild.value == pIdx then parentNode.rightChild else parentNode.leftChild;
      var grannyIdx := parentNode.parent.value;
      var grannyNode := nodes[grannyIdx];
      if grannyNode.leftChild.value == parentIdx {
        nodes := nodes[grannyIdx := grannyNode.(leftChild := sibling)];
      } else {
        nodes := nodes[grannyIdx := grannyNode.(rightChild := sibling)];
      }
      nodes := nodes[sibling.value := nodes[sibling.value].(parent := Some(grannyIdx))];
    }

    /** Append one clipped segment per breakpoint still on the beachline, in
        pre-order; earlier segments are kept. */
    method ExtendEdgesToBoundingBox(box: BoundingBox, edges: seq<Segment>) returns (edges': seq<Segment>)
      requires Valid()
      ensures shape.None? ==> edges' == edges
      ensures shape.Some? ==> edges' == edges + EdgeSegments(nodes, shape.value, box)
      ensures shape.Some? ==> |edges'| == |edges| + NodeCount(shape.value)
    {
      edges' := ExtendEdgesAux(box, edges, root, shape);
      if shape.Some? {
        EdgeSegmentsPreOrder(nodes, shape.value, box);
      }
    }

    /** The pre-order walk from the entry sub (nothing for None), where u is
        the subtree rooted there. */
    method ExtendEdgesAux(box: BoundingBox, edges: seq<Segment>, sub: Option<nat>, ghost u: Option<Tree>)
      returns (edges': seq<Segment>)
      requires u.None? <==> sub.None?
      requires u.Some? ==> Linked(nodes, u.value) && sub == Some(Root(u.value))
      ensures u.None? ==> edges' == edges
      ensures u.Some? ==> edges' == edges + EdgeSegments(nodes, u.value, box)
      decreases if u.None? then 0 else |InOrder(u.value)|
    {
      edges' := edges;
      if sub.Some? {
        var node := nodes[sub.value];
        if node.data.BreakPointData? {
          edges' := edges' + [BoundedSegment(node.data.bp.origin, node.data.bp.direction, box)];
        }
        ghost var l := if u.value.Node? then Some(u.value.left) else None;
        ghost var r := if u.value.Node? then Some(u.value.right) else None;
        edges' := ExtendEdgesAux(box, edges', node.leftChild, l);
        edges' := ExtendEdgesAux(box, edges', node.rightChild, r);
      }
    }
  }
}
