/** Questions the sweep asks of a well-formed arena: the arc under a point,
    the neighbours of an arc, the circle event an arc would get, the queue
    after scheduling it, and the edges left when the sweep ends. */
module BeachlineQueries {
  import opened Wrappers
  import opened Geometry
  import opened Rays
  import opened Events
  import opened BeachlineTree
  import opened TreeFacts
  import opened BeachlineArena

  /** The arc found by descending from the root of t towards the point p:
      left at a breakpoint whose parabola intersection lies right of p.x,
      right otherwise. The intersection abscissa is the uninterpreted bpx. */
  function Descend(nodes: seq<BeachlineEntry>, t: Tree, p: Point, yl: real, bpx: BreakpointAtXFn): (r: nat)
    requires Linked(nodes, t)
    ensures r in LeafSet(t) && r < |nodes| && nodes[r].data.ArcData?
    ensures t.Node? && p.x < bpx(nodes[t.idx].data.bp.l, nodes[t.idx].data.bp.r, yl) ==> r in LeafSet(t.left)
    ensures t.Node? && !(p.x < bpx(nodes[t.idx].data.bp.l, nodes[t.idx].data.bp.r, yl)) ==> r in LeafSet(t.right)
  {
    match t
    case Leaf(i) => i
    case Node(i, l, r) =>
      var bp := nodes[i].data.bp;
      if p.x < bpx(bp.l, bp.r, yl) then Descend(nodes, l, p, yl, bpx) else Descend(nodes, r, p, yl, bpx)
  }

  /** The neighbours of an index in a well-formed arena: the bounding
      breakpoint on side s exists exactly when the neighbouring arc does; it
      is a breakpoint entry of the tree, the arc an arc entry other than i. */
  lemma NeighbourFacts(nodes: seq<BeachlineEntry>, t: Tree, i: nat, s: Side)
    requires WellFormed(nodes, t) && i in Indices(t)
    ensures AncRoot(t, i, s).Some? <==> NeighbourArc(t, i, s).Some?
    ensures AncRoot(t, i, s).Some? ==>
              AncRoot(t, i, s).value in Indices(t) && AncRoot(t, i, s).value < |nodes|
              && nodes[AncRoot(t, i, s).value].data.BreakPointData?
    ensures NeighbourArc(t, i, s).Some? ==>
              NeighbourArc(t, i, s).value in LeafSet(t) && NeighbourArc(t, i, s).value < |nodes|
              && nodes[NeighbourArc(t, i, s).value].data.ArcData? && NeighbourArc(t, i, s).value != i
  {
    EmbedsLinked(nodes, t, None);
    LinkedInRange(nodes, t);
    if Anc(t, i, s).Some? {
      var a := Anc(t, i, s).value;
      AncFacts(t, i, s);
      SubtreeFacts(nodes, a, t, None);
      SubtreeChildren(a, t);
      var ch := Child(a, s);
      SubtreeFacts(nodes, ch, t, None);
      ExtremeLeaf(ch, Flip(s));
      LeafSetInIndices(ch);
      assert Indices(a.left) !! Indices(a.right);
    }
  }

  /** The s-side neighbour arc is reached from the bounding breakpoint on
      side s through its s-child, then by the extreme leaf back towards i. */
  lemma NeighbourLink(nodes: seq<BeachlineEntry>, t: Tree, i: nat, s: Side)
    requires WellFormed(nodes, t) && i in Indices(t) && AncRoot(t, i, s).Some?
    ensures AncRoot(t, i, s).value < |nodes|
    ensures Link(nodes[AncRoot(t, i, s).value], s).Some?
    ensures Link(nodes[AncRoot(t, i, s).value], s).value in Indices(t)
    ensures NeighbourArc(t, i, s)
            == Some(Extreme(Subtree(t, Link(nodes[AncRoot(t, i, s).value], s).value), Flip(s)))
  {
    var a := Anc(t, i, s).value;
    AncFacts(t, i, s);
    SubtreeFacts(nodes, a, t, None);
    SubtreeChildren(a, t);
    SubOfSubtree(t, Child(a, s));
  }

  /** The sites of the arcs either side of arc i and the breakpoints that
      separate it from them; None exactly when i is the first or last arc. */
  function Surroundings(nodes: seq<BeachlineEntry>, t: Tree, i: nat): (r: Option<(Point, Point, BreakPoint, BreakPoint)>)
    requires WellFormed(nodes, t) && i in LeafSet(t)
    ensures i < |nodes| && nodes[i].data.ArcData?
    ensures r.Some? <==> NeighbourArc(t, i, Left).Some? && NeighbourArc(t, i, Right).Some?
    ensures r.Some? <==> AncRoot(t, i, Left).Some? && AncRoot(t, i, Right).Some?
    ensures r.Some? <==> Interior(t, i)
    ensures r.Some? ==> AncRoot(t, i, Left).value < |nodes| && AncRoot(t, i, Right).value < |nodes|
  {
    LeafSetInIndices(t);
    NeighbourExtreme(t, i, Left);
    NeighbourExtreme(t, i, Right);
    EmbedsLinked(nodes, t, None);
    LinkedInRange(nodes, t);
    NeighbourFacts(nodes, t, i, Left);
    NeighbourFacts(nodes, t, i, Right);
    var la := NeighbourArc(t, i, Left);
    var ra := NeighbourArc(t, i, Right);
    if la.None? || ra.None? then None
    else
      Some((nodes[la.value].data.arc.site, nodes[ra.value].data.arc.site,
            nodes[AncRoot(t, i, Left).value].data.bp, nodes[AncRoot(t, i, Right).value].data.bp))
  }

  /** The priority of the circle event arc i would get with the sweep line at
      yl: the top of the circle through it and its neighbours, found where
      its two edges meet. None when a neighbour is missing, both neighbours
      belong to one site, the edges diverge, or the circle's top lies above
      the sweep line. */
  function CircleTop(nodes: seq<BeachlineEntry>, t: Tree, i: nat, yl: real, dist: DistanceFn): (r: Option<real>)
    requires WellFormed(nodes, t) && i in LeafSet(t)
    ensures r.Some? ==> r.value <= yl
    ensures i < |nodes| && nodes[i].data.ArcData?
    ensures r.Some? ==> Surroundings(nodes, t, i).Some?
                        && Surroundings(nodes, t, i).value.0 != Surroundings(nodes, t, i).value.1
    ensures r.Some? ==>
              var sr := Surroundings(nodes, t, i).value;
              var s := Intersection(sr.2.origin, sr.2.direction, sr.3.origin, sr.3.direction);
              s.Some? && r.value == s.value.y - dist(nodes[i].data.arc.site, s.value)
    ensures var sr := Surroundings(nodes, t, i);
            sr.Some? && sr.value.0 != sr.value.1 ==>
              var s := Intersection(sr.value.2.origin, sr.value.2.direction, sr.value.3.origin, sr.value.3.direction);
              s.Some? && s.value.y - dist(nodes[i].data.arc.site, s.value) <= yl ==>
                r == Some(s.value.y - dist(nodes[i].data.arc.site, s.value))
  {
    EmbedsLinked(nodes, t, None);
    LinkedInRange(nodes, t);
    match Surroundings(nodes, t, i)
    case None => None
    case Some((ls, rs, xl, xr)) =>
      if ls == rs then None
      else
        match Intersection(xl.origin, xl.direction, xr.origin, xr.direction)
        case None => None
        case Some(s) =>
          var top := s.y - dist(nodes[i].data.arc.site, s);
          if top > yl then None else Some(top)
  }

  /** The queue after a circle check: the event is pushed at its priority
      when there is one, and the queue is unchanged otherwise. */
  function Schedule(m: map<Event, real>, i: nat, top: Option<real>): (r: map<Event, real>)
    ensures top.Some? ==> Circle(i) in r && r[Circle(i)] == top.value
    ensures top.None? ==> r == m
    ensures forall e :: e in m && e != Circle(i) ==> e in r && r[e] == m[e]
    ensures forall e :: e in r ==> e in m || e == Circle(i)
  {
    if top.Some? then m[Circle(i) := top.value] else m
  }

  /** The Voronoi edge segments the sweep emits for the breakpoints still on
      the beachline: one per breakpoint, clipped to the box, in pre-order. */
  function EdgeSegments(nodes: seq<BeachlineEntry>, t: Tree, box: BoundingBox): seq<Segment>
    requires Linked(nodes, t)
  {
    match t
    case Leaf(_) => []
    case Node(i, l, r) =>
      [BoundedSegment(nodes[i].data.bp.origin, nodes[i].data.bp.direction, box)]
      + EdgeSegments(nodes, l, box) + EdgeSegments(nodes, r, box)
  }

  /** Exactly one segment per breakpoint, one fewer than there are arcs. */
  lemma {:induction false} EdgeSegmentsCount(nodes: seq<BeachlineEntry>, t: Tree, box: BoundingBox)
    requires Linked(nodes, t)
    ensures |EdgeSegments(nodes, t, box)| == |BreakpointsPreOrder(t)| == NodeCount(t) == LeafCount(t) - 1
  {
    if t.Node? {
      EdgeSegmentsCount(nodes, t.left, box);
      EdgeSegmentsCount(nodes, t.right, box);
    }
  }

  /** Exactly one segment per breakpoint, one fewer than there are arcs, the
      k-th from the k-th breakpoint in pre-order. */
  lemma {:induction false} EdgeSegmentsPreOrder(nodes: seq<BeachlineEntry>, t: Tree, box: BoundingBox)
    requires Linked(nodes, t)
    ensures |EdgeSegments(nodes, t, box)| == |BreakpointsPreOrder(t)| == NodeCount(t) == LeafCount(t) - 1
    ensures forall k :: 0 <= k < |BreakpointsPreOrder(t)| ==>
              BreakpointsPreOrder(t)[k] < |nodes| && nodes[BreakpointsPreOrder(t)[k]].data.BreakPointData?
              && EdgeSegments(nodes, t, box)[k]
                 == BoundedSegment(nodes[BreakpointsPreOrder(t)[k]].data.bp.origin,
                                   nodes[BreakpointsPreOrder(t)[k]].data.bp.direction, box)
  {
    EdgeSegmentsCount(nodes, t, box);
    if t.Node? {
      EdgeSegmentsPreOrder(nodes, t.left, box);
      EdgeSegmentsPreOrder(nodes, t.right, box);
      var segs := EdgeSegments(nodes, t, box);
      var order := BreakpointsPreOrder(t);
      var ls := EdgeSegments(nodes, t.left, box);
      var lo := BreakpointsPreOrder(t.left);
      forall k | 0 <= k < |order|
        ensures order[k] < |nodes| && nodes[order[k]].data.BreakPointData?
                && segs[k] == BoundedSegment(nodes[order[k]].data.bp.origin, nodes[order[k]].data.bp.direction, box)
      {
        if k == 0 {
        } else if k <= |lo| {
          assert order[k] == lo[k - 1] && segs[k] == ls[k - 1];
        } else {
          assert order[k] == BreakpointsPreOrder(t.right)[k - 1 - |lo|];
          assert segs[k] == EdgeSegments(nodes, t.right, box)[k - 1 - |ls|];
        }
      }
    }
  }
}
