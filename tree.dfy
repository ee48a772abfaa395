/** The beachline's arena entries and the tree they are meant to form.

    The source keeps the beachline as a vector of entries linked by
    parent/left/right indices. `Tree` is the shape those links describe:
    leaves are arcs, inner nodes are breakpoints, and each node names the
    arena index it lives at. `Embeds(nodes, t, parent)` says the arena links
    are exactly the tree t; navigation and splicing are specified on trees. */
module BeachlineTree {
  import opened Wrappers
  import opened Geometry

  datatype Arc = Arc(site: Point)

  /** A Voronoi edge being traced: where it started, the direction it grows
      along, and the sites to its left and right. */
  datatype BreakPoint = BreakPoint(origin: Point, direction: Point, l: Point, r: Point)

  datatype BeachlineData = BreakPointData(bp: BreakPoint) | ArcData(arc: Arc)

  datatype BeachlineEntry = BeachlineEntry(
    leftChild: Option<nat>,
    rightChild: Option<nat>,
    parent: Option<nat>,
    data: BeachlineData)

  datatype Side = Left | Right

  function Flip(s: Side): Side
  {
    if s == Left then Right else Left
  }

  function Link(e: BeachlineEntry, s: Side): Option<nat>
  {
    if s == Left then e.leftChild else e.rightChild
  }

  datatype Tree = Leaf(idx: nat) | Node(idx: nat, left: Tree, right: Tree)

  function Root(t: Tree): nat { t.idx }

  function Child(t: Tree, s: Side): Tree
    requires t.Node?
  {
    if s == Left then t.left else t.right
  }

  function Indices(t: Tree): set<nat>
  {
    match t
    case Leaf(i) => {i}
    case Node(i, l, r) => {i} + Indices(l) + Indices(r)
  }

  /** Arena indices of the arcs (the leaves). */
  function LeafSet(t: Tree): set<nat>
  {
    match t
    case Leaf(i) => {i}
    case Node(_, l, r) => LeafSet(l) + LeafSet(r)
  }

  function LeafCount(t: Tree): nat
  {
    match t
    case Leaf(_) => 1
    case Node(_, l, r) => LeafCount(l) + LeafCount(r)
  }

  function NodeCount(t: Tree): nat
  {
    match t
    case Leaf(_) => 0
    case Node(_, l, r) => 1 + NodeCount(l) + NodeCount(r)
  }

  /** No arena index occurs twice in the tree. */
  predicate Distinct(t: Tree)
  {
    match t
    case Leaf(_) => true
    case Node(i, l, r) =>
      i !in Indices(l) && i !in Indices(r) && Indices(l) !! Indices(r)
      && Distinct(l) && Distinct(r)
  }

  /** Every link stored in the arena points into the arena. */
  predicate LinksInRange(nodes: seq<BeachlineEntry>)
  {
    forall j :: 0 <= j < |nodes| ==>
      (nodes[j].leftChild.Some? ==> nodes[j].leftChild.value < |nodes|)
      && (nodes[j].rightChild.Some? ==> nodes[j].rightChild.value < |nodes|)
      && (nodes[j].parent.Some? ==> nodes[j].parent.value < |nodes|)
  }

  /** The child links of the arena describe t: breakpoints have two children,
      arcs none. Parent links are not looked at. */
  predicate Linked(nodes: seq<BeachlineEntry>, t: Tree)
  {
    Root(t) < |nodes| &&
    match t
    case Leaf(i) =>
      nodes[i].leftChild.None? && nodes[i].rightChild.None? && nodes[i].data.ArcData?
    case Node(i, l, r) =>
      nodes[i].leftChild == Some(Root(l)) && nodes[i].rightChild == Some(Root(r))
      && nodes[i].data.BreakPointData?
      && Linked(nodes, l) && Linked(nodes, r)
  }

  /** The arena describes t in both directions: child links as in Linked,
      and every node's parent link names its parent in t (par for the root). */
  predicate Embeds(nodes: seq<BeachlineEntry>, t: Tree, par: Option<nat>)
  {
    Root(t) < |nodes| && nodes[Root(t)].parent == par &&
    match t
    case Leaf(i) =>
      nodes[i].leftChild.None? && nodes[i].rightChild.None? && nodes[i].data.ArcData?
    case Node(i, l, r) =>
      nodes[i].leftChild == Some(Root(l)) && nodes[i].rightChild == Some(Root(r))
      && nodes[i].data.BreakPointData?
      && Embeds(nodes, l, Some(i)) && Embeds(nodes, r, Some(i))
  }

  /** Two entries have the same links and the same kind of payload. */
  predicate SameShape(e: BeachlineEntry, f: BeachlineEntry)
  {
    e.leftChild == f.leftChild && e.rightChild == f.rightChild && e.parent == f.parent
    && e.data.ArcData? == f.data.ArcData?
  }

  /** Two entries have the same child links and the same kind of payload;
      parent links may differ. */
  predicate SameChildren(e: BeachlineEntry, f: BeachlineEntry)
  {
    e.leftChild == f.leftChild && e.rightChild == f.rightChild
    && e.data.ArcData? == f.data.ArcData?
  }

  /** The entry with the child slot that held `from` now holding `to`, as
      the source re-points a parent: left if the left child was `from`,
      right otherwise. */
  function Repoint(e: BeachlineEntry, from: nat, to: nat): BeachlineEntry
  {
    if e.leftChild == Some(from) then e.(leftChild := Some(to)) else e.(rightChild := Some(to))
  }

  predicate IsSubtree(u: Tree, t: Tree)
  {
    u == t || (t.Node? && (IsSubtree(u, t.left) || IsSubtree(u, t.right)))
  }

  /** The subtree rooted at index i. */
  function Subtree(t: Tree, i: nat): Tree
    requires i in Indices(t)
  {
    match t
    case Leaf(_) => t
    case Node(j, l, r) =>
      if i == j then t else if i in Indices(l) then Subtree(l, i) else Subtree(r, i)
  }

  /** Distance of index i from the root. */
  function Depth(t: Tree, i: nat): nat
    requires i in Indices(t)
  {
    match t
    case Leaf(_) => 0
    case Node(j, l, r) =>
      if i == j then 0 else if i in Indices(l) then 1 + Depth(l, i) else 1 + Depth(r, i)
  }

  /** t with the subtree rooted at index i replaced by u (t itself when i
      does not occur in t). */
  function Replace(t: Tree, i: nat, u: Tree): Tree
  {
    match t
    case Leaf(j) => if i == j then u else t
    case Node(j, l, r) =>
      if i == j then u
      else if i in Indices(l) then Node(j, Replace(l, i, u), r)
      else if i in Indices(r) then Node(j, l, Replace(r, i, u))
      else t
  }

  /** t without the leaf p: p's parent gives way to p's sibling. */
  function RemoveLeaf(t: Tree, p: nat): Tree
  {
    match t
    case Leaf(_) => t
    case Node(j, l, r) =>
      if l == Leaf(p) then r
      else if r == Leaf(p) then l
      else if p in Indices(l) then Node(j, RemoveLeaf(l, p), r)
      else Node(j, l, RemoveLeaf(r, p))
  }

  /** The leaf reached by always following side s: the leftmost (Left) or
      rightmost (Right) arc of the subtree. */
  function Extreme(t: Tree, s: Side): nat
  {
    match t
    case Leaf(i) => i
    case Node(_, l, r) => if s == Left then Extreme(l, s) else Extreme(r, s)
  }

  /** The nearest ancestor of i whose other-than-s subtree holds i: walking up
      from i while the current node is an s-child, the parent reached last.
      For s == Left this is the in-order predecessor of an arc, for
      s == Right its successor. */
  function Anc(t: Tree, i: nat, s: Side): Option<Tree>
  {
    match t
    case Leaf(_) => None
    case Node(_, l, r) =>
      var same := if s == Left then l else r;
      var other := if s == Left then r else l;
      if i in Indices(same) then Anc(same, i, s)
      else if i in Indices(other) then
        (var a := Anc(other, i, s); if a.Some? then a else Some(t))
      else None
  }

  function AncRoot(t: Tree, i: nat, s: Side): Option<nat>
  {
    match Anc(t, i, s)
    case None => None
    case Some(a) => Some(Root(a))
  }

  /** The arc next to i on side s: the extreme leaf, towards i, of the
      s-subtree of that ancestor. */
  function NeighbourArc(t: Tree, i: nat, s: Side): Option<nat>
  {
    match Anc(t, i, s)
    case None => None
    case Some(a) => if a.Node? then Some(Extreme(Child(a, s), Flip(s))) else None
  }

  /** Arc i lies strictly inside the beachline t: it is an arc of t and
      neither its leftmost nor its rightmost one. */
  predicate Interior(t: Tree, i: nat)
  {
    i in LeafSet(t) && i != Extreme(t, Left) && i != Extreme(t, Right)
  }

  /** Arena indices in in-order: left subtree, node, right subtree. */
  function InOrder(t: Tree): seq<nat>
  {
    match t
    case Leaf(i) => [i]
    case Node(i, l, r) => InOrder(l) + [i] + InOrder(r)
  }

  /** Arena indices of the breakpoints in pre-order. */
  function BreakpointsPreOrder(t: Tree): seq<nat>
  {
    match t
    case Leaf(_) => []
    case Node(i, l, r) => [i] + BreakpointsPreOrder(l) + BreakpointsPreOrder(r)
  }

  /** The arena update of a circle event exactly as the source writes it:
      overwrite the payload of the bounding breakpoint that is not p's
      parent, then let the grandparent adopt p's sibling in place of p's
      parent. The sibling's own parent link is left as it was. None stands
      for each of the source's panics (no parent, a parent or grandparent
      that does not claim its child, no grandparent). */
  function SpliceAsWritten(nodes: seq<BeachlineEntry>, xlIdx: nat, pIdx: nat, xrIdx: nat, x: BreakPoint)
    : (r: Option<seq<BeachlineEntry>>)
    requires LinksInRange(nodes) && xlIdx < |nodes| && pIdx < |nodes| && xrIdx < |nodes|
    ensures nodes[pIdx].parent.None? ==> r.None?
    ensures r.Some? ==> |r.value| == |nodes| && forall k :: 0 <= k < |nodes| ==> r.value[k].parent == nodes[k].parent
  {
    if nodes[pIdx].parent.None? then None
    else
      var parentIdx := nodes[pIdx].parent.value;
      var otherIdx := if parentIdx == xrIdx then xlIdx else xrIdx;
      var n1 := nodes[otherIdx := nodes[otherIdx].(data := BreakPointData(x))];
      var parentNode := n1[parentIdx];
      var sibling :=
        if parentNode.leftChild.None? then None
        else if parentNode.leftChild.value == pIdx then Some(parentNode.rightChild)
        else if parentNode.rightChild.None? then None
        else if parentNode.rightChild.value == pIdx then Some(parentNode.leftChild)
        else None;
      if sibling.None? || parentNode.parent.None? then None
      else
        var grannyIdx := parentNode.parent.value;
        var granny := n1[grannyIdx];
        if granny.leftChild.None? then None
        else if granny.leftChild.value == parentIdx then
          Some(n1[grannyIdx := granny.(leftChild := sibling.value)])
        else if granny.rightChild.None? then None
        else if granny.rightChild.value == parentIdx then
          Some(n1[grannyIdx := granny.(rightChild := sibling.value)])
        else None
  }

  /** The index of p's sibling under p's parent, as the source picks it. */
  function SiblingOf(nodes: seq<BeachlineEntry>, pIdx: nat): Option<nat>
    requires LinksInRange(nodes) && pIdx < |nodes|
  {
    if nodes[pIdx].parent.None? then None
    else
      var parentNode := nodes[nodes[pIdx].parent.value];
      if parentNode.leftChild == Some(pIdx) then parentNode.rightChild
      else parentNode.leftChild
  }

  /** The same update with the missing step added: the sibling's parent link
      is re-pointed at the grandparent that now holds it. */
  function SpliceFixed(nodes: seq<BeachlineEntry>, xlIdx: nat, pIdx: nat, xrIdx: nat, x: BreakPoint)
    : (r: Option<seq<BeachlineEntry>>)
    requires LinksInRange(nodes) && xlIdx < |nodes| && pIdx < |nodes| && xrIdx < |nodes|
    ensures r.Some? <==> SpliceAsWritten(nodes, xlIdx, pIdx, xrIdx, x).Some?
    ensures r.Some? ==> |r.value| == |nodes|
    ensures r.Some? ==> forall k :: 0 <= k < |nodes| && Some(k) != SiblingOf(nodes, pIdx) ==>
                          r.value[k] == SpliceAsWritten(nodes, xlIdx, pIdx, xrIdx, x).value[k]
    ensures r.Some? && SiblingOf(nodes, pIdx).Some? ==>
              r.value[SiblingOf(nodes, pIdx).value].parent == nodes[nodes[pIdx].parent.value].parent
  {
    match SpliceAsWritten(nodes, xlIdx, pIdx, xrIdx, x)
    case None => None
    case Some(n2) =>
      var sib := SiblingOf(nodes, pIdx);
      var parentIdx := nodes[pIdx].parent.value;
      if sib.None? || sib.value >= |n2| || nodes[parentIdx].parent.None? then Some(n2)
      else Some(n2[sib.value := n2[sib.value].(parent := nodes[parentIdx].parent)])
  }

  /** The sites of the arcs stored anywhere in the arena, on the tree or
      detached from it. */
  ghost function ArcSites(nodes: seq<BeachlineEntry>): set<Point>
  {
    set j | 0 <= j < |nodes| && nodes[j].data.ArcData? :: nodes[j].data.arc.site
  }

  /** Appending entries adds exactly their arcs' sites. */
  lemma ArcSitesAppend(nodes: seq<BeachlineEntry>, tail: seq<BeachlineEntry>)
    ensures ArcSites(nodes + tail) == ArcSites(nodes) + ArcSites(tail)
  {
    var all := nodes + tail;
    forall p | p in ArcSites(all)
      ensures p in ArcSites(nodes) + ArcSites(tail)
    {
      var j :| 0 <= j < |all| && all[j].data.ArcData? && all[j].data.arc.site == p;
      if j >= |nodes| {
        assert tail[j - |nodes|] == all[j];
      }
    }
    forall p | p in ArcSites(nodes)
      ensures p in ArcSites(all)
    {
      var j :| 0 <= j < |nodes| && nodes[j].data.ArcData? && nodes[j].data.arc.site == p;
      assert all[j] == nodes[j];
    }
    forall p | p in ArcSites(tail)
      ensures p in ArcSites(all)
    {
      var j :| 0 <= j < |tail| && tail[j].data.ArcData? && tail[j].data.arc.site == p;
      assert all[|nodes| + j] == tail[j];
    }
  }

  /** The circle-event splice stores no new arc: the one payload it writes
      is the merged breakpoint, and its link updates keep every payload. */
  lemma SpliceFixedSites(nodes: seq<BeachlineEntry>, xlIdx: nat, pIdx: nat, xrIdx: nat, x: BreakPoint)
    requires LinksInRange(nodes) && xlIdx < |nodes| && pIdx < |nodes| && xrIdx < |nodes|
    requires SpliceFixed(nodes, xlIdx, pIdx, xrIdx, x).Some?
    ensures ArcSites(SpliceFixed(nodes, xlIdx, pIdx, xrIdx, x).value) <= ArcSites(nodes)
  {
    var r := SpliceFixed(nodes, xlIdx, pIdx, xrIdx, x).value;
    var w := SpliceAsWritten(nodes, xlIdx, pIdx, xrIdx, x).value;
    assert forall k :: 0 <= k < |nodes| ==> w[k].data == nodes[k].data || w[k].data == BreakPointData(x);
    assert forall k :: 0 <= k < |nodes| ==> r[k].data == w[k].data;
    forall p | p in ArcSites(r)
      ensures p in ArcSites(nodes)
    {
      var j :| 0 <= j < |r| && r[j].data.ArcData? && r[j].data.arc.site == p;
      assert nodes[j].data == r[j].data;
    }
  }
}
