/** A beachline on which the circle-event splice, as the source writes it,
    leaves a stale parent link.

    Arcs a, b, c lie side by side under breakpoints xl (the root, between a
    and b) and xr (between b and c, the right child of xl). When b's circle
    event removes it, xr gives way to c under xl. The source re-points
    xl's right child at c but leaves c's parent link naming xr, which is
    no longer on the beachline: a later walk up from c (a neighbour lookup,
    or the next splice) then climbs through a detached entry. */
module SpliceFinding {
  import opened Wrappers
  import opened Geometry
  import opened BeachlineTree

  function ArcEntry(parent: nat, x: real): BeachlineEntry
  {
    BeachlineEntry(None, None, Some(parent), ArcData(Arc(Point(x, 0.0))))
  }

  function BreakEntry(l: nat, r: nat, parent: Option<nat>): BeachlineEntry
  {
    BeachlineEntry(Some(l), Some(r), parent,
                   BreakPointData(BreakPoint(Point(0.0, 0.0), Point(0.0, 1.0), Point(0.0, 0.0), Point(1.0, 0.0))))
  }

  /** Entry 0 is an arc left behind by an earlier event; 1, 3, 5 are the
      arcs a, b, c; 2 is xl and 4 is xr. */
  function ExampleNodes(): seq<BeachlineEntry>
  {
    [BeachlineEntry(None, None, None, ArcData(Arc(Point(9.0, 9.0)))),
     ArcEntry(2, 0.0), BreakEntry(1, 4, None), ArcEntry(4, 1.0), BreakEntry(3, 5, Some(2)), ArcEntry(4, 2.0)]
  }

  function ExampleTree(): Tree
  {
    Node(2, Leaf(1), Node(4, Leaf(3), Leaf(5)))
  }

  /** The example is a well-formed beachline in which arc 3 has both
      neighbours, bounded by breakpoints 2 and 4: exactly the situation
      the circle event handles. The splice as written then lets 2 adopt 5
      while 5's parent link still names 4, so the arena no longer embeds
      the tree without arc 3. The predecessor walk from 5 then stops at
      once, since 5 is not the left child of the entry its parent link
      names, and answers the detached 4, where the tree without arc 3 has
      2 as the breakpoint to the left of 5. The corrected splice re-points
      5's parent at 2. */
  lemma StaleSiblingParent(x: BreakPoint)
    ensures LinksInRange(ExampleNodes()) && Embeds(ExampleNodes(), ExampleTree(), None) && Distinct(ExampleTree())
    ensures 3 in LeafSet(ExampleTree())
    ensures AncRoot(ExampleTree(), 3, Left) == Some(2) && AncRoot(ExampleTree(), 3, Right) == Some(4)
    ensures RemoveLeaf(ExampleTree(), 3) == Node(2, Leaf(1), Leaf(5))
    ensures SpliceAsWritten(ExampleNodes(), 2, 3, 4, x).Some?
    ensures SpliceAsWritten(ExampleNodes(), 2, 3, 4, x).value[5].parent == Some(4)
    ensures !Embeds(SpliceAsWritten(ExampleNodes(), 2, 3, 4, x).value, RemoveLeaf(ExampleTree(), 3), None)
    ensures SpliceAsWritten(ExampleNodes(), 2, 3, 4, x).value[4].leftChild != Some(5)
    ensures AncRoot(RemoveLeaf(ExampleTree(), 3), 5, Left) == Some(2)
    ensures SpliceFixed(ExampleNodes(), 2, 3, 4, x).value[5].parent == Some(2)
  {
  }
}
