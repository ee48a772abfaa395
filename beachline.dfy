/** The beachline as the sweep keeps it: an arena of entries linked by
    indices, with a separate root. This module says when an arena is well
    formed for a tree and what the site-event splice does to both; the
    class of module BeachlineState performs it in place. */
module BeachlineArena {
  import opened Wrappers
  import opened BeachlineTree
  import opened TreeFacts
  import opened TreeOrder

  /** The arena's links stay in range, embed t from the root down and up,
      and t repeats no index. */
  predicate WellFormed(nodes: seq<BeachlineEntry>, t: Tree)
  {
    LinksInRange(nodes) && Embeds(nodes, t, None) && Distinct(t)
  }

  /** The five-node subtree a site event puts in place of an arc, for an
      arena of length n: xl at n+1 over arc a (n) and breakpoint xr (n+3),
      and xr over arcs b (n+2) and c (n+4). */
  function Five(n: nat): Tree
  {
    Node(n + 1, Leaf(n), Node(n + 3, Leaf(n + 2), Leaf(n + 4)))
  }

  /** The five entries a site event appends to an arena of length n: arcs
      a, b, c and breakpoints xl (under the old arc's parent) and xr. */
  function FiveEntries(n: nat, parent: Option<nat>, a: Arc, xl: BreakPoint, b: Arc,
                       xr: BreakPoint, c: Arc): seq<BeachlineEntry>
  {
    [BeachlineEntry(None, None, Some(n + 1), ArcData(a)),
     BeachlineEntry(Some(n), Some(n + 3), parent, BreakPointData(xl)),
     BeachlineEntry(None, None, Some(n + 3), ArcData(b)),
     BeachlineEntry(Some(n + 2), Some(n + 4), Some(n + 1), BreakPointData(xr)),
     BeachlineEntry(None, None, Some(n + 3), ArcData(c))]
  }

  /** The arena after a site event splits arc arcIdx: the old arc's parent,
      if any, re-pointed at the new xl, and the five entries appended. */
  function SpliceArc(nodes: seq<BeachlineEntry>, arcIdx: nat, a: Arc, xl: BreakPoint, b: Arc,
                     xr: BreakPoint, c: Arc): seq<BeachlineEntry>
    requires arcIdx < |nodes|
  {
    var parent := nodes[arcIdx].parent;
    var relinked :=
      if parent.Some? && parent.value < |nodes| then
        nodes[parent.value := Repoint(nodes[parent.value], arcIdx, |nodes| + 1)]
      else nodes;
    relinked + FiveEntries(|nodes|, parent, a, xl, b, xr, c)
  }

  /** The arena-only facts of a site-event splice: links stay in range,
      the five new entries sit at n..n+4, and only the parent changes. */
  lemma SpliceArcArena(nodes: seq<BeachlineEntry>, arcIdx: nat, a: Arc, xl: BreakPoint, b: Arc,
                       xr: BreakPoint, c: Arc)
    requires LinksInRange(nodes) && arcIdx < |nodes|
    ensures var nodes' := SpliceArc(nodes, arcIdx, a, xl, b, xr, c);
            var parent := nodes[arcIdx].parent;
            |nodes'| == |nodes| + 5 && LinksInRange(nodes')
            && nodes'[|nodes|..] == FiveEntries(|nodes|, parent, a, xl, b, xr, c)
            && (forall j :: 0 <= j < |nodes| && Some(j) != parent ==> nodes'[j] == nodes[j])
            && (parent.Some? ==>
                  parent.value < |nodes|
                  && nodes'[parent.value] == Repoint(nodes[parent.value], arcIdx, |nodes| + 1))
  {
    var n := |nodes|;
    var nodes' := SpliceArc(nodes, arcIdx, a, xl, b, xr, c);
    var five := FiveEntries(n, nodes[arcIdx].parent, a, xl, b, xr, c);
    assert nodes'[n..] == five;
    forall j | 0 <= j < |nodes'|
      ensures (nodes'[j].leftChild.Some? ==> nodes'[j].leftChild.value < |nodes'|)
           && (nodes'[j].rightChild.Some? ==> nodes'[j].rightChild.value < |nodes'|)
           && (nodes'[j].parent.Some? ==> nodes'[j].parent.value < |nodes'|)
    {
      if j >= n {
        assert nodes'[j] == five[j - n];
      }
    }
  }

  /** A site-event splice stores exactly the arcs a, b and c beyond the
      arcs already in the arena: re-pointing the parent keeps its payload. */
  lemma SpliceArcSites(nodes: seq<BeachlineEntry>, arcIdx: nat, a: Arc, xl: BreakPoint, b: Arc,
                       xr: BreakPoint, c: Arc)
    requires arcIdx < |nodes|
    ensures ArcSites(SpliceArc(nodes, arcIdx, a, xl, b, xr, c)) == ArcSites(nodes) + {a.site, b.site, c.site}
  {
    var parent := nodes[arcIdx].parent;
    var relinked :=
      if parent.Some? && parent.value < |nodes| then
        nodes[parent.value := Repoint(nodes[parent.value], arcIdx, |nodes| + 1)]
      else nodes;
    assert forall k :: 0 <= k < |nodes| ==> relinked[k].data == nodes[k].data;
    assert ArcSites(relinked) == ArcSites(nodes) by {
      forall p | p in ArcSites(relinked)
        ensures p in ArcSites(nodes)
      {
        var j :| 0 <= j < |relinked| && relinked[j].data.ArcData? && relinked[j].data.arc.site == p;
        assert nodes[j].data == relinked[j].data;
      }
      forall p | p in ArcSites(nodes)
        ensures p in ArcSites(relinked)
      {
        var j :| 0 <= j < |nodes| && nodes[j].data.ArcData? && nodes[j].data.arc.site == p;
        assert nodes[j].data == relinked[j].data;
      }
    }
    var five := FiveEntries(|nodes|, parent, a, xl, b, xr, c);
    assert ArcSites(five) == {a.site, b.site, c.site} by {
      assert five[0].data.arc.site == a.site && five[2].data.arc.site == b.site && five[4].data.arc.site == c.site;
    }
    ArcSitesAppend(relinked, five);
  }

  /** The five new entries embed the five-node subtree under parent. */
  lemma FiveEmbeds(nodes: seq<BeachlineEntry>, n: nat, parent: Option<nat>, a: Arc, xl: BreakPoint,
                   b: Arc, xr: BreakPoint, c: Arc)
    requires n + 5 <= |nodes| && nodes[n..n + 5] == FiveEntries(n, parent, a, xl, b, xr, c)
    ensures Embeds(nodes, Five(n), parent)
  {
    var five := FiveEntries(n, parent, a, xl, b, xr, c);
    assert nodes[n] == five[0] && nodes[n + 1] == five[1] && nodes[n + 2] == five[2];
    assert nodes[n + 3] == five[3] && nodes[n + 4] == five[4];
    assert Embeds(nodes, Leaf(n + 2), Some(n + 3)) && Embeds(nodes, Leaf(n + 4), Some(n + 3));
    assert Embeds(nodes, Node(n + 3, Leaf(n + 2), Leaf(n + 4)), Some(n + 1));
    assert Embeds(nodes, Leaf(n), Some(n + 1));
  }

  /** Replacing an arc by the five-node subtree built from fresh indices:
      no repeats, the arc gives way to arcs n, n+2 and n+4, and there are two
      more arcs and two more breakpoints. */
  lemma GraftFive(t: Tree, arcIdx: nat, n: nat)
    requires Distinct(t) && arcIdx in LeafSet(t)
    requires forall j :: j in Indices(t) ==> j < n
    ensures Distinct(Replace(t, arcIdx, Five(n)))
    ensures LeafSet(Replace(t, arcIdx, Five(n))) == LeafSet(t) - {arcIdx} + {n, n + 2, n + 4}
    ensures LeafCount(Replace(t, arcIdx, Five(n))) == LeafCount(t) + 2
    ensures NodeCount(Replace(t, arcIdx, Five(n))) == NodeCount(t) + 2
    ensures Root(Replace(t, arcIdx, Five(n))) == if arcIdx == Root(t) then n + 1 else Root(t)
  {
    var u := Five(n);
    FiveFacts(n);
    LeafSub(t, arcIdx);
    assert Distinct(Replace(t, arcIdx, u)) by {
      forall x | x in Indices(u)
        ensures x !in Indices(t)
      {
      }
      ReplaceDistinct(t, arcIdx, u);
    }
    assert LeafSet(Replace(t, arcIdx, u)) == LeafSet(t) - {arcIdx} + {n, n + 2, n + 4} by {
      ReplaceLeaves(t, arcIdx, u);
    }
    assert Root(Replace(t, arcIdx, u)) == if arcIdx == Root(t) then n + 1 else Root(t) by {
      ReplaceIndices(t, arcIdx, u);
    }
    ReplaceCounts(t, arcIdx, u);
  }

  /** The five-node subtree: its indices, its three arcs and two
      breakpoints, and no repeats. */
  lemma FiveFacts(n: nat)
    ensures Indices(Five(n)) == {n, n + 1, n + 2, n + 3, n + 4} && LeafSet(Five(n)) == {n, n + 2, n + 4}
    ensures LeafCount(Five(n)) == 3 && NodeCount(Five(n)) == 2 && Distinct(Five(n))
  {
    var w := Node(n + 3, Leaf(n + 2), Leaf(n + 4));
    assert Indices(w) == {n + 2, n + 3, n + 4} && LeafSet(w) == {n + 2, n + 4};
    assert LeafCount(w) == 2 && NodeCount(w) == 1;
  }

  /** The tree-level half of a site event: the arena after the splice
      embeds the tree with the arc replaced by the five-node subtree. */
  lemma SpliceArcEmbeds(nodes: seq<BeachlineEntry>, t: Tree, arcIdx: nat, a: Arc, xl: BreakPoint,
                        b: Arc, xr: BreakPoint, c: Arc)
    requires WellFormed(nodes, t) && arcIdx in Indices(t) && arcIdx < |nodes|
    requires forall j :: j in Indices(t) ==> j < |nodes|
    ensures Embeds(SpliceArc(nodes, arcIdx, a, xl, b, xr, c), Replace(t, arcIdx, Five(|nodes|)), None)
  {
    var n := |nodes|;
    var nodes' := SpliceArc(nodes, arcIdx, a, xl, b, xr, c);
    SpliceArcArena(nodes, arcIdx, a, xl, b, xr, c);
    assert nodes'[n..n + 5] == nodes'[n..];
    FiveEmbeds(nodes', n, nodes[arcIdx].parent, a, xl, b, xr, c);
    Graft(nodes, nodes', t, None, arcIdx, Five(n));
  }

  /** The arena after a site event embeds the tree with the arc replaced by
      the five-node subtree, with the new xl as root when the old arc was the
      root, and no entry other than the old arc's parent changed. */
  lemma SpliceArcCorrect(nodes: seq<BeachlineEntry>, t: Tree, arcIdx: nat, a: Arc, xl: BreakPoint,
                         b: Arc, xr: BreakPoint, c: Arc)
    requires WellFormed(nodes, t) && arcIdx in LeafSet(t)
    ensures arcIdx < |nodes|
    ensures WellFormed(SpliceArc(nodes, arcIdx, a, xl, b, xr, c), Replace(t, arcIdx, Five(|nodes|)))
    ensures Root(Replace(t, arcIdx, Five(|nodes|)))
              == if nodes[arcIdx].parent.None? then |nodes| + 1 else Root(t)
    ensures nodes[arcIdx].parent.None? <==> arcIdx == Root(t)
    ensures LeafSet(Replace(t, arcIdx, Five(|nodes|)))
              == LeafSet(t) - {arcIdx} + {|nodes|, |nodes| + 2, |nodes| + 4}
    ensures LeafCount(Replace(t, arcIdx, Five(|nodes|))) == LeafCount(t) + 2
    ensures NodeCount(Replace(t, arcIdx, Five(|nodes|))) == NodeCount(t) + 2
  {
    var n := |nodes|;
    assert arcIdx in Indices(t) && forall j :: j in Indices(t) ==> j < n by {
      LeafSetInIndices(t);
      EmbedsLinked(nodes, t, None);
      LinkedInRange(nodes, t);
    }
    var nodes' := SpliceArc(nodes, arcIdx, a, xl, b, xr, c);
    assert nodes[arcIdx].parent.None? <==> arcIdx == Root(t) by {
      if arcIdx != Root(t) {
        AscendStep(nodes, t, None, arcIdx, Left);
      }
    }
    GraftFive(t, arcIdx, n);
    assert LinksInRange(nodes') by {
      SpliceArcArena(nodes, arcIdx, a, xl, b, xr, c);
    }
    assert Embeds(nodes', Replace(t, arcIdx, Five(n)), None) by {
      SpliceArcEmbeds(nodes, t, arcIdx, a, xl, b, xr, c);
    }
  }

  /** In the in-order sequence the old arc's place is taken by a, xl, b, xr,
      c; since they alternate arc and breakpoint, so does the new sequence. */
  lemma SpliceArcInOrder(t: Tree, arcIdx: nat, n: nat) returns (pre: seq<nat>, suf: seq<nat>)
    requires Distinct(t) && arcIdx in LeafSet(t)
    ensures InOrder(t) == pre + [arcIdx] + suf
    ensures InOrder(Replace(t, arcIdx, Five(n))) == pre + [n, n + 1, n + 2, n + 3, n + 4] + suf
  {
    LeafSub(t, arcIdx);
    InOrderSplit(t, arcIdx);
    InOrderReplace(t, arcIdx, Five(n));
    pre, suf := Before(t, arcIdx), After(t, arcIdx);
    assert InOrder(Node(n + 3, Leaf(n + 2), Leaf(n + 4))) == [n + 2, n + 3, n + 4];
    assert InOrder(Five(n)) == [n, n + 1, n + 2, n + 3, n + 4];
  }
}
