/** Removing an arc from a beachline shape and the circle-event splice that
    does it on the arena. */
module TreeSplice {
  import opened Wrappers
  import opened BeachlineTree
  import opened TreeFacts
  import opened TreeOrder

  /** Removing a leaf is grafting its sibling over its parent. */
  lemma {:induction false} RemoveLeafIsReplace(t: Tree, p: nat, q: nat)
    requires Distinct(t) && q in Indices(t) && Subtree(t, q).Node?
    requires Subtree(t, q).left == Leaf(p) || Subtree(t, q).right == Leaf(p)
    ensures RemoveLeaf(t, p) ==
              Replace(t, q, if Subtree(t, q).left == Leaf(p) then Subtree(t, q).right else Subtree(t, q).left)
  {
    if q != t.idx {
      var inLeft := q in Indices(t.left);
      var ch := if inLeft then t.left else t.right;
      SubFacts(ch, q);
      SubtreeFacts([], Subtree(ch, q), ch, None);
      assert Subtree(t, q) == Subtree(ch, q);
      assert p in Indices(Subtree(ch, q)) && q in Indices(Subtree(ch, q));
      assert p != q;
      RemoveLeafIsReplace(ch, p, q);
    }
  }

  /** An arc with a breakpoint on each side is not the root; its parent q
      is one of those two breakpoints: the one on the side away from p's
      position under q. */
  lemma LeafParent(nodes: seq<BeachlineEntry>, t: Tree, p: nat)
    requires Embeds(nodes, t, None) && Distinct(t) && p in LeafSet(t)
    requires AncRoot(t, p, Left).Some? && AncRoot(t, p, Right).Some?
    ensures p in Indices(t) && p != Root(t) && p < |nodes|
    ensures nodes[p].parent.Some? && nodes[p].parent.value < |nodes|
    ensures nodes[p].parent.value in Indices(t) && nodes[p].parent.value != Root(t)
    ensures Subtree(t, nodes[p].parent.value).Node?
    ensures Subtree(t, nodes[p].parent.value).left == Leaf(p) ==>
              AncRoot(t, p, Right) == Some(nodes[p].parent.value) &&
              AncRoot(t, p, Left) != Some(nodes[p].parent.value)
    ensures Subtree(t, nodes[p].parent.value).left != Leaf(p) ==>
              Subtree(t, nodes[p].parent.value).right == Leaf(p) &&
              AncRoot(t, p, Left) == Some(nodes[p].parent.value) &&
              AncRoot(t, p, Right) != Some(nodes[p].parent.value)
  {
    LeafSub(t, p);
    AncOfRoot(t, Left);
    AscendStep(nodes, t, None, p, Left);
    AscendStep(nodes, t, None, p, Right);
    var q := nodes[p].parent.value;
    SubFacts(t, q);
    SubtreeFacts(nodes, Subtree(t, q), t, None);
    var sq := Subtree(t, q);
    assert nodes[q].leftChild == Some(Root(sq.left)) && nodes[q].rightChild == Some(Root(sq.right));
    assert Root(sq.left) in Indices(sq.left) && Root(sq.right) in Indices(sq.right);
    if sq.left == Leaf(p) {
      assert Link(nodes[q], Left) == Some(p);
      AscendStep(nodes, t, None, q, Left);
      AncFacts(t, q, Left);
      AncOfRoot(t, Left);
    } else {
      assert Link(nodes[q], Right) == Some(p);
      AscendStep(nodes, t, None, q, Right);
      AncFacts(t, q, Right);
      AncOfRoot(t, Right);
    }
  }

  /** The splice's steps on the arena alone: with p's parent q and q's
      parent g claiming their children, neither version panics; the
      as-written one overwrites one payload and one child slot of g, the
      corrected one also re-points the sibling's parent link at g. */
  lemma SpliceUnfold(nodes: seq<BeachlineEntry>, xl: nat, p: nat, xr: nat, x: BreakPoint)
    requires LinksInRange(nodes) && xl < |nodes| && p < |nodes| && xr < |nodes| && xl != xr
    requires nodes[p].parent.Some?
    requires var q := nodes[p].parent.value;
             nodes[q].leftChild.Some? && nodes[q].rightChild.Some?
             && (nodes[q].leftChild == Some(p) || nodes[q].rightChild == Some(p))
             && nodes[q].parent.Some?
    requires var g := nodes[nodes[nodes[p].parent.value].parent.value];
             var q := nodes[p].parent.value;
             g.leftChild.Some? && g.rightChild.Some? && (g.leftChild == Some(q) || g.rightChild == Some(q))
    ensures SiblingOf(nodes, p).Some?
    ensures var q := nodes[p].parent.value;
            var g := nodes[q].parent.value;
            var other := if q == xr then xl else xr;
            var s := SiblingOf(nodes, p).value;
            var n1 := nodes[other := nodes[other].(data := BreakPointData(x))];
            var n2 := n1[g := Repoint(n1[g], q, s)];
            SpliceAsWritten(nodes, xl, p, xr, x) == Some(n2) &&
            SpliceFixed(nodes, xl, p, xr, x) == Some(n2[s := n2[s].(parent := Some(g))])
  {
  }

  /** Shapes after the corrected splice: only g's child slot for q and s's
      parent link differ in links; the overwritten payload stays a breakpoint. */
  lemma SpliceShapes(nodes: seq<BeachlineEntry>, other: nat, q: nat, g: nat, s: nat, x: BreakPoint)
    requires LinksInRange(nodes) && other < |nodes| && g < |nodes| && s < |nodes| && s != g
    requires nodes[other].data.BreakPointData?
    ensures var n1 := nodes[other := nodes[other].(data := BreakPointData(x))];
            var n2 := n1[g := Repoint(n1[g], q, s)];
            var n3 := n2[s := n2[s].(parent := Some(g))];
            |n3| == |nodes| && LinksInRange(n3)
            && (forall j :: 0 <= j < |nodes| && j != g && j != s ==> SameShape(nodes[j], n3[j]))
            && SameShape(n3[g], Repoint(nodes[g], q, s))
            && SameShape(n3[s], nodes[s].(parent := Some(g)))
            && |n2| == |nodes| && (forall j :: 0 <= j < |n3| ==> SameChildren(n3[j], n2[j]))
  {
  }

  /** The nodes a circle event on arc p touches: p's parent q (one of the
      bounding breakpoints), q's parent g, p's sibling subtree su, and the
      other bounding breakpoint, whose payload is overwritten. */
  lemma {:induction false} SpliceSetting(nodes: seq<BeachlineEntry>, t: Tree, p: nat, xl: nat, xr: nat)
    returns (q: nat, g: nat, su: Tree, other: nat)
    requires LinksInRange(nodes) && Embeds(nodes, t, None) && Distinct(t) && p in LeafSet(t)
    requires AncRoot(t, p, Left) == Some(xl) && AncRoot(t, p, Right) == Some(xr)
    ensures p < |nodes| && nodes[p].parent == Some(q) && q < |nodes| && q in Indices(t)
    ensures Subtree(t, q).Node? && (Subtree(t, q).left == Leaf(p) || Subtree(t, q).right == Leaf(p))
    ensures su == (if Subtree(t, q).left == Leaf(p) then Subtree(t, q).right else Subtree(t, q).left)
    ensures nodes[q].parent == Some(g) && g < |nodes| && g in Indices(t) && g !in Indices(Subtree(t, q))
    ensures nodes[q].leftChild.Some? && nodes[q].rightChild.Some?
    ensures nodes[q].leftChild == Some(p) || nodes[q].rightChild == Some(p)
    ensures nodes[g].leftChild.Some? && nodes[g].rightChild.Some?
    ensures nodes[g].leftChild == Some(q) || nodes[g].rightChild == Some(q)
    ensures xl < |nodes| && xr < |nodes| && xl != xr
    ensures other == (if q == xr then xl else xr) && other != q && nodes[other].data.BreakPointData?
    ensures Root(su) < |nodes| && Root(su) != g && SiblingOf(nodes, p) == Some(Root(su))
    ensures Embeds(nodes, su, Some(q)) && Distinct(su)
    ensures Indices(su) <= Indices(Subtree(t, q)) && p !in LeafSet(su) && LeafSet(su) <= LeafSet(t)
  {
    LeafParent(nodes, t, p);
    q := nodes[p].parent.value;
    var sq := Subtree(t, q);
    SubFacts(t, q);
    SubtreeFacts(nodes, sq, t, None);
    AscendStep(nodes, t, None, q, Left);
    g := nodes[q].parent.value;
    SubFacts(t, g);
    SubtreeFacts(nodes, Subtree(t, g), t, None);
    assert Root(sq) == q;
    su := if sq.left == Leaf(p) then sq.right else sq.left;
    assert Root(su) in Indices(su);
    LeafSetInIndices(su);
    other := if q == xr then xl else xr;
    var side := if q == xr then Left else Right;
    AncFacts(t, p, side);
    SubtreeFacts(nodes, Anc(t, p, side).value, t, None);
    AncFacts(t, p, Left);
    AncFacts(t, p, Right);
    SubtreeFacts(nodes, Anc(t, p, Left).value, t, None);
    SubtreeFacts(nodes, Anc(t, p, Right).value, t, None);
  }

  /** Removing a leaf p whose parent q is not the root: the tree keeps its
      root and its lack of repeats, loses exactly the arc p, and has one arc
      and one breakpoint fewer. */
  lemma RemoveLeafFacts(t: Tree, p: nat, q: nat)
    requires Distinct(t) && q in Indices(t) && q != Root(t)
    requires Subtree(t, q).Node? && (Subtree(t, q).left == Leaf(p) || Subtree(t, q).right == Leaf(p))
    ensures Distinct(RemoveLeaf(t, p)) && Root(RemoveLeaf(t, p)) == Root(t)
    ensures LeafSet(RemoveLeaf(t, p)) == LeafSet(t) - {p}
    ensures LeafCount(RemoveLeaf(t, p)) + 1 == LeafCount(t)
    ensures NodeCount(RemoveLeaf(t, p)) + 1 == NodeCount(t)
  {
    var sq := Subtree(t, q);
    var su := if sq.left == Leaf(p) then sq.right else sq.left;
    SubFacts(t, q);
    SubtreeFacts([], sq, t, None);
    assert LeafSet(sq) == {p} + LeafSet(su) && p !in LeafSet(su) by {
      LeafSetInIndices(su);
    }
    RemoveLeafIsReplace(t, p, q);
    ReplaceIndices(t, q, su);
    ReplaceLeaves(t, q, su);
    ReplaceDistinct(t, q, su);
    ReplaceCounts(t, q, su);
  }

  /** A circle event's arc has a parent that is not the root, so removing
      it takes one arc and one breakpoint off the tree. */
  lemma RemoveArcCounts(nodes: seq<BeachlineEntry>, t: Tree, p: nat, xl: nat, xr: nat)
    requires LinksInRange(nodes) && Embeds(nodes, t, None) && Distinct(t) && p in LeafSet(t)
    requires AncRoot(t, p, Left) == Some(xl) && AncRoot(t, p, Right) == Some(xr)
    ensures LeafCount(RemoveLeaf(t, p)) + 1 == LeafCount(t)
    ensures NodeCount(RemoveLeaf(t, p)) + 1 == NodeCount(t)
  {
    var q, g, su, other := SpliceSetting(nodes, t, p, xl, xr);
    RemoveLeafFacts(t, p, q);
  }

  /** nodes' has the shape of nodes except that g's child slot for q now
      names s and s's parent link names g. */
  ghost predicate Respliced(nodes: seq<BeachlineEntry>, nodes': seq<BeachlineEntry>, q: nat, g: nat, s: nat)
  {
    |nodes'| == |nodes| && g < |nodes| && s < |nodes|
    && (forall j :: 0 <= j < |nodes| && j != g && j != s ==> SameShape(nodes[j], nodes'[j]))
    && SameShape(nodes'[g], Repoint(nodes[g], q, s))
    && SameShape(nodes'[s], nodes[s].(parent := Some(g)))
  }

  /** The tree-level half of the corrected splice: an arena that differs
      from one embedding t only by g adopting su in place of q and su's root
      naming g as parent embeds t without the leaf p. */
  lemma {:induction false} SpliceEmbeds(nodes: seq<BeachlineEntry>, nodes': seq<BeachlineEntry>,
                     t: Tree, p: nat, q: nat, g: nat, su: Tree)
    requires Embeds(nodes, t, None) && Distinct(t) && p in LeafSet(t) && q in Indices(t)
    requires Subtree(t, q).Node? && (Subtree(t, q).left == Leaf(p) || Subtree(t, q).right == Leaf(p))
    requires su == (if Subtree(t, q).left == Leaf(p) then Subtree(t, q).right else Subtree(t, q).left)
    requires q < |nodes| && nodes[q].parent == Some(g) && g < |nodes| && g !in Indices(Subtree(t, q))
    requires Embeds(nodes, su, Some(q)) && Distinct(su) && Indices(su) <= Indices(Subtree(t, q))
    requires p !in LeafSet(su) && LeafSet(su) <= LeafSet(t)
    requires Respliced(nodes, nodes', q, g, Root(su))
    ensures Embeds(nodes', RemoveLeaf(t, p), None)
    ensures Distinct(RemoveLeaf(t, p)) && Root(RemoveLeaf(t, p)) == Root(t)
    ensures LeafSet(RemoveLeaf(t, p)) == LeafSet(t) - {p}
  {
    var s := Root(su);
    var sq := Subtree(t, q);
    assert Indices(sq) <= Indices(t) && forall j :: j in Indices(t) ==> j < |nodes| by {
      EmbedsLinked(nodes, t, None);
      LinkedInRange(nodes, t);
      SubFacts(t, q);
      SubtreeFacts(nodes, sq, t, None);
    }
    assert Embeds(nodes', su, Some(g)) by {
      assert s in Indices(su);
      forall j | j in Indices(su) && j != s
        ensures j < |nodes| && j < |nodes'| && SameShape(nodes[j], nodes'[j])
      {
        assert j in Indices(sq);
      }
      EmbedsFrame(nodes, nodes', su, Some(q), Some(g));
    }
    assert RemoveLeaf(t, p) == Replace(t, q, su) by {
      RemoveLeafIsReplace(t, p, q);
    }
    assert Embeds(nodes', Replace(t, q, su), None) by {
      assert s in Indices(su);
      Graft(nodes, nodes', t, None, q, su);
    }
    assert q != Root(t) by {
      AncOfRoot(t, Left);
      SubFacts(t, q);
    }
    RemoveLeafFacts(t, p, q);
  }

  /** The circle-event splice on an arena that embeds t, removing arc p
      whose bounding breakpoints are xl and xr. As written it never panics,
      and its child links describe t without p, but the sibling keeps a
      stale parent link; with that link re-pointed the arena embeds the new
      tree. The payload of the bounding breakpoint that is not p's parent is
      overwritten. */
  lemma SpliceCorrect(nodes: seq<BeachlineEntry>, t: Tree, p: nat, xl: nat, xr: nat, x: BreakPoint)
    requires LinksInRange(nodes) && Embeds(nodes, t, None) && Distinct(t) && p in LeafSet(t)
    requires xl < |nodes| && p < |nodes| && xr < |nodes|
    requires AncRoot(t, p, Left) == Some(xl) && AncRoot(t, p, Right) == Some(xr)
    ensures SpliceAsWritten(nodes, xl, p, xr, x).Some? && SpliceFixed(nodes, xl, p, xr, x).Some?
    ensures Linked(SpliceAsWritten(nodes, xl, p, xr, x).value, RemoveLeaf(t, p))
    ensures LinksInRange(SpliceFixed(nodes, xl, p, xr, x).value)
    ensures Embeds(SpliceFixed(nodes, xl, p, xr, x).value, RemoveLeaf(t, p), None)
    ensures Distinct(RemoveLeaf(t, p)) && Root(RemoveLeaf(t, p)) == Root(t)
    ensures LeafSet(RemoveLeaf(t, p)) == LeafSet(t) - {p}
    ensures |SpliceFixed(nodes, xl, p, xr, x).value| == |nodes|
    ensures SpliceFixed(nodes, xl, p, xr, x).value[if nodes[p].parent == Some(xr) then xl else xr].data
              == BreakPointData(x)
  {
    var q, g, su, other := SpliceSetting(nodes, t, p, xl, xr);
    var s := Root(su);
    var n1 := nodes[other := nodes[other].(data := BreakPointData(x))];
    var n2 := n1[g := Repoint(n1[g], q, s)];
    var n3 := n2[s := n2[s].(parent := Some(g))];
    assert SpliceAsWritten(nodes, xl, p, xr, x) == Some(n2) && SpliceFixed(nodes, xl, p, xr, x) == Some(n3) by {
      SpliceUnfold(nodes, xl, p, xr, x);
    }
    assert |n3| == |nodes| && LinksInRange(n3) && forall j :: 0 <= j < |n3| ==> SameChildren(n3[j], n2[j]) by {
      SpliceShapes(nodes, other, q, g, s, x);
    }
    assert Embeds(n3, RemoveLeaf(t, p), None) && Distinct(RemoveLeaf(t, p))
           && Root(RemoveLeaf(t, p)) == Root(t) && LeafSet(RemoveLeaf(t, p)) == LeafSet(t) - {p} by {
      SpliceShapes(nodes, other, q, g, s, x);
      SpliceEmbeds(nodes, n3, t, p, q, g, su);
    }
    assert Linked(n2, RemoveLeaf(t, p)) by {
      EmbedsLinked(n3, RemoveLeaf(t, p), None);
      LinkedInRange(n3, RemoveLeaf(t, p));
      LinkedFrame(n3, n2, RemoveLeaf(t, p));
    }
  }
}
