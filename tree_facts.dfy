/** Facts about beachline shapes and their arena embedding: subtrees, frame
    conditions, walking up parent links, and grafting a subtree. */
module TreeFacts {
  import opened Wrappers
  import opened BeachlineTree

  lemma {:induction false} EmbedsLinked(nodes: seq<BeachlineEntry>, t: Tree, par: Option<nat>)
    requires Embeds(nodes, t, par)
    ensures Linked(nodes, t)
  {
    if t.Node? {
      EmbedsLinked(nodes, t.left, Some(t.idx));
      EmbedsLinked(nodes, t.right, Some(t.idx));
    }
  }

  /** Every index of a linked tree is an arena position, and its leaves are
      exactly the arc entries among them. */
  lemma {:induction false} LinkedInRange(nodes: seq<BeachlineEntry>, t: Tree)
    requires Linked(nodes, t)
    ensures LeafSet(t) <= Indices(t)
    ensures forall j :: j in Indices(t) ==> j < |nodes|
    ensures forall j :: j in Indices(t) ==> (j in LeafSet(t) <==> nodes[j].data.ArcData?)
  {
    if t.Node? {
      LinkedInRange(nodes, t.left);
      LinkedInRange(nodes, t.right);
    }
  }

  /** Linked only looks at the child links and kinds of the tree's entries. */
  lemma {:induction false} LinkedFrame(nodes: seq<BeachlineEntry>, nodes': seq<BeachlineEntry>, t: Tree)
    requires Linked(nodes, t)
    requires forall j :: j in Indices(t) ==>
               j < |nodes| && j < |nodes'| && SameChildren(nodes[j], nodes'[j])
    ensures Linked(nodes', t)
  {
    if t.Node? {
      LinkedFrame(nodes, nodes', t.left);
      LinkedFrame(nodes, nodes', t.right);
    }
  }

  /** Embeds only looks at the links and kinds of the tree's entries; the
      root's parent link may be re-pointed. */
  lemma {:induction false} EmbedsFrame(nodes: seq<BeachlineEntry>, nodes': seq<BeachlineEntry>,
                                       t: Tree, par: Option<nat>, par': Option<nat>)
    requires Embeds(nodes, t, par) && Distinct(t)
    requires Root(t) < |nodes'| && SameShape(nodes'[Root(t)], nodes[Root(t)].(parent := par'))
    requires forall j :: j in Indices(t) && j != Root(t) ==>
               j < |nodes| && j < |nodes'| && SameShape(nodes[j], nodes'[j])
    ensures Embeds(nodes', t, par')
  {
    if t.Node? {
      assert Root(t.left) in Indices(t) && Root(t.left) != Root(t);
      assert Root(t.right) in Indices(t) && Root(t.right) != Root(t);
      EmbedsFrame(nodes, nodes', t.left, Some(t.idx), Some(t.idx));
      EmbedsFrame(nodes, nodes', t.right, Some(t.idx), Some(t.idx));
    }
  }

  lemma {:induction false} SubtreeChildren(u: Tree, t: Tree)
    requires IsSubtree(u, t) && u.Node?
    ensures IsSubtree(u.left, t) && IsSubtree(u.right, t)
  {
    if u != t {
      if IsSubtree(u, t.left) {
        SubtreeChildren(u, t.left);
      } else {
        SubtreeChildren(u, t.right);
      }
    }
  }

  /** What a tree promises, its subtrees promise too. */
  lemma {:induction false} SubtreeFacts(nodes: seq<BeachlineEntry>, u: Tree, t: Tree, par: Option<nat>)
    requires IsSubtree(u, t)
    ensures Indices(u) <= Indices(t) && LeafSet(u) <= LeafSet(t)
    ensures Distinct(t) ==> Distinct(u)
    ensures Linked(nodes, t) ==> Linked(nodes, u)
    ensures Embeds(nodes, t, par) ==> Root(u) < |nodes| && Embeds(nodes, u, nodes[Root(u)].parent)
  {
    if u != t {
      var c := if IsSubtree(u, t.left) then t.left else t.right;
      SubtreeFacts(nodes, u, c, Some(t.idx));
    }
  }

  lemma {:induction false} SubFacts(t: Tree, i: nat)
    requires i in Indices(t)
    ensures IsSubtree(Subtree(t, i), t) && Root(Subtree(t, i)) == i
  {
    if t.Node? && i != t.idx {
      if i in Indices(t.left) {
        SubFacts(t.left, i);
      } else {
        SubFacts(t.right, i);
      }
    }
  }

  /** In a tree without repeated indices a subtree is found again from its
      root index. */
  lemma {:induction false} SubOfSubtree(t: Tree, u: Tree)
    requires Distinct(t) && IsSubtree(u, t)
    ensures Root(u) in Indices(t) && Subtree(t, Root(u)) == u
  {
    if u != t {
      var c := if IsSubtree(u, t.left) then t.left else t.right;
      SubOfSubtree(c, u);
      SubtreeFacts([], u, c, None);
    }
  }

  lemma {:induction false} LeafSub(t: Tree, i: nat)
    requires Distinct(t) && i in LeafSet(t)
    ensures i in Indices(t) && Subtree(t, i) == Leaf(i)
  {
    if t.Node? {
      if i in LeafSet(t.left) {
        LeafSub(t.left, i);
      } else {
        LeafSub(t.right, i);
      }
    }
  }

  lemma {:induction false} ExtremeLeaf(t: Tree, s: Side)
    ensures Extreme(t, s) in LeafSet(t)
  {
    if t.Node? {
      ExtremeLeaf(t.left, s);
      ExtremeLeaf(t.right, s);
    }
  }

  /** The ancestor found by Anc is a breakpoint of t holding i strictly
      inside its subtree on the side other than s. */
  lemma {:induction false} AncFacts(t: Tree, i: nat, s: Side)
    requires Anc(t, i, s).Some?
    ensures IsSubtree(Anc(t, i, s).value, t) && Anc(t, i, s).value.Node?
    ensures i in Indices(Child(Anc(t, i, s).value, Flip(s)))
    ensures Distinct(t) ==> i != Root(Anc(t, i, s).value)
  {
    var same := if s == Left then t.left else t.right;
    var other := if s == Left then t.right else t.left;
    if i in Indices(same) {
      AncFacts(same, i, s);
    } else if Anc(other, i, s).Some? {
      AncFacts(other, i, s);
    }
    var a := Anc(t, i, s).value;
    if Distinct(t) {
      SubtreeFacts([], a, t, None);
    }
  }

  lemma AncOfRoot(t: Tree, s: Side)
    requires Distinct(t)
    ensures Anc(t, Root(t), s) == None
  {
  }

  /** One step of the source's upward walk. A node c other than the root
      has a parent P in the tree, closer to the root and outside c's subtree.
      If c is P's s-child the walk continues from P with the same answer;
      otherwise P is the answer. */
  lemma {:induction false} AscendStep(nodes: seq<BeachlineEntry>, t: Tree, par: Option<nat>, c: nat, s: Side)
    requires Embeds(nodes, t, par) && Distinct(t)
    requires c in Indices(t) && c != Root(t)
    ensures c < |nodes| && nodes[c].parent.Some? && nodes[c].parent.value < |nodes|
    ensures nodes[c].parent.value in Indices(t)
    ensures Depth(t, nodes[c].parent.value) < Depth(t, c)
    ensures nodes[c].parent.value !in Indices(Subtree(t, c))
    ensures Subtree(t, nodes[c].parent.value).Node?
    ensures Subtree(t, nodes[c].parent.value).left == Subtree(t, c) ||
            Subtree(t, nodes[c].parent.value).right == Subtree(t, c)
    ensures Link(nodes[nodes[c].parent.value], s) == Some(c) ==>
              AncRoot(t, c, s) == AncRoot(t, nodes[c].parent.value, s)
    ensures Link(nodes[nodes[c].parent.value], s) != Some(c) ==>
              AncRoot(t, c, s) == Some(nodes[c].parent.value)
  {
    var j := t.idx;
    var ch := if c in Indices(t.left) then t.left else t.right;
    var oc := if c in Indices(t.left) then t.right else t.left;
    assert c in Indices(ch) && c !in Indices(oc);
    if c == Root(ch) {
      assert nodes[c].parent == Some(j);
      assert Subtree(t, c) == Subtree(ch, c) == ch;
      AncOfRoot(ch, s);
      AncOfRoot(t, s);
      assert Root(oc) in Indices(oc);
    } else {
      AscendStep(nodes, ch, Some(j), c, s);
      var p := nodes[c].parent.value;
      assert p in Indices(ch);
      assert Anc(t, c, s).Some? == (Anc(ch, c, s).Some? || ch != (if s == Left then t.left else t.right));
    }
  }

  lemma {:induction false} LeafSetInIndices(t: Tree)
    ensures LeafSet(t) <= Indices(t)
  {
    if t.Node? {
      LeafSetInIndices(t.left);
      LeafSetInIndices(t.right);
    }
  }

  /** Replacing the subtree at i by u removes that subtree's indices and
      adds u's; a root other than i stays the root. */
  lemma {:induction false} ReplaceIndices(t: Tree, i: nat, u: Tree)
    requires Distinct(t) && i in Indices(t)
    ensures Indices(Replace(t, i, u)) == (Indices(t) - Indices(Subtree(t, i))) + Indices(u)
    ensures i != Root(t) ==> Root(Replace(t, i, u)) == Root(t)
  {
    if t.Node? && i != t.idx {
      if i in Indices(t.left) {
        assert Replace(t, i, u) == Node(t.idx, Replace(t.left, i, u), t.right);
        assert Subtree(t, i) == Subtree(t.left, i);
        ReplaceIndices(t.left, i, u);
        SubFacts(t.left, i);
        SubtreeFacts([], Subtree(t.left, i), t.left, None);
      } else {
        assert Replace(t, i, u) == Node(t.idx, t.left, Replace(t.right, i, u));
        assert Subtree(t, i) == Subtree(t.right, i);
        ReplaceIndices(t.right, i, u);
        SubFacts(t.right, i);
        SubtreeFacts([], Subtree(t.right, i), t.right, None);
      }
    }
  }

  /** Replacing the subtree at i by u removes that subtree's arcs and adds
      u's. */
  lemma {:induction false} ReplaceLeaves(t: Tree, i: nat, u: Tree)
    requires Distinct(t) && i in Indices(t)
    ensures LeafSet(Replace(t, i, u)) == (LeafSet(t) - LeafSet(Subtree(t, i))) + LeafSet(u)
  {
    if t.Node? && i != t.idx {
      LeafSetInIndices(t.left);
      LeafSetInIndices(t.right);
      if i in Indices(t.left) {
        assert Replace(t, i, u) == Node(t.idx, Replace(t.left, i, u), t.right);
        assert Subtree(t, i) == Subtree(t.left, i);
        ReplaceLeaves(t.left, i, u);
        SubFacts(t.left, i);
        SubtreeFacts([], Subtree(t.left, i), t.left, None);
      } else {
        assert Replace(t, i, u) == Node(t.idx, t.left, Replace(t.right, i, u));
        assert Subtree(t, i) == Subtree(t.right, i);
        ReplaceLeaves(t.right, i, u);
        SubFacts(t.right, i);
        SubtreeFacts([], Subtree(t.right, i), t.right, None);
      }
    }
  }

  /** A graft whose new indices are fresh keeps the tree free of repeats. */
  lemma {:induction false} ReplaceDistinct(t: Tree, i: nat, u: Tree)
    requires Distinct(t) && i in Indices(t)
    requires Distinct(u) && Indices(u) !! (Indices(t) - Indices(Subtree(t, i)))
    ensures Distinct(Replace(t, i, u))
  {
    if i != Root(t) {
      var inLeft := i in Indices(t.left);
      var ch := if inLeft then t.left else t.right;
      var oc := if inLeft then t.right else t.left;
      SubFacts(ch, i);
      SubtreeFacts([], Subtree(ch, i), ch, None);
      assert Subtree(t, i) == Subtree(ch, i);
      ReplaceDistinct(ch, i, u);
      ReplaceIndices(ch, i, u);
    }
  }

  /** Arc and breakpoint counts after a graft. */
  lemma {:induction false} ReplaceCounts(t: Tree, i: nat, u: Tree)
    requires i in Indices(t)
    ensures LeafCount(Replace(t, i, u)) + LeafCount(Subtree(t, i)) == LeafCount(t) + LeafCount(u)
    ensures NodeCount(Replace(t, i, u)) + NodeCount(Subtree(t, i)) == NodeCount(t) + NodeCount(u)
  {
    if t.Node? && i != t.idx {
      if i in Indices(t.left) {
        ReplaceCounts(t.left, i, u);
      } else {
        ReplaceCounts(t.right, i, u);
      }
    }
  }

  /** In a tree without repeated indices an arc has a neighbour on side s
      exactly when it is not the extreme arc on that side. */
  lemma {:induction false} NeighbourExtreme(t: Tree, i: nat, s: Side)
    requires Distinct(t) && i in LeafSet(t)
    ensures NeighbourArc(t, i, s).Some? <==> i != Extreme(t, s)
  {
    if t.Node? {
      var same := if s == Left then t.left else t.right;
      var other := if s == Left then t.right else t.left;
      LeafSetInIndices(same);
      LeafSetInIndices(other);
      ExtremeLeaf(same, s);
      assert Extreme(t, s) == Extreme(same, s);
      if i in Indices(same) {
        assert i in LeafSet(same);
        NeighbourExtreme(same, i, s);
      } else {
        assert i in Indices(other);
        if Anc(other, i, s).Some? {
          AncFacts(other, i, s);
        }
      }
    }
  }

  /** Grafting u in place of arc q: the extreme arc on side s becomes u's
      when it was q, and stays as it was otherwise. */
  lemma {:induction false} ReplaceExtreme(t: Tree, q: nat, u: Tree, s: Side)
    requires Distinct(t) && q in LeafSet(t)
    ensures Extreme(Replace(t, q, u), s) == if Extreme(t, s) == q then Extreme(u, s) else Extreme(t, s)
  {
    if t.Node? {
      LeafSetInIndices(t.left);
      LeafSetInIndices(t.right);
      ExtremeLeaf(t.left, s);
      ExtremeLeaf(t.right, s);
      if q in Indices(t.left) {
        assert q in LeafSet(t.left);
        assert Replace(t, q, u) == Node(t.idx, Replace(t.left, q, u), t.right);
        ReplaceExtreme(t.left, q, u, s);
      } else {
        assert q in LeafSet(t.right);
        assert Replace(t, q, u) == Node(t.idx, t.left, Replace(t.right, q, u));
        ReplaceExtreme(t.right, q, u, s);
      }
    }
  }

  /** Removing an arc p that is not the extreme one on side s keeps that
      extreme arc. */
  lemma {:induction false} RemoveLeafExtreme(t: Tree, p: nat, s: Side)
    requires Distinct(t) && p in LeafSet(t) && p != Extreme(t, s)
    ensures Extreme(RemoveLeaf(t, p), s) == Extreme(t, s)
  {
    if t.Node? && t.left != Leaf(p) && t.right != Leaf(p) {
      LeafSetInIndices(t.left);
      LeafSetInIndices(t.right);
      if p in Indices(t.left) {
        assert p in LeafSet(t.left);
        if s == Left {
          RemoveLeafExtreme(t.left, p, s);
        }
      } else {
        assert p in LeafSet(t.right);
        if s == Right {
          RemoveLeafExtreme(t.right, p, s);
        }
      }
    }
  }

  /** A site event keeps inner arcs inner: grafting u, whose indices are
      new, in place of arc q leaves every other inner arc k of t inside. */
  lemma ReplaceInterior(t: Tree, q: nat, u: Tree, k: nat)
    requires Distinct(t) && q in LeafSet(t) && Interior(t, k) && k != q && k !in Indices(u)
    requires k in LeafSet(Replace(t, q, u))
    ensures Interior(Replace(t, q, u), k)
  {
    ReplaceExtreme(t, q, u, Left);
    ReplaceExtreme(t, q, u, Right);
    ExtremeLeaf(u, Left);
    ExtremeLeaf(u, Right);
    LeafSetInIndices(u);
  }

  /** A circle event keeps inner arcs inner: removing the inner arc p
      leaves every other inner arc k of t inside. */
  lemma RemoveLeafInterior(t: Tree, p: nat, k: nat)
    requires Distinct(t) && Interior(t, p) && Interior(t, k) && k != p
    requires k in LeafSet(RemoveLeaf(t, p))
    ensures Interior(RemoveLeaf(t, p), k)
  {
    RemoveLeafExtreme(t, p, Left);
    RemoveLeafExtreme(t, p, Right);
  }
}
