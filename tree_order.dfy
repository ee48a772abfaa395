/** The in-order sequence of beachline shapes: where a subtree sits in it,
    how a graft changes it, and how arcs and breakpoints alternate. */
module TreeOrder {
  import opened Wrappers
  import opened BeachlineTree
  import opened TreeFacts

  lemma SeqAssoc(a: seq<nat>, b: seq<nat>, c: seq<nat>, d: seq<nat>)
    ensures (a + b + c) + d == a + b + (c + d)
    ensures a + (b + c + d) == a + b + c + d
  {
  }

  /** The in-order indices before and after the subtree rooted at i. */
  ghost function Before(t: Tree, i: nat): seq<nat>
    requires i in Indices(t)
  {
    match t
    case Leaf(_) => []
    case Node(j, l, r) =>
      if i == j then [] else if i in Indices(l) then Before(l, i) else InOrder(l) + [j] + Before(r, i)
  }

  ghost function After(t: Tree, i: nat): seq<nat>
    requires i in Indices(t)
  {
    match t
    case Leaf(_) => []
    case Node(j, l, r) =>
      if i == j then [] else if i in Indices(l) then After(l, i) + [j] + InOrder(r) else After(r, i)
  }

  /** The subtree rooted at i occupies one stretch of the in-order sequence. */
  lemma {:induction false} InOrderSplit(t: Tree, i: nat)
    requires i in Indices(t)
    ensures InOrder(t) == Before(t, i) + InOrder(Subtree(t, i)) + After(t, i)
  {
    if t.Node? && i != t.idx {
      var (l, r) := (t.left, t.right);
      if i in Indices(l) {
        InOrderSplit(l, i);
        SeqAssoc(Before(l, i), InOrder(Subtree(l, i)), After(l, i), [t.idx] + InOrder(r));
      } else {
        InOrderSplit(r, i);
        SeqAssoc(InOrder(l) + [t.idx], Before(r, i), InOrder(Subtree(r, i)), After(r, i));
      }
    }
  }

  /** The in-order sequence of a graft: u's in-order takes the place of the
      replaced subtree's. */
  lemma {:induction false} InOrderReplace(t: Tree, i: nat, u: Tree)
    requires i in Indices(t)
    ensures InOrder(Replace(t, i, u)) == Before(t, i) + InOrder(u) + After(t, i)
  {
    if t.Node? && i != t.idx {
      var (l, r) := (t.left, t.right);
      if i in Indices(l) {
        assert Replace(t, i, u) == Node(t.idx, Replace(l, i, u), r);
        InOrderReplace(l, i, u);
        SeqAssoc(Before(l, i), InOrder(u), After(l, i), [t.idx] + InOrder(r));
      } else {
        assert Replace(t, i, u) == Node(t.idx, l, Replace(r, i, u));
        InOrderReplace(r, i, u);
        SeqAssoc(InOrder(l) + [t.idx], Before(r, i), InOrder(u), After(r, i));
      }
    }
  }

  /** Grafting u at index i: if the arena already embeds u under i's parent,
      that parent's slot for i now holds u's root, and nothing else outside
      the replaced subtree changed shape, the arena embeds the grafted tree. */
  lemma {:induction false} Graft(nodes: seq<BeachlineEntry>, nodes': seq<BeachlineEntry>,
                                 t: Tree, par: Option<nat>, i: nat, u: Tree)
    requires Embeds(nodes, t, par) && Distinct(t) && i in Indices(t) && i < |nodes|
    requires Embeds(nodes', u, nodes[i].parent)
    requires forall j :: j in Indices(t) && j !in Indices(Subtree(t, i)) && Some(j) != nodes[i].parent ==>
               j < |nodes| && j < |nodes'| && SameShape(nodes[j], nodes'[j])
    requires nodes[i].parent.Some? ==>
               nodes[i].parent.value < |nodes| && nodes[i].parent.value < |nodes'| &&
               SameShape(nodes'[nodes[i].parent.value], Repoint(nodes[nodes[i].parent.value], i, Root(u)))
    ensures Embeds(nodes', Replace(t, i, u), par)
  {
    if t.Node? && i != t.idx {
      var j := t.idx;
      assert Root(t.left) in Indices(t.left) && Root(t.right) in Indices(t.right);
      if i in Indices(t.left) {
        assert Replace(t, i, u) == Node(j, Replace(t.left, i, u), t.right);
        assert Subtree(t, i) == Subtree(t.left, i);
        SubFacts(t.left, i);
        SubtreeFacts(nodes, Subtree(t.left, i), t.left, Some(j));
        if i != Root(t.left) {
          AscendStep(nodes, t.left, Some(j), i, Left);
        }
        Graft(nodes, nodes', t.left, Some(j), i, u);
        ReplaceIndices(t.left, i, u);
        EmbedsFrame(nodes, nodes', t.right, Some(j), Some(j));
      } else {
        assert Replace(t, i, u) == Node(j, t.left, Replace(t.right, i, u));
        assert Subtree(t, i) == Subtree(t.right, i);
        SubFacts(t.right, i);
        SubtreeFacts(nodes, Subtree(t.right, i), t.right, Some(j));
        if i != Root(t.right) {
          AscendStep(nodes, t.right, Some(j), i, Left);
        }
        Graft(nodes, nodes', t.right, Some(j), i, u);
        ReplaceIndices(t.right, i, u);
        EmbedsFrame(nodes, nodes', t.left, Some(j), Some(j));
      }
    }
  }

  /** A linked tree's in-order sequence alternates arc, breakpoint, ..., arc:
      it has one more arc than breakpoints. */
  lemma {:induction false} InOrderAlternates(nodes: seq<BeachlineEntry>, t: Tree)
    requires Linked(nodes, t)
    ensures LeafCount(t) == NodeCount(t) + 1
    ensures |InOrder(t)| == 2 * NodeCount(t) + 1
    ensures forall k :: 0 <= k < |InOrder(t)| ==>
              InOrder(t)[k] < |nodes| && (nodes[InOrder(t)[k]].data.ArcData? <==> k % 2 == 0)
  {
    if t.Node? {
      InOrderAlternates(nodes, t.left);
      InOrderAlternates(nodes, t.right);
      var s, l, r := InOrder(t), InOrder(t.left), InOrder(t.right);
      assert s == l + [t.idx] + r;
      var h := NodeCount(t.left) + 1;
      assert |l| + 1 == 2 * h;
      forall k | 0 <= k < |s|
        ensures s[k] < |nodes| && (nodes[s[k]].data.ArcData? <==> k % 2 == 0)
      {
        if k < |l| {
          assert s[k] == l[k];
        } else if k == |l| {
          assert s[k] == t.idx;
          ShiftParity(0, h - 1);
        } else {
          assert s[k] == r[k - 2 * h];
          ShiftParity(k - 2 * h, h);
        }
      }
    }
  }

  lemma ShiftParity(j: int, h: int)
    ensures (j + 2 * h + 1) % 2 != j % 2 && (j + 2 * h) % 2 == j % 2
  {
  }
}
