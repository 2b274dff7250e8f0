/** Walking a book that the validation accepted. Acceptance speaks of links alone: the
    trees need be neither balanced nor sorted, and the walk still ends and visits
    every order of a side once. */
module AcceptedWalks {
  import opened Nodes
  import opened Trees
  import opened TreeRep
  import opened TreeReads
  import opened TreeKeys
  import opened RedBlackTrees
  import opened BookSpec
  import opened BookLayout
  import opened MarketBooks
  import NL = NodeLinks

  /** The slab has the links and colours of the raw nodes, and payloads of its own. */
  ghost predicate Stores(m: seq<Node>, nodes: seq<NL.RawNode>) {
    |m| == |nodes| && forall i :: 0 <= i < |m| ==> m[i].(value := ZeroOrder) == NL.Decode(nodes[i])
  }

  lemma StoredTree(m: seq<Node>, nodes: seq<NL.RawNode>, root: nat, t: Tree, avail: set<int>)
    requires |nodes| <= NIL && Stores(m, nodes) && NL.Rooted(nodes, root, t, avail)
    ensures Whole(m, NL.SlotOf(root), Top, t) && InSlab(m, Inorder(t)) && NoDup(Inorder(t))
  {
    var d := NL.DecodeAll(nodes);
    forall i | 0 <= i < |m|
      ensures m[i].left == d[i].left && m[i].right == d[i].right
      ensures m[i].parent == d[i].parent && m[i].color == d[i].color
    {
      assert m[i].(value := ZeroOrder).left == m[i].left && m[i].(value := ZeroOrder).right == m[i].right;
      assert m[i].(value := ZeroOrder).parent == m[i].parent && m[i].(value := ZeroOrder).color == m[i].color;
    }
    WholeFrame(d, m, NL.SlotOf(root), Top, t);
    WalkSlots(m, NL.SlotOf(root), t);
    InorderNoDup(t);
  }

  /** The cached best of an accepted account, as a slot, is the first of its side. */
  lemma StoredBest(m: seq<Node>, best: nat, t: Tree)
    requires InSlab(m, Inorder(t)) && best == NL.OffsetOf(NL.First0(t))
    ensures NL.SlotOf(best) == First(Inorder(t))
  {
  }

  /** The walk of one side from its cached best. */
  method WalkAccepted(
    accountLen: nat, h: NL.RawHeader, nodes: seq<NL.RawNode>, data: array<Node>, bidSide: bool,
    keepGoing: seq<Entry> -> bool, ghost t1: Tree, ghost t2: Tree, ghost t3: Tree, ghost list: seq<int>)
    returns (visited: seq<Entry>)
    requires |nodes| <= NIL && NL.Accepted(accountLen, h, nodes, t1, t2, t3, list) && Stores(data[..], nodes)
    ensures var s := Inorder(if bidSide then t1 else t2);
      && InSlab(data[..], s) && NoDup(s)
      && VisitsBestFirst(SideView(data[..], s), visited, keepGoing)
      && ((forall seen :: keepGoing(seen)) ==> visited == SideView(data[..], s))
  {
    var root, best := if bidSide then h.bidsRoot else h.asksRoot, if bidSide then h.bidsBest else h.asksBest;
    ghost var t := if bidSide then t1 else t2;
    StoredTree(data[..], nodes, root, t, Below(|nodes|) - if bidSide then {} else Slots(t1));
    StoredBest(data[..], best, t);
    var tree := new RedBlackTree(data, NL.SlotOf(root), NIL, t);
    visited := ForEachBestFirst(tree, NL.SlotOf(best), keepGoing);
  }
}
