/** The swap of an internal node with its in-order successor. The program moves
    the two nodes' positions and colours and leaves the payloads in their slots;
    the effect is to exchange the names of the two slots throughout the tree. */
module NodeSwap {
  import opened Nodes
  import opened Trees
  import opened TreeRep

  function Swp(x: int, a: int, b: int): int {
    if x == a then b else if x == b then a else x
  }

  function RenameT(t: Tree, a: int, b: int): Tree {
    match t
    case Leaf => Leaf
    case Branch(l, s, c, r) => Branch(RenameT(l, a, b), Swp(s, a, b), c, RenameT(r, a, b))
  }

  function RenameC(ctx: Ctx, a: int, b: int): Ctx {
    match ctx
    case Top => Top
    case InLeft(up, s, c, r) => InLeft(RenameC(up, a, b), Swp(s, a, b), c, RenameT(r, a, b))
    case InRight(up, s, c, l) => InRight(RenameC(up, a, b), Swp(s, a, b), c, RenameT(l, a, b))
  }

  /** The links at s agree with those of its neighbours in S. */
  ghost predicate AgreesAt(m: seq<Node>, top: int, p: int, S: set<int>, s: int) {
    && 0 <= s < |m| && s != NIL && m[s].parent != s
    && (m[s].left != NIL ==> m[s].left in S && 0 <= m[s].left < |m| && m[m[s].left].parent == s)
    && (m[s].right != NIL ==> m[s].right in S && 0 <= m[s].right < |m| && m[m[s].right].parent == s)
    && (m[s].left == m[s].right ==> m[s].left == NIL)
    && (if s == top then m[s].parent == p
        else
          && m[s].parent in S && 0 <= m[s].parent < |m|
          && (m[m[s].parent].left == s || m[m[s].parent].right == s))
  }

  /** Child and parent links agree on S, whose top slot hangs under p. */
  ghost predicate LinksAgree(m: seq<Node>, top: int, p: int, S: set<int>) {
    forall s {:trigger AgreesAt(m, top, p, S, s)} :: s in S ==> AgreesAt(m, top, p, S, s)
  }

  lemma {:induction false} RepLinksAgree(m: seq<Node>, p: int, t: Tree)
    requires |m| <= NIL && Rep(m, p, t) && Distinct(t) && p !in Slots(t)
    ensures LinksAgree(m, Idx(t), p, Slots(t))
    decreases t
  {
    match t
    case Leaf =>
    case Branch(l, s, _, r) =>
      RepLinksAgree(m, s, l);
      RepLinksAgree(m, s, r);
      RepSlots(m, s, l);
      RepSlots(m, s, r);
      assert l.Branch? ==> l.slot in Slots(l);
      assert r.Branch? ==> r.slot in Slots(r);
      forall x | x in Slots(t)
        ensures AgreesAt(m, s, p, Slots(t), x)
      {
        if x in Slots(l) {
          assert AgreesAt(m, Idx(l), s, Slots(l), x);
        } else if x in Slots(r) {
          assert AgreesAt(m, Idx(r), s, Slots(r), x);
        }
      }
  }

  /** m' is m with the names of slots a and b exchanged in all links and
      positions, payloads left where they were. */
  ghost predicate Renamed(m: seq<Node>, m': seq<Node>, S: set<int>, a: int, b: int) {
    && |m'| == |m| && a in S && b in S
    && (forall s :: s in S ==> 0 <= s < |m|)
    && (forall s :: s in S ==>
          && m'[Swp(s, a, b)].left == Swp(m[s].left, a, b)
          && m'[Swp(s, a, b)].right == Swp(m[s].right, a, b)
          && m'[Swp(s, a, b)].parent == Swp(m[s].parent, a, b)
          && m'[Swp(s, a, b)].color == m[s].color)
  }

  lemma {:induction false} RenamedRep(m: seq<Node>, m': seq<Node>, S: set<int>, a: int, b: int, p: int, t: Tree)
    requires |m| <= NIL && Renamed(m, m', S, a, b) && Slots(t) <= S && Rep(m, p, t)
    ensures Rep(m', Swp(p, a, b), RenameT(t, a, b))
    decreases t
  {
    match t
    case Leaf =>
    case Branch(l, s, _, r) =>
      assert s in Slots(t);
      RenamedRep(m, m', S, a, b, s, l);
      RenamedRep(m, m', S, a, b, s, r);
  }

  lemma {:induction false} RenameSlots(t: Tree, a: int, b: int)
    ensures forall x :: x in Slots(RenameT(t, a, b)) <==> Swp(x, a, b) in Slots(t)
  {
    match t
    case Leaf =>
    case Branch(l, s, _, r) =>
      RenameSlots(l, a, b);
      RenameSlots(r, a, b);
  }

  lemma {:induction false} RenameDistinct(t: Tree, a: int, b: int)
    requires Distinct(t)
    ensures Distinct(RenameT(t, a, b))
  {
    match t
    case Leaf =>
    case Branch(l, s, _, r) =>
      RenameDistinct(l, a, b);
      RenameDistinct(r, a, b);
      RenameSlots(l, a, b);
      RenameSlots(r, a, b);
      RenamedDisjoint(RenameT(l, a, b), RenameT(r, a, b), l, r, a, b);
      assert Swp(Swp(s, a, b), a, b) == s;
  }

  lemma RenamedDisjoint(l': Tree, r': Tree, l: Tree, r: Tree, a: int, b: int)
    requires Slots(l) !! Slots(r)
    requires forall x :: x in Slots(l') <==> Swp(x, a, b) in Slots(l)
    requires forall x :: x in Slots(r') <==> Swp(x, a, b) in Slots(r)
    ensures Slots(l') !! Slots(r')
  {
    forall x | x in Slots(l')
      ensures x !in Slots(r')
    {
      assert Swp(x, a, b) in Slots(l);
    }
  }

  /** The names in a tree are the only thing renaming changes. */
  lemma {:induction false} RenameShape(t: Tree, a: int, b: int)
    ensures Balanced(RenameT(t, a, b)) <==> Balanced(t)
    ensures BlackHeight(RenameT(t, a, b)) == BlackHeight(t)
    ensures NoRedRed(RenameT(t, a, b)) <==> NoRedRed(t)
    ensures Hue(RenameT(t, a, b)) == Hue(t)
  {
    match t
    case Leaf =>
    case Branch(l, s, _, r) =>
      RenameShape(l, a, b);
      RenameShape(r, a, b);
  }

  ghost function RenameS(s: seq<int>, a: int, b: int): (r: seq<int>)
    ensures |r| == |s| && forall i :: 0 <= i < |s| ==> r[i] == Swp(s[i], a, b)
  {
    seq(|s|, i requires 0 <= i < |s| => Swp(s[i], a, b))
  }

  lemma {:induction false} RenameInorder(t: Tree, a: int, b: int)
    ensures Inorder(RenameT(t, a, b)) == RenameS(Inorder(t), a, b)
  {
    match t
    case Leaf =>
    case Branch(l, s, _, r) =>
      RenameInorder(l, a, b);
      RenameInorder(r, a, b);
  }

  lemma {:induction false} RenamePlug(ctx: Ctx, t: Tree, a: int, b: int)
    ensures RenameT(Plug(ctx, t), a, b) == Plug(RenameC(ctx, a, b), RenameT(t, a, b))
    decreases ctx
  {
    match ctx
    case Top =>
    case InLeft(up, s, c, r) => RenamePlug(up, Branch(t, s, c, r), a, b);
    case InRight(up, s, c, l) => RenamePlug(up, Branch(l, s, c, t), a, b);
  }

  lemma {:induction false} RenameAbsent(t: Tree, a: int, b: int)
    requires a !in Slots(t) && b !in Slots(t)
    ensures RenameT(t, a, b) == t
  {
    match t
    case Leaf =>
    case Branch(l, _, _, r) =>
      RenameAbsent(l, a, b);
      RenameAbsent(r, a, b);
  }

  lemma RenameKeepsSlots(t: Tree, a: int, b: int)
    requires a in Slots(t) && b in Slots(t)
    ensures Slots(RenameT(t, a, b)) == Slots(t)
  {
    RenameSlots(t, a, b);
    forall x
      ensures x in Slots(RenameT(t, a, b)) <==> x in Slots(t)
    {
      assert x in Slots(RenameT(t, a, b)) <==> Swp(x, a, b) in Slots(t);
    }
  }

  lemma RenamedWhole(m: seq<Node>, m': seq<Node>, root: int, t: Tree, a: int, b: int)
    requires Whole(m, root, Top, t) && Renamed(m, m', Slots(t), a, b)
    ensures Whole(m', Swp(root, a, b), Top, RenameT(t, a, b))
    ensures Slots(RenameT(t, a, b)) == Slots(t)
  {
    WholeSlots(m, root, Top, t);
    assert NIL !in Slots(t);
    RenamedRep(m, m', Slots(t), a, b, NIL, t);
    RenameDistinct(t, a, b);
    RenameKeepsSlots(t, a, b);
  }

  // ----- the swap as the program writes it -----

  predicate CanSwap(m: seq<Node>, i0: int, i1: int) {
    && |m| <= NIL && 0 <= i0 < |m| && 0 <= i1 < |m|
    && Link(m, m[i0].parent) && Link(m, m[i1].parent)
    && Link(m, m[i0].left) && Link(m, m[i1].left)
    && Link(m, m[i0].right) && Link(m, m[i1].right)
  }

  /** Point the parent's child link, on the given side, to a new child. */
  function SetChild(m: seq<Node>, p: int, isLeft: bool, x: int): (r: seq<Node>)
    requires Link(m, p)
    ensures |r| == |m|
  {
    if isLeft then SetLeft(m, p, x) else SetRight(m, p, x)
  }

  function SetLinks(m: seq<Node>, i: int, l: int, r: int, p: int): (m': seq<Node>)
    requires Link(m, i)
    ensures |m'| == |m|
  {
    SetParent(SetRight(SetLeft(m, i, l), i, r), i, p)
  }

  function SwapTops(m: seq<Node>, root: int, i0: int, i1: int): (r: seq<Node>)
    requires CanSwap(m, i0, i1)
    ensures |r| == |m|
  {
    SetChild(SetChild(m, m[i0].parent, IsLeftChild(m, root, i0), i1),
             m[i1].parent, IsLeftChild(m, root, i1), i0)
  }

  function SwapLinks(m: seq<Node>, root: int, i0: int, i1: int): (r: seq<Node>)
    requires CanSwap(m, i0, i1)
    ensures |r| == |m|
  {
    SetLinks(
      SetLinks(SwapTops(m, root, i0, i1), i0, m[i1].left, m[i1].right, m[i1].parent),
      i1, m[i0].left, m[i0].right, m[i0].parent)
  }

  function SwapChildren(m: seq<Node>, root: int, i0: int, i1: int): (r: seq<Node>)
    requires CanSwap(m, i0, i1)
    ensures |r| == |m|
  {
    SetParent(SetParent(SetParent(SetParent(
      SwapLinks(m, root, i0, i1), m[i0].left, i1), m[i1].left, i0), m[i0].right, i1), m[i1].right, i0)
  }

  /** The fix-up when the successor is the direct right child. */
  function SwapAdjacent(m: seq<Node>, root: int, i0: int, i1: int): (r: seq<Node>)
    requires CanSwap(m, i0, i1)
    ensures |r| == |m|
  {
    var m1 := SwapChildren(m, root, i0, i1);
    if m[i1].parent == i0 then
      SetRight(SetParent(SetParent(m1, i0, i1), i1, m[i0].parent), i1, i0)
    else m1
  }

  function Swapped(m: seq<Node>, root: int, i0: int, i1: int): (r: seq<Node>)
    requires CanSwap(m, i0, i1)
    ensures |r| == |m|
  {
    var m1 := SwapAdjacent(m, root, i0, i1);
    SetColor(SetColor(m1, i0, m1[i1].color), i1, m1[i0].color)
  }

  /** What the swap relies on: i1 has no left child and sits in the right
      subtree of i0, so it is neither i0's left child nor i0's parent. */
  ghost predicate SwapSetting(m: seq<Node>, root: int, S: set<int>, i0: int, i1: int) {
    && |m| <= NIL && LinksAgree(m, root, NIL, S) && i0 in S && i1 in S && i0 != i1
    && 0 <= i0 < |m| && 0 <= i1 < |m|
    && m[i1].left == NIL && m[i0].left != i1 && m[i0].parent != i1
  }

  lemma SwapSettingCanSwap(m: seq<Node>, root: int, S: set<int>, i0: int, i1: int)
    requires SwapSetting(m, root, S, i0, i1)
    ensures CanSwap(m, i0, i1)
  {
    assert AgreesAt(m, root, NIL, S, i0) && AgreesAt(m, root, NIL, S, i1);
  }

  lemma SwapAtI0(m: seq<Node>, root: int, S: set<int>, i0: int, i1: int)
    requires SwapSetting(m, root, S, i0, i1) && CanSwap(m, i0, i1)
    ensures Swapped(m, root, i0, i1)[i0]
         == m[i0].(left := Swp(m[i1].left, i0, i1), right := Swp(m[i1].right, i0, i1),
                   parent := Swp(m[i1].parent, i0, i1), color := m[i1].color)
  {
    assert AgreesAt(m, root, NIL, S, i0) && AgreesAt(m, root, NIL, S, i1);
    var m1, m2, m3 := SwapLinks(m, root, i0, i1), SwapChildren(m, root, i0, i1), SwapAdjacent(m, root, i0, i1);
    assert m1[i0] == m[i0].(left := m[i1].left, right := m[i1].right, parent := m[i1].parent);
    assert m2[i0] == m1[i0];
    SwapKeepsColors(m, root, S, i0, i1);
    assert m3[i0] == m2[i0].(parent := Swp(m[i1].parent, i0, i1));
  }

  lemma SwapAtI1(m: seq<Node>, root: int, S: set<int>, i0: int, i1: int)
    requires SwapSetting(m, root, S, i0, i1) && CanSwap(m, i0, i1)
    ensures Swapped(m, root, i0, i1)[i1]
         == m[i1].(left := Swp(m[i0].left, i0, i1), right := Swp(m[i0].right, i0, i1),
                   parent := Swp(m[i0].parent, i0, i1), color := m[i0].color)
  {
    assert AgreesAt(m, root, NIL, S, i0) && AgreesAt(m, root, NIL, S, i1);
    var m1, m2, m3 := SwapLinks(m, root, i0, i1), SwapChildren(m, root, i0, i1), SwapAdjacent(m, root, i0, i1);
    assert m1[i1] == m[i1].(left := m[i0].left, right := m[i0].right, parent := m[i0].parent);
    assert m[i1].parent != i0 ==> m2[i1] == m1[i1];
    SwapKeepsColors(m, root, S, i0, i1);
    assert m3[i1] == m1[i1].(right := Swp(m[i0].right, i0, i1), parent := m[i0].parent);
  }

  lemma SwapKeepsColors(m: seq<Node>, root: int, S: set<int>, i0: int, i1: int)
    requires SwapSetting(m, root, S, i0, i1) && CanSwap(m, i0, i1)
    ensures SwapAdjacent(m, root, i0, i1)[i0].color == m[i0].color
    ensures SwapAdjacent(m, root, i0, i1)[i1].color == m[i1].color
    ensures SwapAdjacent(m, root, i0, i1)[i0].value == m[i0].value
    ensures SwapAdjacent(m, root, i0, i1)[i1].value == m[i1].value
  {
    var m0, m1, m2 := SwapTops(m, root, i0, i1), SwapLinks(m, root, i0, i1), SwapChildren(m, root, i0, i1);
    forall s | s == i0 || s == i1
      ensures m0[s].color == m[s].color && m0[s].value == m[s].value
      ensures m1[s].color == m0[s].color && m1[s].value == m0[s].value
      ensures m2[s].color == m1[s].color && m2[s].value == m1[s].value
    {
    }
  }

  lemma SwapTopsElsewhere(m: seq<Node>, root: int, S: set<int>, i0: int, i1: int, s: int)
    requires SwapSetting(m, root, S, i0, i1) && CanSwap(m, i0, i1)
    requires 0 <= s < |m| && s in S && s != i0 && s != i1
    ensures SwapTops(m, root, i0, i1)[s]
         == m[s].(left := Swp(m[s].left, i0, i1), right := Swp(m[s].right, i0, i1))
  {
    assert AgreesAt(m, root, NIL, S, i0) && AgreesAt(m, root, NIL, S, i1);
    assert AgreesAt(m, root, NIL, S, s);
  }

  lemma SwapChildrenElsewhere(m: seq<Node>, root: int, S: set<int>, i0: int, i1: int, s: int)
    requires SwapSetting(m, root, S, i0, i1) && CanSwap(m, i0, i1)
    requires 0 <= s < |m| && s in S && s != i0 && s != i1
    ensures SwapChildren(m, root, i0, i1)[s]
         == SwapLinks(m, root, i0, i1)[s].(parent :=
              if s == m[i1].right then i0
              else if s == m[i0].left || s == m[i0].right then i1
              else SwapLinks(m, root, i0, i1)[s].parent)
  {
    assert AgreesAt(m, root, NIL, S, i0) && AgreesAt(m, root, NIL, S, i1);
    assert AgreesAt(m, root, NIL, S, s);
  }

  /** Any slot but the two swapped ones has its links renamed in place. */
  lemma SwapElsewhere(m: seq<Node>, root: int, S: set<int>, i0: int, i1: int, s: int)
    requires SwapSetting(m, root, S, i0, i1) && CanSwap(m, i0, i1)
    requires 0 <= s < |m| && s in S && s != i0 && s != i1
    ensures Swapped(m, root, i0, i1)[s]
         == m[s].(left := Swp(m[s].left, i0, i1), right := Swp(m[s].right, i0, i1),
                  parent := Swp(m[s].parent, i0, i1))
  {
    assert AgreesAt(m, root, NIL, S, i0) && AgreesAt(m, root, NIL, S, i1);
    assert AgreesAt(m, root, NIL, S, s);
    SwapTopsElsewhere(m, root, S, i0, i1, s);
    SwapChildrenElsewhere(m, root, S, i0, i1, s);
    SwapKeepsOthers(m, root, i0, i1, s);
    hide SwapTops, SwapLinks, SwapChildren, Swapped;
  }

  /** Two of the steps write only to the two slots themselves. */
  lemma SwapKeepsOthers(m: seq<Node>, root: int, i0: int, i1: int, s: int)
    requires CanSwap(m, i0, i1) && 0 <= s < |m| && s != i0 && s != i1
    ensures SwapLinks(m, root, i0, i1)[s] == SwapTops(m, root, i0, i1)[s]
    ensures Swapped(m, root, i0, i1)[s] == SwapChildren(m, root, i0, i1)[s]
  {
    hide SwapTops;
    assert SwapAdjacent(m, root, i0, i1)[s] == SwapChildren(m, root, i0, i1)[s];
  }

  lemma SwapOutside(m: seq<Node>, root: int, S: set<int>, i0: int, i1: int, s: int)
    requires SwapSetting(m, root, S, i0, i1) && CanSwap(m, i0, i1)
    requires 0 <= s < |m| && s !in S
    ensures Swapped(m, root, i0, i1)[s] == m[s]
  {
    assert AgreesAt(m, root, NIL, S, i0) && AgreesAt(m, root, NIL, S, i1);
    assert SwapTops(m, root, i0, i1)[s] == m[s];
    SwapKeepsOthers(m, root, i0, i1, s);
    hide SwapTops, SwapLinks, Swapped;
    assert SwapChildren(m, root, i0, i1)[s] == SwapLinks(m, root, i0, i1)[s];
  }

  lemma SwapRenames(m: seq<Node>, root: int, S: set<int>, i0: int, i1: int)
    requires SwapSetting(m, root, S, i0, i1)
    ensures CanSwap(m, i0, i1)
    ensures Renamed(m, Swapped(m, root, i0, i1), S, i0, i1)
    ensures Confined(m, Swapped(m, root, i0, i1), S)
  {
    SwapSettingCanSwap(m, root, S, i0, i1);
    SwapAtI0(m, root, S, i0, i1);
    SwapAtI1(m, root, S, i0, i1);
    forall s | s in S
      ensures 0 <= s < |m|
    {
      assert AgreesAt(m, root, NIL, S, s);
    }
    var m' := Swapped(m, root, i0, i1);
    forall s | 0 <= s < |m| && s in S && s != i0 && s != i1
      ensures m'[s] == m[s].(left := Swp(m[s].left, i0, i1), right := Swp(m[s].right, i0, i1),
                             parent := Swp(m[s].parent, i0, i1))
    {
      SwapElsewhere(m, root, S, i0, i1, s);
    }
    forall s | 0 <= s < |m| && s !in S
      ensures m'[s] == m[s]
    {
      SwapOutside(m, root, S, i0, i1, s);
    }
  }

  // ----- the swap seen on the tree -----

  lemma WholeLinksAgree(m: seq<Node>, root: int, t: Tree)
    requires Whole(m, root, Top, t)
    ensures LinksAgree(m, root, NIL, Slots(t))
  {
    WholeSlots(m, root, Top, t);
    RepLinksAgree(m, NIL, t);
  }

  /** A node t with a right child and its successor u, the leftmost node of the
      right subtree, which precedes everything after t but t itself. */
  ghost predicate SuccessorOf(ctx: Ctx, t: Tree, c: Ctx, u: Tree) {
    && t.Branch? && u.Branch? && u.left.Leaf?
    && Plug(c, u) == Plug(ctx, t)
    && Pre(c) == Pre(ctx) + (Inorder(t.left) + [t.slot])
    && Slots(u) <= Slots(t.right)
  }

  lemma SuccessorSwapSetting(m: seq<Node>, root: int, ctx: Ctx, t: Tree, c: Ctx, u: Tree)
    requires Whole(m, root, ctx, t) && SuccessorOf(ctx, t, c, u) && t.left.Branch?
    ensures Slots(Plug(ctx, t)) == AllSlots(ctx, t)
    ensures SwapSetting(m, root, AllSlots(ctx, t), t.slot, u.slot)
    ensures root != u.slot
  {
    PlugWhole(m, root, ctx, t);
    PlugWhole(m, root, c, u);
    var S := AllSlots(ctx, t);
    WholeLinksAgree(m, root, Plug(ctx, t));
    WholeSlots(m, root, ctx, t);
    assert u.slot in Slots(t.right) && t.slot in Slots(t);
    assert t.left.slot in Slots(t.left);
    assert !ctx.Top? ==> ctx.slot in SlotsC(ctx);
    ChildSide(m, root, ctx, t);
    RootInContext(m, root, ctx, t.slot);
  }

  /** Swapping renames the tree; the node to delete is then where its successor
      was, with at most one child. */
  lemma SwapWhole(m: seq<Node>, root: int, ctx: Ctx, t: Tree, c: Ctx, u: Tree)
    requires Whole(m, root, ctx, t) && SuccessorOf(ctx, t, c, u) && t.left.Branch?
    requires RedBlack(Plug(ctx, t))
    ensures CanSwap(m, t.slot, u.slot)
    ensures var c', u' := RenameC(c, t.slot, u.slot), RenameT(u, t.slot, u.slot);
      && u'.slot == t.slot && u'.left.Leaf?
      && Whole(Swapped(m, root, t.slot, u.slot), if root == t.slot then u.slot else root, c', u')
      && RedBlack(Plug(c', u'))
      && AllSlots(c', u') == AllSlots(ctx, t)
      && Confined(m, Swapped(m, root, t.slot, u.slot), AllSlots(ctx, t))
      && Without(Inorder(Plug(c', u')), t.slot) == Without(Inorder(Plug(ctx, t)), t.slot)
  {
    var a, b, T, S := t.slot, u.slot, Plug(ctx, t), AllSlots(ctx, t);
    SuccessorSwapSetting(m, root, ctx, t, c, u);
    SwapRenames(m, root, S, a, b);
    PlugWhole(m, root, ctx, t);
    var m' := Swapped(m, root, a, b);
    RenamedWhole(m, m', root, T, a, b);
    RenamePlug(c, u, a, b);
    RenameShape(T, a, b);
    PlugWhole(m', Swp(root, a, b), RenameC(c, a, b), RenameT(u, a, b));
    RenameInorder(T, a, b);
    SuccessorOrder(ctx, t, c, u);
  }

  /** The order seen around a node and its successor. */
  lemma SuccessorOrder(ctx: Ctx, t: Tree, c: Ctx, u: Tree)
    requires SuccessorOf(ctx, t, c, u) && Distinct(Plug(ctx, t))
    ensures Without(RenameS(Inorder(Plug(ctx, t)), t.slot, u.slot), t.slot) == Without(Inorder(Plug(ctx, t)), t.slot)
  {
    var a, b, T := t.slot, u.slot, Plug(ctx, t);
    PlugInorder(c, u);
    InorderNoDup(T);
    var before, after := Pre(ctx) + Inorder(t.left), Inorder(u.right) + Post(c);
    assert Inorder(u.left) == [];
    assert Inorder(u) == [b] + Inorder(u.right);
    hide Pre, Post, Inorder, Plug, Without, RenameS;
    RegroupNext(Pre(ctx), Inorder(t.left), a, b, Inorder(u.right), Post(c));
    SwapThenWithout(before, a, b, after);
  }

  lemma RegroupNext(p: seq<int>, l: seq<int>, a: int, b: int, r: seq<int>, q: seq<int>)
    ensures p + (l + [a]) + ([b] + r) + q == (p + l) + [a] + [b] + (r + q)
  {
  }

  /** Exchanging neighbours a b and dropping a is dropping a. */
  lemma SwapThenWithout(before: seq<int>, a: int, b: int, after: seq<int>)
    requires NoDup(before + [a] + [b] + after)
    ensures Without(RenameS(before + [a] + [b] + after, a, b), a) == Without(before + [a] + [b] + after, a)
  {
    var s := before + [a] + [b] + after;
    var n := |before|;
    assert s[n] == a && s[n + 1] == b;
    assert forall i :: 0 <= i < n ==> s[i] == before[i];
    assert forall i :: 0 <= i < |after| ==> s[n + 2 + i] == after[i];
    assert a !in before && b !in before && a !in after && b !in after && a != b;
    assert RenameS(s, a, b) == (before + [b]) + [a] + after;
    assert s == before + [a] + ([b] + after);
    WithoutMiddle(before + [b], a, after);
    WithoutMiddle(before, a, [b] + after);
    assert (before + [b]) + after == before + ([b] + after);
  }
}
