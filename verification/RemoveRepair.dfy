/** The repair step after a removal, case by case, on trees and on slabs.

    The focus is "double black": its side of the tree is one black node short. */
module RemoveRepair {
  import opened Nodes
  import opened Trees
  import opened TreeRep
  import opened InsertRepair

  /** Everything is red-black except that the focus is one black level short. */
  ghost predicate Deficit(ctx: Ctx, t: Tree) {
    && Balanced(t) && NoRedRed(t) && Hue(t) == Black
    && BalancedC(ctx, BlackHeight(t) + 1) && NoRedRedC(ctx, Black)
    && RootHue(ctx, Black) == Black
  }

  /** The sibling of a short focus is a node: it has at least one black level. */
  lemma DeficitSibling(ctx: Ctx, t: Tree)
    requires Deficit(ctx, t) && !ctx.Top?
    ensures ctx.sib.Branch? && Balanced(ctx.sib) && NoRedRed(ctx.sib)
    ensures BlackHeight(ctx.sib) == BlackHeight(t) + 1
    ensures ctx.color == Red ==> Hue(ctx.sib) == Black
    ensures ctx.color == Red ==> !ctx.up.Top? && ctx.up.color == Black
    ensures BalancedC(ctx.up, BlackHeight(t) + if ctx.color == Black then 2 else 1)
    ensures NoRedRedC(ctx.up, ctx.color) && RootHue(ctx.up, ctx.color) == Black
  {
    assert NoRedRedC(ctx.up, ctx.color);
    assert RootHue(ctx.up, ctx.color) == Black;
  }

  lemma DeficitAtRoot(t: Tree)
    requires Deficit(Top, t)
    ensures RedBlack(t)
  {
  }

  // ----- painting two levels down -----

  lemma PaintLeftLeft(m: seq<Node>, root: int, up: Ctx, a: Tree, s: int, cs: Color, b: Tree,
                      p: int, cp: Color, t: Tree, ca': Color, cp': Color, cs': Color)
    requires a.Branch? && Whole(m, root, up, Branch(Branch(a, s, cs, b), p, cp, t))
    ensures Link(m, a.slot) && Link(m, p) && Link(m, s)
    ensures var m' := SetColor(SetColor(SetColor(m, a.slot, ca'), p, cp'), s, cs');
      && Whole(m', root, up, Branch(Branch(a.(color := ca'), s, cs', b), p, cp', t))
      && Confined(m, m', AllSlots(up, Branch(Branch(a, s, cs, b), p, cp, t)))
  {
    var S := AllSlots(up, Branch(Branch(a, s, cs, b), p, cp, t));
    var u := Branch(a, s, cs, b);
    var inner := InLeft(up, p, cp, t);
    ZoomLeft(m, root, up, Branch(u, p, cp, t));
    ZoomLeft(m, root, inner, u);
    PaintWhole(m, root, InLeft(inner, s, cs, b), a, ca');
    var m1, a1 := SetColor(m, a.slot, ca'), a.(color := ca');
    var u1 := Branch(a1, s, cs, b);
    ZoomLeft(m1, root, inner, u1);
    PaintAround(m, m1, root, up, u, u1, p, cp, t, cp', cs', S);
  }

  lemma PaintLeftRight(m: seq<Node>, root: int, up: Ctx, a: Tree, s: int, cs: Color, b: Tree,
                       p: int, cp: Color, t: Tree, cb': Color, cp': Color, cs': Color)
    requires b.Branch? && Whole(m, root, up, Branch(Branch(a, s, cs, b), p, cp, t))
    ensures Link(m, b.slot) && Link(m, p) && Link(m, s)
    ensures var m' := SetColor(SetColor(SetColor(m, b.slot, cb'), p, cp'), s, cs');
      && Whole(m', root, up, Branch(Branch(a, s, cs', b.(color := cb')), p, cp', t))
      && Confined(m, m', AllSlots(up, Branch(Branch(a, s, cs, b), p, cp, t)))
  {
    var S := AllSlots(up, Branch(Branch(a, s, cs, b), p, cp, t));
    var u := Branch(a, s, cs, b);
    var inner := InLeft(up, p, cp, t);
    ZoomLeft(m, root, up, Branch(u, p, cp, t));
    ZoomRight(m, root, inner, u);
    PaintWhole(m, root, InRight(inner, s, cs, a), b, cb');
    var m1, b1 := SetColor(m, b.slot, cb'), b.(color := cb');
    var u1 := Branch(a, s, cs, b1);
    ZoomRight(m1, root, inner, u1);
    PaintAround(m, m1, root, up, u, u1, p, cp, t, cp', cs', S);
  }

  lemma PaintRightRight(m: seq<Node>, root: int, up: Ctx, a: Tree, s: int, cs: Color, b: Tree,
                        p: int, cp: Color, t: Tree, cb': Color, cp': Color, cs': Color)
    requires b.Branch? && Whole(m, root, up, Branch(t, p, cp, Branch(a, s, cs, b)))
    ensures Link(m, b.slot) && Link(m, p) && Link(m, s)
    ensures var m' := SetColor(SetColor(SetColor(m, b.slot, cb'), p, cp'), s, cs');
      && Whole(m', root, up, Branch(t, p, cp', Branch(a, s, cs', b.(color := cb'))))
      && Confined(m, m', AllSlots(up, Branch(t, p, cp, Branch(a, s, cs, b))))
  {
    var S := AllSlots(up, Branch(t, p, cp, Branch(a, s, cs, b)));
    var u := Branch(a, s, cs, b);
    var inner := InRight(up, p, cp, t);
    ZoomRight(m, root, up, Branch(t, p, cp, u));
    ZoomRight(m, root, inner, u);
    PaintWhole(m, root, InRight(inner, s, cs, a), b, cb');
    var m1, b1 := SetColor(m, b.slot, cb'), b.(color := cb');
    var u1 := Branch(a, s, cs, b1);
    ZoomRight(m1, root, inner, u1);
    PaintAroundRight(m, m1, root, up, u, u1, p, cp, t, cp', cs', S);
  }

  lemma PaintRightLeft(m: seq<Node>, root: int, up: Ctx, a: Tree, s: int, cs: Color, b: Tree,
                       p: int, cp: Color, t: Tree, ca': Color, cp': Color, cs': Color)
    requires a.Branch? && Whole(m, root, up, Branch(t, p, cp, Branch(a, s, cs, b)))
    ensures Link(m, a.slot) && Link(m, p) && Link(m, s)
    ensures var m' := SetColor(SetColor(SetColor(m, a.slot, ca'), p, cp'), s, cs');
      && Whole(m', root, up, Branch(t, p, cp', Branch(a.(color := ca'), s, cs', b)))
      && Confined(m, m', AllSlots(up, Branch(t, p, cp, Branch(a, s, cs, b))))
  {
    var S := AllSlots(up, Branch(t, p, cp, Branch(a, s, cs, b)));
    var u := Branch(a, s, cs, b);
    var inner := InRight(up, p, cp, t);
    ZoomRight(m, root, up, Branch(t, p, cp, u));
    ZoomLeft(m, root, inner, u);
    PaintWhole(m, root, InLeft(inner, s, cs, b), a, ca');
    var m1, a1 := SetColor(m, a.slot, ca'), a.(color := ca');
    var u1 := Branch(a1, s, cs, b);
    ZoomLeft(m1, root, inner, u1);
    PaintAroundRight(m, m1, root, up, u, u1, p, cp, t, cp', cs', S);
  }

  /** The last two paints, on the parent and then on its left child. */
  lemma PaintAround(m: seq<Node>, m1: seq<Node>, root: int, up: Ctx, u: Tree, u1: Tree,
                    p: int, cp: Color, t: Tree, cp': Color, cs': Color, S: set<int>)
    requires u1.Branch? && Whole(m1, root, InLeft(up, p, cp, t), u1) && Confined(m, m1, S)
    requires S == AllSlots(InLeft(up, p, cp, t), u1)
    ensures Link(m1, p) && Link(m1, u1.slot)
    ensures var m' := SetColor(SetColor(m1, p, cp'), u1.slot, cs');
      && Whole(m', root, up, Branch(u1.(color := cs'), p, cp', t))
      && Confined(m, m', S)
  {
    PaintParent(m1, root, InLeft(up, p, cp, t), u1, cp');
    var m2, inner := SetColor(m1, p, cp'), InLeft(up, p, cp', t);
    PaintWhole(m2, root, inner, u1, cs');
    var m3 := SetColor(m2, u1.slot, cs');
    ZoomLeft(m3, root, up, Branch(u1.(color := cs'), p, cp', t));
    assert AllSlots(inner, u1) == S;
    ConfinedTrans(m, m1, m2, S);
    ConfinedTrans(m, m2, m3, S);
  }

  lemma PaintAroundRight(m: seq<Node>, m1: seq<Node>, root: int, up: Ctx, u: Tree, u1: Tree,
                         p: int, cp: Color, t: Tree, cp': Color, cs': Color, S: set<int>)
    requires u1.Branch? && Whole(m1, root, InRight(up, p, cp, t), u1) && Confined(m, m1, S)
    requires S == AllSlots(InRight(up, p, cp, t), u1)
    ensures Link(m1, p) && Link(m1, u1.slot)
    ensures var m' := SetColor(SetColor(m1, p, cp'), u1.slot, cs');
      && Whole(m', root, up, Branch(t, p, cp', u1.(color := cs')))
      && Confined(m, m', S)
  {
    PaintParent(m1, root, InRight(up, p, cp, t), u1, cp');
    var m2, inner := SetColor(m1, p, cp'), InRight(up, p, cp', t);
    PaintWhole(m2, root, inner, u1, cs');
    var m3 := SetColor(m2, u1.slot, cs');
    ZoomRight(m3, root, up, Branch(t, p, cp', u1.(color := cs')));
    assert AllSlots(inner, u1) == S;
    ConfinedTrans(m, m1, m2, S);
    ConfinedTrans(m, m2, m3, S);
  }

  // ----- case 3a: black sibling with a red child -----

  /** The left and right writes of case 3a (i) and (iii): three paints, one rotation. */
  lemma NearRed_LeftLeft(m: seq<Node>, root: int, up: Ctx, a: Tree, s: int, b: Tree, p: int, cp: Color, t: Tree)
    requires a.Branch? && Whole(m, root, up, Branch(Branch(a, s, Black, b), p, cp, t))
    ensures Link(m, a.slot) && Link(m, p) && Link(m, s)
    ensures var m1 := SetColor(SetColor(SetColor(m, a.slot, Black), p, Black), s, cp);
      && CanRotateRight(m1, p)
      && Whole(RotatedRight(m1, p), if root == p then s else root, up,
               Branch(a.(color := Black), s, cp, Branch(b, p, Black, t)))
      && Confined(m, RotatedRight(m1, p), AllSlots(up, Branch(Branch(a, s, Black, b), p, cp, t)))
  {
    PaintLeftLeft(m, root, up, a, s, Black, b, p, cp, t, Black, Black, cp);
    var m1 := SetColor(SetColor(SetColor(m, a.slot, Black), p, Black), s, cp);
    var a1 := a.(color := Black);
    RotateRightWhole(m1, root, up, a1, s, cp, b, p, Black, t);
    assert Slots(a1) == Slots(a);
    assert Slots(Branch(a1, s, cp, b)) == Slots(Branch(a, s, Black, b));
    ConfinedTrans(m, m1, RotatedRight(m1, p), AllSlots(up, Branch(Branch(a, s, Black, b), p, cp, t)));
  }

  lemma NearRed_RightRight(m: seq<Node>, root: int, up: Ctx, a: Tree, s: int, b: Tree, p: int, cp: Color, t: Tree)
    requires b.Branch? && Whole(m, root, up, Branch(t, p, cp, Branch(a, s, Black, b)))
    ensures Link(m, b.slot) && Link(m, p) && Link(m, s)
    ensures var m1 := SetColor(SetColor(SetColor(m, b.slot, Black), p, Black), s, cp);
      && CanRotateLeft(m1, p)
      && Whole(RotatedLeft(m1, p), if root == p then s else root, up,
               Branch(Branch(t, p, Black, a), s, cp, b.(color := Black)))
      && Confined(m, RotatedLeft(m1, p), AllSlots(up, Branch(t, p, cp, Branch(a, s, Black, b))))
  {
    PaintRightRight(m, root, up, a, s, Black, b, p, cp, t, Black, Black, cp);
    var m1 := SetColor(SetColor(SetColor(m, b.slot, Black), p, Black), s, cp);
    var b1 := b.(color := Black);
    RotateLeftWhole(m1, root, up, t, p, Black, a, s, cp, b1);
    assert Slots(b1) == Slots(b);
    assert Slots(Branch(a, s, cp, b1)) == Slots(Branch(a, s, Black, b));
    ConfinedTrans(m, m1, RotatedLeft(m1, p), AllSlots(up, Branch(t, p, cp, Branch(a, s, Black, b))));
  }

  /** Case 3a (ii) and (iv): three paints, two rotations. */
  lemma FarRed_LeftRight(m: seq<Node>, root: int, up: Ctx, a: Tree, s: int, x: Tree, p: int, cp: Color, t: Tree)
    requires x.Branch? && Whole(m, root, up, Branch(Branch(a, s, Black, x), p, cp, t))
    ensures Link(m, x.slot) && Link(m, p) && Link(m, s)
    ensures var m1 := SetColor(SetColor(SetColor(m, x.slot, cp), p, Black), s, Black);
      && CanRotateLeft(m1, s) && CanRotateRight(RotatedLeft(m1, s), p) && root != s
      && RotatedLeft(m1, s)[p].left == x.slot
      && Whole(RotatedRight(RotatedLeft(m1, s), p), if root == p then x.slot else root, up,
               Branch(Branch(a, s, Black, x.left), x.slot, cp, Branch(x.right, p, Black, t)))
      && Confined(m, RotatedRight(RotatedLeft(m1, s), p), AllSlots(up, Branch(Branch(a, s, Black, x), p, cp, t)))
  {
    var S := AllSlots(up, Branch(Branch(a, s, Black, x), p, cp, t));
    PaintLeftRight(m, root, up, a, s, Black, x, p, cp, t, cp, Black, Black);
    var m1 := SetColor(SetColor(SetColor(m, x.slot, cp), p, Black), s, Black);
    var x1 := x.(color := cp);
    assert Slots(x1) == Slots(x);
    assert Slots(Branch(a, s, Black, x1)) == Slots(Branch(a, s, Black, x));
    ZoomLeft(m1, root, up, Branch(Branch(a, s, Black, x1), p, Black, t));
    RotateLeftWhole(m1, root, InLeft(up, p, Black, t), a, s, Black, x.left, x.slot, cp, x.right);
    var m2 := RotatedLeft(m1, s);
    var v := Branch(a, s, Black, x.left);
    ZoomLeft(m2, root, up, Branch(Branch(v, x.slot, cp, x.right), p, Black, t));
    RotateRightWhole(m2, root, up, v, x.slot, cp, x.right, p, Black, t);
    var m3 := RotatedRight(m2, p);
    assert AllSlots(InLeft(up, p, Black, t), Branch(a, s, Black, x1)) == S;
    assert Slots(Branch(v, x.slot, cp, x.right)) == Slots(Branch(a, s, Black, x1)) by {
      RotationSlots(a, s, Black, x.left, x.slot, cp, x.right);
    }
    ConfinedTrans(m, m1, m2, S);
    ConfinedTrans(m, m2, m3, S);
  }

  lemma FarRed_RightLeft(m: seq<Node>, root: int, up: Ctx, x: Tree, s: int, b: Tree, p: int, cp: Color, t: Tree)
    requires x.Branch? && Whole(m, root, up, Branch(t, p, cp, Branch(x, s, Black, b)))
    ensures Link(m, x.slot) && Link(m, p) && Link(m, s)
    ensures var m1 := SetColor(SetColor(SetColor(m, x.slot, cp), p, Black), s, Black);
      && CanRotateRight(m1, s) && CanRotateLeft(RotatedRight(m1, s), p) && root != s
      && RotatedRight(m1, s)[p].right == x.slot
      && Whole(RotatedLeft(RotatedRight(m1, s), p), if root == p then x.slot else root, up,
               Branch(Branch(t, p, Black, x.left), x.slot, cp, Branch(x.right, s, Black, b)))
      && Confined(m, RotatedLeft(RotatedRight(m1, s), p), AllSlots(up, Branch(t, p, cp, Branch(x, s, Black, b))))
  {
    var S := AllSlots(up, Branch(t, p, cp, Branch(x, s, Black, b)));
    PaintRightLeft(m, root, up, x, s, Black, b, p, cp, t, cp, Black, Black);
    var m1 := SetColor(SetColor(SetColor(m, x.slot, cp), p, Black), s, Black);
    var x1 := x.(color := cp);
    assert Slots(x1) == Slots(x);
    assert Slots(Branch(x1, s, Black, b)) == Slots(Branch(x, s, Black, b));
    ZoomRight(m1, root, up, Branch(t, p, Black, Branch(x1, s, Black, b)));
    RotateRightWhole(m1, root, InRight(up, p, Black, t), x.left, x.slot, cp, x.right, s, Black, b);
    var m2 := RotatedRight(m1, s);
    var v := Branch(x.right, s, Black, b);
    ZoomRight(m2, root, up, Branch(t, p, Black, Branch(x.left, x.slot, cp, v)));
    RotateLeftWhole(m2, root, up, t, p, Black, x.left, x.slot, cp, v);
    var m3 := RotatedLeft(m2, p);
    assert AllSlots(InRight(up, p, Black, t), Branch(x1, s, Black, b)) == S;
    assert Slots(Branch(x.left, x.slot, cp, v)) == Slots(Branch(x1, s, Black, b)) by {
      RotationSlots(x.left, x.slot, cp, x.right, s, Black, b);
    }
    ConfinedTrans(m, m1, m2, S);
    ConfinedTrans(m, m2, m3, S);
  }

  /** The repaired shapes are red-black and keep the in-order sequence. */
  lemma LeftLeftRestored(up: Ctx, a: Tree, s: int, b: Tree, p: int, cp: Color, t: Tree)
    requires Deficit(InRight(up, p, cp, Branch(a, s, Black, b)), t) && Hue(a) == Red
    ensures var t' := Branch(a.(color := Black), s, cp, Branch(b, p, Black, t));
      RedBlack(Plug(up, t')) && SameOrder(InRight(up, p, cp, Branch(a, s, Black, b)), t, up, t')
  {
    var ctx := InRight(up, p, cp, Branch(a, s, Black, b));
    DeficitSibling(ctx, t);
    PaintedShape(a);
    var a1, w := a.(color := Black), Branch(b, p, Black, t);
    var t' := Branch(a1, s, cp, w);
    assert Balanced(w) && NoRedRed(w) && BlackHeight(w) == BlackHeight(t) + 1;
    PlugRedBlack(up, t');
    SingleOrder(a, s, Black, b, p, cp, t, Black, cp);
    SameContents(Branch(a, s, Black, w), t');
    RestoredUnder(ctx, t, t');
  }

  lemma LeftRightRestored(up: Ctx, a: Tree, s: int, x: Tree, p: int, cp: Color, t: Tree)
    requires Deficit(InRight(up, p, cp, Branch(a, s, Black, x)), t) && Hue(x) == Red && Hue(a) == Black
    ensures var t' := Branch(Branch(a, s, Black, x.left), x.slot, cp, Branch(x.right, p, Black, t));
      RedBlack(Plug(up, t')) && SameOrder(InRight(up, p, cp, Branch(a, s, Black, x)), t, up, t')
  {
    var ctx := InRight(up, p, cp, Branch(a, s, Black, x));
    DeficitSibling(ctx, t);
    var v, w := Branch(a, s, Black, x.left), Branch(x.right, p, Black, t);
    var t' := Branch(v, x.slot, cp, w);
    assert Balanced(v) && NoRedRed(v) && BlackHeight(v) == BlackHeight(t) + 1;
    assert Balanced(w) && NoRedRed(w) && BlackHeight(w) == BlackHeight(t) + 1;
    PlugRedBlack(up, t');
    SingleOrder(a, s, Black, x.left, x.slot, Red, x.right, Black, cp);
    SingleOrder(v, x.slot, cp, x.right, p, Black, t, cp, Black);
    SameContents(Branch(Branch(a, s, Black, x), p, cp, t), Branch(Branch(v, x.slot, cp, x.right), p, Black, t));
    RestoredUnder(ctx, t, t');
  }

  lemma RightRightRestored(up: Ctx, a: Tree, s: int, b: Tree, p: int, cp: Color, t: Tree)
    requires Deficit(InLeft(up, p, cp, Branch(a, s, Black, b)), t) && Hue(b) == Red
    ensures var t' := Branch(Branch(t, p, Black, a), s, cp, b.(color := Black));
      RedBlack(Plug(up, t')) && SameOrder(InLeft(up, p, cp, Branch(a, s, Black, b)), t, up, t')
  {
    var ctx := InLeft(up, p, cp, Branch(a, s, Black, b));
    DeficitSibling(ctx, t);
    PaintedShape(b);
    var b1, v := b.(color := Black), Branch(t, p, Black, a);
    var t' := Branch(v, s, cp, b1);
    assert Balanced(v) && NoRedRed(v) && BlackHeight(v) == BlackHeight(t) + 1;
    PlugRedBlack(up, t');
    SingleOrder(t, p, cp, a, s, Black, b, Black, cp);
    SameContents(Branch(v, s, cp, b), t');
    RestoredUnder(ctx, t, t');
  }

  lemma RightLeftRestored(up: Ctx, x: Tree, s: int, b: Tree, p: int, cp: Color, t: Tree)
    requires Deficit(InLeft(up, p, cp, Branch(x, s, Black, b)), t) && Hue(x) == Red && Hue(b) == Black
    ensures var t' := Branch(Branch(t, p, Black, x.left), x.slot, cp, Branch(x.right, s, Black, b));
      RedBlack(Plug(up, t')) && SameOrder(InLeft(up, p, cp, Branch(x, s, Black, b)), t, up, t')
  {
    var ctx := InLeft(up, p, cp, Branch(x, s, Black, b));
    DeficitSibling(ctx, t);
    var v, w := Branch(t, p, Black, x.left), Branch(x.right, s, Black, b);
    var t' := Branch(v, x.slot, cp, w);
    assert Balanced(v) && NoRedRed(v) && BlackHeight(v) == BlackHeight(t) + 1;
    assert Balanced(w) && NoRedRed(w) && BlackHeight(w) == BlackHeight(t) + 1;
    PlugRedBlack(up, t');
    SingleOrder(x.left, x.slot, Red, x.right, s, Black, b, Red, Black);
    SingleOrder(t, p, cp, x.left, x.slot, cp, w, Black, cp);
    SameContents(Branch(t, p, cp, Branch(x, s, Black, b)), Branch(t, p, cp, Branch(x.left, x.slot, cp, w)));
    RestoredUnder(ctx, t, t');
  }

  /** Trees that differ in colours of the top node or of a child. */
  lemma SameContents(t: Tree, t': Tree)
    requires t.Branch? && t'.Branch? && t.slot == t'.slot
    requires Inorder(t.left) == Inorder(t'.left) && Slots(t.left) == Slots(t'.left)
    requires Inorder(t.right) == Inorder(t'.right) && Slots(t.right) == Slots(t'.right)
    ensures Inorder(t) == Inorder(t') && Slots(t) == Slots(t')
  {
  }

  lemma RestoredUnder(ctx: Ctx, t: Tree, t': Tree)
    requires !ctx.Top?
    requires Inorder(t') == Inorder(Under(ctx, t)) && Slots(t') == Slots(Under(ctx, t))
    ensures SameOrder(ctx, t, ctx.up, t')
  {
    UnderWhole([], 0, ctx, t);
  }

  // ----- case 3b: black sibling with black children -----

  /** The sibling is painted red: the deficit moves to the parent. */
  lemma PushedUp(ctx: Ctx, t: Tree)
    requires Deficit(ctx, t) && !ctx.Top? && Hue(ctx.sib) == Black
    requires ctx.sib.Branch? ==> Hue(ctx.sib.left) == Black && Hue(ctx.sib.right) == Black
    ensures ctx.sib.Branch?
    ensures var t' := Under(ctx.(sib := ctx.sib.(color := Red)), t);
      && (ctx.color == Black ==> Deficit(ctx.up, t'))
      && (ctx.color == Red ==> RedBlack(Plug(ctx.up, t'.(color := Black))))
      && SameOrder(ctx, t, ctx.up, t') && SameOrder(ctx, t, ctx.up, t'.(color := Black))
  {
    DeficitSibling(ctx, t);
    var s1 := ctx.sib.(color := Red);
    var t' := Under(ctx.(sib := s1), t);
    assert Balanced(s1) && NoRedRed(s1) && BlackHeight(s1) == BlackHeight(t);
    assert Inorder(s1) == Inorder(ctx.sib) && Slots(s1) == Slots(ctx.sib);
    var t1 := t'.(color := Black);
    assert Balanced(t') && Balanced(t1) && NoRedRed(t1);
    PlugRedBlack(ctx.up, t1);
    assert Inorder(t') == Inorder(Under(ctx, t)) && Inorder(t1) == Inorder(t');
    assert Slots(t') == Slots(Under(ctx, t)) && Slots(t1) == Slots(t');
    RestoredUnder(ctx, t, t');
    RestoredUnder(ctx, t, t1);
  }

  // ----- case 3c: red sibling -----

  /** After the rotation the focus is one level deeper, under a red parent. */
  lemma RedSiblingLeft(up: Ctx, a: Tree, s: int, b: Tree, p: int, t: Tree)
    requires Deficit(InRight(up, p, Black, Branch(a, s, Red, b)), t)
    ensures var ctx' := InRight(InRight(up, s, Black, a), p, Red, b);
      Deficit(ctx', t) && SameOrder(InRight(up, p, Black, Branch(a, s, Red, b)), t, ctx', t)
  {
    var ctx := InRight(up, p, Black, Branch(a, s, Red, b));
    var mid := InRight(up, s, Black, a);
    var ctx' := InRight(mid, p, Red, b);
    var h := BlackHeight(t);
    DeficitSibling(ctx, t);
    assert BalancedC(mid, h + 1) && NoRedRedC(mid, Red) && RootHue(mid, Red) == Black;
    UnderWhole([], 0, ctx, t);
    UnderWhole([], 0, ctx', t);
    UnderWhole([], 0, mid, Branch(b, p, Red, t));
    SingleOrder(a, s, Red, b, p, Black, t, Red, Black);
    SameContents(Branch(a, s, Black, Branch(b, p, Red, t)), Branch(a, s, Red, Branch(b, p, Black, t)));
  }

  lemma RedSiblingRight(up: Ctx, a: Tree, s: int, b: Tree, p: int, t: Tree)
    requires Deficit(InLeft(up, p, Black, Branch(a, s, Red, b)), t)
    ensures var ctx' := InLeft(InLeft(up, s, Black, b), p, Red, a);
      Deficit(ctx', t) && SameOrder(InLeft(up, p, Black, Branch(a, s, Red, b)), t, ctx', t)
  {
    var ctx := InLeft(up, p, Black, Branch(a, s, Red, b));
    var mid := InLeft(up, s, Black, b);
    var ctx' := InLeft(mid, p, Red, a);
    var h := BlackHeight(t);
    DeficitSibling(ctx, t);
    assert BalancedC(mid, h + 1) && NoRedRedC(mid, Red) && RootHue(mid, Red) == Black;
    UnderWhole([], 0, ctx, t);
    UnderWhole([], 0, ctx', t);
    UnderWhole([], 0, mid, Branch(t, p, Red, a));
    SingleOrder(t, p, Black, a, s, Red, b, Black, Red);
    SameContents(Branch(Branch(t, p, Red, a), s, Black, b), Branch(Branch(t, p, Black, a), s, Red, b));
  }

  // ----- case 3 steps on slabs -----

  ghost predicate FixSetting(m: seq<Node>, root: int, ctx: Ctx, t: Tree) {
    |m| <= NIL && Whole(m, root, ctx, t) && Deficit(ctx, t) && !ctx.Top?
  }

  /** A finished repair: the subtree of the parent is replaced by t'. */
  ghost predicate Fixed(m: seq<Node>, m': seq<Node>, root': int, ctx: Ctx, t: Tree, t': Tree)
    requires !ctx.Top?
  {
    && Whole(m', root', ctx.up, t') && SameOrder(ctx, t, ctx.up, t')
    && Confined(m, m', AllSlots(ctx, t)) && RedBlack(Plug(ctx.up, t'))
  }

  lemma FixLeftLeftStep(m: seq<Node>, root: int, ctx: Ctx, t: Tree)
    requires FixSetting(m, root, ctx, t) && ctx.InRight?
    requires ctx.sib.Branch? && ctx.sib.color == Black && Hue(ctx.sib.left) == Red
    ensures Link(m, ctx.sib.left.slot) && Link(m, ctx.slot) && Link(m, ctx.sib.slot)
    ensures var m1 := SetColor(SetColor(SetColor(m, ctx.sib.left.slot, Black), ctx.slot, Black),
                               ctx.sib.slot, ctx.color);
      && CanRotateRight(m1, ctx.slot) && m1[ctx.slot].left == ctx.sib.slot
      && Fixed(m, RotatedRight(m1, ctx.slot), if root == ctx.slot then ctx.sib.slot else root, ctx, t,
               Branch(ctx.sib.left.(color := Black), ctx.sib.slot, ctx.color,
                      Branch(ctx.sib.right, ctx.slot, Black, t)))
  {
    var up, p, cp, s, a, b := ctx.up, ctx.slot, ctx.color, ctx.sib.slot, ctx.sib.left, ctx.sib.right;
    UnderWhole(m, root, ctx, t);
    NearRed_LeftLeft(m, root, up, a, s, b, p, cp, t);
    LeftLeftRestored(up, a, s, b, p, cp, t);
  }

  lemma FixLeftRightStep(m: seq<Node>, root: int, ctx: Ctx, t: Tree)
    requires FixSetting(m, root, ctx, t) && ctx.InRight?
    requires ctx.sib.Branch? && ctx.sib.color == Black && Hue(ctx.sib.right) == Red && Hue(ctx.sib.left) == Black
    ensures Link(m, ctx.sib.right.slot) && Link(m, ctx.slot) && Link(m, ctx.sib.slot)
    ensures var m1 := SetColor(SetColor(SetColor(m, ctx.sib.right.slot, ctx.color), ctx.slot, Black),
                               ctx.sib.slot, Black);
      && CanRotateLeft(m1, ctx.sib.slot) && root != ctx.sib.slot
      && CanRotateRight(RotatedLeft(m1, ctx.sib.slot), ctx.slot)
      && RotatedLeft(m1, ctx.sib.slot)[ctx.slot].left == ctx.sib.right.slot
      && Fixed(m, RotatedRight(RotatedLeft(m1, ctx.sib.slot), ctx.slot),
               if root == ctx.slot then ctx.sib.right.slot else root, ctx, t,
               Branch(Branch(ctx.sib.left, ctx.sib.slot, Black, ctx.sib.right.left), ctx.sib.right.slot, ctx.color,
                      Branch(ctx.sib.right.right, ctx.slot, Black, t)))
  {
    var up, p, cp, s, a, b := ctx.up, ctx.slot, ctx.color, ctx.sib.slot, ctx.sib.left, ctx.sib.right;
    UnderWhole(m, root, ctx, t);
    FarRed_LeftRight(m, root, up, a, s, b, p, cp, t);
    LeftRightRestored(up, a, s, b, p, cp, t);
  }

  lemma FixRightRightStep(m: seq<Node>, root: int, ctx: Ctx, t: Tree)
    requires FixSetting(m, root, ctx, t) && ctx.InLeft?
    requires ctx.sib.Branch? && ctx.sib.color == Black && Hue(ctx.sib.right) == Red
    ensures Link(m, ctx.sib.right.slot) && Link(m, ctx.slot) && Link(m, ctx.sib.slot)
    ensures var m1 := SetColor(SetColor(SetColor(m, ctx.sib.right.slot, Black), ctx.slot, Black),
                               ctx.sib.slot, ctx.color);
      && CanRotateLeft(m1, ctx.slot) && m1[ctx.slot].right == ctx.sib.slot
      && Fixed(m, RotatedLeft(m1, ctx.slot), if root == ctx.slot then ctx.sib.slot else root, ctx, t,
               Branch(Branch(t, ctx.slot, Black, ctx.sib.left), ctx.sib.slot, ctx.color,
                      ctx.sib.right.(color := Black)))
  {
    var up, p, cp, s, a, b := ctx.up, ctx.slot, ctx.color, ctx.sib.slot, ctx.sib.left, ctx.sib.right;
    UnderWhole(m, root, ctx, t);
    NearRed_RightRight(m, root, up, a, s, b, p, cp, t);
    RightRightRestored(up, a, s, b, p, cp, t);
  }

  lemma FixRightLeftStep(m: seq<Node>, root: int, ctx: Ctx, t: Tree)
    requires FixSetting(m, root, ctx, t) && ctx.InLeft?
    requires ctx.sib.Branch? && ctx.sib.color == Black && Hue(ctx.sib.left) == Red && Hue(ctx.sib.right) == Black
    ensures Link(m, ctx.sib.left.slot) && Link(m, ctx.slot) && Link(m, ctx.sib.slot)
    ensures var m1 := SetColor(SetColor(SetColor(m, ctx.sib.left.slot, ctx.color), ctx.slot, Black),
                               ctx.sib.slot, Black);
      && CanRotateRight(m1, ctx.sib.slot) && root != ctx.sib.slot
      && CanRotateLeft(RotatedRight(m1, ctx.sib.slot), ctx.slot)
      && RotatedRight(m1, ctx.sib.slot)[ctx.slot].right == ctx.sib.left.slot
      && Fixed(m, RotatedLeft(RotatedRight(m1, ctx.sib.slot), ctx.slot),
               if root == ctx.slot then ctx.sib.left.slot else root, ctx, t,
               Branch(Branch(t, ctx.slot, Black, ctx.sib.left.left), ctx.sib.left.slot, ctx.color,
                      Branch(ctx.sib.left.right, ctx.sib.slot, Black, ctx.sib.right)))
  {
    var up, p, cp, s, a, b := ctx.up, ctx.slot, ctx.color, ctx.sib.slot, ctx.sib.left, ctx.sib.right;
    UnderWhole(m, root, ctx, t);
    FarRed_RightLeft(m, root, up, a, s, b, p, cp, t);
    RightLeftRestored(up, a, s, b, p, cp, t);
  }

  /** The focus after a red sibling has been rotated above the parent. */
  ghost function Lowered(ctx: Ctx): Ctx
    requires !ctx.Top? && ctx.sib.Branch?
  {
    if ctx.InRight? then InRight(InRight(ctx.up, ctx.sib.slot, Black, ctx.sib.left), ctx.slot, Red, ctx.sib.right)
    else InLeft(InLeft(ctx.up, ctx.sib.slot, Black, ctx.sib.right), ctx.slot, Red, ctx.sib.left)
  }

  /** A repair that goes on: the deficit now sits at the focus (ctx', t'). */
  ghost predicate Moved(m: seq<Node>, m': seq<Node>, root': int, ctx: Ctx, t: Tree, ctx': Ctx, t': Tree) {
    && Whole(m', root', ctx', t') && SameOrder(ctx, t, ctx', t')
    && Confined(m, m', AllSlots(ctx, t)) && Deficit(ctx', t')
  }

  lemma LowerLeftStep(m: seq<Node>, root: int, ctx: Ctx, t: Tree)
    requires FixSetting(m, root, ctx, t) && ctx.InRight? && Hue(ctx.sib) == Red
    ensures Link(m, ctx.slot) && Link(m, ctx.sib.slot) && ctx.color == Black
    ensures CanRotateRight(m, ctx.slot) && m[ctx.slot].left == ctx.sib.slot
    ensures Moved(m, SetColor(SetColor(RotatedRight(m, ctx.slot), ctx.slot, Red), ctx.sib.slot, Black),
                  if root == ctx.slot then ctx.sib.slot else root, ctx, t, Lowered(ctx), t)
  {
    var up, p, s, a, b := ctx.up, ctx.slot, ctx.sib.slot, ctx.sib.left, ctx.sib.right;
    DeficitSibling(ctx, t);
    UnderWhole(m, root, ctx, t);
    RotateRightPaint(m, root, up, a, s, Red, b, p, Black, t, Red, Black);
    var m' := SetColor(SetColor(RotatedRight(m, p), p, Red), s, Black);
    var root' := if root == p then s else root;
    ZoomRight(m', root', up, Branch(a, s, Black, Branch(b, p, Red, t)));
    ZoomRight(m', root', InRight(up, s, Black, a), Branch(b, p, Red, t));
    RedSiblingLeft(up, a, s, b, p, t);
  }

  lemma LowerRightStep(m: seq<Node>, root: int, ctx: Ctx, t: Tree)
    requires FixSetting(m, root, ctx, t) && ctx.InLeft? && Hue(ctx.sib) == Red
    ensures Link(m, ctx.slot) && Link(m, ctx.sib.slot) && ctx.color == Black
    ensures CanRotateLeft(m, ctx.slot) && m[ctx.slot].right == ctx.sib.slot
    ensures Moved(m, SetColor(SetColor(RotatedLeft(m, ctx.slot), ctx.slot, Red), ctx.sib.slot, Black),
                  if root == ctx.slot then ctx.sib.slot else root, ctx, t, Lowered(ctx), t)
  {
    var up, p, s, a, b := ctx.up, ctx.slot, ctx.sib.slot, ctx.sib.left, ctx.sib.right;
    DeficitSibling(ctx, t);
    UnderWhole(m, root, ctx, t);
    RotateLeftPaint(m, root, up, t, p, Black, a, s, Red, b, Red, Black);
    var m' := SetColor(SetColor(RotatedLeft(m, p), p, Red), s, Black);
    var root' := if root == p then s else root;
    ZoomLeft(m', root', up, Branch(Branch(t, p, Red, a), s, Black, b));
    ZoomLeft(m', root', InLeft(up, s, Black, b), Branch(t, p, Red, a));
    RedSiblingRight(up, a, s, b, p, t);
  }

  /** Case 3b: paint the sibling red, then climb or, under a red parent, stop. */
  lemma PushStep(m: seq<Node>, root: int, ctx: Ctx, t: Tree)
    requires FixSetting(m, root, ctx, t) && Hue(ctx.sib) == Black
    requires ctx.sib.Branch? && Hue(ctx.sib.left) == Black && Hue(ctx.sib.right) == Black
    ensures Link(m, ctx.sib.slot) && Link(m, ctx.slot)
    ensures var t' := Under(ctx.(sib := ctx.sib.(color := Red)), t);
      var m1 := SetColor(m, ctx.sib.slot, Red);
      && (ctx.color == Black ==> Moved(m, m1, root, ctx, t, ctx.up, t'))
      && (ctx.color == Red ==> Fixed(m, SetColor(m1, ctx.slot, Black), root, ctx, t, t'.(color := Black)))
  {
    PushedUp(ctx, t);
    var ctx1 := ctx.(sib := ctx.sib.(color := Red));
    PaintSibling(m, root, ctx, t, Red);
    var m1 := SetColor(m, ctx.sib.slot, Red);
    UnderWhole(m1, root, ctx1, t);
    PaintParent(m1, root, ctx1, t, Black);
    UnderWhole(SetColor(m1, ctx.slot, Black), root, ctx1.(color := Black), t);
    assert AllSlots(ctx1, t) == AllSlots(ctx, t);
    ConfinedTrans(m, m1, SetColor(m1, ctx.slot, Black), AllSlots(ctx, t));
  }

  /** The climb of the removal repair: a red parent is reached at once after a
      red sibling, so only black parents count the remaining height. */
  ghost function Climb(ctx: Ctx): nat {
    if ctx.Top? then 0 else if ctx.color == Red then 1 else 2 + Depth(ctx)
  }

  // ----- the removal itself -----

  /** Taking out a red node, or a black node with a red child that is then
      painted black, leaves a red-black tree. */
  lemma EasyRemoval(ctx: Ctx, t: Tree, u: Tree)
    requires RedBlack(Plug(ctx, t)) && t.Branch?
    requires (t.left == Leaf && u == t.right) || (t.right == Leaf && u == t.left)
    requires t.color == Red || Hue(u) == Red
    ensures RedBlack(Plug(ctx, if u.Leaf? then u else u.(color := Black)))
  {
    PlugRedBlack(ctx, t);
    var u1 := if u.Leaf? then u else u.(color := Black);
    if t.color == Red {
      assert BlackHeight(t.left) == BlackHeight(t.right) == 0;
      RedChildlessLeaf(u);
    } else {
      PaintedShape(u);
    }
    PlugRedBlack(ctx, u1);
  }

  lemma RedChildlessLeaf(u: Tree)
    requires BlackHeight(u) == 0 && Hue(u) == Black
    ensures u.Leaf?
  {
  }

  /** Taking out a black node whose only child is black leaves a deficit at a NIL. */
  lemma HardRemoval(ctx: Ctx, t: Tree, u: Tree)
    requires RedBlack(Plug(ctx, t)) && t.Branch?
    requires (t.left == Leaf && u == t.right) || (t.right == Leaf && u == t.left)
    requires t.color == Black && Hue(u) == Black
    ensures u.Leaf? && Deficit(ctx, Leaf)
  {
    PlugRedBlack(ctx, t);
    RedChildlessLeaf(u);
  }
}
