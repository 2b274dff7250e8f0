/** The repair step after an insertion, case by case, on trees and on slabs.

    The focus is a red node whose parent may be red too; everything else about
    the tree is already right. */
module InsertRepair {
  import opened Nodes
  import opened Trees
  import opened TreeRep

  /** Everything is red-black except that the red focus may have a red parent. */
  ghost predicate Pending(ctx: Ctx, t: Tree) {
    && t.Branch? && t.color == Red
    && Balanced(t) && NoRedRed(t)
    && BalancedC(ctx, BlackHeight(t)) && NoRedRedC(ctx, Black)
    && RootHue(ctx, Black) == Black
  }

  ghost function InorderAll(ctx: Ctx, t: Tree): seq<int> {
    Pre(ctx) + Inorder(t) + Post(ctx)
  }

  /** The subtree one level up. */
  ghost function Under(ctx: Ctx, t: Tree): Tree
    requires !ctx.Top?
  {
    if ctx.InLeft? then Branch(t, ctx.slot, ctx.color, ctx.sib)
    else Branch(ctx.sib, ctx.slot, ctx.color, t)
  }

  lemma UnderWhole(m: seq<Node>, root: int, ctx: Ctx, t: Tree)
    requires !ctx.Top?
    ensures Whole(m, root, ctx, t) <==> Whole(m, root, ctx.up, Under(ctx, t))
    ensures AllSlots(ctx, t) == AllSlots(ctx.up, Under(ctx, t))
    ensures InorderAll(ctx, t) == InorderAll(ctx.up, Under(ctx, t))
  {
    if ctx.InLeft? {
      ZoomLeft(m, root, ctx.up, Under(ctx, t));
      assert Pre(ctx.up) + Inorder(t) + (([ctx.slot] + Inorder(ctx.sib)) + Post(ctx.up))
          == Pre(ctx.up) + (Inorder(t) + [ctx.slot] + Inorder(ctx.sib)) + Post(ctx.up);
    } else {
      ZoomRight(m, root, ctx.up, Under(ctx, t));
      assert (Pre(ctx.up) + (Inorder(ctx.sib) + [ctx.slot])) + Inorder(t) + Post(ctx.up)
          == Pre(ctx.up) + (Inorder(ctx.sib) + [ctx.slot] + Inorder(t)) + Post(ctx.up);
    }
  }

  ghost function Depth(ctx: Ctx): nat {
    if ctx.Top? then 0 else 1 + Depth(ctx.up)
  }

  /** Same slots, same in-order sequence. */
  ghost predicate SameOrder(ctx: Ctx, t: Tree, ctx': Ctx, t': Tree) {
    && AllSlots(ctx', t') == AllSlots(ctx, t)
    && InorderAll(ctx', t') == InorderAll(ctx, t)
  }

  // ----- a red parent is not the root -----

  lemma RedParentHasParent(ctx: Ctx, t: Tree)
    requires Pending(ctx, t) && !ctx.Top? && ctx.color == Red
    ensures !ctx.up.Top? && ctx.up.color == Black && Hue(ctx.sib) == Black
  {
    assert NoRedRedC(ctx.up, Red);
    assert RootHue(ctx.up, Red) == Black;
  }

  // ----- case 1: the uncle is red -----

  /** The recoloured subtree of the grandparent. */
  ghost function Recolored(ctx: Ctx, t: Tree): Tree
    requires !ctx.Top? && !ctx.up.Top? && ctx.up.sib.Branch?
  {
    Under(ctx.up.(color := Red, sib := ctx.up.sib.(color := Black)), Under(ctx.(color := Black), t))
  }

  lemma RecolorPending(ctx: Ctx, t: Tree)
    requires Pending(ctx, t) && !ctx.Top? && ctx.color == Red
    requires !ctx.up.Top? && Hue(ctx.up.sib) == Red
    ensures Pending(ctx.up.up, Recolored(ctx, t))
    ensures SameOrder(ctx, t, ctx.up.up, Recolored(ctx, t))
  {
    var u := ctx.up.sib;
    var h := BlackHeight(t);
    UnderWhole([], 0, ctx, t);
    UnderWhole([], 0, ctx.up, Under(ctx, t));
    assert BalancedC(ctx.up, h) && NoRedRedC(ctx.up, Red) && RootHue(ctx.up, Red) == Black;
    assert BalancedC(ctx.up.up, h + 1) && NoRedRedC(ctx.up.up, Black) && RootHue(ctx.up.up, Black) == Black;
    PaintedShape(u);
    var p := Under(ctx.(color := Black), t);
    assert Slots(p) == Slots(Under(ctx, t)) && Inorder(p) == Inorder(Under(ctx, t));
    assert Balanced(p) && NoRedRed(p) && BlackHeight(p) == h + 1;
    assert ctx.up.color == Black;
    assert Balanced(Recolored(ctx, t)) && NoRedRed(Recolored(ctx, t));
  }

  lemma PaintedShape(u: Tree)
    requires u.Branch? && u.color == Red
    ensures var v := u.(color := Black);
      && Slots(v) == Slots(u) && Inorder(v) == Inorder(u)
      && (Balanced(u) ==> Balanced(v)) && (NoRedRed(u) ==> NoRedRed(v))
      && BlackHeight(v) == BlackHeight(u) + 1
  {
  }

  lemma RecolorWhole(m: seq<Node>, root: int, ctx: Ctx, t: Tree)
    requires Whole(m, root, ctx, t) && !ctx.Top? && !ctx.up.Top? && ctx.up.sib.Branch?
    ensures Link(m, ctx.slot) && Link(m, ctx.up.sib.slot) && Link(m, ctx.up.slot)
    ensures var m' := SetColor(SetColor(SetColor(m, ctx.slot, Black), ctx.up.sib.slot, Black), ctx.up.slot, Red);
      Whole(m', root, ctx.up.up, Recolored(ctx, t)) && Confined(m, m', AllSlots(ctx, t))
  {
    var S := AllSlots(ctx, t);
    PaintParent(m, root, ctx, t, Black);
    var m1, ctx1 := SetColor(m, ctx.slot, Black), ctx.(color := Black);
    UnderWhole(m1, root, ctx1, t);
    var t1 := Under(ctx1, t);
    PaintSibling(m1, root, ctx.up, t1, Black);
    var m2, up2 := SetColor(m1, ctx.up.sib.slot, Black), ctx.up.(sib := ctx.up.sib.(color := Black));
    PaintParent(m2, root, up2, t1, Red);
    var m3 := SetColor(m2, ctx.up.slot, Red);
    UnderWhole(m3, root, up2.(color := Red), t1);
    assert AllSlots(ctx1, t) == S;
    assert AllSlots(ctx.up, t1) == S;
    assert AllSlots(up2, t1) == S;
    ConfinedTrans(m, m1, m2, S);
    ConfinedTrans(m, m2, m3, S);
  }

  // ----- cases 2 to 5: the uncle is black -----

  /** Rotate right at g, then paint g and p. */
  lemma RotateRightPaint(m: seq<Node>, root: int, up: Ctx, a: Tree, p: int, cp: Color, b: Tree,
                         g: int, cg: Color, r: Tree, cg': Color, cp': Color)
    requires Whole(m, root, up, Branch(Branch(a, p, cp, b), g, cg, r))
    ensures CanRotateRight(m, g) && Link(m, p)
    ensures var m' := SetColor(SetColor(RotatedRight(m, g), g, cg'), p, cp');
      && Whole(m', if root == g then p else root, up, Branch(a, p, cp', Branch(b, g, cg', r)))
      && Confined(m, m', AllSlots(up, Branch(Branch(a, p, cp, b), g, cg, r)))
  {
    var S := AllSlots(up, Branch(Branch(a, p, cp, b), g, cg, r));
    RotateRightWhole(m, root, up, a, p, cp, b, g, cg, r);
    var root' := if root == g then p else root;
    var m1 := RotatedRight(m, g);
    var u1 := Branch(b, g, cg, r);
    ZoomRight(m1, root', up, Branch(a, p, cp, u1));
    PaintWhole(m1, root', InRight(up, p, cp, a), u1, cg');
    var m2, u2 := SetColor(m1, g, cg'), u1.(color := cg');
    ZoomRight(m2, root', up, Branch(a, p, cp, u2));
    PaintWhole(m2, root', up, Branch(a, p, cp, u2), cp');
    var m3 := SetColor(m2, p, cp');
    assert AllSlots(InRight(up, p, cp, a), u1) == S;
    assert AllSlots(up, Branch(a, p, cp, u2)) == S;
    ConfinedTrans(m, m1, m2, S);
    ConfinedTrans(m, m2, m3, S);
  }

  /** Rotate left at g, then paint g and p. */
  lemma RotateLeftPaint(m: seq<Node>, root: int, up: Ctx, l: Tree, g: int, cg: Color,
                        a: Tree, p: int, cp: Color, b: Tree, cg': Color, cp': Color)
    requires Whole(m, root, up, Branch(l, g, cg, Branch(a, p, cp, b)))
    ensures CanRotateLeft(m, g) && Link(m, p)
    ensures var m' := SetColor(SetColor(RotatedLeft(m, g), g, cg'), p, cp');
      && Whole(m', if root == g then p else root, up, Branch(Branch(l, g, cg', a), p, cp', b))
      && Confined(m, m', AllSlots(up, Branch(l, g, cg, Branch(a, p, cp, b))))
  {
    var S := AllSlots(up, Branch(l, g, cg, Branch(a, p, cp, b)));
    RotateLeftWhole(m, root, up, l, g, cg, a, p, cp, b);
    var root' := if root == g then p else root;
    var m1 := RotatedLeft(m, g);
    var u1 := Branch(l, g, cg, a);
    ZoomLeft(m1, root', up, Branch(u1, p, cp, b));
    PaintWhole(m1, root', InLeft(up, p, cp, b), u1, cg');
    var m2, u2 := SetColor(m1, g, cg'), u1.(color := cg');
    ZoomLeft(m2, root', up, Branch(u2, p, cp, b));
    PaintWhole(m2, root', up, Branch(u2, p, cp, b), cp');
    var m3 := SetColor(m2, p, cp');
    assert AllSlots(InLeft(up, p, cp, b), u1) == S;
    assert AllSlots(up, Branch(u2, p, cp, b)) == S;
    ConfinedTrans(m, m1, m2, S);
    ConfinedTrans(m, m2, m3, S);
  }

  /** The two-rotation cases meet in this shape: x on top, l-p-y to its left,
      z-g-r to its right. SetColor(x) comes before SetColor(g) in the program. */
  lemma DoubleRotateLeftRight(m: seq<Node>, root: int, up: Ctx, l: Tree, p: int, cp: Color,
                              y: Tree, x: int, cx: Color, z: Tree, g: int, cg: Color, r: Tree,
                              cx': Color, cg': Color)
    requires Whole(m, root, up, Branch(Branch(l, p, cp, Branch(y, x, cx, z)), g, cg, r))
    ensures CanRotateLeft(m, p) && CanRotateRight(RotatedLeft(m, p), g) && Link(m, x) && Link(m, g)
    ensures root != p && RotatedLeft(m, p)[g].left == x
    ensures var m' := SetColor(SetColor(RotatedRight(RotatedLeft(m, p), g), x, cx'), g, cg');
      && Whole(m', if root == g then x else root, up,
               Branch(Branch(l, p, cp, y), x, cx', Branch(z, g, cg', r)))
      && Confined(m, m', AllSlots(up, Branch(Branch(l, p, cp, Branch(y, x, cx, z)), g, cg, r)))
  {
    var sub := Branch(l, p, cp, Branch(y, x, cx, z));
    var S := AllSlots(up, Branch(sub, g, cg, r));
    ZoomLeft(m, root, up, Branch(sub, g, cg, r));
    RotateLeftWhole(m, root, InLeft(up, g, cg, r), l, p, cp, y, x, cx, z);
    var m1 := RotatedLeft(m, p);
    var u := Branch(l, p, cp, y);
    var sub1 := Branch(u, x, cx, z);
    ZoomLeft(m1, root, up, Branch(sub1, g, cg, r));
    assert AllSlots(InLeft(up, g, cg, r), sub) == S;
    assert AllSlots(InLeft(up, g, cg, r), sub1) == S;
    assert AllSlots(up, Branch(sub1, g, cg, r)) == S;
    RotateRightPaint(m1, root, up, u, x, cx, z, g, cg, r, cg', cx');
    PaintsCommute(RotatedRight(m1, g), x, cx', g, cg');
    ConfinedTrans(m, m1, SetColor(SetColor(RotatedRight(m1, g), g, cg'), x, cx'), S);
  }

  lemma DoubleRotateRightLeft(m: seq<Node>, root: int, up: Ctx, l: Tree, g: int, cg: Color,
                              y: Tree, x: int, cx: Color, z: Tree, p: int, cp: Color, r: Tree,
                              cx': Color, cg': Color)
    requires Whole(m, root, up, Branch(l, g, cg, Branch(Branch(y, x, cx, z), p, cp, r)))
    ensures CanRotateRight(m, p) && CanRotateLeft(RotatedRight(m, p), g) && Link(m, x) && Link(m, g)
    ensures root != p && RotatedRight(m, p)[g].right == x
    ensures var m' := SetColor(SetColor(RotatedLeft(RotatedRight(m, p), g), x, cx'), g, cg');
      && Whole(m', if root == g then x else root, up,
               Branch(Branch(l, g, cg', y), x, cx', Branch(z, p, cp, r)))
      && Confined(m, m', AllSlots(up, Branch(l, g, cg, Branch(Branch(y, x, cx, z), p, cp, r))))
  {
    var sub := Branch(Branch(y, x, cx, z), p, cp, r);
    var S := AllSlots(up, Branch(l, g, cg, sub));
    ZoomRight(m, root, up, Branch(l, g, cg, sub));
    RotateRightWhole(m, root, InRight(up, g, cg, l), y, x, cx, z, p, cp, r);
    var m1 := RotatedRight(m, p);
    var u := Branch(z, p, cp, r);
    var sub1 := Branch(y, x, cx, u);
    ZoomRight(m1, root, up, Branch(l, g, cg, sub1));
    assert AllSlots(InRight(up, g, cg, l), sub) == S;
    assert AllSlots(InRight(up, g, cg, l), sub1) == S;
    assert AllSlots(up, Branch(l, g, cg, sub1)) == S;
    RotateLeftPaint(m1, root, up, l, g, cg, y, x, cx, u, cg', cx');
    PaintsCommute(RotatedLeft(m1, g), x, cx', g, cg');
    ConfinedTrans(m, m1, SetColor(SetColor(RotatedLeft(m1, g), g, cg'), x, cx'), S);
  }

  lemma PaintsCommute(m: seq<Node>, x: int, cx: Color, g: int, cg: Color)
    requires 0 <= x < |m| && 0 <= g < |m| && x != g && |m| <= NIL
    ensures SetColor(SetColor(m, g, cg), x, cx) == SetColor(SetColor(m, x, cx), g, cg)
  {
  }

  /** Replacing the subtree of the grandparent by one with the same sequence. */
  lemma SubtreeOrder(ctx: Ctx, t: Tree, t': Tree)
    requires !ctx.Top? && !ctx.up.Top?
    requires Inorder(t') == Inorder(Under(ctx.up, Under(ctx, t)))
    requires Slots(t') == Slots(Under(ctx.up, Under(ctx, t)))
    ensures SameOrder(ctx, t, ctx.up.up, t')
  {
    UnderWhole([], 0, ctx, t);
    UnderWhole([], 0, ctx.up, Under(ctx, t));
  }

  lemma SingleOrder(l: Tree, g: int, cg: Color, a: Tree, p: int, cp: Color, b: Tree, cg': Color, cp': Color)
    ensures var t, t' := Branch(l, g, cg, Branch(a, p, cp, b)), Branch(Branch(l, g, cg', a), p, cp', b);
      Inorder(t) == Inorder(t') && Slots(t) == Slots(t')
  {
    var u, u' := Branch(a, p, cp, b), Branch(l, g, cg', a);
    assert Inorder(u) == Inorder(a) + [p] + Inorder(b) && Slots(u) == Slots(a) + {p} + Slots(b);
    assert Inorder(u') == Inorder(l) + [g] + Inorder(a) && Slots(u') == Slots(l) + {g} + Slots(a);
    assert Inorder(l) + [g] + (Inorder(a) + [p] + Inorder(b)) == (Inorder(l) + [g] + Inorder(a)) + [p] + Inorder(b);
  }

  /** Each rotated shape is red-black in place and keeps the in-order sequence. */
  lemma LeftLeftRepaired(up: Ctx, t: Tree, p: int, b: Tree, g: int, u: Tree)
    requires Pending(InLeft(InLeft(up, g, Black, u), p, Red, b), t) && Hue(u) == Black
    ensures var t' := Branch(t, p, Black, Branch(b, g, Red, u));
      && RedBlack(Plug(up, t'))
      && SameOrder(InLeft(InLeft(up, g, Black, u), p, Red, b), t, up, t')
  {
    var w := Branch(b, g, Red, u);
    var t' := Branch(t, p, Black, w);
    var h := BlackHeight(t);
    assert BalancedC(InLeft(up, g, Black, u), h) && NoRedRedC(InLeft(up, g, Black, u), Red);
    assert RootHue(InLeft(up, g, Black, u), Red) == Black;
    assert Balanced(w) && NoRedRed(w) && BlackHeight(w) == h;
    PlugRedBlack(up, t');
    SingleOrder(t, p, Black, b, g, Red, u, Red, Black);
    SubtreeOrder(InLeft(InLeft(up, g, Black, u), p, Red, b), t, t');
  }

  lemma LeftRightRepaired(up: Ctx, t: Tree, p: int, b: Tree, g: int, u: Tree)
    requires Pending(InRight(InLeft(up, g, Black, u), p, Red, b), t) && Hue(u) == Black
    ensures var t' := Branch(Branch(b, p, Red, t.left), t.slot, Black, Branch(t.right, g, Red, u));
      && RedBlack(Plug(up, t'))
      && SameOrder(InRight(InLeft(up, g, Black, u), p, Red, b), t, up, t')
  {
    var v, w := Branch(b, p, Red, t.left), Branch(t.right, g, Red, u);
    var t' := Branch(v, t.slot, Black, w);
    var h := BlackHeight(t);
    assert BalancedC(InLeft(up, g, Black, u), h) && NoRedRedC(InLeft(up, g, Black, u), Red);
    assert RootHue(InLeft(up, g, Black, u), Red) == Black;
    assert Balanced(v) && NoRedRed(v) && BlackHeight(v) == h;
    assert Balanced(w) && NoRedRed(w) && BlackHeight(w) == h;
    PlugRedBlack(up, t');
    SingleOrder(b, p, Red, t.left, t.slot, Red, t.right, Red, Red);
    SingleOrder(v, t.slot, Black, t.right, g, Red, u, Red, Black);
    SubtreeOrder(InRight(InLeft(up, g, Black, u), p, Red, b), t, t');
  }

  lemma RightRightRepaired(up: Ctx, t: Tree, p: int, b: Tree, g: int, u: Tree)
    requires Pending(InRight(InRight(up, g, Black, u), p, Red, b), t) && Hue(u) == Black
    ensures var t' := Branch(Branch(u, g, Red, b), p, Black, t);
      && RedBlack(Plug(up, t'))
      && SameOrder(InRight(InRight(up, g, Black, u), p, Red, b), t, up, t')
  {
    var v := Branch(u, g, Red, b);
    var t' := Branch(v, p, Black, t);
    var h := BlackHeight(t);
    assert BalancedC(InRight(up, g, Black, u), h) && NoRedRedC(InRight(up, g, Black, u), Red);
    assert RootHue(InRight(up, g, Black, u), Red) == Black;
    assert Balanced(v) && NoRedRed(v) && BlackHeight(v) == h;
    PlugRedBlack(up, t');
    SingleOrder(u, g, Black, b, p, Red, t, Red, Black);
    SubtreeOrder(InRight(InRight(up, g, Black, u), p, Red, b), t, t');
  }

  lemma RightLeftRepaired(up: Ctx, t: Tree, p: int, b: Tree, g: int, u: Tree)
    requires Pending(InLeft(InRight(up, g, Black, u), p, Red, b), t) && Hue(u) == Black
    ensures var t' := Branch(Branch(u, g, Red, t.left), t.slot, Black, Branch(t.right, p, Red, b));
      && RedBlack(Plug(up, t'))
      && SameOrder(InLeft(InRight(up, g, Black, u), p, Red, b), t, up, t')
  {
    var v, w := Branch(u, g, Red, t.left), Branch(t.right, p, Red, b);
    var t' := Branch(v, t.slot, Black, w);
    var h := BlackHeight(t);
    assert BalancedC(InRight(up, g, Black, u), h) && NoRedRedC(InRight(up, g, Black, u), Red);
    assert RootHue(InRight(up, g, Black, u), Red) == Black;
    assert Balanced(v) && NoRedRed(v) && BlackHeight(v) == h;
    assert Balanced(w) && NoRedRed(w) && BlackHeight(w) == h;
    PlugRedBlack(up, t');
    SingleOrder(t.left, t.slot, Red, t.right, p, Red, b, Red, Red);
    SingleOrder(u, g, Red, t.left, t.slot, Black, w, Red, Black);
    SubtreeOrder(InLeft(InRight(up, g, Black, u), p, Red, b), t, t');
  }

  /** What the four rotation cases start from: red focus, red parent, black
      grandparent, black uncle. */
  ghost predicate RotationSetting(m: seq<Node>, root: int, ctx: Ctx, t: Tree) {
    && |m| <= NIL && Whole(m, root, ctx, t)
    && Pending(ctx, t) && !ctx.Top? && !ctx.up.Top? && Hue(ctx.up.sib) == Black
    && ctx.color == Red && ctx.up.color == Black
  }

  /** What they end with. */
  ghost predicate Repaired(m: seq<Node>, m': seq<Node>, root: int, ctx: Ctx, t: Tree, t': Tree)
    requires !ctx.Top? && !ctx.up.Top?
  {
    && Whole(m', root, ctx.up.up, t') && SameOrder(ctx, t, ctx.up.up, t')
    && Confined(m, m', AllSlots(ctx, t))
    && RedBlack(Plug(ctx.up.up, t'))
  }

  ghost function LeftLeftTree(ctx: Ctx, t: Tree): Tree
    requires ctx.InLeft? && ctx.up.InLeft? && t.Branch?
  {
    Branch(t, ctx.slot, Black, Branch(ctx.sib, ctx.up.slot, Red, ctx.up.sib))
  }

  lemma RepairLeftLeftStep(m: seq<Node>, root: int, ctx: Ctx, t: Tree)
    requires RotationSetting(m, root, ctx, t) && ctx.InLeft? && ctx.up.InLeft?
    ensures Link(m, t.slot) && Link(m, ctx.slot) && Link(m, ctx.up.slot)
    ensures CanRotateRight(m, ctx.up.slot) && m[ctx.up.slot].left == ctx.slot
    ensures Repaired(m,
      SetColor(SetColor(RotatedRight(m, ctx.up.slot), ctx.up.slot, Red), ctx.slot, Black),
      if root == ctx.up.slot then ctx.slot else root, ctx, t, LeftLeftTree(ctx, t))
  {
    var p, g, b, u, up := ctx.slot, ctx.up.slot, ctx.sib, ctx.up.sib, ctx.up.up;
    UnderWhole(m, root, ctx, t);
    UnderWhole(m, root, ctx.up, Under(ctx, t));
    WholeSlots(m, root, ctx, t);
    assert t.slot in Slots(t) && p in SlotsC(ctx) && g in SlotsC(ctx);
    RotateRightPaint(m, root, up, t, p, Red, b, g, Black, u, Red, Black);
    LeftLeftRepaired(up, t, p, b, g, u);
  }

  ghost function LeftRightTree(ctx: Ctx, t: Tree): Tree
    requires ctx.InRight? && ctx.up.InLeft? && t.Branch?
  {
    Branch(Branch(ctx.sib, ctx.slot, Red, t.left), t.slot, Black, Branch(t.right, ctx.up.slot, Red, ctx.up.sib))
  }

  lemma RepairLeftRightStep(m: seq<Node>, root: int, ctx: Ctx, t: Tree)
    requires RotationSetting(m, root, ctx, t) && ctx.InRight? && ctx.up.InLeft?
    ensures Link(m, t.slot) && Link(m, ctx.slot) && Link(m, ctx.up.slot)
    ensures CanRotateLeft(m, ctx.slot) && CanRotateRight(RotatedLeft(m, ctx.slot), ctx.up.slot)
    ensures root != ctx.slot && RotatedLeft(m, ctx.slot)[ctx.up.slot].left == t.slot
    ensures Repaired(m,
      SetColor(SetColor(RotatedRight(RotatedLeft(m, ctx.slot), ctx.up.slot), t.slot, Black), ctx.up.slot, Red),
      if root == ctx.up.slot then t.slot else root, ctx, t, LeftRightTree(ctx, t))
  {
    var p, g, b, u, up := ctx.slot, ctx.up.slot, ctx.sib, ctx.up.sib, ctx.up.up;
    UnderWhole(m, root, ctx, t);
    UnderWhole(m, root, ctx.up, Under(ctx, t));
    WholeSlots(m, root, ctx, t);
    assert t.slot in Slots(t) && p in SlotsC(ctx) && g in SlotsC(ctx);
    DoubleRotateLeftRight(m, root, up, b, p, Red, t.left, t.slot, Red, t.right, g, Black, u, Black, Red);
    LeftRightRepaired(up, t, p, b, g, u);
  }

  ghost function RightRightTree(ctx: Ctx, t: Tree): Tree
    requires ctx.InRight? && ctx.up.InRight? && t.Branch?
  {
    Branch(Branch(ctx.up.sib, ctx.up.slot, Red, ctx.sib), ctx.slot, Black, t)
  }

  lemma RepairRightRightStep(m: seq<Node>, root: int, ctx: Ctx, t: Tree)
    requires RotationSetting(m, root, ctx, t) && ctx.InRight? && ctx.up.InRight?
    ensures Link(m, t.slot) && Link(m, ctx.slot) && Link(m, ctx.up.slot)
    ensures CanRotateLeft(m, ctx.up.slot) && m[ctx.up.slot].right == ctx.slot
    ensures Repaired(m,
      SetColor(SetColor(RotatedLeft(m, ctx.up.slot), ctx.up.slot, Red), ctx.slot, Black),
      if root == ctx.up.slot then ctx.slot else root, ctx, t, RightRightTree(ctx, t))
  {
    var p, g, b, u, up := ctx.slot, ctx.up.slot, ctx.sib, ctx.up.sib, ctx.up.up;
    UnderWhole(m, root, ctx, t);
    UnderWhole(m, root, ctx.up, Under(ctx, t));
    WholeSlots(m, root, ctx, t);
    assert t.slot in Slots(t) && p in SlotsC(ctx) && g in SlotsC(ctx);
    RotateLeftPaint(m, root, up, u, g, Black, b, p, Red, t, Red, Black);
    RightRightRepaired(up, t, p, b, g, u);
  }

  ghost function RightLeftTree(ctx: Ctx, t: Tree): Tree
    requires ctx.InLeft? && ctx.up.InRight? && t.Branch?
  {
    Branch(Branch(ctx.up.sib, ctx.up.slot, Red, t.left), t.slot, Black, Branch(t.right, ctx.slot, Red, ctx.sib))
  }

  lemma RepairRightLeftStep(m: seq<Node>, root: int, ctx: Ctx, t: Tree)
    requires RotationSetting(m, root, ctx, t) && ctx.InLeft? && ctx.up.InRight?
    ensures Link(m, t.slot) && Link(m, ctx.slot) && Link(m, ctx.up.slot)
    ensures CanRotateRight(m, ctx.slot) && CanRotateLeft(RotatedRight(m, ctx.slot), ctx.up.slot)
    ensures root != ctx.slot && RotatedRight(m, ctx.slot)[ctx.up.slot].right == t.slot
    ensures Repaired(m,
      SetColor(SetColor(RotatedLeft(RotatedRight(m, ctx.slot), ctx.up.slot), t.slot, Black), ctx.up.slot, Red),
      if root == ctx.up.slot then t.slot else root, ctx, t, RightLeftTree(ctx, t))
  {
    var p, g, b, u, up := ctx.slot, ctx.up.slot, ctx.sib, ctx.up.sib, ctx.up.up;
    UnderWhole(m, root, ctx, t);
    UnderWhole(m, root, ctx.up, Under(ctx, t));
    WholeSlots(m, root, ctx, t);
    assert t.slot in Slots(t) && p in SlotsC(ctx) && g in SlotsC(ctx);
    DoubleRotateRightLeft(m, root, up, u, g, Black, t.left, t.slot, Red, t.right, p, Red, b, Black, Red);
    RightLeftRepaired(up, t, p, b, g, u);
  }

  // ----- the two cases that stop at once -----

  lemma RootRepaired(t: Tree)
    requires Pending(Top, t)
    ensures RedBlack(t.(color := Black))
    ensures SameOrder(Top, t, Top, t.(color := Black))
  {
  }

  lemma BlackParentIsFine(ctx: Ctx, t: Tree)
    requires Pending(ctx, t) && !ctx.Top? && ctx.color == Black
    ensures RedBlack(Plug(ctx, t))
  {
    PlugRedBlack(ctx, t);
  }
}
