/** What the links around a focus read on a slab that holds the tree. */
module TreeReads {
  import opened Nodes
  import opened Trees
  import opened TreeRep
  import opened InsertRepair

  lemma EmptyTree(m: seq<Node>, root: int, t: Tree)
    requires Whole(m, root, Top, t) && root == NIL
    ensures t == Leaf
  {
  }

  /** What the links of a focus under a parent read. */
  lemma ParentReads(m: seq<Node>, root: int, ctx: Ctx, t: Tree)
    requires Whole(m, root, ctx, t) && t.Branch? && !ctx.Top?
    ensures 0 <= t.slot < |m| && m[t.slot].parent == ctx.slot && m[t.slot].color == t.color
    ensures 0 <= ctx.slot < |m| && m[ctx.slot].color == ctx.color && m[ctx.slot].parent == Par(ctx.up)
    ensures Link(m, Par(ctx.up)) && ctx.slot != NIL && t.slot != NIL
  {
    WholeSlots(m, root, ctx, t);
    assert ctx.slot in SlotsC(ctx);
    assert !ctx.up.Top? ==> ctx.up.slot in SlotsC(ctx);
  }

  /** What the links of the grandparent and the uncle read. */
  lemma GrandparentReads(m: seq<Node>, root: int, ctx: Ctx, t: Tree)
    requires Whole(m, root, ctx, t) && t.Branch? && !ctx.Top? && !ctx.up.Top?
    ensures Link(m, ctx.slot) && Link(m, ctx.up.slot) && ctx.slot != NIL && ctx.up.slot != NIL
    ensures m[ctx.slot].parent == ctx.up.slot && m[ctx.up.slot].color == ctx.up.color
    ensures Link(m, m[ctx.up.slot].left) && Link(m, m[ctx.up.slot].right) && Link(m, m[ctx.up.slot].parent)
    ensures (if GetLeft(m, ctx.up.slot) == ctx.slot then GetRight(m, ctx.up.slot) else GetLeft(m, ctx.up.slot))
         == Idx(ctx.up.sib)
    ensures Link(m, Idx(ctx.up.sib)) && GetColor(m, Idx(ctx.up.sib)) == Hue(ctx.up.sib)
    ensures IsLeftChild(m, root, ctx.slot) <==> ctx.up.InLeft?
  {
    UnderWhole(m, root, ctx, t);
    ParentReads(m, root, ctx, t);
    ParentReads(m, root, ctx.up, Under(ctx, t));
    ChildSide(m, root, ctx.up, Under(ctx, t));
    SiblingReads(m, root, ctx.up, Under(ctx, t));
  }

  /** The sibling read through the parent's links. */
  lemma SiblingReads(m: seq<Node>, root: int, ctx: Ctx, t: Tree)
    requires Whole(m, root, ctx, t) && t.Branch? && !ctx.Top?
    ensures 0 <= ctx.slot < |m|
    ensures (if GetLeft(m, ctx.slot) == t.slot then GetRight(m, ctx.slot) else GetLeft(m, ctx.slot)) == Idx(ctx.sib)
    ensures Link(m, Idx(ctx.sib)) && GetColor(m, Idx(ctx.sib)) == Hue(ctx.sib)
    ensures Link(m, m[ctx.slot].left) && Link(m, m[ctx.slot].right)
  {
    WholeSlots(m, root, ctx, t);
    assert ctx.sib.Branch? ==> ctx.sib.slot in SlotsC(ctx);
    assert Idx(ctx.sib) != t.slot;
    assert t.slot in Slots(t);
  }

  /** What the links of the focus read. */
  lemma FocusReads(m: seq<Node>, root: int, ctx: Ctx, t: Tree)
    requires Whole(m, root, ctx, t) && t.Branch?
    ensures 0 <= t.slot < |m| && t.slot != NIL
    ensures m[t.slot].left == Idx(t.left) && m[t.slot].right == Idx(t.right)
    ensures m[t.slot].parent == Par(ctx) && m[t.slot].color == t.color
    ensures Link(m, Idx(t.left)) && Link(m, Idx(t.right)) && Link(m, Par(ctx))
    ensures Idx(t.left) == NIL <==> t.left.Leaf?
    ensures Idx(t.right) == NIL <==> t.right.Leaf?
    ensures GetColor(m, Idx(t.left)) == Hue(t.left) && GetColor(m, Idx(t.right)) == Hue(t.right)
  {
    WholeSlots(m, root, ctx, t);
    assert t.slot in Slots(t);
    assert Rep(m, t.slot, t.left) && Rep(m, t.slot, t.right);
    assert t.left.Branch? ==> t.left.slot in Slots(t);
    assert t.right.Branch? ==> t.right.slot in Slots(t);
    assert !ctx.Top? ==> ctx.slot in SlotsC(ctx);
  }

  /** What the removal repair reads around a short focus, which may be NIL. */
  lemma FixReads(m: seq<Node>, root: int, ctx: Ctx, t: Tree)
    requires Whole(m, root, ctx, t) && !ctx.Top? && ctx.sib.Branch?
    ensures root != Idx(t)
    ensures 0 <= ctx.slot < |m| && ctx.slot != NIL && m[ctx.slot].color == ctx.color
    ensures m[ctx.slot].parent == Par(ctx.up) && Link(m, Par(ctx.up))
    ensures Link(m, m[ctx.slot].left) && Link(m, m[ctx.slot].right)
    ensures (if m[ctx.slot].left == Idx(t) then m[ctx.slot].right else m[ctx.slot].left) == ctx.sib.slot
    ensures 0 <= ctx.sib.slot < |m| && m[ctx.sib.slot].color == ctx.sib.color
    ensures m[ctx.sib.slot].left == Idx(ctx.sib.left) && m[ctx.sib.slot].right == Idx(ctx.sib.right)
    ensures Link(m, Idx(ctx.sib.left)) && GetColor(m, Idx(ctx.sib.left)) == Hue(ctx.sib.left)
    ensures Link(m, Idx(ctx.sib.right)) && GetColor(m, Idx(ctx.sib.right)) == Hue(ctx.sib.right)
    ensures m[ctx.sib.slot].parent == ctx.slot
    ensures IsLeftChild(m, root, ctx.sib.slot) <==> ctx.InRight?
    ensures IsRightChild(m, root, ctx.sib.slot) <==> ctx.InLeft?
  {
    WholeSlots(m, root, ctx, t);
    RootInContext(m, root, ctx, Idx(t));
    assert ctx.slot in SlotsC(ctx) && ctx.sib.slot in SlotsC(ctx);
    assert t.Branch? ==> t.slot in Slots(t);
    assert root != Idx(t);
    var u := Under(ctx, t);
    UnderWhole(m, root, ctx, t);
    if ctx.InRight? {
      ZoomLeft(m, root, ctx.up, u);
      FocusReads(m, root, InLeft(ctx.up, ctx.slot, ctx.color, t), ctx.sib);
      ChildSide(m, root, InLeft(ctx.up, ctx.slot, ctx.color, t), ctx.sib);
    } else {
      ZoomRight(m, root, ctx.up, u);
      FocusReads(m, root, InRight(ctx.up, ctx.slot, ctx.color, t), ctx.sib);
      ChildSide(m, root, InRight(ctx.up, ctx.slot, ctx.color, t), ctx.sib);
    }
    FocusReads(m, root, ctx.up, u);
  }

  lemma RootMeansTop(m: seq<Node>, root: int, ctx: Ctx, t: Tree)
    requires Whole(m, root, ctx, t) && root == Idx(t)
    ensures ctx.Top?
  {
    WholeSlots(m, root, ctx, t);
    RootInContext(m, root, ctx, Idx(t));
    assert t.Branch? ==> t.slot in Slots(t);
  }

  /** A focus without a parent link is the root. */
  lemma ParNilTop(m: seq<Node>, root: int, ctx: Ctx, t: Tree)
    requires Whole(m, root, ctx, t)
    ensures Par(ctx) == NIL <==> ctx.Top?
  {
    WholeSlots(m, root, ctx, t);
    assert !ctx.Top? ==> ctx.slot in SlotsC(ctx);
  }
}
