/** The red-black tree over a shared slab: a view made of the slab and a root
    index, whose operations overwrite links and colours in place. Other trees and
    the free list live in the same slab, so every operation says which slots it
    leaves alone. */
module RedBlackTrees {
  import opened Nodes
  import opened Trees
  import opened TreeRep
  import opened TreeReads
  import opened TreeKeys
  import opened NodeSwap
  import opened InsertRepair
  import opened RemoveRepair

  class RedBlackTree {
    const data: array<Node>
    var root: int
    var maxIndex: int
    ghost var tree: Tree

    /** The links from the root spell out the tree, whatever its balance and order. */
    ghost predicate Linked()
      reads this, data
    {
      data.Length <= NIL && Whole(data[..], root, Top, tree)
    }

    ghost predicate Shaped()
      reads this, data
    {
      data.Length <= MAX_NODES_EXPANDED && WellFormed(data[..], root, tree)
    }

    ghost predicate Valid()
      reads this, data
    {
      Shaped() && MaxCached(maxIndex, Inorder(tree))
    }

    constructor (data: array<Node>, root: int, maxIndex: int, ghost tree: Tree)
      ensures this.data == data && this.root == root && this.maxIndex == maxIndex && this.tree == tree
    {
      this.data := data;
      this.root := root;
      this.maxIndex := maxIndex;
      this.tree := tree;
    }

    // ----- link writers -----

    method SetColorAt(i: int, c: Color)
      requires Link(data[..], i) && data.Length <= NIL
      modifies data
      ensures data[..] == SetColor(old(data[..]), i, c)
    {
      if i != NIL {
        data[i] := data[i].(color := c);
      }
    }

    method SetParentAt(i: int, x: int)
      requires Link(data[..], i) && data.Length <= NIL
      modifies data
      ensures data[..] == SetParent(old(data[..]), i, x)
    {
      if i != NIL {
        data[i] := data[i].(parent := x);
      }
    }

    method SetLeftAt(i: int, x: int)
      requires Link(data[..], i) && data.Length <= NIL
      modifies data
      ensures data[..] == SetLeft(old(data[..]), i, x)
    {
      if i != NIL {
        data[i] := data[i].(left := x);
      }
    }

    method SetRightAt(i: int, x: int)
      requires Link(data[..], i) && data.Length <= NIL
      modifies data
      ensures data[..] == SetRight(old(data[..]), i, x)
    {
      if i != NIL {
        data[i] := data[i].(right := x);
      }
    }

    // ----- rotations -----

    /** Point the child link of gg that held g at p. */
    method RehangAt(gg: int, g: int, p: int)
      requires Link(data[..], gg) && data.Length <= NIL
      modifies data
      ensures data[..] == Rehang(old(data[..]), gg, g, p)
    {
      if gg != NIL {
        if data[gg].left == g {
          SetLeftAt(gg, p);
        }
        if data[gg].right == g {
          SetRightAt(gg, p);
        }
      }
    }

    method RotateLeft(g: int)
      requires CanRotateLeft(data[..], g) && data.Length <= NIL
      modifies data, this`root
      ensures data[..] == RotatedLeft(old(data[..]), g)
      ensures root == if old(root) == g then old(data[g].right) else old(root)
    {
      assert data[..][g] == data[g];
      var p := data[g].right;
      assert data[..][p] == data[p];
      var y := data[p].left;
      var gg := data[g].parent;
      data[p] := data[p].(parent := gg, left := g);
      SetParentAt(y, g);
      data[g] := data[g].(parent := p, right := y);
      RehangAt(gg, g, p);
      if root == g {
        root := p;
      }
    }

    method RotateRight(g: int)
      requires CanRotateRight(data[..], g) && data.Length <= NIL
      modifies data, this`root
      ensures data[..] == RotatedRight(old(data[..]), g)
      ensures root == if old(root) == g then old(data[g].left) else old(root)
    {
      assert data[..][g] == data[g];
      var p := data[g].left;
      assert data[..][p] == data[p];
      var y := data[p].right;
      var gg := data[g].parent;
      data[p] := data[p].(parent := gg, right := g);
      SetParentAt(y, g);
      data[g] := data[g].(parent := p, left := y);
      RehangAt(gg, g, p);
      if root == g {
        root := p;
      }
    }

    // ----- insertion -----

    /** One repair step after an insertion: returns the node to repair next, or
        NIL when the tree is red-black again. */
    method InsertFix(index: int, ghost ctx: Ctx, ghost t: Tree)
      returns (next: int, ghost ctx': Ctx, ghost t': Tree)
      requires data.Length <= NIL && Whole(data[..], root, ctx, t)
      requires Pending(ctx, t) && t.slot == index
      modifies data, this`root
      ensures Whole(data[..], root, ctx', t') && SameOrder(ctx, t, ctx', t')
      ensures Confined(old(data[..]), data[..], AllSlots(ctx, t))
      ensures next == NIL ==> RedBlack(Plug(ctx', t'))
      ensures next != NIL ==> Pending(ctx', t') && t'.slot == next && Depth(ctx') < Depth(ctx)
    {
      hide RedBlack;
      ghost var m := data[..];
      ctx', t' := ctx, t;
      ChildSide(m, root, ctx, t);
      if root == index {
        PaintWhole(m, root, ctx, t, Black);
        RootRepaired(t);
        SetColorAt(index, Black);
        t' := t.(color := Black);
        return NIL, ctx', t';
      }
      ParentReads(m, root, ctx, t);
      var parent := GetParent(data[..], index);
      var parentColor := GetColor(data[..], parent);
      if parentColor == Black {
        BlackParentIsFine(ctx, t);
        return NIL, ctx', t';
      }
      RedParentHasParent(ctx, t);
      GrandparentReads(m, root, ctx, t);
      var grandparent := GetParent(data[..], parent);
      var uncle := if GetLeft(data[..], grandparent) == parent
                   then GetRight(data[..], grandparent)
                   else GetLeft(data[..], grandparent);
      var uncleColor := GetColor(data[..], uncle);
      if uncleColor == Red {
        RecolorWhole(m, root, ctx, t);
        RecolorPending(ctx, t);
        SetColorAt(parent, Black);
        SetColorAt(uncle, Black);
        SetColorAt(grandparent, Red);
        ctx', t' := ctx.up.up, Recolored(ctx, t);
        return grandparent, ctx', t';
      }
      var grandparentColor := GetColor(data[..], grandparent);
      var parentIsLeft := IsLeftChild(data[..], root, parent);
      var currentIsLeft := IsLeftChild(data[..], root, index);
      var currentColor := GetColor(data[..], index);
      ctx' := ctx.up.up;
      if parentIsLeft && currentIsLeft {
        t' := LeftLeftTree(ctx, t);
        RepairLeftLeft(index, parent, grandparent, grandparentColor, parentColor, ctx, t);
      } else if parentIsLeft && !currentIsLeft {
        t' := LeftRightTree(ctx, t);
        RepairLeftRight(index, parent, grandparent, grandparentColor, currentColor, ctx, t);
      } else if !parentIsLeft && !currentIsLeft {
        t' := RightRightTree(ctx, t);
        RepairRightRight(index, parent, grandparent, grandparentColor, parentColor, ctx, t);
      } else {
        t' := RightLeftTree(ctx, t);
        RepairRightLeft(index, parent, grandparent, grandparentColor, currentColor, ctx, t);
      }
      return NIL, ctx', t';
    }

    /** Case II: parent and focus are left children. */
    method RepairLeftLeft(index: int, parent: int, grandparent: int, grandparentColor: Color, lowColor: Color,
        ghost ctx: Ctx, ghost t: Tree)
      requires RotationSetting(data[..], root, ctx, t) && ctx.InLeft? && ctx.up.InLeft?
      requires index == t.slot && parent == ctx.slot && grandparent == ctx.up.slot
      requires grandparentColor == ctx.up.color && lowColor == Red
      modifies data, this`root
      ensures Repaired(old(data[..]), data[..], root, ctx, t, LeftLeftTree(ctx, t))
    {
      RepairLeftLeftStep(data[..], root, ctx, t);
      RotateRight(grandparent);
      SetColorAt(grandparent, lowColor);
      SetColorAt(parent, grandparentColor);
    }

    /** Case III: the parent is a left child, the focus a right child. */
    method RepairLeftRight(index: int, parent: int, grandparent: int, grandparentColor: Color, lowColor: Color,
        ghost ctx: Ctx, ghost t: Tree)
      requires RotationSetting(data[..], root, ctx, t) && ctx.InRight? && ctx.up.InLeft?
      requires index == t.slot && parent == ctx.slot && grandparent == ctx.up.slot
      requires grandparentColor == ctx.up.color && lowColor == Red
      modifies data, this`root
      ensures Repaired(old(data[..]), data[..], root, ctx, t, LeftRightTree(ctx, t))
    {
      RepairLeftRightStep(data[..], root, ctx, t);
      RotateLeft(parent);
      RotateRight(grandparent);
      SetColorAt(index, grandparentColor);
      SetColorAt(grandparent, lowColor);
    }

    /** Case IV: parent and focus are right children. */
    method RepairRightRight(index: int, parent: int, grandparent: int, grandparentColor: Color, lowColor: Color,
        ghost ctx: Ctx, ghost t: Tree)
      requires RotationSetting(data[..], root, ctx, t) && ctx.InRight? && ctx.up.InRight?
      requires index == t.slot && parent == ctx.slot && grandparent == ctx.up.slot
      requires grandparentColor == ctx.up.color && lowColor == Red
      modifies data, this`root
      ensures Repaired(old(data[..]), data[..], root, ctx, t, RightRightTree(ctx, t))
    {
      RepairRightRightStep(data[..], root, ctx, t);
      RotateLeft(grandparent);
      SetColorAt(grandparent, lowColor);
      SetColorAt(parent, grandparentColor);
    }

    /** Case V: the parent is a right child, the focus a left child. */
    method RepairRightLeft(index: int, parent: int, grandparent: int, grandparentColor: Color, lowColor: Color,
        ghost ctx: Ctx, ghost t: Tree)
      requires RotationSetting(data[..], root, ctx, t) && ctx.InLeft? && ctx.up.InRight?
      requires index == t.slot && parent == ctx.slot && grandparent == ctx.up.slot
      requires grandparentColor == ctx.up.color && lowColor == Red
      modifies data, this`root
      ensures Repaired(old(data[..]), data[..], root, ctx, t, RightLeftTree(ctx, t))
    {
      RepairRightLeftStep(data[..], root, ctx, t);
      RotateRight(parent);
      RotateLeft(grandparent);
      SetColorAt(index, grandparentColor);
      SetColorAt(grandparent, lowColor);
    }

    /** Walk down from the root to the place of the new key and hang the new node
        there, equal keys to the left. */
    method InsertNodeNoFix(value: Order, index: int)
      returns (ghost ctx: Ctx, ghost t: Tree)
      requires Shaped() && tree.Branch?
      requires 0 <= index < data.Length && index !in Slots(tree)
      modifies data
      ensures t == Branch(Leaf, index, Red, Leaf)
      ensures Whole(data[..], root, ctx, t) && Pending(ctx, t)
      ensures AllSlots(ctx, t) == Slots(tree) + {index}
      ensures InorderAll(ctx, t) == InsertSorted(old(data[..]), Inorder(tree), index, value.orderId)
      ensures Grown(old(data[..]), data[..], Slots(tree), index, value)
    {
      ghost var m := data[..];
      var k := value.orderId;
      var current := root;
      ctx, t := Top, tree;
      RootAtTop(m, root, Top, Idx(tree));
      PlugWhole(m, root, ctx, t);
      FocusReads(m, root, ctx, t);
      while data[current].left != NIL || data[current].right != NIL
        invariant Whole(m, root, ctx, t) && t.Branch? && t.slot == current && 0 <= current < data.Length
        invariant Plug(ctx, t) == tree
        invariant Brackets(m, ctx, k)
        invariant data[..] == m
        decreases t
      {
        FocusReads(m, root, ctx, t);
        WalkBrackets(m, root, ctx, t, tree, k);
        if k > data[current].value.orderId {
          var right := data[current].right;
          if right != NIL {
            ZoomRight(m, root, ctx, t);
            current := right;
            ctx, t := InRight(ctx, t.slot, t.color, t.left), t.right;
          } else {
            break;
          }
        } else {
          // Less and Equal both go left
          var left := data[current].left;
          if left != NIL {
            ZoomLeft(m, root, ctx, t);
            current := left;
            ctx, t := InLeft(ctx, t.slot, t.color, t.right), t.left;
          } else {
            break;
          }
        }
        FocusReads(m, root, ctx, t);
      }
      FocusReads(m, root, ctx, t);
      WalkBrackets(m, root, ctx, t, tree, k);
      PlugWhole(m, root, ctx, t);
      if data[current].value.orderId < k {
        AttachRight(m, root, ctx, t, tree, index, value);
        SetRightAt(current, index);
        ctx := InRight(ctx, t.slot, t.color, t.left);
      } else {
        AttachLeft(m, root, ctx, t, tree, index, value);
        SetLeftAt(current, index);
        ctx := InLeft(ctx, t.slot, t.color, t.right);
      }
      data[index] := Node(NIL, NIL, current, Red, value);
      t := Branch(Leaf, index, Red, Leaf);
    }

    /** Insert the order at a slot that is not in the tree, and rebalance. */
    method Insert(index: int, value: Order)
      requires Valid() && 0 <= index < data.Length && index !in Slots(tree)
      modifies this, data
      ensures Valid() && Slots(tree) == old(Slots(tree)) + {index}
      ensures Inorder(tree) == InsertSorted(old(data[..]), old(Inorder(tree)), index, value.orderId)
      ensures Grown(old(data[..]), data[..], old(Slots(tree)), index, value)
      ensures old(root) == NIL ==> maxIndex == index
      ensures old(root) != NIL ==> (maxIndex == NIL <==> old(maxIndex) == NIL)
    {
      ghost var m := data[..];
      if root == NIL {
        EmptyTree(m, root, tree);
        root := index;
        maxIndex := index;
        data[index] := Node(NIL, NIL, NIL, Black, value);
        SingleNode(data[..], index, value);
        tree := Branch(Leaf, index, Black, Leaf);
        return;
      }
      InsertMax(m, root, tree, maxIndex, index, value.orderId);
      if maxIndex != NIL && data[maxIndex].value.orderId < value.orderId {
        maxIndex := index;
      }
      InsertBelowRoot(index, value);
    }

    /** Insertion into a non-empty tree. */
    method InsertBelowRoot(index: int, value: Order)
      requires Shaped() && root != NIL && 0 <= index < data.Length && index !in Slots(tree)
      modifies data, this`root, this`tree
      ensures Shaped() && Slots(tree) == old(Slots(tree)) + {index}
      ensures Inorder(tree) == InsertSorted(old(data[..]), old(Inorder(tree)), index, value.orderId)
      ensures Grown(old(data[..]), data[..], old(Slots(tree)), index, value)
    {
      ghost var m, tree0 := data[..], tree;
      NonEmptyTree(m, root, tree);
      ghost var ctx, t := InsertNodeNoFix(value, index);
      ghost var S, order, m1 := AllSlots(ctx, t), InorderAll(ctx, t), data[..];
      var nodeToFix := index;
      while nodeToFix != NIL
        invariant Whole(data[..], root, ctx, t) && AllSlots(ctx, t) == S && InorderAll(ctx, t) == order
        invariant Confined(m1, data[..], S)
        invariant nodeToFix != NIL ==> Pending(ctx, t) && t.slot == nodeToFix
        invariant nodeToFix == NIL ==> RedBlack(Plug(ctx, t))
        decreases if nodeToFix != NIL then 1 + Depth(ctx) else 0
      {
        ghost var m2 := data[..];
        nodeToFix, ctx, t := InsertFix(nodeToFix, ctx, t);
        ConfinedTrans(m1, m2, data[..], S);
      }
      InsertDone(m, m1, data[..], root, ctx, t, tree0, index, value);
      tree := Plug(ctx, t);
    }

    // ----- removal -----

    /** The leftmost node of the right subtree of index. */
    method GetNextHigherIndex(index: int, ghost ctx: Ctx, ghost t: Tree)
      returns (current: int, ghost c: Ctx, ghost u: Tree)
      requires data.Length <= NIL && Whole(data[..], root, ctx, t)
      requires t.Branch? && t.slot == index && t.right.Branch?
      ensures SuccessorOf(ctx, t, c, u) && u.slot == current
      ensures Inorder(t.right) != [] && current == Inorder(t.right)[0]
      ensures Whole(data[..], root, c, u)
    {
      ghost var m := data[..];
      FocusReads(m, root, ctx, t);
      ZoomRight(m, root, ctx, t);
      current := GetRight(data[..], index);
      c, u := InRight(ctx, t.slot, t.color, t.left), t.right;
      FocusReads(m, root, c, u);
      while GetLeft(data[..], current) != NIL
        invariant Whole(m, root, c, u) && u.Branch? && u.slot == current && Link(m, current)
        invariant Plug(c, u) == Plug(ctx, t)
        invariant Pre(c) == Pre(ctx) + (Inorder(t.left) + [t.slot])
        invariant Slots(u) <= Slots(t.right)
        invariant Inorder(t.right) != [] && Inorder(u)[0] == Inorder(t.right)[0]
        decreases u
      {
        FocusReads(m, root, c, u);
        ZoomLeft(m, root, c, u);
        current := GetLeft(data[..], current);
        c, u := InLeft(c, u.slot, u.color, u.right), u.left;
        FocusReads(m, root, c, u);
      }
      FocusReads(m, root, c, u);
    }

    /** Exchange the positions and colours of a node and its successor. */
    method SwapNodeWithSuccessor(i0: int, i1: int)
      requires CanSwap(data[..], i0, i1)
      modifies data, this`root
      ensures data[..] == Swapped(old(data[..]), old(root), i0, i1)
      ensures root == if old(root) == i0 then i1 else old(root)
    {
      ghost var m := data[..];
      assert m[i0] == data[i0] && m[i1] == data[i1];
      var parent0, parent1 := data[i0].parent, data[i1].parent;
      var left0, left1 := data[i0].left, data[i1].left;
      var right0, right1 := data[i0].right, data[i1].right;
      var isLeft0 := IsLeftChild(data[..], root, i0);
      var isLeft1 := IsLeftChild(data[..], root, i1);
      SetChildAt(parent0, isLeft0, i1);
      SetChildAt(parent1, isLeft1, i0);
      assert data[..] == SwapTops(m, root, i0, i1);
      SetLinksAt(i0, left1, right1, parent1);
      SetLinksAt(i1, left0, right0, parent0);
      assert data[..] == SwapLinks(m, root, i0, i1);
      SetParentAt(left0, i1);
      SetParentAt(left1, i0);
      SetParentAt(right0, i1);
      SetParentAt(right1, i0);
      assert data[..] == SwapChildren(m, root, i0, i1);
      if parent1 == i0 {
        SetParentAt(i0, i1);
        SetParentAt(i1, parent0);
        SetRightAt(i1, i0);
      }
      assert data[..] == SwapAdjacent(m, root, i0, i1);
      if root == i0 {
        root := i1;
      }
      var color0, color1 := data[i0].color, data[i1].color;
      SetColorAt(i0, color1);
      SetColorAt(i1, color0);
    }

    method SetChildAt(p: int, isLeft: bool, x: int)
      requires Link(data[..], p) && data.Length <= NIL
      modifies data
      ensures data[..] == SetChild(old(data[..]), p, isLeft, x)
    {
      if isLeft {
        SetLeftAt(p, x);
      } else {
        SetRightAt(p, x);
      }
    }

    method SetLinksAt(i: int, l: int, r: int, p: int)
      requires Link(data[..], i) && data.Length <= NIL
      modifies data
      ensures data[..] == SetLinks(old(data[..]), i, l, r, p)
    {
      SetLeftAt(i, l);
      SetRightAt(i, r);
      SetParentAt(i, p);
    }

    /** Take the node out in the middle, joining its only child to its parent. */
    method UpdateParentChild(index: int)
      requires CanSplice(data[..], index)
      modifies data, this`root
      ensures data[..] == Spliced(old(data[..]), old(root), index)
      ensures root == if old(root) == index then OnlyChild(old(data[..]), index) else old(root)
    {
      assert data[..][index] == data[index];
      var parent := data[index].parent;
      var child := OnlyChild(data[..], index);
      SetParentAt(child, parent);
      if index != root && GetLeft(data[..], GetParent(data[..], index)) == index {
        SetLeftAt(parent, child);
      } else {
        SetRightAt(parent, child);
      }
      if root == index {
        root := child;
      }
    }

    /** One repair step after a removal: returns the next short focus and its
        parent, or NIL twice when the tree is red-black again. */
    method RemoveFix(current: int, parent: int, ghost ctx: Ctx, ghost t: Tree)
      returns (next: int, nextParent: int, ghost ctx': Ctx, ghost t': Tree)
      requires data.Length <= NIL && Whole(data[..], root, ctx, t) && Deficit(ctx, t)
      requires current == Idx(t) && parent == Par(ctx)
      modifies data, this`root
      ensures Whole(data[..], root, ctx', t') && SameOrder(ctx, t, ctx', t')
      ensures Confined(old(data[..]), data[..], AllSlots(ctx, t))
      ensures next == NIL && nextParent == NIL ==> RedBlack(Plug(ctx', t'))
      ensures !(next == NIL && nextParent == NIL) ==>
        Deficit(ctx', t') && next == Idx(t') && nextParent == Par(ctx') && Climb(ctx') < Climb(ctx)
    {
      ghost var m := data[..];
      ctx', t' := ctx, t;
      if root == current {
        RootMeansTop(m, root, ctx, t);
        DeficitAtRoot(t);
        return NIL, NIL, ctx', t';
      }
      DeficitSibling(ctx, t);
      FixReads(m, root, ctx, t);
      var sibling := if data[parent].left == current then data[parent].right else data[parent].left;
      var siblingColor := GetColor(data[..], sibling);
      var parentColor := GetColor(data[..], parent);
      var siblingHasRedChild :=
        || GetColor(data[..], GetLeft(data[..], sibling)) == Red
        || GetColor(data[..], GetRight(data[..], sibling)) == Red;
      if siblingColor == Black && siblingHasRedChild {
        t' := FixRedNephew(parent, sibling, parentColor, siblingColor, ctx, t);
        return NIL, NIL, ctx.up, t';
      }
      if siblingColor == Black {
        next, nextParent, ctx', t' := PushUp(parent, sibling, parentColor, ctx, t);
        return;
      }
      LowerFocus(parent, sibling, ctx, t);
      return current, parent, Lowered(ctx), t;
    }

    /** Case 3b: the sibling and both nephews are black. */
    method PushUp(parent: int, sibling: int, parentColor: Color, ghost ctx: Ctx, ghost t: Tree)
      returns (next: int, nextParent: int, ghost ctx': Ctx, ghost t': Tree)
      requires FixSetting(data[..], root, ctx, t)
      requires ctx.sib.Branch? && ctx.sib.color == Black
      requires Hue(ctx.sib.left) == Black && Hue(ctx.sib.right) == Black
      requires parent == ctx.slot && sibling == ctx.sib.slot && parentColor == ctx.color
      modifies data
      ensures ctx' == ctx.up && t'.Branch? && t'.slot == parent
      ensures parentColor == Red ==>
        next == NIL && nextParent == NIL && Fixed(old(data[..]), data[..], root, ctx, t, t')
      ensures parentColor == Black ==>
        next == parent && nextParent == Par(ctx.up) && next != NIL
        && Moved(old(data[..]), data[..], root, ctx, t, ctx.up, t')
    {
      ghost var m := data[..];
      FixReads(m, root, ctx, t);
      PushStep(m, root, ctx, t);
      SetColorAt(sibling, Red);
      ctx', t' := ctx.up, Under(ctx.(sib := ctx.sib.(color := Red)), t);
      if parentColor == Black {
        return parent, GetParent(data[..], parent), ctx', t';
      }
      SetColorAt(parent, Black);
      return NIL, NIL, ctx', t'.(color := Black);
    }

    /** Case 3c: the sibling is red. */
    method LowerFocus(parent: int, sibling: int, ghost ctx: Ctx, ghost t: Tree)
      requires FixSetting(data[..], root, ctx, t) && Hue(ctx.sib) == Red
      requires parent == ctx.slot && sibling == ctx.sib.slot
      modifies data, this`root
      ensures Moved(old(data[..]), data[..], root, ctx, t, Lowered(ctx), t)
      ensures ctx.color == Black
    {
      ghost var m := data[..];
      FixReads(m, root, ctx, t);
      if IsLeftChild(data[..], root, sibling) {
        LowerLeftStep(m, root, ctx, t);
        RotateRight(parent);
      } else {
        LowerRightStep(m, root, ctx, t);
        RotateLeft(parent);
      }
      SetColorAt(parent, Red);
      SetColorAt(sibling, Black);
    }

    /** Case 3a of the removal repair: the sibling is black with a red child. */
    method FixRedNephew(parent: int, sibling: int, parentColor: Color, siblingColor: Color,
        ghost ctx: Ctx, ghost t: Tree)
      returns (ghost t': Tree)
      requires FixSetting(data[..], root, ctx, t)
      requires ctx.sib.Branch? && ctx.sib.color == Black
      requires Hue(ctx.sib.left) == Red || Hue(ctx.sib.right) == Red
      requires parent == ctx.slot && sibling == ctx.sib.slot
      requires parentColor == ctx.color && siblingColor == ctx.sib.color
      modifies data, this`root
      ensures Fixed(old(data[..]), data[..], root, ctx, t, t')
    {
      ghost var m := data[..];
      FixReads(m, root, ctx, t);
      hide Fixed, Whole, Hue;
      var siblingLeft := GetLeft(data[..], sibling);
      var siblingRight := GetRight(data[..], sibling);
      if GetColor(data[..], siblingLeft) == Red && IsLeftChild(data[..], root, sibling) {
        FixLeftLeftStep(m, root, ctx, t);
        t' := Branch(ctx.sib.left.(color := Black), ctx.sib.slot, ctx.color, Branch(ctx.sib.right, ctx.slot, Black, t));
        SetColorAt(siblingLeft, Black);
        SetColorAt(parent, siblingColor);
        SetColorAt(sibling, parentColor);
        RotateRight(parent);
      } else if GetColor(data[..], siblingRight) == Red && IsLeftChild(data[..], root, sibling) {
        t' := FixLeftRight(parent, sibling, siblingRight, parentColor, ctx, t);
      } else if GetColor(data[..], siblingRight) == Red && IsRightChild(data[..], root, sibling) {
        FixRightRightStep(m, root, ctx, t);
        t' := Branch(Branch(t, ctx.slot, Black, ctx.sib.left), ctx.sib.slot, ctx.color, ctx.sib.right.(color := Black));
        SetColorAt(siblingRight, Black);
        SetColorAt(parent, siblingColor);
        SetColorAt(sibling, parentColor);
        RotateLeft(parent);
      } else {
        t' := FixRightLeft(parent, sibling, siblingLeft, parentColor, ctx, t);
      }
    }

    /** The double rotation of case 3a, for a left sibling. */
    method FixLeftRight(parent: int, sibling: int, nephew: int, parentColor: Color, ghost ctx: Ctx, ghost t: Tree)
      returns (ghost t': Tree)
      requires FixSetting(data[..], root, ctx, t) && ctx.InRight? && ctx.sib.Branch? && ctx.sib.color == Black
      requires Hue(ctx.sib.right) == Red && Hue(ctx.sib.left) == Black
      requires parent == ctx.slot && sibling == ctx.sib.slot && nephew == ctx.sib.right.slot && parentColor == ctx.color
      modifies data, this`root
      ensures Fixed(old(data[..]), data[..], root, ctx, t, t')
    {
      FixLeftRightStep(data[..], root, ctx, t);
      t' := Branch(Branch(ctx.sib.left, ctx.sib.slot, Black, ctx.sib.right.left), ctx.sib.right.slot, ctx.color,
                   Branch(ctx.sib.right.right, ctx.slot, Black, t));
      SetColorAt(nephew, parentColor);
      SetColorAt(parent, Black);
      SetColorAt(sibling, Black);
      RotateLeft(sibling);
      RotateRight(parent);
    }

    /** The double rotation of case 3a, for a right sibling. */
    method FixRightLeft(parent: int, sibling: int, nephew: int, parentColor: Color, ghost ctx: Ctx, ghost t: Tree)
      returns (ghost t': Tree)
      requires FixSetting(data[..], root, ctx, t) && ctx.InLeft? && ctx.sib.Branch? && ctx.sib.color == Black
      requires Hue(ctx.sib.left) == Red && Hue(ctx.sib.right) == Black
      requires parent == ctx.slot && sibling == ctx.sib.slot && nephew == ctx.sib.left.slot && parentColor == ctx.color
      modifies data, this`root
      ensures Fixed(old(data[..]), data[..], root, ctx, t, t')
    {
      FixRightLeftStep(data[..], root, ctx, t);
      t' := Branch(Branch(t, ctx.slot, Black, ctx.sib.left.left), ctx.sib.left.slot, ctx.color,
                   Branch(ctx.sib.left.right, ctx.sib.slot, Black, ctx.sib.right));
      SetColorAt(nephew, parentColor);
      SetColorAt(parent, Black);
      SetColorAt(sibling, Black);
      RotateRight(sibling);
      RotateLeft(parent);
    }

    /** Bring the node to delete where it has at most one child. */
    method SwapIfInternal(index: int, ghost ctx0: Ctx, ghost t0: Tree)
      returns (ghost ctx: Ctx, ghost t: Tree)
      requires data.Length <= NIL && Whole(data[..], root, ctx0, t0) && RedBlack(Plug(ctx0, t0))
      requires t0.Branch? && t0.slot == index
      modifies data, this`root
      ensures Whole(data[..], root, ctx, t) && RedBlack(Plug(ctx, t))
      ensures t.Branch? && t.slot == index && (t.left.Leaf? || t.right.Leaf?)
      ensures AllSlots(ctx, t) == AllSlots(ctx0, t0)
      ensures Without(Inorder(Plug(ctx, t)), index) == Without(Inorder(Plug(ctx0, t0)), index)
      ensures Confined(old(data[..]), data[..], AllSlots(ctx0, t0))
    {
      ghost var m := data[..];
      ctx, t := ctx0, t0;
      FocusReads(m, root, ctx, t);
      if GetRight(data[..], index) != NIL && GetLeft(data[..], index) != NIL {
        var successor;
        ghost var c, u;
        successor, c, u := GetNextHigherIndex(index, ctx, t);
        SwapWhole(m, root, ctx, t, c, u);
        ctx, t := RenameC(c, t.slot, u.slot), RenameT(u, t.slot, u.slot);
        SwapNodeWithSuccessor(index, successor);
      }
    }

    /** Remove the node at index and rebalance; NIL is silently ignored. */
    method RemoveByIndex(index: int)
      requires Valid() && (index == NIL || index in Slots(tree))
      modifies this, data
      ensures index == NIL ==> data[..] == old(data[..]) && root == old(root) && tree == old(tree)
      ensures Valid() && Slots(tree) == old(Slots(tree)) - {index}
      ensures Inorder(tree) == Without(old(Inorder(tree)), index)
      ensures Confined(old(data[..]), data[..], old(Slots(tree)))
      ensures Inorder(tree) != [] ==> (maxIndex == NIL <==> old(maxIndex) == NIL)
    {
      if index == NIL {
        NilAbsent(data[..], root, tree);
        return;
      }
      RemoveMax(data[..], root, tree, maxIndex, index);
      if index == maxIndex {
        maxIndex := GetNextLowerIndex(maxIndex);
      }
      RemoveNode(index);
    }

    /** The removal of a node of the tree. */
    method RemoveNode(index: int)
      requires Shaped() && index in Slots(tree)
      modifies data, this`root, this`tree
      ensures Shaped() && Slots(tree) == old(Slots(tree)) - {index}
      ensures Inorder(tree) == Without(old(Inorder(tree)), index)
      ensures Confined(old(data[..]), data[..], old(Slots(tree)))
    {
      hide Confined, RedBlack, SortedKeys, Plug;
      ghost var m, tree0 := data[..], tree;
      ghost var ctx, t := FocusOn(index);
      PlugWhole(m, root, ctx, t);
      ctx, t := SwapIfInternal(index, ctx, t);
      ghost var m1 := data[..];
      PlugWhole(m1, root, ctx, t);
      ghost var u;
      ctx, u := TakeOut(index, ctx, t);
      ConfinedTrans(m, m1, data[..], Slots(tree0));
      RemoveDone(m, data[..], root, ctx, u, tree0, index);
      PlugWhole(data[..], root, ctx, u);
      tree := Plug(ctx, u);
    }

    /** Unlink a node that has at most one child, and rebalance. */
    method TakeOut(index: int, ghost ctx: Ctx, ghost t: Tree)
      returns (ghost ctx': Ctx, ghost u: Tree)
      requires data.Length <= NIL && Whole(data[..], root, ctx, t) && RedBlack(Plug(ctx, t))
      requires t.Branch? && t.slot == index && (t.left.Leaf? || t.right.Leaf?)
      modifies data, this`root
      ensures Whole(data[..], root, ctx', u) && RedBlack(Plug(ctx', u))
      ensures InorderAll(ctx', u) == Without(Inorder(Plug(ctx, t)), index)
      ensures AllSlots(ctx', u) == AllSlots(ctx, t) - {index}
      ensures Confined(old(data[..]), data[..], AllSlots(ctx, t))
    {
      ghost var m, S := data[..], AllSlots(ctx, t);
      PlugWhole(m, root, ctx, t);
      FocusReads(m, root, ctx, t);
      u := if t.left.Leaf? then t.right else t.left;
      SpliceWhole(m, root, ctx, t, u);
      SpliceOrder(ctx, t, u);
      SpliceSlots(ctx, t, u);
      var toDeleteColor := GetColor(data[..], index);
      var childColor :=
        if GetColor(data[..], GetLeft(data[..], index)) == Red
        || GetColor(data[..], GetRight(data[..], index)) == Red then Red else Black;
      var child := OnlyChild(data[..], index);
      var parent := GetParent(data[..], index);
      UpdateParentChild(index);
      ghost var m1 := data[..];
      ctx' := ctx;
      if childColor == Red || toDeleteColor == Red {
        EasyRemoval(ctx, t, u);
        BlackenChild(child, ctx, u);
        u := if u.Leaf? then u else u.(color := Black);
      } else {
        HardRemoval(ctx, t, u);
        ctx', u := Rebalance(child, parent, ctx, u);
      }
      ConfinedGrow(m1, data[..], S - {index}, S);
      ConfinedTrans(m, m1, data[..], S);
    }

    method BlackenChild(child: int, ghost ctx: Ctx, ghost u: Tree)
      requires data.Length <= NIL && Whole(data[..], root, ctx, u) && child == Idx(u)
      modifies data
      ensures var u' := if u.Leaf? then u else u.(color := Black);
        Whole(data[..], root, ctx, u') && SameOrder(ctx, u, ctx, u')
      ensures Confined(old(data[..]), data[..], AllSlots(ctx, u))
    {
      WholeSlots(data[..], root, ctx, u);
      if u.Branch? {
        PaintWhole(data[..], root, ctx, u, Black);
      }
      SetColorAt(child, Black);
    }

    /** Repair until no focus is short. */
    method Rebalance(child: int, parent: int, ghost ctx0: Ctx, ghost u0: Tree)
      returns (ghost ctx: Ctx, ghost u: Tree)
      requires data.Length <= NIL && Whole(data[..], root, ctx0, u0) && Deficit(ctx0, u0)
      requires child == Idx(u0) && parent == Par(ctx0)
      modifies data, this`root
      ensures Whole(data[..], root, ctx, u) && RedBlack(Plug(ctx, u)) && SameOrder(ctx0, u0, ctx, u)
      ensures Confined(old(data[..]), data[..], AllSlots(ctx0, u0))
    {
      ghost var m := data[..];
      ctx, u := ctx0, u0;
      var next, nextParent := child, parent;
      var done := false;
      while !done
        invariant Whole(data[..], root, ctx, u) && SameOrder(ctx0, u0, ctx, u)
        invariant Confined(m, data[..], AllSlots(ctx0, u0))
        invariant !done ==> Deficit(ctx, u) && next == Idx(u) && nextParent == Par(ctx)
        invariant done ==> RedBlack(Plug(ctx, u))
        decreases if done then 0 else 1 + Climb(ctx)
      {
        ghost var m1 := data[..];
        next, nextParent, ctx, u := RemoveFix(next, nextParent, ctx, u);
        ConfinedTrans(m, m1, data[..], AllSlots(ctx0, u0));
        done := next == NIL && nextParent == NIL;
      }
    }

    // ----- read operations -----

    /** A slot with the given key, the only one when keys are distinct, or NIL; at most
        height many nodes are examined, which is at most 2 log2(n + 1). */
    method LookupIndex(orderId: nat) returns (current: int, ghost steps: nat)
      requires Shaped()
      ensures current == NIL <==> Absent(data[..], tree, orderId)
      ensures current != NIL ==> current in Slots(tree) && 0 <= current < data.Length
      ensures current != NIL ==> data[current].value.orderId == orderId
      ensures current != NIL && DistinctKeys(data[..], Inorder(tree)) ==> OnlySlot(data[..], tree, orderId, current)
      ensures steps <= Height(tree) && Pow2(steps) <= (Size(tree) + 1) * (Size(tree) + 1)
    {
      hide Surrounds, Absent, SortedKeys, RedBlack, Pow2, Size, DistinctKeys, OnlySlot, Inorder;
      SurroundsAll(data[..], orderId);
      ghost var m := data[..];
      steps := 0;
      HeightIsLogarithmic(tree);
      Pow2Mono(0, Height(tree));
      if root == NIL {
        EmptyTree(m, root, tree);
        LookupMiss(m, Top, tree, orderId);
        return NIL, 0;
      }
      current := root;
      ghost var ctx, t := Top, tree;
      FocusReads(m, root, ctx, t);
      steps := 1;
      while data[current].value.orderId != orderId
        invariant Whole(m, root, ctx, t) && t.Branch? && t.slot == current && 0 <= current < data.Length
        invariant Plug(ctx, t) == tree && Surrounds(m, ctx, orderId)
        invariant steps + Height(t) <= Height(tree) + 1
        decreases t
      {
        FocusReads(m, root, ctx, t);
        LookupStep(m, root, ctx, t, tree, orderId);
        Pow2Mono(steps, Height(tree));
        if data[current].value.orderId > orderId {
          ctx, t := InLeft(ctx, t.slot, t.color, t.right), t.left;
          if data[current].left == NIL {
            LookupMiss(m, ctx, tree, orderId);
            return NIL, steps;
          }
          current := data[current].left;
        } else {
          ctx, t := InRight(ctx, t.slot, t.color, t.left), t.right;
          if data[current].right == NIL {
            LookupMiss(m, ctx, tree, orderId);
            return NIL, steps;
          }
          current := data[current].right;
        }
        FocusReads(m, root, ctx, t);
        steps := steps + 1;
      }
      FocusReads(m, root, ctx, t);
      Pow2Mono(steps, Height(tree));
      LookupHit(m, root, ctx, t, tree, orderId);
    }

    /** The rightmost node from the root, or NIL. */
    method LookupMaxIndex() returns (current: int)
      requires Linked()
      ensures current == if Inorder(tree) == [] then NIL else Inorder(tree)[|Inorder(tree)| - 1]
    {
      ghost var m := data[..];
      current := root;
      if current == NIL {
        EmptyTree(m, root, tree);
        return;
      }
      FocusReads(m, root, Top, tree);
      current := Rightmost(current, Top, tree);
    }

    /** Follow right links to the end. */
    method Rightmost(start: int, ghost ctx: Ctx, ghost t: Tree) returns (current: int)
      requires data.Length <= NIL && Whole(data[..], root, ctx, t) && t.Branch? && t.slot == start
      ensures Inorder(t) != [] && current == Inorder(t)[|Inorder(t)| - 1]
    {
      ghost var m := data[..];
      current := start;
      ghost var c, u := ctx, t;
      FocusReads(m, root, c, u);
      while GetRight(data[..], current) != NIL
        invariant Whole(m, root, c, u) && u.Branch? && u.slot == current && Link(m, current)
        invariant Inorder(u)[|Inorder(u)| - 1] == Inorder(t)[|Inorder(t)| - 1]
        decreases u
      {
        FocusReads(m, root, c, u);
        ZoomRight(m, root, c, u);
        current := GetRight(data[..], current);
        c, u := InRight(c, u.slot, u.color, u.left), u.right;
        FocusReads(m, root, c, u);
      }
      FocusReads(m, root, c, u);
    }

    /** Follow left links to the end. */
    method LeftmostDescendant(start: int, ghost ctx: Ctx, ghost t: Tree) returns (current: int)
      requires data.Length <= NIL && Whole(data[..], root, ctx, t) && t.Branch? && t.slot == start
      ensures Inorder(t) != [] && current == Inorder(t)[0]
    {
      ghost var m := data[..];
      current := start;
      ghost var c, u := ctx, t;
      FocusReads(m, root, c, u);
      while GetLeft(data[..], current) != NIL
        invariant Whole(m, root, c, u) && u.Branch? && u.slot == current && Link(m, current)
        invariant Inorder(u)[0] == Inorder(t)[0]
        decreases u
      {
        FocusReads(m, root, c, u);
        ZoomLeft(m, root, c, u);
        current := GetLeft(data[..], current);
        c, u := InLeft(c, u.slot, u.color, u.right), u.left;
        FocusReads(m, root, c, u);
      }
      FocusReads(m, root, c, u);
    }

    /** The context and subtree of a slot of the tree. */
    lemma FocusOn(index: int) returns (ctx: Ctx, t: Tree)
      requires Linked() && index in Slots(tree)
      ensures t.Branch? && t.slot == index && Plug(ctx, t) == tree
      ensures Whole(data[..], root, ctx, t) && 0 <= index < data.Length && Distinct(tree)
    {
      WholeSlots(data[..], root, Top, tree);
      FocusPlugs(Top, tree, index);
      var (c, u) := Focus(Top, tree, index);
      ctx, t := c, u;
      PlugWhole(data[..], root, ctx, t);
    }

    /** The next slot in order, or NIL after the last. */
    method SuccessorIndex(index: int) returns (next: int)
      requires Linked() && (index == NIL || index in Slots(tree))
      ensures index == NIL ==> next == NIL
      ensures index != NIL ==> IsNext(Inorder(tree), index, next)
    {
      ghost var m := data[..];
      if index == NIL {
        return NIL;
      }
      ghost var ctx0, t0 := FocusOn(index);
      FocusReads(m, root, ctx0, t0);
      ChildNeighbours(ctx0, t0, tree);
      ghost var pos := Position(ctx0, t0);
      var right := GetRight(data[..], index);
      if right != NIL {
        ZoomRight(m, root, ctx0, t0);
        next := LeftmostDescendant(right, InRight(ctx0, t0.slot, t0.color, t0.left), t0.right);
        NeighbourAt(ctx0, t0, tree, next);
        return;
      }
      next := ClimbRight(index, pos, ctx0, t0);
      NeighbourAt(ctx0, t0, tree, next);
    }

    /** Climb while the node is a right child; the parent where that ends. */
    method ClimbRight(index: int, ghost pos: int, ghost ctx0: Ctx, ghost t0: Tree) returns (next: int)
      requires Linked() && Whole(data[..], root, ctx0, t0) && Plug(ctx0, t0) == tree
      requires t0.Branch? && t0.slot == index && |Pre(ctx0)| + |Inorder(t0)| == pos + 1
      ensures 0 <= pos < |Inorder(tree)|
      ensures next == if pos + 1 < |Inorder(tree)| then Inorder(tree)[pos + 1] else NIL
    {
      ghost var m, ctx, t := data[..], ctx0, t0;
      var current := index;
      PositionIsRight(ctx, t);
      PlugInorder(ctx, t);
      while true
        invariant Whole(m, root, ctx, t) && t.Branch? && t.slot == current
        invariant Plug(ctx, t) == tree && |Pre(ctx)| + |Inorder(t)| == pos + 1
        decreases ctx
      {
        FocusReads(m, root, ctx, t);
        ChildSide(m, root, ctx, t);
        ParNilTop(m, root, ctx, t);
        ClimbToNext(ctx, t, tree, pos);
        var parent := GetParent(data[..], current);
        if parent == NIL {
          return NIL;
        }
        if IsLeftChild(data[..], root, current) {
          return parent;
        }
        UnderWhole(m, root, ctx, t);
        current := parent;
        ctx, t := ctx.up, Under(ctx, t);
      }
    }

    /** The previous slot in order, or NIL before the first. */
    method GetNextLowerIndex(index: int) returns (prev: int)
      requires Linked() && (index == NIL || index in Slots(tree))
      ensures index == NIL ==> prev == NIL
      ensures index != NIL ==> IsPrevious(Inorder(tree), index, prev)
    {
      ghost var m := data[..];
      if index == NIL {
        return NIL;
      }
      ghost var ctx0, t0 := FocusOn(index);
      FocusReads(m, root, ctx0, t0);
      ChildNeighbours(ctx0, t0, tree);
      var left := GetLeft(data[..], index);
      if left != NIL {
        ZoomLeft(m, root, ctx0, t0);
        prev := Rightmost(left, InLeft(ctx0, t0.slot, t0.color, t0.right), t0.left);
        NeighbourAt(ctx0, t0, tree, prev);
        return;
      }
      prev := ClimbLeft(index, ctx0, t0);
      NeighbourAt(ctx0, t0, tree, prev);
    }

    /** Climb while the node is a left child; the parent where that ends. */
    method ClimbLeft(index: int, ghost ctx0: Ctx, ghost t0: Tree) returns (prev: int)
      requires Linked() && Whole(data[..], root, ctx0, t0) && Plug(ctx0, t0) == tree
      requires t0.Branch? && t0.slot == index
      ensures |Pre(ctx0)| <= |Inorder(tree)|
      ensures prev == if |Pre(ctx0)| > 0 then Inorder(tree)[|Pre(ctx0)| - 1] else NIL
    {
      ghost var m, ctx, t, pos := data[..], ctx0, t0, |Pre(ctx0)|;
      var current := index;
      PlugInorder(ctx, t);
      ChildSide(m, root, ctx, t);
      while IsLeftChild(data[..], root, current)
        invariant Whole(m, root, ctx, t) && t.Branch? && t.slot == current
        invariant 0 <= current < |m| && Link(m, m[current].parent)
        invariant Plug(ctx, t) == tree && |Pre(ctx)| == pos
        decreases ctx
      {
        ChildSide(m, root, ctx, t);
        ClimbToPrevious(ctx, t, tree, pos);
        UnderWhole(m, root, ctx, t);
        current := GetParent(data[..], current);
        ctx, t := ctx.up, Under(ctx, t);
        ChildSide(m, root, ctx, t);
      }
      ChildSide(m, root, ctx, t);
      ClimbToPrevious(ctx, t, tree, pos);
      prev := GetParent(data[..], current);
    }
  }
}
