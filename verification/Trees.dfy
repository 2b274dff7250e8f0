/** The mathematical red-black tree that the slab encodes, and its contexts.

    A tree names slots, not values: payloads never move between slots, so the
    order of the book is the in-order sequence of slots. A context is a tree
    with one subtree cut out, kept as the path from the hole up to the root;
    the fix-up loops climb it. */
module Trees {
  import opened Nodes

  datatype Tree = Leaf | Branch(left: Tree, slot: int, color: Color, right: Tree)

  /** InLeft: the hole is in the left subtree of slot; InRight: in the right.
      sib is the other subtree, up the context of the slot itself. */
  datatype Ctx =
    | Top
    | InLeft(up: Ctx, slot: int, color: Color, sib: Tree)
    | InRight(up: Ctx, slot: int, color: Color, sib: Tree)

  function Idx(t: Tree): int {
    if t.Leaf? then NIL else t.slot
  }

  function Hue(t: Tree): Color {
    if t.Leaf? then Black else t.color
  }

  function Par(ctx: Ctx): int {
    if ctx.Top? then NIL else ctx.slot
  }

  ghost function Plug(ctx: Ctx, t: Tree): Tree
    decreases ctx
  {
    match ctx
    case Top => t
    case InLeft(up, s, c, r) => Plug(up, Branch(t, s, c, r))
    case InRight(up, s, c, l) => Plug(up, Branch(l, s, c, t))
  }

  // ----- slots -----

  ghost function Slots(t: Tree): set<int> {
    match t
    case Leaf => {}
    case Branch(l, s, _, r) => Slots(l) + {s} + Slots(r)
  }

  ghost function SlotsC(ctx: Ctx): set<int> {
    match ctx
    case Top => {}
    case InLeft(up, s, _, r) => SlotsC(up) + {s} + Slots(r)
    case InRight(up, s, _, l) => SlotsC(up) + {s} + Slots(l)
  }

  /** No slot occurs twice. */
  ghost predicate Distinct(t: Tree) {
    match t
    case Leaf => true
    case Branch(l, s, _, r) =>
      Distinct(l) && Distinct(r) && s !in Slots(l) && s !in Slots(r) && Slots(l) !! Slots(r)
  }

  ghost predicate DistinctC(ctx: Ctx) {
    match ctx
    case Top => true
    case InLeft(up, s, _, r) =>
      DistinctC(up) && Distinct(r) && s !in SlotsC(up) && s !in Slots(r) && SlotsC(up) !! Slots(r)
    case InRight(up, s, _, l) =>
      DistinctC(up) && Distinct(l) && s !in SlotsC(up) && s !in Slots(l) && SlotsC(up) !! Slots(l)
  }

  // ----- in-order sequence -----

  ghost function Inorder(t: Tree): seq<int> {
    match t
    case Leaf => []
    case Branch(l, s, _, r) => Inorder(l) + [s] + Inorder(r)
  }

  /** What precedes the hole in order. */
  ghost function Pre(ctx: Ctx): seq<int> {
    match ctx
    case Top => []
    case InLeft(up, _, _, _) => Pre(up)
    case InRight(up, s, _, l) => Pre(up) + (Inorder(l) + [s])
  }

  /** What follows the hole in order. */
  ghost function Post(ctx: Ctx): seq<int> {
    match ctx
    case Top => []
    case InLeft(up, s, _, r) => ([s] + Inorder(r)) + Post(up)
    case InRight(up, _, _, _) => Post(up)
  }

  // ----- balance and colours -----

  /** Black nodes on the leftmost path. */
  ghost function BlackHeight(t: Tree): nat {
    match t
    case Leaf => 0
    case Branch(l, _, c, _) => BlackHeight(l) + if c == Black then 1 else 0
  }

  /** Equal black heights at every node. */
  ghost predicate Balanced(t: Tree) {
    match t
    case Leaf => true
    case Branch(l, _, _, r) => Balanced(l) && Balanced(r) && BlackHeight(l) == BlackHeight(r)
  }

  /** The context is balanced around a hole of black height h. */
  ghost predicate BalancedC(ctx: Ctx, h: nat)
    decreases ctx
  {
    match ctx
    case Top => true
    case InLeft(up, _, c, r) =>
      Balanced(r) && BlackHeight(r) == h && BalancedC(up, h + if c == Black then 1 else 0)
    case InRight(up, _, c, l) =>
      Balanced(l) && BlackHeight(l) == h && BalancedC(up, h + if c == Black then 1 else 0)
  }

  /** No red node has a red child. */
  ghost predicate NoRedRed(t: Tree) {
    match t
    case Leaf => true
    case Branch(l, _, c, r) =>
      NoRedRed(l) && NoRedRed(r) && (c == Red ==> Hue(l) == Black && Hue(r) == Black)
  }

  ghost predicate NoRedRedC(ctx: Ctx, hue: Color)
    decreases ctx
  {
    match ctx
    case Top => true
    case InLeft(up, _, c, r) =>
      NoRedRed(r) && (c == Red ==> hue == Black && Hue(r) == Black) && NoRedRedC(up, c)
    case InRight(up, _, c, l) =>
      NoRedRed(l) && (c == Red ==> hue == Black && Hue(l) == Black) && NoRedRedC(up, c)
  }

  /** A red-black tree: black root, equal black heights, no red-red edge. */
  ghost predicate RedBlack(t: Tree) {
    Balanced(t) && NoRedRed(t) && Hue(t) == Black
  }

  // ----- plugging -----

  lemma {:induction false} PlugSlots(ctx: Ctx, t: Tree)
    ensures Slots(Plug(ctx, t)) == SlotsC(ctx) + Slots(t)
    decreases ctx
  {
    match ctx
    case Top =>
    case InLeft(up, s, c, r) => PlugSlots(up, Branch(t, s, c, r));
    case InRight(up, s, c, l) => PlugSlots(up, Branch(l, s, c, t));
  }

  lemma {:induction false} PlugInorder(ctx: Ctx, t: Tree)
    ensures Inorder(Plug(ctx, t)) == Pre(ctx) + Inorder(t) + Post(ctx)
    decreases ctx
  {
    match ctx
    case Top =>
    case InLeft(up, s, c, r) =>
      PlugInorder(up, Branch(t, s, c, r));
      Regroup(Pre(up), Inorder(t), [s] + Inorder(r), Post(up));
      assert Inorder(t) + [s] + Inorder(r) == Inorder(t) + ([s] + Inorder(r));
    case InRight(up, s, c, l) =>
      PlugInorder(up, Branch(l, s, c, t));
      Regroup(Pre(up), Inorder(l) + [s], Inorder(t), Post(up));
  }

  lemma Regroup(a: seq<int>, b: seq<int>, c: seq<int>, d: seq<int>)
    ensures a + (b + c) + d == a + b + (c + d) == (a + b) + c + d
  {
  }

  lemma {:induction false} PlugDistinct(ctx: Ctx, t: Tree)
    ensures Distinct(Plug(ctx, t)) <==> DistinctC(ctx) && Distinct(t) && SlotsC(ctx) !! Slots(t)
    decreases ctx
  {
    match ctx
    case Top =>
    case InLeft(up, s, c, r) => PlugDistinct(up, Branch(t, s, c, r));
    case InRight(up, s, c, l) => PlugDistinct(up, Branch(l, s, c, t));
  }

  lemma {:induction false} PlugBalanced(ctx: Ctx, t: Tree)
    ensures Balanced(Plug(ctx, t)) <==> Balanced(t) && BalancedC(ctx, BlackHeight(t))
    decreases ctx
  {
    match ctx
    case Top =>
    case InLeft(up, s, c, r) => PlugBalanced(up, Branch(t, s, c, r));
    case InRight(up, s, c, l) => PlugBalanced(up, Branch(l, s, c, t));
  }

  lemma {:induction false} PlugNoRedRed(ctx: Ctx, t: Tree)
    ensures NoRedRed(Plug(ctx, t)) <==> NoRedRed(t) && NoRedRedC(ctx, Hue(t))
    decreases ctx
  {
    match ctx
    case Top =>
    case InLeft(up, s, c, r) => PlugNoRedRed(up, Branch(t, s, c, r));
    case InRight(up, s, c, l) => PlugNoRedRed(up, Branch(l, s, c, t));
  }

  /** The colour of the node at the end of the path. */
  ghost function RootHue(ctx: Ctx, hue: Color): Color
    decreases ctx
  {
    match ctx
    case Top => hue
    case InLeft(up, _, c, _) => RootHue(up, c)
    case InRight(up, _, c, _) => RootHue(up, c)
  }

  lemma {:induction false} PlugHue(ctx: Ctx, t: Tree)
    ensures Hue(Plug(ctx, t)) == RootHue(ctx, Hue(t))
    decreases ctx
  {
    match ctx
    case Top =>
    case InLeft(up, s, c, r) => PlugHue(up, Branch(t, s, c, r));
    case InRight(up, s, c, l) => PlugHue(up, Branch(l, s, c, t));
  }

  /** All colour and balance facts of a tree seen from one of its nodes. */
  lemma PlugRedBlack(ctx: Ctx, t: Tree)
    ensures RedBlack(Plug(ctx, t)) <==>
            && Balanced(t) && BalancedC(ctx, BlackHeight(t))
            && NoRedRed(t) && NoRedRedC(ctx, Hue(t))
            && RootHue(ctx, Hue(t)) == Black
  {
    PlugBalanced(ctx, t);
    PlugNoRedRed(ctx, t);
    PlugHue(ctx, t);
  }

  // ----- focusing on a slot -----

  /** The context and the subtree of a slot of the tree. */
  ghost function Focus(ctx: Ctx, t: Tree, x: int): (Ctx, Tree)
    requires x in Slots(t)
    decreases t
  {
    if x == t.slot then (ctx, t)
    else if x in Slots(t.left) then Focus(InLeft(ctx, t.slot, t.color, t.right), t.left, x)
    else Focus(InRight(ctx, t.slot, t.color, t.left), t.right, x)
  }

  lemma {:induction false} FocusPlugs(ctx: Ctx, t: Tree, x: int)
    requires x in Slots(t)
    ensures var (c, u) := Focus(ctx, t, x);
            u.Branch? && u.slot == x && Plug(c, u) == Plug(ctx, t)
    decreases t
  {
    if x == t.slot {
    } else if x in Slots(t.left) {
      FocusPlugs(InLeft(ctx, t.slot, t.color, t.right), t.left, x);
    } else {
      FocusPlugs(InRight(ctx, t.slot, t.color, t.left), t.right, x);
    }
  }

  // ----- sequence facts -----

  lemma {:induction false} InorderSlots(t: Tree)
    ensures forall x :: x in Inorder(t) <==> x in Slots(t)
  {
    match t
    case Leaf =>
    case Branch(l, s, _, r) =>
      InorderSlots(l);
      InorderSlots(r);
  }

  lemma {:induction false} InorderNoDup(t: Tree)
    requires Distinct(t)
    ensures NoDup(Inorder(t))
  {
    match t
    case Leaf =>
    case Branch(l, s, _, r) =>
      InorderNoDup(l);
      InorderNoDup(r);
      InorderSlots(l);
      InorderSlots(r);
      var a, b := Inorder(l), Inorder(r);
      forall i, j | 0 <= i < j < |a| + 1 + |b|
        ensures (a + [s] + b)[i] != (a + [s] + b)[j]
      {
        assert i < |a| ==> a[i] in Slots(l);
        assert j > |a| ==> b[j - |a| - 1] in Slots(r);
      }
  }

  /** s without x. */
  ghost function Without(s: seq<int>, x: int): seq<int> {
    if s == [] then []
    else if s[0] == x then Without(s[1..], x)
    else [s[0]] + Without(s[1..], x)
  }

  lemma {:induction false} WithoutAbsent(s: seq<int>, x: int)
    requires x !in s
    ensures Without(s, x) == s
  {
    if s != [] {
      WithoutAbsent(s[1..], x);
    }
  }

  lemma {:induction false} WithoutConcat(a: seq<int>, b: seq<int>, x: int)
    ensures Without(a + b, x) == Without(a, x) + Without(b, x)
  {
    if a == [] {
      assert a + b == b;
    } else {
      WithoutConcat(a[1..], b, x);
      assert (a + b)[1..] == a[1..] + b;
    }
  }

  lemma WithoutSelf(x: int)
    ensures Without([x], x) == []
  {
    assert [x][1..] == [];
  }

  lemma WithoutMiddle(a: seq<int>, x: int, b: seq<int>)
    requires x !in a && x !in b
    ensures Without(a + [x] + b, x) == a + b
  {
    calc {
      Without(a + [x] + b, x);
      { WithoutConcat(a + [x], b, x); }
      Without(a + [x], x) + Without(b, x);
      { WithoutConcat(a, [x], x); WithoutSelf(x); }
      Without(a, x) + [] + Without(b, x);
      { WithoutAbsent(a, x); WithoutAbsent(b, x); }
      a + [] + b;
      a + b;
    }
  }

  // ----- size and height -----

  ghost function Size(t: Tree): nat {
    match t
    case Leaf => 0
    case Branch(l, _, _, r) => Size(l) + 1 + Size(r)
  }

  ghost function Height(t: Tree): nat {
    match t
    case Leaf => 0
    case Branch(l, _, _, r) => 1 + if Height(l) > Height(r) then Height(l) else Height(r)
  }

  lemma {:induction false} SizeInorder(t: Tree)
    ensures |Inorder(t)| == Size(t)
  {
    match t
    case Leaf =>
    case Branch(l, _, _, r) =>
      SizeInorder(l);
      SizeInorder(r);
  }

  ghost function Pow2(n: nat): nat {
    if n == 0 then 1 else 2 * Pow2(n - 1)
  }

  lemma {:induction false} Pow2Mono(a: nat, b: nat)
    requires a <= b
    ensures 1 <= Pow2(a) <= Pow2(b)
    decreases b
  {
    if a < b {
      Pow2Mono(a, b - 1);
    } else if a > 0 {
      Pow2Mono(a - 1, b - 1);
    }
  }

  lemma {:induction false} Pow2Add(a: nat, b: nat)
    ensures Pow2(a + b) == Pow2(a) * Pow2(b)
    decreases a
  {
    if a > 0 {
      Pow2Add(a - 1, b);
    }
  }

  lemma {:induction false} BlackHeightBoundsSize(t: Tree)
    requires Balanced(t)
    ensures Pow2(BlackHeight(t)) <= Size(t) + 1
  {
    match t
    case Leaf =>
    case Branch(l, _, c, r) =>
      BlackHeightBoundsSize(l);
      BlackHeightBoundsSize(r);
  }

  lemma {:induction false} HeightBoundedByBlackHeight(t: Tree)
    requires Balanced(t) && NoRedRed(t)
    ensures Height(t) <= 2 * BlackHeight(t) + if Hue(t) == Red then 1 else 0
  {
    match t
    case Leaf =>
    case Branch(l, _, c, r) =>
      HeightBoundedByBlackHeight(l);
      HeightBoundedByBlackHeight(r);
  }

  /** 2^height <= (n + 1)^2, that is height <= 2 log2(n + 1). */
  lemma HeightIsLogarithmic(t: Tree)
    requires RedBlack(t)
    ensures Pow2(Height(t)) <= (Size(t) + 1) * (Size(t) + 1)
  {
    HeightBoundedByBlackHeight(t);
    BlackHeightBoundsSize(t);
    var h := BlackHeight(t);
    Pow2Mono(Height(t), h + h);
    Pow2Add(h, h);
    SquareMono(Pow2(h), Size(t) + 1);
  }

  lemma SquareMono(a: nat, b: nat)
    requires a <= b
    ensures a * a <= b * b
  {
    assert a * a <= a * b <= b * b;
  }
}
