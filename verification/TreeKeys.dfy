/** Keys along the in-order sequence: the sorted order of the tree, the place of
    a new key, and what hanging a new leaf there does. */
module TreeKeys {
  import opened Nodes
  import opened Trees
  import opened TreeRep
  import opened TreeReads
  import opened InsertRepair

  function Key(m: seq<Node>, s: int): nat
    requires 0 <= s < |m|
  {
    m[s].value.orderId
  }

  /** The slots of s carry keys in non-decreasing order. */
  ghost predicate SortedKeys(m: seq<Node>, s: seq<int>) {
    && (forall i :: 0 <= i < |s| ==> 0 <= s[i] < |m|)
    && (forall i, j :: 0 <= i < j < |s| ==> Key(m, s[i]) <= Key(m, s[j]))
  }

  /** The slab m holds, from root, the red-black tree t in key order. */
  ghost predicate WellFormed(m: seq<Node>, root: int, t: Tree) {
    Whole(m, root, Top, t) && RedBlack(t) && SortedKeys(m, Inorder(t))
  }

  /** Where a key goes: after every smaller key, before every other. */
  ghost function LowerBound(m: seq<Node>, s: seq<int>, k: nat): (n: nat)
    requires forall i :: 0 <= i < |s| ==> 0 <= s[i] < |m|
    ensures n <= |s|
  {
    if s == [] then 0
    else if Key(m, s[0]) < k then 1 + LowerBound(m, s[1..], k)
    else 0
  }

  /** s with slot x put at the sorted place of key k. */
  ghost function InsertSorted(m: seq<Node>, s: seq<int>, x: int, k: nat): seq<int>
    requires forall i :: 0 <= i < |s| ==> 0 <= s[i] < |m|
  {
    var n := LowerBound(m, s, k);
    s[..n] + [x] + s[n..]
  }

  /** The split of s into smaller keys and the rest is unique. */
  lemma {:induction false} LowerBoundSplit(m: seq<Node>, a: seq<int>, b: seq<int>, k: nat)
    requires forall i :: 0 <= i < |a| ==> 0 <= a[i] < |m| && Key(m, a[i]) < k
    requires forall i :: 0 <= i < |b| ==> 0 <= b[i] < |m|
    requires b != [] ==> Key(m, b[0]) >= k
    ensures forall i :: 0 <= i < |a + b| ==> 0 <= (a + b)[i] < |m|
    ensures LowerBound(m, a + b, k) == |a|
  {
    if a == [] {
      assert a + b == b;
    } else {
      LowerBoundSplit(m, a[1..], b, k);
      assert (a + b)[1..] == a[1..] + b;
    }
  }

  /** m' is m with value written at x; other payloads stay, and slots outside
      S and x are untouched. */
  ghost predicate Grown(m: seq<Node>, m': seq<Node>, S: set<int>, x: int, value: Order) {
    && |m'| == |m| && 0 <= x < |m| && m'[x].value == value
    && (forall s :: 0 <= s < |m| && s != x ==> m'[s].value == m[s].value)
    && (forall s :: 0 <= s < |m| && s !in S && s != x ==> m'[s] == m[s])
  }

  /** Keys before the hole are smaller than k, keys after it are not. */
  ghost predicate Brackets(m: seq<Node>, ctx: Ctx, k: nat) {
    AllBelow(m, Pre(ctx), k) && AllFrom(m, Post(ctx), k)
  }

  ghost predicate AllBelow(m: seq<Node>, s: seq<int>, k: nat) {
    forall i :: 0 <= i < |s| ==> 0 <= s[i] < |m| && Key(m, s[i]) < k
  }

  ghost predicate AllFrom(m: seq<Node>, s: seq<int>, k: nat) {
    forall i :: 0 <= i < |s| ==> 0 <= s[i] < |m| && Key(m, s[i]) >= k
  }

  lemma BelowConcat(m: seq<Node>, a: seq<int>, x: int, b: seq<int>, k: nat)
    requires AllBelow(m, b, k) && SortedKeys(m, a + [x]) && 0 <= x < |m| && Key(m, x) < k
    ensures AllBelow(m, b + (a + [x]), k)
  {
    var s := a + [x];
    assert s[|a|] == x;
  }

  lemma FromConcat(m: seq<Node>, x: int, a: seq<int>, b: seq<int>, k: nat)
    requires AllFrom(m, b, k) && SortedKeys(m, [x] + a) && 0 <= x < |m| && Key(m, x) >= k
    ensures AllFrom(m, ([x] + a) + b, k)
  {
    var s := [x] + a;
    assert s[0] == x;
  }

  lemma SortedSlice(m: seq<Node>, a: seq<int>, b: seq<int>, c: seq<int>)
    requires SortedKeys(m, a + b + c)
    ensures SortedKeys(m, b)
  {
    var s := a + b + c;
    assert forall i :: 0 <= i < |b| ==> b[i] == s[|a| + i];
  }

  lemma SingleNode(m: seq<Node>, x: int, value: Order)
    requires 0 <= x < |m| <= NIL && m[x] == Node(NIL, NIL, NIL, Black, value)
    ensures WellFormed(m, x, Branch(Leaf, x, Black, Leaf))
    ensures Inorder(Branch(Leaf, x, Black, Leaf)) == [x]
    ensures Slots(Branch(Leaf, x, Black, Leaf)) == {x}
  {
    var t := Branch(Leaf, x, Black, Leaf);
    var top := Top;
    assert Slots(t) == {x};
    assert Inorder(t.left) == [] && Inorder(t) == [] + [x] + [];
    assert Rep(m, NIL, t) && Distinct(t) && RepC(m, x, top, x);
    assert Balanced(t) && NoRedRed(t);
  }

  /** Going right of a smaller key, or left of any other, keeps the brackets. */
  lemma WalkBrackets(m: seq<Node>, root: int, ctx: Ctx, t: Tree, tree: Tree, k: nat)
    requires Whole(m, root, ctx, t) && t.Branch? && Plug(ctx, t) == tree
    requires SortedKeys(m, Inorder(tree)) && Brackets(m, ctx, k)
    ensures 0 <= t.slot < |m|
    ensures Key(m, t.slot) < k ==> Brackets(m, InRight(ctx, t.slot, t.color, t.left), k)
    ensures Key(m, t.slot) >= k ==> Brackets(m, InLeft(ctx, t.slot, t.color, t.right), k)
  {
    FocusReads(m, root, ctx, t);
    PlugInorder(ctx, t);
    WalkKeys(m, ctx, t, k);
  }

  lemma WalkKeys(m: seq<Node>, ctx: Ctx, t: Tree, k: nat)
    requires t.Branch? && 0 <= t.slot < |m| && Brackets(m, ctx, k)
    requires SortedKeys(m, Pre(ctx) + Inorder(t) + Post(ctx))
    ensures Key(m, t.slot) < k ==> Brackets(m, InRight(ctx, t.slot, t.color, t.left), k)
    ensures Key(m, t.slot) >= k ==> Brackets(m, InLeft(ctx, t.slot, t.color, t.right), k)
  {
    var l, r := Inorder(t.left), Inorder(t.right);
    SortedSlice(m, Pre(ctx), Inorder(t), Post(ctx));
    if Key(m, t.slot) < k {
      assert [] + (l + [t.slot]) + r == Inorder(t);
      SortedSlice(m, [], l + [t.slot], r);
      BelowConcat(m, l, t.slot, Pre(ctx), k);
    } else {
      assert l + ([t.slot] + r) + [] == Inorder(t);
      SortedSlice(m, l, [t.slot] + r, []);
      FromConcat(m, t.slot, r, Post(ctx), k);
    }
  }

  /** Hanging a new red leaf on the free right side of the focus. */
  lemma HangRight(m: seq<Node>, root: int, ctx: Ctx, t: Tree, x: int, value: Order)
    requires Whole(m, root, ctx, t) && t.Branch? && t.right.Leaf?
    requires 0 <= x < |m| && x !in SlotsC(ctx) + Slots(t)
    ensures 0 <= t.slot < |m|
    ensures var m' := SetRight(m, t.slot, x)[x := Node(NIL, NIL, t.slot, Red, value)];
            Whole(m', root, InRight(ctx, t.slot, t.color, t.left), Branch(Leaf, x, Red, Leaf))
  {
    var m' := SetRight(m, t.slot, x)[x := Node(NIL, NIL, t.slot, Red, value)];
    RepFrame(m, m', t.slot, t.left);
    RepCFrame(m, m', root, ctx, t.slot);
  }

  lemma AttachRight(m: seq<Node>, root: int, ctx: Ctx, t: Tree, tree: Tree, x: int, value: Order)
    requires Whole(m, root, ctx, t) && t.Branch? && t.right.Leaf? && Plug(ctx, t) == tree && RedBlack(tree)
    requires 0 <= x < |m| && x !in Slots(tree)
    requires Brackets(m, InRight(ctx, t.slot, t.color, t.left), value.orderId)
    ensures 0 <= t.slot < |m|
    ensures var m' := SetRight(m, t.slot, x)[x := Node(NIL, NIL, t.slot, Red, value)];
            Attached(m, m', root, InRight(ctx, t.slot, t.color, t.left), tree, x, value)
  {
    hide Whole, Pending, Brackets, RedBlack;
    var ctx' := InRight(ctx, t.slot, t.color, t.left);
    PlugSlots(ctx, t);
    HangRight(m, root, ctx, t, x, value);
    AttachBalance(ctx, t, ctx', x, tree);
    AttachOrder(m, ctx', tree, x, value.orderId);
  }

  lemma HangLeft(m: seq<Node>, root: int, ctx: Ctx, t: Tree, x: int, value: Order)
    requires Whole(m, root, ctx, t) && t.Branch? && t.left.Leaf?
    requires 0 <= x < |m| && x !in SlotsC(ctx) + Slots(t)
    ensures 0 <= t.slot < |m|
    ensures var m' := SetLeft(m, t.slot, x)[x := Node(NIL, NIL, t.slot, Red, value)];
            Whole(m', root, InLeft(ctx, t.slot, t.color, t.right), Branch(Leaf, x, Red, Leaf))
  {
    var m' := SetLeft(m, t.slot, x)[x := Node(NIL, NIL, t.slot, Red, value)];
    RepFrame(m, m', t.slot, t.right);
    RepCFrame(m, m', root, ctx, t.slot);
  }

  lemma AttachLeft(m: seq<Node>, root: int, ctx: Ctx, t: Tree, tree: Tree, x: int, value: Order)
    requires Whole(m, root, ctx, t) && t.Branch? && t.left.Leaf? && Plug(ctx, t) == tree && RedBlack(tree)
    requires 0 <= x < |m| && x !in Slots(tree)
    requires Brackets(m, InLeft(ctx, t.slot, t.color, t.right), value.orderId)
    ensures 0 <= t.slot < |m|
    ensures var m' := SetLeft(m, t.slot, x)[x := Node(NIL, NIL, t.slot, Red, value)];
            Attached(m, m', root, InLeft(ctx, t.slot, t.color, t.right), tree, x, value)
  {
    hide Whole, Pending, Brackets, RedBlack;
    var ctx' := InLeft(ctx, t.slot, t.color, t.right);
    PlugSlots(ctx, t);
    HangLeft(m, root, ctx, t, x, value);
    AttachBalance(ctx, t, ctx', x, tree);
    AttachOrder(m, ctx', tree, x, value.orderId);
  }

  /** The slab after the new leaf is hung at the hole of ctx'. */
  ghost predicate Attached(m: seq<Node>, m': seq<Node>, root: int, ctx': Ctx, tree: Tree, x: int, value: Order) {
    var t' := Branch(Leaf, x, Red, Leaf);
    && InSlab(m, Inorder(tree))
    && Whole(m', root, ctx', t') && Pending(ctx', t')
    && AllSlots(ctx', t') == Slots(tree) + {x}
    && InorderAll(ctx', t') == InsertSorted(m, Inorder(tree), x, value.orderId)
    && Grown(m, m', Slots(tree), x, value)
  }

  ghost predicate InSlab(m: seq<Node>, s: seq<int>) {
    forall i :: 0 <= i < |s| ==> 0 <= s[i] < |m|
  }

  /** A red leaf in place of an empty subtree keeps black heights. */
  lemma AttachBalance(ctx: Ctx, t: Tree, ctx': Ctx, x: int, tree: Tree)
    requires t.Branch? && RedBlack(Plug(ctx, t))
    requires (ctx' == InRight(ctx, t.slot, t.color, t.left) && t.right.Leaf?)
          || (ctx' == InLeft(ctx, t.slot, t.color, t.right) && t.left.Leaf?)
    ensures Pending(ctx', Branch(Leaf, x, Red, Leaf))
  {
    assert Plug(ctx', Leaf) == Plug(ctx, t);
    PlugRedBlack(ctx', Leaf);
  }

  lemma AttachOrder(m: seq<Node>, ctx': Ctx, tree: Tree, x: int, k: nat)
    requires Plug(ctx', Leaf) == tree && Brackets(m, ctx', k)
    ensures InSlab(m, Inorder(tree))
    ensures InorderAll(ctx', Branch(Leaf, x, Red, Leaf)) == InsertSorted(m, Inorder(tree), x, k)
    ensures AllSlots(ctx', Branch(Leaf, x, Red, Leaf)) == Slots(tree) + {x}
  {
    SingleOrder(x);
    PlugInorder(ctx', Leaf);
    PlugSlots(ctx', Leaf);
    SplitInsert(m, Pre(ctx'), Post(ctx'), x, k);
    hide Pre, Post, Plug, Inorder, Slots, InsertSorted, LowerBound, AllBelow, AllFrom;
    assert Pre(ctx') + [] + Post(ctx') == Pre(ctx') + Post(ctx');
  }

  lemma SingleOrder(x: int)
    ensures Inorder(Branch(Leaf, x, Red, Leaf)) == [x] && Slots(Branch(Leaf, x, Red, Leaf)) == {x}
    ensures Inorder(Leaf) == [] && Slots(Leaf) == {}
  {
    assert [] + [x] + [] == [x];
  }

  /** Between smaller keys and the rest is the sorted place. */
  lemma SplitInsert(m: seq<Node>, a: seq<int>, b: seq<int>, x: int, k: nat)
    requires AllBelow(m, a, k) && AllFrom(m, b, k)
    ensures InSlab(m, a + b)
    ensures a + [x] + b == InsertSorted(m, a + b, x, k)
  {
    LowerBoundSplit(m, a, b, k);
    assert (a + b)[..|a|] == a && (a + b)[|a|..] == b;
  }

  /** The repaired tree is well formed: keys did not move while it was repaired. */
  lemma InsertDone(m: seq<Node>, m1: seq<Node>, m2: seq<Node>, root: int, ctx: Ctx, t: Tree,
                   tree: Tree, x: int, value: Order)
    requires SortedKeys(m, Inorder(tree))
    requires Whole(m2, root, ctx, t) && RedBlack(Plug(ctx, t))
    requires AllSlots(ctx, t) == Slots(tree) + {x}
    requires InorderAll(ctx, t) == InsertSorted(m, Inorder(tree), x, value.orderId)
    requires Grown(m, m1, Slots(tree), x, value) && Confined(m1, m2, AllSlots(ctx, t))
    requires x !in Slots(tree)
    ensures WellFormed(m2, root, Plug(ctx, t))
    ensures Slots(Plug(ctx, t)) == Slots(tree) + {x}
    ensures Inorder(Plug(ctx, t)) == InsertSorted(m, Inorder(tree), x, value.orderId)
    ensures Grown(m, m2, Slots(tree), x, value)
  {
    PlugWhole(m2, root, ctx, t);
    PlugInorder(ctx, t);
    InorderSlots(tree);
    InsertKeepsSorted(m, m2, Inorder(tree), x, value.orderId);
  }

  lemma {:induction false} LowerBoundMeaning(m: seq<Node>, s: seq<int>, k: nat)
    requires SortedKeys(m, s)
    ensures forall i :: 0 <= i < LowerBound(m, s, k) ==> Key(m, s[i]) < k
    ensures forall i :: LowerBound(m, s, k) <= i < |s| ==> Key(m, s[i]) >= k
  {
    if s != [] && Key(m, s[0]) < k {
      LowerBoundMeaning(m, s[1..], k);
      assert forall i :: 1 <= i < |s| ==> s[i] == s[1..][i - 1];
    }
  }

  lemma InsertKeepsSorted(m: seq<Node>, m': seq<Node>, s: seq<int>, x: int, k: nat)
    requires SortedKeys(m, s) && |m'| == |m| && 0 <= x < |m| && x !in s
    requires Key(m', x) == k
    requires forall i :: 0 <= i < |m| && i != x ==> m'[i].value == m[i].value
    ensures SortedKeys(m', InsertSorted(m, s, x, k))
  {
    LowerBoundMeaning(m, s, k);
    var n := LowerBound(m, s, k);
    var r := InsertSorted(m, s, x, k);
    hide LowerBound;
    assert forall i :: 0 <= i < |s| ==> s[i] != x && Key(m', s[i]) == Key(m, s[i]);
    assert forall i :: 0 <= i < |r| ==> r[i] == if i < n then s[i] else if i == n then x else s[i - 1];
    hide InsertSorted;
    forall i, j | 0 <= i < j < |r|
      ensures Key(m', r[i]) <= Key(m', r[j])
    {
    }
  }

  // ----- removal -----

  /** Dropping the focus when it has at most one child leaves that child. */
  lemma SpliceOrder(ctx: Ctx, t: Tree, u: Tree)
    requires t.Branch? && Distinct(Plug(ctx, t))
    requires (t.left == Leaf && u == t.right) || (t.right == Leaf && u == t.left)
    ensures InorderAll(ctx, u) == Without(Inorder(Plug(ctx, t)), t.slot)
  {
    PlugInorder(ctx, t);
    InorderNoDup(Plug(ctx, t));
    var a, b := Pre(ctx) + Inorder(t.left), Inorder(t.right) + Post(ctx);
    assert Inorder(Plug(ctx, t)) == a + [t.slot] + b by {
      assert Pre(ctx) + (Inorder(t.left) + [t.slot] + Inorder(t.right)) + Post(ctx) == a + [t.slot] + b;
    }
    MiddleOnce(a, t.slot, b);
    WithoutMiddle(a, t.slot, b);
    OnlyChildOrder(ctx, t, u);
  }

  lemma OnlyChildOrder(ctx: Ctx, t: Tree, u: Tree)
    requires t.Branch?
    requires (t.left == Leaf && u == t.right) || (t.right == Leaf && u == t.left)
    ensures InorderAll(ctx, u) == (Pre(ctx) + Inorder(t.left)) + (Inorder(t.right) + Post(ctx))
  {
  }

  lemma SpliceSlots(ctx: Ctx, t: Tree, u: Tree)
    requires t.Branch? && Distinct(Plug(ctx, t))
    requires (t.left == Leaf && u == t.right) || (t.right == Leaf && u == t.left)
    ensures AllSlots(ctx, u) == Slots(Plug(ctx, t)) - {t.slot}
  {
    PlugSlots(ctx, t);
    PlugDistinct(ctx, t);
    assert Slots(t) == Slots(u) + {t.slot} && t.slot !in Slots(u);
    assert t.slot in Slots(t);
  }

  lemma MiddleOnce(a: seq<int>, x: int, b: seq<int>)
    requires NoDup(a + [x] + b)
    ensures x !in a && x !in b
  {
    var s := a + [x] + b;
    assert s[|a|] == x;
    assert forall i :: 0 <= i < |a| ==> s[i] == a[i];
    assert forall i :: 0 <= i < |b| ==> s[|a| + 1 + i] == b[i];
  }

  lemma {:induction false} WithoutKeepsSorted(m: seq<Node>, s: seq<int>, x: int)
    requires SortedKeys(m, s)
    ensures SortedKeys(m, Without(s, x))
    ensures forall y :: y in Without(s, x) <==> y in s && y != x
  {
    if s != [] {
      var r := Without(s[1..], x);
      assert forall i :: 0 <= i < |s| - 1 ==> s[1..][i] == s[i + 1];
      WithoutKeepsSorted(m, s[1..], x);
      forall i | 0 <= i < |r|
        ensures Key(m, s[0]) <= Key(m, r[i])
      {
        assert r[i] in s[1..];
      }
    }
  }

  /** The tree after removal is well formed: no payload moved. */
  lemma RemoveDone(m: seq<Node>, m': seq<Node>, root': int, ctx: Ctx, t: Tree, tree: Tree, x: int)
    requires SortedKeys(m, Inorder(tree)) && Distinct(tree)
    requires Whole(m', root', ctx, t) && RedBlack(Plug(ctx, t))
    requires InorderAll(ctx, t) == Without(Inorder(tree), x)
    requires Confined(m, m', Slots(tree))
    ensures WellFormed(m', root', Plug(ctx, t))
    ensures Inorder(Plug(ctx, t)) == Without(Inorder(tree), x)
  {
    PlugWhole(m', root', ctx, t);
    PlugInorder(ctx, t);
    WithoutKeepsSorted(m, Inorder(tree), x);
  }

  // ----- positions -----

  /** The place of the focus in the in-order sequence. */
  ghost function Position(ctx: Ctx, t: Tree): nat
    requires t.Branch?
  {
    |Pre(ctx)| + |Inorder(t.left)|
  }

  lemma PositionIsRight(ctx: Ctx, t: Tree)
    requires t.Branch?
    ensures Position(ctx, t) < |Inorder(Plug(ctx, t))|
    ensures Inorder(Plug(ctx, t))[Position(ctx, t)] == t.slot
  {
    PlugInorder(ctx, t);
    assert Inorder(t)[|Inorder(t.left)|] == t.slot;
  }

  /** The successor of a slot in a sequence without repetitions, or NIL. */
  ghost predicate IsNext(s: seq<int>, x: int, next: int) {
    forall k :: 0 <= k < |s| && s[k] == x ==> next == if k + 1 < |s| then s[k + 1] else NIL
  }

  ghost predicate IsPrevious(s: seq<int>, x: int, prev: int) {
    forall k :: 0 <= k < |s| && s[k] == x ==> prev == if k > 0 then s[k - 1] else NIL
  }

  /** The element after, or before, the place of the focus. */
  lemma NeighbourAt(ctx: Ctx, t: Tree, tree: Tree, x: int)
    requires t.Branch? && Plug(ctx, t) == tree && Distinct(tree)
    ensures var s, pos := Inorder(tree), Position(ctx, t);
      && pos < |s|
      && (x == (if pos + 1 < |s| then s[pos + 1] else NIL) ==> IsNext(s, t.slot, x))
      && (x == (if pos > 0 then s[pos - 1] else NIL) ==> IsPrevious(s, t.slot, x))
  {
    PositionIsRight(ctx, t);
    InorderNoDup(tree);
  }

  lemma ChildNeighbours(ctx: Ctx, t: Tree, tree: Tree)
    requires t.Branch? && Plug(ctx, t) == tree
    ensures var s, l, r, pos := Inorder(tree), Inorder(t.left), Inorder(t.right), Position(ctx, t);
      && (r != [] ==> pos + 1 < |s| && s[pos + 1] == r[0])
      && (l != [] ==> 0 < pos < |s| && s[pos - 1] == l[|l| - 1])
  {
    PlugInorder(ctx, t);
    MiddleNeighbours(Pre(ctx), Inorder(t.left), t.slot, Inorder(t.right), Post(ctx));
  }

  lemma MiddleNeighbours(a: seq<int>, l: seq<int>, x: int, r: seq<int>, b: seq<int>)
    ensures var s, pos := a + (l + [x] + r) + b, |a| + |l|;
      && (r != [] ==> pos + 1 < |s| && s[pos + 1] == r[0])
      && (l != [] ==> 0 < pos < |s| && s[pos - 1] == l[|l| - 1])
  {
    var u := l + [x] + r;
    assert r != [] ==> u[|l| + 1] == r[0];
    assert l != [] ==> u[|l| - 1] == l[|l| - 1];
  }

  /** Climbing with everything up to the end of the focus at or before pos. */
  lemma ClimbToNext(ctx: Ctx, t: Tree, tree: Tree, pos: int)
    requires Plug(ctx, t) == tree && |Pre(ctx)| + |Inorder(t)| == pos + 1
    ensures ctx.Top? ==> |Inorder(tree)| == pos + 1
    ensures ctx.InLeft? ==> pos + 1 < |Inorder(tree)| && Inorder(tree)[pos + 1] == ctx.slot
    ensures ctx.InRight? ==> |Pre(ctx.up)| + |Inorder(Under(ctx, t))| == pos + 1
    ensures !ctx.Top? ==> Plug(ctx.up, Under(ctx, t)) == tree
  {
    PlugInorder(ctx, t);
  }

  /** Climbing with everything before the focus before pos. */
  lemma ClimbToPrevious(ctx: Ctx, t: Tree, tree: Tree, pos: int)
    requires Plug(ctx, t) == tree && |Pre(ctx)| == pos
    ensures ctx.Top? ==> pos == 0
    ensures ctx.InRight? ==> 0 < pos <= |Inorder(tree)| && Inorder(tree)[pos - 1] == ctx.slot
    ensures ctx.InLeft? ==> |Pre(ctx.up)| == pos
    ensures !ctx.Top? ==> Plug(ctx.up, Under(ctx, t)) == tree
  {
    PlugInorder(ctx, t);
  }

  // ----- the cached maximum -----

  /** NIL on a non-empty tree means that the maximum is not tracked. */
  ghost predicate MaxCached(max: int, s: seq<int>) {
    max == NIL || (s != [] && max == s[|s| - 1])
  }

  lemma MaxAfterInsert(m: seq<Node>, s: seq<int>, x: int, k: nat)
    requires SortedKeys(m, s) && s != []
    ensures var r := InsertSorted(m, s, x, k);
      |r| == |s| + 1 && r[|s|] == if Key(m, s[|s| - 1]) < k then x else s[|s| - 1]
  {
    LowerBoundMeaning(m, s, k);
  }

  lemma {:induction false} WithoutLast(s: seq<int>, x: int)
    requires s != [] && NoDup(s)
    ensures x != s[|s| - 1] ==> var r := Without(s, x); r != [] && r[|r| - 1] == s[|s| - 1]
    ensures x == s[|s| - 1] ==> Without(s, x) == s[..|s| - 1]
  {
    var a, z := s[..|s| - 1], s[|s| - 1];
    assert s == a + [z];
    WithoutConcat(a, [z], x);
    if x == z {
      assert x !in a;
      WithoutAbsent(a, x);
      WithoutSelf(x);
    } else {
      WithoutAbsent([z], x);
    }
  }

  lemma NonEmptyTree(m: seq<Node>, root: int, t: Tree)
    requires Whole(m, root, Top, t) && root != NIL
    ensures t.Branch? && Inorder(t) != []
  {
  }

  /** NIL is in no tree, so removing it changes nothing. */
  lemma NilAbsent(m: seq<Node>, root: int, t: Tree)
    requires Whole(m, root, Top, t)
    ensures NIL !in Slots(t) && Without(Inorder(t), NIL) == Inorder(t)
    ensures Slots(t) - {NIL} == Slots(t)
  {
    WholeSlots(m, root, Top, t);
    InorderSlots(t);
    WithoutAbsent(Inorder(t), NIL);
  }

  /** The cached maximum after an insertion, decided by one key comparison. */
  lemma InsertMax(m: seq<Node>, root: int, t: Tree, max: int, x: int, k: nat)
    requires WellFormed(m, root, t) && root != NIL && MaxCached(max, Inorder(t))
    ensures max != NIL ==> 0 <= max < |m|
    ensures x != NIL ==>
      MaxCached(if max != NIL && Key(m, max) < k then x else max, InsertSorted(m, Inorder(t), x, k))
  {
    NonEmptyTree(m, root, t);
    MaxAfterInsert(m, Inorder(t), x, k);
  }

  lemma LastPrevious(s: seq<int>, x: int, prev: int)
    requires s != [] && s[|s| - 1] == x && IsPrevious(s, x, prev)
    ensures prev == if |s| > 1 then s[|s| - 2] else NIL
  {
  }

  /** The cached maximum after a removal. */
  lemma RemoveMax(m: seq<Node>, root: int, t: Tree, max: int, x: int)
    requires WellFormed(m, root, t) && MaxCached(max, Inorder(t)) && x in Slots(t)
    ensures x != NIL
    ensures x != max ==> MaxCached(max, Without(Inorder(t), x))
    ensures forall prev :: x == max && IsPrevious(Inorder(t), x, prev) ==>
      && MaxCached(prev, Without(Inorder(t), x))
      && (Without(Inorder(t), x) != [] ==> prev != NIL)
  {
    var s := Inorder(t);
    WholeSlots(m, root, Top, t);
    InorderNoDup(t);
    InorderSlots(t);
    WithoutLast(s, x);
    if x == max {
      assert s[|s| - 1] == x;
      forall prev | IsPrevious(s, x, prev)
        ensures MaxCached(prev, Without(s, x)) && (Without(s, x) != [] ==> prev != NIL)
      {
        LastPrevious(s, x, prev);
        assert |s| > 1 ==> s[|s| - 2] in Slots(t);
      }
    }
  }

  // ----- lookup -----

  /** Keys before the focus are smaller than k, keys after it are larger. */
  ghost predicate Surrounds(m: seq<Node>, ctx: Ctx, k: nat) {
    AllBelow(m, Pre(ctx), k) && AllFrom(m, Post(ctx), k + 1)
  }

  lemma LookupStep(m: seq<Node>, root: int, ctx: Ctx, t: Tree, tree: Tree, k: nat)
    requires Whole(m, root, ctx, t) && t.Branch? && Plug(ctx, t) == tree
    requires SortedKeys(m, Inorder(tree)) && Surrounds(m, ctx, k)
    ensures 0 <= t.slot < |m|
    ensures Key(m, t.slot) < k ==> Surrounds(m, InRight(ctx, t.slot, t.color, t.left), k)
    ensures Key(m, t.slot) > k ==> Surrounds(m, InLeft(ctx, t.slot, t.color, t.right), k)
  {
    FocusReads(m, root, ctx, t);
    PlugInorder(ctx, t);
    if Key(m, t.slot) < k {
      WalkKeys(m, ctx, t, k);
    } else if Key(m, t.slot) > k {
      WalkKeys(m, ctx, t, k + 1);
    }
  }

  lemma SurroundsAll(m: seq<Node>, k: nat)
    ensures Surrounds(m, Top, k)
  {
  }

  /** No slot of the tree carries key k. */
  ghost predicate Absent(m: seq<Node>, tree: Tree, k: nat) {
    forall s :: s in Slots(tree) && 0 <= s < |m| ==> Key(m, s) != k
  }

  ghost predicate DistinctKeys(m: seq<Node>, s: seq<int>) {
    forall i, j :: 0 <= i < j < |s| && 0 <= s[i] < |m| && 0 <= s[j] < |m| ==> Key(m, s[i]) != Key(m, s[j])
  }

  /** Slot x is the one slot of the tree that carries key k. */
  ghost predicate OnlySlot(m: seq<Node>, tree: Tree, k: nat, x: int) {
    forall s :: s in Slots(tree) && 0 <= s < |m| && Key(m, s) == k ==> s == x
  }

  lemma FoundAlone(m: seq<Node>, tree: Tree, k: nat, x: int)
    requires x in Slots(tree) && 0 <= x < |m| && Key(m, x) == k && DistinctKeys(m, Inorder(tree))
    ensures OnlySlot(m, tree, k, x)
  {
    InorderSlots(tree);
    var t := Inorder(tree);
    var i :| 0 <= i < |t| && t[i] == x;
    forall s | s in Slots(tree) && 0 <= s < |m| && Key(m, s) == k
      ensures s == x
    {
      var j :| 0 <= j < |t| && t[j] == s;
    }
  }

  /** Where the descent meets the key. */
  lemma LookupHit(m: seq<Node>, root: int, ctx: Ctx, t: Tree, tree: Tree, k: nat)
    requires Whole(m, root, ctx, t) && t.Branch? && Plug(ctx, t) == tree
    requires 0 <= t.slot < |m| && Key(m, t.slot) == k
    ensures t.slot in Slots(tree) && t.slot != NIL && !Absent(m, tree, k)
    ensures DistinctKeys(m, Inorder(tree)) ==> OnlySlot(m, tree, k, t.slot)
  {
    PlugSlots(ctx, t);
    WholeSlots(m, root, ctx, t);
    assert t.slot in Slots(t);
    if DistinctKeys(m, Inorder(tree)) {
      FoundAlone(m, tree, k, t.slot);
    }
  }

  lemma LookupMiss(m: seq<Node>, ctx: Ctx, tree: Tree, k: nat)
    requires Plug(ctx, Leaf) == tree && Surrounds(m, ctx, k)
    ensures Absent(m, tree, k)
  {
    PlugInorder(ctx, Leaf);
    InorderSlots(tree);
    forall s | s in Slots(tree) && 0 <= s < |m|
      ensures Key(m, s) != k
    {
      assert s in Pre(ctx) + Post(ctx);
      if s in Pre(ctx) {
        var i :| 0 <= i < |Pre(ctx)| && Pre(ctx)[i] == s;
      } else {
        var i :| 0 <= i < |Post(ctx)| && Post(ctx)[i] == s;
      }
    }
  }
}
