/** How a slab holds a tree, and the link edits of the red-black tree as
    functions on the slab: rotations, the splice that takes a node with at most
    one child out, and the swap of a node with its successor. */
module TreeRep {
  import opened Nodes
  import opened Trees

  /** The links at the slots of t are those of t, hanging under slot p. */
  ghost predicate Rep(m: seq<Node>, p: int, t: Tree)
    decreases t
  {
    match t
    case Leaf => true
    case Branch(l, s, c, r) =>
      && 0 <= s < |m|
      && m[s].left == Idx(l) && m[s].right == Idx(r) && m[s].parent == p && m[s].color == c
      && Rep(m, s, l) && Rep(m, s, r)
  }

  /** The links along the context are those of ctx, with hole h. */
  ghost predicate RepC(m: seq<Node>, root: int, ctx: Ctx, h: int)
    decreases ctx
  {
    match ctx
    case Top => root == h
    case InLeft(up, s, c, r) =>
      && 0 <= s < |m|
      && m[s].left == h && m[s].right == Idx(r) && m[s].parent == Par(up) && m[s].color == c
      && Rep(m, s, r) && RepC(m, root, up, s)
    case InRight(up, s, c, l) =>
      && 0 <= s < |m|
      && m[s].right == h && m[s].left == Idx(l) && m[s].parent == Par(up) && m[s].color == c
      && Rep(m, s, l) && RepC(m, root, up, s)
  }

  ghost function AllSlots(ctx: Ctx, t: Tree): set<int> {
    SlotsC(ctx) + Slots(t)
  }

  /** The slab holds the tree t inside the context ctx, from the given root. */
  ghost predicate Whole(m: seq<Node>, root: int, ctx: Ctx, t: Tree) {
    && |m| <= NIL
    && RepC(m, root, ctx, Idx(t)) && Rep(m, Par(ctx), t)
    && DistinctC(ctx) && Distinct(t) && SlotsC(ctx) !! Slots(t)
  }

  // ----- frames -----

  lemma {:induction false} RepSlots(m: seq<Node>, p: int, t: Tree)
    requires Rep(m, p, t)
    ensures forall s :: s in Slots(t) ==> 0 <= s < |m|
    decreases t
  {
    match t
    case Leaf =>
    case Branch(l, s, _, r) =>
      RepSlots(m, s, l);
      RepSlots(m, s, r);
  }

  lemma {:induction false} RepCSlots(m: seq<Node>, root: int, ctx: Ctx, h: int)
    requires RepC(m, root, ctx, h)
    ensures forall s :: s in SlotsC(ctx) ==> 0 <= s < |m|
    decreases ctx
  {
    match ctx
    case Top =>
    case InLeft(up, s, _, r) => RepCSlots(m, root, up, s); RepSlots(m, s, r);
    case InRight(up, s, _, l) => RepCSlots(m, root, up, s); RepSlots(m, s, l);
  }

  lemma {:induction false} RepFrame(m: seq<Node>, m': seq<Node>, p: int, t: Tree)
    requires Rep(m, p, t) && |m'| == |m|
    requires forall s :: s in Slots(t) && 0 <= s < |m| ==> m'[s] == m[s]
    ensures Rep(m', p, t)
    decreases t
  {
    match t
    case Leaf =>
    case Branch(l, s, _, r) =>
      RepFrame(m, m', s, l);
      RepFrame(m, m', s, r);
  }

  lemma {:induction false} RepCFrame(m: seq<Node>, m': seq<Node>, root: int, ctx: Ctx, h: int)
    requires RepC(m, root, ctx, h) && |m'| == |m|
    requires forall s :: s in SlotsC(ctx) && 0 <= s < |m| ==> m'[s] == m[s]
    ensures RepC(m', root, ctx, h)
    decreases ctx
  {
    match ctx
    case Top =>
    case InLeft(up, s, _, r) => RepCFrame(m, m', root, up, s); RepFrame(m, m', s, r);
    case InRight(up, s, _, l) => RepCFrame(m, m', root, up, s); RepFrame(m, m', s, l);
  }

  /** A subtree moved under slot q: only its root's parent link changes. */
  lemma RepReparent(m: seq<Node>, m': seq<Node>, p: int, q: int, t: Tree)
    requires Rep(m, p, t) && Distinct(t) && |m'| == |m|
    requires forall s :: s in Slots(t) && s != Idx(t) && 0 <= s < |m| ==> m'[s] == m[s]
    requires t.Branch? ==> m'[t.slot] == m[t.slot].(parent := q)
    ensures Rep(m', q, t)
  {
    match t
    case Leaf =>
    case Branch(l, s, _, r) =>
      RepFrame(m, m', s, l);
      RepFrame(m, m', s, r);
  }

  /** What a write of child pointer h' over h does to the node above the hole. */
  ghost predicate Rehung(m: seq<Node>, m': seq<Node>, ctx: Ctx, h': int) {
    match ctx
    case Top => true
    case InLeft(_, s, _, _) => 0 <= s < |m| && |m'| == |m| && m'[s] == m[s].(left := h')
    case InRight(_, s, _, _) => 0 <= s < |m| && |m'| == |m| && m'[s] == m[s].(right := h')
  }

  lemma RepCRehang(m: seq<Node>, m': seq<Node>, root: int, root': int, ctx: Ctx, h: int, h': int)
    requires RepC(m, root, ctx, h) && DistinctC(ctx) && |m'| == |m|
    requires forall s :: s in SlotsC(ctx) && s != Par(ctx) && 0 <= s < |m| ==> m'[s] == m[s]
    requires Rehung(m, m', ctx, h')
    requires root' == if ctx.Top? then h' else root
    ensures RepC(m', root', ctx, h')
  {
    match ctx
    case Top =>
    case InLeft(up, s, _, r) => RepCFrame(m, m', root, up, s); RepFrame(m, m', s, r);
    case InRight(up, s, _, l) => RepCFrame(m, m', root, up, s); RepFrame(m, m', s, l);
  }

  // ----- moving the focus -----

  lemma ZoomLeft(m: seq<Node>, root: int, ctx: Ctx, t: Tree)
    requires t.Branch?
    ensures Whole(m, root, ctx, t) <==> Whole(m, root, InLeft(ctx, t.slot, t.color, t.right), t.left)
  {
  }

  lemma ZoomRight(m: seq<Node>, root: int, ctx: Ctx, t: Tree)
    requires t.Branch?
    ensures Whole(m, root, ctx, t) <==> Whole(m, root, InRight(ctx, t.slot, t.color, t.left), t.right)
  {
  }

  lemma {:induction false} PlugWhole(m: seq<Node>, root: int, ctx: Ctx, t: Tree)
    ensures Whole(m, root, Top, Plug(ctx, t)) <==> Whole(m, root, ctx, t)
    ensures Slots(Plug(ctx, t)) == AllSlots(ctx, t)
    decreases ctx
  {
    match ctx
    case Top =>
    case InLeft(up, s, c, r) =>
      PlugWhole(m, root, up, Branch(t, s, c, r));
      ZoomLeft(m, root, up, Branch(t, s, c, r));
    case InRight(up, s, c, l) =>
      PlugWhole(m, root, up, Branch(l, s, c, t));
      ZoomRight(m, root, up, Branch(l, s, c, t));
  }

  lemma WholeSlots(m: seq<Node>, root: int, ctx: Ctx, t: Tree)
    requires Whole(m, root, ctx, t)
    ensures forall s :: s in AllSlots(ctx, t) ==> 0 <= s < |m|
    ensures NIL !in AllSlots(ctx, t)
  {
    RepSlots(m, Par(ctx), t);
    RepCSlots(m, root, ctx, Idx(t));
  }

  /** A slab that agrees with m on the slots of the tree holds the same tree. */
  lemma WholeFrame(m: seq<Node>, m': seq<Node>, root: int, ctx: Ctx, t: Tree)
    requires Whole(m, root, ctx, t) && |m'| == |m|
    requires forall s :: s in AllSlots(ctx, t) && 0 <= s < |m| ==>
      m'[s].left == m[s].left && m'[s].right == m[s].right
      && m'[s].parent == m[s].parent && m'[s].color == m[s].color
    ensures Whole(m', root, ctx, t)
  {
    RepAgree(m, m', Par(ctx), t);
    RepCAgree(m, m', root, ctx, Idx(t));
  }

  lemma {:induction false} RepAgree(m: seq<Node>, m': seq<Node>, p: int, t: Tree)
    requires Rep(m, p, t) && |m'| == |m|
    requires forall s :: s in Slots(t) && 0 <= s < |m| ==>
      m'[s].left == m[s].left && m'[s].right == m[s].right
      && m'[s].parent == m[s].parent && m'[s].color == m[s].color
    ensures Rep(m', p, t)
    decreases t
  {
    match t
    case Leaf =>
    case Branch(l, s, _, r) =>
      RepAgree(m, m', s, l);
      RepAgree(m, m', s, r);
  }

  lemma {:induction false} RepCAgree(m: seq<Node>, m': seq<Node>, root: int, ctx: Ctx, h: int)
    requires RepC(m, root, ctx, h) && |m'| == |m|
    requires forall s :: s in SlotsC(ctx) && 0 <= s < |m| ==>
      m'[s].left == m[s].left && m'[s].right == m[s].right
      && m'[s].parent == m[s].parent && m'[s].color == m[s].color
    ensures RepC(m', root, ctx, h)
    decreases ctx
  {
    match ctx
    case Top =>
    case InLeft(up, s, _, r) => RepCAgree(m, m', root, up, s); RepAgree(m, m', s, r);
    case InRight(up, s, _, l) => RepCAgree(m, m', root, up, s); RepAgree(m, m', s, l);
  }

  // ----- recolouring -----

  /** SetColor at the focus repaints exactly that node. */
  lemma PaintWhole(m: seq<Node>, root: int, ctx: Ctx, t: Tree, c: Color)
    requires Whole(m, root, ctx, t) && t.Branch?
    ensures Link(m, t.slot)
    ensures Whole(SetColor(m, t.slot, c), root, ctx, t.(color := c))
    ensures Confined(m, SetColor(m, t.slot, c), AllSlots(ctx, t))
  {
    WholeSlots(m, root, ctx, t);
    var m' := SetColor(m, t.slot, c);
    RepFrame(m, m', t.slot, t.left);
    RepFrame(m, m', t.slot, t.right);
    RepCFrame(m, m', root, ctx, t.slot);
  }

  /** SetColor at the node just above the focus repaints exactly that node. */
  lemma PaintParent(m: seq<Node>, root: int, ctx: Ctx, t: Tree, c: Color)
    requires Whole(m, root, ctx, t) && !ctx.Top?
    ensures Link(m, ctx.slot)
    ensures Whole(SetColor(m, ctx.slot, c), root, ctx.(color := c), t)
    ensures Confined(m, SetColor(m, ctx.slot, c), AllSlots(ctx, t))
  {
    if ctx.InLeft? {
      var u := Branch(t, ctx.slot, ctx.color, ctx.sib);
      ZoomLeft(m, root, ctx.up, u);
      PaintWhole(m, root, ctx.up, u, c);
      ZoomLeft(SetColor(m, ctx.slot, c), root, ctx.up, u.(color := c));
    } else {
      var u := Branch(ctx.sib, ctx.slot, ctx.color, t);
      ZoomRight(m, root, ctx.up, u);
      PaintWhole(m, root, ctx.up, u, c);
      ZoomRight(SetColor(m, ctx.slot, c), root, ctx.up, u.(color := c));
    }
  }

  /** SetColor at the sibling of the focus repaints exactly that node. */
  lemma PaintSibling(m: seq<Node>, root: int, ctx: Ctx, t: Tree, c: Color)
    requires Whole(m, root, ctx, t) && !ctx.Top? && ctx.sib.Branch?
    ensures Link(m, ctx.sib.slot)
    ensures Whole(SetColor(m, ctx.sib.slot, c), root, ctx.(sib := ctx.sib.(color := c)), t)
    ensures Confined(m, SetColor(m, ctx.sib.slot, c), AllSlots(ctx, t))
  {
    if ctx.InLeft? {
      var u := Branch(t, ctx.slot, ctx.color, ctx.sib);
      ZoomLeft(m, root, ctx.up, u);
      ZoomRight(m, root, ctx.up, u);
      PaintWhole(m, root, InRight(ctx.up, ctx.slot, ctx.color, t), ctx.sib, c);
      var u' := u.(right := ctx.sib.(color := c));
      ZoomRight(SetColor(m, ctx.sib.slot, c), root, ctx.up, u');
      ZoomLeft(SetColor(m, ctx.sib.slot, c), root, ctx.up, u');
    } else {
      var u := Branch(ctx.sib, ctx.slot, ctx.color, t);
      ZoomRight(m, root, ctx.up, u);
      ZoomLeft(m, root, ctx.up, u);
      PaintWhole(m, root, InLeft(ctx.up, ctx.slot, ctx.color, t), ctx.sib, c);
      var u' := u.(left := ctx.sib.(color := c));
      ZoomLeft(SetColor(m, ctx.sib.slot, c), root, ctx.up, u');
      ZoomRight(SetColor(m, ctx.sib.slot, c), root, ctx.up, u');
    }
  }

  // ----- rotations -----

  /** The grandparent's child link g is turned to p. */
  function Rehang(m: seq<Node>, gg: int, g: int, p: int): (r: seq<Node>)
    requires Link(m, gg)
    ensures |r| == |m|
  {
    if gg == NIL then m
    else
      var a := if m[gg].left == g then SetLeft(m, gg, p) else m;
      if a[gg].right == g then SetRight(a, gg, p) else a
  }

  predicate CanRotateLeft(m: seq<Node>, g: int) {
    && 0 <= g < |m| && 0 <= m[g].right < |m|
    && Link(m, m[m[g].right].left) && Link(m, m[g].parent)
  }

  predicate CanRotateRight(m: seq<Node>, g: int) {
    && 0 <= g < |m| && 0 <= m[g].left < |m|
    && Link(m, m[m[g].left].right) && Link(m, m[g].parent)
  }

  function RotatedLeft(m: seq<Node>, g: int): (r: seq<Node>)
    requires CanRotateLeft(m, g)
    ensures |r| == |m|
  {
    var p := m[g].right;
    var y := m[p].left;
    var gg := m[g].parent;
    var m1 := m[p := m[p].(parent := gg, left := g)];
    var m2 := SetParent(m1, y, g);
    var m3 := m2[g := m2[g].(parent := p, right := y)];
    Rehang(m3, gg, g, p)
  }

  function RotatedRight(m: seq<Node>, g: int): (r: seq<Node>)
    requires CanRotateRight(m, g)
    ensures |r| == |m|
  {
    var p := m[g].left;
    var y := m[p].right;
    var gg := m[g].parent;
    var m1 := m[p := m[p].(parent := gg, right := g)];
    var m2 := SetParent(m1, y, g);
    var m3 := m2[g := m2[g].(parent := p, left := y)];
    Rehang(m3, gg, g, p)
  }

  /** The node above the hole has g on the hole's side only, so Rehang writes
      the hole's pointer. */
  lemma RehangIsRehung(m: seq<Node>, m3: seq<Node>, root: int, ctx: Ctx, g: int, p: int)
    requires RepC(m, root, ctx, g) && g !in SlotsC(ctx) && |m3| == |m| <= NIL
    requires 0 <= g < |m|
    requires !ctx.Top? ==> m3[ctx.slot] == m[ctx.slot]
    ensures Link(m3, Par(ctx))
    ensures Rehung(m, Rehang(m3, Par(ctx), g, p), ctx, p)
    ensures forall s :: 0 <= s < |m| && s != Par(ctx) ==> Rehang(m3, Par(ctx), g, p)[s] == m3[s]
    ensures forall s :: 0 <= s < |m| ==> Rehang(m3, Par(ctx), g, p)[s].value == m3[s].value
    ensures Rehang(m3, Par(ctx), g, p) == m3 || !ctx.Top?
  {
    if !ctx.Top? {
      assert ctx.sib.Branch? ==> ctx.sib.slot in SlotsC(ctx);
      assert Idx(ctx.sib) != g;
    }
  }

  /** Slot by slot, what a left rotation writes. */
  lemma RotateLeftWrites(m: seq<Node>, root: int, up: Ctx, l: Tree, g: int, cg: Color,
                         a: Tree, p: int, cp: Color, b: Tree)
    requires Whole(m, root, up, Branch(l, g, cg, Branch(a, p, cp, b)))
    ensures CanRotateLeft(m, g)
    ensures var m' := RotatedLeft(m, g);
      && m'[g] == m[g].(parent := p, right := Idx(a))
      && m'[p] == m[p].(parent := Par(up), left := g)
      && (a.Branch? ==> 0 <= a.slot < |m| && m'[a.slot] == m[a.slot].(parent := g))
      && Rehung(m, m', up, p)
      && (forall s :: 0 <= s < |m| && s !in {g, p, Idx(a), Par(up)} ==> m'[s] == m[s])
      && (forall s :: 0 <= s < |m| ==> m'[s].value == m[s].value)
  {
    var u := Branch(a, p, cp, b);
    var t := Branch(l, g, cg, u);
    assert Rep(m, g, u) && Distinct(u);
    WholeSlots(m, root, up, t);
    assert a.Branch? ==> a.slot in Slots(t);
    assert {g, p} <= Slots(t) && g != p && Idx(a) != g && Idx(a) != p;
    assert !up.Top? ==> up.slot in SlotsC(up);
    var m1 := m[p := m[p].(parent := Par(up), left := g)];
    var m2 := SetParent(m1, Idx(a), g);
    var m3 := m2[g := m2[g].(parent := p, right := Idx(a))];
    RehangIsRehung(m, m3, root, up, g, p);
  }

  lemma RotateRightWrites(m: seq<Node>, root: int, up: Ctx, a: Tree, p: int, cp: Color, b: Tree,
                          g: int, cg: Color, r: Tree)
    requires Whole(m, root, up, Branch(Branch(a, p, cp, b), g, cg, r))
    ensures CanRotateRight(m, g)
    ensures var m' := RotatedRight(m, g);
      && m'[g] == m[g].(parent := p, left := Idx(b))
      && m'[p] == m[p].(parent := Par(up), right := g)
      && (b.Branch? ==> 0 <= b.slot < |m| && m'[b.slot] == m[b.slot].(parent := g))
      && Rehung(m, m', up, p)
      && (forall s :: 0 <= s < |m| && s !in {g, p, Idx(b), Par(up)} ==> m'[s] == m[s])
      && (forall s :: 0 <= s < |m| ==> m'[s].value == m[s].value)
  {
    var u := Branch(a, p, cp, b);
    var t := Branch(u, g, cg, r);
    assert Rep(m, g, u) && Distinct(u);
    WholeSlots(m, root, up, t);
    assert b.Branch? ==> b.slot in Slots(t);
    assert {g, p} <= Slots(t) && g != p && Idx(b) != g && Idx(b) != p;
    assert !up.Top? ==> up.slot in SlotsC(up);
    var m1 := m[p := m[p].(parent := Par(up), right := g)];
    var m2 := SetParent(m1, Idx(b), g);
    var m3 := m2[g := m2[g].(parent := p, left := Idx(b))];
    RehangIsRehung(m, m3, root, up, g, p);
  }

  /** Rotating keeps the slots, and their distinctness. */
  lemma RotationSlots(l: Tree, g: int, cg: Color, a: Tree, p: int, cp: Color, b: Tree)
    ensures var t, t' := Branch(l, g, cg, Branch(a, p, cp, b)), Branch(Branch(l, g, cg, a), p, cp, b);
      && Slots(t) == Slots(t')
      && (Distinct(t) <==> Distinct(t'))
      && (Distinct(t) ==>
            && g != p && Distinct(a)
            && {g, p} !! (Slots(l) + Slots(a) + Slots(b))
            && Slots(l) !! Slots(a) && Slots(a) !! Slots(b))
  {
    var u, u' := Branch(a, p, cp, b), Branch(l, g, cg, a);
    assert Slots(u) == Slots(a) + {p} + Slots(b);
    assert Slots(u') == Slots(l) + {g} + Slots(a);
    assert Distinct(u) <==> Distinct(a) && Distinct(b) && p !in Slots(a) && p !in Slots(b) && Slots(a) !! Slots(b);
    assert Distinct(u') <==> Distinct(l) && Distinct(a) && g !in Slots(l) && g !in Slots(a) && Slots(l) !! Slots(a);
  }

  /** The rotated pieces are in place. */
  lemma RotateLeftPlaced(m: seq<Node>, root: int, up: Ctx, l: Tree, g: int, cg: Color,
                         a: Tree, p: int, cp: Color, b: Tree)
    requires Whole(m, root, up, Branch(l, g, cg, Branch(a, p, cp, b)))
    ensures CanRotateLeft(m, g) && (root == g <==> up.Top?)
    ensures var m' := RotatedLeft(m, g);
      && Rep(m', Par(up), Branch(Branch(l, g, cg, a), p, cp, b))
      && RepC(m', if root == g then p else root, up, p)
      && Confined(m, m', AllSlots(up, Branch(l, g, cg, Branch(a, p, cp, b))))
  {
    var u := Branch(a, p, cp, b);
    var t := Branch(l, g, cg, u);
    assert Rep(m, g, u);
    RotationSlots(l, g, cg, a, p, cp, b);
    RotateLeftWrites(m, root, up, l, g, cg, a, p, cp, b);
    RootAtTop(m, root, up, g);
    var m' := RotatedLeft(m, g);
    RotatedPieces(m, m', root, up, g, p, l, a, b, g, p);
    assert Rep(m', p, Branch(l, g, cg, a));
    RotationConfined(m, m', up, t, g, p, a);
  }

  lemma RotateRightPlaced(m: seq<Node>, root: int, up: Ctx, a: Tree, p: int, cp: Color, b: Tree,
                          g: int, cg: Color, r: Tree)
    requires Whole(m, root, up, Branch(Branch(a, p, cp, b), g, cg, r))
    ensures CanRotateRight(m, g) && (root == g <==> up.Top?)
    ensures var m' := RotatedRight(m, g);
      && Rep(m', Par(up), Branch(a, p, cp, Branch(b, g, cg, r)))
      && RepC(m', if root == g then p else root, up, p)
      && Confined(m, m', AllSlots(up, Branch(Branch(a, p, cp, b), g, cg, r)))
  {
    var u := Branch(a, p, cp, b);
    var t := Branch(u, g, cg, r);
    assert Rep(m, g, u);
    RotationSlots(a, p, cp, b, g, cg, r);
    RotateRightWrites(m, root, up, a, p, cp, b, g, cg, r);
    RootAtTop(m, root, up, g);
    var m' := RotatedRight(m, g);
    RotatedPieces(m, m', root, up, g, p, r, b, a, g, p);
    assert Rep(m', p, Branch(b, g, cg, r));
    RotationConfined(m, m', up, t, g, p, b);
  }

  /** A left rotation at g turns l-g-(a-p-b) into (l-g-a)-p-b in place. */
  lemma RotateLeftWhole(m: seq<Node>, root: int, up: Ctx, l: Tree, g: int, cg: Color,
                        a: Tree, p: int, cp: Color, b: Tree)
    requires Whole(m, root, up, Branch(l, g, cg, Branch(a, p, cp, b)))
    ensures CanRotateLeft(m, g)
    ensures Whole(RotatedLeft(m, g), if root == g then p else root, up,
                  Branch(Branch(l, g, cg, a), p, cp, b))
    ensures Confined(m, RotatedLeft(m, g), AllSlots(up, Branch(l, g, cg, Branch(a, p, cp, b))))
    ensures AllSlots(up, Branch(Branch(l, g, cg, a), p, cp, b))
         == AllSlots(up, Branch(l, g, cg, Branch(a, p, cp, b)))
    ensures root == g <==> up.Top?
  {
    RotationSlots(l, g, cg, a, p, cp, b);
    RotateLeftPlaced(m, root, up, l, g, cg, a, p, cp, b);
    hide Rep, RepC, Distinct, Slots, CanRotateLeft, RotatedLeft;
  }

  /** A right rotation at g turns (a-p-b)-g-r into a-p-(b-g-r) in place. */
  lemma RotateRightWhole(m: seq<Node>, root: int, up: Ctx, a: Tree, p: int, cp: Color, b: Tree,
                         g: int, cg: Color, r: Tree)
    requires Whole(m, root, up, Branch(Branch(a, p, cp, b), g, cg, r))
    ensures CanRotateRight(m, g)
    ensures Whole(RotatedRight(m, g), if root == g then p else root, up,
                  Branch(a, p, cp, Branch(b, g, cg, r)))
    ensures Confined(m, RotatedRight(m, g), AllSlots(up, Branch(Branch(a, p, cp, b), g, cg, r)))
    ensures AllSlots(up, Branch(a, p, cp, Branch(b, g, cg, r)))
         == AllSlots(up, Branch(Branch(a, p, cp, b), g, cg, r))
    ensures root == g <==> up.Top?
  {
    RotationSlots(a, p, cp, b, g, cg, r);
    RotateRightPlaced(m, root, up, a, p, cp, b, g, cg, r);
    hide Rep, RepC, Distinct, Slots, CanRotateRight, RotatedRight;
  }

  lemma RotationConfined(m: seq<Node>, m': seq<Node>, up: Ctx, t: Tree, g: int, p: int, middle: Tree)
    requires |m'| == |m|
    requires {g, p} + Slots(middle) <= Slots(t)
    requires |m| <= NIL
    requires forall s :: 0 <= s < |m| && s !in {g, p, Idx(middle), Par(up)} ==> m'[s] == m[s]
    requires forall s :: 0 <= s < |m| ==> m'[s].value == m[s].value
    ensures Confined(m, m', AllSlots(up, t))
  {
    assert !up.Top? ==> up.slot in SlotsC(up);
    assert middle.Branch? ==> middle.slot in Slots(middle);
  }

  /** The parts a rotation of p over g carries along: the outer subtree of g, the
      middle subtree (from p to g), the outer subtree of p, and the context. */
  lemma RotatedPieces(m: seq<Node>, m': seq<Node>, root: int, up: Ctx, g: int, p: int,
                      outerG: Tree, middle: Tree, outerP: Tree, gp: int, pp: int)
    requires |m'| == |m| <= NIL && g != p
    requires Rep(m, gp, outerG) && Rep(m, pp, middle) && Rep(m, pp, outerP)
    requires RepC(m, root, up, g) && DistinctC(up) && Distinct(middle)
    requires {g, p} !! (Slots(outerG) + Slots(middle) + Slots(outerP) + SlotsC(up))
    requires Slots(outerG) !! Slots(middle) && Slots(middle) !! Slots(outerP)
    requires SlotsC(up) !! Slots(outerG) + Slots(middle) + Slots(outerP)
    requires middle.Branch? ==> 0 <= middle.slot < |m| && m'[middle.slot] == m[middle.slot].(parent := g)
    requires Rehung(m, m', up, p)
    requires forall s :: 0 <= s < |m| && s !in {g, p, Idx(middle), Par(up)} ==> m'[s] == m[s]
    ensures Rep(m', gp, outerG) && Rep(m', g, middle) && Rep(m', pp, outerP)
    ensures RepC(m', if up.Top? then p else root, up, p)
  {
    RepSlots(m, gp, outerG);
    RepSlots(m, pp, outerP);
    assert !up.Top? ==> up.slot in SlotsC(up);
    assert middle.Branch? ==> middle.slot in Slots(middle);
    RepFrame(m, m', gp, outerG);
    RepReparent(m, m', pp, g, middle);
    RepFrame(m, m', pp, outerP);
    RepCRehang(m, m', root, if up.Top? then p else root, up, g, p);
  }

  /** The root of a context is its outermost slot. */
  lemma {:induction false} RootInContext(m: seq<Node>, root: int, ctx: Ctx, h: int)
    requires RepC(m, root, ctx, h)
    ensures if ctx.Top? then root == h else root in SlotsC(ctx)
    decreases ctx
  {
    match ctx
    case Top =>
    case InLeft(up, s, _, _) => RootInContext(m, root, up, s);
    case InRight(up, s, _, _) => RootInContext(m, root, up, s);
  }

  lemma RootAtTop(m: seq<Node>, root: int, ctx: Ctx, h: int)
    requires RepC(m, root, ctx, h) && h !in SlotsC(ctx)
    ensures root == h <==> ctx.Top?
  {
    RootInContext(m, root, ctx, h);
  }

  // ----- taking out a node with at most one child -----

  /** is_left_child against the root index. */
  predicate IsLeftChild(m: seq<Node>, root: int, i: int)
    requires Link(m, i) && (i != NIL ==> Link(m, m[i].parent))
  {
    i != root && GetLeft(m, GetParent(m, i)) == i
  }

  predicate IsRightChild(m: seq<Node>, root: int, i: int)
    requires Link(m, i) && (i != NIL ==> Link(m, m[i].parent))
  {
    i != root && GetRight(m, GetParent(m, i)) == i
  }

  /** The side of the focus under its parent is the side of the context. */
  lemma ChildSide(m: seq<Node>, root: int, ctx: Ctx, t: Tree)
    requires Whole(m, root, ctx, t) && t.Branch?
    ensures 0 <= t.slot < |m| && m[t.slot].parent == Par(ctx) && Link(m, Par(ctx))
    ensures IsLeftChild(m, root, t.slot) <==> ctx.InLeft?
    ensures IsRightChild(m, root, t.slot) <==> ctx.InRight?
    ensures root == t.slot <==> ctx.Top?
  {
    RootAtTop(m, root, ctx, t.slot);
    if !ctx.Top? {
      assert ctx.sib.Branch? ==> ctx.sib.slot in SlotsC(ctx);
      assert Idx(ctx.sib) != t.slot;
    }
  }

  function OnlyChild(m: seq<Node>, i: int): int
    requires 0 <= i < |m|
  {
    if m[i].left != NIL then m[i].left else m[i].right
  }

  predicate CanSplice(m: seq<Node>, i: int) {
    0 <= i < |m| <= NIL && Link(m, OnlyChild(m, i)) && Link(m, m[i].parent)
  }

  function Spliced(m: seq<Node>, root: int, i: int): (r: seq<Node>)
    requires CanSplice(m, i)
    ensures |r| == |m|
  {
    var child := OnlyChild(m, i);
    var parent := m[i].parent;
    var m1 := SetParent(m, child, parent);
    if i != root && GetLeft(m1, GetParent(m1, i)) == i then SetLeft(m1, parent, child)
    else SetRight(m1, parent, child)
  }

  lemma SpliceWhole(m: seq<Node>, root: int, ctx: Ctx, t: Tree, u: Tree)
    requires Whole(m, root, ctx, t) && t.Branch?
    requires (t.left == Leaf && u == t.right) || (t.right == Leaf && u == t.left)
    ensures CanSplice(m, t.slot)
    ensures OnlyChild(m, t.slot) == Idx(u)
    ensures Whole(Spliced(m, root, t.slot), if root == t.slot then Idx(u) else root, ctx, u)
    ensures Confined(m, Spliced(m, root, t.slot), AllSlots(ctx, t))
    ensures Spliced(m, root, t.slot)[t.slot] == m[t.slot]
  {
    WholeSlots(m, root, ctx, t);
    ChildSide(m, root, ctx, t);
    var i := t.slot;
    assert u.Branch? ==> u.slot in Slots(t);
    assert !ctx.Top? ==> ctx.slot in SlotsC(ctx);
    var m' := Spliced(m, root, i);
    RepReparent(m, m', i, Par(ctx), u);
    RepCRehang(m, m', root, if root == i then Idx(u) else root, ctx, i, Idx(u));
  }
}
