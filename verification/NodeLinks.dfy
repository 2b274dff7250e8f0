/** The one-time validation of a book that returns from outside: node links are
    raw byte offsets here, and nothing about them is trusted. The check is exact:
    it accepts an account when, and only when, its links spell out three trees and
    a free list that share no slot. */
module NodeLinks {
  import opened Arithmetic
  import opened Nodes
  import opened Trees
  import opened TreeRep
  import opened TreeReads
  import opened TreeKeys
  import opened NodeSwap
  import opened FreeLists
  import opened Wrappers
  import opened BookSpec
  import opened BookLayout

  const MARKET_BOOK_PREFIX_BYTES := 264

  datatype RawNode = RawNode(left: nat, right: nat, parent: nat, color: nat)

  datatype RawHeader = RawHeader(
    bidsRoot: nat, bidsBest: nat, asksRoot: nat, asksBest: nat,
    seatsRoot: nat, freeHead: nat, numBytesAllocated: nat)

  /** NIL, or the aligned offset of a whole node of the slab. */
  predicate ValidOffset(off: nat, nodeCount: nat) {
    off == NIL || (off % NODE_TOTAL_BYTES == 0 && off + NODE_TOTAL_BYTES <= nodeCount * NODE_TOTAL_BYTES)
  }

  predicate ValidNode(n: RawNode, nodeCount: nat) {
    && ValidOffset(n.left, nodeCount) && ValidOffset(n.right, nodeCount) && ValidOffset(n.parent, nodeCount)
    && n.color <= 1
  }

  function SlotOf(off: nat): int {
    if off == NIL then NIL else off / NODE_TOTAL_BYTES
  }

  function OffsetOf(slot: int): nat
    requires slot >= 0
  {
    if slot == NIL then NIL else slot * NODE_TOTAL_BYTES
  }

  function Decode(n: RawNode): Node {
    Node(SlotOf(n.left), SlotOf(n.right), SlotOf(n.parent), if n.color == 1 then Red else Black, ZeroOrder)
  }

  ghost function DecodeAll(nodes: seq<RawNode>): (m: seq<Node>)
    ensures |m| == |nodes| && forall i :: 0 <= i < |m| ==> m[i] == Decode(nodes[i])
  {
    seq(|nodes|, i requires 0 <= i < |nodes| => Decode(nodes[i]))
  }

  /** Every link of every slot can be followed or is NIL. */
  ghost predicate LinksOk(m: seq<Node>) {
    |m| <= NIL && forall i :: 0 <= i < |m| ==> Link(m, m[i].left) && Link(m, m[i].right) && Link(m, m[i].parent)
  }

  // ----- the depth-first walk as a function -----

  function Pushed(x: int): seq<int> {
    if x == NIL then [] else [x]
  }

  ghost predicate Symmetric(m: seq<Node>, x: int)
    requires LinksOk(m) && 0 <= x < |m|
  {
    && (m[x].left != NIL ==> m[m[x].left].parent == x)
    && (m[x].right != NIL ==> m[m[x].right].parent == x)
  }

  ghost predicate InRange(m: seq<Node>, stack: seq<int>) {
    forall i :: 0 <= i < |stack| ==> 0 <= stack[i] < |m|
  }

  /** Pop a slot, take it from avail, push its children; None when a slot is met
      that is not available or whose children do not point back. */
  ghost function Dfs(m: seq<Node>, stack: seq<int>, avail: set<int>): Option<set<int>>
    requires LinksOk(m) && InRange(m, stack)
    decreases |avail|, |stack|
  {
    if stack == [] then Some(avail)
    else
      var x := stack[|stack| - 1];
      if x !in avail || !Symmetric(m, x) then None
      else Dfs(m, stack[..|stack| - 1] + Pushed(m[x].left) + Pushed(m[x].right), avail - {x})
  }

  /** Trees for the slots of a stack, each taking its slots from avail, the last
      one first. */
  ghost predicate Forest(m: seq<Node>, stack: seq<int>, ts: seq<Tree>, avail: set<int>)
    decreases |stack|
  {
    && |ts| == |stack|
    && (stack == [] ||
        var n := |stack| - 1;
        && ts[n].Branch? && ts[n].slot == stack[n] && 0 <= stack[n] < |m|
        && Rep(m, m[stack[n]].parent, ts[n]) && Distinct(ts[n]) && Slots(ts[n]) <= avail
        && Forest(m, stack[..n], ts[..n], avail - Slots(ts[n])))
  }

  ghost function Remainder(ts: seq<Tree>, avail: set<int>): set<int>
    decreases |ts|
  {
    if ts == [] then avail else Remainder(ts[..|ts| - 1], avail - Slots(ts[|ts| - 1]))
  }

  ghost function Planted(t: Tree): seq<Tree> {
    if t.Leaf? then [] else [t]
  }

  /** The tree is in the slab and takes its slots from avail. */
  ghost predicate Fits(m: seq<Node>, t: Tree, avail: set<int>) {
    t.Branch? ==>
      0 <= t.slot < |m| && Rep(m, m[t.slot].parent, t) && Distinct(t) && Slots(t) <= avail
  }

  /** One more tree on top of the stack, or none for NIL. */
  lemma ForestPush(m: seq<Node>, stack: seq<int>, ts: seq<Tree>, t: Tree, avail: set<int>)
    requires |ts| == |stack| && |m| <= NIL
    requires t.Branch? ==> t.slot != NIL
    ensures Forest(m, stack + Pushed(Idx(t)), ts + Planted(t), avail)
       <==> Fits(m, t, avail) && Forest(m, stack, ts, avail - Slots(t))
    ensures Remainder(ts + Planted(t), avail) == Remainder(ts, avail - Slots(t))
  {
    if t.Leaf? {
      assert stack + Pushed(Idx(t)) == stack && ts + Planted(t) == ts;
      assert avail - Slots(t) == avail;
    } else {
      var s1, ts1 := stack + [t.slot], ts + [t];
      assert s1[..|s1| - 1] == stack && ts1[..|ts1| - 1] == ts;
    }
  }

  /** A tree fits when its root does and then, in turn, its right and left subtrees. */
  lemma FitsUnfold(m: seq<Node>, l: Tree, x: int, r: Tree, avail: set<int>)
    requires LinksOk(m) && 0 <= x < |m| && m[x].left == Idx(l) && m[x].right == Idx(r)
    requires l.Branch? ==> l.slot != NIL
    requires r.Branch? ==> r.slot != NIL
    ensures Fits(m, Branch(l, x, m[x].color, r), avail) <==>
            x in avail && Symmetric(m, x) && Fits(m, r, avail - {x}) && Fits(m, l, avail - {x} - Slots(r))
  {
    var t := Branch(l, x, m[x].color, r);
    assert Slots(t) == Slots(l) + {x} + Slots(r);
    assert l.Branch? ==> l.slot in Slots(l);
    assert r.Branch? ==> r.slot in Slots(r);
    if Fits(m, t, avail) {
      assert Rep(m, x, l) && Rep(m, x, r);
      assert Distinct(l) && Distinct(r) && Slots(l) !! Slots(r) && x !in Slots(l) && x !in Slots(r);
    }
    if x in avail && Symmetric(m, x) && Fits(m, r, avail - {x}) && Fits(m, l, avail - {x} - Slots(r)) {
      assert Rep(m, x, l) && Rep(m, x, r);
      assert Distinct(l) && Distinct(r) && Slots(l) !! Slots(r) && x !in Slots(l) && x !in Slots(r);
      assert Rep(m, m[x].parent, t) && Distinct(t) && Slots(t) <= avail;
    }
  }

  /** A forest is available when the top root is, and its subtrees are after it. */
  lemma ForestUnfold(m: seq<Node>, rest: seq<int>, ts: seq<Tree>, l: Tree, x: int, r: Tree, avail: set<int>)
    requires LinksOk(m) && 0 <= x < |m| && |ts| == |rest|
    requires m[x].left == Idx(l) && m[x].right == Idx(r)
    requires l.Branch? ==> l.slot != NIL
    requires r.Branch? ==> r.slot != NIL
    ensures Forest(m, rest + [x], ts + [Branch(l, x, m[x].color, r)], avail) <==>
            && x in avail && Symmetric(m, x)
            && Forest(m, rest + Pushed(m[x].left) + Pushed(m[x].right), ts + Planted(l) + Planted(r), avail - {x})
    ensures Remainder(ts + [Branch(l, x, m[x].color, r)], avail)
         == Remainder(ts + Planted(l) + Planted(r), avail - {x})
  {
    var t := Branch(l, x, m[x].color, r);
    ForestPush(m, rest, ts, t, avail);
    ForestPush(m, rest, ts, l, avail - {x} - Slots(r));
    ForestPush(m, rest + Pushed(m[x].left), ts + Planted(l), r, avail - {x});
    FitsUnfold(m, l, x, r, avail);
    assert avail - {x} - Slots(r) - Slots(l) == avail - Slots(t);
  }

  function Next(m: seq<Node>, stack: seq<int>): seq<int>
    requires stack != [] && 0 <= stack[|stack| - 1] < |m|
  {
    var x := stack[|stack| - 1];
    stack[..|stack| - 1] + Pushed(m[x].left) + Pushed(m[x].right)
  }

  lemma NextInRange(m: seq<Node>, stack: seq<int>)
    requires LinksOk(m) && InRange(m, stack) && stack != []
    ensures InRange(m, Next(m, stack))
  {
  }

  lemma DfsUnfold(m: seq<Node>, stack: seq<int>, avail: set<int>)
    requires LinksOk(m) && InRange(m, stack) && stack != []
    ensures InRange(m, Next(m, stack))
    ensures var x := stack[|stack| - 1];
      Dfs(m, stack, avail) == if x in avail && Symmetric(m, x) then Dfs(m, Next(m, stack), avail - {x}) else None
  {
    NextInRange(m, stack);
  }

  /** When the walk succeeds, what it walked was a forest. */
  lemma {:induction false} DfsSound(m: seq<Node>, stack: seq<int>, avail: set<int>) returns (ts: seq<Tree>)
    requires LinksOk(m) && InRange(m, stack) && Dfs(m, stack, avail).Some?
    ensures Forest(m, stack, ts, avail)
    ensures Dfs(m, stack, avail).value == Remainder(ts, avail)
    decreases |avail|, |stack|
  {
    if stack == [] {
      ts := [];
    } else {
      var x, rest := stack[|stack| - 1], stack[..|stack| - 1];
      DfsUnfold(m, stack, avail);
      assert Dfs(m, stack, avail) == Dfs(m, Next(m, stack), avail - {x});
      assert stack == rest + [x];
      var ts' := DfsSound(m, Next(m, stack), avail - {x});
      ts := Regrow(m, rest, x, ts', avail);
    }
  }

  /** The top three of a forest, joined into one tree. */
  lemma Regrow(m: seq<Node>, rest: seq<int>, x: int, ts': seq<Tree>, avail: set<int>) returns (ts: seq<Tree>)
    requires LinksOk(m) && 0 <= x < |m| && x in avail && Symmetric(m, x)
    requires Forest(m, rest + Pushed(m[x].left) + Pushed(m[x].right), ts', avail - {x})
    ensures Forest(m, rest + [x], ts, avail)
    ensures Remainder(ts, avail) == Remainder(ts', avail - {x})
  {
    var tsR, r := SplitTop(m, rest + Pushed(m[x].left), m[x].right, ts', avail - {x});
    var ts0, l := SplitTop(m, rest, m[x].left, tsR, avail - {x} - Slots(r));
    ForestUnfold(m, rest, ts0, l, x, r, avail);
    ts := ts0 + [Branch(l, x, m[x].color, r)];
  }

  /** Read the top tree of a forest back, Leaf for NIL. */
  lemma SplitTop(m: seq<Node>, stack: seq<int>, x: int, ts: seq<Tree>, avail: set<int>)
    returns (ts0: seq<Tree>, t: Tree)
    requires Forest(m, stack + Pushed(x), ts, avail)
    ensures ts == ts0 + Planted(t) && |ts0| == |stack| && Idx(t) == x
    ensures t.Branch? ==> t.slot != NIL
    ensures Forest(m, stack, ts0, avail - Slots(t))
  {
    if x == NIL {
      ts0, t := ts, Leaf;
      assert stack + Pushed(x) == stack && avail - Slots(Leaf) == avail;
      assert ts + Planted(Leaf) == ts;
    } else {
      var s1 := stack + [x];
      ts0, t := ts[..|ts| - 1], ts[|ts| - 1];
      assert s1[..|s1| - 1] == stack;
    }
  }

  /** A forest is always walked through. */
  lemma {:induction false} DfsComplete(m: seq<Node>, stack: seq<int>, ts: seq<Tree>, avail: set<int>)
    requires LinksOk(m) && InRange(m, stack) && Forest(m, stack, ts, avail)
    ensures Dfs(m, stack, avail) == Some(Remainder(ts, avail))
    decreases |avail|, |stack|
  {
    if stack != [] {
      var n := |stack| - 1;
      var x, rest, t, ts0 := stack[n], stack[..n], ts[n], ts[..n];
      assert stack == rest + [x] && ts == ts0 + [t];
      TopSubtrees(m, t);
      ForestUnfold(m, rest, ts0, t.left, x, t.right, avail);
      DfsUnfold(m, stack, avail);
      DfsComplete(m, Next(m, stack), ts0 + Planted(t.left) + Planted(t.right), avail - {x});
    }
  }

  lemma TopSubtrees(m: seq<Node>, t: Tree)
    requires |m| <= NIL && t.Branch? && 0 <= t.slot < |m| && Rep(m, m[t.slot].parent, t)
    ensures m[t.slot].left == Idx(t.left) && m[t.slot].right == Idx(t.right) && m[t.slot].color == t.color
    ensures t.left.Branch? ==> t.left.slot != NIL
    ensures t.right.Branch? ==> t.right.slot != NIL
  {
    assert Rep(m, t.slot, t.left) && Rep(m, t.slot, t.right);
  }

  // ----- what the validator accepts -----

  lemma DecodedLinksOk(nodes: seq<RawNode>)
    requires |nodes| <= NIL && forall i :: 0 <= i < |nodes| ==> ValidNode(nodes[i], |nodes|)
    ensures LinksOk(DecodeAll(nodes))
  {
    var m := DecodeAll(nodes);
    forall i | 0 <= i < |m|
      ensures Link(m, m[i].left) && Link(m, m[i].right) && Link(m, m[i].parent)
    {
      assert ValidNode(nodes[i], |nodes|);
    }
  }

  lemma OffsetInjective(a: nat, b: nat, nodeCount: nat)
    requires ValidOffset(a, nodeCount) && ValidOffset(b, nodeCount) && nodeCount <= NIL
    ensures SlotOf(a) == SlotOf(b) <==> a == b
    ensures SlotOf(a) == NIL <==> a == NIL
    ensures OffsetOf(SlotOf(a)) == a
  {
  }

  /** From a raw root, the slab holds the tree t within avail. */
  ghost predicate Rooted(nodes: seq<RawNode>, root: nat, t: Tree, avail: set<int>) {
    ValidOffset(root, |nodes|) && Whole(DecodeAll(nodes), SlotOf(root), Top, t) && Slots(t) <= avail
  }

  /** From cur, the links spell out the list; each slot is taken from avail once. */
  ghost predicate Chain(m: seq<Node>, cur: int, list: seq<int>, avail: set<int>)
    decreases |list|
  {
    if list == [] then cur == NIL
    else cur == list[0] && 0 <= cur < |m| && cur in avail && Chain(m, m[cur].left, list[1..], avail - {cur})
  }

  /** From a raw head, the slab holds the free list within avail. */
  ghost predicate Chained(nodes: seq<RawNode>, head: nat, list: seq<int>, avail: set<int>) {
    ValidOffset(head, |nodes|) && Chain(DecodeAll(nodes), SlotOf(head), list, avail)
  }

  /** The three roots lead to trees that share no slot. */
  ghost predicate ThreeTrees(nodes: seq<RawNode>, h: RawHeader, t1: Tree, t2: Tree, t3: Tree) {
    && Rooted(nodes, h.bidsRoot, t1, Below(|nodes|))
    && Rooted(nodes, h.asksRoot, t2, Below(|nodes|) - Slots(t1))
    && Rooted(nodes, h.seatsRoot, t3, Below(|nodes|) - Slots(t1) - Slots(t2))
  }

  ghost function Spare(nodeCount: nat, t1: Tree, t2: Tree, t3: Tree): set<int> {
    Below(nodeCount) - Slots(t1) - Slots(t2) - Slots(t3)
  }

  ghost predicate BestsOk(h: RawHeader, t1: Tree, t2: Tree) {
    h.bidsBest == OffsetOf(First0(t1)) && h.asksBest == OffsetOf(First0(t2))
  }

  /** The bump pointer stays in the slab and covers every slot in use. */
  ghost predicate BumpOk(h: RawHeader, nodeCount: nat, used: set<int>) {
    && h.numBytesAllocated % NODE_TOTAL_BYTES == 0
    && h.numBytesAllocated <= nodeCount * NODE_TOTAL_BYTES
    && used <= Below(h.numBytesAllocated / NODE_TOTAL_BYTES)
  }

  /** The account's links spell out the trees t1, t2, t3 and the free list. */
  ghost predicate Accepted(accountLen: nat, h: RawHeader, nodes: seq<RawNode>,
                           t1: Tree, t2: Tree, t3: Tree, list: seq<int>) {
    && accountLen == MARKET_BOOK_PREFIX_BYTES + |nodes| * NODE_TOTAL_BYTES
    && (forall i :: 0 <= i < |nodes| ==> ValidNode(nodes[i], |nodes|))
    && ThreeTrees(nodes, h, t1, t2, t3) && BestsOk(h, t1, t2)
    && Chained(nodes, h.freeHead, list, Spare(|nodes|, t1, t2, t3))
    && BumpOk(h, |nodes|, Slots(t1) + Slots(t2) + Slots(t3) + FreeSet(list))
  }

  /** The leftmost slot of a tree that the slab holds. */
  ghost function First0(t: Tree): (r: nat) {
    if First(Inorder(t)) < 0 then NIL else First(Inorder(t))
  }

  /** A root determines its tree. */
  lemma {:induction false} RepUnique(m: seq<Node>, p: int, t: Tree, t': Tree)
    requires |m| <= NIL && Rep(m, p, t) && Rep(m, p, t') && Idx(t) == Idx(t')
    ensures t == t'
    decreases t
  {
    match t
    case Leaf =>
    case Branch(l, s, _, r) =>
      RepUnique(m, s, l, t'.left);
      RepUnique(m, s, r, t'.right);
  }

  lemma RootedUnique(nodes: seq<RawNode>, root: nat, t: Tree, t': Tree, avail: set<int>, avail': set<int>)
    requires Rooted(nodes, root, t, avail) && Rooted(nodes, root, t', avail')
    ensures t == t'
  {
    RepUnique(DecodeAll(nodes), NIL, t, t');
  }

  // ----- the pass over all links -----

  method CheckLinks(nodes: seq<RawNode>) returns (ok: bool)
    ensures ok <==> forall i :: 0 <= i < |nodes| ==> ValidNode(nodes[i], |nodes|)
  {
    for i := 0 to |nodes|
      invariant forall j :: 0 <= j < i ==> ValidNode(nodes[j], |nodes|)
    {
      if !ValidOffset(nodes[i].left, |nodes|) || !ValidOffset(nodes[i].right, |nodes|)
         || !ValidOffset(nodes[i].parent, |nodes|) {
        return false;
      }
      if nodes[i].color > 1 {
        return false;
      }
    }
    return true;
  }

  // ----- the walk of one tree -----

  ghost function Unvisited(v: seq<bool>): (r: set<int>)
    ensures forall i :: i in r <==> 0 <= i < |v| && !v[i]
  {
    set i | 0 <= i < |v| && !v[i]
  }

  lemma UnvisitedMark(v: seq<bool>, i: nat)
    requires i < |v|
    ensures Unvisited(v[i := true]) == Unvisited(v) - {i}
  {
  }

  ghost function SlotsOf(stack: seq<nat>): (r: seq<int>)
    ensures |r| == |stack| && forall i :: 0 <= i < |stack| ==> r[i] == stack[i] / NODE_TOTAL_BYTES
  {
    seq(|stack|, i requires 0 <= i < |stack| => stack[i] / NODE_TOTAL_BYTES)
  }

  ghost predicate StackOk(stack: seq<nat>, nodeCount: nat) {
    forall i :: 0 <= i < |stack| ==> stack[i] != NIL && ValidOffset(stack[i], nodeCount)
  }

  /** A child offset is pushed unless it is NIL; it must point back at off. */
  lemma PushChild(nodes: seq<RawNode>, stack: seq<nat>, child: nat)
    requires |nodes| <= NIL && StackOk(stack, |nodes|) && ValidOffset(child, |nodes|)
    ensures var stack' := if child == NIL then stack else stack + [child];
      StackOk(stack', |nodes|) && SlotsOf(stack') == SlotsOf(stack) + Pushed(SlotOf(child))
    ensures child != NIL ==> 0 <= SlotOf(child) < |nodes|
  {
    var stack' := if child == NIL then stack else stack + [child];
    assert SlotsOf(stack') == SlotsOf(stack) + Pushed(SlotOf(child));
  }

  /** What the symmetry checks on raw offsets decide. */
  lemma SymmetryRead(nodes: seq<RawNode>, off: nat)
    requires |nodes| <= NIL && (forall i :: 0 <= i < |nodes| ==> ValidNode(nodes[i], |nodes|))
    requires off != NIL && ValidOffset(off, |nodes|)
    ensures LinksOk(DecodeAll(nodes))
    ensures var m, x := DecodeAll(nodes), off / NODE_TOTAL_BYTES;
      && 0 <= x < |nodes|
      && m[x].left == SlotOf(nodes[x].left) && m[x].right == SlotOf(nodes[x].right)
      && (nodes[x].left != NIL ==> SlotOf(nodes[x].left) < |nodes|)
      && (nodes[x].right != NIL ==> SlotOf(nodes[x].right) < |nodes|)
      && (Symmetric(m, x) <==>
            && (nodes[x].left != NIL ==> nodes[SlotOf(nodes[x].left)].parent == off)
            && (nodes[x].right != NIL ==> nodes[SlotOf(nodes[x].right)].parent == off))
  {
    DecodedLinksOk(nodes);
    var n := nodes[off / NODE_TOTAL_BYTES];
    assert ValidNode(n, |nodes|);
    OffsetInjective(n.left, n.left, |nodes|);
    OffsetInjective(n.right, n.right, |nodes|);
    if n.left != NIL {
      assert ValidNode(nodes[SlotOf(n.left)], |nodes|);
      OffsetInjective(nodes[SlotOf(n.left)].parent, off, |nodes|);
    }
    if n.right != NIL {
      assert ValidNode(nodes[SlotOf(n.right)], |nodes|);
      OffsetInjective(nodes[SlotOf(n.right)].parent, off, |nodes|);
    }
  }

  /** Replace the top of the stack by its children, unless one does not point back. */
  method PushChildren(nodes: seq<RawNode>, stack: seq<nat>, off: nat) returns (ok: bool, stack': seq<nat>)
    requires |nodes| <= NIL && forall i :: 0 <= i < |nodes| ==> ValidNode(nodes[i], |nodes|)
    requires StackOk(stack, |nodes|) && stack != [] && stack[|stack| - 1] == off
    ensures LinksOk(DecodeAll(nodes)) && 0 <= off / NODE_TOTAL_BYTES < |nodes|
    ensures ok <==> Symmetric(DecodeAll(nodes), off / NODE_TOTAL_BYTES)
    ensures ok ==> StackOk(stack', |nodes|) && SlotsOf(stack') == Next(DecodeAll(nodes), SlotsOf(stack))
  {
    SymmetryRead(nodes, off);
    hide Symmetric;
    var node := nodes[off / NODE_TOTAL_BYTES];
    assert ValidNode(node, |nodes|);
    stack' := stack[..|stack| - 1];
    assert SlotsOf(stack') == SlotsOf(stack)[..|stack| - 1];
    PushChild(nodes, stack', node.left);
    if node.left != NIL {
      if nodes[SlotOf(node.left)].parent != off {
        return false, stack';
      }
      stack' := stack' + [node.left];
    }
    PushChild(nodes, stack', node.right);
    if node.right != NIL {
      if nodes[SlotOf(node.right)].parent != off {
        return false, stack';
      }
      stack' := stack' + [node.right];
    }
    return true, stack';
  }

  /** Depth-first walk from one root, marking the shared visited array. */
  method VisitTree(nodes: seq<RawNode>, root: nat, visited: array<bool>) returns (ok: bool, ghost t: Tree)
    requires |nodes| <= NIL && visited.Length == |nodes|
    requires forall i :: 0 <= i < |nodes| ==> ValidNode(nodes[i], |nodes|)
    modifies visited
    ensures ok ==> Rooted(nodes, root, t, Unvisited(old(visited[..])))
    ensures ok ==> Unvisited(visited[..]) == Unvisited(old(visited[..])) - Slots(t)
    ensures !ok ==> forall u :: !Rooted(nodes, root, u, Unvisited(old(visited[..])))
  {
    ghost var m, avail := DecodeAll(nodes), Unvisited(visited[..]);
    DecodedLinksOk(nodes);
    t := Leaf;
    if root == NIL {
      NilRooted(nodes, avail);
      return true, t;
    }
    if !ValidOffset(root, |nodes|) {
      return false, t;
    }
    var rootSlot := root / NODE_TOTAL_BYTES;
    RootedMeansDfs(nodes, root, avail);
    if nodes[rootSlot].parent != NIL {
      return false, t;
    }
    var stack: seq<nat> := [root];
    assert SlotsOf(stack) == [rootSlot];
    UnvisitedCount(visited[..]);
    var steps := 0;
    while stack != []
      invariant StackOk(stack, |nodes|) && InRange(m, SlotsOf(stack))
      invariant Dfs(m, SlotsOf(stack), Unvisited(visited[..])) == Dfs(m, [rootSlot], avail)
      invariant |Unvisited(visited[..])| + steps <= |nodes|
      decreases |Unvisited(visited[..])|
    {
      hide Rooted, Symmetric, Dfs;
      ghost var v, slots := visited[..], SlotsOf(stack);
      var off := stack[|stack| - 1];
      DfsUnfold(m, slots, Unvisited(v));
      SymmetryRead(nodes, off);
      steps := steps + 1;
      var ord := off / NODE_TOTAL_BYTES;
      if steps > |nodes| {
        assert Unvisited(v) == {};
        return false, t;
      }
      if ord >= |nodes| || visited[ord] {
        return false, t;
      }
      visited[ord] := true;
      assert visited[..] == v[ord := true];
      UnvisitedMark(v, ord);
      ok, stack := PushChildren(nodes, stack, off);
      if !ok {
        return false, t;
      }
    }
    t := DfsRooted(nodes, root, avail);
    return true, t;
  }

  lemma NilRooted(nodes: seq<RawNode>, avail: set<int>)
    requires |nodes| <= NIL
    ensures Rooted(nodes, NIL, Leaf, avail)
  {
    var t, top, m := Leaf, Top, DecodeAll(nodes);
    assert Rep(m, NIL, t) && Distinct(t) && RepC(m, NIL, top, NIL);
  }

  lemma {:induction false} UnvisitedCount(v: seq<bool>)
    ensures |Unvisited(v)| <= |v|
  {
    BelowCount(|v|);
    SubsetCount(Unvisited(v), Below(|v|));
  }

  /** A rooted tree makes the walk succeed. */
  lemma RootedMeansDfs(nodes: seq<RawNode>, root: nat, avail: set<int>)
    requires |nodes| <= NIL && (forall i :: 0 <= i < |nodes| ==> ValidNode(nodes[i], |nodes|))
    requires root != NIL && ValidOffset(root, |nodes|)
    ensures LinksOk(DecodeAll(nodes)) && 0 <= root / NODE_TOTAL_BYTES < |nodes|
    ensures forall u :: Rooted(nodes, root, u, avail) ==>
      && nodes[root / NODE_TOTAL_BYTES].parent == NIL
      && Dfs(DecodeAll(nodes), [root / NODE_TOTAL_BYTES], avail).Some?
  {
    DecodedLinksOk(nodes);
    var m, x := DecodeAll(nodes), root / NODE_TOTAL_BYTES;
    assert ValidNode(nodes[x], |nodes|);
    forall u | Rooted(nodes, root, u, avail)
      ensures nodes[x].parent == NIL && Dfs(m, [x], avail).Some?
    {
      OffsetInjective(nodes[x].parent, nodes[x].parent, |nodes|);
      ForestPush(m, [], [], u, avail);
      assert [] + Pushed(Idx(u)) == [x] && [] + Planted(u) == [u];
      DfsComplete(m, [x], [u], avail);
    }
  }

  /** A successful walk has walked a rooted tree. */
  lemma DfsRooted(nodes: seq<RawNode>, root: nat, avail: set<int>) returns (t: Tree)
    requires |nodes| <= NIL && (forall i :: 0 <= i < |nodes| ==> ValidNode(nodes[i], |nodes|))
    requires root != NIL && ValidOffset(root, |nodes|)
    requires nodes[root / NODE_TOTAL_BYTES].parent == NIL
    requires LinksOk(DecodeAll(nodes)) && Dfs(DecodeAll(nodes), [root / NODE_TOTAL_BYTES], avail).Some?
    ensures Rooted(nodes, root, t, avail)
    ensures Dfs(DecodeAll(nodes), [root / NODE_TOTAL_BYTES], avail).value == avail - Slots(t)
  {
    var m, x := DecodeAll(nodes), root / NODE_TOTAL_BYTES;
    var ts := DfsSound(m, [x], avail);
    t := ts[0];
    assert ts[..0] == [];
    assert m[x].parent == NIL;
    var top := Top;
    assert RepC(m, x, top, x);
    assert Remainder(ts, avail) == avail - Slots(t);
  }

  // ----- the cached best -----

  /** Walk left from the root and compare with the cached best. */
  method CheckBest(nodes: seq<RawNode>, best: nat, root: nat, ghost t: Tree, ghost avail: set<int>) returns (ok: bool)
    requires |nodes| <= NIL && (forall i :: 0 <= i < |nodes| ==> ValidNode(nodes[i], |nodes|))
    requires Rooted(nodes, root, t, avail)
    ensures ok <==> best == OffsetOf(First0(t))
  {
    ghost var m := DecodeAll(nodes);
    if root == NIL {
      EmptyTree(m, NIL, t);
      return best == NIL;
    }
    var cur: nat := root;
    ghost var c, u := Top, t;
    NonEmptyTree(m, SlotOf(root), t);
    TreeFitsSlab(m, SlotOf(root), t);
    FocusReads(m, SlotOf(root), c, u);
    var steps := 0;
    while true
      invariant Whole(m, SlotOf(root), c, u) && u.Branch? && cur != NIL && ValidOffset(cur, |nodes|)
      invariant u.slot == SlotOf(cur) && 0 <= u.slot < |nodes|
      invariant Inorder(u)[0] == Inorder(t)[0]
      invariant steps + Size(u) <= Size(t) <= |nodes|
      decreases u
    {
      FocusReads(m, SlotOf(root), c, u);
      steps := steps + 1;
      if steps > |nodes| {
        assert false;
      }
      var left := nodes[cur / NODE_TOTAL_BYTES].left;
      assert ValidNode(nodes[cur / NODE_TOTAL_BYTES], |nodes|);
      OffsetInjective(left, left, |nodes|);
      if left == NIL {
        break;
      }
      ZoomLeft(m, SlotOf(root), c, u);
      cur := left;
      c, u := InLeft(c, u.slot, u.color, u.right), u.left;
      FocusReads(m, SlotOf(root), c, u);
    }
    OffsetInjective(cur, cur, |nodes|);
    return best == cur;
  }

  /** A tree in the slab has at most as many nodes as the slab. */
  lemma TreeFitsSlab(m: seq<Node>, root: int, t: Tree)
    requires Whole(m, root, Top, t)
    ensures Size(t) <= |m|
  {
    WholeSlots(m, root, Top, t);
    SlotCount(t);
    SizeInorder(t);
    BelowCount(|m|);
    SubsetCount(Slots(t), Below(|m|));
  }

  // ----- the free list -----

  /** Follow the links, taking each slot from avail; None at a slot not available. */
  ghost function Walk(m: seq<Node>, cur: int, avail: set<int>): Option<seq<int>>
    requires LinksOk(m) && Link(m, cur)
    decreases |avail|
  {
    if cur == NIL then Some([])
    else if cur !in avail then None
    else Prepend([cur], Walk(m, m[cur].left, avail - {cur}))
  }

  ghost function Prepend(p: seq<int>, rest: Option<seq<int>>): Option<seq<int>> {
    match rest
    case None => None
    case Some(q) => Some(p + q)
  }

  /** The walk finds the list that the links spell out, and only that one. */
  lemma {:induction false} WalkExact(m: seq<Node>, cur: int, list: seq<int>, avail: set<int>)
    requires LinksOk(m) && Link(m, cur)
    ensures Chain(m, cur, list, avail) <==> Walk(m, cur, avail) == Some(list)
    decreases |list|
  {
    if list == [] {
      if cur != NIL && cur in avail {
        assert Walk(m, cur, avail) == Prepend([cur], Walk(m, m[cur].left, avail - {cur}));
      }
    } else if cur != NIL && cur in avail {
      assert Link(m, m[cur].left);
      WalkExact(m, m[cur].left, list[1..], avail - {cur});
      assert list == [list[0]] + list[1..];
      var rest := Walk(m, m[cur].left, avail - {cur});
      assert Walk(m, cur, avail) == Prepend([cur], rest);
      if rest.Some? && [cur] + rest.value == list {
        assert rest.value == list[1..];
      }
    }
  }

  lemma FreeSetSnoc(p: seq<int>, x: int)
    ensures FreeSet(p + [x]) == FreeSet(p) + {x}
  {
    var q := p + [x];
    forall i | 0 <= i < |p|
      ensures p[i] in FreeSet(q)
    {
      assert q[i] == p[i];
    }
    assert q[|p|] == x;
  }

  lemma WalkOn(m: seq<Node>, p: seq<int>, cur: int, avail: set<int>)
    requires LinksOk(m) && Link(m, cur) && cur != NIL && cur in avail
    ensures Link(m, m[cur].left)
    ensures Prepend(p, Walk(m, cur, avail)) == Prepend(p + [cur], Walk(m, m[cur].left, avail - {cur}))
    ensures FreeSet(p + [cur]) == FreeSet(p) + {cur}
  {
    FreeSetSnoc(p, cur);
    var rest := Walk(m, m[cur].left, avail - {cur});
    if rest.Some? {
      assert p + ([cur] + rest.value) == p + [cur] + rest.value;
    }
  }

  lemma PrependNothing(rest: Option<seq<int>>)
    ensures Prepend([], rest) == rest
  {
    if rest.Some? {
      assert [] + rest.value == rest.value;
    }
  }

  /** Part way: the slots of p are marked, and the walk goes on at cur. */
  ghost predicate Walking(nodes: seq<RawNode>, head: nat, avail: set<int>, p: seq<int>, cur: nat, v: seq<bool>) {
    var m := DecodeAll(nodes);
    && |v| == |nodes| && ValidOffset(head, |nodes|) && ValidOffset(cur, |nodes|)
    && LinksOk(m) && Link(m, SlotOf(cur)) && Link(m, SlotOf(head))
    && Walk(m, SlotOf(head), avail) == Prepend(p, Walk(m, SlotOf(cur), Unvisited(v)))
    && Unvisited(v) == avail - FreeSet(p)
  }

  lemma WalkStarts(nodes: seq<RawNode>, head: nat, v: seq<bool>)
    requires |v| == |nodes| <= NIL && ValidOffset(head, |nodes|)
    requires forall i :: 0 <= i < |nodes| ==> ValidNode(nodes[i], |nodes|)
    ensures Walking(nodes, head, Unvisited(v), [], head, v) && |Unvisited(v)| <= |nodes|
  {
    DecodedLinksOk(nodes);
    PrependNothing(Walk(DecodeAll(nodes), SlotOf(head), Unvisited(v)));
    UnvisitedCount(v);
  }

  /** Mark one slot of the list and follow its link. */
  lemma WalkStep(nodes: seq<RawNode>, head: nat, avail: set<int>, p: seq<int>, cur: nat, v: seq<bool>)
    requires Walking(nodes, head, avail, p, cur, v) && cur != NIL
    requires forall i :: 0 <= i < |nodes| ==> ValidNode(nodes[i], |nodes|)
    requires !v[cur / NODE_TOTAL_BYTES]
    ensures var x := cur / NODE_TOTAL_BYTES;
      && Walking(nodes, head, avail, p + [x], nodes[x].left, v[x := true])
      && |Unvisited(v[x := true])| < |Unvisited(v)|
  {
    var x := cur / NODE_TOTAL_BYTES;
    assert ValidNode(nodes[x], |nodes|);
    UnvisitedMark(v, x);
    WalkOn(DecodeAll(nodes), p, x, Unvisited(v));
  }

  /** A slot already marked, or none left: the links spell out no list. */
  lemma WalkFailed(nodes: seq<RawNode>, head: nat, avail: set<int>, p: seq<int>, cur: nat, v: seq<bool>)
    requires Walking(nodes, head, avail, p, cur, v) && cur != NIL
    requires Unvisited(v) == {} || v[cur / NODE_TOTAL_BYTES]
    ensures forall list :: !Chained(nodes, head, list, avail)
  {
    assert SlotOf(cur) !in Unvisited(v);
    forall list
      ensures !Chained(nodes, head, list, avail)
    {
      WalkExact(DecodeAll(nodes), SlotOf(head), list, avail);
    }
  }

  lemma WalkDone(nodes: seq<RawNode>, head: nat, avail: set<int>, p: seq<int>, v: seq<bool>)
    requires Walking(nodes, head, avail, p, NIL, v)
    ensures Chained(nodes, head, p, avail) && Unvisited(v) == avail - FreeSet(p)
  {
    assert p + [] == p;
    WalkExact(DecodeAll(nodes), SlotOf(head), p, avail);
  }

  /** Walk the free list, marking the shared visited array. */
  method VisitFreeList(nodes: seq<RawNode>, head: nat, visited: array<bool>) returns (ok: bool, ghost list: seq<int>)
    requires |nodes| <= NIL && visited.Length == |nodes|
    requires forall i :: 0 <= i < |nodes| ==> ValidNode(nodes[i], |nodes|)
    modifies visited
    ensures ok ==> Chained(nodes, head, list, Unvisited(old(visited[..])))
    ensures ok ==> Unvisited(visited[..]) == Unvisited(old(visited[..])) - FreeSet(list)
    ensures !ok ==> forall p :: !Chained(nodes, head, p, Unvisited(old(visited[..])))
  {
    ghost var avail := Unvisited(visited[..]);
    list := [];
    if head != NIL && !ValidOffset(head, |nodes|) {
      return false, list;
    }
    WalkStarts(nodes, head, visited[..]);
    var free: nat, steps: nat := head, 0;
    while free != NIL
      invariant Walking(nodes, head, avail, list, free, visited[..])
      invariant |Unvisited(visited[..])| + steps <= |nodes|
      decreases |Unvisited(visited[..])|
    {
      ghost var v := visited[..];
      steps := steps + 1;
      var ord := free / NODE_TOTAL_BYTES;
      if steps > |nodes| || visited[ord] {
        assert steps > |nodes| ==> |Unvisited(v)| == 0;
        WalkFailed(nodes, head, avail, list, free, v);
        return false, list;
      }
      WalkStep(nodes, head, avail, list, free, v);
      visited[ord] := true;
      assert visited[..] == v[ord := true];
      free := nodes[ord].left;
      list := list + [ord];
    }
    WalkDone(nodes, head, avail, list, visited[..]);
    return true, list;
  }

  lemma {:induction false} ChainUnique(m: seq<Node>, cur: int, p: seq<int>, q: seq<int>, avail: set<int>)
    requires |m| <= NIL && Chain(m, cur, p, avail) && Chain(m, cur, q, avail)
    ensures p == q
    decreases |p|
  {
    if p != [] {
      ChainUnique(m, m[cur].left, p[1..], q[1..], avail - {cur});
      assert p == [cur] + p[1..] && q == [cur] + q[1..];
    }
  }

  /** A chain visits each of its slots once, all of them available. */
  lemma {:induction false} ChainTakes(m: seq<Node>, cur: int, list: seq<int>, avail: set<int>)
    requires Chain(m, cur, list, avail)
    ensures NoDup(list) && FreeSet(list) <= avail
    decreases |list|
  {
    if list != [] {
      ChainTakes(m, m[cur].left, list[1..], avail - {cur});
      assert list == [cur] + list[1..];
      assert FreeSet(list) == {cur} + FreeSet(list[1..]);
      forall i, j | 0 <= i < j < |list|
        ensures list[i] != list[j]
      {
        assert list[j] == list[1..][j - 1] && list[j] in FreeSet(list[1..]);
        if i > 0 {
          assert list[i] == list[1..][i - 1];
        }
      }
    }
  }

  // ----- the bump pointer -----

  /** The end of the last live slot, in bytes. */
  method LiveEnd(visited: array<bool>) returns (end: nat)
    ensures end % NODE_TOTAL_BYTES == 0
    ensures forall bytes: nat :: end <= bytes && bytes % NODE_TOTAL_BYTES == 0 <==>
      bytes % NODE_TOTAL_BYTES == 0
      && forall i :: 0 <= i < visited.Length && visited[i] ==> i < bytes / NODE_TOTAL_BYTES
  {
    var n := visited.Length;
    while n > 0 && !visited[n - 1]
      invariant 0 <= n <= visited.Length
      invariant forall i :: n <= i < visited.Length ==> !visited[i]
    {
      n := n - 1;
    }
    end := n * NODE_TOTAL_BYTES;
    forall bytes: nat
      ensures end <= bytes && bytes % NODE_TOTAL_BYTES == 0 <==>
        bytes % NODE_TOTAL_BYTES == 0
        && forall i :: 0 <= i < visited.Length && visited[i] ==> i < bytes / NODE_TOTAL_BYTES
    {
      if bytes % NODE_TOTAL_BYTES == 0 {
        if n > 0 && forall i :: 0 <= i < visited.Length && visited[i] ==> i < bytes / NODE_TOTAL_BYTES {
          assert visited[n - 1];
        }
      }
    }
  }

  // ----- the whole validation -----

  /** Walk the three trees, sharing one visited array. */
  method VisitTrees(nodes: seq<RawNode>, h: RawHeader, visited: array<bool>)
    returns (ok: bool, ghost t1: Tree, ghost t2: Tree, ghost t3: Tree)
    requires |nodes| <= NIL && visited.Length == |nodes| && Unvisited(visited[..]) == Below(|nodes|)
    requires forall i :: 0 <= i < |nodes| ==> ValidNode(nodes[i], |nodes|)
    modifies visited
    ensures ok ==> ThreeTrees(nodes, h, t1, t2, t3) && Unvisited(visited[..]) == Spare(|nodes|, t1, t2, t3)
    ensures !ok ==> forall u1, u2, u3 :: !ThreeTrees(nodes, h, u1, u2, u3)
  {
    t2, t3 := Leaf, Leaf;
    ok, t1 := VisitTree(nodes, h.bidsRoot, visited);
    if ok {
      ok, t2 := VisitTree(nodes, h.asksRoot, visited);
      if ok {
        ok, t3 := VisitTree(nodes, h.seatsRoot, visited);
      }
    }
    forall u1, u2, u3
      ensures ThreeTrees(nodes, h, u1, u2, u3) ==> ok
    {
      if ThreeTrees(nodes, h, u1, u2, u3) && Rooted(nodes, h.bidsRoot, t1, Below(|nodes|)) {
        RootedUnique(nodes, h.bidsRoot, t1, u1, Below(|nodes|), Below(|nodes|));
        if Rooted(nodes, h.asksRoot, t2, Below(|nodes|) - Slots(t1)) {
          RootedUnique(nodes, h.asksRoot, t2, u2, Below(|nodes|) - Slots(t1), Below(|nodes|) - Slots(u1));
        }
      }
    }
  }

  lemma ThreeTreesUnique(nodes: seq<RawNode>, h: RawHeader, t1: Tree, t2: Tree, t3: Tree, u1: Tree, u2: Tree, u3: Tree)
    requires ThreeTrees(nodes, h, t1, t2, t3) && ThreeTrees(nodes, h, u1, u2, u3)
    ensures t1 == u1 && t2 == u2 && t3 == u3
  {
    var all := Below(|nodes|);
    RootedUnique(nodes, h.bidsRoot, t1, u1, all, all);
    RootedUnique(nodes, h.asksRoot, t2, u2, all - Slots(t1), all - Slots(u1));
    RootedUnique(nodes, h.seatsRoot, t3, u3, all - Slots(t1) - Slots(t2), all - Slots(u1) - Slots(u2));
  }

  /** Once the trees are known, only the best pointers, the free list and the bump
      pointer are left to decide. */
  lemma AcceptedGivenTrees(accountLen: nat, h: RawHeader, nodes: seq<RawNode>, t1: Tree, t2: Tree, t3: Tree,
                           u1: Tree, u2: Tree, u3: Tree, p: seq<int>)
    requires ThreeTrees(nodes, h, t1, t2, t3) && Accepted(accountLen, h, nodes, u1, u2, u3, p)
    ensures BestsOk(h, t1, t2) && Chained(nodes, h.freeHead, p, Spare(|nodes|, t1, t2, t3))
    ensures BumpOk(h, |nodes|, Slots(t1) + Slots(t2) + Slots(t3) + FreeSet(p))
  {
    ThreeTreesUnique(nodes, h, t1, t2, t3, u1, u2, u3);
  }

  /** Validate an account: exact in both directions. */
  method ValidateNodeLinks(accountLen: nat, h: RawHeader, nodes: seq<RawNode>)
    returns (ok: bool, ghost t1: Tree, ghost t2: Tree, ghost t3: Tree, ghost list: seq<int>)
    requires |nodes| <= NIL
    requires accountLen >= MARKET_BOOK_PREFIX_BYTES ==>
      |nodes| == (accountLen - MARKET_BOOK_PREFIX_BYTES) / NODE_TOTAL_BYTES
    ensures ok ==> Accepted(accountLen, h, nodes, t1, t2, t3, list)
    ensures !ok ==> forall u1, u2, u3, p :: !Accepted(accountLen, h, nodes, u1, u2, u3, p)
  {
    t1, t2, t3, list := Leaf, Leaf, Leaf, [];
    if accountLen < MARKET_BOOK_PREFIX_BYTES {
      return false, t1, t2, t3, list;
    }
    var slabLen := accountLen - MARKET_BOOK_PREFIX_BYTES;
    if slabLen % NODE_TOTAL_BYTES != 0 {
      return false, t1, t2, t3, list;
    }
    ok := CheckLinks(nodes);
    if !ok {
      return;
    }
    var visited := new bool[|nodes|](_ => false);
    assert Unvisited(visited[..]) == Below(|nodes|);
    ok, t1, t2, t3 := VisitTrees(nodes, h, visited);
    if !ok {
      return;
    }
    ok, list := CheckRest(accountLen, h, nodes, visited, t1, t2, t3);
  }

  /** The checks that follow the tree walks: best pointers, free list, bump pointer. */
  method CheckRest(accountLen: nat, h: RawHeader, nodes: seq<RawNode>, visited: array<bool>,
                   ghost t1: Tree, ghost t2: Tree, ghost t3: Tree)
    returns (ok: bool, ghost list: seq<int>)
    requires |nodes| <= NIL && visited.Length == |nodes|
    requires accountLen == MARKET_BOOK_PREFIX_BYTES + |nodes| * NODE_TOTAL_BYTES
    requires forall i :: 0 <= i < |nodes| ==> ValidNode(nodes[i], |nodes|)
    requires ThreeTrees(nodes, h, t1, t2, t3) && Unvisited(visited[..]) == Spare(|nodes|, t1, t2, t3)
    modifies visited
    ensures ok ==> Accepted(accountLen, h, nodes, t1, t2, t3, list)
    ensures !ok ==> forall u1, u2, u3, p :: !Accepted(accountLen, h, nodes, u1, u2, u3, p)
  {
    list := [];
    ghost var spare := Spare(|nodes|, t1, t2, t3);
    ok := CheckBest(nodes, h.bidsBest, h.bidsRoot, t1, Below(|nodes|));
    if !ok {
      Refuted(accountLen, h, nodes, t1, t2, t3, list);
      return;
    }
    ok := CheckBest(nodes, h.asksBest, h.asksRoot, t2, Below(|nodes|) - Slots(t1));
    if !ok {
      Refuted(accountLen, h, nodes, t1, t2, t3, list);
      return;
    }
    ghost var v := visited[..];
    assert Unvisited(v) == spare;
    ok, list := VisitFreeList(nodes, h.freeHead, visited);
    if !ok {
      assert forall p :: !Chained(nodes, h.freeHead, p, spare);
      Refuted(accountLen, h, nodes, t1, t2, t3, list);
      return;
    }
    ok := CheckBump(h, nodes, visited, t1, t2, t3, list);
    if !ok {
      Refuted(accountLen, h, nodes, t1, t2, t3, list);
    }
  }

  /** The bump pointer covers every slot in use and stays in the slab. */
  method CheckBump(h: RawHeader, nodes: seq<RawNode>, visited: array<bool>,
                   ghost t1: Tree, ghost t2: Tree, ghost t3: Tree, ghost list: seq<int>)
    returns (ok: bool)
    requires visited.Length == |nodes| && ThreeTrees(nodes, h, t1, t2, t3)
    requires Chained(nodes, h.freeHead, list, Spare(|nodes|, t1, t2, t3))
    requires Unvisited(visited[..]) == Spare(|nodes|, t1, t2, t3) - FreeSet(list)
    ensures ok <==> BumpOk(h, |nodes|, Slots(t1) + Slots(t2) + Slots(t3) + FreeSet(list))
  {
    var liveEnd := LiveEnd(visited);
    BumpDecided(h, nodes, visited[..], t1, t2, t3, list);
    return liveEnd <= h.numBytesAllocated
        && h.numBytesAllocated % NODE_TOTAL_BYTES == 0
        && h.numBytesAllocated <= |nodes| * NODE_TOTAL_BYTES;
  }

  /** With the trees known, one failed check refutes acceptance. */
  lemma Refuted(accountLen: nat, h: RawHeader, nodes: seq<RawNode>, t1: Tree, t2: Tree, t3: Tree, list: seq<int>)
    requires |nodes| <= NIL && ThreeTrees(nodes, h, t1, t2, t3)
    requires var spare := Spare(|nodes|, t1, t2, t3);
      || !BestsOk(h, t1, t2)
      || (forall p :: !Chained(nodes, h.freeHead, p, spare))
      || (Chained(nodes, h.freeHead, list, spare)
          && !BumpOk(h, |nodes|, Slots(t1) + Slots(t2) + Slots(t3) + FreeSet(list)))
    ensures forall u1, u2, u3, p :: !Accepted(accountLen, h, nodes, u1, u2, u3, p)
  {
    hide ThreeTrees, BestsOk, BumpOk, Spare, FreeSet;
    forall u1, u2, u3, p
      ensures !Accepted(accountLen, h, nodes, u1, u2, u3, p)
    {
      if Accepted(accountLen, h, nodes, u1, u2, u3, p) {
        AcceptedGivenTrees(accountLen, h, nodes, t1, t2, t3, u1, u2, u3, p);
        if Chained(nodes, h.freeHead, list, Spare(|nodes|, t1, t2, t3)) {
          ChainUnique(DecodeAll(nodes), SlotOf(h.freeHead), list, p, Spare(|nodes|, t1, t2, t3));
        }
      }
    }
  }

  /** The visited slots are the slots in use, so their end decides the bump pointer. */
  lemma BumpDecided(h: RawHeader, nodes: seq<RawNode>, v: seq<bool>, t1: Tree, t2: Tree, t3: Tree, list: seq<int>)
    requires |v| == |nodes| && ThreeTrees(nodes, h, t1, t2, t3)
    requires Chained(nodes, h.freeHead, list, Spare(|nodes|, t1, t2, t3))
    requires Unvisited(v) == Spare(|nodes|, t1, t2, t3) - FreeSet(list)
    ensures (forall i :: 0 <= i < |v| && v[i] ==> i < h.numBytesAllocated / NODE_TOTAL_BYTES)
       <==> Slots(t1) + Slots(t2) + Slots(t3) + FreeSet(list) <= Below(h.numBytesAllocated / NODE_TOTAL_BYTES)
  {
    ChainTakes(DecodeAll(nodes), SlotOf(h.freeHead), list, Spare(|nodes|, t1, t2, t3));
    var used := Slots(t1) + Slots(t2) + Slots(t3) + FreeSet(list);
    assert Unvisited(v) == Below(|nodes|) - used;
    VisitedIsLive(nodes, v, used, h.numBytesAllocated);
  }

  lemma VisitedIsLive(nodes: seq<RawNode>, v: seq<bool>, live: set<int>, bytes: nat)
    requires |v| == |nodes| && live <= Below(|nodes|) && Unvisited(v) == Below(|nodes|) - live
    ensures (forall i :: 0 <= i < |v| && v[i] ==> i < bytes / NODE_TOTAL_BYTES)
       <==> live <= Below(bytes / NODE_TOTAL_BYTES)
  {
    forall i | 0 <= i < |v|
      ensures v[i] <==> i in live
    {
      assert i in Below(|nodes|);
      assert i in Unvisited(v) <==> !v[i];
    }
  }

  /** Acceptance in terms of slots: the four structures are disjoint, each visits its
      slots once, parents mirror children, and all lies below the bump pointer. */
  lemma AcceptedShape(accountLen: nat, h: RawHeader, nodes: seq<RawNode>, t1: Tree, t2: Tree, t3: Tree, list: seq<int>)
    requires |nodes| <= NIL && Accepted(accountLen, h, nodes, t1, t2, t3, list)
    ensures Slots(t1) !! Slots(t2) !! Slots(t3) !! FreeSet(list)
    ensures NoDup(Inorder(t1)) && NoDup(Inorder(t2)) && NoDup(Inorder(t3)) && NoDup(list)
    ensures forall x :: x in Slots(t1) + Slots(t2) + Slots(t3) + FreeSet(list) ==>
              0 <= x < h.numBytesAllocated / NODE_TOTAL_BYTES <= |nodes|
    ensures forall x :: x in Slots(t1) + Slots(t2) + Slots(t3) ==> 0 <= x < |nodes| && PointsBack(DecodeAll(nodes), x)
  {
    ChainTakes(DecodeAll(nodes), SlotOf(h.freeHead), list, Spare(|nodes|, t1, t2, t3));
    RootedShape(nodes, h.bidsRoot, t1, Below(|nodes|));
    RootedShape(nodes, h.asksRoot, t2, Below(|nodes|) - Slots(t1));
    RootedShape(nodes, h.seatsRoot, t3, Below(|nodes|) - Slots(t1) - Slots(t2));
  }

  /** Each child of x is in the slab and names x as its parent. */
  ghost predicate PointsBack(m: seq<Node>, x: int)
    requires 0 <= x < |m|
  {
    && (m[x].left != NIL ==> 0 <= m[x].left < |m| && m[m[x].left].parent == x)
    && (m[x].right != NIL ==> 0 <= m[x].right < |m| && m[m[x].right].parent == x)
  }

  lemma RootedShape(nodes: seq<RawNode>, root: nat, t: Tree, avail: set<int>)
    requires |nodes| <= NIL && Rooted(nodes, root, t, avail)
    ensures NoDup(Inorder(t))
    ensures forall x :: x in Slots(t) ==> 0 <= x < |nodes| && PointsBack(DecodeAll(nodes), x)
  {
    var m := DecodeAll(nodes);
    WholeSlots(m, SlotOf(root), Top, t);
    InorderNoDup(t);
    RepSymmetric(m, NIL, t);
  }

  lemma {:induction false} RepSymmetric(m: seq<Node>, p: int, t: Tree)
    requires |m| <= NIL && Rep(m, p, t)
    ensures forall x :: x in Slots(t) ==> 0 <= x < |m| && PointsBack(m, x)
    decreases t
  {
    if t.Branch? {
      RepSymmetric(m, t.slot, t.left);
      RepSymmetric(m, t.slot, t.right);
      assert Rep(m, t.slot, t.left) && Rep(m, t.slot, t.right);
    }
  }

  // ----- every book the program can build is accepted -----

  function EncodeNode(n: Node): RawNode
    requires n.left >= 0 && n.right >= 0 && n.parent >= 0
  {
    RawNode(OffsetOf(n.left), OffsetOf(n.right), OffsetOf(n.parent), if n.color == Red then 1 else 0)
  }

  ghost function EncodeAll(m: seq<Node>): (r: seq<RawNode>)
    requires LinksOk(m)
    ensures |r| == |m| && forall i :: 0 <= i < |m| ==> LinkedAt(m, i) && r[i] == EncodeNode(m[i])
  {
    seq(|m|, i requires 0 <= i < |m| => EncodeNode(m[i]))
  }

  ghost predicate LinkedAt(m: seq<Node>, i: int)
    requires 0 <= i < |m|
  {
    m[i].left >= 0 && m[i].right >= 0 && m[i].parent >= 0
  }

  function EncodeHeader(h: MarketBookHeader): RawHeader
    requires h.bidsRootIndex >= 0 && h.bidsBestIndex >= 0 && h.asksRootIndex >= 0 && h.asksBestIndex >= 0
    requires h.claimedSeatsRootIndex >= 0 && h.freeListHeadIndex >= 0
  {
    RawHeader(OffsetOf(h.bidsRootIndex), OffsetOf(h.bidsBestIndex), OffsetOf(h.asksRootIndex),
              OffsetOf(h.asksBestIndex), OffsetOf(h.claimedSeatsRootIndex), OffsetOf(h.freeListHeadIndex),
              h.numBytesAllocated)
  }

  /** In a laid-out slab every link of every slot, live, free or unused, is in range. */
  lemma LayoutLinksOk(m: seq<Node>, h: MarketBookHeader, sh: Shape)
    requires Layout(m, h, sh, {})
    ensures LinksOk(m)
  {
    WholeLinksAgree(m, h.bidsRootIndex, sh.bids);
    WholeLinksAgree(m, h.asksRootIndex, sh.asks);
    forall i | 0 <= i < |m|
      ensures Link(m, m[i].left) && Link(m, m[i].right) && Link(m, m[i].parent)
    {
      if i < Bump(h) {
        assert i in Below(Bump(h));
        if i in Slots(sh.bids) {
          assert AgreesAt(m, h.bidsRootIndex, NIL, Slots(sh.bids), i);
        } else if i in Slots(sh.asks) {
          assert AgreesAt(m, h.asksRootIndex, NIL, Slots(sh.asks), i);
        } else {
          assert i in FreeSet(sh.free);
          var k :| 0 <= k < |sh.free| && sh.free[k] == i;
          assert m[sh.free[k]] == ZeroNode.(left := LinkAfter(sh.free, k));
        }
      }
    }
  }

  lemma EncodeDecode(m: seq<Node>)
    requires LinksOk(m)
    ensures forall i :: 0 <= i < |m| ==> ValidNode(EncodeAll(m)[i], |m|)
    ensures forall i :: 0 <= i < |m| ==> DecodeAll(EncodeAll(m))[i] == m[i].(value := ZeroOrder)
  {
    forall i | 0 <= i < |m|
      ensures ValidNode(EncodeAll(m)[i], |m|) && Decode(EncodeAll(m)[i]) == m[i].(value := ZeroOrder)
    {
      EncodeLink(m, m[i].left);
      EncodeLink(m, m[i].right);
      EncodeLink(m, m[i].parent);
    }
  }

  lemma EncodeLink(m: seq<Node>, i: int)
    requires |m| <= NIL && Link(m, i)
    ensures i >= 0 && ValidOffset(OffsetOf(i), |m|) && SlotOf(OffsetOf(i)) == i
  {
  }

  lemma EncodedRooted(m: seq<Node>, root: int, t: Tree, avail: set<int>)
    requires LinksOk(m) && WellFormed(m, root, t) && Slots(t) <= avail
    ensures root >= 0 && Rooted(EncodeAll(m), OffsetOf(root), t, avail)
    ensures First0(t) == First(Inorder(t))
  {
    EncodeDecode(m);
    var top := Top;
    WholeSlots(m, root, top, t);
    InorderSlots(t);
    assert t.Branch? ==> t.slot in Slots(t);
    EncodeLink(m, root);
    WholeFrame(m, DecodeAll(EncodeAll(m)), root, top, t);
    assert Inorder(t) != [] ==> Inorder(t)[0] in Slots(t);
  }

  /** Every valid book, hence every book reachable from an empty one, passes. */
  lemma ValidBookAccepted(m: seq<Node>, h: MarketBookHeader, sh: Shape)
    requires Layout(m, h, sh, {}) && Caches(h, sh)
    ensures LinksOk(m)
    ensures h.bidsRootIndex >= 0 && h.bidsBestIndex >= 0 && h.asksRootIndex >= 0 && h.asksBestIndex >= 0
    ensures h.claimedSeatsRootIndex >= 0 && h.freeListHeadIndex >= 0
    ensures Accepted(MARKET_BOOK_PREFIX_BYTES + |m| * NODE_TOTAL_BYTES, EncodeHeader(h), EncodeAll(m),
                     sh.bids, sh.asks, Leaf, sh.free)
  {
    LayoutLinksOk(m, h, sh);
    EncodeDecode(m);
    var nodes, all := EncodeAll(m), Below(|m|);
    assert Below(Bump(h)) <= all;
    EncodedRooted(m, h.bidsRootIndex, sh.bids, all);
    EncodedRooted(m, h.asksRootIndex, sh.asks, all - Slots(sh.bids));
    NilRooted(nodes, all - Slots(sh.bids) - Slots(sh.asks));
    EncodedChained(m, h, sh);
  }

  lemma EncodedChained(m: seq<Node>, h: MarketBookHeader, sh: Shape)
    requires Layout(m, h, sh, {}) && LinksOk(m)
    ensures h.freeListHeadIndex >= 0
    ensures Chained(EncodeAll(m), OffsetOf(h.freeListHeadIndex), sh.free, Spare(|m|, sh.bids, sh.asks, Leaf))
  {
    EncodeDecode(m);
    EncodeLink(m, h.freeListHeadIndex);
    FreeIsChain(DecodeAll(EncodeAll(m)), h.freeListHeadIndex, sh.free, Spare(|m|, sh.bids, sh.asks, Leaf));
  }

  /** The free list as the allocator keeps it is a chain. */
  lemma {:induction false} FreeIsChain(m: seq<Node>, head: int, list: seq<int>, avail: set<int>)
    requires head == Head(list) && NoDup(list) && FreeSet(list) <= avail
    requires forall i :: 0 <= i < |list| ==> 0 <= list[i] < |m| && m[list[i]].left == LinkAfter(list, i)
    ensures Chain(m, head, list, avail)
    decreases |list|
  {
    if list != [] {
      var rest := list[1..];
      forall i | 0 <= i < |rest|
        ensures 0 <= rest[i] < |m| && m[rest[i]].left == LinkAfter(rest, i) && rest[i] in avail - {head}
      {
        assert rest[i] == list[i + 1] && LinkAfter(rest, i) == LinkAfter(list, i + 1);
        assert list[i + 1] in FreeSet(list);
      }
      assert list[0] in FreeSet(list);
      assert m[list[0]].left == LinkAfter(list, 0) == Head(rest);
      FreeIsChain(m, Head(rest), rest, avail - {head});
    }
  }
}
