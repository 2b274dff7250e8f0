/** The market book: a header and a slab, with the operations of the program. Each
    method refines a step of the abstract machine of BookSpec. */
module MarketBooks {
  import Bytes
  import opened Nodes
  import opened Trees
  import opened TreeRep
  import opened TreeReads
  import opened TreeKeys
  import opened RedBlackTrees
  import opened FreeLists
  import opened OrderIds
  import opened Wrappers
  import opened BookSpec
  import opened BookIds
  import opened BookLayout

  const U32_MAX := 0xFFFF_FFFF

  function SaturatingAddU32(a: nat, b: nat): nat {
    if a + b <= U32_MAX then a + b else U32_MAX
  }

  ghost predicate NoOrder(side: seq<Entry>, orderId: nat) {
    forall i :: 0 <= i < |side| ==> side[i].order.orderId != orderId
  }

  ghost predicate HoldsOrder(side: seq<Entry>, slot: int, orderId: nat) {
    exists i :: 0 <= i < |side| && side[i].slot == slot && side[i].order.orderId == orderId
  }

  /** What the side, read as a map by id, says of the id. */
  ghost predicate FindsById(side: seq<Entry>, idx: int, orderId: nat) {
    if orderId in IdMap(side) then idx != NIL && idx == IdMap(side)[orderId].slot else idx == NIL
  }

  lemma FoundById(side: seq<Entry>, idx: int, orderId: nat)
    requires DistinctIds(side)
    requires if idx == NIL then NoOrder(side, orderId) else HoldsOrder(side, idx, orderId)
    ensures FindsById(side, idx, orderId)
  {
    if idx == NIL {
      assert orderId !in Ids(side);
    } else {
      var i :| 0 <= i < |side| && side[i].slot == idx && side[i].order.orderId == orderId;
      ByIdIs(side, side[i]);
    }
  }

  class MarketBookHandle {
    var header: MarketBookHeader
    const data: array<Node>
    ghost var shape: Shape

    ghost predicate Valid()
      reads this, data
    {
      Layout(data[..], header, shape, {}) && Caches(header, shape)
    }

    ghost function View(): Book
      requires Valid()
      reads this, data
    {
      BookLayout.View(data[..], header, shape)
    }

    /** A freshly initialised account: an empty header over a zeroed slab. */
    constructor (capacity: nat)
      requires MAX_NODES <= capacity <= MAX_NODES_EXPANDED
      ensures Valid() && fresh(data) && View() == Empty(capacity)
    {
      header := EmptyHeader;
      data := new Node[capacity](_ => ZeroNode);
      shape := Shape(Leaf, Leaf, []);
      new;
      var t, top := Leaf, Top;
      assert Rep(data[..], NIL, t) && Distinct(t) && RepC(data[..], NIL, top, NIL);
      assert Inorder(t) == [] && Slots(t) == {} && RedBlack(t);
      assert SortedKeys(data[..], []);
    }

    // ----- allocation -----

    /** A slot from the free list, else from the unused tail. */
    method AllocNode() returns (r: Result<int, BookError>)
      requires Valid()
      modifies this, data
      ensures r.Failure? <==> !CanAlloc(old(View()))
      ensures r.Failure? ==> r.error == BufferFull && Valid() && View() == old(View()) && header == old(header)
      ensures r.Failure? ==> shape == old(shape)
      ensures r.Success? ==>
        && r.value == NextSlot(old(View())) && 0 <= r.value < data.Length && data[r.value] == ZeroNode
        && Layout(data[..], header, shape, {r.value}) && Caches(header, shape)
        && shape.bids == old(shape.bids) && shape.asks == old(shape.asks)
        && BookLayout.View(data[..], header, shape) == AfterAlloc(old(View()))
    {
      var freeList := new FreeList(data, header.freeListHeadIndex);
      var popped;
      ghost var free';
      ghost var m := data[..];
      popped, free' := freeList.Remove(shape.free);
      if popped != NIL {
        EmptyFreeIsNil(m, header, shape);
        PopFree(m, header, shape);
        header := header.(freeListHeadIndex := freeList.headIndex);
        shape := shape.(free := free');
        return Success(popped);
      }
      EmptyFreeIsNil(m, header, shape);
      assert data[..] == m;
      var nextOffset := header.numBytesAllocated;
      var end := SaturatingAddU32(nextOffset, NODE_TOTAL_BYTES);
      if end > data.Length * NODE_TOTAL_BYTES {
        return Failure(BufferFull);
      }
      BumpAlloc(m, header, shape);
      header := header.(numBytesAllocated := end);
      return Success(nextOffset / NODE_TOTAL_BYTES);
    }

    /** Put a slot that is in no tree back on the free list. */
    method FreeNode(idx: int)
      requires Layout(data[..], header, shape, {idx}) && Caches(header, shape)
      modifies this, data
      ensures Valid() && shape == old(shape).(free := [idx] + old(shape).free)
      ensures header == old(header).(freeListHeadIndex := idx)
      ensures View() == old(BookLayout.View(data[..], header, shape)).(free := [idx] + old(shape).free)
    {
      PushFree(data[..], header, shape, idx);
      var freeList := new FreeList(data, header.freeListHeadIndex);
      ghost var free' := freeList.Add(idx, shape.free);
      header := header.(freeListHeadIndex := freeList.headIndex);
      shape := shape.(free := free');
    }

    // ----- insertion -----

    /** Place an order on the bid side. */
    method InsertBid(order: Order) returns (r: Result<int, BookError>)
      requires Valid() && Enabled(View(), Op.InsertBid(order))
      modifies this, data
      ensures Valid() && (View(), OutcomeOf(r)) == Step(old(View()), Op.InsertBid(order))
    {
      if !SeqIsEncodable(order.orderSeq) {
        return Failure(OrderSeqExhausted);
      }
      r := AllocNode();
      if r.Failure? {
        return;
      }
      LinkBid(r.value, order);
    }

    /** Hang an allocated slot in the bids and refresh the cached indices. */
    method LinkBid(idx: int, order: Order)
      requires Layout(data[..], header, shape, {idx}) && Caches(header, shape)
      requires Inorder(shape.bids) != [] ==> order.orderId != Key(data[..], Inorder(shape.bids)[0])
      modifies this, data
      ensures Valid()
      ensures View() == old(BookLayout.View(data[..], header, shape)).(bids :=
        InsertEntry(old(BookLayout.View(data[..], header, shape)).bids, Entry(idx, order)))
    {
      ghost var m, h, sh := data[..], header, shape;
      LimboFacts(m, h, sh, idx);
      var tree := new RedBlackTree(data, header.bidsRootIndex, NIL, shape.bids);
      tree.Insert(idx, order);
      BidInserted(m, h, sh, idx, data[..], tree.root, tree.tree, order);
      var best := header.bidsBestIndex;
      if best == NIL || order.orderId < data[best].value.orderId {
        best := idx;
      }
      header := header.(
        bidsRootIndex := tree.root,
        bidsBestIndex := best,
        totalOrdersActive := SaturatingAddU32(header.totalOrdersActive, 1));
      shape := shape.(bids := tree.tree);
    }

    /** Place an order on the ask side. */
    method InsertAsk(order: Order) returns (r: Result<int, BookError>)
      requires Valid() && Enabled(View(), Op.InsertAsk(order))
      modifies this, data
      ensures Valid() && (View(), OutcomeOf(r)) == Step(old(View()), Op.InsertAsk(order))
    {
      if !SeqIsEncodable(order.orderSeq) {
        return Failure(OrderSeqExhausted);
      }
      r := AllocNode();
      if r.Failure? {
        return;
      }
      LinkAsk(r.value, order);
    }

    /** Hang an allocated slot in the asks and refresh the cached indices. */
    method LinkAsk(idx: int, order: Order)
      requires Layout(data[..], header, shape, {idx}) && Caches(header, shape)
      requires Inorder(shape.asks) != [] ==> order.orderId != Key(data[..], Inorder(shape.asks)[0])
      modifies this, data
      ensures Valid()
      ensures View() == old(BookLayout.View(data[..], header, shape)).(asks :=
        InsertEntry(old(BookLayout.View(data[..], header, shape)).asks, Entry(idx, order)))
    {
      ghost var m, h, sh := data[..], header, shape;
      LimboFacts(m, h, sh, idx);
      var tree := new RedBlackTree(data, header.asksRootIndex, NIL, shape.asks);
      tree.Insert(idx, order);
      AskInserted(m, h, sh, idx, data[..], tree.root, tree.tree, order);
      var best := header.asksBestIndex;
      if best == NIL || order.orderId < data[best].value.orderId {
        best := idx;
      }
      header := header.(
        asksRootIndex := tree.root,
        asksBestIndex := best,
        totalOrdersActive := SaturatingAddU32(header.totalOrdersActive, 1));
      shape := shape.(asks := tree.tree);
    }

    /** Take an order off the bid side and free its slot. */
    method RemoveBidNode(idx: int)
      requires Valid() && Enabled(View(), Op.RemoveBid(idx))
      modifies this, data
      ensures Valid() && (View(), Removed) == Step(old(View()), Op.RemoveBid(idx))
    {
      ViewConsistent(data[..], header, shape);
      UnlinkBid(idx);
      FreeNode(idx);
    }

    /** Unhang a slot from the bids; the next best is the successor of the old
        best, captured before the tree changes. */
    method UnlinkBid(idx: int)
      requires Valid() && idx in Slots(shape.bids)
      modifies this, data
      ensures Layout(data[..], header, shape, {idx}) && Caches(header, shape)
      ensures shape.free == old(shape).free
      ensures BookLayout.View(data[..], header, shape)
           == old(View()).(bids := RemoveEntry(old(View()).bids, idx))
    {
      ghost var m, h, sh := data[..], header, shape;
      var tree := new RedBlackTree(data, header.bidsRootIndex, NIL, shape.bids);
      var newBest := header.bidsBestIndex;
      if header.bidsBestIndex == idx {
        newBest := tree.SuccessorIndex(idx);
      }
      tree.RemoveByIndex(idx);
      BidRemoved(m, h, sh, idx, data[..], tree.root, tree.tree, newBest);
      header := header.(
        bidsRootIndex := tree.root,
        bidsBestIndex := newBest,
        totalOrdersActive := Bytes.SaturatingSub(header.totalOrdersActive, 1));
      shape := shape.(bids := tree.tree);
    }

    /** Take an order off the ask side and free its slot. */
    method RemoveAskNode(idx: int)
      requires Valid() && Enabled(View(), Op.RemoveAsk(idx))
      modifies this, data
      ensures Valid() && (View(), Removed) == Step(old(View()), Op.RemoveAsk(idx))
    {
      ViewConsistent(data[..], header, shape);
      UnlinkAsk(idx);
      FreeNode(idx);
    }

    /** Unhang a slot from the asks; the next best is the successor of the old
        best, captured before the tree changes. */
    method UnlinkAsk(idx: int)
      requires Valid() && idx in Slots(shape.asks)
      modifies this, data
      ensures Layout(data[..], header, shape, {idx}) && Caches(header, shape)
      ensures shape.free == old(shape).free
      ensures BookLayout.View(data[..], header, shape)
           == old(View()).(asks := RemoveEntry(old(View()).asks, idx))
    {
      ghost var m, h, sh := data[..], header, shape;
      var tree := new RedBlackTree(data, header.asksRootIndex, NIL, shape.asks);
      var newBest := header.asksBestIndex;
      if header.asksBestIndex == idx {
        newBest := tree.SuccessorIndex(idx);
      }
      tree.RemoveByIndex(idx);
      AskRemoved(m, h, sh, idx, data[..], tree.root, tree.tree, newBest);
      header := header.(
        asksRootIndex := tree.root,
        asksBestIndex := newBest,
        totalOrdersActive := Bytes.SaturatingSub(header.totalOrdersActive, 1));
      shape := shape.(asks := tree.tree);
    }

    /** Apply a partial fill; an over-fill is refused. */
    method DecrementSizeAt(idx: int, delta: nat) returns (r: Result<nat, BookError>)
      requires Valid() && Enabled(View(), Op.Decrement(idx, delta))
      modifies this, data
      ensures Valid()
      ensures (View(), ResizeOutcome(r)) == Step(old(View()), Op.Decrement(idx, delta))
    {
      hide Layout, Caches, Step;
      EnabledSlot(data[..], header, shape, idx);
      DecrementStep(data[..], header, shape, idx, delta);
      var size := data[idx].value.sizeLots;
      if size < delta {
        return Failure(ArithmeticOverflow);
      }
      data[idx] := data[idx].(value := data[idx].value.(sizeLots := size - delta));
      return Success(size - delta);
    }

    // ----- reads -----

    /** The slot of a bid with the given id, or NIL when there is none; with distinct
        ids it is the slot that the side, as a map by id, has for it. */
    method LookupBidByOrderId(orderId: nat) returns (idx: int)
      requires Valid()
      ensures idx == NIL <==> NoOrder(View().bids, orderId)
      ensures idx != NIL ==> HoldsOrder(View().bids, idx, orderId)
      ensures DistinctIds(View().bids) ==> FindsById(View().bids, idx, orderId)
    {
      ghost var side := View().bids;
      if header.bidsRootIndex == NIL {
        EmptyTree(data[..], header.bidsRootIndex, shape.bids);
        assert NoOrder(side, orderId);
        idx := NIL;
        if DistinctIds(side) {
          FoundById(side, idx, orderId);
        }
        return;
      }
      var tree := new RedBlackTree(data, header.bidsRootIndex, NIL, shape.bids);
      ghost var steps;
      idx, steps := tree.LookupIndex(orderId);
      LookupMeaning(data[..], shape.bids, idx, orderId);
      if DistinctIds(side) {
        FoundById(side, idx, orderId);
      }
    }

    method ForEachBidBestFirst(keepGoing: seq<Entry> -> bool) returns (visited: seq<Entry>)
      requires Valid()
      ensures VisitsBestFirst(View().bids, visited, keepGoing)
    {
      var tree := new RedBlackTree(data, header.bidsRootIndex, NIL, shape.bids);
      visited := ForEachBestFirst(tree, header.bidsBestIndex, keepGoing);
    }

    /** The slot of a ask with the given id, or NIL when there is none; with distinct
        ids it is the slot that the side, as a map by id, has for it. */
    method LookupAskByOrderId(orderId: nat) returns (idx: int)
      requires Valid()
      ensures idx == NIL <==> NoOrder(View().asks, orderId)
      ensures idx != NIL ==> HoldsOrder(View().asks, idx, orderId)
      ensures DistinctIds(View().asks) ==> FindsById(View().asks, idx, orderId)
    {
      ghost var side := View().asks;
      if header.asksRootIndex == NIL {
        EmptyTree(data[..], header.asksRootIndex, shape.asks);
        assert NoOrder(side, orderId);
        idx := NIL;
        if DistinctIds(side) {
          FoundById(side, idx, orderId);
        }
        return;
      }
      var tree := new RedBlackTree(data, header.asksRootIndex, NIL, shape.asks);
      ghost var steps;
      idx, steps := tree.LookupIndex(orderId);
      LookupMeaning(data[..], shape.asks, idx, orderId);
      if DistinctIds(side) {
        FoundById(side, idx, orderId);
      }
    }

    method ForEachAskBestFirst(keepGoing: seq<Entry> -> bool) returns (visited: seq<Entry>)
      requires Valid()
      ensures VisitsBestFirst(View().asks, visited, keepGoing)
    {
      var tree := new RedBlackTree(data, header.asksRootIndex, NIL, shape.asks);
      visited := ForEachBestFirst(tree, header.asksBestIndex, keepGoing);
    }

    /** Run a script of operations. */
    method RunOps(ops: seq<Op>)
      requires Valid() && EnabledRun(View(), ops)
      modifies this, data
      ensures Valid() && View() == Run(old(View()), ops)
    {
      ghost var v := View();
      for n := 0 to |ops|
        invariant Valid() && EnabledRun(View(), ops[n..])
        invariant Run(View(), ops[n..]) == Run(v, ops)
      {
        ghost var w := View();
        assert ops[n..][0] == ops[n] && ops[n..][1..] == ops[n + 1..];
        match ops[n] {
          case InsertBid(order) => var _ := InsertBid(order);
          case InsertAsk(order) => var _ := InsertAsk(order);
          case RemoveBid(slot) => RemoveBidNode(slot);
          case RemoveAsk(slot) => RemoveAskNode(slot);
          case Decrement(slot, delta) => var _ := DecrementSizeAt(slot, delta);
        }
      }
    }
  }

  function ResizeOutcome(r: Result<nat, BookError>): Outcome {
    match r
    case Success(size) => Resized(size)
    case Failure(e) => Failed(e)
  }

  /** A walk shows a prefix of the side, from the best order on, once each; it
      stops early only where the callback says so. The callback sees everything
      visited so far, so it may carry state. */
  ghost predicate VisitsBestFirst(side: seq<Entry>, visited: seq<Entry>, keepGoing: seq<Entry> -> bool) {
    && visited <= side
    && (forall k :: 0 < k < |visited| ==> keepGoing(side[..k]))
    && (|visited| < |side| ==> visited != [] && !keepGoing(visited))
  }

  lemma NextInOrder(s: seq<int>, n: nat, x: int, next: int)
    requires n < |s| && s[n] == x && IsNext(s, x, next)
    ensures next == if n + 1 < |s| then s[n + 1] else NIL
  {
  }

  /** Walk a tree in ascending id order, starting at the cached minimum. */
  method ForEachBestFirst(tree: RedBlackTree, cachedMin: int, keepGoing: seq<Entry> -> bool)
    returns (visited: seq<Entry>)
    requires tree.Linked() && (cachedMin == NIL || cachedMin == First(Inorder(tree.tree)))
    ensures InSlab(tree.data[..], Inorder(tree.tree))
    ensures VisitsBestFirst(SideView(tree.data[..], Inorder(tree.tree)), visited, keepGoing)
  {
    ghost var m, s := tree.data[..], Inorder(tree.tree);
    visited := [];
    if tree.root == NIL {
      EmptyTree(m, tree.root, tree.tree);
      return;
    }
    NonEmptyTree(m, tree.root, tree.tree);
    WalkSlots(m, tree.root, tree.tree);
    var idx := cachedMin;
    if idx == NIL {
      FocusReads(m, tree.root, Top, tree.tree);
      idx := tree.LeftmostDescendant(tree.root, Top, tree.tree);
    }
    ghost var n := 0;
    hide Slots, Inorder;
    while idx != NIL
      invariant 0 <= n <= |s| && idx == if n < |s| then s[n] else NIL
      invariant visited == SideView(m, s)[..n]
      invariant forall k :: 0 < k <= n ==> keepGoing(SideView(m, s)[..k])
      decreases |s| - n
    {
      visited := visited + [Entry(idx, tree.data[idx].value)];
      assert visited == SideView(m, s)[..n + 1];
      if !keepGoing(visited) {
        return;
      }
      var next := tree.SuccessorIndex(idx);
      NextInOrder(s, n, idx, next);
      idx := next;
      n := n + 1;
    }
  }

  /** Every slot of the walk is a slot of the tree and not NIL. */
  lemma WalkSlots(m: seq<Node>, root: int, t: Tree)
    requires Whole(m, root, Top, t)
    ensures forall k :: 0 <= k < |Inorder(t)| ==>
      Inorder(t)[k] in Slots(t) && Inorder(t)[k] != NIL && 0 <= Inorder(t)[k] < |m|
  {
    InorderSlots(t);
    WholeSlots(m, root, Top, t);
    forall k | 0 <= k < |Inorder(t)|
      ensures Inorder(t)[k] in Slots(t) && Inorder(t)[k] != NIL && 0 <= Inorder(t)[k] < |m|
    {
      assert Inorder(t)[k] in Inorder(t);
      assert Inorder(t)[k] in AllSlots(Top, t);
    }
  }

  function OutcomeOf(r: Result<int, BookError>): Outcome {
    match r
    case Success(idx) => Placed(idx)
    case Failure(e) => Failed(e)
  }

  /** The free list is empty exactly when its head is NIL. */
  lemma EmptyFreeIsNil(m: seq<Node>, h: MarketBookHeader, sh: Shape)
    requires Layout(m, h, sh, {})
    ensures h.freeListHeadIndex == NIL <==> sh.free == []
    ensures sh.free != [] ==> sh.free[0] != NIL
  {
  }

  /** A slot in limbo is in neither tree. */
  lemma LimboFacts(m: seq<Node>, h: MarketBookHeader, sh: Shape, x: int)
    requires Layout(m, h, sh, {x})
    ensures 0 <= x < |m| && x != NIL
    ensures x !in Slots(sh.bids) && x !in Slots(sh.asks)
    ensures x !in Inorder(sh.bids) && x !in Inorder(sh.asks)
    ensures NIL !in Inorder(sh.bids) && NIL !in Inorder(sh.asks)
  {
    assert x in Below(Bump(h));
    InorderSlots(sh.bids);
    InorderSlots(sh.asks);
    WholeSlots(m, h.bidsRootIndex, Top, sh.bids);
    WholeSlots(m, h.asksRootIndex, Top, sh.asks);
  }

  /** The cached best reads the same after an insertion elsewhere. */
  lemma FirstReads(m: seq<Node>, h: MarketBookHeader, sh: Shape, m': seq<Node>, x: int)
    requires Layout(m, h, sh, {x}) && |m'| == |m|
    requires forall s :: 0 <= s < |m| && s != x ==> m'[s].value == m[s].value
    ensures Inorder(sh.bids) != [] ==> var s := Inorder(sh.bids)[0]; 0 <= s < |m| && m'[s].value == m[s].value
    ensures Inorder(sh.asks) != [] ==> var s := Inorder(sh.asks)[0]; 0 <= s < |m| && m'[s].value == m[s].value
  {
    LimboFacts(m, h, sh, x);
    assert Inorder(sh.bids) != [] ==> Inorder(sh.bids)[0] in Inorder(sh.bids);
    assert Inorder(sh.asks) != [] ==> Inorder(sh.asks)[0] in Inorder(sh.asks);
  }

  /** The header written after an insertion into the bids is right. */
  lemma BidInserted(m: seq<Node>, h: MarketBookHeader, sh: Shape, x: int, m': seq<Node>,
                    root': int, t': Tree, order: Order)
    requires Layout(m, h, sh, {x}) && Caches(h, sh) && Inserted(m, m', sh.bids, root', t', x, order)
    requires Inorder(sh.bids) != [] ==> order.orderId != Key(m, Inorder(sh.bids)[0])
    ensures h.totalOrdersActive < U32_MAX
    ensures h.bidsBestIndex != NIL ==> 0 <= h.bidsBestIndex < |m'|
    ensures var best := if h.bidsBestIndex == NIL || order.orderId < m'[h.bidsBestIndex].value.orderId then x
                        else h.bidsBestIndex;
      var h' := h.(bidsRootIndex := root', bidsBestIndex := best, totalOrdersActive := h.totalOrdersActive + 1);
      var sh' := sh.(bids := t');
      && Layout(m', h', sh', {}) && Caches(h', sh')
      && BookLayout.View(m', h', sh')
         == BookLayout.View(m, h, sh).(bids := InsertEntry(BookLayout.View(m, h, sh).bids, Entry(x, order)))
  {
    LimboFacts(m, h, sh, x);
    InsertBidLayout(m, h, sh, x, m', root', t', order);
    BestAfterInsertExact(m, m', Inorder(sh.bids), x, order.orderId);
    InsertCount(m, Inorder(sh.bids), x, order.orderId);
    FirstReads(m, h, sh, m', x);
    OrderCountBound(m, h, sh, {x});
    assert Inorder(sh.bids) != [] ==> Inorder(sh.bids)[0] in Inorder(sh.bids);
  }

  /** The header written after an insertion into the asks is right. */
  lemma AskInserted(m: seq<Node>, h: MarketBookHeader, sh: Shape, x: int, m': seq<Node>,
                    root': int, t': Tree, order: Order)
    requires Layout(m, h, sh, {x}) && Caches(h, sh) && Inserted(m, m', sh.asks, root', t', x, order)
    requires Inorder(sh.asks) != [] ==> order.orderId != Key(m, Inorder(sh.asks)[0])
    ensures h.totalOrdersActive < U32_MAX
    ensures h.asksBestIndex != NIL ==> 0 <= h.asksBestIndex < |m'|
    ensures var best := if h.asksBestIndex == NIL || order.orderId < m'[h.asksBestIndex].value.orderId then x
                        else h.asksBestIndex;
      var h' := h.(asksRootIndex := root', asksBestIndex := best, totalOrdersActive := h.totalOrdersActive + 1);
      var sh' := sh.(asks := t');
      && Layout(m', h', sh', {}) && Caches(h', sh')
      && BookLayout.View(m', h', sh')
         == BookLayout.View(m, h, sh).(asks := InsertEntry(BookLayout.View(m, h, sh).asks, Entry(x, order)))
  {
    LimboFacts(m, h, sh, x);
    InsertAskLayout(m, h, sh, x, m', root', t', order);
    BestAfterInsertExact(m, m', Inorder(sh.asks), x, order.orderId);
    InsertCount(m, Inorder(sh.asks), x, order.orderId);
    FirstReads(m, h, sh, m', x);
    OrderCountBound(m, h, sh, {x});
    assert Inorder(sh.asks) != [] ==> Inorder(sh.asks)[0] in Inorder(sh.asks);
  }

  /** The header written after a removal from the bids is right. */
  lemma BidRemoved(m: seq<Node>, h: MarketBookHeader, sh: Shape, x: int, m': seq<Node>, root': int, t': Tree, best: int)
    requires Layout(m, h, sh, {}) && Caches(h, sh) && x in Slots(sh.bids)
    requires Dropped(m, m', sh.bids, root', t', x)
    requires if h.bidsBestIndex == x then IsNext(Inorder(sh.bids), x, best) else best == h.bidsBestIndex
    ensures h.totalOrdersActive > 0
    ensures
      var h' := h.(bidsRootIndex := root', bidsBestIndex := best, totalOrdersActive := h.totalOrdersActive - 1);
      var sh' := sh.(bids := t');
      && Layout(m', h', sh', {x}) && Caches(h', sh')
      && BookLayout.View(m', h', sh')
         == BookLayout.View(m, h, sh).(bids := RemoveEntry(BookLayout.View(m, h, sh).bids, x))
  {
    InorderSlots(sh.bids);
    InorderNoDup(sh.bids);
    RemoveBidLayout(m, h, sh, x, m', root', t');
    BestAfterRemove(Inorder(sh.bids), x, best);
    WithoutCount(Inorder(sh.bids), x);
  }

  /** The header written after a removal from the asks is right. */
  lemma AskRemoved(m: seq<Node>, h: MarketBookHeader, sh: Shape, x: int, m': seq<Node>, root': int, t': Tree, best: int)
    requires Layout(m, h, sh, {}) && Caches(h, sh) && x in Slots(sh.asks)
    requires Dropped(m, m', sh.asks, root', t', x)
    requires if h.asksBestIndex == x then IsNext(Inorder(sh.asks), x, best) else best == h.asksBestIndex
    ensures h.totalOrdersActive > 0
    ensures
      var h' := h.(asksRootIndex := root', asksBestIndex := best, totalOrdersActive := h.totalOrdersActive - 1);
      var sh' := sh.(asks := t');
      && Layout(m', h', sh', {x}) && Caches(h', sh')
      && BookLayout.View(m', h', sh')
         == BookLayout.View(m, h, sh).(asks := RemoveEntry(BookLayout.View(m, h, sh).asks, x))
  {
    InorderSlots(sh.asks);
    InorderNoDup(sh.asks);
    RemoveAskLayout(m, h, sh, x, m', root', t');
    BestAfterRemove(Inorder(sh.asks), x, best);
    WithoutCount(Inorder(sh.asks), x);
  }

  /** A lookup in the tree is a lookup in the side. */
  lemma LookupMeaning(m: seq<Node>, t: Tree, idx: int, orderId: nat)
    requires InSlab(m, Inorder(t)) && |m| <= NIL
    requires idx == NIL <==> Absent(m, t, orderId)
    requires idx != NIL ==> idx in Slots(t) && 0 <= idx < |m| && m[idx].value.orderId == orderId
    ensures var v := SideView(m, Inorder(t));
      (idx == NIL <==> NoOrder(v, orderId)) && (idx != NIL ==> HoldsOrder(v, idx, orderId))
  {
    InorderSlots(t);
    var s, v := Inorder(t), SideView(m, Inorder(t));
    if idx == NIL {
      forall i | 0 <= i < |v|
        ensures v[i].order.orderId != orderId
      {
        assert s[i] in Slots(t);
        assert Key(m, s[i]) != orderId;
      }
    } else {
      var i :| 0 <= i < |s| && s[i] == idx;
      assert v[i].slot == idx && v[i].order.orderId == orderId;
      assert HoldsOrder(v, idx, orderId) && !NoOrder(v, orderId);
    }
  }

  lemma EnabledSlot(m: seq<Node>, h: MarketBookHeader, sh: Shape, x: int)
    requires Layout(m, h, sh, {})
    ensures x in SideSlots(BookLayout.View(m, h, sh).bids) + SideSlots(BookLayout.View(m, h, sh).asks)
       <==> x in Slots(sh.bids) + Slots(sh.asks)
  {
    ViewConsistent(m, h, sh);
  }

  /** Writing the smaller size in place is the abstract decrement. */
  lemma DecrementStep(m: seq<Node>, h: MarketBookHeader, sh: Shape, x: int, delta: nat)
    requires Layout(m, h, sh, {}) && x in Slots(sh.bids) + Slots(sh.asks)
    ensures 0 <= x < |m| && Enabled(BookLayout.View(m, h, sh), Op.Decrement(x, delta))
    ensures m[x].value.sizeLots < delta ==>
      Step(BookLayout.View(m, h, sh), Op.Decrement(x, delta)) == (BookLayout.View(m, h, sh), Failed(ArithmeticOverflow))
    ensures m[x].value.sizeLots >= delta ==>
      var size := m[x].value.sizeLots - delta;
      && Layout(Sized(m, x, size), h, sh, {})
      && Step(BookLayout.View(m, h, sh), Op.Decrement(x, delta))
         == (BookLayout.View(Sized(m, x, size), h, sh), Resized(size))
  {
    hide Layout, BookLayout.View, Step, Enabled, SizeAt, Sized, InSlab, SideView, SideSlots, ResizeEntry,
      Slots, Inorder;
    SizeAtView(m, h, sh, x);
    LayoutInSlab(m, h, sh);
    DecrementSpec(BookLayout.View(m, h, sh), x, delta);
    if m[x].value.sizeLots >= delta {
      var size := m[x].value.sizeLots - delta;
      ResizeLayout(m, h, sh, x, size);
      ResizeBookView(m, h, sh, x, size);
    }
  }

  lemma LayoutInSlab(m: seq<Node>, h: MarketBookHeader, sh: Shape)
    requires Layout(m, h, sh, {})
    ensures InSlab(m, Inorder(sh.bids)) && InSlab(m, Inorder(sh.asks))
  {
  }

  lemma InsertCount(m: seq<Node>, s: seq<int>, x: int, k: nat)
    requires InSlab(m, s)
    ensures |InsertSorted(m, s, x, k)| == |s| + 1
  {
  }
}
