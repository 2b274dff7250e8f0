/** How the header and the slab hold a book: two trees and a free list sharing
    one array, a bump pointer, and the cached best slots and order count. */
module BookLayout {
  import opened Arithmetic
  import opened Nodes
  import opened Trees
  import opened TreeRep
  import opened TreeReads
  import opened TreeKeys
  import opened FreeLists
  import opened BookSpec

  /** The mutable fields of the account header. Indices are slots; the bump
      pointer is in bytes, as stored. */
  datatype MarketBookHeader = MarketBookHeader(
    bidsRootIndex: int,
    bidsBestIndex: int,
    asksRootIndex: int,
    asksBestIndex: int,
    claimedSeatsRootIndex: int,
    freeListHeadIndex: int,
    numBytesAllocated: nat,
    totalOrdersActive: nat)

  const EmptyHeader := MarketBookHeader(NIL, NIL, NIL, NIL, NIL, NIL, 0, 0)

  /** The trees and the free list that the slab encodes. */
  datatype Shape = Shape(bids: Tree, asks: Tree, free: seq<int>)

  ghost function FreeSet(free: seq<int>): set<int> {
    set i | 0 <= i < |free| :: free[i]
  }

  function Bump(h: MarketBookHeader): nat {
    h.numBytesAllocated / NODE_TOTAL_BYTES
  }

  ghost function First(s: seq<int>): int {
    if s == [] then NIL else s[0]
  }

  /** Both trees and the free list are in place, and with the slots of limbo they
      partition everything below the bump pointer. Slots above it are zero. */
  ghost predicate Layout(m: seq<Node>, h: MarketBookHeader, sh: Shape, limbo: set<int>) {
    && MAX_NODES <= |m| <= MAX_NODES_EXPANDED
    && WellFormed(m, h.bidsRootIndex, sh.bids) && WellFormed(m, h.asksRootIndex, sh.asks)
    && FreeRep(m, h.freeListHeadIndex, sh.free)
    && h.numBytesAllocated % NODE_TOTAL_BYTES == 0 && Bump(h) <= |m|
    && Partition(sh, limbo, Bump(h))
    && (forall s :: Bump(h) <= s < |m| ==> m[s] == ZeroNode)
    && h.claimedSeatsRootIndex == NIL
  }

  ghost predicate Partition(sh: Shape, limbo: set<int>, bump: nat) {
    && Slots(sh.bids) !! Slots(sh.asks)
    && Slots(sh.bids) + Slots(sh.asks) !! FreeSet(sh.free)
    && Slots(sh.bids) + Slots(sh.asks) + FreeSet(sh.free) !! limbo
    && Slots(sh.bids) + Slots(sh.asks) + FreeSet(sh.free) + limbo == Below(bump)
  }

  /** The cached indices are the smallest keys, the count is the number of orders. */
  ghost predicate Caches(h: MarketBookHeader, sh: Shape) {
    && h.bidsBestIndex == First(Inorder(sh.bids))
    && h.asksBestIndex == First(Inorder(sh.asks))
    && h.totalOrdersActive == |Inorder(sh.bids)| + |Inorder(sh.asks)|
  }

  // ----- the abstract book -----

  ghost function SideView(m: seq<Node>, s: seq<int>): (r: seq<Entry>)
    requires InSlab(m, s)
    ensures |r| == |s| && forall i :: 0 <= i < |s| ==> r[i] == Entry(s[i], m[s[i]].value)
  {
    seq(|s|, i requires 0 <= i < |s| => Entry(s[i], m[s[i]].value))
  }

  ghost function View(m: seq<Node>, h: MarketBookHeader, sh: Shape): Book
    requires InSlab(m, Inorder(sh.bids)) && InSlab(m, Inorder(sh.asks))
  {
    Book(SideView(m, Inorder(sh.bids)), SideView(m, Inorder(sh.asks)), sh.free, Bump(h), |m|)
  }

  lemma SideViewFrame(m: seq<Node>, m': seq<Node>, s: seq<int>)
    requires InSlab(m, s) && |m'| == |m|
    requires forall i :: 0 <= i < |s| ==> m'[s[i]].value == m[s[i]].value
    ensures SideView(m', s) == SideView(m, s)
  {
  }

  lemma SideViewSlots(m: seq<Node>, t: Tree)
    requires InSlab(m, Inorder(t))
    ensures SideSlots(SideView(m, Inorder(t))) == Slots(t)
  {
    InorderSlots(t);
    var s := Inorder(t);
    var v := SideView(m, s);
    forall x
      ensures x in SideSlots(v) <==> x in Slots(t)
    {
      if x in Slots(t) {
        var i :| 0 <= i < |s| && s[i] == x;
        assert v[i].slot == x;
      }
    }
  }

  lemma SideViewCons(m: seq<Node>, x: int, s: seq<int>)
    requires InSlab(m, s) && 0 <= x < |m|
    ensures InSlab(m, [x] + s)
    ensures SideView(m, [x] + s) == [Entry(x, m[x].value)] + SideView(m, s)
  {
  }

  lemma InsertSortedCons(m: seq<Node>, s: seq<int>, x: int, k: nat)
    requires InSlab(m, s) && s != []
    ensures InSlab(m, s[1..])
    ensures InsertSorted(m, s, x, k)
         == if Key(m, s[0]) < k then [s[0]] + InsertSorted(m, s[1..], x, k) else [x] + s
  {
  }

  lemma {:induction false} InsertView(m: seq<Node>, m': seq<Node>, s: seq<int>, x: int, order: Order)
    requires InSlab(m, s) && x !in s && |m'| == |m| && 0 <= x < |m| && m'[x].value == order
    requires forall y :: 0 <= y < |m| && y != x ==> m'[y].value == m[y].value
    ensures InSlab(m', InsertSorted(m, s, x, order.orderId))
    ensures SideView(m', InsertSorted(m, s, x, order.orderId)) == InsertEntry(SideView(m, s), Entry(x, order))
  {
    var k, v := order.orderId, SideView(m, s);
    if s == [] {
      assert InsertSorted(m, s, x, k) == [x];
    } else {
      InsertSortedCons(m, s, x, k);
      assert s == [s[0]] + s[1..];
      SideViewCons(m, s[0], s[1..]);
      if Key(m, s[0]) < k {
        InsertView(m, m', s[1..], x, order);
        SideViewCons(m', s[0], InsertSorted(m, s[1..], x, k));
      } else {
        SideViewFrame(m, m', s);
        SideViewCons(m', x, s);
      }
    }
  }

  lemma {:induction false} RemoveView(m: seq<Node>, s: seq<int>, x: int)
    requires InSlab(m, s)
    ensures InSlab(m, Without(s, x))
    ensures SideView(m, Without(s, x)) == RemoveEntry(SideView(m, s), x)
  {
    if s != [] {
      var v := SideView(m, s);
      assert v[1..] == SideView(m, s[1..]);
      RemoveView(m, s[1..], x);
      if s[0] != x {
        assert SideView(m, [s[0]] + Without(s[1..], x)) == [v[0]] + SideView(m, Without(s[1..], x));
      }
    }
  }

  /** The slab with another size in slot x. */
  ghost function Sized(m: seq<Node>, x: int, size: nat): seq<Node>
    requires 0 <= x < |m|
  {
    m[x := m[x].(value := m[x].value.(sizeLots := size))]
  }

  lemma ResizeView(m: seq<Node>, m': seq<Node>, s: seq<int>, x: int, size: nat)
    requires InSlab(m, s) && 0 <= x < |m|
    requires m' == Sized(m, x, size)
    ensures SideView(m', s) == ResizeEntry(SideView(m, s), x, size)
  {
  }

  /** The abstract book of a laid-out slab is consistent. */
  lemma ViewConsistent(m: seq<Node>, h: MarketBookHeader, sh: Shape)
    requires Layout(m, h, sh, {})
    ensures Consistent(View(m, h, sh))
    ensures SideSlots(View(m, h, sh).bids) == Slots(sh.bids)
    ensures SideSlots(View(m, h, sh).asks) == Slots(sh.asks)
  {
    SideViewSlots(m, sh.bids);
    SideViewSlots(m, sh.asks);
    InorderNoDup(sh.bids);
    InorderNoDup(sh.asks);
    var v := View(m, h, sh);
    assert FreeSlots(v) == FreeSet(sh.free);
  }

  // ----- counting -----

  lemma {:induction false} SlotCount(t: Tree)
    requires Distinct(t)
    ensures |Slots(t)| == |Inorder(t)|
  {
    match t
    case Leaf =>
    case Branch(l, s, _, r) =>
      SlotCount(l);
      SlotCount(r);
      UnionCount(Slots(l), s, Slots(r));
  }

  lemma UnionCount(a: set<int>, x: int, b: set<int>)
    requires a !! b && x !in a && x !in b
    ensures |a + {x} + b| == |a| + 1 + |b|
  {
  }

  lemma {:induction false} BelowCount(n: nat)
    ensures |Below(n)| == n
  {
    if n > 0 {
      BelowCount(n - 1);
    }
  }

  /** There are at most as many orders as slots below the bump pointer. */
  lemma OrderCountBound(m: seq<Node>, h: MarketBookHeader, sh: Shape, limbo: set<int>)
    requires Layout(m, h, sh, limbo)
    ensures |Inorder(sh.bids)| + |Inorder(sh.asks)| <= Bump(h)
  {
    SlotCount(sh.bids);
    SlotCount(sh.asks);
    BelowCount(Bump(h));
    SubsetCount(Slots(sh.bids) + Slots(sh.asks), Below(Bump(h)));
  }

  lemma {:induction false} WithoutCount(s: seq<int>, x: int)
    requires NoDup(s) && x in s
    ensures |Without(s, x)| == |s| - 1
  {
    if s[0] == x {
      assert x !in s[1..];
      WithoutAbsent(s[1..], x);
    } else {
      WithoutCount(s[1..], x);
    }
  }

  // ----- frames for the parts that an operation leaves alone -----

  lemma WellFormedFrame(m: seq<Node>, m': seq<Node>, root: int, t: Tree)
    requires WellFormed(m, root, t) && |m'| == |m|
    requires forall s :: s in Slots(t) && 0 <= s < |m| ==> m'[s] == m[s]
    ensures WellFormed(m', root, t)
    ensures SideView(m', Inorder(t)) == SideView(m, Inorder(t))
  {
    var top := Top;
    WholeFrame(m, m', root, top, t);
    InorderSlots(t);
    assert forall i :: 0 <= i < |Inorder(t)| ==> Inorder(t)[i] in Slots(t);
  }

  // ----- allocation -----

  lemma FreeSetCons(x: int, free: seq<int>)
    ensures FreeSet([x] + free) == {x} + FreeSet(free)
  {
    var f := [x] + free;
    assert f[0] == x;
    assert forall i :: 0 <= i < |free| ==> f[i + 1] == free[i];
  }

  lemma PopPartition(sh: Shape, bump: nat)
    requires Partition(sh, {}, bump) && sh.free != [] && NoDup(sh.free)
    ensures Partition(sh.(free := sh.free[1..]), {sh.free[0]}, bump)
    ensures sh.free[0] in Below(bump)
    ensures sh.free[0] !in Slots(sh.bids) && sh.free[0] !in Slots(sh.asks)
  {
    var x, rest := sh.free[0], sh.free[1..];
    FreeSetCons(x, rest);
    assert sh.free == [x] + rest;
    assert forall i :: 0 <= i < |rest| ==> rest[i] == sh.free[i + 1];
    assert x !in FreeSet(rest);
  }

  lemma PushPartition(sh: Shape, x: int, bump: nat)
    requires Partition(sh, {x}, bump)
    ensures Partition(sh.(free := [x] + sh.free), {}, bump)
    ensures x in Below(bump) && x !in sh.free
    ensures x !in Slots(sh.bids) && x !in Slots(sh.asks)
  {
    FreeSetCons(x, sh.free);
    assert forall s :: s in sh.free ==> s in FreeSet(sh.free);
  }

  /** Taking a slot off the free list. */
  lemma PopFree(m: seq<Node>, h: MarketBookHeader, sh: Shape)
    requires Layout(m, h, sh, {}) && sh.free != []
    ensures 0 <= sh.free[0] < |m|
    ensures FreeRep(m[sh.free[0] := ZeroNode], Head(sh.free[1..]), sh.free[1..]) ==>
      Layout(m[sh.free[0] := ZeroNode], h.(freeListHeadIndex := Head(sh.free[1..])),
             sh.(free := sh.free[1..]), {sh.free[0]})
    ensures View(m, h, sh).bids == SideView(m[sh.free[0] := ZeroNode], Inorder(sh.bids))
    ensures View(m, h, sh).asks == SideView(m[sh.free[0] := ZeroNode], Inorder(sh.asks))
  {
    var x := sh.free[0];
    PopPartition(sh, Bump(h));
    var m' := m[x := ZeroNode];
    WellFormedFrame(m, m', h.bidsRootIndex, sh.bids);
    WellFormedFrame(m, m', h.asksRootIndex, sh.asks);
  }

  /** Taking the slot at the bump pointer. */
  lemma BumpAlloc(m: seq<Node>, h: MarketBookHeader, sh: Shape)
    requires Layout(m, h, sh, {}) && sh.free == [] && Bump(h) < |m|
    ensures var h' := h.(numBytesAllocated := h.numBytesAllocated + NODE_TOTAL_BYTES);
      Bump(h') == Bump(h) + 1 && Layout(m, h', sh, {Bump(h)})
  {
    var h' := h.(numBytesAllocated := h.numBytesAllocated + NODE_TOTAL_BYTES);
    assert Bump(h') == Bump(h) + 1;
    assert Below(Bump(h')) == Below(Bump(h)) + {Bump(h)};
  }

  // ----- insertion -----

  /** The cached best after an insertion is the smallest key exactly when the new
      id is not the id of the old best: an equal id goes in front of it unseen. */
  lemma BestAfterInsertExact(m: seq<Node>, m': seq<Node>, s: seq<int>, x: int, k: nat)
    requires SortedKeys(m, s) && x !in s && x != NIL && NIL !in s
    ensures (if First(s) == NIL || k < Key(m, First(s)) then x else First(s)) == First(InsertSorted(m, s, x, k))
       <==> s == [] || k != Key(m, s[0])
  {
    if s != [] {
      assert s[0] in s;
      LowerBoundMeaning(m, s, k);
      var n := LowerBound(m, s, k);
      assert InsertSorted(m, s, x, k)[0] == if n == 0 then x else s[0];
      assert n == 0 <==> Key(m, s[0]) >= k;
    }
  }

  /** What the tree insertion did to the slab, on one side. */
  ghost predicate Inserted(m: seq<Node>, m': seq<Node>, t: Tree, root': int, t': Tree, x: int, order: Order) {
    && InSlab(m, Inorder(t))
    && WellFormed(m', root', t') && Slots(t') == Slots(t) + {x}
    && Inorder(t') == InsertSorted(m, Inorder(t), x, order.orderId)
    && Grown(m, m', Slots(t), x, order)
  }

  lemma InsertBidLayout(m: seq<Node>, h: MarketBookHeader, sh: Shape, x: int, m': seq<Node>,
                        root': int, t': Tree, order: Order)
    requires Layout(m, h, sh, {x}) && Inserted(m, m', sh.bids, root', t', x, order)
    ensures Layout(m', h.(bidsRootIndex := root'), sh.(bids := t'), {})
    ensures SideView(m', Inorder(t')) == InsertEntry(SideView(m, Inorder(sh.bids)), Entry(x, order))
    ensures SideView(m', Inorder(sh.asks)) == SideView(m, Inorder(sh.asks))
  {
    WellFormedFrame(m, m', h.asksRootIndex, sh.asks);
    InsertedRest(m, h, sh, x, m', sh.bids, root', t', order);
  }

  lemma InsertAskLayout(m: seq<Node>, h: MarketBookHeader, sh: Shape, x: int, m': seq<Node>,
                        root': int, t': Tree, order: Order)
    requires Layout(m, h, sh, {x}) && Inserted(m, m', sh.asks, root', t', x, order)
    ensures Layout(m', h.(asksRootIndex := root'), sh.(asks := t'), {})
    ensures SideView(m', Inorder(t')) == InsertEntry(SideView(m, Inorder(sh.asks)), Entry(x, order))
    ensures SideView(m', Inorder(sh.bids)) == SideView(m, Inorder(sh.bids))
  {
    WellFormedFrame(m, m', h.bidsRootIndex, sh.bids);
    InsertedRest(m, h, sh, x, m', sh.asks, root', t', order);
  }

  lemma InsertedRest(m: seq<Node>, h: MarketBookHeader, sh: Shape, x: int, m': seq<Node>, t: Tree,
                     root': int, t': Tree, order: Order)
    requires Layout(m, h, sh, {x}) && (t == sh.bids || t == sh.asks)
    requires Inserted(m, m', t, root', t', x, order)
    ensures FreeRep(m', h.freeListHeadIndex, sh.free)
    ensures forall s :: Bump(h) <= s < |m| ==> m'[s] == ZeroNode
    ensures SideView(m', Inorder(t')) == InsertEntry(SideView(m, Inorder(t)), Entry(x, order))
  {
    assert x in Below(Bump(h)) && Slots(t) <= Below(Bump(h));
    assert forall s :: s in sh.free ==> s in FreeSet(sh.free);
    FreeFrame(m, m', h.freeListHeadIndex, sh.free);
    InorderSlots(t);
    InsertView(m, m', Inorder(t), x, order);
  }

  // ----- removal -----

  /** What the tree removal did to the slab, on one side. */
  ghost predicate Dropped(m: seq<Node>, m': seq<Node>, t: Tree, root': int, t': Tree, x: int) {
    && WellFormed(m', root', t') && Slots(t') == Slots(t) - {x}
    && Inorder(t') == Without(Inorder(t), x)
    && Confined(m, m', Slots(t))
  }

  lemma RemoveBidLayout(m: seq<Node>, h: MarketBookHeader, sh: Shape, x: int, m': seq<Node>, root': int, t': Tree)
    requires Layout(m, h, sh, {}) && x in Slots(sh.bids) && Dropped(m, m', sh.bids, root', t', x)
    ensures Layout(m', h.(bidsRootIndex := root'), sh.(bids := t'), {x})
    ensures SideView(m', Inorder(t')) == RemoveEntry(SideView(m, Inorder(sh.bids)), x)
    ensures SideView(m', Inorder(sh.asks)) == SideView(m, Inorder(sh.asks))
  {
    WellFormedFrame(m, m', h.asksRootIndex, sh.asks);
    DroppedRest(m, h, sh, x, m', sh.bids, root', t');
  }

  lemma RemoveAskLayout(m: seq<Node>, h: MarketBookHeader, sh: Shape, x: int, m': seq<Node>, root': int, t': Tree)
    requires Layout(m, h, sh, {}) && x in Slots(sh.asks) && Dropped(m, m', sh.asks, root', t', x)
    ensures Layout(m', h.(asksRootIndex := root'), sh.(asks := t'), {x})
    ensures SideView(m', Inorder(t')) == RemoveEntry(SideView(m, Inorder(sh.asks)), x)
    ensures SideView(m', Inorder(sh.bids)) == SideView(m, Inorder(sh.bids))
  {
    WellFormedFrame(m, m', h.bidsRootIndex, sh.bids);
    DroppedRest(m, h, sh, x, m', sh.asks, root', t');
  }

  lemma DroppedRest(m: seq<Node>, h: MarketBookHeader, sh: Shape, x: int, m': seq<Node>, t: Tree, root': int, t': Tree)
    requires Layout(m, h, sh, {}) && (t == sh.bids || t == sh.asks) && x in Slots(t)
    requires Dropped(m, m', t, root', t', x)
    ensures FreeRep(m', h.freeListHeadIndex, sh.free)
    ensures forall s :: Bump(h) <= s < |m| ==> m'[s] == ZeroNode
    ensures SideView(m', Inorder(t')) == RemoveEntry(SideView(m, Inorder(t)), x)
  {
    assert Slots(t) <= Below(Bump(h));
    assert forall s :: s in sh.free ==> s in FreeSet(sh.free);
    FreeFrame(m, m', h.freeListHeadIndex, sh.free);
    RemoveView(m, Inorder(t), x);
    SideViewFrame(m, m', Inorder(t'));
  }

  /** Putting the limbo slot on the free list. */
  lemma PushFree(m: seq<Node>, h: MarketBookHeader, sh: Shape, x: int)
    requires Layout(m, h, sh, {x})
    ensures 0 <= x < |m| && x !in sh.free && x != h.freeListHeadIndex
    ensures Layout(Added(m, h.freeListHeadIndex, x), h.(freeListHeadIndex := x), sh.(free := [x] + sh.free), {})
    ensures SideView(Added(m, h.freeListHeadIndex, x), Inorder(sh.bids)) == SideView(m, Inorder(sh.bids))
    ensures SideView(Added(m, h.freeListHeadIndex, x), Inorder(sh.asks)) == SideView(m, Inorder(sh.asks))
  {
    PushPartition(sh, x, Bump(h));
    assert sh.free != [] ==> sh.free[0] in sh.free;
    AddRep(m, h.freeListHeadIndex, sh.free, x);
    var m' := Added(m, h.freeListHeadIndex, x);
    WellFormedFrame(m, m', h.bidsRootIndex, sh.bids);
    WellFormedFrame(m, m', h.asksRootIndex, sh.asks);
  }

  /** The cached best after a removal: its successor when it is the one removed. */
  lemma BestAfterRemove(s: seq<int>, x: int, next: int)
    requires NoDup(s) && x in s
    requires s[0] == x ==> IsNext(s, x, next)
    ensures First(Without(s, x)) == if s[0] == x then next else s[0]
  {
    if s[0] == x {
      assert x !in s[1..];
      WithoutAbsent(s[1..], x);
      assert IsNext(s, x, next);
      var k := 0;
      assert s[k] == x;
      assert next == if k + 1 < |s| then s[k + 1] else NIL;
    }
  }

  // ----- resizing -----

  lemma ResizeWellFormed(m: seq<Node>, m': seq<Node>, root: int, t: Tree, x: int, size: nat)
    requires WellFormed(m, root, t) && 0 <= x < |m|
    requires m' == Sized(m, x, size)
    ensures WellFormed(m', root, t)
  {
    var top := Top;
    WholeFrame(m, m', root, top, t);
  }

  lemma ResizeLayout(m: seq<Node>, h: MarketBookHeader, sh: Shape, x: int, size: nat)
    requires Layout(m, h, sh, {}) && x in Slots(sh.bids) + Slots(sh.asks)
    ensures 0 <= x < |m|
    ensures Layout(Sized(m, x, size), h, sh, {})
  {
    assert x in Below(Bump(h));
    var m' := Sized(m, x, size);
    ResizeWellFormed(m, m', h.bidsRootIndex, sh.bids, x, size);
    ResizeWellFormed(m, m', h.asksRootIndex, sh.asks, x, size);
    assert forall s :: s in sh.free ==> s in FreeSet(sh.free);
    FreeFrame(m, m', h.freeListHeadIndex, sh.free);
  }

  lemma ResizeBookView(m: seq<Node>, h: MarketBookHeader, sh: Shape, x: int, size: nat)
    requires InSlab(m, Inorder(sh.bids)) && InSlab(m, Inorder(sh.asks)) && 0 <= x < |m|
    ensures var m' := Sized(m, x, size);
      && InSlab(m', Inorder(sh.bids)) && InSlab(m', Inorder(sh.asks))
      && View(m', h, sh) == View(m, h, sh).(
           bids := ResizeEntry(View(m, h, sh).bids, x, size),
           asks := ResizeEntry(View(m, h, sh).asks, x, size))
  {
    var m' := Sized(m, x, size);
    ResizeView(m, m', Inorder(sh.bids), x, size);
    ResizeView(m, m', Inorder(sh.asks), x, size);
  }

  /** The size read at a live slot is the size of its entry. */
  lemma SizeAtView(m: seq<Node>, h: MarketBookHeader, sh: Shape, x: int)
    requires Layout(m, h, sh, {}) && x in Slots(sh.bids) + Slots(sh.asks)
    ensures 0 <= x < |m|
    ensures x in SideSlots(View(m, h, sh).bids) + SideSlots(View(m, h, sh).asks)
    ensures SizeAt(View(m, h, sh), x) == m[x].value.sizeLots
  {
    ViewConsistent(m, h, sh);
    assert x in Below(Bump(h));
    var v := View(m, h, sh);
    var e := Entry(x, m[x].value);
    if x in SideSlots(v.bids) {
      var i :| 0 <= i < |v.bids| && v.bids[i].slot == x;
      OrderOfEntry(v.bids, v.bids[i]);
    } else {
      var i :| 0 <= i < |v.asks| && v.asks[i].slot == x;
      OrderOfEntry(v.asks, v.asks[i]);
    }
  }
}
