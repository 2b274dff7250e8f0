/** What each operation of the abstract book does, said without the operations: in
    terms of the map from slots to orders, the free slots, and the outcome. */
module BookEffects {
  import opened Nodes
  import opened OrderIds
  import opened BookSpec
  import opened BookIds

  ghost function Own(s: Book, isBid: bool): seq<Entry> {
    if isBid then s.bids else s.asks
  }

  function InsertOp(isBid: bool, o: Order): Op {
    if isBid then InsertBid(o) else InsertAsk(o)
  }

  function RemoveOp(isBid: bool, slot: int): Op {
    if isBid then RemoveBid(slot) else RemoveAsk(slot)
  }

  /** A placement fails for its sequence number, or because every slot of the slab is
      live, and in no other case; otherwise it takes a slot that is not live and adds
      the order there, and nothing else of the book changes. */
  lemma InsertEffect(s: Book, isBid: bool, o: Order)
    requires Consistent(s) && Enabled(s, InsertOp(isBid, o))
    ensures var (s', res) := Step(s, InsertOp(isBid, o));
      && (res == Failed(OrderSeqExhausted) <==> !SeqIsEncodable(o.orderSeq))
      && (res == Failed(BufferFull) <==> SeqIsEncodable(o.orderSeq) && Live(s) == Below(s.capacity))
      && (res.Placed? <==> SeqIsEncodable(o.orderSeq) && Live(s) != Below(s.capacity))
      && (!res.Placed? ==> s' == s)
      && (res.Placed? ==> PlacedAt(s, s', isBid, o, res.slot))
  {
    FullExact(s);
    if SeqIsEncodable(o.orderSeq) && CanAlloc(s) {
      AllocKeeps(s);
      InsertIsMapUpdate(Own(s, isBid), Entry(NextSlot(s), o));
      if s.free != [] {
        FreeAfterAlloc(s);
      }
    }
  }

  /** Slot x was not live and now holds the order; the last slot freed is reused first. */
  ghost predicate PlacedAt(s: Book, s': Book, isBid: bool, o: Order, x: int) {
    && x !in Live(s) && 0 <= x < s.capacity
    && SideMap(Own(s', isBid)) == SideMap(Own(s, isBid))[x := o]
    && Own(s', !isBid) == Own(s, !isBid) && s'.capacity == s.capacity
    && (if s.free == [] then x == s.bump && s'.free == [] && s'.bump == s.bump + 1
        else s.free == [x] + s'.free && s'.bump == s.bump)
  }

  lemma FreeAfterAlloc(s: Book)
    requires CanAlloc(s) && s.free != []
    ensures s.free == [NextSlot(s)] + AfterAlloc(s).free
  {
  }

  /** A removal takes the named slot out of its side and puts it in front of the free
      slots, and nothing else of the book changes. */
  lemma RemoveEffect(s: Book, isBid: bool, slot: int)
    requires Consistent(s) && Enabled(s, RemoveOp(isBid, slot))
    ensures var (s', res) := Step(s, RemoveOp(isBid, slot));
      && res == Removed
      && SideMap(Own(s', isBid)) == SideMap(Own(s, isBid)) - {slot}
      && Own(s', !isBid) == Own(s, !isBid)
      && s'.free == [slot] + s.free && s'.bump == s.bump && s'.capacity == s.capacity
  {
    RemoveIsMapRemoval(Own(s, isBid), slot);
  }

  /** The orders of both sides, by slot. */
  ghost function BookMap(s: Book): map<int, Order> {
    SideMap(s.bids) + SideMap(s.asks)
  }

  /** A decrement is refused exactly when it is more than the order has left; otherwise
      that one order has so much less, and nothing else of the book changes. */
  lemma DecrementEffect(s: Book, slot: int, delta: nat)
    requires Consistent(s) && Enabled(s, Decrement(slot, delta))
    ensures slot in BookMap(s)
    ensures var (s', res) := Step(s, Decrement(slot, delta));
      var o := BookMap(s)[slot];
      if o.sizeLots < delta then res == Failed(ArithmeticOverflow) && s' == s
      else
        && res == Resized(o.sizeLots - delta)
        && BookMap(s') == BookMap(s)[slot := o.(sizeLots := o.sizeLots - delta)]
        && SideSlots(s'.bids) == SideSlots(s.bids) && SideSlots(s'.asks) == SideSlots(s.asks)
        && s'.free == s.free && s'.bump == s.bump && s'.capacity == s.capacity
  {
    hide Step, SizeAt, SideMap, BookMap, Consistent, ResizeEntry;
    OrderAt(s, slot);
    DecrementSpec(s, slot, delta);
    if SizeAt(s, slot) >= delta {
      ResizedBook(s, slot, SizeAt(s, slot) - delta);
    }
  }

  lemma ResizedBook(s: Book, slot: int, size: nat)
    requires Consistent(s) && slot in Live(s)
    ensures slot in BookMap(s)
    ensures var s' := s.(bids := ResizeEntry(s.bids, slot, size), asks := ResizeEntry(s.asks, slot, size));
      && BookMap(s') == BookMap(s)[slot := BookMap(s)[slot].(sizeLots := size)]
      && SideSlots(s'.bids) == SideSlots(s.bids) && SideSlots(s'.asks) == SideSlots(s.asks)
  {
    hide SideMap, SideSlots, OrderOf, ResizeEntry, Sorted, DistinctSlots, NoDup, FreeSlots;
    OrderAt(s, slot);
    ResizeSide(s.bids, slot, size);
    ResizeSide(s.asks, slot, size);
    var o' := BookMap(s)[slot].(sizeLots := size);
    if slot in SideSlots(s.bids) {
      MergeLeft(SideMap(s.bids), SideMap(s.asks), slot, o');
    } else {
      MergeRight(SideMap(s.bids), SideMap(s.asks), slot, o');
    }
  }

  lemma OrderAt(s: Book, slot: int)
    requires Consistent(s) && slot in Live(s)
    ensures SideMap(s.bids).Keys == SideSlots(s.bids) && SideMap(s.asks).Keys == SideSlots(s.asks)
    ensures slot in SideSlots(s.bids) ==> slot !in SideSlots(s.asks) && BookMap(s)[slot] == OrderOf(s.bids, slot)
    ensures slot in SideSlots(s.asks) ==> slot !in SideSlots(s.bids) && BookMap(s)[slot] == OrderOf(s.asks, slot)
    ensures slot in BookMap(s) && BookMap(s)[slot].sizeLots == SizeAt(s, slot)
  {
  }

  lemma MergeLeft(a: map<int, Order>, b: map<int, Order>, k: int, o: Order)
    requires k !in b
    ensures a[k := o] + b == (a + b)[k := o]
  {
  }

  lemma MergeRight(a: map<int, Order>, b: map<int, Order>, k: int, o: Order)
    ensures a + b[k := o] == (a + b)[k := o]
  {
  }

  lemma ResizeSide(side: seq<Entry>, slot: int, size: nat)
    requires Sorted(side) && DistinctSlots(side)
    ensures SideSlots(ResizeEntry(side, slot, size)) == SideSlots(side)
    ensures SideMap(ResizeEntry(side, slot, size))
         == if slot in SideSlots(side) then SideMap(side)[slot := OrderOf(side, slot).(sizeLots := size)]
            else SideMap(side)
  {
    ResizeEntryKeeps(side, slot, size);
    if slot in SideSlots(side) {
      ResizeIsMapUpdate(side, slot, size);
    } else {
      var r := ResizeEntry(side, slot, size);
      forall i | 0 <= i < |side|
        ensures r[i] == side[i]
      {
        assert side[i].slot in SideSlots(side);
      }
      assert r == side;
    }
  }

  // ----- by id -----

  /** The order rests under its id in slot x, which was not live; the rest is as it was. */
  ghost predicate AddedUnder(s: Book, s': Book, isBid: bool, x: int, o: Order) {
    && x !in Live(s) && Own(s', !isBid) == Own(s, !isBid)
    && IdMap(Own(s', isBid)) == IdMap(Own(s, isBid))[o.orderId := Entry(x, o)]
  }

  lemma InsertIdEffect(s: Book, isBid: bool, o: Order)
    requires Consistent(s) && IdsDistinct(s) && Enabled(s, InsertOp(isBid, o)) && o.orderId !in Ids(Own(s, isBid))
    ensures var (s', res) := Step(s, InsertOp(isBid, o)); res.Placed? ==> AddedUnder(s, s', isBid, res.slot, o)
  {
    if SeqIsEncodable(o.orderSeq) && CanAlloc(s) {
      AllocKeeps(s);
      InsertIsIdUpdate(Own(s, isBid), Entry(NextSlot(s), o));
    }
  }

  /** A removal takes the id of the named order, and no other, off its side. */
  lemma RemoveIdEffect(s: Book, isBid: bool, slot: int)
    requires Consistent(s) && IdsDistinct(s) && Enabled(s, RemoveOp(isBid, slot))
    ensures var s' := Step(s, RemoveOp(isBid, slot)).0;
      && IdMap(Own(s', isBid)) == IdMap(Own(s, isBid)) - {OrderOf(Own(s, isBid), slot).orderId}
      && Own(s', !isBid) == Own(s, !isBid)
  {
    RemoveIsIdRemoval(Own(s, isBid), Entry(slot, OrderOf(Own(s, isBid), slot)));
  }
}
