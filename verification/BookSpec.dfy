/** The order book as an abstract machine: two sorted sides, a LIFO list of free
    slots and a bump pointer. The slab, the trees and the cached indices are not
    mentioned; the book refines this machine step by step. */
module BookSpec {
  import opened Nodes
  import opened OrderIds
  import opened Wrappers

  datatype Entry = Entry(slot: int, order: Order)

  datatype Book = Book(bids: seq<Entry>, asks: seq<Entry>, free: seq<int>, bump: nat, capacity: nat)

  datatype BookError = OrderSeqExhausted | BufferFull | ArithmeticOverflow

  datatype Op =
    | InsertBid(order: Order)
    | InsertAsk(order: Order)
    | RemoveBid(slot: int)
    | RemoveAsk(slot: int)
    | Decrement(slot: int, delta: nat)

  datatype Outcome = Placed(slot: int) | Removed | Resized(size: nat) | Failed(error: BookError)

  // ----- one side -----

  /** After every smaller id, before every other. */
  function InsertEntry(side: seq<Entry>, e: Entry): seq<Entry> {
    if side == [] then [e]
    else if side[0].order.orderId < e.order.orderId then [side[0]] + InsertEntry(side[1..], e)
    else [e] + side
  }

  function RemoveEntry(side: seq<Entry>, slot: int): seq<Entry> {
    if side == [] then []
    else if side[0].slot == slot then RemoveEntry(side[1..], slot)
    else [side[0]] + RemoveEntry(side[1..], slot)
  }

  function Shrink(e: Entry, slot: int, size: nat): Entry {
    if e.slot == slot then e.(order := e.order.(sizeLots := size)) else e
  }

  function ResizeEntry(side: seq<Entry>, slot: int, size: nat): (r: seq<Entry>)
    ensures |r| == |side| && forall i :: 0 <= i < |r| ==> r[i] == Shrink(side[i], slot, size)
  {
    seq(|side|, i requires 0 <= i < |side| => Shrink(side[i], slot, size))
  }

  ghost function SideSlots(side: seq<Entry>): set<int> {
    set i | 0 <= i < |side| :: side[i].slot
  }

  ghost predicate Sorted(side: seq<Entry>) {
    forall i, j :: 0 <= i < j < |side| ==> side[i].order.orderId <= side[j].order.orderId
  }

  ghost predicate DistinctSlots(side: seq<Entry>) {
    forall i, j :: 0 <= i < j < |side| ==> side[i].slot != side[j].slot
  }

  // ----- steps -----

  /** The slot the allocator hands out: the last one freed, else the next unused. */
  predicate CanAlloc(s: Book) {
    s.free != [] || s.bump < s.capacity
  }

  function NextSlot(s: Book): int
    requires CanAlloc(s)
  {
    if s.free != [] then s.free[0] else s.bump
  }

  function AfterAlloc(s: Book): Book
    requires CanAlloc(s)
  {
    if s.free != [] then s.(free := s.free[1..]) else s.(bump := s.bump + 1)
  }

  /** What the program asks of callers: removals and decrements name a live order,
      and a new id, if it gets that far, is not the id of the current best order on
      its side. */
  ghost predicate Enabled(s: Book, op: Op) {
    match op
    case InsertBid(o) => SeqIsEncodable(o.orderSeq) && s.bids != [] ==> o.orderId != s.bids[0].order.orderId
    case InsertAsk(o) => SeqIsEncodable(o.orderSeq) && s.asks != [] ==> o.orderId != s.asks[0].order.orderId
    case RemoveBid(slot) => slot in SideSlots(s.bids)
    case RemoveAsk(slot) => slot in SideSlots(s.asks)
    case Decrement(slot, _) => slot in SideSlots(s.bids) + SideSlots(s.asks)
  }

  ghost function OrderOf(side: seq<Entry>, slot: int): Order
    requires slot in SideSlots(side)
  {
    var i :| 0 <= i < |side| && side[i].slot == slot;
    side[i].order
  }

  ghost function SizeAt(s: Book, slot: int): nat
    requires slot in SideSlots(s.bids) + SideSlots(s.asks)
  {
    if slot in SideSlots(s.bids) then OrderOf(s.bids, slot).sizeLots else OrderOf(s.asks, slot).sizeLots
  }

  ghost function Step(s: Book, op: Op): (Book, Outcome)
    requires Enabled(s, op)
  {
    match op
    case InsertBid(o) =>
      if !SeqIsEncodable(o.orderSeq) then (s, Failed(OrderSeqExhausted))
      else if !CanAlloc(s) then (s, Failed(BufferFull))
      else (AfterAlloc(s).(bids := InsertEntry(s.bids, Entry(NextSlot(s), o))), Placed(NextSlot(s)))
    case InsertAsk(o) =>
      if !SeqIsEncodable(o.orderSeq) then (s, Failed(OrderSeqExhausted))
      else if !CanAlloc(s) then (s, Failed(BufferFull))
      else (AfterAlloc(s).(asks := InsertEntry(s.asks, Entry(NextSlot(s), o))), Placed(NextSlot(s)))
    case RemoveBid(slot) =>
      (s.(bids := RemoveEntry(s.bids, slot), free := [slot] + s.free), Removed)
    case RemoveAsk(slot) =>
      (s.(asks := RemoveEntry(s.asks, slot), free := [slot] + s.free), Removed)
    case Decrement(slot, delta) =>
      if SizeAt(s, slot) < delta then (s, Failed(ArithmeticOverflow))
      else
        var size := SizeAt(s, slot) - delta;
        (s.(bids := ResizeEntry(s.bids, slot, size), asks := ResizeEntry(s.asks, slot, size)), Resized(size))
  }

  function Empty(capacity: nat): Book {
    Book([], [], [], 0, capacity)
  }

  /** The states after the first n operations of ops, all of them enabled. */
  ghost predicate EnabledRun(s: Book, ops: seq<Op>)
    decreases |ops|
  {
    ops == [] || (Enabled(s, ops[0]) && EnabledRun(Step(s, ops[0]).0, ops[1..]))
  }

  ghost function Run(s: Book, ops: seq<Op>): Book
    requires EnabledRun(s, ops)
    decreases |ops|
  {
    if ops == [] then s else Run(Step(s, ops[0]).0, ops[1..])
  }

  /** A run is its steps, one after the other, each enabled where it is taken. */
  lemma {:induction false} RunIsSteps(s: Book, ops: seq<Op>, op: Op)
    ensures EnabledRun(s, []) && Run(s, []) == s
    ensures EnabledRun(s, ops + [op]) <==> EnabledRun(s, ops) && Enabled(Run(s, ops), op)
    ensures EnabledRun(s, ops + [op]) ==> Run(s, ops + [op]) == Step(Run(s, ops), op).0
    decreases |ops|
  {
    hide Step, Enabled;
    if ops == [] {
      assert [] + [op] == [op] && [op][1..] == [];
    } else {
      assert (ops + [op])[0] == ops[0] && (ops + [op])[1..] == ops[1..] + [op];
      if Enabled(s, ops[0]) {
        RunIsSteps(Step(s, ops[0]).0, ops[1..], op);
      }
    }
  }

  // ----- what every run keeps -----

  ghost function FreeSlots(s: Book): set<int> {
    set i | 0 <= i < |s.free| :: s.free[i]
  }

  ghost function Live(s: Book): set<int> {
    SideSlots(s.bids) + SideSlots(s.asks)
  }

  ghost function Below(n: nat): (r: set<int>)
    ensures forall x :: x in r <==> 0 <= x < n
  {
    if n == 0 then {} else Below(n - 1) + {n - 1}
  }

  /** Sides are sorted; live and free slots partition everything below the bump
      pointer; the bump pointer stays within the slab. */
  ghost predicate Consistent(s: Book) {
    && Sorted(s.bids) && Sorted(s.asks) && DistinctSlots(s.bids) && DistinctSlots(s.asks)
    && NoDup(s.free) && s.bump <= s.capacity
    && SideSlots(s.bids) !! SideSlots(s.asks) && Live(s) !! FreeSlots(s)
    && Live(s) + FreeSlots(s) == Below(s.bump)
  }

  /** e may stand in front of rest. */
  ghost predicate Leads(e: Entry, rest: seq<Entry>) {
    forall x :: x in rest ==> e.order.orderId <= x.order.orderId && e.slot != x.slot
  }

  lemma ConsKeeps(e: Entry, rest: seq<Entry>)
    requires Sorted(rest) && DistinctSlots(rest) && Leads(e, rest)
    ensures Sorted([e] + rest) && DistinctSlots([e] + rest)
  {
    var s := [e] + rest;
    forall i, j | 0 <= i < j < |s|
      ensures s[i].order.orderId <= s[j].order.orderId && s[i].slot != s[j].slot
    {
      assert s[j] == rest[j - 1] && s[j] in rest;
    }
  }

  lemma Uncons(side: seq<Entry>)
    requires Sorted(side) && DistinctSlots(side) && side != []
    ensures Sorted(side[1..]) && DistinctSlots(side[1..]) && Leads(side[0], side[1..])
    ensures SideSlots(side) == {side[0].slot} + SideSlots(side[1..])
    ensures side[0].slot !in SideSlots(side[1..])
  {
    var rest := side[1..];
    assert side == [side[0]] + rest;
    assert forall i :: 0 <= i < |rest| ==> rest[i] == side[i + 1];
    SideSlotsCons(side[0], rest);
  }

  lemma {:induction false} InsertMembers(side: seq<Entry>, e: Entry, x: Entry)
    ensures x in InsertEntry(side, e) <==> x == e || x in side
  {
    if side != [] && side[0].order.orderId < e.order.orderId {
      InsertMembers(side[1..], e, x);
    }
  }

  lemma {:induction false} InsertEntryKeeps(side: seq<Entry>, e: Entry)
    requires Sorted(side) && DistinctSlots(side) && e.slot !in SideSlots(side)
    ensures Sorted(InsertEntry(side, e)) && DistinctSlots(InsertEntry(side, e))
    ensures SideSlots(InsertEntry(side, e)) == SideSlots(side) + {e.slot}
  {
    if side == [] {
      SideSlotsCons(e, []);
    } else {
      Uncons(side);
      if side[0].order.orderId < e.order.orderId {
        InsertEntryKeeps(side[1..], e);
        var r := InsertEntry(side[1..], e);
        SideSlotsCons(side[0], r);
        forall x | x in r
          ensures side[0].order.orderId <= x.order.orderId && side[0].slot != x.slot
        {
          InsertMembers(side[1..], e, x);
        }
        ConsKeeps(side[0], r);
      } else {
        SideSlotsCons(e, side);
        forall x | x in side
          ensures e.order.orderId <= x.order.orderId && e.slot != x.slot
        {
          assert x == side[0] || x in side[1..];
          var k :| 0 <= k < |side| && side[k] == x;
        }
        ConsKeeps(e, side);
      }
    }
  }

  lemma SideSlotsCons(e: Entry, rest: seq<Entry>)
    ensures SideSlots([e] + rest) == {e.slot} + SideSlots(rest)
  {
    var s := [e] + rest;
    assert forall i :: 0 <= i < |rest| ==> s[i + 1] == rest[i];
    assert s[0] == e;
  }

  lemma {:induction false} RemoveMembers(side: seq<Entry>, slot: int, x: Entry)
    ensures x in RemoveEntry(side, slot) <==> x in side && x.slot != slot
  {
    if side != [] {
      RemoveMembers(side[1..], slot, x);
      assert x in side <==> x == side[0] || x in side[1..];
    }
  }

  lemma {:induction false} RemoveEntryKeeps(side: seq<Entry>, slot: int)
    requires Sorted(side) && DistinctSlots(side)
    ensures Sorted(RemoveEntry(side, slot)) && DistinctSlots(RemoveEntry(side, slot))
    ensures SideSlots(RemoveEntry(side, slot)) == SideSlots(side) - {slot}
  {
    if side != [] {
      Uncons(side);
      RemoveEntryKeeps(side[1..], slot);
      var r := RemoveEntry(side[1..], slot);
      if side[0].slot != slot {
        SideSlotsCons(side[0], r);
        forall x | x in r
          ensures side[0].order.orderId <= x.order.orderId && side[0].slot != x.slot
        {
          RemoveMembers(side[1..], slot, x);
        }
        ConsKeeps(side[0], r);
      }
    }
  }

  lemma ResizeEntryKeeps(side: seq<Entry>, slot: int, size: nat)
    requires Sorted(side) && DistinctSlots(side)
    ensures Sorted(ResizeEntry(side, slot, size)) && DistinctSlots(ResizeEntry(side, slot, size))
    ensures SideSlots(ResizeEntry(side, slot, size)) == SideSlots(side)
  {
    var r := ResizeEntry(side, slot, size);
    assert forall i :: 0 <= i < |side| ==> r[i].slot == side[i].slot && r[i].order.orderId == side[i].order.orderId;
  }

  lemma FreeCons(s: Book, slot: int)
    ensures FreeSlots(s.(free := [slot] + s.free)) == {slot} + FreeSlots(s)
  {
    var f := [slot] + s.free;
    assert forall i :: 0 <= i < |s.free| ==> f[i + 1] == s.free[i];
    assert f[0] == slot;
  }

  /** A fresh slot comes from the free list or from just above everything used. */
  lemma AllocKeeps(s: Book)
    requires Consistent(s) && CanAlloc(s)
    ensures var s', x := AfterAlloc(s), NextSlot(s);
      && x !in Live(s) && x !in FreeSlots(s') && 0 <= x < s.capacity
      && NoDup(s'.free) && s'.bump <= s.capacity
      && Live(s) !! FreeSlots(s') && Live(s) + {x} + FreeSlots(s') == Below(s'.bump)
      && s'.bids == s.bids && s'.asks == s.asks && s'.capacity == s.capacity
  {
    var s', x := AfterAlloc(s), NextSlot(s);
    if s.free != [] {
      FreeCons(s', x);
      assert s.free == [x] + s.free[1..];
      assert s'.(free := [x] + s'.free) == s;
      assert forall i :: 0 <= i < |s'.free| ==> s'.free[i] == s.free[i + 1];
      assert x in FreeSlots(s);
      assert x in Below(s.bump);
    } else {
      assert x !in Below(s.bump);
    }
  }

  /** A decrement of a live order is enabled; it is refused when it is too large, and
      otherwise resizes the order on whichever side has it. */
  lemma DecrementSpec(s: Book, slot: int, delta: nat)
    requires slot in SideSlots(s.bids) + SideSlots(s.asks)
    ensures Enabled(s, Op.Decrement(slot, delta))
    ensures var left := SizeAt(s, slot) - delta;
      Step(s, Op.Decrement(slot, delta))
      == if left < 0 then (s, Failed(ArithmeticOverflow))
         else (s.(bids := ResizeEntry(s.bids, slot, left), asks := ResizeEntry(s.asks, slot, left)), Resized(left))
  {
  }

  /** Every step keeps the book consistent, and touches only its own side. */
  lemma StepKeeps(s: Book, op: Op)
    requires Consistent(s) && Enabled(s, op)
    ensures Consistent(Step(s, op).0)
    ensures Step(s, op).0.capacity == s.capacity
    ensures op.InsertBid? || op.RemoveBid? ==> Step(s, op).0.asks == s.asks
    ensures op.InsertAsk? || op.RemoveAsk? ==> Step(s, op).0.bids == s.bids
    ensures Step(s, op).1.Failed? ==> Step(s, op).0 == s
  {
    hide Consistent, InsertEntry, RemoveEntry, ResizeEntry, NextSlot;
    match op
    case InsertBid(o) =>
      if CanAlloc(s) {
        InsertKeeps(s, s.bids, Entry(NextSlot(s), o));
      }
    case InsertAsk(o) =>
      if CanAlloc(s) {
        InsertKeeps(s, s.asks, Entry(NextSlot(s), o));
      }
    case RemoveBid(slot) =>
      RemoveKeeps(s, slot);
    case RemoveAsk(slot) =>
      RemoveKeeps(s, slot);
    case Decrement(slot, delta) =>
      if SizeAt(s, slot) >= delta {
        ResizeKeeps(s, slot, SizeAt(s, slot) - delta);
      }
  }

  lemma RemoveKeeps(s: Book, slot: int)
    requires Consistent(s)
    ensures slot in SideSlots(s.bids) ==>
      Consistent(s.(bids := RemoveEntry(s.bids, slot), free := [slot] + s.free))
    ensures slot in SideSlots(s.asks) ==>
      Consistent(s.(asks := RemoveEntry(s.asks, slot), free := [slot] + s.free))
  {
    if slot in Live(s) {
      RemoveKeepsFree(s, slot);
    }
    RemoveEntryKeeps(s.bids, slot);
    RemoveEntryKeeps(s.asks, slot);
  }

  lemma ResizeKeeps(s: Book, slot: int, size: nat)
    requires Consistent(s)
    ensures Consistent(s.(bids := ResizeEntry(s.bids, slot, size), asks := ResizeEntry(s.asks, slot, size)))
  {
    ResizeEntryKeeps(s.bids, slot, size);
    ResizeEntryKeeps(s.asks, slot, size);
  }

  lemma InsertKeeps(s: Book, side: seq<Entry>, e: Entry)
    requires Consistent(s) && CanAlloc(s) && e.slot == NextSlot(s)
    requires side == s.bids || side == s.asks
    ensures side == s.bids ==> Consistent(AfterAlloc(s).(bids := InsertEntry(s.bids, e)))
    ensures side == s.asks ==> Consistent(AfterAlloc(s).(asks := InsertEntry(s.asks, e)))
  {
    AllocKeeps(s);
    InsertEntryKeeps(side, e);
  }

  lemma RemoveKeepsFree(s: Book, slot: int)
    requires Consistent(s) && slot in Live(s)
    ensures NoDup([slot] + s.free)
    ensures FreeSlots(s.(free := [slot] + s.free)) == {slot} + FreeSlots(s)
  {
    FreeCons(s, slot);
    forall i | 0 <= i < |s.free|
      ensures s.free[i] != slot
    {
      assert s.free[i] in FreeSlots(s);
    }
  }

  /** Over any run, the book stays consistent. */
  lemma {:induction false} RunKeeps(s: Book, ops: seq<Op>)
    requires Consistent(s) && EnabledRun(s, ops)
    ensures Consistent(Run(s, ops)) && Run(s, ops).capacity == s.capacity
    decreases |ops|
  {
    if ops != [] {
      StepKeeps(s, ops[0]);
      RunKeeps(Step(s, ops[0]).0, ops[1..]);
    }
  }

  lemma EmptyConsistent(capacity: nat)
    ensures Consistent(Empty(capacity))
  {
  }

  /** BufferFull is reported exactly when every slot holds a live order. */
  lemma FullExact(s: Book)
    requires Consistent(s)
    ensures !CanAlloc(s) <==> Live(s) == Below(s.capacity)
  {
    if !CanAlloc(s) {
      assert FreeSlots(s) == {};
    } else if s.free != [] {
      assert s.free[0] in FreeSlots(s);
      assert s.free[0] in Below(s.bump);
      assert s.free[0] !in Live(s);
      assert s.free[0] in Below(s.capacity);
    } else {
      assert s.bump in Below(s.capacity) && s.bump !in Below(s.bump);
    }
  }

  // ----- a side as a map from slots to orders -----

  ghost function SideMap(side: seq<Entry>): map<int, Order> {
    map slot | slot in SideSlots(side) :: OrderOf(side, slot)
  }

  lemma OrderOfEntry(side: seq<Entry>, e: Entry)
    requires DistinctSlots(side) && e in side
    ensures e.slot in SideSlots(side) && OrderOf(side, e.slot) == e.order
  {
    var k :| 0 <= k < |side| && side[k] == e;
    assert e.slot in SideSlots(side);
    var i :| 0 <= i < |side| && side[i].slot == e.slot && side[i].order == OrderOf(side, e.slot);
  }

  /** Inserting, removing and resizing are update, removal and update of the map. */
  lemma InsertIsMapUpdate(side: seq<Entry>, e: Entry)
    requires Sorted(side) && DistinctSlots(side) && e.slot !in SideSlots(side)
    ensures SideMap(InsertEntry(side, e)) == SideMap(side)[e.slot := e.order]
  {
    InsertEntryKeeps(side, e);
    var r := InsertEntry(side, e);
    forall slot | slot in SideSlots(r)
      ensures OrderOf(r, slot) == SideMap(side)[e.slot := e.order][slot]
    {
      if slot == e.slot {
        InsertMembers(side, e, e);
        OrderOfEntry(r, e);
      } else {
        var x := Entry(slot, OrderOf(side, slot));
        assert x in side;
        InsertMembers(side, e, x);
        OrderOfEntry(r, x);
      }
    }
  }

  lemma RemoveIsMapRemoval(side: seq<Entry>, slot: int)
    requires Sorted(side) && DistinctSlots(side)
    ensures SideMap(RemoveEntry(side, slot)) == SideMap(side) - {slot}
  {
    RemoveEntryKeeps(side, slot);
    var r := RemoveEntry(side, slot);
    forall x | x in SideSlots(r)
      ensures OrderOf(r, x) == OrderOf(side, x)
    {
      assert Entry(x, OrderOf(side, x)) in side;
      RemoveMembers(side, slot, Entry(x, OrderOf(side, x)));
      OrderOfEntry(r, Entry(x, OrderOf(side, x)));
    }
  }

  lemma ResizeIsMapUpdate(side: seq<Entry>, slot: int, size: nat)
    requires Sorted(side) && DistinctSlots(side) && slot in SideSlots(side)
    ensures SideMap(ResizeEntry(side, slot, size))
         == SideMap(side)[slot := OrderOf(side, slot).(sizeLots := size)]
  {
    ResizeEntryKeeps(side, slot, size);
    var r := ResizeEntry(side, slot, size);
    forall x | x in SideSlots(side)
      ensures OrderOf(r, x) == Shrink(Entry(x, OrderOf(side, x)), slot, size).order
    {
      var i :| 0 <= i < |side| && side[i].slot == x;
      OrderOfEntry(side, side[i]);
      OrderOfEntry(r, r[i]);
    }
  }

  // ----- price-time priority -----

  ghost predicate IdsEncoded(side: seq<Entry>, sideIsBid: bool) {
    forall i :: 0 <= i < |side| ==>
      && side[i].order.priceTicks <= MAX_PRICE_TICKS_ENCODABLE && SeqIsEncodable(side[i].order.orderSeq)
      && side[i].order.orderId == EncodeOrderId(side[i].order.priceTicks, side[i].order.orderSeq, sideIsBid)
  }

  /** When every order carries its encoded id and no two share price and sequence,
      the side is in strict price-time priority. */
  lemma SideInPriorityOrder(side: seq<Entry>, sideIsBid: bool, i: nat, j: nat)
    requires Sorted(side) && IdsEncoded(side, sideIsBid) && i < j < |side|
    ensures var a, b := side[i].order, side[j].order;
      HasPriority(a.priceTicks, a.orderSeq, b.priceTicks, b.orderSeq, sideIsBid)
      || (a.priceTicks == b.priceTicks && a.orderSeq == b.orderSeq)
  {
    var a, b := side[i].order, side[j].order;
    IdOrderIsPriority(a.priceTicks, a.orderSeq, b.priceTicks, b.orderSeq, sideIsBid);
  }
}
