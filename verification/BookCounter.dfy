/** The order counter above the book: every order rests under a sequence number of its
    own, so what the book asks of its callers holds of every call the program makes. */
module BookCounters {
  import opened Nodes
  import opened OrderIds
  import opened BookSpec
  import opened BookIds
  import opened BookEffects

  const MAX_COUNTER: nat := 0xFFFF_FFFF_FFFF_FFFF

  datatype Counted = Counted(book: Book, counter: nat)

  /** Burn is a taker that takes a number and rests nothing. */
  datatype Call =
    | Place(isBid: bool, order: Order)
    | Cancel(isBid: bool, slot: int)
    | Fill(slot: int, delta: nat)
    | Burn
    | Reseat

  /** The order with the next sequence number and the id made of it. */
  function Stamped(c: Counted, isBid: bool, o: Order): Order {
    o.(orderSeq := c.counter + 1, orderId := EncodeOrderId(o.priceTicks, c.counter + 1, isBid))
  }

  /** The operations on the book that a call comes to, one or none. */
  function OpsOf(c: Counted, call: Call): seq<Op> {
    match call
    case Place(isBid, o) =>
      if isBid then [InsertBid(Stamped(c, isBid, o))] else [InsertAsk(Stamped(c, isBid, o))]
    case Cancel(isBid, slot) => if isBid then [RemoveBid(slot)] else [RemoveAsk(slot)]
    case Fill(slot, delta) => [Decrement(slot, delta)]
    case Burn => []
    case Reseat => []
  }

  /** What the program knows of the slots it names: it found them in the book. */
  ghost predicate Callable(c: Counted, call: Call) {
    match call
    case Cancel(isBid, slot) => slot in SideSlots(if isBid then c.book.bids else c.book.asks)
    case Fill(slot, _) => slot in Live(c.book)
    case _ => true
  }

  /** The counter moves with a placement that goes through. */
  function NextCounter(c: Counted, call: Call): nat {
    match call
    case Place(_, _) => if SeqIsEncodable(c.counter + 1) && CanAlloc(c.book) then c.counter + 1 else c.counter
    case Burn => if c.counter == MAX_COUNTER then c.counter else c.counter + 1
    case Reseat => if c.book.bids == [] && c.book.asks == [] then 0 else c.counter
    case _ => c.counter
  }

  /** One call; a failed one leaves book and counter as they were. */
  ghost function Next(c: Counted, call: Call): Counted
    requires EnabledRun(c.book, OpsOf(c, call))
  {
    Counted(Run(c.book, OpsOf(c, call)), NextCounter(c, call))
  }

  // ----- what every call keeps -----

  /** The order carries the id of its price and of a number handed out already. */
  ghost predicate Issued(o: Order, isBid: bool, counter: nat) {
    && SeqIsEncodable(o.orderSeq) && o.orderSeq <= counter
    && o.orderId == EncodeOrderId(o.priceTicks, o.orderSeq, isBid)
  }

  ghost predicate AllIssued(side: seq<Entry>, isBid: bool, counter: nat) {
    forall e :: e in side ==> Issued(e.order, isBid, counter)
  }

  ghost predicate Inv(c: Counted) {
    && Consistent(c.book) && IdsDistinct(c.book) && c.counter <= MAX_COUNTER
    && AllIssued(c.book.bids, true, c.counter) && AllIssued(c.book.asks, false, c.counter)
  }

  /** Different numbers give different ids, at any price: also where prices saturate. */
  lemma SeqsTellIdsApart(p1: nat, s1: nat, p2: nat, s2: nat, isBid: bool)
    requires SeqIsEncodable(s1) && SeqIsEncodable(s2) && s1 != s2
    ensures EncodeOrderId(p1, s1, isBid) != EncodeOrderId(p2, s2, isBid)
  {
    assert s1 % TWO_POW_24 == s1 && s2 % TWO_POW_24 == s2;
    Lexicographic(PriceKey(p1, isBid), s1, PriceKey(p2, isBid), s2);
  }

  lemma NextIdIsNew(side: seq<Entry>, isBid: bool, counter: nat, price: nat)
    requires AllIssued(side, isBid, counter) && SeqIsEncodable(counter + 1)
    ensures EncodeOrderId(price, counter + 1, isBid) !in Ids(side)
  {
    forall e | e in side
      ensures e.order.orderId != EncodeOrderId(price, counter + 1, isBid)
    {
      SeqsTellIdsApart(e.order.priceTicks, e.order.orderSeq, price, counter + 1, isBid);
    }
  }

  /** Every call is one that the book accepts: its operation is enabled, and what it
      places has a fresh id. */
  lemma CallEnabled(c: Counted, call: Call)
    requires Inv(c) && Callable(c, call)
    ensures forall op :: op in OpsOf(c, call) ==> Enabled(c.book, op)
    ensures forall op :: op in OpsOf(c, call) && Step(c.book, op).1.Placed? ==> FreshId(c.book, op)
  {
    hide Consistent, IdsDistinct, AllIssued, EncodeOrderId, InsertEntry, RemoveEntry, ResizeEntry, DistinctIds;
    if call.Place? && SeqIsEncodable(c.counter + 1) {
      var side := if call.isBid then c.book.bids else c.book.asks;
      NextIdIsNew(side, call.isBid, c.counter, call.order.priceTicks);
      assert side != [] ==> side[0] in side;
    }
  }

  lemma OneOp(s: Book, op: Op)
    requires Enabled(s, op)
    ensures EnabledRun(s, [op]) && Run(s, [op]) == Step(s, op).0
  {
    assert [op][1..] == [];
  }

  lemma NoOp(s: Book)
    ensures EnabledRun(s, []) && Run(s, []) == s
  {
  }

  lemma CallRuns(c: Counted, call: Call)
    requires Inv(c) && Callable(c, call)
    ensures EnabledRun(c.book, OpsOf(c, call))
    ensures OpsOf(c, call) == [] ==> Next(c, call).book == c.book
    ensures forall op :: op in OpsOf(c, call) ==> OpsOf(c, call) == [op] && Next(c, call).book == Step(c.book, op).0
  {
    CallEnabled(c, call);
    NoOp(c.book);
    if OpsOf(c, call) != [] {
      OneOp(c.book, OpsOf(c, call)[0]);
    }
  }

  lemma IssuedAfter(c: Counted, op: Op, counter: nat)
    requires Enabled(c.book, op) && counter >= c.counter
    requires AllIssued(c.book.bids, true, c.counter) && AllIssued(c.book.asks, false, c.counter)
    requires Step(c.book, op).1.Placed? ==> Issued(op.order, op.InsertBid?, counter)
    ensures AllIssued(Step(c.book, op).0.bids, true, counter) && AllIssued(Step(c.book, op).0.asks, false, counter)
  {
    hide Issued, InsertEntry, RemoveEntry, ResizeEntry, SideSlots, NextSlot;
    StillIssued(c.book.bids, true, c.counter, counter);
    StillIssued(c.book.asks, false, c.counter, counter);
    match op
    case InsertBid(o) =>
      if CanAlloc(c.book) {
        InsertedIssued(c.book.bids, Entry(NextSlot(c.book), o), true, counter);
      }
    case InsertAsk(o) =>
      if CanAlloc(c.book) {
        InsertedIssued(c.book.asks, Entry(NextSlot(c.book), o), false, counter);
      }
    case RemoveBid(slot) => RemovedIssued(c.book.bids, slot, true, counter);
    case RemoveAsk(slot) => RemovedIssued(c.book.asks, slot, false, counter);
    case Decrement(slot, delta) =>
      if SizeAt(c.book, slot) >= delta {
        ResizedIssued(c.book.bids, slot, SizeAt(c.book, slot) - delta, true, counter);
        ResizedIssued(c.book.asks, slot, SizeAt(c.book, slot) - delta, false, counter);
      }
  }

  lemma StillIssued(side: seq<Entry>, isBid: bool, counter: nat, counter': nat)
    requires AllIssued(side, isBid, counter) && (counter <= counter' || side == [])
    ensures AllIssued(side, isBid, counter')
  {
  }

  lemma InsertedIssued(side: seq<Entry>, e: Entry, isBid: bool, counter: nat)
    requires AllIssued(side, isBid, counter)
    ensures Issued(e.order, isBid, counter) ==> AllIssued(InsertEntry(side, e), isBid, counter)
  {
    forall x | x in InsertEntry(side, e)
      ensures x == e || x in side
    {
      InsertMembers(side, e, x);
    }
  }

  lemma RemovedIssued(side: seq<Entry>, slot: int, isBid: bool, counter: nat)
    requires AllIssued(side, isBid, counter)
    ensures AllIssued(RemoveEntry(side, slot), isBid, counter)
  {
    forall x | x in RemoveEntry(side, slot)
      ensures x in side
    {
      RemoveMembers(side, slot, x);
    }
  }

  lemma ResizedIssued(side: seq<Entry>, slot: int, size: nat, isBid: bool, counter: nat)
    requires AllIssued(side, isBid, counter)
    ensures AllIssued(ResizeEntry(side, slot, size), isBid, counter)
  {
    var r := ResizeEntry(side, slot, size);
    forall e | e in r
      ensures Issued(e.order, isBid, counter)
    {
      var i :| 0 <= i < |r| && r[i] == e;
      assert side[i] in side;
    }
  }

  /** What a call places is issued by then. */
  lemma PlacedIssued(c: Counted, call: Call, op: Op)
    requires op in OpsOf(c, call) && Enabled(c.book, op)
    ensures NextCounter(c, call) >= c.counter
    ensures Step(c.book, op).1.Placed? ==> Issued(op.order, op.InsertBid?, NextCounter(c, call))
  {
  }

  /** Every call keeps it all: in particular ids stay distinct for good. */
  lemma CallKeeps(c: Counted, call: Call)
    requires Inv(c) && Callable(c, call)
    ensures EnabledRun(c.book, OpsOf(c, call)) && Inv(Next(c, call))
  {
    CallRuns(c, call);
    CallEnabled(c, call);
    if OpsOf(c, call) == [] {
      StillIssued(c.book.bids, true, c.counter, Next(c, call).counter);
      StillIssued(c.book.asks, false, c.counter, Next(c, call).counter);
    } else {
      var op := OpsOf(c, call)[0];
      PlacedIssued(c, call, op);
      hide NextCounter, AllIssued, Consistent, IdsDistinct, FreshId, Enabled, Callable, Step, OpsOf, Issued;
      StepKeeps(c.book, op);
      StepIdsExact(c.book, op);
      IssuedAfter(c, op, Next(c, call).counter);
    }
  }

  // ----- what every call does -----

  /** A placement adds its order under the id of its price and of the next number, in a
      slot that was not live, unless numbers or slots have run out. */
  lemma PlaceEffect(c: Counted, isBid: bool, o: Order)
    requires Inv(c)
    ensures EnabledRun(c.book, OpsOf(c, Place(isBid, o)))
    ensures var c' := Next(c, Place(isBid, o));
      var o' := o.(orderSeq := c.counter + 1, orderId := EncodeOrderId(o.priceTicks, c.counter + 1, isBid));
      if SeqIsEncodable(c.counter + 1) && Live(c.book) != Below(c.book.capacity) then
        c'.counter == c.counter + 1 && exists x :: AddedUnder(c.book, c'.book, isBid, x, o')
      else c' == c
  {
    var o' := Stamped(c, isBid, o);
    hide Consistent, IdsDistinct, AllIssued, AddedUnder, PlacedAt, Live;
    CallRuns(c, Place(isBid, o));
    CallEnabled(c, Place(isBid, o));
    assert InsertOp(isBid, o') in OpsOf(c, Place(isBid, o));
    InsertEffect(c.book, isBid, o');
    FullExact(c.book);
    if Step(c.book, InsertOp(isBid, o')).1.Placed? {
      InsertIdEffect(c.book, isBid, o');
    }
    hide Step, Inv;
  }

  /** A cancellation takes the id of the order in the named slot off its side, and a
      partial fill changes the size of the order there; neither uses up a number. */
  lemma CancelEffect(c: Counted, isBid: bool, slot: int)
    requires Inv(c) && Callable(c, Cancel(isBid, slot))
    ensures EnabledRun(c.book, OpsOf(c, Cancel(isBid, slot)))
    ensures var c' := Next(c, Cancel(isBid, slot));
      && c'.counter == c.counter && Own(c'.book, !isBid) == Own(c.book, !isBid)
      && IdMap(Own(c'.book, isBid)) == IdMap(Own(c.book, isBid)) - {OrderOf(Own(c.book, isBid), slot).orderId}
  {
    CallRuns(c, Cancel(isBid, slot));
    assert RemoveOp(isBid, slot) in OpsOf(c, Cancel(isBid, slot));
    RemoveIdEffect(c.book, isBid, slot);
  }

  lemma FillEffect(c: Counted, slot: int, delta: nat)
    requires Inv(c) && Callable(c, Fill(slot, delta))
    ensures EnabledRun(c.book, OpsOf(c, Fill(slot, delta))) && slot in BookMap(c.book)
    ensures var (c', o) := (Next(c, Fill(slot, delta)), BookMap(c.book)[slot]);
      if o.sizeLots < delta then c' == c
      else
        && c'.counter == c.counter
        && BookMap(c'.book) == BookMap(c.book)[slot := o.(sizeLots := o.sizeLots - delta)]
  {
    hide BookMap, Step, Live, Consistent, IdsDistinct, AllIssued, SideSlots;
    CallRuns(c, Fill(slot, delta));
    assert Decrement(slot, delta) in OpsOf(c, Fill(slot, delta));
    CallEnabled(c, Fill(slot, delta));
    DecrementEffect(c.book, slot, delta);
  }

  /** Burning a number and reseating the counter leave the book alone; the counter goes
      back only when no order rests. */
  lemma NumberEffect(c: Counted, call: Call)
    requires Inv(c) && (call.Burn? || call.Reseat?)
    ensures EnabledRun(c.book, OpsOf(c, call)) && Next(c, call).book == c.book
    ensures call.Burn? ==> Next(c, call).counter == if c.counter < MAX_COUNTER then c.counter + 1 else c.counter
    ensures call.Reseat? ==> Next(c, call).counter == if Live(c.book) == {} then 0 else c.counter
  {
    CallRuns(c, call);
    assert c.book.bids != [] ==> c.book.bids[0].slot in SideSlots(c.book.bids);
    assert c.book.asks != [] ==> c.book.asks[0].slot in SideSlots(c.book.asks);
  }

  // ----- runs of calls -----

  ghost predicate CallableRun(c: Counted, calls: seq<Call>)
    requires Inv(c)
    decreases |calls|
  {
    calls == [] ||
    (&& Callable(c, calls[0])
     && (CallKeeps(c, calls[0]);
         CallableRun(Next(c, calls[0]), calls[1..])))
  }

  ghost function RunCalls(c: Counted, calls: seq<Call>): (r: Counted)
    requires Inv(c) && CallableRun(c, calls)
    ensures Inv(r)
    decreases |calls|
  {
    if calls == [] then c
    else
      CallKeeps(c, calls[0]);
      RunCalls(Next(c, calls[0]), calls[1..])
  }

  /** A run is its calls, one after the other, each made where the program may make it. */
  lemma {:induction false} RunIsCalls(c: Counted, calls: seq<Call>, call: Call)
    requires Inv(c)
    ensures CallableRun(c, []) && RunCalls(c, []) == c
    ensures CallableRun(c, calls + [call]) <==> CallableRun(c, calls) && Callable(RunCalls(c, calls), call)
    ensures CallableRun(c, calls + [call]) ==>
      EnabledRun(RunCalls(c, calls).book, OpsOf(RunCalls(c, calls), call))
      && RunCalls(c, calls + [call]) == Next(RunCalls(c, calls), call)
    decreases |calls|
  {
    hide Inv, Callable, Next, OpsOf;
    if calls == [] {
      assert [] + [call] == [call] && [call][1..] == [];
      if Callable(c, call) {
        CallKeeps(c, call);
      }
    } else {
      assert (calls + [call])[0] == calls[0] && (calls + [call])[1..] == calls[1..] + [call];
      if Callable(c, calls[0]) {
        CallKeeps(c, calls[0]);
        RunIsCalls(Next(c, calls[0]), calls[1..], call);
      }
    }
  }

  /** The operations on the book over a run. */
  ghost function OpsOfRun(c: Counted, calls: seq<Call>): seq<Op>
    requires Inv(c) && CallableRun(c, calls)
    decreases |calls|
  {
    if calls == [] then []
    else
      CallKeeps(c, calls[0]);
      OpsOf(c, calls[0]) + OpsOfRun(Next(c, calls[0]), calls[1..])
  }

  /** A run of calls is a run of the book in which every operation is enabled. */
  lemma {:induction false} CallsAreRun(c: Counted, calls: seq<Call>)
    requires Inv(c) && CallableRun(c, calls)
    ensures var ops := OpsOfRun(c, calls);
      EnabledRun(c.book, ops) && Run(c.book, ops) == RunCalls(c, calls).book
    decreases |calls|
  {
    if calls == [] {
      NoOp(c.book);
    } else {
      CallKeeps(c, calls[0]);
      CallRuns(c, calls[0]);
      var c', first := Next(c, calls[0]), OpsOf(c, calls[0]);
      var rest := OpsOfRun(c', calls[1..]);
      CallsAreRun(c', calls[1..]);
      CallEnabled(c, calls[0]);
      hide Inv, Next, Callable;
      if first == [] {
        assert first + rest == rest;
      } else {
        assert (first + rest)[0] == first[0] && (first + rest)[1..] == rest;
      }
    }
  }

  /** From the empty book, whatever the program is called with: the book accepts every
      operation, no two orders of a side share an id, and at encodable prices each
      side is in strict price-time priority. */
  lemma CallsFromEmpty(capacity: nat, calls: seq<Call>)
    ensures Inv(Counted(Empty(capacity), 0))
    ensures CallableRun(Counted(Empty(capacity), 0), calls) ==>
      var c := RunCalls(Counted(Empty(capacity), 0), calls);
      && EnabledRun(Empty(capacity), OpsOfRun(Counted(Empty(capacity), 0), calls))
      && Run(Empty(capacity), OpsOfRun(Counted(Empty(capacity), 0), calls)) == c.book
      && Consistent(c.book) && IdsDistinct(c.book)
      && FirstInFirstOut(c.book.bids, true) && FirstInFirstOut(c.book.asks, false)
  {
    EmptyConsistent(capacity);
    var c0 := Counted(Empty(capacity), 0);
    if CallableRun(c0, calls) {
      CallsAreRun(c0, calls);
      IssuedFirstOut(RunCalls(c0, calls).book.bids, true, RunCalls(c0, calls).counter);
      IssuedFirstOut(RunCalls(c0, calls).book.asks, false, RunCalls(c0, calls).counter);
    }
  }

  /** At encodable prices, a is matched before b. */
  predicate Ahead(a: Order, b: Order, isBid: bool) {
    a.priceTicks <= MAX_PRICE_TICKS_ENCODABLE && b.priceTicks <= MAX_PRICE_TICKS_ENCODABLE ==>
      HasPriority(a.priceTicks, a.orderSeq, b.priceTicks, b.orderSeq, isBid)
  }

  ghost predicate FirstInFirstOut(side: seq<Entry>, isBid: bool) {
    forall i, j :: 0 <= i < j < |side| ==> Ahead(side[i].order, side[j].order, isBid)
  }

  lemma IssuedFirstOut(side: seq<Entry>, isBid: bool, counter: nat)
    requires Sorted(side) && DistinctIds(side) && AllIssued(side, isBid, counter)
    ensures FirstInFirstOut(side, isBid)
  {
    forall i, j | 0 <= i < j < |side|
      ensures Ahead(side[i].order, side[j].order, isBid)
    {
      var a, b := side[i].order, side[j].order;
      assert side[i] in side && side[j] in side;
      if a.priceTicks <= MAX_PRICE_TICKS_ENCODABLE && b.priceTicks <= MAX_PRICE_TICKS_ENCODABLE {
        IdOrderIsPriority(a.priceTicks, a.orderSeq, b.priceTicks, b.orderSeq, isBid);
      }
    }
  }
}
