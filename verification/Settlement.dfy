/** The settlement pipeline as a machine: the matcher crosses and records fills,
    settlement consumes them in order, and both accounts grow when drained. */
module Settlement {
  import opened Bytes
  import opened Wrappers
  import opened FillPreimages
  import opened FillRings
  import FillBuffers
  import FillOutboxes
  import opened ReduceOnly
  import opened PositionMath

  /** What the machine does not compute itself: the market's key, the hash, and the
      address of a maker's position account. */
  datatype Env = Env(market: Bytes32, hash: seq<byte> -> Commit, positionKey: (Bytes32, U8) -> Bytes32)

  /** No position account has the all-zero address. */
  ghost predicate KeysNonzero(env: Env) {
    forall maker, sub :: env.positionKey(maker, sub) != ZERO32
  }

  datatype Fill = Fill(
    taker: Bytes32, maker: Bytes32, takerSide: Side, sizeLots: U64, priceTicks: U64,
    takerSubIndex: U8, makerSubIndex: U8, makerId: U64, takerWasJit: bool, reduceOnly: bool)

  function Fields(env: Env, f: Fill, index: U64): FillFields {
    FillFields(env.market, f.taker, f.maker, f.takerSide, f.sizeLots, f.priceTicks,
               f.takerSubIndex, f.makerSubIndex, index, f.takerWasJit)
  }

  function CommitOf(env: Env, f: Fill, index: U64): Commit {
    env.hash(Preimage(Fields(env, f, index)))
  }

  function KeyOf(env: Env, f: Fill): Bytes32 {
    env.positionKey(f.maker, f.makerSubIndex)
  }

  function MakerSide(f: Fill): Side {
    Opposite(f.takerSide)
  }

  function Record(f: Fill): FillOutboxes.OutboxSlot {
    FillOutboxes.OutboxSlot(f.taker, f.maker, f.sizeLots, f.priceTicks, f.makerId, f.takerSide,
                            f.takerSubIndex, f.makerSubIndex, BoolByte(f.takerWasJit))
  }

  datatype Holding = Holding(side: Side, size: U64)

  /** The outbox is armed or not, and batchOrders is the market's batch cap, 0 when
      unset. The history: matched has every fill recorded, carried whether its
      record went to the outbox, settled every fill consumed. */
  datatype World = World(
    ring: Ring, outbox: Option<FillOutboxes.Outbox>, batchOrders: nat, holdings: map<Bytes32, Holding>,
    matched: seq<Fill>, carried: seq<bool>, settled: seq<Fill>)

  const MAX_MATCH_BATCH_ORDERS := 96
  const FILL_RING_CAP := 256
  const FILL_OUTBOX_INIT_CAP := 105

  function EffectiveBatchCap(w: World): nat {
    var cap := if w.batchOrders == 0 then MAX_MATCH_BATCH_ORDERS else w.batchOrders;
    if cap < FILL_RING_CAP then cap else FILL_RING_CAP
  }

  function HoldingOf(w: World, key: Bytes32): Holding {
    if key in w.holdings then w.holdings[key] else Holding(SIDE_LONG, 0)
  }

  // ----- the steps -----

  /** A cross says whether the caller passed the outbox account along. */
  datatype Op =
    | Cross(fill: Fill, passed: bool)
    | Settle(presented: Fill)
    | GrowRing(slots: U32)
    | ArmOutbox
    | GrowOutbox(records: seq<FillOutboxes.OutboxSlot>)
    | Move(key: Bytes32, holding: Holding)

  /** A reduce-only maker fills at most its position less what is in flight. */
  function CrossSize(env: Env, w: World, f: Fill): U64 {
    if !f.reduceOnly then f.sizeLots
    else
      var h := HoldingOf(w, KeyOf(env, f));
      var reducible := SaturatingSub(h.size, TableGet(w.ring.table, KeyOf(env, f)));
      Admitted(CheckReduceOnly(h.side, reducible, MakerSide(f), f.sizeLots), f.sizeLots)
  }

  /** The outbox is found among the accounts passed. */
  predicate Carries(w: World, passed: bool) {
    passed && w.outbox.Some?
  }

  /** A batch above the log-safe size must carry its records, and an outbox that
      carries them must be as large as the ring. */
  predicate Deliverable(w: World, carry: bool)
    requires carry ==> w.outbox.Some?
  {
    if carry then |w.ring.slots| <= |w.outbox.value.slots| else EffectiveBatchCap(w) <= MAX_MATCH_BATCH_ORDERS
  }

  /** Commit one fill to the ring; a reduce-only fill reserves its lots and sets its flag. */
  function Committed(env: Env, r: Ring, f: Fill): (committed: Option<Ring>)
    ensures committed.Some? ==> |r.slots| > 0
  {
    var (res, r1) := Push(r, CommitOf(env, f, r.produced));
    if res.Failed? then None
    else if !f.reduceOnly then Some(r1)
    else
      var (added, table) := TableAdd(r1.table, KeyOf(env, f), f.sizeLots);
      if added.Failed? then None
      else Some(r1.(table := table, flags := SetFlag(r1.flags, |r1.slots|, r.produced)))
  }

  /** Commit one fill, and mirror it when the outbox was passed; any failure undoes
      all of it. */
  function RecordFill(env: Env, w: World, f: Fill, passed: bool): World {
    var carry := Carries(w, passed);
    if !Deliverable(w, carry) then w
    else
      match Committed(env, w.ring, f)
      case None => w
      case Some(r) => Recorded(w, r, f, carry)
  }

  predicate CanCarry(w: World, carry: bool) {
    carry ==> w.outbox.Some? && |w.outbox.value.slots| > 0
  }

  function Recorded(w: World, r: Ring, f: Fill, carry: bool): World
    requires CanCarry(w, carry)
  {
    w.(ring := r, outbox := if carry then Some(Mirrored(w.outbox.value, w.ring.produced, r, f)) else w.outbox,
       matched := w.matched + [f], carried := w.carried + [carry])
  }

  /** The record of the index written, and both cursors of the ring. */
  function Mirrored(o: FillOutboxes.Outbox, index: U64, r: Ring, f: Fill): FillOutboxes.Outbox
    requires |o.slots| > 0
  {
    FillOutboxes.Outbox(r.produced, r.settled, o.slots[IndexOf(index, |o.slots|) := Record(f)])
  }

  /** A fresh outbox takes its size from the ring, up to what one call can allocate,
      and raises the batch cap to the ring's. */
  function Armed(w: World): World {
    var cap := |w.ring.slots|;
    if w.outbox.Some? || cap > 0xFFFF then w
    else
      var size := if cap < FILL_OUTBOX_INIT_CAP then cap else FILL_OUTBOX_INIT_CAP;
      w.(outbox := Some(FillOutboxes.Outbox(0, 0, seq(size, _ => FillOutboxes.ZERO_RECORD))), batchOrders := cap)
  }

  /** The gate of the outbox's growth: its mirrored cursors are equal. */
  predicate GrowGate(w: World) {
    w.outbox.Some? && w.outbox.value.produced == w.outbox.value.settled
  }

  /** Side and size after lots trade on the given side. */
  function Traded(h: Holding, side: Side, lots: U64): Holding {
    if h.size == 0 then Holding(side, lots)
    else if h.side == side then Holding(side, SaturatingAddU64(h.size, lots))
    else if lots <= h.size then Holding(h.side, h.size - lots)
    else Holding(side, lots - h.size)
  }

  /** The same side and size as the position arithmetic gives. */
  lemma TradedIsApplyFill(pos: Pos, side: Side, lots: U64, price: U64, tickSize: U64)
    requires ApplyFill(pos, side, lots, price, tickSize).Success?
    ensures var p := ApplyFill(pos, side, lots, price, tickSize).value.pos;
      Traded(Holding(pos.side, pos.sizeLots), side, lots) == Holding(p.side, p.sizeLots)
  {
  }

  /** Consume the oldest commitment; a flagged fill releases its lots and trades. */
  function SettleFill(env: Env, w: World, f: Fill): World {
    var (res, r1) := FillRings.Settle(w.ring, CommitOf(env, f, w.ring.settled));
    if res.Failed? then w
    else
      var (taken, flags) := TakeFlag(r1.flags, |r1.slots|, w.ring.settled);
      var key := KeyOf(env, f);
      var w1 := w.(ring := r1.(flags := flags), settled := w.settled + [f]);
      if !taken then w1
      else w1.(ring := w1.ring.(table := TableSub(r1.table, key, f.sizeLots)),
               holdings := w.holdings[key := Traded(HoldingOf(w, key), MakerSide(f), f.sizeLots)])
  }

  function Step(env: Env, w: World, op: Op): World {
    match op
    case Cross(f, passed) =>
      var size := CrossSize(env, w, f);
      if size == 0 then w else RecordFill(env, w, f.(sizeLots := size), passed)
    case Settle(f) => SettleFill(env, w, f)
    case GrowRing(n) =>
      if n == 0 || w.ring.produced != w.ring.settled then w
      else w.(ring := FillBuffers.EmptyRing(|w.ring.slots| + n, w.ring.produced))
    case ArmOutbox => Armed(w)
    case GrowOutbox(records) =>
      if !GrowGate(w) then w
      else w.(outbox := Some(w.outbox.value.(slots := w.outbox.value.slots + records)))
    case Move(key, h) => w.(holdings := w.holdings[key := h])
  }

  // ----- what is in flight -----

  function LotsFor(env: Env, f: Fill, key: Bytes32): nat {
    if f.reduceOnly && KeyOf(env, f) == key then f.sizeLots else 0
  }

  /** The lots of flagged fills on a position. */
  function InFlight(env: Env, fills: seq<Fill>, key: Bytes32): nat {
    if fills == [] then 0 else LotsFor(env, fills[0], key) + InFlight(env, fills[1..], key)
  }

  lemma {:induction false} InFlightAppend(env: Env, fills: seq<Fill>, f: Fill, key: Bytes32)
    ensures InFlight(env, fills + [f], key) == InFlight(env, fills, key) + LotsFor(env, f, key)
  {
    if fills == [] {
      assert [] + [f] == [f];
      assert InFlight(env, [f], key) == LotsFor(env, f, key) + InFlight(env, [], key);
    } else {
      InFlightAppend(env, fills[1..], f, key);
      assert (fills + [f])[1..] == fills[1..] + [f];
    }
  }

  lemma {:induction false} InFlightAtLeast(env: Env, fills: seq<Fill>, i: nat, key: Bytes32)
    requires i < |fills|
    ensures InFlight(env, fills, key) >= LotsFor(env, fills[i], key)
  {
    if i > 0 {
      InFlightAtLeast(env, fills[1..], i - 1, key);
    }
  }

  // ----- what every run keeps -----

  /** Index i waits in the window of the ring. */
  predicate Waits(w: World, i: nat) {
    w.ring.settled <= i < w.ring.produced
  }

  ghost predicate Shape(w: World) {
    && CursorsOk(w.ring) && |w.ring.flags| == |w.ring.slots| && |w.ring.table| == FILL_INFLIGHT_SLOTS
    && TableOk(w.ring.table)
    && |w.matched| == |w.carried| == w.ring.produced && |w.settled| == w.ring.settled
  }

  function Waiting(w: World): seq<Fill>
    requires w.ring.settled <= |w.matched|
  {
    w.matched[w.ring.settled..]
  }

  /** Every waiting index holds the commitment and the flag of its own fill. */
  ghost predicate RingHolds(env: Env, w: World)
    requires Shape(w)
  {
    forall i: nat :: Waits(w, i) ==>
      && w.ring.slots[IndexOf(i, |w.ring.slots|)] == CommitOf(env, w.matched[i], i)
      && w.ring.flags[IndexOf(i, |w.ring.slots|)] == w.matched[i].reduceOnly
  }

  ghost predicate Taken(w: World, k: nat)
    requires |w.ring.slots| > 0
  {
    exists i: nat :: Waits(w, i) && IndexOf(i, |w.ring.slots|) == k
  }

  /** Slots that hold no waiting index are clear. */
  ghost predicate RestClear(w: World)
    requires Shape(w)
  {
    forall k: nat :: k < |w.ring.slots| && !Taken(w, k) ==> w.ring.slots[k] == ZERO32 && !w.ring.flags[k]
  }

  /** The table holds, for every position, the lots in flight. */
  ghost predicate TableCounts(env: Env, w: World)
    requires Shape(w)
  {
    && (forall key: Bytes32 :: key != ZERO32 ==> TableGet(w.ring.table, key) == InFlight(env, Waiting(w), key))
    && (forall i: nat :: Waits(w, i) && w.matched[i].reduceOnly ==> w.matched[i].sizeLots > 0)
  }

  /** What was consumed at each index is what was recorded there. */
  ghost predicate HistoryAgrees(env: Env, w: World)
    requires Shape(w)
  {
    forall i: nat :: i < w.ring.settled ==> Fields(env, w.settled[i], i) == Fields(env, w.matched[i], i)
  }

  ghost predicate Books(env: Env, w: World) {
    Shape(w) && RingHolds(env, w) && RestClear(w) && TableCounts(env, w) && HistoryAgrees(env, w)
  }

  /** What is in flight on a position never exceeds it, and is on the other side. */
  ghost predicate Covered(env: Env, w: World)
    requires w.ring.settled <= |w.matched|
  {
    && (forall key: Bytes32 :: InFlight(env, Waiting(w), key) <= HoldingOf(w, key).size)
    && (forall i: nat :: i < |Waiting(w)| && Waiting(w)[i].reduceOnly ==>
          HoldingOf(w, KeyOf(env, Waiting(w)[i])).side != MakerSide(Waiting(w)[i]))
  }

  /** The presented fill does not collide with the recorded one under the hash. */
  ghost predicate NoCollision(env: Env, w: World, f: Fill) {
    var i := w.ring.settled;
    i < |w.matched| && CommitOf(env, f, i) == CommitOf(env, w.matched[i], i) ==>
      Fields(env, f, i) == Fields(env, w.matched[i], i)
  }

  /** A move from outside leaves room for what the table has in flight, on the same side. */
  predicate SafeMove(w: World, key: Bytes32, h: Holding) {
    && TableGet(w.ring.table, key) <= h.size
    && (TableGet(w.ring.table, key) > 0 ==> h.side == HoldingOf(w, key).side)
  }

  /** What a run assumes of its steps: no collision, and only safe moves of positions. */
  ghost predicate Enabled(env: Env, w: World, op: Op) {
    match op
    case Settle(f) => NoCollision(env, w, f)
    case Move(key, h) => key != ZERO32 && SafeMove(w, key, h)
    case _ => true
  }

  // ----- recording a fill -----

  /** While the ring is not full, the slot of the next index is free. */
  lemma NextSlotFree(w: World)
    requires Shape(w) && w.ring.produced < w.ring.settled + |w.ring.slots|
    ensures !Taken(w, IndexOf(w.ring.produced, |w.ring.slots|))
  {
    forall i: nat | Waits(w, i)
      ensures IndexOf(i, |w.ring.slots|) != IndexOf(w.ring.produced, |w.ring.slots|)
    {
      IndexDistinct(i, w.ring.produced, |w.ring.slots|);
    }
  }

  /** r is the ring of w with one more fill in it. */
  ghost predicate OneMoreFill(env: Env, w: World, r: Ring, f: Fill)
    requires Shape(w)
  {
    var k := IndexOf(w.ring.produced, |w.ring.slots|);
    && w.ring.produced < w.ring.settled + |w.ring.slots| && w.ring.produced < U64_MAX
    && 0 < |w.ring.slots|
    && r.produced == w.ring.produced + 1 && r.settled == w.ring.settled
    && r.slots == w.ring.slots[k := CommitOf(env, f, w.ring.produced)]
    && r.flags == w.ring.flags[k := f.reduceOnly]
    && TableOk(r.table) && |r.table| == |w.ring.table|
    && (forall key: Bytes32 :: key != ZERO32 ==>
          TableGet(r.table, key) == TableGet(w.ring.table, key) + LotsFor(env, f, key))
    && (f.reduceOnly ==> f.sizeLots > 0)
  }

  lemma RecordedRing(env: Env, w: World, r: Ring, f: Fill, carry: bool)
    requires Shape(w) && RingHolds(env, w) && RestClear(w) && OneMoreFill(env, w, r, f) && CanCarry(w, carry)
    ensures Shape(Recorded(w, r, f, carry))
    ensures RingHolds(env, Recorded(w, r, f, carry)) && RestClear(Recorded(w, r, f, carry))
  {
    var w', cap := Recorded(w, r, f, carry), |w.ring.slots|;
    var next := IndexOf(w.ring.produced, cap);
    NextSlotFree(w);
    forall i: nat | Waits(w', i)
      ensures r.slots[IndexOf(i, cap)] == CommitOf(env, w'.matched[i], i)
      ensures r.flags[IndexOf(i, cap)] == w'.matched[i].reduceOnly
    {
      if i < w.ring.produced {
        assert Waits(w, i) && IndexOf(i, cap) != next;
      }
    }
    forall k: nat | k < cap && !Taken(w', k)
      ensures r.slots[k] == ZERO32 && !r.flags[k]
    {
      assert Waits(w', w.ring.produced);
      assert forall i: nat :: Waits(w, i) ==> Waits(w', i);
    }
  }

  lemma RecordedCounts(env: Env, w: World, r: Ring, f: Fill, carry: bool)
    requires Shape(w) && TableCounts(env, w) && OneMoreFill(env, w, r, f) && CanCarry(w, carry)
    requires Shape(Recorded(w, r, f, carry))
    ensures TableCounts(env, Recorded(w, r, f, carry))
  {
    var w' := Recorded(w, r, f, carry);
    assert Waiting(w') == Waiting(w) + [f];
    forall key: Bytes32 | key != ZERO32
      ensures TableGet(r.table, key) == InFlight(env, Waiting(w'), key)
    {
      InFlightAppend(env, Waiting(w), f, key);
    }
    forall i: nat | Waits(w', i) && w'.matched[i].reduceOnly
      ensures w'.matched[i].sizeLots > 0
    {
      if i < w.ring.produced {
        assert Waits(w, i);
      }
    }
  }

  lemma RecordedKeeps(env: Env, w: World, r: Ring, f: Fill, carry: bool)
    requires Books(env, w) && OneMoreFill(env, w, r, f) && CanCarry(w, carry)
    ensures Books(env, Recorded(w, r, f, carry))
  {
    hide RingHolds, RestClear, TableCounts;
    RecordedRing(env, w, r, f, carry);
    RecordedCounts(env, w, r, f, carry);
  }

  /** When a fill is recorded, the ring has exactly that one more. */
  lemma RecordFillAdds(env: Env, w: World, f: Fill, passed: bool)
    requires Books(env, w) && KeysNonzero(env) && RecordFill(env, w, f, passed) != w
    requires f.sizeLots > 0
    requires f.reduceOnly ==> TableGet(w.ring.table, KeyOf(env, f)) + f.sizeLots <= U64_MAX
    ensures var w', carry := RecordFill(env, w, f, passed), Carries(w, passed);
      && Deliverable(w, carry) && CanCarry(w, carry) && OneMoreFill(env, w, w'.ring, f)
      && w' == Recorded(w, w'.ring, f, carry)
  {
    var cap, index, key := |w.ring.slots|, w.ring.produced, KeyOf(env, f);
    var k := IndexOf(index, cap);
    var r1 := Push(w.ring, CommitOf(env, f, index)).1;
    NextSlotFree(w);
    if f.reduceOnly {
      var (added, table) := TableAdd(r1.table, key, f.sizeLots);
      AddIsMap(w.ring.table, key, f.sizeLots);
      AddGets(w.ring.table, key, f.sizeLots);
      var w' := RecordFill(env, w, f, passed);
      assert w'.ring.flags == w.ring.flags[k := true];
      assert forall other: Bytes32 :: LotsFor(env, f, other) == if other == key then f.sizeLots else 0;
    } else {
      assert w.ring.flags[k := false] == w.ring.flags;
    }
  }

  lemma AddGets(table: seq<Entry>, key: Bytes32, delta: U64)
    requires TableOk(table) && key != ZERO32 && TableGet(table, key) + delta <= U64_MAX
    requires TableAdd(table, key, delta).0.Done?
    ensures forall other: Bytes32 :: other != ZERO32 ==>
      TableGet(TableAdd(table, key, delta).1, other) == TableGet(table, other) + if other == key then delta else 0
  {
    AddIsMap(table, key, delta);
    forall other: Bytes32 | other != ZERO32
      ensures TableGet(TableAdd(table, key, delta).1, other)
           == TableGet(table, other) + if other == key then delta else 0
    {
      GetIsMap(table, other);
      GetIsMap(TableAdd(table, key, delta).1, other);
    }
  }

  lemma CrossKeeps(env: Env, w: World, f: Fill, passed: bool)
    requires Books(env, w) && KeysNonzero(env)
    ensures Books(env, Step(env, w, Cross(f, passed)))
  {
    var size := CrossSize(env, w, f);
    var sized := f.(sizeLots := size);
    if size > 0 && RecordFill(env, w, sized, passed) != w {
      RecordFillAdds(env, w, sized, passed);
      RecordedKeeps(env, w, RecordFill(env, w, sized, passed).ring, sized, Carries(w, passed));
    }
  }

  // ----- consuming a fill -----

  /** A successful settle presents the recorded fill, and takes its own flag. */
  lemma SettledIsRecorded(env: Env, w: World, f: Fill)
    requires Books(env, w) && NoCollision(env, w, f) && SettleFill(env, w, f) != w
    ensures w.ring.settled < w.ring.produced
    ensures Fields(env, f, w.ring.settled) == Fields(env, w.matched[w.ring.settled], w.ring.settled)
    ensures KeyOf(env, f) == KeyOf(env, w.matched[w.ring.settled])
    ensures w.ring.flags[IndexOf(w.ring.settled, |w.ring.slots|)] == w.matched[w.ring.settled].reduceOnly
  {
    assert Waits(w, w.ring.settled);
  }

  /** w' is w with its oldest fill consumed by f. */
  ghost predicate OneLessFill(env: Env, w: World, w': World, f: Fill)
    requires Shape(w)
  {
    var k := IndexOf(w.ring.settled, |w.ring.slots|);
    && w.ring.settled < w.ring.produced
    && w'.ring.produced == w.ring.produced && w'.ring.settled == w.ring.settled + 1
    && w'.ring.slots == w.ring.slots[k := ZERO32] && w'.ring.flags == w.ring.flags[k := false]
    && TableOk(w'.ring.table) && |w'.ring.table| == |w.ring.table|
    && w'.outbox == w.outbox && w'.batchOrders == w.batchOrders
    && w'.matched == w.matched && w'.carried == w.carried && w'.settled == w.settled + [f]
    && (forall key: Bytes32 :: key != ZERO32 ==>
          TableGet(w'.ring.table, key)
          == SaturatingSub(TableGet(w.ring.table, key), LotsFor(env, w.matched[w.ring.settled], key)))
  }

  lemma SettleRemoves(env: Env, w: World, f: Fill)
    requires Books(env, w) && KeysNonzero(env) && NoCollision(env, w, f) && SettleFill(env, w, f) != w
    ensures OneLessFill(env, w, SettleFill(env, w, f), f)
  {
    var head := w.matched[w.ring.settled];
    hide RingHolds, RestClear, TableCounts, TableOk, TableGet;
    SettledIsRecorded(env, w, f);
    ReleasedTable(env, w.ring.table, f, head);
  }

  /** Releasing what the flagged head reserved, or nothing. */
  lemma ReleasedTable(env: Env, table: seq<Entry>, f: Fill, head: Fill)
    requires TableOk(table) && KeysNonzero(env)
    requires KeyOf(env, f) == KeyOf(env, head) && f.sizeLots == head.sizeLots
    ensures var table' := if head.reduceOnly then TableSub(table, KeyOf(env, f), f.sizeLots) else table;
      && TableOk(table') && |table'| == |table|
      && forall key: Bytes32 :: key != ZERO32 ==>
           TableGet(table', key) == SaturatingSub(TableGet(table, key), LotsFor(env, head, key))
  {
    SubIsMap(table, KeyOf(env, f), f.sizeLots);
    SubGets(table, KeyOf(env, f), f.sizeLots);
  }

  lemma SubGets(table: seq<Entry>, key: Bytes32, delta: U64)
    requires TableOk(table) && key != ZERO32
    ensures forall other: Bytes32 :: other != ZERO32 ==>
      TableGet(TableSub(table, key, delta), other)
      == if other == key then SaturatingSub(TableGet(table, key), delta) else TableGet(table, other)
  {
    SubIsMap(table, key, delta);
    forall other: Bytes32 | other != ZERO32
      ensures TableGet(TableSub(table, key, delta), other)
           == if other == key then SaturatingSub(TableGet(table, key), delta) else TableGet(table, other)
    {
      GetIsMap(table, other);
      GetIsMap(TableSub(table, key, delta), other);
    }
  }

  lemma SettledRing(env: Env, w: World, w': World, f: Fill)
    requires Shape(w) && RingHolds(env, w) && OneLessFill(env, w, w', f) && Shape(w')
    ensures RingHolds(env, w')
  {
    hide TableGet, TableOk, CommitOf;
    var cap := |w.ring.slots|;
    forall i: nat | Waits(w', i)
      ensures w'.ring.slots[IndexOf(i, cap)] == CommitOf(env, w'.matched[i], i)
      ensures w'.ring.flags[IndexOf(i, cap)] == w'.matched[i].reduceOnly
    {
      assert Waits(w, i);
      IndexDistinct(w.ring.settled, i, cap);
    }
  }

  lemma SettledClear(env: Env, w: World, w': World, f: Fill)
    requires Shape(w) && RestClear(w) && OneLessFill(env, w, w', f) && Shape(w')
    ensures RestClear(w')
  {
    hide TableGet, TableOk;
    var cap, gone := |w.ring.slots|, IndexOf(w.ring.settled, |w.ring.slots|);
    forall k: nat | k < cap && !Taken(w', k)
      ensures w'.ring.slots[k] == ZERO32 && !w'.ring.flags[k]
    {
      if k != gone {
        StillFree(w, w', k);
      }
    }
  }

  lemma StillFree(w: World, w': World, k: nat)
    requires Shape(w) && Shape(w') && |w'.ring.slots| == |w.ring.slots|
    requires w'.ring.produced == w.ring.produced && w'.ring.settled == w.ring.settled + 1
    requires !Taken(w', k) && k != IndexOf(w.ring.settled, |w.ring.slots|)
    ensures !Taken(w, k)
  {
    forall i: nat | Waits(w, i)
      ensures IndexOf(i, |w.ring.slots|) != k
    {
      assert i != w.ring.settled ==> Waits(w', i);
    }
  }

  lemma SettledCounts(env: Env, w: World, w': World, f: Fill)
    requires Shape(w) && TableCounts(env, w) && OneLessFill(env, w, w', f) && Shape(w')
    ensures TableCounts(env, w')
  {
    var head := w.matched[w.ring.settled];
    assert Waiting(w) == [head] + Waiting(w');
    forall key: Bytes32 | key != ZERO32
      ensures TableGet(w'.ring.table, key) == InFlight(env, Waiting(w'), key)
    {
      assert InFlight(env, Waiting(w), key) == LotsFor(env, head, key) + InFlight(env, Waiting(w'), key);
    }
    assert forall i: nat :: Waits(w', i) ==> Waits(w, i);
  }

  lemma SettledRest(env: Env, w: World, w': World, f: Fill)
    requires Shape(w) && HistoryAgrees(env, w) && OneLessFill(env, w, w', f) && Shape(w')
    requires Fields(env, f, w.ring.settled) == Fields(env, w.matched[w.ring.settled], w.ring.settled)
    ensures HistoryAgrees(env, w')
  {
    assert forall i: nat :: Waits(w', i) ==> Waits(w, i);
  }

  lemma SettleKeeps(env: Env, w: World, f: Fill)
    requires Books(env, w) && KeysNonzero(env) && NoCollision(env, w, f)
    ensures Books(env, SettleFill(env, w, f))
  {
    hide SettleFill, RingHolds, RestClear, TableCounts, HistoryAgrees, Fields;
    var w' := SettleFill(env, w, f);
    if w' != w {
      SettledIsRecorded(env, w, f);
      SettleRemoves(env, w, f);
      SettledRing(env, w, w', f);
      SettledClear(env, w, w', f);
      SettledCounts(env, w, w', f);
      SettledRest(env, w, w', f);
    }
  }

  // ----- growth -----

  /** Draining clears: when nothing waits, every slot, flag and entry is clear. */
  lemma DrainedIsEmpty(env: Env, w: World)
    requires Books(env, w) && w.ring.produced == w.ring.settled
    ensures w.ring == FillBuffers.EmptyRing(|w.ring.slots|, w.ring.produced)
  {
    var r := w.ring;
    assert Waiting(w) == [];
    forall k: nat | k < |r.slots|
      ensures r.slots[k] == ZERO32 && !r.flags[k]
    {
      assert !Taken(w, k);
    }
    forall i | 0 <= i < |r.table|
      ensures r.table[i] == NO_ENTRY
    {
      if r.table[i].position != ZERO32 {
        GetIsMap(r.table, r.table[i].position);
      }
    }
    assert r.slots == seq(|r.slots|, _ => ZERO32) && r.flags == seq(|r.slots|, _ => false);
    assert r.table == seq(FILL_INFLIGHT_SLOTS, _ => NO_ENTRY);
  }

  lemma EmptyTable()
    ensures var t := seq(FILL_INFLIGHT_SLOTS, _ => NO_ENTRY);
      TableOk(t) && forall key: Bytes32 :: key != ZERO32 ==> TableGet(t, key) == 0
  {
  }

  lemma GrowRingKeeps(env: Env, w: World, n: U32)
    requires Books(env, w)
    ensures Books(env, Step(env, w, GrowRing(n)))
  {
    if n > 0 && w.ring.produced == w.ring.settled {
      EmptyTable();
      assert Waiting(w) == [];
      var w' := Step(env, w, GrowRing(n));
      assert Waiting(w') == [];
      assert forall i: nat :: !Waits(w', i);
    }
  }

  lemma ArmOutboxKeeps(env: Env, w: World)
    requires Books(env, w)
    ensures Books(env, Step(env, w, ArmOutbox))
  {
    var w' := Step(env, w, ArmOutbox);
    assert w'.ring == w.ring && w'.matched == w.matched && Waiting(w') == Waiting(w);
    assert forall i: nat :: Waits(w', i) <==> Waits(w, i);
    assert forall k: nat :: k < |w.ring.slots| ==> (Taken(w', k) <==> Taken(w, k));
  }

  lemma GrowOutboxKeeps(env: Env, w: World, records: seq<FillOutboxes.OutboxSlot>)
    requires Books(env, w)
    ensures Books(env, Step(env, w, GrowOutbox(records)))
  {
    var w' := Step(env, w, GrowOutbox(records));
    assert w'.ring == w.ring && w'.matched == w.matched;
    assert forall i: nat :: Waits(w', i) <==> Waits(w, i);
    assert forall k: nat :: k < |w.ring.slots| ==> (Taken(w', k) <==> Taken(w, k));
  }

  lemma MoveKeeps(env: Env, w: World, key: Bytes32, h: Holding)
    requires Books(env, w)
    ensures Books(env, Step(env, w, Move(key, h)))
  {
    var w' := Step(env, w, Move(key, h));
    assert w'.ring == w.ring && w'.matched == w.matched;
    assert forall i: nat :: Waits(w', i) <==> Waits(w, i);
    assert forall k: nat :: k < |w.ring.slots| ==> (Taken(w', k) <==> Taken(w, k));
  }

  /** Every step keeps the books, whatever happens to the positions. */
  lemma StepKeepsBooks(env: Env, w: World, op: Op)
    requires Books(env, w) && KeysNonzero(env)
    requires op.Settle? ==> NoCollision(env, w, op.presented)
    ensures Books(env, Step(env, w, op))
  {
    hide Books;
    match op
    case Cross(f, passed) => CrossKeeps(env, w, f, passed);
    case Settle(f) => SettleKeeps(env, w, f);
    case GrowRing(n) => GrowRingKeeps(env, w, n);
    case ArmOutbox => ArmOutboxKeeps(env, w);
    case GrowOutbox(records) => GrowOutboxKeeps(env, w, records);
    case Move(key, h) => MoveKeeps(env, w, key, h);
  }
}
