/** What each step of the settlement machine does, said of the books and positions:
    how much a reduce-only order fills, when a fill is recorded or settled, and what
    is then different. */
module SettlementEffects {
  import opened Bytes
  import opened Wrappers
  import opened FillRings
  import FillBuffers
  import FillOutboxes
  import opened ReduceOnly
  import opened PositionMath
  import opened Settlement

  // ----- crossing -----

  /** n more lots of this maker's fills are covered by its position. */
  ghost predicate Room(env: Env, w: World, f: Fill, n: nat)
    requires w.ring.settled <= |w.matched|
  {
    var key := env.positionKey(f.maker, f.makerSubIndex);
    InFlight(env, Waiting(w), key) + n <= HoldingOf(w, key).size
  }

  /** A maker's order fills its whole size, or when it is reduce-only the most that its
      position still covers, on the taker's side, and nothing on its own. */
  lemma CrossSizeExact(env: Env, w: World, f: Fill)
    requires Books(env, w) && KeysNonzero(env)
    ensures var (n, position) := (CrossSize(env, w, f), HoldingOf(w, env.positionKey(f.maker, f.makerSubIndex)));
      && n <= f.sizeLots
      && (!f.reduceOnly ==> n == f.sizeLots)
      && (f.reduceOnly && position.side != f.takerSide ==> n == 0)
      && (f.reduceOnly && position.side == f.takerSide ==>
            && (n > 0 ==> Room(env, w, f, n))
            && (forall m: nat :: m <= f.sizeLots && Room(env, w, f, m) ==> m <= n))
  {
    var key := KeyOf(env, f);
    assert key != ZERO32 && TableGet(w.ring.table, key) == InFlight(env, Waiting(w), key);
  }

  /** The ring, the outbox and the in-flight table all have room for a fill of n lots. */
  ghost predicate CanRecord(env: Env, w: World, f: Fill, passed: bool)
    requires Shape(w)
  {
    && |Waiting(w)| < |w.ring.slots| && w.ring.produced < U64_MAX
    && (if passed && w.outbox.Some? then |w.ring.slots| <= |w.outbox.value.slots|
        else w.batchOrders <= MAX_MATCH_BATCH_ORDERS)
    && (f.reduceOnly ==> KeyOf(env, f) in TableMap(w.ring.table) || |TableMap(w.ring.table)| < FILL_INFLIGHT_SLOTS)
  }

  /** A cross appends exactly what the order fills to the history, and leaves the
      positions alone; it does nothing when that is nothing or there is no room. */
  lemma CrossEffect(env: Env, w: World, f: Fill, passed: bool)
    requires Books(env, w) && KeysNonzero(env)
    ensures var (w', n) := (Step(env, w, Cross(f, passed)), CrossSize(env, w, f));
      if n > 0 && CanRecord(env, w, f, passed) then
        && w'.matched == w.matched + [f.(sizeLots := n)] && w'.settled == w.settled
        && w'.holdings == w.holdings && w'.ring.settled == w.ring.settled
      else w' == w
  {
    var n := CrossSize(env, w, f);
    var sized := f.(sizeLots := n);
    if n > 0 {
      DeliverableMeans(w, passed);
      CommittedWhen(env, w, sized);
      hide Books, CrossSize, Committed, Deliverable, EffectiveBatchCap;
    }
  }

  lemma DeliverableMeans(w: World, passed: bool)
    ensures Deliverable(w, Carries(w, passed)) <==>
      if passed && w.outbox.Some? then |w.ring.slots| <= |w.outbox.value.slots|
      else w.batchOrders <= MAX_MATCH_BATCH_ORDERS
  {
  }

  lemma CommittedWhen(env: Env, w: World, f: Fill)
    requires Books(env, w) && KeysNonzero(env) && f.sizeLots > 0
    ensures var r := Committed(env, w.ring, f);
      && (r.Some? <==>
            && |Waiting(w)| < |w.ring.slots| && w.ring.produced < U64_MAX
            && (f.reduceOnly ==>
                  KeyOf(env, f) in TableMap(w.ring.table) || |TableMap(w.ring.table)| < FILL_INFLIGHT_SLOTS))
      && (r.Some? ==> r.value.settled == w.ring.settled)
  {
    AddIsMap(w.ring.table, KeyOf(env, f), f.sizeLots);
    FullTable(w.ring.table);
  }

  // ----- settling -----

  /** Something waits, and what is presented has the commitment of the oldest. */
  ghost predicate PresentsHead(env: Env, w: World, f: Fill)
    requires Shape(w)
  {
    && Waiting(w) != []
    && CommitOf(env, f, w.ring.settled) == CommitOf(env, w.matched[w.ring.settled], w.ring.settled)
  }

  /** A settlement goes through exactly when the oldest fill is presented; then that
      fill joins the settled ones, and trades on its position if it is reduce-only:
      no other position moves. */
  lemma SettleEffect(env: Env, w: World, f: Fill)
    requires Books(env, w) && KeysNonzero(env) && NoCollision(env, w, f)
    ensures var w' := Step(env, w, Settle(f));
      if PresentsHead(env, w, f) then
        && w'.settled == w.settled + [f] && w'.matched == w.matched
        && var key := env.positionKey(f.maker, f.makerSubIndex);
           w'.holdings == (if w.matched[w.ring.settled].reduceOnly
                           then w.holdings[key := Traded(HoldingOf(w, key), Opposite(f.takerSide), f.sizeLots)]
                           else w.holdings)
      else w' == w
  {
    hide RestClear, TableCounts, HistoryAgrees, TableOk, TableGet, TableSub, Traded;
    var i := w.ring.settled;
    if Waiting(w) != [] {
      assert Waits(w, i);
      assert w.ring.slots[IndexOf(i, |w.ring.slots|)] == CommitOf(env, w.matched[i], i);
      assert w.ring.flags[IndexOf(i, |w.ring.slots|)] == w.matched[i].reduceOnly;
    }
  }

  /** The market, the index and eight fields of the fill are committed: all of it but the
      order id, which settlement does not use, and the flag, which the ring keeps. */
  lemma FieldsExact(env: Env, f: Fill, g: Fill, i: U64, j: U64)
    ensures Fields(env, f, i).market == env.market && Fields(env, f, i).producedIndex == i
    ensures Fields(env, f, i) == Fields(env, g, j) <==>
      && i == j && f.taker == g.taker && f.maker == g.maker && f.takerSide == g.takerSide
      && f.sizeLots == g.sizeLots && f.priceTicks == g.priceTicks && f.takerWasJit == g.takerWasJit
      && f.takerSubIndex == g.takerSubIndex && f.makerSubIndex == g.makerSubIndex
  {
  }

  /** A settled fill is the one that was matched there: barring a collision on that pair,
      who traded what with whom, on which sides and at which price. */
  lemma SettledMatches(env: Env, w: World, f: Fill)
    requires Books(env, w) && NoCollision(env, w, f) && SettleFill(env, w, f) != w
    ensures w.ring.settled < w.ring.produced
    ensures var g := w.matched[w.ring.settled];
      && f.taker == g.taker && f.maker == g.maker && f.takerSide == g.takerSide
      && f.sizeLots == g.sizeLots && f.priceTicks == g.priceTicks && f.takerWasJit == g.takerWasJit
      && f.takerSubIndex == g.takerSubIndex && f.makerSubIndex == g.makerSubIndex
  {
    hide SettleFill, Fields;
    SettledIsRecorded(env, w, f);
    FieldsExact(env, f, w.matched[w.ring.settled], w.ring.settled, w.ring.settled);
  }

  // ----- growth and arming -----

  /** The ring grows exactly when it is drained and asked to. */
  lemma GrowRingEffect(env: Env, w: World, n: U32)
    requires Books(env, w)
    ensures var w' := Step(env, w, GrowRing(n));
      if n > 0 && Waiting(w) == [] then
        && |w'.ring.slots| == |w.ring.slots| + n && w'.ring.produced == w.ring.produced
        && w'.ring.settled == w.ring.settled && w' == w.(ring := w'.ring)
      else w' == w
  {
  }

  /** An outbox can be armed once, as large as the ring but never over 105 records; so
      one armed on a larger ring carries nothing before it is grown. */
  lemma ArmEffect(env: Env, w: World)
    requires Books(env, w)
    ensures var w' := Step(env, w, ArmOutbox);
      if w.outbox.None? && |w.ring.slots| <= 0xFFFF then
        && w'.outbox.Some? && w'.outbox.value.produced == w'.outbox.value.settled == 0
        && |w'.outbox.value.slots| == (if |w.ring.slots| <= 105 then |w.ring.slots| else 105)
        && (forall k :: 0 <= k < |w'.outbox.value.slots| ==> w'.outbox.value.slots[k] == FillOutboxes.ZERO_RECORD)
        && w'.batchOrders == |w.ring.slots| && w' == w.(outbox := w'.outbox, batchOrders := w'.batchOrders)
        && (Deliverable(w', true) <==> |w.ring.slots| <= 105)
      else w' == w
  {
  }

  /** The outbox grows, with its records where they were, exactly when its gate is open. */
  lemma GrowOutboxEffect(env: Env, w: World, records: seq<FillOutboxes.OutboxSlot>)
    ensures var w' := Step(env, w, GrowOutbox(records));
      if w.outbox.Some? && w.outbox.value.produced == w.outbox.value.settled then
        && w'.outbox.Some? && w'.outbox.value.slots == w.outbox.value.slots + records
        && w' == w.(outbox := w'.outbox)
        && w'.outbox.value.produced == w.outbox.value.produced && w'.outbox.value.settled == w.outbox.value.settled
      else w' == w
  {
  }
}
