/** The optional fill outbox beside the settlement machine: which waiting fills can be
    read back from it, and when it can grow. */
module SettlementOutboxes {
  import opened Bytes
  import opened Wrappers
  import opened FillRings
  import FillOutboxes
  import opened Settlement
  import opened SettlementRuns
  import opened SettlementEffects

  /** The outbox has the record of index i in the place where a reader looks for it. */
  predicate Reads(w: World, i: nat)
    requires i < |w.matched|
  {
    && w.outbox.Some? && |w.outbox.value.slots| > 0
    && w.outbox.value.slots[IndexOf(i, |w.outbox.value.slots|)] == Record(w.matched[i])
  }

  ghost predicate ReadsBack(w: World)
    requires Shape(w)
  {
    forall i: nat :: Waits(w, i) ==> Reads(w, i)
  }

  /** Every waiting fill was recorded with the outbox passed. */
  ghost predicate AllCarried(w: World)
    requires Shape(w)
  {
    forall i: nat :: Waits(w, i) ==> w.carried[i]
  }

  ghost predicate NeverCarried(w: World) {
    forall i: nat :: i < |w.carried| ==> !w.carried[i]
  }

  /** The mirrored cursors are those of the ring at the last carried fill. */
  ghost predicate CursorsMirror(w: World, o: FillOutboxes.Outbox)
    requires Shape(w)
  {
    && o.produced <= w.ring.produced && o.settled <= w.ring.settled
    && (o.produced == 0 ==> o.settled == 0)
    && (o.produced > 0 ==> o.settled < o.produced && w.carried[o.produced - 1])
    && (forall i: nat :: o.produced <= i < |w.carried| ==> !w.carried[i])
  }

  /** A waiting carried fill stands in an outbox as large as the ring. */
  ghost predicate CarriedHeld(w: World)
    requires Shape(w)
  {
    forall i: nat :: Waits(w, i) && w.carried[i] ==>
      Reads(w, i) && |w.ring.slots| <= |w.outbox.value.slots|
  }

  /** What every run keeps of the outbox. */
  ghost predicate MirrorOk(w: World) {
    && Shape(w) && CarriedHeld(w)
    && (if w.outbox.Some? then CursorsMirror(w, w.outbox.value) else NeverCarried(w))
    && (forall i: nat :: Waits(w, i) ==> w.matched[i].sizeLots > 0)
  }

  lemma DeployedMirror(cap: U32, holdings: map<Bytes32, Holding>)
    requires cap > 0
    ensures MirrorOk(Deployed(cap, holdings))
  {
    EmptyTable();
  }

  // ----- what the cursors say -----

  /** The outbox can grow exactly as long as no fill was ever carried: before the
      first one whether the ring is drained or not, after it never again. */
  lemma GrowGateExact(w: World)
    requires MirrorOk(w)
    ensures GrowGate(w) <==> w.outbox.Some? && NeverCarried(w)
  {
  }

  /** The mirror is level with the ring exactly when the newest fill was carried. */
  lemma LastCarried(w: World)
    requires MirrorOk(w) && w.outbox.Some? && w.ring.produced > 0
    ensures w.outbox.value.produced == w.ring.produced <==> w.carried[w.ring.produced - 1]
  {
  }

  // ----- steps and runs -----

  lemma RecordedHeld(env: Env, w: World, r: Ring, f: Fill, carry: bool)
    requires Shape(w) && CarriedHeld(w) && OneMoreFill(env, w, r, f)
    requires CanCarry(w, carry) && Deliverable(w, carry) && Shape(Recorded(w, r, f, carry))
    ensures CarriedHeld(Recorded(w, r, f, carry))
  {
    hide TableOk, TableGet;
    var w' := Recorded(w, r, f, carry);
    forall i: nat | Waits(w', i) && w'.carried[i]
      ensures Reads(w', i) && |r.slots| <= |w'.outbox.value.slots|
    {
      if i < w.ring.produced {
        assert Waits(w, i) && Reads(w, i);
        if carry {
          IndexDistinct(i, w.ring.produced, |w.outbox.value.slots|);
        }
      }
    }
  }

  lemma RecordedMirror(env: Env, w: World, r: Ring, f: Fill, carry: bool)
    requires MirrorOk(w) && OneMoreFill(env, w, r, f) && f.sizeLots > 0
    requires CanCarry(w, carry) && Deliverable(w, carry) && Shape(Recorded(w, r, f, carry))
    requires carry ==> w.outbox.Some?
    ensures MirrorOk(Recorded(w, r, f, carry))
  {
    RecordedHeld(env, w, r, f, carry);
    hide TableOk, TableGet, CarriedHeld;
    var w' := Recorded(w, r, f, carry);
    forall i: nat | Waits(w', i)
      ensures w'.matched[i].sizeLots > 0
    {
      assert i < w.ring.produced ==> Waits(w, i);
    }
  }

  /** A cross records at most one fill; that it was carried is decided by the outbox
      being armed and passed, and then its record is there. */
  lemma CrossCarries(env: Env, w: World, f: Fill, passed: bool)
    requires Books(env, w) && KeysNonzero(env) && MirrorOk(w)
    ensures var w' := Step(env, w, Cross(f, passed));
      && MirrorOk(w')
      && (w' != w ==>
            && w'.ring.produced == w.ring.produced + 1
            && w'.carried == w.carried + [Carries(w, passed)]
            && (Carries(w, passed) ==> Reads(w', w.ring.produced)))
  {
    var size := CrossSize(env, w, f);
    var sized := f.(sizeLots := size);
    if size > 0 && RecordFill(env, w, sized, passed) != w {
      RecordFillAdds(env, w, sized, passed);
      CrossKeeps(env, w, f, passed);
      hide RingHolds, RestClear, TableCounts, HistoryAgrees, RecordFill, CrossSize, MirrorOk;
      RecordedMirror(env, w, RecordFill(env, w, sized, passed).ring, sized, Carries(w, passed));
    }
  }

  lemma ConsumedMirror(env: Env, w: World, w': World, f: Fill)
    requires MirrorOk(w) && OneLessFill(env, w, w', f) && Shape(w')
    ensures MirrorOk(w')
  {
    hide TableOk, TableGet, Record, Fields;
    assert forall i: nat :: Waits(w', i) ==> Waits(w, i);
    assert forall i: nat :: i < |w.matched| ==> (Reads(w', i) <==> Reads(w, i));
  }

  lemma SettleMirror(env: Env, w: World, f: Fill)
    requires Books(env, w) && KeysNonzero(env) && NoCollision(env, w, f) && MirrorOk(w)
    ensures MirrorOk(SettleFill(env, w, f))
  {
    var w' := SettleFill(env, w, f);
    if w' != w {
      SettleRemoves(env, w, f);
      SettleKeeps(env, w, f);
      hide SettleFill, RingHolds, RestClear, TableCounts, HistoryAgrees, TableOk, TableGet, OneLessFill, MirrorOk;
      ConsumedMirror(env, w, w', f);
    }
  }

  lemma StepMirror(env: Env, w: World, op: Op)
    requires Books(env, w) && KeysNonzero(env) && Enabled(env, w, op) && MirrorOk(w)
    ensures MirrorOk(Step(env, w, op))
  {
    match op
    case Cross(f, passed) => CrossCarries(env, w, f, passed);
    case Settle(f) => SettleMirror(env, w, f);
    case _ =>
      EnabledStep(env, w, op);
      StepKeepsBooks(env, w, op);
      OtherMirror(env, w, op);
  }

  /** Only a ring in which nothing waits, or an outbox that carried nothing, is resized. */
  lemma OtherMirror(env: Env, w: World, op: Op)
    requires MirrorOk(w) && Shape(Step(env, w, op)) && !op.Cross? && !op.Settle?
    ensures MirrorOk(Step(env, w, op))
  {
    hide TableOk, TableGet, Enabled;
    var w' := Step(env, w, op);
    GrowGateExact(w);
    assert w'.matched == w.matched && w'.carried == w.carried;
    assert forall i: nat :: Waits(w', i) ==> Waits(w, i);
  }

  lemma {:induction false} RunMirror(env: Env, w: World, ops: seq<Op>)
    requires Books(env, w) && KeysNonzero(env) && EnabledRun(env, w, ops) && MirrorOk(w)
    ensures MirrorOk(Run(env, w, ops))
    decreases |ops|
  {
    if ops != [] {
      hide Books, Step, MirrorOk;
      EnabledStep(env, w, ops[0]);
      StepKeepsBooks(env, w, ops[0]);
      StepMirror(env, w, ops[0]);
      RunMirror(env, Step(env, w, ops[0]), ops[1..]);
    }
  }

  /** A carried fill can be read back at its index until it is settled, whatever
      happens in between. */
  lemma CarriedStaysReadable(env: Env, w: World, ops: seq<Op>, i: nat)
    requires Books(env, w) && KeysNonzero(env) && MirrorOk(w) && EnabledRun(env, w, ops)
    requires i < |w.carried| && w.carried[i]
    ensures var w' := Run(env, w, ops);
      && i < |w'.matched| && w'.matched[i] == w.matched[i]
      && (i < |w'.settled| || Reads(w', i))
  {
    RunMirror(env, w, ops);
    RunHistory(env, w, ops);
    hide Run, EnabledRun, RingHolds, RestClear, TableCounts, HistoryAgrees, TableOk;
    var w' := Run(env, w, ops);
    if i >= |w'.settled| {
      assert Waits(w', i);
    }
  }

  /** The fill that a record stands for; the flag is not in it. */
  function FillOf(r: FillOutboxes.OutboxSlot, reduceOnly: bool): Fill
    requires r.takerSide <= 1
  {
    Fill(r.taker, r.maker, r.takerSide, r.sizeLots, r.priceTicks, r.takerSubIndex, r.makerSubIndex,
         r.makerId, r.takerWasJit == 1, reduceOnly)
  }

  /** Reading the outbox is enough to settle: the record at the oldest index, when that
      fill was carried, names a fill that the ring accepts. */
  lemma RecordSettles(env: Env, w: World, reduceOnly: bool)
    requires Books(env, w) && MirrorOk(w) && Waiting(w) != [] && w.carried[w.ring.settled]
    ensures w.outbox.Some? && |w.outbox.value.slots| > 0
    ensures var r := w.outbox.value.slots[IndexOf(w.ring.settled, |w.outbox.value.slots|)];
      r.takerSide <= 1 && PresentsHead(env, w, FillOf(r, reduceOnly)) && SettleFill(env, w, FillOf(r, reduceOnly)) != w
  {
    var head := w.matched[w.ring.settled];
    assert Waits(w, w.ring.settled) && Reads(w, w.ring.settled);
    var f := FillOf(Record(head), reduceOnly);
    FieldsExact(env, f, head, w.ring.settled, w.ring.settled);
    hide RestClear, TableCounts, HistoryAgrees, TableOk, TableGet;
    SameCommitSettles(env, w, f);
  }

  lemma SameCommitSettles(env: Env, w: World, f: Fill)
    requires Books(env, w) && Waiting(w) != []
    requires CommitOf(env, f, w.ring.settled) == CommitOf(env, w.matched[w.ring.settled], w.ring.settled)
    ensures SettleFill(env, w, f) != w
  {
    assert Waits(w, w.ring.settled);
  }

  // ----- when everything can be read back -----

  /** The batch cap of the market is above what an event log can carry. */
  predicate Enforced(w: World) {
    w.outbox.Some? && EffectiveBatchCap(w) > MAX_MATCH_BATCH_ORDERS
  }

  lemma StepEnforced(env: Env, w: World, op: Op)
    requires Books(env, w) && KeysNonzero(env) && Enabled(env, w, op) && MirrorOk(w)
    requires Enforced(w) && AllCarried(w) && Shape(Step(env, w, op))
    ensures Enforced(Step(env, w, op)) && AllCarried(Step(env, w, op))
  {
    match op
    case Cross(f, passed) =>
      CrossEnforced(env, w, f, passed);
    case Settle(f) =>
      if SettleFill(env, w, f) != w {
        SettleRemoves(env, w, f);
        hide SettleFill, Books, MirrorOk;
        var w' := Step(env, w, op);
        assert forall i: nat :: Waits(w', i) ==> Waits(w, i);
      }
    case _ =>
      hide Books, MirrorOk, Enabled;
      var w' := Step(env, w, op);
      assert w'.carried == w.carried;
      assert forall i: nat :: Waits(w', i) ==> Waits(w, i);
  }

  lemma CrossEnforced(env: Env, w: World, f: Fill, passed: bool)
    requires Books(env, w) && KeysNonzero(env) && MirrorOk(w)
    requires Enforced(w) && AllCarried(w) && Shape(Step(env, w, Cross(f, passed)))
    ensures Enforced(Step(env, w, Cross(f, passed))) && AllCarried(Step(env, w, Cross(f, passed)))
  {
    var w' := Step(env, w, Cross(f, passed));
    var sized := f.(sizeLots := CrossSize(env, w, f));
    if w' != w {
      RecordFillAdds(env, w, sized, passed);
      hide Books, MirrorOk, RecordFill, CrossSize, TableOk, TableGet, Record;
      assert Carries(w, passed);
      forall i: nat | Waits(w', i)
        ensures w'.carried[i]
      {
        assert i != w.ring.produced ==> Waits(w, i);
      }
    }
  }

  lemma {:induction false} RunEnforced(env: Env, w: World, ops: seq<Op>)
    requires Books(env, w) && KeysNonzero(env) && EnabledRun(env, w, ops) && MirrorOk(w)
    requires Enforced(w) && AllCarried(w)
    ensures MirrorOk(Run(env, w, ops)) && AllCarried(Run(env, w, ops))
    decreases |ops|
  {
    if ops != [] {
      hide Step, Enforced, AllCarried, RingHolds, RestClear, TableCounts, HistoryAgrees, CarriedHeld, CursorsMirror;
      EnabledStep(env, w, ops[0]);
      StepKeepsBooks(env, w, ops[0]);
      StepMirror(env, w, ops[0]);
      StepEnforced(env, w, ops[0]);
      RunEnforced(env, Step(env, w, ops[0]), ops[1..]);
    }
  }

  /** A fill that leaves no room for doubt: its record is not the one that stands there. */
  function Unlike(o: FillOutboxes.Outbox, index: nat): (f: Fill)
    ensures f.sizeLots == 1 && !f.reduceOnly
    ensures |o.slots| > 0 ==> Record(f) != o.slots[IndexOf(index, |o.slots|)]
  {
    var id := if |o.slots| > 0 && o.slots[IndexOf(index, |o.slots|)].makerId == 0 then 1 else 0;
    Fill(ZERO32, ZERO32, 0, 1, 0, 0, 0, id, false, false)
  }

  /** With room in the ring, and no need to pass the outbox, a cross without it
      leaves an index that does not read back. */
  lemma UncarriedCross(env: Env, w: World)
    requires Books(env, w) && w.outbox.Some? && !Enforced(w) && w.ring.produced < U64_MAX
    requires w.ring.produced < w.ring.settled + |w.ring.slots|
    ensures var w' := Step(env, w, Cross(Unlike(w.outbox.value, w.ring.produced), false));
      Waits(w', w.ring.produced) && |w'.matched| == w.ring.produced + 1 && !Reads(w', w.ring.produced)
  {
    var f := Unlike(w.outbox.value, w.ring.produced);
    var w' := Step(env, w, Cross(f, false));
    assert CrossSize(env, w, f) == 1 && f.(sizeLots := 1) == f;
    assert w'.outbox == w.outbox && w'.matched[w.ring.produced] == f;
  }

  lemma LosesRecordWithRoom(env: Env, w: World) returns (ops: seq<Op>)
    requires Books(env, w) && KeysNonzero(env)
    requires w.outbox.Some? && !Enforced(w) && w.ring.produced < U64_MAX
    requires w.ring.produced < w.ring.settled + |w.ring.slots|
    ensures EnabledRun(env, w, ops) && Shape(Run(env, w, ops)) && !ReadsBack(Run(env, w, ops))
  {
    UncarriedCross(env, w);
    var op := Cross(Unlike(w.outbox.value, w.ring.produced), false);
    StepKeepsBooks(env, w, op);
    hide Step;
    ops := [op];
    OneStepRun(env, w, op);
  }

  lemma OneStepRun(env: Env, w: World, op: Op)
    ensures Run(env, w, [op]) == Step(env, w, op)
    ensures Enabled(env, w, op) ==> EnabledRun(env, w, [op])
  {
    hide Step;
    assert [op][1..] == [];
    assert Run(env, Step(env, w, op), []) == Step(env, w, op);
  }

  /** Some run from a state that does not enforce the outbox loses a record. */
  lemma LosesRecord(env: Env, w: World) returns (ops: seq<Op>)
    requires Books(env, w) && KeysNonzero(env)
    requires w.outbox.Some? && !Enforced(w) && w.ring.produced < U64_MAX
    ensures EnabledRun(env, w, ops) && Shape(Run(env, w, ops)) && !ReadsBack(Run(env, w, ops))
  {
    if w.ring.produced < w.ring.settled + |w.ring.slots| {
      ops := LosesRecordWithRoom(env, w);
    } else {
      var op := Settle(w.matched[w.ring.settled]);
      assert Waiting(w) != [];
      HeadSettles(env, w);
      SettleRemoves(env, w, w.matched[w.ring.settled]);
      StepKeepsBooks(env, w, op);
      var w' := Step(env, w, op);
      assert !Enforced(w');
      hide Step, Books;
      var rest := LosesRecordWithRoom(env, w');
      ops := [op] + rest;
      assert ops[1..] == rest;
    }
  }

  /** Whatever happens from here, no waiting fill goes missing from the outbox. */
  ghost predicate AlwaysReadsBack(env: Env, w: World) {
    forall ops :: EnabledRun(env, w, ops) ==> Shape(Run(env, w, ops)) && ReadsBack(Run(env, w, ops))
  }

  lemma ReadsBackNow(env: Env, w: World)
    requires AlwaysReadsBack(env, w)
    ensures Shape(w) && ReadsBack(w)
  {
    var none: seq<Op> := [];
    assert EnabledRun(env, w, none) && Run(env, w, none) == w;
  }

  /** Once armed with nothing uncarried waiting: every waiting fill can always be read
      back exactly when the batch cap is above the size a log can carry. */
  lemma OutboxExact(env: Env, w: World)
    requires Books(env, w) && KeysNonzero(env) && MirrorOk(w) && AllCarried(w)
    requires w.outbox.Some? && w.ring.produced < U64_MAX
    ensures EffectiveBatchCap(w) > MAX_MATCH_BATCH_ORDERS <==> AlwaysReadsBack(env, w)
  {
    if Enforced(w) {
      forall ops | EnabledRun(env, w, ops)
        ensures Shape(Run(env, w, ops)) && ReadsBack(Run(env, w, ops))
      {
        RunEnforced(env, w, ops);
        CarriedReads(Run(env, w, ops));
      }
    } else {
      var ops := LosesRecord(env, w);
    }
  }

  lemma CarriedReads(w: World)
    requires MirrorOk(w) && AllCarried(w)
    ensures ReadsBack(w)
  {
  }

  /** Arming: every waiting fill can be read back from then on, in every run, exactly
      when the ring was drained and is larger than a log can carry. */
  lemma ArmedExact(env: Env, w: World)
    requires Books(env, w) && KeysNonzero(env) && MirrorOk(w)
    requires w.outbox.None? && |w.ring.slots| <= 0xFFFF && w.ring.produced < U64_MAX
    ensures var w' := Step(env, w, ArmOutbox);
      w.ring.produced == w.ring.settled && |w.ring.slots| > MAX_MATCH_BATCH_ORDERS <==>
        AlwaysReadsBack(env, w')
  {
    var w' := Step(env, w, ArmOutbox);
    ArmOutboxKeeps(env, w);
    StepMirror(env, w, ArmOutbox);
    ArmedFresh(env, w);
    hide Step, Books, MirrorOk, EffectiveBatchCap, AllCarried, ReadsBack, AlwaysReadsBack;
    if w.ring.produced == w.ring.settled {
      OutboxExact(env, w');
    } else {
      ArmedUndrained(env, w);
      if AlwaysReadsBack(env, w') {
        ReadsBackNow(env, w');
      }
    }
  }

  lemma ArmedFresh(env: Env, w: World)
    requires Shape(w) && w.outbox.None? && |w.ring.slots| <= 0xFFFF
    ensures var w' := Step(env, w, ArmOutbox);
      && w'.outbox.Some? && w'.ring == w.ring && Shape(w')
      && (EffectiveBatchCap(w') > MAX_MATCH_BATCH_ORDERS <==> |w.ring.slots| > MAX_MATCH_BATCH_ORDERS)
      && (w.ring.produced == w.ring.settled ==> AllCarried(w'))
  {
  }

  lemma ArmedUndrained(env: Env, w: World)
    requires MirrorOk(w) && w.outbox.None? && |w.ring.slots| <= 0xFFFF && w.ring.produced != w.ring.settled
    ensures var w' := Step(env, w, ArmOutbox); Shape(w') && !ReadsBack(w')
  {
    var w', i := Step(env, w, ArmOutbox), w.ring.settled;
    assert Waits(w, i) && Waits(w', i);
    assert Record(w'.matched[i]).sizeLots > 0;
    assert !Reads(w', i);
  }

  // ----- a ring grown past its outbox -----

  /** No run from here ever records another fill. */
  ghost predicate Halted(env: Env, w: World) {
    forall ops :: EnabledRun(env, w, ops) ==> Run(env, w, ops).matched == w.matched
  }

  /** The batch cap demands the outbox, which is too small and can no longer grow. */
  ghost predicate Stuck(w: World) {
    Enforced(w) && !NeverCarried(w) && |w.ring.slots| > |w.outbox.value.slots|
  }

  lemma StuckStep(env: Env, w: World, op: Op)
    requires Books(env, w) && KeysNonzero(env) && Enabled(env, w, op) && MirrorOk(w) && Stuck(w)
    ensures Stuck(Step(env, w, op)) && Step(env, w, op).matched == w.matched
  {
    GrowGateExact(w);
    if op.Settle? && SettleFill(env, w, op.presented) != w {
      SettleRemoves(env, w, op.presented);
      hide SettleFill;
    }
    hide Books, MirrorOk, TableGet, TableOk, Committed;
  }

  lemma {:induction false} StuckRun(env: Env, w: World, ops: seq<Op>)
    requires Books(env, w) && KeysNonzero(env) && EnabledRun(env, w, ops) && MirrorOk(w) && Stuck(w)
    ensures Run(env, w, ops).matched == w.matched
    decreases |ops|
  {
    if ops != [] {
      hide Books, Step, MirrorOk, Stuck;
      EnabledStep(env, w, ops[0]);
      StepKeepsBooks(env, w, ops[0]);
      StepMirror(env, w, ops[0]);
      StuckStep(env, w, ops[0]);
      StuckRun(env, Step(env, w, ops[0]), ops[1..]);
    }
  }

  /** A cross that passes a large enough outbox records its fill when the ring has room. */
  lemma PassedCross(env: Env, w: World)
    requires Books(env, w) && w.outbox.Some? && w.ring.produced < U64_MAX
    requires |w.ring.slots| <= |w.outbox.value.slots| && w.ring.produced < w.ring.settled + |w.ring.slots|
    ensures var op := Cross(Unlike(w.outbox.value, w.ring.produced), true);
      Enabled(env, w, op) && |Step(env, w, op).matched| == |w.matched| + 1
  {
    var f := Unlike(w.outbox.value, w.ring.produced);
    assert CrossSize(env, w, f) == 1 && f.(sizeLots := 1) == f;
  }

  lemma RecordsAgain(env: Env, w: World) returns (ops: seq<Op>)
    requires Books(env, w) && KeysNonzero(env) && w.outbox.Some? && w.ring.produced < U64_MAX
    requires |w.ring.slots| <= |w.outbox.value.slots|
    ensures EnabledRun(env, w, ops) && |Run(env, w, ops).matched| == |w.matched| + 1
  {
    if w.ring.produced < w.ring.settled + |w.ring.slots| {
      PassedCross(env, w);
      var op := Cross(Unlike(w.outbox.value, w.ring.produced), true);
      hide Step;
      ops := [op];
      OneStepRun(env, w, op);
    } else {
      var op := Settle(w.matched[w.ring.settled]);
      assert Waiting(w) != [];
      HeadSettles(env, w);
      SettleRemoves(env, w, w.matched[w.ring.settled]);
      StepKeepsBooks(env, w, op);
      var w' := Step(env, w, op);
      PassedCross(env, w');
      hide Step, Books;
      var op' := Cross(Unlike(w'.outbox.value, w'.ring.produced), true);
      OneStepRun(env, w', op');
      ops := [op, op'];
      assert ops[1..] == [op'];
    }
  }

  /** Once the outbox is demanded and has carried a fill, matching has halted for good
      exactly when the ring has been grown past it. */
  lemma HaltsExact(env: Env, w: World)
    requires Books(env, w) && KeysNonzero(env) && MirrorOk(w)
    requires Enforced(w) && !NeverCarried(w) && w.ring.produced < U64_MAX
    ensures |w.ring.slots| > |w.outbox.value.slots| <==> Halted(env, w)
  {
    if |w.ring.slots| > |w.outbox.value.slots| {
      forall ops | EnabledRun(env, w, ops)
        ensures Run(env, w, ops).matched == w.matched
      {
        StuckRun(env, w, ops);
      }
    } else {
      var ops := RecordsAgain(env, w);
    }
  }

  // ----- two inputs -----

  /** With a ring of 96 a taker may leave the outbox out: its fill waits unrecorded, and
      the outbox, whose mirrored cursors are still equal, grows on a ring not drained. */
  lemma UnpassedOutbox(env: Env, f: Fill, records: seq<FillOutboxes.OutboxSlot>)
    requires f.sizeLots > 0 && !f.reduceOnly && records != []
    ensures var w := Step(env, Step(env, Deployed(96, map[]), ArmOutbox), Cross(f, false));
      && Waits(w, 0) && |w.matched| == 1 && !Reads(w, 0) && GrowGate(w)
      && Step(env, w, GrowOutbox(records)).outbox != w.outbox
  {
    var w0 := Step(env, Deployed(96, map[]), ArmOutbox);
    var w := Step(env, w0, Cross(f, false));
    assert w.matched == [f] && w.outbox == w0.outbox;
    assert w.outbox.value.slots[0] == FillOutboxes.ZERO_RECORD;
    assert |w.outbox.value.slots + records| > |w.outbox.value.slots|;
  }

  /** Armed while a fill waits: that fill has no record, whatever the size of the ring. */
  lemma ArmedWhileWaiting(env: Env, cap: U32, f: Fill)
    requires 0 < cap <= 0xFFFF && f.sizeLots > 0 && !f.reduceOnly
    ensures var w := Step(env, Step(env, Deployed(cap, map[]), Cross(f, false)), ArmOutbox);
      w.outbox.Some? && Waits(w, 0) && |w.matched| == 1 && !Reads(w, 0)
  {
    var w0 := Step(env, Deployed(cap, map[]), Cross(f, false));
    assert w0.matched == [f] && w0.ring.produced == 1;
  }
}
