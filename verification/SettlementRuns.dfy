/** Whole runs of the settlement machine: every fill settles once and in order, and
    reduce-only fills never flip a position. */
module SettlementRuns {
  import opened Bytes
  import opened Wrappers
  import opened FillPreimages
  import opened FillRings
  import FillBuffers
  import FillOutboxes
  import opened ReduceOnly
  import opened PositionMath
  import opened Settlement

  /** A deployed market: an empty ring, no outbox yet, any positions. */
  ghost function Deployed(cap: U32, holdings: map<Bytes32, Holding>): World {
    World(FillBuffers.EmptyRing(cap, 0), None, 0, holdings, [], [], [])
  }

  lemma DeployedKeeps(env: Env, cap: U32, holdings: map<Bytes32, Holding>)
    requires cap > 0
    ensures Books(env, Deployed(cap, holdings)) && Covered(env, Deployed(cap, holdings))
  {
    var w := Deployed(cap, holdings);
    EmptyTable();
    assert Waiting(w) == [];
    assert forall i: nat :: !Waits(w, i);
  }

  ghost predicate EnabledRun(env: Env, w: World, ops: seq<Op>)
    decreases |ops|
  {
    ops == [] || (Enabled(env, w, ops[0]) && EnabledRun(env, Step(env, w, ops[0]), ops[1..]))
  }

  ghost function Run(env: Env, w: World, ops: seq<Op>): World
    decreases |ops|
  {
    if ops == [] then w else Run(env, Step(env, w, ops[0]), ops[1..])
  }

  /** A run is its steps, one after the other, each enabled where it is taken. */
  lemma {:induction false} RunIsSteps(env: Env, w: World, ops: seq<Op>, op: Op)
    ensures Run(env, w, []) == w && EnabledRun(env, w, [])
    ensures Run(env, w, ops + [op]) == Step(env, Run(env, w, ops), op)
    ensures EnabledRun(env, w, ops + [op]) <==> EnabledRun(env, w, ops) && Enabled(env, Run(env, w, ops), op)
    decreases |ops|
  {
    hide Step, Enabled;
    if ops == [] {
      assert [] + [op] == [op] && [op][1..] == [];
      assert Run(env, Step(env, w, op), []) == Step(env, w, op);
    } else {
      assert (ops + [op])[0] == ops[0] && (ops + [op])[1..] == ops[1..] + [op];
      RunIsSteps(env, Step(env, w, ops[0]), ops[1..], op);
    }
  }

  // ----- no flips -----

  /** Trading these lots only shrinks the position. */
  predicate Reduces(h: Holding, side: Side, lots: U64) {
    h.side != side && lots <= h.size
  }

  /** The step settles a reduce-only fill that does more than shrink its position. */
  predicate Flips(env: Env, w: World, op: Op) {
    && op.Settle? && SettleFill(env, w, op.presented) != w
    && w.ring.settled < |w.matched| && w.matched[w.ring.settled].reduceOnly
    && !Reduces(HoldingOf(w, KeyOf(env, op.presented)), MakerSide(op.presented), op.presented.sizeLots)
  }

  predicate NoFlips(env: Env, w: World, ops: seq<Op>)
    decreases |ops|
  {
    ops == [] || (!Flips(env, w, ops[0]) && NoFlips(env, Step(env, w, ops[0]), ops[1..]))
  }

  /** A covered fill at the head of the queue can only shrink its position. */
  lemma CoveredHead(env: Env, w: World, f: Fill)
    requires Books(env, w) && Covered(env, w) && NoCollision(env, w, f)
    ensures !Flips(env, w, Settle(f))
  {
    if SettleFill(env, w, f) != w {
      SettledIsRecorded(env, w, f);
      var head := w.matched[w.ring.settled];
      assert Waiting(w)[0] == head;
      InFlightAtLeast(env, Waiting(w), 0, KeyOf(env, head));
    }
  }

  lemma CrossCovered(env: Env, w: World, f: Fill, passed: bool)
    requires Books(env, w) && KeysNonzero(env) && Covered(env, w)
    ensures var w' := Step(env, w, Cross(f, passed)); w'.ring.settled <= |w'.matched| && Covered(env, w')
  {
    var size := CrossSize(env, w, f);
    var sized := f.(sizeLots := size);
    if size > 0 && RecordFill(env, w, sized, passed) != w {
      RecordFillAdds(env, w, sized, passed);
      RoomToCross(env, w, f);
      AddedCovered(env, w, RecordFill(env, w, sized, passed).ring, sized, Carries(w, passed));
    }
  }

  lemma AddedCovered(env: Env, w: World, r: Ring, f: Fill, carry: bool)
    requires Shape(w) && Covered(env, w) && OneMoreFill(env, w, r, f) && CanCarry(w, carry)
    requires f.reduceOnly ==>
      && InFlight(env, Waiting(w), KeyOf(env, f)) + f.sizeLots <= HoldingOf(w, KeyOf(env, f)).size
      && HoldingOf(w, KeyOf(env, f)).side != MakerSide(f)
    ensures var w' := Recorded(w, r, f, carry); w'.ring.settled <= |w'.matched| && Covered(env, w')
  {
    hide TableOk, TableGet;
    var w', q := Recorded(w, r, f, carry), Waiting(w);
    assert w'.holdings == w.holdings && Waiting(w') == q + [f];
    forall key: Bytes32
      ensures InFlight(env, q + [f], key) <= HoldingOf(w', key).size
    {
      InFlightAppend(env, q, f, key);
    }
    forall i: nat | i < |q + [f]| && (q + [f])[i].reduceOnly
      ensures HoldingOf(w', KeyOf(env, (q + [f])[i])).side != MakerSide((q + [f])[i])
    {
      if i < |q| {
        assert (q + [f])[i] == q[i];
      }
    }
  }

  /** The matcher's cap leaves room for what it admits, on the opposing side. */
  lemma RoomToCross(env: Env, w: World, f: Fill)
    requires Books(env, w) && KeysNonzero(env)
    ensures f.reduceOnly && CrossSize(env, w, f) > 0 ==>
      var h := HoldingOf(w, KeyOf(env, f));
      && InFlight(env, Waiting(w), KeyOf(env, f)) + CrossSize(env, w, f) <= h.size
      && h.side != MakerSide(f)
  {
  }

  /** The holdings after a settle that does not flip. */
  lemma SettledHoldings(env: Env, w: World, f: Fill)
    requires Books(env, w) && KeysNonzero(env) && NoCollision(env, w, f)
    requires SettleFill(env, w, f) != w && !Flips(env, w, Settle(f))
    ensures var w', head := SettleFill(env, w, f), w.matched[w.ring.settled];
      && w'.ring.settled <= |w'.matched| && Waiting(w) == [head] + Waiting(w')
      && (forall key: Bytes32 :: HoldingOf(w, key).size == HoldingOf(w', key).size + LotsFor(env, head, key)
                              && HoldingOf(w', key).side == HoldingOf(w, key).side)
  {
    hide RestClear, TableOk, TableGet, TableSub;
    SettledIsRecorded(env, w, f);
    assert Waits(w, w.ring.settled);
    var w', head, key := SettleFill(env, w, f), w.matched[w.ring.settled], KeyOf(env, f);
    if head.reduceOnly {
      assert w'.holdings == w.holdings[key := Traded(HoldingOf(w, key), MakerSide(f), f.sizeLots)];
    } else {
      assert w'.holdings == w.holdings;
    }
  }

  /** A settle that does not flip leaves the rest covered exactly when all was covered. */
  lemma SettleCoveredExact(env: Env, w: World, f: Fill)
    requires Books(env, w) && KeysNonzero(env) && NoCollision(env, w, f)
    requires SettleFill(env, w, f) != w && !Flips(env, w, Settle(f))
    ensures SettleFill(env, w, f).ring.settled <= |SettleFill(env, w, f).matched|
    ensures Covered(env, SettleFill(env, w, f)) <==> Covered(env, w)
  {
    var head := w.matched[w.ring.settled];
    SettledHoldings(env, w, f);
    SettledIsRecorded(env, w, f);
    hide Books, HoldingOf, Waiting;
    CoveredShift(env, w, SettleFill(env, w, f), head);
  }

  lemma CoveredShift(env: Env, w: World, w': World, head: Fill)
    requires w.ring.settled <= |w.matched| && w'.ring.settled <= |w'.matched| && Waiting(w) == [head] + Waiting(w')
    requires forall key: Bytes32 :: HoldingOf(w, key).size == HoldingOf(w', key).size + LotsFor(env, head, key)
                                 && HoldingOf(w', key).side == HoldingOf(w, key).side
    requires head.reduceOnly ==> HoldingOf(w, KeyOf(env, head)).side != MakerSide(head)
    ensures Covered(env, w') <==> Covered(env, w)
  {
    hide HoldingOf, Waiting, LotsFor;
    var q, q' := Waiting(w), Waiting(w');
    assert forall i: nat :: i < |q'| ==> q'[i] == q[i + 1];
    assert q[0] == head;
    forall key: Bytes32
      ensures InFlight(env, q, key) <= HoldingOf(w, key).size <==> InFlight(env, q', key) <= HoldingOf(w', key).size
    {
      assert InFlight(env, q, key) == LotsFor(env, head, key) + InFlight(env, q', key);
    }
    hide InFlight;
    if Covered(env, w') {
      forall i: nat | i < |q| && q[i].reduceOnly
        ensures HoldingOf(w, KeyOf(env, q[i])).side != MakerSide(q[i])
      {
        if i > 0 {
          assert q[i] == q'[i - 1];
        }
      }
    }
  }

  lemma MoveCoveredExact(env: Env, w: World, key: Bytes32, h: Holding)
    requires Books(env, w) && Covered(env, w) && key != ZERO32
    ensures Covered(env, Step(env, w, Move(key, h))) <==> SafeMove(w, key, h)
  {
    var w', q := Step(env, w, Move(key, h)), Waiting(w);
    assert Waiting(w') == q && TableGet(w.ring.table, key) == InFlight(env, q, key);
    MovedHolding(env, w, key, h);
    forall i: nat | i < |q| && q[i].reduceOnly
      ensures InFlight(env, q, KeyOf(env, q[i])) > 0
    {
      PositiveFlight(env, w, i);
    }
    hide Books, Step, Waiting, InFlight, HoldingOf, TableGet, KeyOf, MakerSide;
    if Covered(env, w') && InFlight(env, q, key) > 0 {
      var i := FlightWitness(env, q, key);
      assert HoldingOf(w, KeyOf(env, q[i])).side != MakerSide(q[i]);
      assert HoldingOf(w', KeyOf(env, q[i])).side != MakerSide(q[i]);
    }
    if SafeMove(w, key, h) {
      forall i: nat | i < |q| && q[i].reduceOnly
        ensures HoldingOf(w', KeyOf(env, q[i])).side != MakerSide(q[i])
      {
        assert HoldingOf(w, KeyOf(env, q[i])).side != MakerSide(q[i]);
      }
    }
  }

  lemma MovedHolding(env: Env, w: World, key: Bytes32, h: Holding)
    ensures forall other ::
      HoldingOf(Step(env, w, Move(key, h)), other) == if other == key then h else HoldingOf(w, other)
  {
  }

  lemma PositiveFlight(env: Env, w: World, i: nat)
    requires Books(env, w) && i < |Waiting(w)| && Waiting(w)[i].reduceOnly
    ensures InFlight(env, Waiting(w), KeyOf(env, Waiting(w)[i])) > 0
  {
    assert w.matched[w.ring.settled + i] == Waiting(w)[i];
    assert Waits(w, w.ring.settled + i);
    InFlightAtLeast(env, Waiting(w), i, KeyOf(env, Waiting(w)[i]));
  }

  lemma {:induction false} FlightWitness(env: Env, fills: seq<Fill>, key: Bytes32) returns (i: nat)
    requires InFlight(env, fills, key) > 0
    ensures i < |fills| && fills[i].reduceOnly && KeyOf(env, fills[i]) == key
  {
    if LotsFor(env, fills[0], key) > 0 {
      i := 0;
    } else {
      i := FlightWitness(env, fills[1..], key);
      i := i + 1;
    }
  }

  /** Growing and arming leave what waits and the positions alone. */
  lemma GrowthCovered(env: Env, w: World, op: Op)
    requires Books(env, w) && Covered(env, w) && (op.GrowRing? || op.ArmOutbox? || op.GrowOutbox?)
    ensures var w' := Step(env, w, op); w'.ring.settled <= |w'.matched| && Covered(env, w')
  {
    hide RingHolds, RestClear, TableCounts;
    var w' := Step(env, w, op);
    assert w'.holdings == w.holdings && w'.matched == w.matched && w'.ring.settled == w.ring.settled;
    assert Waiting(w') == Waiting(w);
  }

  lemma StepKeepsCovered(env: Env, w: World, op: Op)
    requires Books(env, w) && KeysNonzero(env) && Covered(env, w) && Enabled(env, w, op)
    ensures var w' := Step(env, w, op); w'.ring.settled <= |w'.matched| && Covered(env, w')
    ensures !Flips(env, w, op)
  {
    hide RingHolds, RestClear, TableCounts, HistoryAgrees, Covered, Reduces;
    match op
    case Cross(f, passed) => CrossCovered(env, w, f, passed);
    case Settle(f) =>
      CoveredHead(env, w, f);
      if SettleFill(env, w, f) != w {
        SettleCoveredExact(env, w, f);
      }
    case Move(key, h) => MoveCoveredExact(env, w, key, h);
    case _ => GrowthCovered(env, w, op);
  }

  /** From any covered state, every run keeps the books and flips nothing. */
  lemma {:induction false} RunSafe(env: Env, w: World, ops: seq<Op>)
    requires Books(env, w) && KeysNonzero(env) && Covered(env, w) && EnabledRun(env, w, ops)
    ensures Books(env, Run(env, w, ops)) && Covered(env, Run(env, w, ops)) && NoFlips(env, w, ops)
    decreases |ops|
  {
    if ops != [] {
      hide Books, Covered, Flips, Step;
      StepKeepsCovered(env, w, ops[0]);
      EnabledStep(env, w, ops[0]);
      StepKeepsBooks(env, w, ops[0]);
      RunSafe(env, Step(env, w, ops[0]), ops[1..]);
    }
  }

  lemma EnabledStep(env: Env, w: World, op: Op)
    requires Enabled(env, w, op)
    ensures op.Settle? ==> NoCollision(env, w, op.presented)
  {
  }

  /** If some position is not covered, settling what waits flips one. */
  lemma {:induction false} UncoveredFlips(env: Env, w: World) returns (ops: seq<Op>)
    requires Books(env, w) && KeysNonzero(env) && !Covered(env, w)
    ensures EnabledRun(env, w, ops) && !NoFlips(env, w, ops)
    decreases w.ring.produced - w.ring.settled
  {
    if Waiting(w) == [] {
      assert false;
    }
    var head := w.matched[w.ring.settled];
    HeadSettles(env, w);
    var op := Settle(head);
    if Flips(env, w, op) {
      ops := [op];
    } else {
      var w' := Step(env, w, op);
      SettleCoveredExact(env, w, head);
      StepKeepsBooks(env, w, op);
      SettleRemoves(env, w, head);
      var rest := UncoveredFlips(env, w');
      ops := [op] + rest;
      assert ops[1..] == rest;
    }
  }

  /** Presenting the recorded fill always settles it. */
  lemma HeadSettles(env: Env, w: World)
    requires Books(env, w) && Waiting(w) != []
    ensures NoCollision(env, w, w.matched[w.ring.settled])
    ensures SettleFill(env, w, w.matched[w.ring.settled]) != w
  {
    assert Waits(w, w.ring.settled);
  }

  /** Reduce-only is safe exactly when what is in flight is covered: then no run
      flips a position, otherwise some run does. */
  lemma NoFlipExact(env: Env, w: World)
    requires Books(env, w) && KeysNonzero(env)
    ensures Covered(env, w) <==> forall ops :: EnabledRun(env, w, ops) ==> NoFlips(env, w, ops)
  {
    if Covered(env, w) {
      forall ops | EnabledRun(env, w, ops)
        ensures NoFlips(env, w, ops)
      {
        RunSafe(env, w, ops);
      }
    } else {
      var ops := UncoveredFlips(env, w);
    }
  }

  /** A change of the position from outside, such as another fill of the same trader
      or a liquidation, endangers what is in flight exactly when it is not safe. */
  lemma MoveExact(env: Env, w: World, key: Bytes32, h: Holding)
    requires Books(env, w) && KeysNonzero(env) && Covered(env, w) && key != ZERO32
    ensures var w' := Step(env, w, Move(key, h));
      SafeMove(w, key, h) <==> forall ops :: EnabledRun(env, w', ops) ==> NoFlips(env, w', ops)
  {
    MoveKeeps(env, w, key, h);
    MoveCoveredExact(env, w, key, h);
    NoFlipExact(env, Step(env, w, Move(key, h)));
  }

  /** So closing a position while reduce-only fills on it wait lets a run flip it. */
  lemma ClosedWhileWaiting(env: Env, w: World, key: Bytes32)
    requires Books(env, w) && KeysNonzero(env) && Covered(env, w) && key != ZERO32 && TableGet(w.ring.table, key) > 0
    ensures var w' := Step(env, w, Move(key, Holding(SIDE_LONG, 0)));
      exists ops :: EnabledRun(env, w', ops) && !NoFlips(env, w', ops)
  {
    MoveExact(env, w, key, Holding(SIDE_LONG, 0));
  }

  // ----- the queue over a run -----

  ghost predicate IsPrefix<T>(a: seq<T>, b: seq<T>) {
    |a| <= |b| && forall i :: 0 <= i < |a| ==> b[i] == a[i]
  }

  lemma StepHistory(env: Env, w: World, op: Op)
    ensures IsPrefix(w.matched, Step(env, w, op).matched)
    ensures IsPrefix(w.settled, Step(env, w, op).settled)
    ensures IsPrefix(w.carried, Step(env, w, op).carried)
  {
  }

  lemma {:induction false} RunHistory(env: Env, w: World, ops: seq<Op>)
    ensures IsPrefix(w.matched, Run(env, w, ops).matched)
    ensures IsPrefix(w.settled, Run(env, w, ops).settled)
    ensures IsPrefix(w.carried, Run(env, w, ops).carried)
    decreases |ops|
  {
    hide Step;
    if ops != [] {
      StepHistory(env, w, ops[0]);
      RunHistory(env, Step(env, w, ops[0]), ops[1..]);
    }
  }

  lemma {:induction false} RunBooks(env: Env, w: World, ops: seq<Op>)
    requires Books(env, w) && KeysNonzero(env) && EnabledRun(env, w, ops)
    ensures Books(env, Run(env, w, ops))
    decreases |ops|
  {
    if ops != [] {
      hide Books, Step;
      EnabledStep(env, w, ops[0]);
      StepKeepsBooks(env, w, ops[0]);
      RunBooks(env, Step(env, w, ops[0]), ops[1..]);
    }
  }

  /** The ring is a queue over any run: a fill once recorded at an index is either
      consumed there, as recorded, or still waits there with its commitment and its
      flag in the ring. */
  lemma MatchedSettlesInOrder(env: Env, w: World, ops: seq<Op>, i: nat)
    requires Books(env, w) && KeysNonzero(env) && EnabledRun(env, w, ops) && i < |w.matched|
    ensures var w', f := Run(env, w, ops), w.matched[i];
      && i < |w'.matched| && w'.matched[i] == f && |w'.settled| == w'.ring.settled
      && (i < |w'.settled| ==> Fields(env, w'.settled[i], i) == Fields(env, f, i))
      && (i >= |w'.settled| ==>
            && |w'.ring.slots| > 0 && w'.ring.slots[IndexOf(i, |w'.ring.slots|)] == CommitOf(env, f, i)
            && |w'.ring.flags| == |w'.ring.slots| && w'.ring.flags[IndexOf(i, |w'.ring.slots|)] == f.reduceOnly)
  {
    RunBooks(env, w, ops);
    RunHistory(env, w, ops);
    var w' := Run(env, w, ops);
    hide Run, TableCounts, RestClear, EnabledRun;
    if i >= |w'.settled| {
      assert Waits(w', i);
    }
  }

  /** Growth after draining: the ring was empty already, so clearing it moves nothing. */
  lemma DrainedGrowth(env: Env, w: World, ops: seq<Op>, n: U32)
    requires Books(env, w) && KeysNonzero(env) && EnabledRun(env, w, ops) && n > 0
    ensures var w' := Run(env, w, ops);
      w'.ring.produced == w'.ring.settled ==>
        && w'.ring == FillBuffers.EmptyRing(|w'.ring.slots|, w'.ring.produced)
        && Step(env, w', GrowRing(n)).ring == FillBuffers.EmptyRing(|w'.ring.slots| + n, w'.ring.produced)
  {
    RunBooks(env, w, ops);
    var w' := Run(env, w, ops);
    if w'.ring.produced == w'.ring.settled {
      DrainedIsEmpty(env, w');
    }
  }
}
