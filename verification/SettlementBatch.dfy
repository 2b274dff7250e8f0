/** The matcher's two passes: it first walks the book against its own decremented
    copy of every maker position, and only then records the batch. */
module SettlementBatches {
  import opened Bytes
  import opened FillRings
  import opened ReduceOnly
  import opened PositionMath
  import opened Settlement

  /** The copy: lots still reducible on the positions that the walk has touched. */
  type Copy = map<Bytes32, U64>

  function Reducible(env: Env, w: World, copy: Copy, key: Bytes32): U64 {
    if key in copy then copy[key] else SaturatingSub(HoldingOf(w, key).size, TableGet(w.ring.table, key))
  }

  /** What one maker order fills in the walk. */
  function WalkSize(env: Env, w: World, copy: Copy, f: Fill): U64 {
    if !f.reduceOnly then f.sizeLots
    else
      var key := KeyOf(env, f);
      var result := CheckReduceOnly(HoldingOf(w, key).side, Reducible(env, w, copy, key), MakerSide(f), f.sizeLots);
      Admitted(result, f.sizeLots)
  }

  function WalkCopy(env: Env, w: World, copy: Copy, f: Fill): Copy {
    var key := KeyOf(env, f);
    if !f.reduceOnly then copy
    else copy[key := SaturatingSub(Reducible(env, w, copy, key), WalkSize(env, w, copy, f))]
  }

  /** First pass: the fills of the batch, sized; orders that may not fill are skipped. */
  function Walk(env: Env, w: World, copy: Copy, orders: seq<Fill>): seq<Fill>
    decreases |orders|
  {
    if orders == [] then []
    else
      var f, size := orders[0], WalkSize(env, w, copy, orders[0]);
      (if size == 0 then [] else [f.(sizeLots := size)]) + Walk(env, w, WalkCopy(env, w, copy, f), orders[1..])
  }

  /** Second pass: record the batch, all of it with the outbox passed or all without;
      one failure undoes all of it. */
  function RecordAll(env: Env, w: World, fills: seq<Fill>, passed: bool): (bool, World)
    decreases |fills|
  {
    if fills == [] then (true, w)
    else if RecordFill(env, w, fills[0], passed) == w then (false, w)
    else RecordAll(env, RecordFill(env, w, fills[0], passed), fills[1..], passed)
  }

  /** The same orders crossed one at a time. */
  function CrossAll(env: Env, w: World, orders: seq<Fill>, passed: bool): World
    decreases |orders|
  {
    if orders == [] then w else CrossAll(env, Step(env, w, Cross(orders[0], passed)), orders[1..], passed)
  }

  /** Half way through: what the copy of the start still allows is what a fresh look
      at the positions and the table would. */
  ghost predicate CopyAgrees(env: Env, w0: World, copy: Copy, w: World) {
    && w.holdings == w0.holdings
    && forall key: Bytes32 :: key != ZERO32 ==>
         Reducible(env, w0, copy, key) == SaturatingSub(HoldingOf(w, key).size, TableGet(w.ring.table, key))
  }

  lemma WalkIsCross(env: Env, w0: World, copy: Copy, w: World, f: Fill)
    requires KeysNonzero(env) && CopyAgrees(env, w0, copy, w)
    ensures WalkSize(env, w0, copy, f) == CrossSize(env, w, f)
  {
  }

  lemma CopyFollows(env: Env, w0: World, copy: Copy, w: World, f: Fill, passed: bool)
    requires Books(env, w) && KeysNonzero(env) && CopyAgrees(env, w0, copy, w)
    requires var size := CrossSize(env, w, f); size > 0 ==> RecordFill(env, w, f.(sizeLots := size), passed) != w
    ensures CopyAgrees(env, w0, WalkCopy(env, w0, copy, f), Step(env, w, Cross(f, passed)))
  {
    var size, key := CrossSize(env, w, f), KeyOf(env, f);
    WalkIsCross(env, w0, copy, w, f);
    if size > 0 {
      RecordFillAdds(env, w, f.(sizeLots := size), passed);
    }
    hide RecordFill, CrossSize, WalkSize, Books;
  }

  /** Crossed one at a time, every order that may fill at all is recorded. */
  predicate CrossesGo(env: Env, w: World, orders: seq<Fill>, passed: bool)
    decreases |orders|
  {
    orders == [] ||
    (&& (CrossSize(env, w, orders[0]) > 0 ==> Step(env, w, Cross(orders[0], passed)) != w)
     && CrossesGo(env, Step(env, w, Cross(orders[0], passed)), orders[1..], passed))
  }

  /** A whole call: the batch is recorded, or all of it is undone. */
  function MatchBatch(env: Env, w: World, orders: seq<Fill>, passed: bool): World {
    var (ok, w') := RecordAll(env, w, Walk(env, w, map[], orders), passed);
    if ok then w' else w
  }

  /** Walking the book against the copy and then recording the batch goes through exactly
      when crossing the orders one at a time does, each against the books as they are by
      then, and comes to the same. */
  lemma {:induction false} BatchIsCrosses(
    env: Env, w0: World, copy: Copy, w: World, orders: seq<Fill>, passed: bool)
    requires Books(env, w) && KeysNonzero(env) && CopyAgrees(env, w0, copy, w)
    ensures var (ok, w') := RecordAll(env, w, Walk(env, w0, copy, orders), passed);
      && (ok <==> CrossesGo(env, w, orders, passed))
      && (ok ==> w' == CrossAll(env, w, orders, passed))
    decreases |orders|
  {
    if orders != [] {
      var f := orders[0];
      var size, rest := WalkSize(env, w0, copy, f), Walk(env, w0, WalkCopy(env, w0, copy, f), orders[1..]);
      WalkIsCross(env, w0, copy, w, f);
      if size == 0 {
        assert [] + rest == rest;
      } else {
        var sized := f.(sizeLots := size);
        assert ([sized] + rest)[0] == sized && ([sized] + rest)[1..] == rest;
      }
      if size == 0 || RecordFill(env, w, f.(sizeLots := size), passed) != w {
        CopyFollows(env, w0, copy, w, f, passed);
        CrossKeeps(env, w, f, passed);
        BatchIsCrosses(env, w0, WalkCopy(env, w0, copy, f), Step(env, w, Cross(f, passed)), orders[1..], passed);
      }
    }
  }

  lemma {:induction false} CrossAllAppend(env: Env, w: World, orders: seq<Fill>, f: Fill, passed: bool)
    ensures CrossAll(env, w, orders + [f], passed) == Step(env, CrossAll(env, w, orders, passed), Cross(f, passed))
    decreases |orders|
  {
    hide Step;
    if orders == [] {
      assert [] + [f] == [f] && [f][1..] == [];
      assert CrossAll(env, Step(env, w, Cross(f, passed)), [], passed) == Step(env, w, Cross(f, passed));
    } else {
      assert (orders + [f])[0] == orders[0] && (orders + [f])[1..] == orders[1..] + [f];
      CrossAllAppend(env, Step(env, w, Cross(orders[0], passed)), orders[1..], f, passed);
    }
  }

  /** A batch that goes through has recorded the walk, fill by fill and in its order. */
  lemma {:induction false} BatchRecords(env: Env, w: World, fills: seq<Fill>, passed: bool)
    ensures var (ok, w') := RecordAll(env, w, fills, passed); ok ==> w'.matched == w.matched + fills
    decreases |fills|
  {
    hide RecordFill;
    if fills != [] {
      var w1 := RecordFill(env, w, fills[0], passed);
      RecordAppends(env, w, fills[0], passed);
      BatchRecords(env, w1, fills[1..], passed);
      assert fills == [fills[0]] + fills[1..];
    }
  }

  lemma RecordAppends(env: Env, w: World, f: Fill, passed: bool)
    ensures RecordFill(env, w, f, passed) == w || RecordFill(env, w, f, passed).matched == w.matched + [f]
  {
    hide Committed, Mirrored;
  }

  /** A whole call of the matcher: all its orders are crossed, or nothing happens. */
  lemma BatchFromStart(env: Env, w: World, orders: seq<Fill>, passed: bool)
    requires Books(env, w) && KeysNonzero(env)
    ensures MatchBatch(env, w, orders, passed)
         == if CrossesGo(env, w, orders, passed) then CrossAll(env, w, orders, passed) else w
  {
    BatchIsCrosses(env, w, map[], w, orders, passed);
  }
}
