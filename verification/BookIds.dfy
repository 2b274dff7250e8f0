/** Order ids within a side: when they are distinct, which steps keep them so, and the
    side as a map from id to entry, which is how callers name their orders. */
module BookIds {
  import opened Nodes
  import opened OrderIds
  import opened BookSpec

  ghost function Ids(side: seq<Entry>): set<nat> {
    set e | e in side :: e.order.orderId
  }

  ghost predicate DistinctIds(side: seq<Entry>) {
    forall i, j :: 0 <= i < j < |side| ==> side[i].order.orderId != side[j].order.orderId
  }

  /** The entry with an id. */
  ghost function ById(side: seq<Entry>, id: nat): (e: Entry)
    requires id in Ids(side)
    ensures e in side && e.order.orderId == id
  {
    var e :| e in side && e.order.orderId == id;
    e
  }

  ghost function IdMap(side: seq<Entry>): (m: map<nat, Entry>)
    ensures m.Keys == Ids(side)
  {
    map id | id in Ids(side) :: ById(side, id)
  }

  lemma ByIdIs(side: seq<Entry>, e: Entry)
    requires DistinctIds(side) && e in side
    ensures e.order.orderId in Ids(side) && ById(side, e.order.orderId) == e
  {
  }

  /** A map that has exactly the entries of the side, by id. */
  lemma IsIdMap(side: seq<Entry>, m: map<nat, Entry>)
    requires DistinctIds(side)
    requires forall id :: id in m ==> m[id] in side && m[id].order.orderId == id
    requires forall e :: e in side ==> e.order.orderId in m
    ensures IdMap(side) == m
  {
    assert IdMap(side).Keys == m.Keys;
    forall id | id in m
      ensures IdMap(side)[id] == m[id]
    {
      ByIdIs(side, m[id]);
    }
  }

  lemma IdsCons(e: Entry, rest: seq<Entry>)
    ensures Ids([e] + rest) == {e.order.orderId} + Ids(rest)
    ensures DistinctIds([e] + rest) <==> DistinctIds(rest) && e.order.orderId !in Ids(rest)
  {
    var s := [e] + rest;
    assert s[1..] == rest && s[0] == e;
    if DistinctIds(rest) && e.order.orderId !in Ids(rest) {
      forall i, j | 0 <= i < j < |s|
        ensures s[i].order.orderId != s[j].order.orderId
      {
        assert s[j] == rest[j - 1];
      }
    }
    if DistinctIds(s) {
      forall x | x in rest
        ensures x.order.orderId != e.order.orderId
      {
        var j :| 0 <= j < |rest| && rest[j] == x;
        assert s[j + 1] == x;
      }
      assert forall i :: 0 <= i < |rest| ==> rest[i] == s[i + 1];
    }
  }

  // ----- the side as a map by id -----

  /** An insertion keeps ids distinct exactly when they were and the id is new. */
  lemma {:induction false} InsertIdsExact(side: seq<Entry>, e: Entry)
    ensures Ids(InsertEntry(side, e)) == Ids(side) + {e.order.orderId}
    ensures DistinctIds(InsertEntry(side, e)) <==> DistinctIds(side) && e.order.orderId !in Ids(side)
  {
    if side == [] {
      IdsCons(e, []);
    } else {
      var rest := side[1..];
      assert side == [side[0]] + rest;
      IdsCons(side[0], rest);
      if side[0].order.orderId < e.order.orderId {
        InsertIdsExact(rest, e);
        IdsCons(side[0], InsertEntry(rest, e));
      } else {
        IdsCons(e, side);
      }
    }
  }

  lemma InsertIsIdUpdate(side: seq<Entry>, e: Entry)
    requires DistinctIds(side) && e.order.orderId !in Ids(side)
    ensures IdMap(InsertEntry(side, e)) == IdMap(side)[e.order.orderId := e]
  {
    InsertIdsExact(side, e);
    forall x
      ensures x in InsertEntry(side, e) <==> x == e || x in side
    {
      InsertMembers(side, e, x);
    }
    IsIdMap(InsertEntry(side, e), IdMap(side)[e.order.orderId := e]);
  }

  lemma {:induction false} RemoveKeepsIds(side: seq<Entry>, slot: int)
    requires DistinctIds(side)
    ensures DistinctIds(RemoveEntry(side, slot))
  {
    if side != [] {
      var rest := side[1..];
      assert side == [side[0]] + rest;
      IdsCons(side[0], rest);
      RemoveKeepsIds(rest, slot);
      if side[0].slot != slot {
        forall x | x in RemoveEntry(rest, slot)
          ensures x in rest
        {
          RemoveMembers(rest, slot, x);
        }
        IdsCons(side[0], RemoveEntry(rest, slot));
      }
    }
  }

  /** Removing an order takes exactly its id out of the map. */
  lemma RemoveIsIdRemoval(side: seq<Entry>, e: Entry)
    requires DistinctIds(side) && DistinctSlots(side) && e in side
    ensures IdMap(RemoveEntry(side, e.slot)) == IdMap(side) - {e.order.orderId}
  {
    RemoveKeepsIds(side, e.slot);
    forall x
      ensures x in RemoveEntry(side, e.slot) <==> x in side && x != e
    {
      RemoveMembers(side, e.slot, x);
      if x in side && x.slot == e.slot {
        SameSlot(side, x, e);
      }
    }
    ByIdIs(side, e);
    forall x | x in side
      ensures x.order.orderId == e.order.orderId ==> x == e
    {
      ByIdIs(side, x);
    }
    IsIdMap(RemoveEntry(side, e.slot), IdMap(side) - {e.order.orderId});
  }

  lemma SameSlot(side: seq<Entry>, x: Entry, e: Entry)
    requires DistinctSlots(side) && x in side && e in side && x.slot == e.slot
    ensures x == e
  {
  }

  lemma ResizeKeepsIds(side: seq<Entry>, slot: int, size: nat)
    ensures DistinctIds(ResizeEntry(side, slot, size)) <==> DistinctIds(side)
  {
    var r := ResizeEntry(side, slot, size);
    assert forall i :: 0 <= i < |side| ==> r[i].order.orderId == side[i].order.orderId;
  }

  lemma ResizedById(side: seq<Entry>, e: Entry, size: nat, id: nat)
    requires DistinctIds(side) && DistinctSlots(side) && e in side && id in Ids(side)
    ensures var x := if id == e.order.orderId then Shrink(e, e.slot, size) else ById(side, id);
      x in ResizeEntry(side, e.slot, size) && x.order.orderId == id
  {
    var x := ById(side, id);
    ByIdIs(side, e);
    if x.slot == e.slot {
      SameSlot(side, x, e);
    }
    var i :| 0 <= i < |side| && side[i] == x;
    assert ResizeEntry(side, e.slot, size)[i] == Shrink(x, e.slot, size);
  }

  /** A partial fill changes the size of one id. */
  lemma ResizeIsIdUpdate(side: seq<Entry>, e: Entry, size: nat)
    requires DistinctIds(side) && DistinctSlots(side) && e in side
    ensures IdMap(ResizeEntry(side, e.slot, size)) == IdMap(side)[e.order.orderId := Shrink(e, e.slot, size)]
  {
    var r, m := ResizeEntry(side, e.slot, size), IdMap(side)[e.order.orderId := Shrink(e, e.slot, size)];
    ResizeKeepsIds(side, e.slot, size);
    ByIdIs(side, e);
    assert m.Keys == Ids(side);
    forall id | id in Ids(side)
      ensures m[id] in r && m[id].order.orderId == id
    {
      ResizedById(side, e, size, id);
    }
    forall x | x in r
      ensures x.order.orderId in m
    {
      var i :| 0 <= i < |r| && r[i] == x;
      assert side[i].order.orderId == x.order.orderId;
    }
    IsIdMap(r, m);
  }

  // ----- steps and runs -----

  /** What is inserted has an id that is new on its side. */
  ghost predicate FreshId(s: Book, op: Op) {
    && (op.InsertBid? ==> op.order.orderId !in Ids(s.bids))
    && (op.InsertAsk? ==> op.order.orderId !in Ids(s.asks))
  }

  ghost predicate IdsDistinct(s: Book) {
    DistinctIds(s.bids) && DistinctIds(s.asks)
  }

  /** A step keeps the ids of both sides distinct exactly when nothing is placed
      under an id that is already there. */
  lemma StepIdsExact(s: Book, op: Op)
    requires IdsDistinct(s) && Enabled(s, op)
    ensures IdsDistinct(Step(s, op).0) <==> Step(s, op).1.Placed? ==> FreshId(s, op)
  {
    match op
    case InsertBid(o) =>
      if CanAlloc(s) {
        InsertIdsExact(s.bids, Entry(NextSlot(s), o));
      }
    case InsertAsk(o) =>
      if CanAlloc(s) {
        InsertIdsExact(s.asks, Entry(NextSlot(s), o));
      }
    case RemoveBid(slot) => RemoveKeepsIds(s.bids, slot);
    case RemoveAsk(slot) => RemoveKeepsIds(s.asks, slot);
    case Decrement(slot, delta) =>
      if SizeAt(s, slot) >= delta {
        ResizeKeepsIds(s.bids, slot, SizeAt(s, slot) - delta);
        ResizeKeepsIds(s.asks, slot, SizeAt(s, slot) - delta);
      }
  }

  /** A run that is enabled and inserts fresh ids only. */
  ghost predicate FreshRun(s: Book, ops: seq<Op>)
    requires EnabledRun(s, ops)
    decreases |ops|
  {
    ops == [] || (FreshId(s, ops[0]) && FreshRun(Step(s, ops[0]).0, ops[1..]))
  }

  lemma {:induction false} RunIds(s: Book, ops: seq<Op>)
    requires IdsDistinct(s) && EnabledRun(s, ops) && FreshRun(s, ops)
    ensures IdsDistinct(Run(s, ops))
    decreases |ops|
  {
    if ops != [] {
      StepIdsExact(s, ops[0]);
      RunIds(Step(s, ops[0]).0, ops[1..]);
    }
  }

  /** From the empty book, with nothing assumed: every run leaves a consistent book, and
      a run of fresh ids leaves every order under an id of its own. */
  lemma RunFromEmpty(capacity: nat, ops: seq<Op>)
    requires EnabledRun(Empty(capacity), ops)
    ensures Consistent(Run(Empty(capacity), ops)) && Run(Empty(capacity), ops).capacity == capacity
    ensures FreshRun(Empty(capacity), ops) ==> IdsDistinct(Run(Empty(capacity), ops))
  {
    EmptyConsistent(capacity);
    RunKeeps(Empty(capacity), ops);
    if FreshRun(Empty(capacity), ops) {
      RunIds(Empty(capacity), ops);
    }
  }

  // ----- priority -----

  /** With distinct ids a side is in strict price-time priority. */
  lemma StrictPriority(side: seq<Entry>, sideIsBid: bool, i: nat, j: nat)
    requires Sorted(side) && IdsEncoded(side, sideIsBid) && DistinctIds(side) && i < j < |side|
    ensures var a, b := side[i].order, side[j].order;
      HasPriority(a.priceTicks, a.orderSeq, b.priceTicks, b.orderSeq, sideIsBid)
  {
    var a, b := side[i].order, side[j].order;
    IdOrderIsPriority(a.priceTicks, a.orderSeq, b.priceTicks, b.orderSeq, sideIsBid);
  }
}
