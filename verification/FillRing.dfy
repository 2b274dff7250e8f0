/** The commitment ring, its reduce-only flags and the in-flight table, as values;
    and what they stand for: a bounded queue and a finite map. */
module FillRings {
  import opened Bytes
  import opened Wrappers

  type Commit = Bytes32

  datatype FillRingError = Full | Empty | Corrupt | NotCommitted

  const FILL_INFLIGHT_SLOTS := 32

  datatype Entry = Entry(position: Bytes32, lots: U64)

  const NO_ENTRY := Entry(ZERO32, 0)

  datatype Ring = Ring(produced: U64, settled: U64, slots: seq<Commit>, flags: seq<bool>, table: seq<Entry>)

  datatype Outcome<T> = Done(value: T) | Failed(error: FillRingError)

  // ----- the operations -----

  function Depth(produced: U64, settled: U64): Outcome<U64> {
    if produced < settled then Failed(Corrupt) else Done(produced - settled)
  }

  function IndexOf(i: nat, cap: nat): (k: nat)
    requires cap > 0
    ensures k < cap
  {
    i % cap
  }

  /** The push of a commitment; the slot is written before the cursor is checked. */
  function Push(r: Ring, commit: Commit): (Outcome<()>, Ring) {
    var cap := |r.slots|;
    if cap == 0 || r.produced < r.settled then (Failed(Corrupt), r)
    else if r.produced - r.settled >= cap then (Failed(Full), r)
    else
      var written := r.(slots := r.slots[IndexOf(r.produced, cap) := commit]);
      if r.produced == U64_MAX then (Failed(Corrupt), written)
      else (Done(()), written.(produced := r.produced + 1))
  }

  function Settle(r: Ring, recomputed: Commit): (Outcome<()>, Ring) {
    var cap := |r.slots|;
    if cap == 0 || r.produced < r.settled then (Failed(Corrupt), r)
    else if r.produced == r.settled then (Failed(Empty), r)
    else if r.slots[IndexOf(r.settled, cap)] != recomputed then (Failed(NotCommitted), r)
    else (Done(()), r.(slots := r.slots[IndexOf(r.settled, cap) := ZERO32], settled := r.settled + 1))
  }

  /** The flag of an index; an account too short to hold it is left alone. */
  function SetFlag(flags: seq<bool>, cap: nat, index: nat): seq<bool>
    requires cap > 0
  {
    if IndexOf(index, cap) < |flags| then flags[IndexOf(index, cap) := true] else flags
  }

  function TakeFlag(flags: seq<bool>, cap: nat, index: nat): (bool, seq<bool>)
    requires cap > 0
  {
    if IndexOf(index, cap) < |flags| then (flags[IndexOf(index, cap)], flags[IndexOf(index, cap) := false])
    else (false, flags)
  }

  /** The first slot of the table at or after i that holds the key, or its length. */
  function Find(table: seq<Entry>, key: Bytes32, i: nat): (k: nat)
    requires i <= |table|
    ensures i <= k <= |table|
    ensures k < |table| ==> table[k].position == key
    ensures forall j :: i <= j < k ==> table[j].position != key
    decreases |table| - i
  {
    if i == |table| || table[i].position == key then i else Find(table, key, i + 1)
  }

  function TableGet(table: seq<Entry>, key: Bytes32): U64 {
    var k := Find(table, key, 0);
    if k < |table| then table[k].lots else 0
  }

  function TableAdd(table: seq<Entry>, key: Bytes32, delta: U64): (Outcome<()>, seq<Entry>) {
    var k, free := Find(table, key, 0), Find(table, ZERO32, 0);
    if delta == 0 then (Done(()), table)
    else if k < |table| then (Done(()), table[k := Entry(key, SaturatingAddU64(table[k].lots, delta))])
    else if free < |table| then (Done(()), table[free := Entry(key, delta)])
    else (Failed(Full), table)
  }

  function TableSub(table: seq<Entry>, key: Bytes32, delta: U64): seq<Entry> {
    var k := Find(table, key, 0);
    if k == |table| then table
    else if SaturatingSub(table[k].lots, delta) == 0 then table[k := NO_ENTRY]
    else table[k := Entry(key, SaturatingSub(table[k].lots, delta))]
  }

  // ----- the ring as a bounded queue -----

  ghost predicate CursorsOk(r: Ring) {
    0 < |r.slots| && r.settled <= r.produced <= r.settled + |r.slots|
  }

  /** The commitments that wait, oldest first. */
  ghost function Pending(r: Ring): (q: seq<Commit>)
    requires CursorsOk(r)
    ensures |q| == r.produced - r.settled
  {
    seq(r.produced - r.settled, k requires 0 <= k => r.slots[IndexOf(r.settled + k, |r.slots|)])
  }

  /** Within a window of cap consecutive indices, all fall on different slots. */
  lemma IndexDistinct(i: nat, j: nat, cap: nat)
    requires 0 < cap && i < j < i + cap
    ensures IndexOf(i, cap) != IndexOf(j, cap)
  {
    DivideOut(i, cap);
    DivideOut(j, cap);
    MultipleOf(cap, j / cap - i / cap);
  }

  lemma DivideOut(i: nat, cap: nat)
    requires 0 < cap
    ensures i == cap * (i / cap) + IndexOf(i, cap)
  {
  }

  lemma MultipleOf(cap: nat, d: int)
    ensures !(0 < cap * d < cap)
  {
    if d >= 1 {
      assert cap * d >= cap * 1;
    } else {
      assert cap * d <= 0;
    }
  }

  /** A push is an enqueue, refused exactly when the queue is full or the cursor is
      at the end of its range; nothing that waits is overwritten. */
  lemma PushEnqueues(r: Ring, commit: Commit)
    requires CursorsOk(r)
    ensures var (res, r') := Push(r, commit);
      && CursorsOk(r') && |r'.slots| == |r.slots|
      && (res.Done? <==> |Pending(r)| < |r.slots| && r.produced < U64_MAX)
      && (res == Failed(Full) <==> |Pending(r)| == |r.slots|)
      && (res.Done? ==> Pending(r') == Pending(r) + [commit])
      && (res.Failed? ==> Pending(r') == Pending(r) && r'.produced == r.produced)
      && r'.settled == r.settled
  {
    var (res, r') := Push(r, commit);
    if |Pending(r)| < |r.slots| {
      forall k | 0 <= k < |Pending(r)|
        ensures r'.slots[IndexOf(r.settled + k, |r.slots|)] == Pending(r)[k]
      {
        IndexDistinct(r.settled + k, r.produced, |r.slots|);
      }
    }
  }

  /** A settle is a dequeue: it takes the oldest entry, and only when that is what
      is presented. */
  lemma SettleDequeues(r: Ring, recomputed: Commit)
    requires CursorsOk(r)
    ensures var (res, r') := Settle(r, recomputed);
      && CursorsOk(r') && |r'.slots| == |r.slots| && r'.produced == r.produced
      && (res.Done? <==> Pending(r) != [] && Pending(r)[0] == recomputed)
      && (res.Done? ==> Pending(r') == Pending(r)[1..] && r'.settled == r.settled + 1)
      && (res.Failed? ==> r' == r)
  {
    var (res, r') := Settle(r, recomputed);
    if res.Done? {
      forall k | 1 <= k < |Pending(r)|
        ensures r'.slots[IndexOf(r.settled + k, |r.slots|)] == Pending(r)[k]
      {
        IndexDistinct(r.settled, r.settled + k, |r.slots|);
      }
      assert Pending(r') == Pending(r)[1..];
    }
  }

  // ----- the table as a finite map -----

  /** Keys are unique, entries in use are positive, and the rest are zero. */
  ghost predicate TableOk(table: seq<Entry>) {
    && (forall i, j :: 0 <= i < j < |table| && table[i].position == table[j].position ==> table[i].position == ZERO32)
    && (forall i :: 0 <= i < |table| ==> (table[i].position == ZERO32 <==> table[i].lots == 0))
  }

  /** The keys in use in the first n slots. */
  ghost function KeysIn(table: seq<Entry>, n: nat): set<Bytes32>
    requires n <= |table|
  {
    if n == 0 then {}
    else if table[n - 1].position == ZERO32 then KeysIn(table, n - 1)
    else KeysIn(table, n - 1) + {table[n - 1].position}
  }

  lemma {:induction false} KeysInMeaning(table: seq<Entry>, n: nat, key: Bytes32)
    requires n <= |table|
    ensures key in KeysIn(table, n) <==> key != ZERO32 && exists i :: 0 <= i < n && table[i].position == key
  {
    if n > 0 {
      KeysInMeaning(table, n - 1, key);
    }
  }

  ghost function Keys(table: seq<Entry>): set<Bytes32> {
    KeysIn(table, |table|)
  }

  /** The map that the table stands for. */
  ghost function TableMap(table: seq<Entry>): map<Bytes32, U64> {
    map key | key in Keys(table) :: TableGet(table, key)
  }

  /** A table with these lots for each key stands for this map. */
  lemma GetIsMap(table: seq<Entry>, key: Bytes32)
    requires TableOk(table) && key != ZERO32
    ensures TableGet(table, key) == if key in TableMap(table) then TableMap(table)[key] else 0
    ensures key in TableMap(table) <==> TableGet(table, key) > 0
    ensures key in TableMap(table) <==> Find(table, key, 0) < |table|
  {
    KeysInMeaning(table, |table|, key);
    var k := Find(table, key, 0);
    if k < |table| {
      assert table[k].position == key;
    }
  }

  /** Two tables that answer every key alike stand for the same map. */
  lemma SameGets(table: seq<Entry>, m: map<Bytes32, U64>)
    requires TableOk(table)
    requires ZERO32 !in m && forall key :: key in m ==> m[key] > 0
    requires forall key: Bytes32 :: key != ZERO32 ==> TableGet(table, key) == if key in m then m[key] else 0
    ensures TableMap(table) == m
  {
    forall key: Bytes32
      ensures key in TableMap(table) <==> key in m
      ensures key in m ==> TableMap(table)[key] == m[key]
    {
      KeysInMeaning(table, |table|, key);
      if key != ZERO32 {
        GetIsMap(table, key);
      }
    }
  }

  lemma NoOther(table: seq<Entry>, k: nat, key: Bytes32, i: nat)
    requires TableOk(table) && k < |table| && i < |table| && key != ZERO32
    requires table[k].position == key || Find(table, key, 0) == |table|
    ensures table[i].position == key ==> i == k
  {
  }

  /** Where the key stands decides what Find answers. */
  lemma FindKept(table: seq<Entry>, table': seq<Entry>, key: Bytes32)
    requires |table'| == |table|
    requires forall i :: 0 <= i < |table| ==> (table'[i].position == key <==> table[i].position == key)
    ensures Find(table', key, 0) == Find(table, key, 0)
  {
  }

  /** Slot k of the table may be given to e: its key is that of e, or it is unused
      and no slot has that key. */
  ghost predicate MayHold(table: seq<Entry>, k: nat, e: Entry) {
    && k < |table| && e.position != ZERO32 && e.lots > 0
    && (table[k].position == e.position || (table[k].position == ZERO32 && Find(table, e.position, 0) == |table|))
  }

  lemma PutOk(table: seq<Entry>, k: nat, e: Entry)
    requires TableOk(table) && MayHold(table, k, e)
    ensures TableOk(table[k := e])
  {
    var table' := table[k := e];
    forall i, j | 0 <= i < j < |table'| && table'[i].position == table'[j].position
      ensures table'[i].position == ZERO32
    {
      NoOther(table, k, e.position, i);
      NoOther(table, k, e.position, j);
    }
  }

  lemma PutGet(table: seq<Entry>, k: nat, e: Entry, key: Bytes32)
    requires TableOk(table) && MayHold(table, k, e) && key != ZERO32
    ensures TableGet(table[k := e], key) == if key == e.position then e.lots else TableGet(table, key)
  {
    var table' := table[k := e];
    if key == e.position {
      PutOk(table, k, e);
      assert table'[k].position == key;
      NoOther(table', k, key, Find(table', key, 0));
    } else {
      FindKept(table, table', key);
    }
  }

  lemma ClearGet(table: seq<Entry>, k: nat, key: Bytes32)
    requires TableOk(table) && k < |table| && table[k].position != ZERO32 && key != ZERO32
    ensures TableGet(table[k := NO_ENTRY], key) == if key == table[k].position then 0 else TableGet(table, key)
  {
    var table' := table[k := NO_ENTRY];
    if key == table[k].position {
      var i := Find(table', key, 0);
      if i < |table| {
        NoOther(table, k, key, i);
      }
    } else {
      FindKept(table, table', key);
    }
  }

  /** One slot rewritten: only the answer for its key changes. */
  lemma PutInTable(table: seq<Entry>, k: nat, e: Entry)
    requires TableOk(table) && MayHold(table, k, e)
    ensures TableOk(table[k := e])
    ensures TableMap(table[k := e]) == TableMap(table)[e.position := e.lots]
  {
    var m := TableMap(table)[e.position := e.lots];
    PutOk(table, k, e);
    MapPositive(table);
    forall key: Bytes32 | key != ZERO32
      ensures TableGet(table[k := e], key) == if key in m then m[key] else 0
    {
      GetIsMap(table, key);
      PutGet(table, k, e, key);
    }
    SameGets(table[k := e], m);
  }

  lemma MapPositive(table: seq<Entry>)
    requires TableOk(table)
    ensures ZERO32 !in TableMap(table)
    ensures forall key :: key in TableMap(table) ==> TableMap(table)[key] > 0
  {
    KeysInMeaning(table, |table|, ZERO32);
    forall key | key in TableMap(table)
      ensures TableMap(table)[key] > 0
    {
      GetIsMap(table, key);
    }
  }

  lemma ClearInTable(table: seq<Entry>, k: nat)
    requires TableOk(table) && k < |table| && table[k].position != ZERO32
    ensures TableOk(table[k := NO_ENTRY])
    ensures TableMap(table[k := NO_ENTRY]) == TableMap(table) - {table[k].position}
  {
    var gone, table' := table[k].position, table[k := NO_ENTRY];
    var m := TableMap(table) - {gone};
    MapPositive(table);
    forall key: Bytes32 | key != ZERO32
      ensures TableGet(table', key) == if key in m then m[key] else 0
    {
      GetIsMap(table, key);
      ClearGet(table, k, key);
      assert key in m <==> key in TableMap(table) && key != gone;
    }
    ClearOk(table, k);
    SameGets(table', m);
  }

  lemma ClearOk(table: seq<Entry>, k: nat)
    requires TableOk(table) && k < |table|
    ensures TableOk(table[k := NO_ENTRY])
  {
    var table' := table[k := NO_ENTRY];
    forall i, j | 0 <= i < j < |table'| && table'[i].position == table'[j].position
      ensures table'[i].position == ZERO32
    {
    }
  }

  /** Reserve lots: the entry of the key grows, or a new key takes an unused slot;
      a new key is refused exactly when every slot is in use. */
  lemma AddIsMap(table: seq<Entry>, key: Bytes32, delta: U64)
    requires TableOk(table) && key != ZERO32
    ensures var (res, table') := TableAdd(table, key, delta);
      && TableOk(table') && |table'| == |table|
      && (res.Failed? <==> delta > 0 && key !in TableMap(table) && |TableMap(table)| == |table|)
      && (res.Done? && delta > 0 ==>
            TableMap(table') == TableMap(table)[key := SaturatingAddU64(TableGet(table, key), delta)])
      && (res.Failed? || delta == 0 ==> table' == table)
  {
    GetIsMap(table, key);
    var k, free := Find(table, key, 0), Find(table, ZERO32, 0);
    FullTable(table);
    if delta > 0 && k < |table| {
      PutInTable(table, k, Entry(key, SaturatingAddU64(table[k].lots, delta)));
    } else if delta > 0 && free < |table| {
      PutInTable(table, free, Entry(key, delta));
    }
  }

  /** Release lots: the entry shrinks, and is forgotten when nothing is left. */
  lemma SubIsMap(table: seq<Entry>, key: Bytes32, delta: U64)
    requires TableOk(table) && key != ZERO32
    ensures var left := SaturatingSub(TableGet(table, key), delta);
      && TableOk(TableSub(table, key, delta)) && |TableSub(table, key, delta)| == |table|
      && TableMap(TableSub(table, key, delta))
         == if left == 0 then TableMap(table) - {key} else TableMap(table)[key := left]
  {
    GetIsMap(table, key);
    var k := Find(table, key, 0);
    if k == |table| {
      assert TableMap(table) - {key} == TableMap(table);
    } else if SaturatingSub(table[k].lots, delta) == 0 {
      ClearInTable(table, k);
    } else {
      PutInTable(table, k, Entry(key, SaturatingSub(table[k].lots, delta)));
    }
  }

  /** No slot is unused exactly when the map has as many keys as the table slots. */
  lemma FullTable(table: seq<Entry>)
    requires TableOk(table)
    ensures |TableMap(table)| <= |table|
    ensures |TableMap(table)| == |table| <==> Find(table, ZERO32, 0) == |table|
  {
    KeyCount(table, |table|);
    FilledMeaning(table, |table|);
    assert TableMap(table).Keys == Keys(table);
    var free := Find(table, ZERO32, 0);
    if free < |table| {
      assert table[free].position == ZERO32;
    }
  }

  lemma KeyNotBefore(table: seq<Entry>, n: nat)
    requires TableOk(table) && n < |table|
    ensures table[n].position !in KeysIn(table, n)
  {
    KeysInMeaning(table, n, table[n].position);
  }

  ghost predicate Filled(table: seq<Entry>, n: nat)
    requires n <= |table|
  {
    n == 0 || (table[n - 1].position != ZERO32 && Filled(table, n - 1))
  }

  lemma {:induction false} FilledMeaning(table: seq<Entry>, n: nat)
    requires n <= |table|
    ensures Filled(table, n) <==> forall i :: 0 <= i < n ==> table[i].position != ZERO32
  {
    if n > 0 {
      FilledMeaning(table, n - 1);
    }
  }

  lemma {:induction false} KeyCount(table: seq<Entry>, n: nat)
    requires TableOk(table) && n <= |table|
    ensures |KeysIn(table, n)| <= n
    ensures |KeysIn(table, n)| == n <==> Filled(table, n)
  {
    hide TableOk;
    if n > 0 {
      KeyCount(table, n - 1);
      KeyNotBefore(table, n - 1);
      OneMore(KeysIn(table, n - 1), table[n - 1].position);
    }
  }

  lemma OneMore(s: set<Bytes32>, x: Bytes32)
    ensures |s + {x}| == if x in s then |s| else |s| + 1
  {
    if x in s {
      assert s + {x} == s;
    }
  }
}
