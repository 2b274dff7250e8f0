/** The fill-commitment account as it lies in memory: one byte buffer, edited in
    place, and the ring, flags and table that its bytes stand for. */
module FillBuffers {
  import opened Bytes
  import opened Wrappers
  import opened FillRings

  /** "FBfcq", 0, 1, 0 */
  const FILL_COMMIT_DISC: seq<byte> := [0x46, 0x42, 0x66, 0x63, 0x71, 0, 1, 0]

  const FILL_COMMIT_HEADER_LEN := 64
  const OFF_PRODUCED := 8
  const OFF_SETTLED := 16
  const OFF_CAP := 24
  const OFF_BUMP := 28
  const OFF_MARKET := 32
  const INFLIGHT_SLOT_BYTES := 40

  function FillCommitAccountLen(cap: nat): nat {
    FILL_COMMIT_HEADER_LEN + cap * 32 + cap + FILL_INFLIGHT_SLOTS * INFLIGHT_SLOT_BYTES
  }

  function SlotOff(k: nat): nat {
    FILL_COMMIT_HEADER_LEN + k * 32
  }

  function FlagsOff(cap: nat): nat {
    FILL_COMMIT_HEADER_LEN + cap * 32
  }

  function MapOff(cap: nat): nat {
    FILL_COMMIT_HEADER_LEN + cap * 32 + cap
  }

  // ----- what the bytes stand for -----

  function CapOf(d: seq<byte>): U32
    requires |d| >= FILL_COMMIT_HEADER_LEN
  {
    U32Of(d[OFF_CAP..OFF_CAP + 4])
  }

  function BufferNextIndex(d: seq<byte>): U64
    requires |d| >= FILL_COMMIT_HEADER_LEN
  {
    U64Of(d[OFF_PRODUCED..OFF_PRODUCED + 8])
  }

  function BufferSettleIndex(d: seq<byte>): U64
    requires |d| >= FILL_COMMIT_HEADER_LEN
  {
    U64Of(d[OFF_SETTLED..OFF_SETTLED + 8])
  }

  function MarketOf(d: seq<byte>): Bytes32
    requires |d| >= FILL_COMMIT_HEADER_LEN
  {
    d[OFF_MARKET..OFF_MARKET + 32]
  }

  function Ends(off: nat, i: nat, size: nat): nat {
    off + (i + 1) * size
  }

  /** How many of n units of the given size there is room for from offset off. */
  function RoomFor(len: nat, off: nat, size: nat, n: nat): (r: nat)
    requires size > 0
    ensures r <= n
    ensures size == 1 || size == 40 ==> forall i: nat :: i < r <==> i < n && Ends(off, i, size) <= len
  {
    var fit := if len < off then 0 else (len - off) / size;
    if fit < n then fit else n
  }

  ghost function SlotsOf(d: seq<byte>, cap: nat): (s: seq<Commit>)
    requires |d| >= FlagsOff(cap)
    ensures |s| == cap
  {
    seq(cap, k requires 0 <= k < cap => d[SlotOff(k)..SlotOff(k) + 32])
  }

  ghost function FlagsOf(d: seq<byte>, cap: nat): seq<bool> {
    seq(RoomFor(|d|, FlagsOff(cap), 1, cap),
        i requires 0 <= i < RoomFor(|d|, FlagsOff(cap), 1, cap) => d[FlagsOff(cap) + i] != 0)
  }

  function EntryOff(cap: nat, s: nat): nat {
    MapOff(cap) + s * INFLIGHT_SLOT_BYTES
  }

  function EntryAt(d: seq<byte>, off: nat): Entry
    requires off + INFLIGHT_SLOT_BYTES <= |d|
  {
    Entry(d[off..off + 32], U64Of(d[off + 32..off + 40]))
  }

  function TableLen(len: nat, cap: nat): nat {
    RoomFor(len, MapOff(cap), INFLIGHT_SLOT_BYTES, FILL_INFLIGHT_SLOTS)
  }

  ghost function TableOf(d: seq<byte>, cap: nat): (t: seq<Entry>)
    ensures |t| == TableLen(|d|, cap)
  {
    seq(TableLen(|d|, cap), s requires 0 <= s < TableLen(|d|, cap) => EntryAt(d, EntryOff(cap, s)))
  }

  /** Discriminator, market binding and length all agree. */
  predicate Checked(d: seq<byte>, market: Bytes32) {
    && |d| >= FILL_COMMIT_HEADER_LEN && d[0..8] == FILL_COMMIT_DISC
    && CapOf(d) != 0 && |d| == FillCommitAccountLen(CapOf(d))
    && MarketOf(d) == market
  }

  ghost function View(d: seq<byte>): Ring
    requires |d| >= FILL_COMMIT_HEADER_LEN && |d| >= FlagsOff(CapOf(d))
  {
    Ring(BufferNextIndex(d), BufferSettleIndex(d), SlotsOf(d, CapOf(d)), FlagsOf(d, CapOf(d)), TableOf(d, CapOf(d)))
  }

  ghost predicate SameHeader(d: seq<byte>, d': seq<byte>) {
    |d'| == |d| && |d| >= FILL_COMMIT_HEADER_LEN && d'[..FILL_COMMIT_HEADER_LEN] == d[..FILL_COMMIT_HEADER_LEN]
  }

  // ----- what one write changes -----

  lemma SlotWritten(d: seq<byte>, d': seq<byte>, cap: nat, k: nat, commit: Commit)
    requires k < cap && |d| >= FlagsOff(cap)
    requires OnlyAt(d, d', SlotOff(k), 32) && d'[SlotOff(k)..SlotOff(k) + 32] == commit
    ensures SlotsOf(d', cap) == SlotsOf(d, cap)[k := commit]
    ensures FlagsOf(d', cap) == FlagsOf(d, cap) && TableOf(d', cap) == TableOf(d, cap)
    ensures SameHeader(d, d')
  {
    forall j | 0 <= j < cap && j != k
      ensures d'[SlotOff(j)..SlotOff(j) + 32] == d[SlotOff(j)..SlotOff(j) + 32]
    {
    }
    TableFrame(d, d', cap);
    assert FlagsOf(d', cap) == FlagsOf(d, cap);
  }

  lemma TableFrame(d: seq<byte>, d': seq<byte>, cap: nat)
    requires |d'| == |d| && SameBytes(d, d', MapOff(cap), |d|)
    ensures TableOf(d', cap) == TableOf(d, cap)
  {
    forall s | 0 <= s < TableLen(|d|, cap)
      ensures EntryAt(d', EntryOff(cap, s)) == EntryAt(d, EntryOff(cap, s))
    {
      var off := EntryOff(cap, s);
      assert d'[off..off + 32] == d[off..off + 32];
      assert d'[off + 32..off + 40] == d[off + 32..off + 40];
    }
  }

  /** A write inside the header leaves the slots, flags and table alone. */
  lemma HeaderWritten(d: seq<byte>, d': seq<byte>, cap: nat)
    requires |d| >= FlagsOff(cap) && |d'| == |d| && SameBytes(d, d', FILL_COMMIT_HEADER_LEN, |d|)
    ensures SlotsOf(d', cap) == SlotsOf(d, cap) && FlagsOf(d', cap) == FlagsOf(d, cap)
    ensures TableOf(d', cap) == TableOf(d, cap)
  {
    forall j | 0 <= j < cap
      ensures d'[SlotOff(j)..SlotOff(j) + 32] == d[SlotOff(j)..SlotOff(j) + 32]
    {
    }
    TableFrame(d, d', cap);
    assert FlagsOf(d', cap) == FlagsOf(d, cap);
  }

  /** A cursor overwritten in the header. */
  lemma CursorWritten(d: seq<byte>, d': seq<byte>, market: Bytes32, off: nat, v: U64)
    requires Checked(d, market) && (off == OFF_PRODUCED || off == OFF_SETTLED)
    requires OnlyAt(d, d', off, 8) && d'[off..off + 8] == Le64(v)
    ensures Checked(d', market)
    ensures View(d') == if off == OFF_PRODUCED then View(d).(produced := v) else View(d).(settled := v)
  {
    assert d'[0..8] == d[0..8] && d'[OFF_CAP..OFF_CAP + 4] == d[OFF_CAP..OFF_CAP + 4];
    assert MarketOf(d') == MarketOf(d);
    HeaderWritten(d, d', CapOf(d));
    if off == OFF_PRODUCED {
      assert d'[OFF_SETTLED..OFF_SETTLED + 8] == d[OFF_SETTLED..OFF_SETTLED + 8];
    } else {
      assert d'[OFF_PRODUCED..OFF_PRODUCED + 8] == d[OFF_PRODUCED..OFF_PRODUCED + 8];
    }
  }

  lemma HeaderKept(d: seq<byte>, d': seq<byte>)
    requires SameHeader(d, d')
    ensures CapOf(d') == CapOf(d) && BufferNextIndex(d') == BufferNextIndex(d)
    ensures BufferSettleIndex(d') == BufferSettleIndex(d) && MarketOf(d') == MarketOf(d)
    ensures d'[0..8] == d[0..8]
    ensures forall market :: Checked(d', market) <==> Checked(d, market)
  {
    var h, h' := d[..FILL_COMMIT_HEADER_LEN], d'[..FILL_COMMIT_HEADER_LEN];
    assert d'[0..8] == h'[0..8] && d[0..8] == h[0..8];
    assert d'[8..16] == h'[8..16] && d[8..16] == h[8..16];
    assert d'[16..24] == h'[16..24] && d[16..24] == h[16..24];
    assert d'[24..28] == h'[24..28] && d[24..28] == h[24..28];
    assert d'[32..64] == h'[32..64] && d[32..64] == h[32..64];
  }

  // ----- creation, check, growth -----

  function BufferCheck(d: seq<byte>, expectedMarket: Bytes32): (res: Outcome<U32>)
    ensures res == Failed(Corrupt) || (res.Done? && Checked(d, expectedMarket) && res.value == CapOf(d))
    ensures res.Failed? <==> !Checked(d, expectedMarket)
  {
    if |d| < FILL_COMMIT_HEADER_LEN || d[0..8] != FILL_COMMIT_DISC then Failed(Corrupt)
    else if CapOf(d) == 0 || |d| != FillCommitAccountLen(CapOf(d)) || MarketOf(d) != expectedMarket then Failed(Corrupt)
    else Done(CapOf(d))
  }

  function EmptyRing(cap: nat, cursor: U64): Ring {
    Ring(cursor, cursor, seq(cap, _ => ZERO32), seq(cap, _ => false), seq(FILL_INFLIGHT_SLOTS, _ => NO_ENTRY))
  }

  ghost predicate ZeroBody(d: seq<byte>) {
    forall i :: FILL_COMMIT_HEADER_LEN <= i < |d| ==> d[i] == 0
  }

  /** Zero bytes after the header, and only those, are an empty ring, with every slot,
      flag and entry clear. */
  lemma ZeroBodyIsEmpty(d: seq<byte>, market: Bytes32)
    requires Checked(d, market) && BufferNextIndex(d) == BufferSettleIndex(d)
    ensures ZeroBody(d) <==> View(d) == EmptyRing(CapOf(d), BufferNextIndex(d))
  {
    var cap := CapOf(d);
    if ZeroBody(d) {
      forall k | 0 <= k < cap
        ensures SlotsOf(d, cap)[k] == ZERO32
      {
      }
      forall s | 0 <= s < FILL_INFLIGHT_SLOTS
        ensures TableOf(d, cap)[s] == NO_ENTRY
      {
        ZeroEntry(d, EntryOff(cap, s));
      }
      assert SlotsOf(d, cap) == seq(cap, _ => ZERO32);
      assert FlagsOf(d, cap) == seq(cap, _ => false);
      assert TableOf(d, cap) == seq(FILL_INFLIGHT_SLOTS, _ => NO_ENTRY);
    }
    if View(d) == EmptyRing(cap, BufferNextIndex(d)) {
      forall i | FILL_COMMIT_HEADER_LEN <= i < |d|
        ensures d[i] == 0
      {
        ZeroByte(d, cap, i);
      }
    }
  }

  lemma ZeroEntry(d: seq<byte>, off: nat)
    requires off + INFLIGHT_SLOT_BYTES <= |d|
    ensures EntryAt(d, off) == NO_ENTRY <==> forall i :: off <= i < off + INFLIGHT_SLOT_BYTES ==> d[i] == 0
  {
    var key, lots := d[off..off + 32], d[off + 32..off + 40];
    LeValueZero(lots);
    if EntryAt(d, off) == NO_ENTRY {
      forall i | off <= i < off + INFLIGHT_SLOT_BYTES
        ensures d[i] == 0
      {
        if i < off + 32 {
          assert key[i - off] == ZERO32[i - off];
        } else {
          assert Le64(0) == lots;
          assert lots[i - off - 32] == Zeros(8)[i - off - 32];
        }
      }
    }
    if forall i :: off <= i < off + INFLIGHT_SLOT_BYTES ==> d[i] == 0 {
      assert key == ZERO32 && lots == Zeros(8);
    }
  }

  /** Each byte after the header belongs to a slot, a flag or an entry. */
  lemma ZeroByte(d: seq<byte>, cap: nat, i: nat)
    requires |d| == FillCommitAccountLen(cap) && FILL_COMMIT_HEADER_LEN <= i < |d|
    requires SlotsOf(d, cap) == seq(cap, _ => ZERO32) && FlagsOf(d, cap) == seq(cap, _ => false)
    requires TableOf(d, cap) == seq(FILL_INFLIGHT_SLOTS, _ => NO_ENTRY)
    ensures d[i] == 0
  {
    if i < FlagsOff(cap) {
      var k := (i - FILL_COMMIT_HEADER_LEN) / 32;
      assert SlotsOf(d, cap)[k] == ZERO32;
      assert d[i] == d[SlotOff(k)..SlotOff(k) + 32][i - SlotOff(k)];
      assert d[SlotOff(k)..SlotOff(k) + 32] == ZERO32;
      assert d[i] == ZERO32[i - SlotOff(k)] == 0;
    } else if i < MapOff(cap) {
      assert FlagsOf(d, cap)[i - FlagsOff(cap)] == false;
    } else {
      var s := (i - MapOff(cap)) / INFLIGHT_SLOT_BYTES;
      assert TableOf(d, cap)[s] == NO_ENTRY;
      ZeroEntry(d, EntryOff(cap, s));
      assert EntryOff(cap, s) <= i < EntryOff(cap, s) + INFLIGHT_SLOT_BYTES;
    }
  }

  method BufferInit(data: array<byte>, market: Bytes32, cap: U32, bump: U8) returns (res: Outcome<()>)
    modifies data
    ensures res == if cap == 0 || data.Length != FillCommitAccountLen(cap) then Failed(Corrupt) else Done(())
    ensures res.Failed? ==> data[..] == old(data[..])
    ensures res.Done? ==> Checked(data[..], market) && View(data[..]) == EmptyRing(cap, 0) && data[OFF_BUMP] == bump
  {
    if cap == 0 || data.Length != FillCommitAccountLen(cap) {
      return Failed(Corrupt);
    }
    for i := 0 to data.Length
      invariant forall j :: 0 <= j < i ==> data[j] == 0
    {
      data[i] := 0;
    }
    WriteAt(data, 0, FILL_COMMIT_DISC);
    WriteAt(data, OFF_CAP, Le32(cap));
    data[OFF_BUMP] := bump;
    WriteAt(data, OFF_MARKET, market);
    var d := data[..];
    assert d[0..8] == FILL_COMMIT_DISC;
    assert d[OFF_CAP..OFF_CAP + 4] == Le32(cap);
    assert d[OFF_MARKET..OFF_MARKET + 32] == market;
    assert d[OFF_PRODUCED..OFF_PRODUCED + 8] == Zeros(8) && d[OFF_SETTLED..OFF_SETTLED + 8] == Zeros(8);
    U32RoundTrip(cap);
    LeValueZero(Zeros(8));
    ZeroBodyIsEmpty(d, market);
    return Done(());
  }

  method BufferSetCap(data: array<byte>, newCap: U32)
    requires data.Length >= FILL_COMMIT_HEADER_LEN
    modifies data
    ensures data[OFF_CAP..OFF_CAP + 4] == Le32(newCap)
    ensures OnlyAt(old(data[..]), data[..], OFF_CAP, 4)
  {
    WriteAt(data, OFF_CAP, Le32(newCap));
  }

  // ----- the ring in place -----

  /** Push into the slots of the account; the slot region is a window of its bytes. */
  method RingPush(data: array<byte>, cap: nat, produced: U64, settled: U64, commit: Commit)
    returns (res: Outcome<()>, produced': U64)
    requires data.Length >= FlagsOff(cap)
    modifies data
    ensures FlagsOf(data[..], cap) == FlagsOf(old(data[..]), cap)
    ensures TableOf(data[..], cap) == TableOf(old(data[..]), cap)
    ensures SameHeader(old(data[..]), data[..])
    ensures forall flags, table ::
      (res, Ring(produced', settled, SlotsOf(data[..], cap), flags, table))
      == Push(Ring(produced, settled, SlotsOf(old(data[..]), cap), flags, table), commit)
  {
    produced' := produced;
    if cap == 0 {
      return Failed(Corrupt), produced;
    }
    var depth := Depth(produced, settled);
    if depth.Failed? {
      return Failed(Corrupt), produced;
    }
    if depth.value >= cap {
      return Failed(Full), produced;
    }
    var idx := IndexOf(produced, cap);
    ghost var d := data[..];
    WriteAt(data, SlotOff(idx), commit);
    SlotWritten(d, data[..], cap, idx, commit);
    if produced == U64_MAX {
      return Failed(Corrupt), produced;
    }
    return Done(()), produced + 1;
  }

  method RingSettle(data: array<byte>, cap: nat, produced: U64, settled: U64, recomputed: Commit)
    returns (res: Outcome<()>, settled': U64)
    requires data.Length >= FlagsOff(cap)
    modifies data
    ensures FlagsOf(data[..], cap) == FlagsOf(old(data[..]), cap)
    ensures TableOf(data[..], cap) == TableOf(old(data[..]), cap)
    ensures SameHeader(old(data[..]), data[..])
    ensures forall flags, table ::
      (res, Ring(produced, settled', SlotsOf(data[..], cap), flags, table))
      == Settle(Ring(produced, settled, SlotsOf(old(data[..]), cap), flags, table), recomputed)
  {
    settled' := settled;
    if cap == 0 {
      return Failed(Corrupt), settled;
    }
    var depth := Depth(produced, settled);
    if depth.Failed? {
      return Failed(Corrupt), settled;
    }
    if depth.value == 0 {
      return Failed(Empty), settled;
    }
    var idx := IndexOf(settled, cap);
    if data[SlotOff(idx)..SlotOff(idx) + 32] != recomputed {
      return Failed(NotCommitted), settled;
    }
    ghost var d := data[..];
    assert SlotsOf(d, cap)[idx] == recomputed;
    WriteAt(data, SlotOff(idx), ZERO32);
    SlotWritten(d, data[..], cap, idx, ZERO32);
    return Done(()), settled + 1;
  }

  method BufferPush(data: array<byte>, market: Bytes32, commit: Commit) returns (res: Outcome<()>)
    modifies data
    ensures !Checked(old(data[..]), market) ==> res == Failed(Corrupt) && data[..] == old(data[..])
    ensures Checked(old(data[..]), market) ==>
      Checked(data[..], market) && (res, View(data[..])) == Push(View(old(data[..])), commit)
  {
    ghost var d := data[..];
    var check := BufferCheck(data[..], market);
    if check.Failed? {
      return Failed(check.error);
    }
    var produced, settled := BufferNextIndex(data[..]), BufferSettleIndex(data[..]);
    var produced';
    res, produced' := RingPush(data, check.value, produced, settled, commit);
    ghost var d1 := data[..];
    HeaderKept(d, d1);
    if res.Done? {
      WriteAt(data, OFF_PRODUCED, Le64(produced'));
      CursorWritten(d1, data[..], market, OFF_PRODUCED, produced');
    }
  }

  method BufferSettle(data: array<byte>, market: Bytes32, recomputed: Commit) returns (res: Outcome<()>)
    modifies data
    ensures !Checked(old(data[..]), market) ==> res == Failed(Corrupt) && data[..] == old(data[..])
    ensures Checked(old(data[..]), market) ==>
      Checked(data[..], market) && (res, View(data[..])) == Settle(View(old(data[..])), recomputed)
  {
    ghost var d := data[..];
    var check := BufferCheck(data[..], market);
    if check.Failed? {
      return Failed(check.error);
    }
    var produced, settled := BufferNextIndex(data[..]), BufferSettleIndex(data[..]);
    var settled';
    res, settled' := RingSettle(data, check.value, produced, settled, recomputed);
    ghost var d1 := data[..];
    HeaderKept(d, d1);
    if res.Done? {
      WriteAt(data, OFF_SETTLED, Le64(settled'));
      CursorWritten(d1, data[..], market, OFF_SETTLED, settled');
    }
  }

  // ----- the reduce-only flags in place -----

  /** Cursors, capacity and slots are those of before. */
  ghost predicate SameRing(d: seq<byte>, d': seq<byte>, cap: nat) {
    && |d'| == |d|
    && (|d| >= FILL_COMMIT_HEADER_LEN ==> SameHeader(d, d'))
    && (|d| >= FlagsOff(cap) ==> SlotsOf(d', cap) == SlotsOf(d, cap))
  }

  lemma TailWritten(d: seq<byte>, d': seq<byte>, cap: nat)
    requires |d'| == |d| && SameBytes(d, d', 0, FlagsOff(cap))
    ensures SameRing(d, d', cap)
  {
    if |d| >= FlagsOff(cap) {
      forall j | 0 <= j < cap
        ensures d'[SlotOff(j)..SlotOff(j) + 32] == d[SlotOff(j)..SlotOff(j) + 32]
      {
      }
    }
  }

  lemma FlagWritten(d: seq<byte>, d': seq<byte>, cap: nat, i: nat)
    requires i < cap && FlagsOff(cap) + i < |d| && OnlyAt(d, d', FlagsOff(cap) + i, 1)
    ensures i < |FlagsOf(d, cap)|
    ensures FlagsOf(d', cap) == FlagsOf(d, cap)[i := d'[FlagsOff(cap) + i] != 0]
    ensures TableOf(d', cap) == TableOf(d, cap) && SameRing(d, d', cap)
  {
    assert Ends(FlagsOff(cap), i, 1) <= |d|;
    assert FlagsOf(d', cap) == FlagsOf(d, cap)[i := d'[FlagsOff(cap) + i] != 0];
    TableFrame(d, d', cap);
    TailWritten(d, d', cap);
  }

  lemma NoFlag(d: seq<byte>, cap: nat, i: nat)
    requires i < cap && FlagsOff(cap) + i >= |d|
    ensures i >= |FlagsOf(d, cap)|
  {
    assert Ends(FlagsOff(cap), i, 1) > |d|;
  }

  method ReduceFlagSet(data: array<byte>, cap: U32, producedIndex: U64)
    requires cap > 0
    modifies data
    ensures FlagsOf(data[..], cap) == SetFlag(FlagsOf(old(data[..]), cap), cap, producedIndex)
    ensures TableOf(data[..], cap) == TableOf(old(data[..]), cap) && SameRing(old(data[..]), data[..], cap)
  {
    var i := IndexOf(producedIndex, cap);
    var off := FlagsOff(cap) + i;
    ghost var d := data[..];
    if off < data.Length {
      data[off] := 1;
      FlagWritten(d, data[..], cap, i);
    } else {
      NoFlag(d, cap, i);
    }
  }

  method ReduceFlagTake(data: array<byte>, cap: U32, settledIndex: U64) returns (taken: bool)
    requires cap > 0
    modifies data
    ensures (taken, FlagsOf(data[..], cap)) == TakeFlag(FlagsOf(old(data[..]), cap), cap, settledIndex)
    ensures TableOf(data[..], cap) == TableOf(old(data[..]), cap) && SameRing(old(data[..]), data[..], cap)
  {
    var i := IndexOf(settledIndex, cap);
    var off := FlagsOff(cap) + i;
    ghost var d, flags := data[..], FlagsOf(data[..], cap);
    if off < data.Length && data[off] != 0 {
      data[off] := 0;
      FlagWritten(d, data[..], cap, i);
      assert flags[i];
      return true;
    }
    if off < data.Length {
      assert Ends(FlagsOff(cap), i, 1) <= |d|;
      assert flags[i := false] == flags;
    } else {
      NoFlag(d, cap, i);
    }
    return false;
  }

  // ----- the in-flight table in place -----

  lemma EntryWritten(d: seq<byte>, d': seq<byte>, cap: nat, s: nat)
    requires s < TableLen(|d|, cap) && OnlyAt(d, d', EntryOff(cap, s), INFLIGHT_SLOT_BYTES)
    ensures Ends(MapOff(cap), s, INFLIGHT_SLOT_BYTES) <= |d|
    ensures TableOf(d', cap) == TableOf(d, cap)[s := EntryAt(d', EntryOff(cap, s))]
    ensures FlagsOf(d', cap) == FlagsOf(d, cap) && SameRing(d, d', cap)
  {
    assert Ends(MapOff(cap), s, INFLIGHT_SLOT_BYTES) <= |d|;
    forall j | 0 <= j < TableLen(|d|, cap) && j != s
      ensures EntryAt(d', EntryOff(cap, j)) == EntryAt(d, EntryOff(cap, j))
    {
      var off := EntryOff(cap, j);
      assert d'[off..off + 32] == d[off..off + 32];
      assert d'[off + 32..off + 40] == d[off + 32..off + 40];
    }
    assert FlagsOf(d', cap) == FlagsOf(d, cap);
    TailWritten(d, d', cap);
  }

  /** What a probe of slot s reads. */
  lemma ProbeAt(d: seq<byte>, cap: nat, s: nat)
    requires s < FILL_INFLIGHT_SLOTS
    ensures EntryOff(cap, s) + INFLIGHT_SLOT_BYTES <= |d| <==> s < TableLen(|d|, cap)
    ensures var off := EntryOff(cap, s);
      s < TableLen(|d|, cap) ==>
        && TableOf(d, cap)[s].position == d[off..off + 32]
        && TableOf(d, cap)[s].lots == U64Of(d[off + 32..off + 40])
  {
    assert Ends(MapOff(cap), s, INFLIGHT_SLOT_BYTES) == EntryOff(cap, s) + INFLIGHT_SLOT_BYTES;
  }

  /** Walk the table until the key is met, noting the first unused slot on the way. */
  method ScanTable(data: array<byte>, cap: U32, position: Bytes32) returns (at: Option<nat>, free: Option<nat>)
    ensures var table := TableOf(data[..], cap);
      && (at.Some? <==> Find(table, position, 0) < |table|)
      && (at.Some? ==> at.value == Find(table, position, 0))
      && (at.None? ==> (free.Some? <==> Find(table, ZERO32, 0) < |table|))
      && (at.None? && free.Some? ==> free.value == Find(table, ZERO32, 0))
  {
    ghost var table := TableOf(data[..], cap);
    free := None;
    for s := 0 to FILL_INFLIGHT_SLOTS
      invariant s <= |table|
      invariant Find(table, position, 0) == Find(table, position, s)
      invariant free.None? ==> Find(table, ZERO32, 0) == Find(table, ZERO32, s)
      invariant free.Some? ==> free.value == Find(table, ZERO32, 0) < s
    {
      var off := EntryOff(cap, s);
      ProbeAt(data[..], cap, s);
      if off + INFLIGHT_SLOT_BYTES > data.Length {
        return None, free;
      }
      if data[off..off + 32] == position {
        return Some(s), free;
      }
      if free.None? && data[off..off + 32] == ZERO32 {
        free := Some(s);
      }
    }
    return None, free;
  }

  method InflightGet(data: array<byte>, cap: U32, position: Bytes32) returns (lots: U64)
    ensures lots == TableGet(TableOf(data[..], cap), position)
  {
    var at, _ := ScanTable(data, cap, position);
    match at
    case Some(s) =>
      ProbeAt(data[..], cap, s);
      return ReadLots(data, cap, s);
    case None =>
      return 0;
  }

  function ReadLots(data: array<byte>, cap: U32, s: nat): U64
    requires EntryOff(cap, s) + INFLIGHT_SLOT_BYTES <= data.Length
    reads data
  {
    U64Of(data[EntryOff(cap, s) + 32..EntryOff(cap, s) + 40])
  }

  method WriteEntry(data: array<byte>, cap: U32, s: nat, e: Entry)
    requires s < TableLen(data.Length, cap)
    modifies data
    ensures TableOf(data[..], cap) == TableOf(old(data[..]), cap)[s := e]
    ensures FlagsOf(data[..], cap) == FlagsOf(old(data[..]), cap) && SameRing(old(data[..]), data[..], cap)
  {
    var off := EntryOff(cap, s);
    ghost var d := data[..];
    assert Ends(MapOff(cap), s, INFLIGHT_SLOT_BYTES) <= data.Length;
    WriteAt(data, off, e.position);
    WriteAt(data, off + 32, Le64(e.lots));
    EntryWritten(d, data[..], cap, s);
    assert data[..][off..off + 32] == e.position && data[..][off + 32..off + 40] == Le64(e.lots);
    U64RoundTrip(e.lots);
  }

  method InflightAdd(data: array<byte>, cap: U32, position: Bytes32, delta: U64) returns (res: Outcome<()>)
    modifies data
    ensures (res, TableOf(data[..], cap)) == TableAdd(TableOf(old(data[..]), cap), position, delta)
    ensures FlagsOf(data[..], cap) == FlagsOf(old(data[..]), cap) && SameRing(old(data[..]), data[..], cap)
  {
    TailWritten(data[..], data[..], cap);
    if delta == 0 {
      return Done(());
    }
    var at, free := ScanTable(data, cap, position);
    if at.Some? {
      ProbeAt(data[..], cap, at.value);
      WriteEntry(data, cap, at.value, Entry(position, SaturatingAddU64(ReadLots(data, cap, at.value), delta)));
      return Done(());
    }
    match free
    case Some(slot) =>
      WriteEntry(data, cap, slot, Entry(position, delta));
      return Done(());
    case None =>
      return Failed(Full);
  }

  method InflightSub(data: array<byte>, cap: U32, position: Bytes32, delta: U64)
    modifies data
    ensures TableOf(data[..], cap) == TableSub(TableOf(old(data[..]), cap), position, delta)
    ensures FlagsOf(data[..], cap) == FlagsOf(old(data[..]), cap) && SameRing(old(data[..]), data[..], cap)
  {
    TailWritten(data[..], data[..], cap);
    var at, _ := ScanTable(data, cap, position);
    if at.Some? {
      ProbeAt(data[..], cap, at.value);
      var v := SaturatingSub(ReadLots(data, cap, at.value), delta);
      if v == 0 {
        WriteEntry(data, cap, at.value, NO_ENTRY);
      } else {
        WriteEntry(data, cap, at.value, Entry(position, v));
      }
    }
  }

  // ----- growth -----

  datatype GrowError = NotValid(error: FillRingError) | NotDrained | Overflow | OutOfRange

  /** The account made longer: old bytes kept, new ones zero, the capacity stamped. */
  ghost predicate Resized(d: seq<byte>, d': seq<byte>, newCap: U32) {
    && FILL_COMMIT_HEADER_LEN <= |d| <= |d'| && CapOf(d') == newCap
    && (forall i :: 0 <= i < |d| && !(OFF_CAP <= i < OFF_CAP + 4) ==> d'[i] == d[i])
    && (forall i :: |d| <= i < |d'| ==> d'[i] == 0)
  }

  /** A drained ring is empty at the new offsets, cursors kept, exactly when every
      slot, flag and entry was clear before. */
  lemma GrowExact(d: seq<byte>, d': seq<byte>, market: Bytes32, newCap: U32)
    requires Checked(d, market) && BufferNextIndex(d) == BufferSettleIndex(d)
    requires Resized(d, d', newCap) && newCap > 0 && |d'| == FillCommitAccountLen(newCap)
    ensures Checked(d', market)
    ensures View(d') == EmptyRing(newCap, BufferNextIndex(d)) <==> View(d) == EmptyRing(CapOf(d), BufferNextIndex(d))
  {
    assert d'[0..8] == d[0..8] && MarketOf(d') == MarketOf(d);
    assert d'[OFF_PRODUCED..OFF_PRODUCED + 8] == d[OFF_PRODUCED..OFF_PRODUCED + 8];
    assert d'[OFF_SETTLED..OFF_SETTLED + 8] == d[OFF_SETTLED..OFF_SETTLED + 8];
    ZeroBodyIsEmpty(d, market);
    ZeroBodyIsEmpty(d', market);
    if ZeroBody(d') {
      forall i | FILL_COMMIT_HEADER_LEN <= i < |d|
        ensures d[i] == 0
      {
        assert d'[i] == d[i];
      }
    }
  }

  /** Grow a drained account: resize, clear what follows the header, stamp the capacity. */
  method GrowFillCommitment(data: array<byte>, market: Bytes32, additionalSlots: U32)
    returns (res: Result<array<byte>, GrowError>)
    ensures res.Success? ==>
      && fresh(res.value) && Checked(data[..], market) && CapOf(data[..]) + additionalSlots < 0x1_0000_0000
      && var newCap: U32 := CapOf(data[..]) + additionalSlots;
      && additionalSlots > 0 && BufferNextIndex(data[..]) == BufferSettleIndex(data[..])
      && Checked(res.value[..], market) && CapOf(res.value[..]) == newCap
      && View(res.value[..]) == EmptyRing(newCap, BufferNextIndex(data[..]))
      && res.value[OFF_BUMP] == data[OFF_BUMP]
      && (View(data[..]) == EmptyRing(CapOf(data[..]), BufferNextIndex(data[..])) ==>
            Resized(data[..], res.value[..], newCap))
    ensures res.Failure? <==>
      || additionalSlots == 0 || !Checked(data[..], market)
      || BufferNextIndex(data[..]) != BufferSettleIndex(data[..])
      || CapOf(data[..]) + additionalSlots >= 0x1_0000_0000
      || additionalSlots * 33 > MAX_PERMITTED_DATA_INCREASE
  {
    hide View, EmptyRing, Resized;
    if additionalSlots == 0 {
      return Failure(OutOfRange);
    }
    var check := BufferCheck(data[..], market);
    if check.Failed? {
      return Failure(NotValid(check.error));
    }
    if BufferNextIndex(data[..]) != BufferSettleIndex(data[..]) {
      return Failure(NotDrained);
    }
    if check.value + additionalSlots >= 0x1_0000_0000 {
      return Failure(Overflow);
    }
    var newCap: U32 := check.value + additionalSlots;
    var oldLen, newLen := data.Length, FillCommitAccountLen(newCap);
    if newLen - oldLen > MAX_PERMITTED_DATA_INCREASE {
      return Failure(OutOfRange);
    }
    var grown := new byte[newLen](_ => 0);
    for i := 0 to oldLen
      invariant forall j :: 0 <= j < i ==> grown[j] == data[j]
      invariant forall j :: i <= j < newLen ==> grown[j] == 0
    {
      grown[i] := data[i];
    }
    for i := FILL_COMMIT_HEADER_LEN to newLen
      invariant forall j :: 0 <= j < FILL_COMMIT_HEADER_LEN ==> grown[j] == data[j]
      invariant forall j :: FILL_COMMIT_HEADER_LEN <= j < i ==> grown[j] == 0
    {
      grown[i] := 0;
    }
    BufferSetCap(grown, newCap);
    GrownIsEmpty(data[..], grown[..], market, newCap);
    return Success(grown);
  }

  lemma GrownIsEmpty(d: seq<byte>, d': seq<byte>, market: Bytes32, newCap: U32)
    requires Checked(d, market) && BufferNextIndex(d) == BufferSettleIndex(d)
    requires newCap >= CapOf(d) && |d'| == FillCommitAccountLen(newCap)
    requires d'[OFF_CAP..OFF_CAP + 4] == Le32(newCap) && ZeroBody(d')
    requires forall i :: 0 <= i < FILL_COMMIT_HEADER_LEN && !(OFF_CAP <= i < OFF_CAP + 4) ==> d'[i] == d[i]
    ensures Checked(d', market) && CapOf(d') == newCap && View(d') == EmptyRing(newCap, BufferNextIndex(d))
    ensures View(d) == EmptyRing(CapOf(d), BufferNextIndex(d)) ==> Resized(d, d', newCap)
  {
    U32RoundTrip(newCap);
    assert d'[0..8] == d[0..8] && MarketOf(d') == MarketOf(d);
    assert d'[OFF_PRODUCED..OFF_PRODUCED + 8] == d[OFF_PRODUCED..OFF_PRODUCED + 8];
    assert d'[OFF_SETTLED..OFF_SETTLED + 8] == d[OFF_SETTLED..OFF_SETTLED + 8];
    ZeroBodyIsEmpty(d, market);
    ZeroBodyIsEmpty(d', market);
  }
}
