/** The fill outbox: a byte buffer of fixed-width fill records, addressed by the
    cursors of the commitment ring. */
module FillOutboxes {
  import opened Bytes
  import opened Wrappers

  /** "FBoutbx", 0 */
  const FILL_OUTBOX_DISC: seq<byte> := [0x46, 0x42, 0x6F, 0x75, 0x74, 0x62, 0x78, 0]

  const FILL_OUTBOX_HEADER_LEN := 64
  const FILL_OUTBOX_SLOT_LEN := 96
  const OFF_PRODUCED := 8
  const OFF_SETTLED := 16
  const OFF_CAP := 24
  const OFF_BUMP := 28
  const OFF_MARKET := 32

  datatype FillOutboxError = Corrupt | WrongMarket | OutOfRange

  datatype OutboxSlot = OutboxSlot(
    taker: Bytes32, maker: Bytes32, sizeLots: U64, priceTicks: U64, makerId: U64,
    takerSide: U8, takerSubIndex: U8, makerSubIndex: U8, takerWasJit: U8)

  const ZERO_RECORD := OutboxSlot(ZERO32, ZERO32, 0, 0, 0, 0, 0, 0, 0)

  function FillOutboxAccountLen(cap: nat): nat {
    FILL_OUTBOX_HEADER_LEN + cap * FILL_OUTBOX_SLOT_LEN
  }

  function SlotBase(i: nat): nat {
    FILL_OUTBOX_HEADER_LEN + i * FILL_OUTBOX_SLOT_LEN
  }

  function EncodeSlot(s: OutboxSlot): (b: seq<byte>)
    ensures |b| == FILL_OUTBOX_SLOT_LEN
  {
    s.taker + s.maker + Le64(s.sizeLots) + Le64(s.priceTicks) + Le64(s.makerId)
    + [s.takerSide, s.takerSubIndex, s.makerSubIndex, s.takerWasJit] + Zeros(4)
  }

  function DecodeSlot(b: seq<byte>): OutboxSlot
    requires |b| == FILL_OUTBOX_SLOT_LEN
  {
    OutboxSlot(b[0..32], b[32..64], U64Of(b[64..72]), U64Of(b[72..80]), U64Of(b[80..88]), b[88], b[89], b[90], b[91])
  }

  /** Which field lies at which of the 96 bytes. */
  lemma SlotFields(s: OutboxSlot)
    ensures var b := EncodeSlot(s);
      && b[0..32] == s.taker && b[32..64] == s.maker
      && b[64..72] == Le64(s.sizeLots) && b[72..80] == Le64(s.priceTicks) && b[80..88] == Le64(s.makerId)
      && b[88] == s.takerSide && b[89] == s.takerSubIndex && b[90] == s.makerSubIndex && b[91] == s.takerWasJit
      && b[92..96] == Zeros(4)
  {
  }

  lemma SlotRoundTrip(s: OutboxSlot)
    ensures DecodeSlot(EncodeSlot(s)) == s
  {
    SlotFields(s);
    U64RoundTrip(s.sizeLots);
    U64RoundTrip(s.priceTicks);
    U64RoundTrip(s.makerId);
  }

  // ----- what the bytes stand for -----

  datatype Outbox = Outbox(produced: U64, settled: U64, slots: seq<OutboxSlot>)

  function CapOf(d: seq<byte>): U32
    requires |d| >= FILL_OUTBOX_HEADER_LEN
  {
    U32Of(d[OFF_CAP..OFF_CAP + 4])
  }

  function OutboxProduced(d: seq<byte>): U64
    requires |d| >= FILL_OUTBOX_HEADER_LEN
  {
    U64Of(d[OFF_PRODUCED..OFF_PRODUCED + 8])
  }

  function OutboxSettled(d: seq<byte>): U64
    requires |d| >= FILL_OUTBOX_HEADER_LEN
  {
    U64Of(d[OFF_SETTLED..OFF_SETTLED + 8])
  }

  predicate Checked(d: seq<byte>, market: Bytes32) {
    && |d| >= FILL_OUTBOX_HEADER_LEN && d[0..8] == FILL_OUTBOX_DISC
    && CapOf(d) != 0 && |d| == FillOutboxAccountLen(CapOf(d))
    && d[OFF_MARKET..OFF_MARKET + 32] == market
  }

  ghost function SlotsOf(d: seq<byte>, cap: nat): (s: seq<OutboxSlot>)
    requires |d| >= FillOutboxAccountLen(cap)
    ensures |s| == cap
  {
    seq(cap, i requires 0 <= i < cap => DecodeSlot(d[SlotBase(i)..SlotBase(i) + FILL_OUTBOX_SLOT_LEN]))
  }

  ghost function View(d: seq<byte>): Outbox
    requires |d| >= FILL_OUTBOX_HEADER_LEN && |d| >= FillOutboxAccountLen(CapOf(d))
  {
    Outbox(OutboxProduced(d), OutboxSettled(d), SlotsOf(d, CapOf(d)))
  }

  function OutboxCheck(d: seq<byte>, expectedMarket: Bytes32): (res: Result<U32, FillOutboxError>)
    ensures res.Success? <==> Checked(d, expectedMarket)
    ensures res.Success? ==> res.value == CapOf(d)
    ensures res == Failure(WrongMarket) <==>
      exists market: Bytes32 :: Checked(d, market) && market != expectedMarket
  {
    if |d| < FILL_OUTBOX_HEADER_LEN || d[0..8] != FILL_OUTBOX_DISC then Failure(Corrupt)
    else if CapOf(d) == 0 || |d| != FillOutboxAccountLen(CapOf(d)) then Failure(Corrupt)
    else
      assert Checked(d, d[OFF_MARKET..OFF_MARKET + 32]);
      if d[OFF_MARKET..OFF_MARKET + 32] != expectedMarket then Failure(WrongMarket)
      else Success(CapOf(d))
  }

  // ----- writes -----

  /** The header and every other slot survive a write to slot i. */
  lemma SlotWritten(d: seq<byte>, d': seq<byte>, cap: nat, i: nat, s: OutboxSlot)
    requires i < cap && |d| >= FillOutboxAccountLen(cap)
    requires OnlyAt(d, d', SlotBase(i), FILL_OUTBOX_SLOT_LEN)
    requires d'[SlotBase(i)..SlotBase(i) + FILL_OUTBOX_SLOT_LEN] == EncodeSlot(s)
    ensures SlotsOf(d', cap) == SlotsOf(d, cap)[i := s]
    ensures d'[..FILL_OUTBOX_HEADER_LEN] == d[..FILL_OUTBOX_HEADER_LEN]
  {
    SlotRoundTrip(s);
    forall j | 0 <= j < cap && j != i
      ensures d'[SlotBase(j)..SlotBase(j) + FILL_OUTBOX_SLOT_LEN] == d[SlotBase(j)..SlotBase(j) + FILL_OUTBOX_SLOT_LEN]
    {
    }
  }

  /** Equal bytes from the header on: equal slots. */
  lemma SlotsFrame(d: seq<byte>, d': seq<byte>, cap: nat)
    requires |d| >= FillOutboxAccountLen(cap) && |d'| >= |d|
    requires forall i :: FILL_OUTBOX_HEADER_LEN <= i < |d| ==> d'[i] == d[i]
    ensures SlotsOf(d', cap) == SlotsOf(d, cap)
  {
    forall j | 0 <= j < cap
      ensures d'[SlotBase(j)..SlotBase(j) + FILL_OUTBOX_SLOT_LEN] == d[SlotBase(j)..SlotBase(j) + FILL_OUTBOX_SLOT_LEN]
    {
    }
  }

  method OutboxInit(data: array<byte>, market: Bytes32, cap: U32, bump: U8) returns (res: Result<(), FillOutboxError>)
    modifies data
    ensures res == if cap == 0 || data.Length != FillOutboxAccountLen(cap) then Failure(Corrupt) else Success(())
    ensures res.Failure? ==> data[..] == old(data[..])
    ensures res.Success? ==> Checked(data[..], market) && data[OFF_BUMP] == bump && CapOf(data[..]) == cap
    ensures res.Success? ==> View(data[..]) == Outbox(0, 0, SlotsOf(old(data[..]), cap))
  {
    if cap == 0 || data.Length != FillOutboxAccountLen(cap) {
      return Failure(Corrupt);
    }
    ghost var before := data[..];
    WriteAt(data, 0, FILL_OUTBOX_DISC);
    ghost var done := FILL_OUTBOX_DISC;
    done := WriteNext(data, 0, before, done, OFF_PRODUCED, Le64(0));
    done := WriteNext(data, 0, before, done, OFF_SETTLED, Le64(0));
    done := WriteNext(data, 0, before, done, OFF_CAP, Le32(cap));
    done := WriteNext(data, 0, before, done, OFF_BUMP, [bump]);
    done := WriteNext(data, 0, before, done, OFF_BUMP + 1, Zeros(3));
    done := WriteNext(data, 0, before, done, OFF_MARKET, market);
    ghost var d := data[..];
    assert d[0..64] == done;
    HeaderFields(d, market, cap, bump);
    Initialised(old(data[..]), d, market, cap);
    return Success(());
  }

  lemma HeaderFields(d: seq<byte>, market: Bytes32, cap: U32, bump: U8)
    requires |d| >= FILL_OUTBOX_HEADER_LEN
    requires d[0..64] == FILL_OUTBOX_DISC + Le64(0) + Le64(0) + Le32(cap) + [bump] + Zeros(3) + market
    ensures d[0..8] == FILL_OUTBOX_DISC && d[8..16] == Le64(0) && d[16..24] == Le64(0)
    ensures d[24..28] == Le32(cap) && d[OFF_BUMP] == bump && d[32..64] == market
  {
    var none: seq<byte> := [];
    var p1, zero, four, one := FILL_OUTBOX_DISC, Le64(0), Le32(cap), [bump];
    var p2, p3, p4, p5 := p1 + zero, p1 + zero + zero, p1 + zero + zero + four, p1 + zero + zero + four + one;
    var p6 := p5 + Zeros(3);
    assert d[..64] == p6 + market + none;
    FieldAt(d, p6, market, none);
    assert d[..32] == d[..64][..32] == p6;
    assert d[..29] == p6[..29] == p4 + one + none;
    FieldAt(d, p4, one, none);
    assert d[28] == d[28..29][0];
    assert d[..28] == (p4 + one)[..28] == p3 + four + none;
    FieldAt(d, p3, four, none);
    assert d[..24] == (p3 + four)[..24] == p2 + zero + none;
    FieldAt(d, p2, zero, none);
    assert d[..16] == (p2 + zero)[..16] == p1 + zero + none;
    FieldAt(d, p1, zero, none);
    assert d[0..8] == (p1 + zero)[..8];
  }

  lemma Initialised(d: seq<byte>, d': seq<byte>, market: Bytes32, cap: U32)
    requires cap > 0 && |d| == |d'| == FillOutboxAccountLen(cap)
    requires d'[0..8] == FILL_OUTBOX_DISC && d'[8..16] == Le64(0) && d'[16..24] == Le64(0)
    requires d'[24..28] == Le32(cap) && d'[32..64] == market
    requires forall i :: FILL_OUTBOX_HEADER_LEN <= i < |d| ==> d'[i] == d[i]
    ensures Checked(d', market) && CapOf(d') == cap && View(d') == Outbox(0, 0, SlotsOf(d, cap))
  {
    U32RoundTrip(cap);
    U64RoundTrip(0);
    SlotsFrame(d, d', cap);
  }

  method OutboxSetCap(data: array<byte>, newCap: U32)
    requires data.Length >= FILL_OUTBOX_HEADER_LEN
    modifies data
    ensures data[OFF_CAP..OFF_CAP + 4] == Le32(newCap)
    ensures OnlyAt(old(data[..]), data[..], OFF_CAP, 4)
  {
    WriteAt(data, OFF_CAP, Le32(newCap));
  }

  method OutboxSetCursors(data: array<byte>, ghost market: Bytes32, produced: U64, settled: U64)
    requires Checked(data[..], market)
    modifies data
    ensures Checked(data[..], market)
    ensures View(data[..]) == View(old(data[..])).(produced := produced, settled := settled)
  {
    ghost var d := data[..];
    WriteAt(data, OFF_PRODUCED, Le64(produced));
    WriteAt(data, OFF_SETTLED, Le64(settled));
    ghost var d' := data[..];
    assert d'[0..8] == d[0..8] && d'[OFF_CAP..OFF_CAP + 4] == d[OFF_CAP..OFF_CAP + 4];
    assert d'[OFF_MARKET..OFF_MARKET + 32] == d[OFF_MARKET..OFF_MARKET + 32];
    assert d'[OFF_PRODUCED..OFF_PRODUCED + 8] == Le64(produced);
    U64RoundTrip(produced);
    U64RoundTrip(settled);
    SlotsFrame(d, d', CapOf(d));
  }

  /** Write one record; nothing changes when the index or the buffer is out of range. */
  method OutboxWriteSlot(data: array<byte>, cap: U32, slotIndex: U64, slot: OutboxSlot)
    returns (res: Result<(), FillOutboxError>)
    modifies data
    ensures res == (if slotIndex >= cap then Failure(OutOfRange)
                    else if SlotBase(slotIndex) + FILL_OUTBOX_SLOT_LEN > data.Length then Failure(Corrupt)
                    else Success(()))
    ensures res.Failure? ==> data[..] == old(data[..])
    ensures res.Success? ==> OnlyAt(old(data[..]), data[..], SlotBase(slotIndex), FILL_OUTBOX_SLOT_LEN)
    ensures res.Success? ==> data[SlotBase(slotIndex)..SlotBase(slotIndex) + FILL_OUTBOX_SLOT_LEN] == EncodeSlot(slot)
    ensures data.Length >= FillOutboxAccountLen(cap) ==>
      && (slotIndex < cap ==> res.Success? && SlotsOf(data[..], cap) == SlotsOf(old(data[..]), cap)[slotIndex := slot])
      && data[..FILL_OUTBOX_HEADER_LEN] == old(data[..FILL_OUTBOX_HEADER_LEN])
  {
    if slotIndex >= cap {
      return Failure(OutOfRange);
    }
    var base := SlotBase(slotIndex);
    if base + FILL_OUTBOX_SLOT_LEN > data.Length {
      return Failure(Corrupt);
    }
    ghost var d := data[..];
    WriteRecord(data, base, slot);
    if data.Length >= FillOutboxAccountLen(cap) {
      SlotWritten(d, data[..], cap, slotIndex, slot);
      assert data[..FILL_OUTBOX_HEADER_LEN] == data[..][..FILL_OUTBOX_HEADER_LEN];
      assert d[..FILL_OUTBOX_HEADER_LEN] == old(data[..FILL_OUTBOX_HEADER_LEN]);
    }
    return Success(());
  }

  method WriteRecord(data: array<byte>, base: nat, slot: OutboxSlot)
    requires base + FILL_OUTBOX_SLOT_LEN <= data.Length
    modifies data
    ensures OnlyAt(old(data[..]), data[..], base, FILL_OUTBOX_SLOT_LEN)
    ensures data[base..base + FILL_OUTBOX_SLOT_LEN] == EncodeSlot(slot)
  {
    ghost var before := data[..];
    WriteAt(data, base, slot.taker);
    ghost var done := slot.taker;
    done := WriteNext(data, base, before, done, base + 32, slot.maker);
    done := WriteNext(data, base, before, done, base + 64, Le64(slot.sizeLots));
    done := WriteNext(data, base, before, done, base + 72, Le64(slot.priceTicks));
    done := WriteNext(data, base, before, done, base + 80, Le64(slot.makerId));
    done := WriteNext(data, base, before, done, base + 88,
                      [slot.takerSide, slot.takerSubIndex, slot.makerSubIndex, slot.takerWasJit]);
    done := WriteNext(data, base, before, done, base + 92, Zeros(4));
  }

  function OutboxReadSlot(d: seq<byte>, cap: U32, slotIndex: U64): (res: Result<OutboxSlot, FillOutboxError>)
    ensures |d| >= FillOutboxAccountLen(cap) && slotIndex < cap ==>
      res == Success(SlotsOf(d, cap)[slotIndex])
    ensures slotIndex >= cap ==> res == Failure(OutOfRange)
  {
    if slotIndex >= cap then Failure(OutOfRange)
    else if SlotBase(slotIndex) + FILL_OUTBOX_SLOT_LEN > |d| then Failure(Corrupt)
    else Success(DecodeSlot(d[SlotBase(slotIndex)..SlotBase(slotIndex) + FILL_OUTBOX_SLOT_LEN]))
  }

  // ----- growth -----

  datatype GrowError = NotValid(error: FillOutboxError) | NotDrained | Overflow | TooMuch

  /** Grow an outbox whose mirrored cursors are equal; records keep their places. */
  method GrowFillOutbox(data: array<byte>, market: Bytes32, additionalSlots: U32)
    returns (res: Result<array<byte>, GrowError>)
    ensures res.Success? <==>
      && additionalSlots > 0 && Checked(data[..], market) && OutboxProduced(data[..]) == OutboxSettled(data[..])
      && CapOf(data[..]) + additionalSlots < 0x1_0000_0000
      && additionalSlots * FILL_OUTBOX_SLOT_LEN <= MAX_PERMITTED_DATA_INCREASE
    ensures res.Success? ==>
      && fresh(res.value) && Checked(res.value[..], market)
      && CapOf(res.value[..]) == CapOf(data[..]) + additionalSlots
      && var o, o' := View(data[..]), View(res.value[..]);
         o'.produced == o.produced && o'.settled == o.settled && o'.slots[..|o.slots|] == o.slots
  {
    if additionalSlots == 0 {
      return Failure(TooMuch);
    }
    var check := OutboxCheck(data[..], market);
    if check.Failure? {
      return Failure(NotValid(check.error));
    }
    if OutboxProduced(data[..]) != OutboxSettled(data[..]) {
      return Failure(NotDrained);
    }
    if check.value + additionalSlots >= 0x1_0000_0000 {
      return Failure(Overflow);
    }
    var newCap: U32 := check.value + additionalSlots;
    if additionalSlots * FILL_OUTBOX_SLOT_LEN > MAX_PERMITTED_DATA_INCREASE {
      return Failure(TooMuch);
    }
    var grown := new byte[FillOutboxAccountLen(newCap)](_ => 0);
    for i := 0 to data.Length
      invariant forall j :: 0 <= j < i ==> grown[j] == data[j]
    {
      grown[i] := data[i];
    }
    OutboxSetCap(grown, newCap);
    GrownKeeps(data[..], grown[..], market, newCap);
    return Success(grown);
  }

  lemma GrownKeeps(d: seq<byte>, d': seq<byte>, market: Bytes32, newCap: U32)
    requires Checked(d, market) && newCap >= CapOf(d) && |d'| == FillOutboxAccountLen(newCap)
    requires d'[OFF_CAP..OFF_CAP + 4] == Le32(newCap)
    requires forall i :: 0 <= i < |d| && !(OFF_CAP <= i < OFF_CAP + 4) ==> d'[i] == d[i]
    ensures Checked(d', market) && CapOf(d') == newCap
    ensures OutboxProduced(d') == OutboxProduced(d) && OutboxSettled(d') == OutboxSettled(d)
    ensures View(d').slots[..CapOf(d)] == View(d).slots
  {
    U32RoundTrip(newCap);
    assert d'[0..8] == d[0..8] && d'[OFF_MARKET..OFF_MARKET + 32] == d[OFF_MARKET..OFF_MARKET + 32];
    assert d'[OFF_PRODUCED..OFF_PRODUCED + 8] == d[OFF_PRODUCED..OFF_PRODUCED + 8];
    assert d'[OFF_SETTLED..OFF_SETTLED + 8] == d[OFF_SETTLED..OFF_SETTLED + 8];
    SlotsFrame(d, d', CapOf(d));
    assert SlotsOf(d', newCap)[..CapOf(d)] == SlotsOf(d', CapOf(d));
  }
}
