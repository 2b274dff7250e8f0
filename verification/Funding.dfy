/** Funding: what cranks can move the index by over one period, and what positions
    owe between them over one index window. */
module Funding {
  import opened Arithmetic
  import opened Bytes
  import opened Wrappers

  const FUNDING_INDEX_ONE := 0x1_0000
  datatype FundingError = Overflow | Underflow

  function Clamp(x: int, bound: nat): (r: int)
    ensures Abs(r) <= bound
  {
    if x < 0 - bound then 0 - bound else if x > bound then bound else x
  }

  /** Division that rounds toward zero. */
  function Quot(a: int, b: int): int
    requires b > 0
  {
    if a >= 0 then a / b else -(-a / b)
  }

  function SaturatingMul(a: nat, b: nat): (r: nat)
    ensures r <= I128_MAX
  {
    if a * b > I128_MAX then I128_MAX else a * b
  }

  function PeriodOf(periodSeconds: U32): (p: nat)
    ensures p >= 1
  {
    if periodSeconds == 0 then 1 else periodSeconds
  }

  function Elapsed(dtSeconds: U64, periodSeconds: U32): nat {
    Min(dtSeconds, PeriodOf(periodSeconds))
  }

  // ----- the smoothed rate -----

  function InstantRate(mark: U64, oracle: U64, kBps: U32, rateMax: U32): int
    requires oracle > 0
  {
    Clamp(Quot((mark - oracle) * kBps, oracle), rateMax)
  }

  /** The prior rate moved toward the instant one by the share of the window elapsed. */
  function SmoothedRate(instant: int, prev: I64, dt: nat, window: nat, rateMax: U32): int {
    if window == 0 || dt >= window then Clamp(instant, rateMax)
    else Clamp(prev + Quot((instant - prev) * dt, window), rateMax)
  }

  datatype FundingInput = FundingInput(
    mark: U64, oracle: U64, dtSeconds: U64, kBps: U32, rateMax: U32,
    periodSeconds: U32, prev: I64, windowPeriods: U8, tickSize: U64)

  /** No anchor, or no time: nothing accrues. */
  predicate Idle(x: FundingInput) {
    x.oracle == 0 || x.dtSeconds == 0
  }

  function Instant(x: FundingInput): int
    requires !Idle(x)
  {
    InstantRate(x.mark, x.oracle, x.kBps, x.rateMax)
  }

  function NextRate(x: FundingInput): int
    requires !Idle(x)
  {
    SmoothedRate(Instant(x), x.prev, Elapsed(x.dtSeconds, x.periodSeconds),
                 x.windowPeriods * PeriodOf(x.periodSeconds), x.rateMax)
  }

  /** The move of the index, and the new smoothed rate. */
  function FundingIndexDeltaSmoothed(x: FundingInput): Result<(int, int), FundingError> {
    if Idle(x) then Success((0, x.prev))
    else if !InI128((x.mark - x.oracle) * x.kBps) then Failure(Overflow)
    else
      var rate, dt, notional := NextRate(x), Elapsed(x.dtSeconds, x.periodSeconds), x.mark * x.tickSize;
      if !InI128(notional) || !InI128(rate * dt * notional) || !InI128(rate * dt * notional * FUNDING_INDEX_ONE) then
        Failure(Overflow)
      else Success((Quot(rate * dt * notional * FUNDING_INDEX_ONE, BPS_DENOM), rate))
  }

  lemma QuotBounds(a: int, b: int)
    requires b > 0
    ensures a >= 0 ==> 0 <= Quot(a, b) && Quot(a, b) * b <= a < Quot(a, b) * b + b
    ensures a <= 0 ==> Quot(a, b) <= 0 && Quot(a, b) * b - b < a <= Quot(a, b) * b
  {
  }

  /** The index moves only when time passes on a known price; then the rate is within
      its cap and no farther from the instant rate than the prior one, and the move is
      the rate's charge on the notional over at most one period, rounded toward zero
      by less than one unit. */
  lemma DeltaBounded(x: FundingInput)
    requires FundingIndexDeltaSmoothed(x).Success?
    ensures var (delta, rate) := FundingIndexDeltaSmoothed(x).value;
      if Idle(x) then delta == 0 && rate == x.prev
      else
        && Abs(rate) <= x.rateMax && Abs(rate - Instant(x)) <= Abs(x.prev - Instant(x))
        && Abs(rate * ChargePerBps(x) - delta * BPS_DENOM) < BPS_DENOM
        && Abs(delta) * BPS_DENOM <= Abs(rate) * ChargePerBps(x) <= x.rateMax * ChargePerBps(x)
        && (rate >= 0 ==> delta >= 0) && (rate <= 0 ==> delta <= 0)
  {
    if !Idle(x) {
      DeltaIsCharge(x);
      SmoothedBetween(Instant(x), x.prev, Elapsed(x.dtSeconds, x.periodSeconds),
                      x.windowPeriods * PeriodOf(x.periodSeconds), x.rateMax);
      RoundedCharge(NextRate(x), ChargePerBps(x), x.rateMax);
      hide FundingIndexDeltaSmoothed, SmoothedRate, InstantRate, ChargePerBps, Quot, Abs;
    }
  }

  lemma DeltaIsCharge(x: FundingInput)
    requires FundingIndexDeltaSmoothed(x).Success? && !Idle(x)
    ensures FundingIndexDeltaSmoothed(x).value == (Quot(NextRate(x) * ChargePerBps(x), BPS_DENOM), NextRate(x))
  {
    hide NextRate, Quot, InI128;
    ChargeRegroup(NextRate(x), Elapsed(x.dtSeconds, x.periodSeconds), x.mark * x.tickSize);
  }

  lemma RoundedCharge(rate: int, charge: nat, rateMax: nat)
    requires Abs(rate) <= rateMax
    ensures var delta := Quot(rate * charge, BPS_DENOM);
      && Abs(rate * charge - delta * BPS_DENOM) < BPS_DENOM
      && Abs(delta) * BPS_DENOM <= Abs(rate) * charge <= rateMax * charge
      && (rate >= 0 ==> delta >= 0) && (rate <= 0 ==> delta <= 0)
  {
    QuotBounds(rate * charge, BPS_DENOM);
    Scale(charge, Abs(rate), rateMax);
    Scale(charge, 0, Abs(rate));
    assert rate * charge == if rate >= 0 then charge * Abs(rate) else -(charge * Abs(rate));
  }

  /** What one basis point per second moves the index by, times BPS_DENOM. */
  function ChargePerBps(x: FundingInput): nat {
    Elapsed(x.dtSeconds, x.periodSeconds) * (x.mark * x.tickSize) * FUNDING_INDEX_ONE
  }

  lemma ChargeRegroup(rate: int, dt: nat, notional: nat)
    ensures rate * dt * notional * FUNDING_INDEX_ONE == rate * (dt * notional * FUNDING_INDEX_ONE)
  {
    assert rate * (dt * notional * FUNDING_INDEX_ONE) == rate * (dt * notional) * FUNDING_INDEX_ONE;
  }

  lemma QuotShrinks(x: int, dt: nat, window: nat)
    requires dt < window
    ensures x >= 0 ==> 0 <= Quot(x * dt, window) <= x
    ensures x <= 0 ==> x <= Quot(x * dt, window) <= 0
  {
    if x >= 0 {
      QuotUpTo(x, dt, window);
    } else {
      QuotUpTo(-x, dt, window);
      assert -x * dt == -(x * dt);
    }
  }

  lemma QuotUpTo(x: nat, dt: nat, window: nat)
    requires dt < window
    ensures x * dt >= 0 && 0 <= x * dt / window <= x
  {
    Scale(x, dt, window);
    FloorBounds(x * dt, window);
    AtMost(x * dt / window, x, window);
  }

  /** The smoothed rate keeps the cap, and lies between the prior rate and the instant
      one: a momentary premium never overshoots it. */
  lemma SmoothedBetween(instant: int, prev: I64, dt: nat, window: nat, rateMax: U32)
    requires Abs(instant) <= rateMax
    ensures var r := SmoothedRate(instant, prev, dt, window, rateMax);
      && Abs(r) <= rateMax && Abs(r - instant) <= Abs(prev - instant)
      && (Abs(prev) <= rateMax ==> Min(prev, instant) <= r <= prev + instant - Min(prev, instant))
  {
    if window > 0 && dt < window {
      QuotShrinks(instant - prev, dt, window);
    }
  }

  /** The premium of the mark over the oracle price. */
  function Premium(x: FundingInput): int {
    x.mark - x.oracle
  }

  /** The instant rate is on the side of the premium: the floor of its size times the
      gain over the price, or the cap on that side when that is less. Longs pay, with a
      positive rate, exactly when the mark is above the oracle price. */
  lemma InstantExact(x: FundingInput)
    requires !Idle(x)
    ensures var rate, p := Instant(x), Premium(x);
      && Abs(rate) <= x.rateMax && (p >= 0 ==> rate >= 0) && (p <= 0 ==> rate <= 0)
      && (Abs(rate) < x.rateMax ==> Abs(rate) * x.oracle <= Abs(p) * x.kBps < (Abs(rate) + 1) * x.oracle)
      && (Abs(rate) == x.rateMax ==> x.rateMax * x.oracle <= Abs(p) * x.kBps)
  {
    var p := Premium(x);
    QuotExact(p, x.kBps, x.oracle);
    Scale(x.oracle, x.rateMax, Max(x.rateMax, Abs(Quot(p * x.kBps, x.oracle))));
    hide Quot;
  }

  /** The quotient of a product has the sign of its factor, and the floor of its size. */
  lemma QuotExact(p: int, k: nat, d: nat)
    requires d > 0
    ensures var q := Quot(p * k, d);
      (p >= 0 ==> q >= 0) && (p <= 0 ==> q <= 0) && Abs(q) * d <= Abs(p) * k < (Abs(q) + 1) * d
  {
    SignedProduct(p, k);
    QuotBounds(p * k, d);
    SignedProduct(Quot(p * k, d), d);
    Succ(Abs(Quot(p * k, d)), d);
    hide Quot;
  }

  lemma SignedProduct(p: int, k: nat)
    ensures p >= 0 ==> p * k == Abs(p) * k >= 0
    ensures p <= 0 ==> p * k == -(Abs(p) * k) <= 0
  {
  }

  lemma Succ(a: nat, b: nat)
    ensures (a + 1) * b == a * b + b
  {
  }

  /** With no window, or a whole one elapsed, the new rate is the instant one; otherwise
      the prior rate moves toward it by the floor of the elapsed share of the gap, and
      is then held to the cap. */
  lemma SmoothedExact(x: FundingInput)
    requires !Idle(x)
    ensures var window, dt := x.windowPeriods * PeriodOf(x.periodSeconds), Elapsed(x.dtSeconds, x.periodSeconds);
      var rate, gap := NextRate(x), Instant(x) - x.prev;
      if window <= dt then rate == Instant(x)
      else exists move: int ::
        && rate == Clamp(x.prev + move, x.rateMax)
        && (gap >= 0 ==> move >= 0) && (gap <= 0 ==> move <= 0)
        && Abs(move) * window <= Abs(gap) * dt < (Abs(move) + 1) * window
  {
    var window, dt := x.windowPeriods * PeriodOf(x.periodSeconds), Elapsed(x.dtSeconds, x.periodSeconds);
    var gap := Instant(x) - x.prev;
    if dt < window {
      var move := Quot(gap * dt, window);
      QuotExact(gap, dt, window);
      hide Quot, Instant;
    }
  }

  /** The crank fails exactly when the notional of a lot, or the charge at the new rate,
      does not fit 128 bits; the rate itself always does. */
  lemma DeltaSucceeds(x: FundingInput)
    ensures FundingIndexDeltaSmoothed(x).Success? <==>
      Idle(x) || (InI128(x.mark * x.tickSize) && InI128(NextRate(x) * ChargePerBps(x)))
    ensures FundingIndexDeltaSmoothed(x).Failure? ==> FundingIndexDeltaSmoothed(x).error == Overflow
  {
    if !Idle(x) {
      var rate, dt, notional := NextRate(x), Elapsed(x.dtSeconds, x.periodSeconds), x.mark * x.tickSize;
      PremiumFits(x);
      ChargeRegroup(rate, dt, notional);
      Scale(x.mark, 0, x.tickSize);
      Widens(rate * dt * notional, FUNDING_INDEX_ONE);
      hide NextRate, InI128;
    }
  }

  lemma PremiumFits(x: FundingInput)
    ensures InI128(Premium(x) * x.kBps)
  {
    SignedProduct(Premium(x), x.kBps);
    Scale(Abs(Premium(x)), x.kBps, 0x1_0000_0000);
    Scale(0x1_0000_0000, Abs(Premium(x)), U64_MAX);
  }

  lemma Widens(a: int, k: nat)
    requires k > 0
    ensures InI128(a * k) ==> InI128(a)
  {
    SignedProduct(a, k);
    Scale(Abs(a), 1, k);
  }

  // ----- the per-period backstop -----

  function PeriodCap(perPeriodMaxBps: U32, dtSeconds: U64, periodSeconds: U32, notionalPerLot: U128): nat {
    var scaled := SaturatingMul(SaturatingMul(SaturatingMul(perPeriodMaxBps, Min(notionalPerLot, I128_MAX)),
                                              FUNDING_INDEX_ONE), Elapsed(dtSeconds, periodSeconds));
    Share(scaled, BPS_DENOM * PeriodOf(periodSeconds))
  }

  function Share(a: nat, parts: nat): (s: nat)
    requires parts > 0
    ensures s * parts <= a
  {
    FloorBounds(a, parts);
    a / parts
  }

  function ClampDeltaToPeriodCap(delta: int, perPeriodMaxBps: U32, dtSeconds: U64, periodSeconds: U32,
                                 notionalPerLot: U128): int {
    if perPeriodMaxBps == 0 then delta
    else Clamp(delta, PeriodCap(perPeriodMaxBps, dtSeconds, periodSeconds, notionalPerLot))
  }

  /** A delta within the cap passes unchanged, one beyond it becomes the cap on its own
      side; a cap of zero basis points stands for none. */
  lemma ClampExact(delta: int, bps: U32, dtSeconds: U64, period: U32, notional: U128)
    ensures var r, cap := ClampDeltaToPeriodCap(delta, bps, dtSeconds, period, notional),
                          PeriodCap(bps, dtSeconds, period, notional);
      && (bps == 0 || Abs(delta) <= cap ==> r == delta)
      && (bps > 0 && Abs(delta) > cap ==> Abs(r) == cap && (delta > 0 ==> r >= 0) && (delta < 0 ==> r <= 0))
  {
  }

  /** The cap is the floor of its share of the period, as long as that fits 128 bits. */
  lemma CapExact(bps: U32, dtSeconds: U64, period: U32, notional: U128)
    requires notional <= I128_MAX
    requires bps * notional * FUNDING_INDEX_ONE * Elapsed(dtSeconds, period) <= I128_MAX
    ensures var cap, parts, whole := PeriodCap(bps, dtSeconds, period, notional), BPS_DENOM * PeriodOf(period),
                                     bps * notional * FUNDING_INDEX_ONE * Elapsed(dtSeconds, period);
      cap * parts <= whole < (cap + 1) * parts
  {
    var e, parts := Elapsed(dtSeconds, period), BPS_DENOM * PeriodOf(period);
    var a := bps * notional;
    Scale(bps, 0, notional);
    if e > 0 {
      Scale(a * FUNDING_INDEX_ONE, 1, e);
      assert SaturatingMul(bps, notional) == a;
      assert SaturatingMul(a, FUNDING_INDEX_ONE) == a * FUNDING_INDEX_ONE;
    } else {
      assert a * FUNDING_INDEX_ONE * e == 0;
    }
    FloorBounds(a * FUNDING_INDEX_ONE * e, parts);
    Succ(PeriodCap(bps, dtSeconds, period, notional), parts);
  }

  datatype Crank = Crank(delta: int, dtSeconds: U64, notionalPerLot: U128)

  /** What the cranks move the index by, together. */
  function IndexMove(cranks: seq<Crank>, bps: U32, period: U32): int {
    if cranks == [] then 0
    else
      var c := cranks[|cranks| - 1];
      IndexMove(cranks[..|cranks| - 1], bps, period)
      + ClampDeltaToPeriodCap(c.delta, bps, c.dtSeconds, period, c.notionalPerLot)
  }

  function TotalTime(cranks: seq<Crank>): nat {
    if cranks == [] then 0 else TotalTime(cranks[..|cranks| - 1]) + cranks[|cranks| - 1].dtSeconds
  }

  function RawMove(cranks: seq<Crank>): int {
    if cranks == [] then 0 else RawMove(cranks[..|cranks| - 1]) + cranks[|cranks| - 1].delta
  }

  /** Cranks whose deltas are within their caps move the index by exactly their sum. */
  lemma {:induction false} WithinCaps(cranks: seq<Crank>, bps: U32, period: U32)
    requires forall i :: 0 <= i < |cranks| ==>
      bps == 0 || Abs(cranks[i].delta) <= PeriodCap(bps, cranks[i].dtSeconds, period, cranks[i].notionalPerLot)
    ensures IndexMove(cranks, bps, period) == RawMove(cranks)
  {
    if cranks != [] {
      var c := cranks[|cranks| - 1];
      WithinCaps(cranks[..|cranks| - 1], bps, period);
      ClampExact(c.delta, bps, c.dtSeconds, period, c.notionalPerLot);
      hide PeriodCap, ClampDeltaToPeriodCap;
    }
  }

  lemma CapProRated(bps: U32, dtSeconds: U64, period: U32, notional: U128, largest: U128)
    requires notional <= largest
    ensures PeriodCap(bps, dtSeconds, period, notional) * (BPS_DENOM * PeriodOf(period))
         <= bps * largest * FUNDING_INDEX_ONE * dtSeconds
  {
    var n, e := Min(notional, I128_MAX), Elapsed(dtSeconds, period);
    var a := SaturatingMul(bps, n);
    var b := SaturatingMul(a, FUNDING_INDEX_ONE);
    var c := SaturatingMul(b, e);
    assert PeriodCap(bps, dtSeconds, period, notional) == Share(c, BPS_DENOM * PeriodOf(period));
    Scale(bps, n, largest);
    Scale(e, b, bps * largest * FUNDING_INDEX_ONE);
    Scale(bps * largest * FUNDING_INDEX_ONE, e, dtSeconds);
  }

  lemma {:induction false} MoveProRated(cranks: seq<Crank>, bps: U32, period: U32, largest: U128)
    requires bps > 0 && forall i :: 0 <= i < |cranks| ==> cranks[i].notionalPerLot <= largest
    ensures Abs(IndexMove(cranks, bps, period)) * (BPS_DENOM * PeriodOf(period))
         <= bps * largest * FUNDING_INDEX_ONE * TotalTime(cranks)
  {
    if cranks == [] {
    } else {
      var rest, c := cranks[..|cranks| - 1], cranks[|cranks| - 1];
      MoveProRated(rest, bps, period, largest);
      CapProRated(bps, c.dtSeconds, period, c.notionalPerLot, largest);
      var cap := PeriodCap(bps, c.dtSeconds, period, c.notionalPerLot);
      Combine(IndexMove(rest, bps, period), ClampDeltaToPeriodCap(c.delta, bps, c.dtSeconds, period, c.notionalPerLot),
              cap, BPS_DENOM * PeriodOf(period), bps * largest * FUNDING_INDEX_ONE, TotalTime(rest), c.dtSeconds);
    }
  }

  lemma Combine(x: int, y: int, cap: nat, d: nat, rate: nat, t: nat, dt: nat)
    requires Abs(y) <= cap && Abs(x) * d <= rate * t && cap * d <= rate * dt
    ensures Abs(x + y) * d <= rate * (t + dt)
  {
    assert Abs(x + y) <= Abs(x) + cap;
    Scale(d, Abs(x + y), Abs(x) + cap);
    assert d * (Abs(x) + cap) == Abs(x) * d + cap * d;
    assert rate * (t + dt) == rate * t + rate * dt;
  }

  /** Cranks whose times sum to at most one period move the index, together, by at most
      the full-period cap at the largest notional, whatever their raw deltas. */
  lemma PeriodBounded(cranks: seq<Crank>, bps: U32, period: U32, largest: U128)
    requires bps > 0 && forall i :: 0 <= i < |cranks| ==> cranks[i].notionalPerLot <= largest
    requires TotalTime(cranks) <= PeriodOf(period)
    ensures Abs(IndexMove(cranks, bps, period)) * BPS_DENOM <= bps * largest * FUNDING_INDEX_ONE
  {
    MoveProRated(cranks, bps, period, largest);
    Scale(bps, 0, largest);
    OnePeriod(Abs(IndexMove(cranks, bps, period)), bps * largest * FUNDING_INDEX_ONE,
              TotalTime(cranks), PeriodOf(period));
  }

  lemma OnePeriod(x: nat, rate: nat, t: nat, p: nat)
    requires p >= 1 && t <= p && x * (BPS_DENOM * p) <= rate * t
    ensures x * BPS_DENOM <= rate
  {
    Scale(rate, t, p);
    assert x * (BPS_DENOM * p) == x * BPS_DENOM * p;
    AtMost(x * BPS_DENOM, rate, p);
  }

  // ----- what positions owe -----

  /** The arithmetic shift: division that rounds toward minus infinity. */
  function Shifted(x: int): (r: int)
    ensures r * FUNDING_INDEX_ONE <= x < r * FUNDING_INDEX_ONE + FUNDING_INDEX_ONE
  {
    x / FUNDING_INDEX_ONE
  }

  function FundingOwed(isLong: bool, sizeLots: U64, indexNow: int, indexAtEntry: int): Result<int, FundingError> {
    var delta := indexNow - indexAtEntry;
    if !InI128(delta) then Failure(Underflow)
    else if !InI128(sizeLots * delta) then Failure(Overflow)
    else Success(if isLong then Shifted(sizeLots * delta) else -Shifted(sizeLots * delta))
  }

  /** A position is charged unless the move of the index, or its product with the lots,
      does not fit 128 bits. A long owes the charge rounded down, a short the negative
      of it: a rise of the index is paid by longs. */
  lemma OwedExact(isLong: bool, sizeLots: U64, now: int, entry: int)
    ensures var r, charge := FundingOwed(isLong, sizeLots, now, entry), sizeLots * (now - entry);
      && (r.Success? <==> InI128(now - entry) && InI128(charge))
      && (r.Success? && isLong ==> r.value * FUNDING_INDEX_ONE <= charge < (r.value + 1) * FUNDING_INDEX_ONE)
      && (r.Success? && !isLong ==> (r.value - 1) * FUNDING_INDEX_ONE < 0 - charge <= r.value * FUNDING_INDEX_ONE)
  {
  }

  datatype Position = Position(isLong: bool, sizeLots: U64)

  function LotsOn(ps: seq<Position>, long: bool): nat {
    if ps == [] then 0
    else LotsOn(ps[..|ps| - 1], long) + if ps[|ps| - 1].isLong == long then ps[|ps| - 1].sizeLots else 0
  }

  function CountOn(ps: seq<Position>, long: bool): nat {
    if ps == [] then 0
    else CountOn(ps[..|ps| - 1], long) + if ps[|ps| - 1].isLong == long then 1 else 0
  }

  ghost predicate AllCharged(ps: seq<Position>, now: int, entry: int) {
    forall i :: 0 <= i < |ps| ==> FundingOwed(ps[i].isLong, ps[i].sizeLots, now, entry).Success?
  }

  function TotalOwed(ps: seq<Position>, now: int, entry: int): int {
    if ps == [] then 0
    else
      var p := ps[|ps| - 1];
      TotalOwed(ps[..|ps| - 1], now, entry)
      + match FundingOwed(p.isLong, p.sizeLots, now, entry) case Success(x) => x case Failure(_) => 0
  }

  /** The total differs from the exact one by what each side's rounding can take. */
  lemma {:induction false} OwedBounds(ps: seq<Position>, now: int, entry: int)
    requires AllCharged(ps, now, entry)
    ensures var exact := (LotsOn(ps, true) - LotsOn(ps, false)) * (now - entry);
      var total := TotalOwed(ps, now, entry) * FUNDING_INDEX_ONE;
      && exact - FUNDING_INDEX_ONE * CountOn(ps, true) <= total <= exact + FUNDING_INDEX_ONE * CountOn(ps, false)
      && (CountOn(ps, true) > 0 ==> total > exact - FUNDING_INDEX_ONE * CountOn(ps, true))
      && (CountOn(ps, false) > 0 ==> total < exact + FUNDING_INDEX_ONE * CountOn(ps, false))
  {
    if ps != [] {
      var rest, p := ps[..|ps| - 1], ps[|ps| - 1];
      OwedBounds(rest, now, entry);
      assert FundingOwed(p.isLong, p.sizeLots, now, entry).Success?;
      var d := now - entry;
      Distribute(LotsOn(rest, true), LotsOn(rest, false), p.sizeLots, d);
    }
  }

  lemma Distribute(long: int, short: int, s: int, d: int)
    ensures (long + s - short) * d == (long - short) * d + s * d
    ensures (long - (short + s)) * d == (long - short) * d - s * d
  {
  }

  /** With equal lots on both sides, funding nets to between minus the number of longs
      and plus the number of shorts, in quote lots. */
  lemma FundingNets(ps: seq<Position>, now: int, entry: int)
    requires AllCharged(ps, now, entry) && LotsOn(ps, true) == LotsOn(ps, false)
    ensures CountOn(ps, true) > 0 ==> TotalOwed(ps, now, entry) + CountOn(ps, true) > 0
    ensures CountOn(ps, false) > 0 ==> TotalOwed(ps, now, entry) < CountOn(ps, false)
    ensures 0 - CountOn(ps, true) <= TotalOwed(ps, now, entry) <= CountOn(ps, false)
  {
    OwedBounds(ps, now, entry);
    hide TotalOwed, LotsOn, CountOn, AllCharged;
    Nothing(LotsOn(ps, true), LotsOn(ps, false), now - entry);
    NetInts(TotalOwed(ps, now, entry), CountOn(ps, true), CountOn(ps, false));
  }

  lemma Nothing(long: int, short: int, d: int)
    requires long == short
    ensures (long - short) * d == 0
  {
  }

  lemma NetInts(total: int, longs: nat, shorts: nat)
    requires 0 - FUNDING_INDEX_ONE * longs <= total * FUNDING_INDEX_ONE <= FUNDING_INDEX_ONE * shorts
    ensures 0 - longs <= total <= shorts
    ensures total * FUNDING_INDEX_ONE > 0 - FUNDING_INDEX_ONE * longs ==> total + longs > 0
    ensures total * FUNDING_INDEX_ONE < FUNDING_INDEX_ONE * shorts ==> total < shorts
  {
  }
}
