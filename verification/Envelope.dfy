/** The solvency envelope of a market's parameters: three probes stand for every
    notional up to a bound, exactly up to rounding. */
module Envelope {
  import opened Arithmetic
  import opened Bytes
  import opened Wrappers

  const FUNDING_DEN := 1_000_000_000
  const LOSS_DEN := BPS_DENOM * FUNDING_DEN
  const MAX_ACCOUNT_NOTIONAL_LOTS := 1_000_000_000_000_000
  const ABS_MAX_PRICE_MOVE_BPS_PER_SLOT := 1_000
  const ABS_MAX_ACCRUAL_DT_SLOTS := 10_000
  const ABS_MAX_FUNDING_E9_PER_SLOT := 10_000

  datatype EnvelopeParams = EnvelopeParams(
    maxPriceMoveBpsPerSlot: U32, maxAccrualDtSlots: U64, maxAbsFundingE9PerSlot: I64,
    maintenanceBps: U32, liquidationFeeBps: U32, minLiquidationAbsLots: U64, minNonzeroMmReqLots: U64)

  const DEFAULT := EnvelopeParams(14, 100, 10_000, 3_000, 50, 1, 100)

  datatype EnvelopeError =
    | PriceCapZero | PriceCapTooLarge | AccrualDtZero | AccrualDtTooLarge | FundingCapTooLarge
    | MaintenanceZero | MaintenanceTooLarge | LiqFeeTooLarge | Overflow
    | EnvelopeViolated(n: nat, loss: nat, fee: nat, mm: nat)

  // ----- the budgets -----

  function PriceBudget(p: EnvelopeParams): nat {
    p.maxPriceMoveBpsPerSlot * p.maxAccrualDtSlots
  }

  function LossBudget(p: EnvelopeParams): nat {
    PriceBudget(p) * FUNDING_DEN + Abs(p.maxAbsFundingE9PerSlot) * p.maxAccrualDtSlots * BPS_DENOM
  }

  function Breakpoint(p: EnvelopeParams): nat {
    if p.maintenanceBps == 0 then 0 else p.minNonzeroMmReqLots * BPS_DENOM / p.maintenanceBps
  }

  function LossOf(budget: nat, n: nat): nat {
    CeilDiv(n * budget, LOSS_DEN)
  }

  function WorstOf(priceBudget: nat, n: nat): nat {
    CeilDiv(n * (BPS_DENOM + priceBudget), BPS_DENOM)
  }

  function RawFeeOf(priceBudget: nat, feeBps: nat, n: nat): nat {
    CeilDiv(WorstOf(priceBudget, n) * feeBps, BPS_DENOM)
  }

  function Loss(p: EnvelopeParams, n: nat): nat {
    LossOf(LossBudget(p), n)
  }

  function RawFee(p: EnvelopeParams, n: nat): nat {
    RawFeeOf(PriceBudget(p), p.liquidationFeeBps, n)
  }

  function Fee(p: EnvelopeParams, n: nat): nat {
    Max(RawFee(p, n), p.minLiquidationAbsLots)
  }

  function MmReq(p: EnvelopeParams, n: nat): nat {
    Max(n * p.maintenanceBps / BPS_DENOM, p.minNonzeroMmReqLots)
  }

  /** What an account of notional n can lose in one window is covered. */
  predicate Solvent(p: EnvelopeParams, n: nat) {
    Loss(p, n) + Fee(p, n) <= MmReq(p, n)
  }

  // ----- the check -----

  predicate CapsOk(p: EnvelopeParams) {
    && 0 < p.maxPriceMoveBpsPerSlot <= ABS_MAX_PRICE_MOVE_BPS_PER_SLOT
    && 0 < p.maxAccrualDtSlots <= ABS_MAX_ACCRUAL_DT_SLOTS
    && Abs(p.maxAbsFundingE9PerSlot) <= ABS_MAX_FUNDING_E9_PER_SLOT
    && 0 < p.maintenanceBps < BPS_DENOM && p.liquidationFeeBps < BPS_DENOM
  }

  /** No intermediate product of the probe at n overflows. */
  predicate ProbeFits(p: EnvelopeParams, n: nat) {
    && n * LossBudget(p) <= U128_MAX && n * (BPS_DENOM + PriceBudget(p)) <= U128_MAX
    && WorstOf(PriceBudget(p), n) * p.liquidationFeeBps <= U128_MAX
    && n * p.maintenanceBps <= U128_MAX && Loss(p, n) + Fee(p, n) <= U128_MAX
  }

  function Probe(p: EnvelopeParams, n: nat): Result<(), EnvelopeError> {
    if n == 0 then Success(())
    else if !ProbeFits(p, n) then Failure(Overflow)
    else if !Solvent(p, n) then Failure(EnvelopeViolated(n, Loss(p, n), Fee(p, n), MmReq(p, n)))
    else Success(())
  }

  function ProveEnvelope(p: EnvelopeParams): Result<(), EnvelopeError> {
    if p.maxPriceMoveBpsPerSlot == 0 then Failure(PriceCapZero)
    else if p.maxPriceMoveBpsPerSlot > ABS_MAX_PRICE_MOVE_BPS_PER_SLOT then Failure(PriceCapTooLarge)
    else if p.maxAccrualDtSlots == 0 then Failure(AccrualDtZero)
    else if p.maxAccrualDtSlots > ABS_MAX_ACCRUAL_DT_SLOTS then Failure(AccrualDtTooLarge)
    else if Abs(p.maxAbsFundingE9PerSlot) > ABS_MAX_FUNDING_E9_PER_SLOT then Failure(FundingCapTooLarge)
    else if p.maintenanceBps == 0 then Failure(MaintenanceZero)
    else if p.maintenanceBps >= BPS_DENOM then Failure(MaintenanceTooLarge)
    else if p.liquidationFeeBps >= BPS_DENOM then Failure(LiqFeeTooLarge)
    else
      match Probe(p, 1)
      case Failure(e) => Failure(e)
      case Success(_) =>
        match Probe(p, Breakpoint(p))
        case Failure(e) => Failure(e)
        case Success(_) => Probe(p, MAX_ACCOUNT_NOTIONAL_LOTS)
  }

  lemma AcceptedProbes(p: EnvelopeParams)
    requires ProveEnvelope(p).Success?
    ensures CapsOk(p) && Solvent(p, 1) && Solvent(p, MAX_ACCOUNT_NOTIONAL_LOTS)
    ensures Breakpoint(p) > 0 ==> Solvent(p, Breakpoint(p))
  {
    hide Solvent, ProbeFits, Breakpoint;
  }

  // ----- rounding -----

  /** x over b, rounded up, is the least that covers x. */
  lemma CeilLeast(a: nat, b: nat, c: nat)
    requires b > 0 && a <= c * b
    ensures CeilDiv(a, b) <= c
  {
    CeilBounds(a, b);
    Above(CeilDiv(a, b), c, b);
  }

  lemma CeilMonotone(a: nat, a': nat, b: nat)
    requires b > 0 && a <= a'
    ensures CeilDiv(a, b) <= CeilDiv(a', b)
  {
    CeilBounds(a', b);
    CeilLeast(a, b, CeilDiv(a', b));
  }

  lemma LossMonotone(budget: nat, n: nat, n': nat)
    requires n <= n'
    ensures LossOf(budget, n) <= LossOf(budget, n')
  {
    Scale(budget, n, n');
    CeilMonotone(n * budget, n' * budget, LOSS_DEN);
  }

  lemma RawFeeMonotone(priceBudget: nat, feeBps: nat, n: nat, n': nat)
    requires n <= n'
    ensures RawFeeOf(priceBudget, feeBps, n) <= RawFeeOf(priceBudget, feeBps, n')
  {
    Scale(BPS_DENOM + priceBudget, n, n');
    CeilMonotone(n * (BPS_DENOM + priceBudget), n' * (BPS_DENOM + priceBudget), BPS_DENOM);
    Scale(feeBps, WorstOf(priceBudget, n), WorstOf(priceBudget, n'));
    CeilMonotone(WorstOf(priceBudget, n) * feeBps, WorstOf(priceBudget, n') * feeBps, BPS_DENOM);
  }

  // ----- what the numbers are -----

  /** The loss is the least number of lots that covers a price move at the cap over the
      whole window, in basis points, and the funding at its cap, in billionths. */
  lemma LossExact(p: EnvelopeParams, n: nat)
    ensures var moved := p.maxPriceMoveBpsPerSlot * FUNDING_DEN + Abs(p.maxAbsFundingE9PerSlot) * BPS_DENOM;
      (Loss(p, n) - 1) * LOSS_DEN < n * (p.maxAccrualDtSlots * moved) <= Loss(p, n) * LOSS_DEN
  {
    var dt, move, funding := p.maxAccrualDtSlots, p.maxPriceMoveBpsPerSlot, Abs(p.maxAbsFundingE9PerSlot);
    Budget(move, funding, dt);
    assert LossBudget(p) == dt * (move * FUNDING_DEN + funding * BPS_DENOM);
    Scale(n, 0, LossBudget(p));
    CeilBounds(n * LossBudget(p), LOSS_DEN);
    assert (Loss(p, n) - 1) * LOSS_DEN == Loss(p, n) * LOSS_DEN - LOSS_DEN;
  }

  lemma Budget(move: nat, funding: nat, dt: nat)
    ensures move * dt * FUNDING_DEN + funding * dt * BPS_DENOM == dt * (move * FUNDING_DEN + funding * BPS_DENOM)
  {
  }

  /** The fee is charged, rounded up, on the notional after the worst move, itself rounded
      up, and is at least the minimum. */
  lemma FeeExact(p: EnvelopeParams, n: nat) returns (worst: nat)
    ensures var moved := n * (BPS_DENOM + p.maxPriceMoveBpsPerSlot * p.maxAccrualDtSlots);
      (worst - 1) * BPS_DENOM < moved <= worst * BPS_DENOM
    ensures Fee(p, n) >= p.minLiquidationAbsLots && worst * p.liquidationFeeBps <= Fee(p, n) * BPS_DENOM
    ensures Fee(p, n) > p.minLiquidationAbsLots ==> (Fee(p, n) - 1) * BPS_DENOM < worst * p.liquidationFeeBps
  {
    worst := WorstOf(PriceBudget(p), n);
    CeilBounds(n * (BPS_DENOM + PriceBudget(p)), BPS_DENOM);
    CeilBounds(worst * p.liquidationFeeBps, BPS_DENOM);
    hide WorstOf, CeilDiv;
  }

  /** The requirement is the maintenance share rounded down, or the floor if that is more. */
  lemma MmExact(p: EnvelopeParams, n: nat)
    ensures MmReq(p, n) >= p.minNonzeroMmReqLots && n * p.maintenanceBps < (MmReq(p, n) + 1) * BPS_DENOM
    ensures MmReq(p, n) > p.minNonzeroMmReqLots ==> MmReq(p, n) * BPS_DENOM <= n * p.maintenanceBps
  {
    FloorBounds(n * p.maintenanceBps, BPS_DENOM);
  }

  // ----- up to the breakpoint -----

  /** The breakpoint is where the proportional requirement reaches the floor. */
  lemma BreakpointMeaning(p: EnvelopeParams, n: nat)
    requires p.maintenanceBps > 0
    ensures n <= Breakpoint(p) ==> MmReq(p, n) == p.minNonzeroMmReqLots
    ensures Breakpoint(p) * p.maintenanceBps <= p.minNonzeroMmReqLots * BPS_DENOM
    ensures p.minNonzeroMmReqLots * BPS_DENOM < Breakpoint(p) * p.maintenanceBps + p.maintenanceBps
  {
    var mm, bp := p.maintenanceBps, Breakpoint(p);
    FloorBounds(p.minNonzeroMmReqLots * BPS_DENOM, mm);
    if n <= bp {
      Scale(mm, n, bp);
      FloorBounds(n * mm, BPS_DENOM);
    }
  }

  /** One probe at the breakpoint decides every smaller notional. */
  lemma BelowBreakpoint(p: EnvelopeParams, n: nat)
    requires p.maintenanceBps > 0 && n <= Breakpoint(p) && Solvent(p, Breakpoint(p))
    ensures Solvent(p, n)
  {
    BreakpointMeaning(p, n);
    BreakpointMeaning(p, Breakpoint(p));
    LossMonotone(LossBudget(p), n, Breakpoint(p));
    RawFeeMonotone(PriceBudget(p), p.liquidationFeeBps, n, Breakpoint(p));
  }

  /** Within the caps, the probes at one lot and at the bound never overflow. */
  lemma EndsFit(p: EnvelopeParams, n: nat)
    requires CapsOk(p) && n <= MAX_ACCOUNT_NOTIONAL_LOTS
    ensures ProbeFits(p, n)
  {
    BudgetCaps(p);
    var budget, k, f := LossBudget(p), BPS_DENOM + PriceBudget(p), p.liquidationFeeBps;
    var worst := WorstOf(PriceBudget(p), n);
    Product(n, budget, MAX_ACCOUNT_NOTIONAL_LOTS, 20_000_000_000_000_000);
    Product(n, k, MAX_ACCOUNT_NOTIONAL_LOTS, 20_000_000);
    Product(n, p.maintenanceBps, MAX_ACCOUNT_NOTIONAL_LOTS, BPS_DENOM);
    CeilAtMost(n * k, BPS_DENOM);
    Product(worst, f, MAX_ACCOUNT_NOTIONAL_LOTS * 20_000_000, BPS_DENOM);
    CeilAtMost(worst * f, BPS_DENOM);
    CeilAtMost(n * budget, LOSS_DEN);
    hide CeilDiv, WorstOf, LossBudget, PriceBudget, CapsOk;
  }

  lemma BudgetCaps(p: EnvelopeParams)
    requires CapsOk(p)
    ensures PriceBudget(p) <= 10_000_000 && LossBudget(p) <= 20_000_000_000_000_000
  {
    Product(p.maxPriceMoveBpsPerSlot, p.maxAccrualDtSlots, 1_000, 10_000);
    Product(Abs(p.maxAbsFundingE9PerSlot), p.maxAccrualDtSlots, 10_000, 10_000);
  }

  lemma Product(a: nat, b: nat, c: nat, d: nat)
    requires a <= c && b <= d
    ensures 0 <= a * b <= c * d
  {
    Scale(a, b, d);
    Scale(d, a, c);
    Scale(a, 0, b);
  }

  lemma CeilAtMost(a: nat, b: nat)
    requires b > 0
    ensures 0 <= CeilDiv(a, b) <= a
  {
    Scale(a, 1, b);
    CeilLeast(a, b, a);
  }

  /** What is accepted, with nothing said of the probes in between: parameters within
      the caps for which every notional up to the breakpoint and the largest one are
      solvent, and whose breakpoint is not too large to be probed. */
  lemma AcceptExact(p: EnvelopeParams)
    ensures ProveEnvelope(p).Success? <==>
      && CapsOk(p) && ProbeFits(p, Breakpoint(p))
      && forall n :: 1 <= n <= Breakpoint(p) || n == 1 || n == MAX_ACCOUNT_NOTIONAL_LOTS ==> Solvent(p, n)
  {
    if CapsOk(p) {
      EndsFit(p, 0);
      EndsFit(p, 1);
      EndsFit(p, MAX_ACCOUNT_NOTIONAL_LOTS);
    }
    if ProveEnvelope(p).Success? {
      AcceptedProbes(p);
      forall n | 1 <= n <= Breakpoint(p)
        ensures Solvent(p, n)
      {
        BelowBreakpoint(p, n);
      }
    }
    hide ProbeFits, Solvent, Breakpoint;
  }

  /** A refusal for insolvency names a notional that is insolvent, and its numbers. */
  lemma ViolationIsReal(p: EnvelopeParams, n: nat, loss: nat, fee: nat, mm: nat)
    requires ProveEnvelope(p) == Failure(EnvelopeViolated(n, loss, fee, mm))
    ensures 1 <= n && !Solvent(p, n) && loss == Loss(p, n) && fee == Fee(p, n) && mm == MmReq(p, n)
    ensures loss + fee > mm
  {
    hide ProbeFits, Breakpoint, Loss, Fee, MmReq;
  }

  // ----- beyond the breakpoint -----

  /** Everything over one denominator, so that slopes can be compared. */
  const SCALE := BPS_DENOM * BPS_DENOM * FUNDING_DEN

  /** The slope of the loss and the raw fee. */
  function CostSlope(p: EnvelopeParams): nat {
    LossBudget(p) * BPS_DENOM + FeeSlope(p)
  }

  function FeeSlope(p: EnvelopeParams): nat {
    (BPS_DENOM + PriceBudget(p)) * p.liquidationFeeBps * FUNDING_DEN
  }

  function MmSlope(p: EnvelopeParams): nat {
    p.maintenanceBps * LOSS_DEN
  }

  /** How much faster the requirement grows than what it must cover. */
  function Slack(p: EnvelopeParams): int {
    MmSlope(p) - CostSlope(p)
  }

  lemma LossBounds(p: EnvelopeParams, n: nat)
    ensures n * (LossBudget(p) * BPS_DENOM) <= Loss(p, n) * SCALE < n * (LossBudget(p) * BPS_DENOM) + SCALE
  {
    CeilBounds(n * LossBudget(p), LOSS_DEN);
    assert n * (LossBudget(p) * BPS_DENOM) == n * LossBudget(p) * BPS_DENOM;
  }

  lemma RawFeeBounds(p: EnvelopeParams, n: nat)
    requires p.liquidationFeeBps < BPS_DENOM
    ensures n * FeeSlope(p) <= RawFee(p, n) * SCALE < n * FeeSlope(p) + 2 * SCALE
  {
    var k, f := BPS_DENOM + PriceBudget(p), p.liquidationFeeBps;
    var worst := WorstOf(PriceBudget(p), n);
    CeilBounds(n * k, BPS_DENOM);
    CeilBounds(worst * f, BPS_DENOM);
    FourFactors(n, k, f, FUNDING_DEN);
    assert n * FeeSlope(p) == n * k * f * FUNDING_DEN;
    hide FeeSlope, WorstOf, PriceBudget, CeilDiv;
    FeeInts(n * k, worst, f, RawFee(p, n));
  }

  /** Two roundings up, each of less than one lot. */
  lemma FeeInts(nk: nat, worst: nat, f: nat, raw: nat)
    requires f < BPS_DENOM && nk <= worst * BPS_DENOM < nk + BPS_DENOM
    requires worst * f <= raw * BPS_DENOM < worst * f + BPS_DENOM
    ensures nk * f * FUNDING_DEN <= raw * SCALE < nk * f * FUNDING_DEN + 2 * SCALE
  {
    Scale(f, nk, worst * BPS_DENOM);
    Scale(f, worst * BPS_DENOM, nk + BPS_DENOM);
    assert f * (worst * BPS_DENOM) == worst * f * BPS_DENOM;
    assert f * (nk + BPS_DENOM) == nk * f + f * BPS_DENOM;
  }

  lemma FourFactors(n: int, k: int, f: int, d: int)
    ensures n * (k * f * d) == n * k * f * d
  {
    assert n * (k * f * d) == n * (k * f) * d;
    assert n * (k * f) == n * k * f;
  }

  lemma MmBounds(p: EnvelopeParams, n: nat)
    ensures var floor := n * p.maintenanceBps / BPS_DENOM;
      n * MmSlope(p) - SCALE < floor * SCALE <= n * MmSlope(p)
  {
    FloorBounds(n * p.maintenanceBps, BPS_DENOM);
    assert n * MmSlope(p) == n * p.maintenanceBps * LOSS_DEN;
  }

  /** Acceptance means that the requirement grows at least as fast as the cost. */
  lemma AcceptedSlack(p: EnvelopeParams)
    requires ProveEnvelope(p).Success? && Breakpoint(p) < MAX_ACCOUNT_NOTIONAL_LOTS
    ensures Slack(p) >= 0
  {
    var m := MAX_ACCOUNT_NOTIONAL_LOTS;
    AcceptedProbes(p);
    LossBounds(p, m);
    RawFeeBounds(p, m);
    MmBounds(p, m);
    PastBreakpoint(p, m);
    SlackInts(Loss(p, m), RawFee(p, m), m * p.maintenanceBps / BPS_DENOM, m,
              LossBudget(p) * BPS_DENOM, FeeSlope(p), MmSlope(p));
  }

  lemma SlackInts(loss: nat, raw: nat, floor: nat, m: nat, a: nat, fee: nat, b: nat)
    requires m > 0 && loss + raw <= floor
    requires m * a <= loss * SCALE && m * fee <= raw * SCALE && floor * SCALE <= m * b
    ensures b - (a + fee) >= 0
  {
    assert m * (b - (a + fee)) == m * b - m * a - m * fee;
    if b - (a + fee) < 0 {
      Scale(m, b - (a + fee), -1);
    }
  }

  /** Past the breakpoint the proportional requirement is at least the floor. */
  lemma PastBreakpoint(p: EnvelopeParams, n: nat)
    requires p.maintenanceBps > 0 && n > Breakpoint(p)
    ensures MmReq(p, n) == n * p.maintenanceBps / BPS_DENOM
  {
    BreakpointMeaning(p, n);
    Scale(p.maintenanceBps, Breakpoint(p) + 1, n);
    FloorBounds(n * p.maintenanceBps, BPS_DENOM);
  }

  /** Where the proportional fee applies: the excess is under four lots, less what the
      slack has earned. */
  lemma RawExcess(p: EnvelopeParams, n: nat)
    requires CapsOk(p)
    ensures (Loss(p, n) + RawFee(p, n) - n * p.maintenanceBps / BPS_DENOM) * SCALE < 4 * SCALE - n * Slack(p)
  {
    LossBounds(p, n);
    RawFeeBounds(p, n);
    MmBounds(p, n);
    hide Loss, RawFee, LossBudget, FeeSlope, MmSlope, CapsOk;
    RawInts(Loss(p, n), RawFee(p, n), n * p.maintenanceBps / BPS_DENOM, n,
            LossBudget(p) * BPS_DENOM, FeeSlope(p), MmSlope(p));
  }

  lemma RawInts(loss: nat, raw: nat, floor: nat, n: nat, a: nat, fee: nat, b: nat)
    requires loss * SCALE < n * a + SCALE && raw * SCALE < n * fee + 2 * SCALE && n * b - SCALE < floor * SCALE
    ensures (loss + raw - floor) * SCALE < 4 * SCALE - n * (b - (a + fee))
  {
    assert n * (b - (a + fee)) == n * b - n * a - n * fee;
  }

  /** Where the least fee applies: the excess is under three lots, less what the slack
      has earned since the breakpoint. */
  lemma LeastExcess(p: EnvelopeParams, n: nat)
    requires CapsOk(p) && n > Breakpoint(p) && Solvent(p, Breakpoint(p))
    ensures (Loss(p, n) + p.minLiquidationAbsLots - n * p.maintenanceBps / BPS_DENOM) * SCALE
          < 3 * SCALE - (n - Breakpoint(p)) * Slack(p)
  {
    var bp := Breakpoint(p);
    AtBreakpoint(p);
    LossBounds(p, bp);
    LossBounds(p, n);
    MmBounds(p, n);
    hide Loss, LossBudget, MmSlope, FeeSlope, Breakpoint, Solvent, CapsOk;
    LeastInts(Loss(p, n), Loss(p, bp), p.minLiquidationAbsLots, n * p.maintenanceBps / BPS_DENOM, p.minNonzeroMmReqLots,
              n, bp, LossBudget(p) * BPS_DENOM, MmSlope(p), FeeSlope(p));
  }

  /** What solvency at the breakpoint says, over the common denominator. */
  lemma AtBreakpoint(p: EnvelopeParams)
    requires CapsOk(p) && Solvent(p, Breakpoint(p))
    ensures Loss(p, Breakpoint(p)) + p.minLiquidationAbsLots <= p.minNonzeroMmReqLots
    ensures p.minNonzeroMmReqLots * SCALE < Breakpoint(p) * MmSlope(p) + MmSlope(p)
    ensures MmSlope(p) <= SCALE
  {
    BreakpointMeaning(p, Breakpoint(p));
    hide Breakpoint, Loss, RawFee;
    OverScale(p.minNonzeroMmReqLots, Breakpoint(p), p.maintenanceBps);
    hide PriceBudget, LossBudget;
  }

  lemma OverScale(floor: nat, bp: nat, mm: nat)
    requires floor * BPS_DENOM < bp * mm + mm && mm < BPS_DENOM
    ensures floor * SCALE < bp * (mm * LOSS_DEN) + mm * LOSS_DEN && mm * LOSS_DEN <= SCALE
  {
    assert bp * (mm * LOSS_DEN) == bp * mm * LOSS_DEN;
  }

  lemma LeastInts(lossN: nat, lossBp: nat, least: nat, floorN: nat, floor: nat,
                  n: nat, bp: nat, a: nat, b: nat, fee: nat)
    requires bp < n && lossN * SCALE < n * a + SCALE && bp * a <= lossBp * SCALE
    requires lossBp + least <= floor && floor * SCALE < bp * b + b && b <= SCALE
    requires n * b - SCALE < floorN * SCALE
    ensures (lossN + least - floorN) * SCALE < 3 * SCALE - (n - bp) * (b - (a + fee))
  {
    var x := n - bp;
    Split(n, bp, a);
    Split(n, bp, b);
    assert x * (b - (a + fee)) == x * b - x * a - x * fee;
    assert x * fee >= 0;
  }

  lemma Split(n: int, bp: int, a: int)
    ensures n * a == bp * a + (n - bp) * a
  {
  }

  lemma UnderLots(excess: int, lots: int, earned: int)
    requires excess * SCALE < lots * SCALE - earned && earned >= 0
    ensures excess < lots
  {
  }

  /** Three probes decide the whole range, up to rounding: every notional up to the
      breakpoint and the largest one are solvent, and no other one up to the bound
      misses by more than three lots. */
  lemma ThreeProbes(p: EnvelopeParams, n: nat)
    requires ProveEnvelope(p).Success? && 1 <= n <= MAX_ACCOUNT_NOTIONAL_LOTS
    ensures n <= Breakpoint(p) || n == MAX_ACCOUNT_NOTIONAL_LOTS ==> Solvent(p, n)
    ensures Loss(p, n) + Fee(p, n) <= MmReq(p, n) + 3
  {
    AcceptedProbes(p);
    PositiveBreakpoint(p);
    if n <= Breakpoint(p) {
      BelowBreakpoint(p, n);
    } else if n < MAX_ACCOUNT_NOTIONAL_LOTS {
      AcceptedSlack(p);
      PastBreakpoint(p, n);
      RawExcess(p, n);
      LeastExcess(p, n);
      hide Loss, RawFee, Slack, Breakpoint, ProveEnvelope, CapsOk;
      Scale(n, 0, Slack(p));
      Scale(n - Breakpoint(p), 0, Slack(p));
      var floor := n * p.maintenanceBps / BPS_DENOM;
      UnderLots(Loss(p, n) + RawFee(p, n) - floor, 4, n * Slack(p));
      UnderLots(Loss(p, n) + p.minLiquidationAbsLots - floor, 3, (n - Breakpoint(p)) * Slack(p));
    }
  }

  /** An accepted market has a positive floor, hence a breakpoint. */
  lemma PositiveBreakpoint(p: EnvelopeParams)
    requires CapsOk(p) && Solvent(p, 1)
    ensures Breakpoint(p) >= 1
  {
    LossPositive(p);
    var mm := p.maintenanceBps;
    assert MmReq(p, 1) == p.minNonzeroMmReqLots;
    FloorBounds(p.minNonzeroMmReqLots * BPS_DENOM, mm);
    if Breakpoint(p) == 0 {
      assert false;
    }
  }

  lemma LossPositive(p: EnvelopeParams)
    requires CapsOk(p)
    ensures Loss(p, 1) >= 1
  {
    assert PriceBudget(p) >= 1;
    assert Abs(p.maxAbsFundingE9PerSlot) * p.maxAccrualDtSlots >= 0;
    CeilBounds(LossBudget(p), LOSS_DEN);
  }

  // ----- the exact range -----

  /** Once the slack has earned three lots since the breakpoint, nothing is missed. */
  lemma BeyondWindow(p: EnvelopeParams, n: nat)
    requires ProveEnvelope(p).Success? && Breakpoint(p) < n && Slack(p) >= 0
    requires (n - Breakpoint(p)) * Slack(p) >= 3 * SCALE
    ensures Solvent(p, n)
  {
    AcceptedProbes(p);
    PositiveBreakpoint(p);
    PastBreakpoint(p, n);
    RawExcess(p, n);
    LeastExcess(p, n);
    hide Loss, RawFee, Slack, Breakpoint, ProveEnvelope, CapsOk;
    Scale(Slack(p), n - Breakpoint(p), n);
    var floor := n * p.maintenanceBps / BPS_DENOM;
    UnderLots(Loss(p, n) + RawFee(p, n) - floor, 1, n * Slack(p) - 3 * SCALE);
    UnderLots(Loss(p, n) + p.minLiquidationAbsLots - floor, 1, (n - Breakpoint(p)) * Slack(p) - 2 * SCALE);
  }

  /** Roundings repeat after this many lots, each time with the same increments. */
  const PERIOD := FUNDING_DEN

  lemma CeilShift(a: nat, q: nat, b: nat)
    requires b > 0
    ensures CeilDiv(a + q * b, b) == CeilDiv(a, b) + q
  {
    CeilBounds(a, b);
    CeilBounds(a + q * b, b);
    Above(CeilDiv(a + q * b, b), CeilDiv(a, b) + q, b);
    Above(CeilDiv(a, b) + q, CeilDiv(a + q * b, b), b);
    assert (CeilDiv(a, b) + q) * b == CeilDiv(a, b) * b + q * b;
  }

  function LossStep(p: EnvelopeParams): nat {
    PriceBudget(p) * 100_000 + Abs(p.maxAbsFundingE9PerSlot) * p.maxAccrualDtSlots
  }

  function FeeStep(p: EnvelopeParams): nat {
    10 * (BPS_DENOM + PriceBudget(p)) * p.liquidationFeeBps
  }

  function MmStep(p: EnvelopeParams): nat {
    p.maintenanceBps * 100_000
  }

  lemma LossRepeats(p: EnvelopeParams, n: nat)
    ensures Loss(p, n + PERIOD) == Loss(p, n) + LossStep(p)
  {
    var funding := Abs(p.maxAbsFundingE9PerSlot) * p.maxAccrualDtSlots;
    assert LossBudget(p) == PriceBudget(p) * FUNDING_DEN + funding * BPS_DENOM;
    assert (n + PERIOD) * LossBudget(p) == n * LossBudget(p) + LossStep(p) * LOSS_DEN;
    CeilShift(n * LossBudget(p), LossStep(p), LOSS_DEN);
  }

  lemma RawFeeRepeats(p: EnvelopeParams, n: nat)
    ensures RawFee(p, n + PERIOD) == RawFee(p, n) + FeeStep(p)
  {
    var k, f := BPS_DENOM + PriceBudget(p), p.liquidationFeeBps;
    var worst := WorstOf(PriceBudget(p), n);
    assert (n + PERIOD) * k == n * k + 100_000 * k * BPS_DENOM;
    CeilShift(n * k, 100_000 * k, BPS_DENOM);
    assert WorstOf(PriceBudget(p), n + PERIOD) == worst + 100_000 * k;
    FeeIncrement(worst, k, f);
    CeilShift(worst * f, 10 * k * f, BPS_DENOM);
  }

  lemma FeeIncrement(worst: nat, k: nat, f: nat)
    ensures (worst + 100_000 * k) * f == worst * f + 10 * k * f * BPS_DENOM
  {
    assert 100_000 * k * f == 10 * k * f * BPS_DENOM;
  }

  lemma FloorRepeats(p: EnvelopeParams, n: nat)
    ensures (n + PERIOD) * p.maintenanceBps / BPS_DENOM == n * p.maintenanceBps / BPS_DENOM + MmStep(p)
  {
    assert (n + PERIOD) * p.maintenanceBps == n * p.maintenanceBps + MmStep(p) * BPS_DENOM;
  }

  /** The slack is what one period earns. */
  lemma SlackIsStep(p: EnvelopeParams)
    ensures Slack(p) == 100_000_000 * (MmStep(p) - LossStep(p) - FeeStep(p))
  {
    var k, f := BPS_DENOM + PriceBudget(p), p.liquidationFeeBps;
    assert FeeSlope(p) == k * f * FUNDING_DEN;
    assert FeeStep(p) == 10 * (k * f);
    var funding := Abs(p.maxAbsFundingE9PerSlot) * p.maxAccrualDtSlots;
    assert LossBudget(p) == PriceBudget(p) * FUNDING_DEN + funding * BPS_DENOM;
  }

  /** Past the breakpoint, solvency carries over from one period to the next. */
  lemma SolventRepeats(p: EnvelopeParams, n: nat)
    requires p.maintenanceBps > 0 && Slack(p) >= 0 && n > Breakpoint(p) && Solvent(p, n)
    ensures Solvent(p, n + PERIOD)
  {
    PastBreakpoint(p, n);
    PastBreakpoint(p, n + PERIOD);
    LossRepeats(p, n);
    RawFeeRepeats(p, n);
    FloorRepeats(p, n);
    SlackIsStep(p);
    hide Loss, RawFee, Slack, Breakpoint, MmReq, LossStep, FeeStep, MmStep;
  }

  /** So one period past the breakpoint decides everything beyond it. */
  lemma {:induction false} OnePeriodDecides(p: EnvelopeParams, n: nat)
    requires p.maintenanceBps > 0 && Slack(p) >= 0 && n > Breakpoint(p)
    requires forall k :: Breakpoint(p) < k <= Breakpoint(p) + PERIOD && k <= n ==> Solvent(p, k)
    ensures Solvent(p, n)
  {
    hide Solvent, Slack, Breakpoint;
    if n > Breakpoint(p) + PERIOD {
      OnePeriodDecides(p, n - PERIOD);
      SolventRepeats(p, n - PERIOD);
    }
  }

  /** The notionals past the breakpoint that the probes leave open: those until the
      slack has earned three lots, and never more than one period. */
  function Window(p: EnvelopeParams): (w: nat)
    ensures w <= PERIOD + 1
  {
    if Slack(p) <= 0 then PERIOD + 1 else Min(CeilDiv(3 * SCALE, Slack(p)), PERIOD + 1)
  }

  /** For accepted parameters, every notional up to the bound is solvent exactly when
      those just past the breakpoint are: a window of at most 10^9 lots, which the
      slack makes shorter. */
  lemma EnvelopeExact(p: EnvelopeParams)
    requires ProveEnvelope(p).Success?
    ensures (forall n :: 1 <= n <= MAX_ACCOUNT_NOTIONAL_LOTS ==> Solvent(p, n)) <==> WindowSolvent(p)
  {
    hide Solvent;
    AcceptedProbes(p);
    PositiveBreakpoint(p);
    if WindowSolvent(p) {
      forall n | 1 <= n <= MAX_ACCOUNT_NOTIONAL_LOTS
        ensures Solvent(p, n)
      {
        if n <= Breakpoint(p) {
          BelowBreakpoint(p, n);
        } else if n >= Breakpoint(p) + Window(p) {
          OutsideWindow(p, n);
        }
      }
    }
  }

  ghost predicate WindowSolvent(p: EnvelopeParams) {
    forall n :: Breakpoint(p) < n < Breakpoint(p) + Window(p) && n <= MAX_ACCOUNT_NOTIONAL_LOTS ==> Solvent(p, n)
  }

  lemma OutsideWindow(p: EnvelopeParams, n: nat)
    requires ProveEnvelope(p).Success? && Breakpoint(p) >= 1 && WindowSolvent(p)
    requires Breakpoint(p) < n && Breakpoint(p) + Window(p) <= n <= MAX_ACCOUNT_NOTIONAL_LOTS
    ensures Solvent(p, n)
  {
    AcceptedProbes(p);
    AcceptedSlack(p);
    WindowCases(p);
    assert p.maintenanceBps > 0;
    hide Window, Solvent, Breakpoint, ProveEnvelope, Slack, CapsOk;
    if Window(p) == PERIOD + 1 {
      OnePeriodDecides(p, n);
    } else {
      Earned(Slack(p), Window(p), n - Breakpoint(p));
      BeyondWindow(p, n);
    }
  }

  lemma WindowCases(p: EnvelopeParams)
    ensures Window(p) == PERIOD + 1 || (Slack(p) > 0 && Window(p) == CeilDiv(3 * SCALE, Slack(p)))
  {
    hide Slack;
  }

  lemma Earned(slack: nat, window: nat, lots: nat)
    requires slack > 0 && window == CeilDiv(3 * SCALE, slack) && window <= lots
    ensures lots * slack >= 3 * SCALE
  {
    CeilBounds(3 * SCALE, slack);
    Scale(slack, window, lots);
  }

  /** The slack may be nothing at all: these parameters pass, a whole period is left
      open, and notional 334 in it is not covered. */
  lemma NoSlackMiss()
    ensures var p := EnvelopeParams(30, 100, 0, 3000, 0, 0, 100);
      && ProveEnvelope(p).Success? && Slack(p) == 0 && Window(p) == PERIOD + 1
      && Breakpoint(p) < 334 < Breakpoint(p) + Window(p) && !Solvent(p, 334)
  {
    var p := EnvelopeParams(30, 100, 0, 3000, 0, 0, 100);
    assert PriceBudget(p) == 3000 && LossBudget(p) == 3_000_000_000_000 && Breakpoint(p) == 333;
  }

  /** The three probes alone do not give the whole range: these parameters pass, and
      notional 134 misses by the full three lots. */
  lemma ThreeProbesMiss()
    ensures var p := EnvelopeParams(16, 14, 0, 447, 218, 0, 4);
      ProveEnvelope(p).Success? && !Solvent(p, 134) && Loss(p, 134) + Fee(p, 134) == MmReq(p, 134) + 3
  {
    var p := EnvelopeParams(16, 14, 0, 447, 218, 0, 4);
    assert PriceBudget(p) == 224 && LossBudget(p) == 224_000_000_000 && Breakpoint(p) == 89;
  }

  lemma DefaultAccepted()
    ensures ProveEnvelope(DEFAULT).Success? && CapsOk(DEFAULT)
    ensures Breakpoint(DEFAULT) == 333 && Solvent(DEFAULT, 333)
  {
    var p := DEFAULT;
    assert PriceBudget(p) == 1400 && LossBudget(p) == 1_410_000_000_000;
  }

  lemma DefaultSlopes()
    ensures Slack(DEFAULT) == 15_330_000_000_000_000 && FeeSlope(DEFAULT) == 570_000_000_000_000
  {
    var p := DEFAULT;
    assert PriceBudget(p) == 1400 && LossBudget(p) == 1_410_000_000_000;
  }

  /** With the default parameters every notional up to the bound is solvent. */
  lemma DefaultSolvent(n: nat)
    requires 1 <= n <= MAX_ACCOUNT_NOTIONAL_LOTS
    ensures ProveEnvelope(DEFAULT).Success? && Solvent(DEFAULT, n)
  {
    var p := DEFAULT;
    DefaultAccepted();
    if n <= 333 {
      BelowBreakpoint(p, n);
    } else {
      DefaultSlopes();
      PastBreakpoint(p, n);
      RawExcess(p, n);
      RawFeeBounds(p, n);
      assert p.minLiquidationAbsLots == 1 && p.maintenanceBps == 3000;
      hide Loss, RawFee, Slack, FeeSlope, MmReq, ProveEnvelope, CapsOk, Breakpoint;
    }
  }
}
