/** Reduce-only orders: how much of an order may fill against a position. */
module ReduceOnly {
  import opened Bytes

  datatype ReduceOnlyOutcome = Admit | PartialAdmit(lots: U64) | Reject

  /** The order sells a long or buys a short. */
  predicate Opposes(positionSide: U8, orderSide: U8) {
    (positionSide == 0 && orderSide == 1) || (positionSide == 1 && orderSide == 0)
  }

  function Admitted(r: ReduceOnlyOutcome, orderSizeLots: U64): U64 {
    match r
    case Admit => orderSizeLots
    case PartialAdmit(lots) => lots
    case Reject => 0
  }

  /** The order fills up to the position, on the opposing side, and no further. */
  function CheckReduceOnly(positionSide: U8, positionSizeLots: U64, orderSide: U8, orderSizeLots: U64)
    : (r: ReduceOnlyOutcome)
    ensures Opposes(positionSide, orderSide) ==>
      Admitted(r, orderSizeLots) == if orderSizeLots < positionSizeLots then orderSizeLots else positionSizeLots
    ensures !Opposes(positionSide, orderSide) ==> Admitted(r, orderSizeLots) == 0
    ensures r.Reject? <==> positionSizeLots == 0 || !Opposes(positionSide, orderSide)
  {
    if positionSizeLots == 0 || positionSide == 2 then Reject
    else if !Opposes(positionSide, orderSide) then Reject
    else if orderSizeLots <= positionSizeLots then Admit
    else PartialAdmit(positionSizeLots)
  }
}
