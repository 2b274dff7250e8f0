/** The side-encoded order id: a 40-bit price key above a 24-bit sequence. One
    ascending walk by id is price-time priority on both sides of the book. */
module OrderIds {
  const TWO_POW_24 := 0x100_0000
  const MAX_PRICE_TICKS_ENCODABLE := 0xFF_FFFF_FFFF
  const MAX_SEQ_ENCODABLE := 0xFF_FFFF

  predicate SeqIsEncodable(orderSeq: nat) {
    orderSeq <= MAX_SEQ_ENCODABLE
  }

  /** Prices saturate at the top of their field and are inverted for bids; the
      sequence is masked to its 24 bits. */
  function PriceKey(priceTicks: nat, sideIsBid: bool): nat {
    var price := if priceTicks <= MAX_PRICE_TICKS_ENCODABLE then priceTicks else MAX_PRICE_TICKS_ENCODABLE;
    if sideIsBid then MAX_PRICE_TICKS_ENCODABLE - price else price
  }

  function EncodeOrderId(priceTicks: nat, orderSeq: nat, sideIsBid: bool): nat {
    PriceKey(priceTicks, sideIsBid) * TWO_POW_24 + orderSeq % TWO_POW_24
  }

  /** Price first, better price before worse; then the older sequence. */
  predicate HasPriority(p1: nat, s1: nat, p2: nat, s2: nat, sideIsBid: bool) {
    (if sideIsBid then p1 > p2 else p1 < p2) || (p1 == p2 && s1 < s2)
  }

  /** Ids compare as price-time priority compares, for every encodable pair. */
  lemma IdOrderIsPriority(p1: nat, s1: nat, p2: nat, s2: nat, sideIsBid: bool)
    requires p1 <= MAX_PRICE_TICKS_ENCODABLE && p2 <= MAX_PRICE_TICKS_ENCODABLE
    requires SeqIsEncodable(s1) && SeqIsEncodable(s2)
    ensures EncodeOrderId(p1, s1, sideIsBid) < EncodeOrderId(p2, s2, sideIsBid)
       <==> HasPriority(p1, s1, p2, s2, sideIsBid)
    ensures EncodeOrderId(p1, s1, sideIsBid) == EncodeOrderId(p2, s2, sideIsBid)
       <==> p1 == p2 && s1 == s2
    ensures EncodeOrderId(p1, s1, sideIsBid) < 0x1_0000_0000_0000_0000
  {
    assert s1 % TWO_POW_24 == s1 && s2 % TWO_POW_24 == s2;
    Lexicographic(PriceKey(p1, sideIsBid), s1, PriceKey(p2, sideIsBid), s2);
  }

  lemma Lexicographic(a1: nat, b1: nat, a2: nat, b2: nat)
    requires b1 < TWO_POW_24 && b2 < TWO_POW_24
    ensures a1 * TWO_POW_24 + b1 < a2 * TWO_POW_24 + b2 <==> a1 < a2 || (a1 == a2 && b1 < b2)
    ensures a1 * TWO_POW_24 + b1 == a2 * TWO_POW_24 + b2 <==> a1 == a2 && b1 == b2
  {
  }

  /** An id gives back the price and the sequence it was made of. */
  lemma IdRoundTrip(p: nat, s: nat, sideIsBid: bool)
    requires p <= MAX_PRICE_TICKS_ENCODABLE && SeqIsEncodable(s)
    ensures var id := EncodeOrderId(p, s, sideIsBid);
      && id % TWO_POW_24 == s
      && (if sideIsBid then MAX_PRICE_TICKS_ENCODABLE - id / TWO_POW_24 else id / TWO_POW_24) == p
  {
  }

  /** Prices past the top of the field all count as the top one: the worst of the asks
      and the best of the bids. */
  lemma SaturatedPrices(p: nat, q: nat, s: nat, sideIsBid: bool)
    requires p >= MAX_PRICE_TICKS_ENCODABLE
    ensures EncodeOrderId(p, s, sideIsBid) == EncodeOrderId(MAX_PRICE_TICKS_ENCODABLE, s, sideIsBid)
    ensures if sideIsBid then EncodeOrderId(p, s, sideIsBid) <= EncodeOrderId(q, s, sideIsBid)
            else EncodeOrderId(q, s, sideIsBid) <= EncodeOrderId(p, s, sideIsBid)
  {
  }

  /** Without the placement guard the mask wraps: an order one past the ceiling
      gets an id that sorts before every older order at its price. */
  lemma WrappedSeqLosesPriority(p: nat, s: nat, sideIsBid: bool)
    requires p <= MAX_PRICE_TICKS_ENCODABLE && 0 < s <= MAX_SEQ_ENCODABLE
    ensures !SeqIsEncodable(MAX_SEQ_ENCODABLE + 1)
    ensures EncodeOrderId(p, MAX_SEQ_ENCODABLE + 1, sideIsBid) < EncodeOrderId(p, s, sideIsBid)
  {
    assert s % TWO_POW_24 == s;
  }
}
