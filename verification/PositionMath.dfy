/** How one fill changes a position, and what that does to value: for every mark
    price, equity moves by the fill's own mark-to-price term, less what rounding the
    stacked entry price costs. */
module PositionMath {
  import opened Arithmetic
  import opened Bytes
  import opened Wrappers

  const SIDE_LONG: U8 := 0
  const SIDE_SHORT: U8 := 1

  type Side = s: U8 | s <= 1

  datatype Pos = Pos(side: Side, sizeLots: U64, entryTicks: U64)

  const FLAT := Pos(SIDE_LONG, 0, 0)

  datatype FillOutcome = FillOutcome(pos: Pos, realizedPnlQuoteLots: int, resetFunding: bool)

  datatype PosMathError = Overflow | Underflow | DivByZero

  function Sign(side: Side): int {
    if side == SIDE_LONG then 1 else -1
  }

  function Opposite(side: Side): Side {
    1 - side
  }

  /** Each lot at its own price. */
  function Weighted(entry: U64, size: U64, price: U64, lots: U64): (numer: nat)
    ensures entry * size >= 0 && price * lots >= 0
  {
    entry * size + price * lots
  }

  /** The size-weighted entry, rounded against the trader. */
  function StackedEntry(side: Side, numer: nat, newSize: nat): nat
    requires newSize > 0
  {
    if side == SIDE_LONG then CeilDiv(numer, newSize) else numer / newSize
  }

  /** Realized PnL on closed lots; every product must fit its machine width. */
  function RealizedPnl(side: Side, closed: U64, ticks: int, tickSize: U64): Option<int> {
    var pnl := Sign(side) * closed * ticks;
    if !InI128(pnl) || !InI128(pnl * tickSize) || !InI64(pnl * tickSize) then None else Some(pnl * tickSize)
  }

  function ApplyFill(pos: Pos, fillSide: Side, fillSizeLots: U64, fillPriceTicks: U64, tickSize: U64)
    : Result<FillOutcome, PosMathError>
  {
    if pos.sizeLots == 0 then
      Success(FillOutcome(Pos(fillSide, fillSizeLots, fillPriceTicks), 0, true))
    else if pos.side == fillSide then
      var newSize := pos.sizeLots + fillSizeLots;
      var numer := Weighted(pos.entryTicks, pos.sizeLots, fillPriceTicks, fillSizeLots);
      if newSize > U64_MAX || numer > U128_MAX then Failure(Overflow)
      else Success(FillOutcome(Pos(pos.side, newSize, Truncate64(StackedEntry(pos.side, numer, newSize))), 0, false))
    else
      var realized := RealizedPnl(pos.side, Min(fillSizeLots, pos.sizeLots), fillPriceTicks - pos.entryTicks, tickSize);
      if realized.None? then Failure(Overflow)
      else if fillSizeLots <= pos.sizeLots then
        var newSize := pos.sizeLots - fillSizeLots;
        var flat := newSize == 0;
        Success(FillOutcome(Pos(pos.side, newSize, if flat then 0 else pos.entryTicks), realized.value, flat))
      else
        Success(FillOutcome(Pos(fillSide, fillSizeLots - pos.sizeLots, fillPriceTicks), realized.value, true))
  }

  /** A cast to 64 bits keeps the low bits. */
  function Truncate64(x: nat): U64 {
    x % 0x1_0000_0000_0000_0000
  }

  // ----- the stacked entry -----

  /** The weighted entry lies between the two prices, so the cast loses nothing. */
  lemma StackBracketed(side: Side, entry: U64, size: U64, price: U64, lots: U64)
    requires 0 < size + lots
    ensures var numer, n := Weighted(entry, size, price, lots), size + lots;
      && numer >= 0
      && Min(entry, price) <= StackedEntry(side, numer, n) <= Min(entry, price) + Spread(entry, price)
      && Truncate64(StackedEntry(side, numer, n)) == StackedEntry(side, numer, n)
  {
    var numer, n := Weighted(entry, size, price, lots), size + lots;
    var lo, hi := Min(entry, price), Min(entry, price) + Spread(entry, price);
    assert lo * size <= entry * size <= hi * size;
    assert lo * lots <= price * lots <= hi * lots;
    assert lo * n == lo * size + lo * lots && hi * n == hi * size + hi * lots;
    QuotientBetween(numer, n, lo, hi);
  }

  function Spread(a: int, b: int): nat {
    if a < b then b - a else a - b
  }

  lemma QuotientBetween(a: nat, n: nat, lo: nat, hi: nat)
    requires n > 0 && lo * n <= a <= hi * n
    ensures lo <= a / n <= CeilDiv(a, n) <= hi
  {
    var q, r := a / n, a % n;
    assert a == q * n + r;
    Distribute(q - lo, lo, n);
    Distribute(hi - q, q, n);
    NotNegative(q - lo, n, r);
    NotNegative(hi - q, n, -r);
  }

  /** A multiple of n above -n is not negative; above 0 it is positive. */
  lemma NotNegative(k: int, n: int, r: int)
    requires -n < r < n && k * n + r >= 0
    ensures k >= 0 && (r < 0 ==> k > 0)
  {
  }

  lemma Distribute(a: int, b: int, t: int)
    ensures (a + b) * t == a * t + b * t
  {
  }

  /** Rounding takes r of the n shares of a tick, always against the trader. */
  function Dust(side: Side, numer: nat, n: nat): (r: int)
    requires n > 0
    ensures 0 <= r < n
    ensures Sign(side) * (StackedEntry(side, numer, n) * n - numer) == r
  {
    var q, r := numer / n, numer % n;
    assert numer == q * n + r;
    if side == SIDE_LONG then
      assert r > 0 ==> (q + 1) * n == q * n + n;
      if r == 0 then 0 else n - r
    else r
  }

  // ----- value -----

  /** What the position would realize at the mark, in quote lots. */
  function Unrealized(pos: Pos, mark: int, tickSize: int): int {
    Sign(pos.side) * pos.sizeLots * (mark - pos.entryTicks) * tickSize
  }

  /** The fill's own gain against the mark. */
  function FillTerm(side: Side, lots: int, price: int, mark: int, tickSize: int): int {
    Sign(side) * lots * (mark - price) * tickSize
  }

  /** What rounding takes in one fill: nonzero only when the position is stacked. */
  function FillDust(pos: Pos, fillSide: Side, lots: U64, price: U64): (r: int)
    ensures r >= 0 && r <= pos.sizeLots + lots
    ensures r > 0 ==> pos.sizeLots > 0 && pos.side == fillSide && r < pos.sizeLots + lots
  {
    if pos.sizeLots == 0 || pos.side != fillSide then 0
    else Dust(fillSide, Weighted(pos.entryTicks, pos.sizeLots, price, lots), pos.sizeLots + lots)
  }

  lemma StackValue(side: Side, entry: U64, size: U64, price: U64, lots: U64, entry': int, r: int, mark: int, tick: int)
    requires Sign(side) * (entry' * (size + lots) - Weighted(entry, size, price, lots)) == r
    ensures Sign(side) * (size + lots) * (mark - entry') * tick
         == Sign(side) * size * (mark - entry) * tick + Sign(side) * lots * (mark - price) * tick - r * tick
  {
    var s := Sign(side);
    var n := size + lots;
    assert n * (mark - entry') == n * mark - entry' * n;
    assert size * (mark - entry) == size * mark - entry * size;
    assert lots * (mark - price) == lots * mark - price * lots;
    assert n * mark == size * mark + lots * mark;
    var after, before, fill := n * (mark - entry'), size * (mark - entry), lots * (mark - price);
    assert s * after == s * before + s * fill - r;
    Scaled(s, n, mark - entry', tick);
    Scaled(s, size, mark - entry, tick);
    Scaled(s, lots, mark - price, tick);
    assert (s * before + s * fill - r) * tick == s * before * tick + s * fill * tick - r * tick;
  }

  lemma Scaled(s: int, a: int, b: int, t: int)
    ensures s * a * b * t == s * (a * b) * t
  {
    assert s * a * b == s * (a * b);
  }

  /** Closing c lots realizes what they were worth against the fill price. */
  lemma CloseValue(side: Side, size: int, c: int, entry: int, price: int, mark: int, tick: int)
    ensures Sign(side) * c * (price - entry) * tick + Sign(side) * (size - c) * (mark - entry) * tick
         == Sign(side) * size * (mark - entry) * tick + Sign(Opposite(side)) * c * (mark - price) * tick
  {
    var s := Sign(side);
    SplitTicks(s, c, mark - entry, mark - price, price - entry, tick);
    SplitLots(s, size, c, mark - entry, tick);
    Negated(s, c, mark - price, tick);
  }

  lemma SplitTicks(s: int, c: int, x: int, y: int, d: int, t: int)
    requires d == x - y
    ensures s * c * d * t == s * c * x * t - s * c * y * t
  {
    Distribute(d, y, s * c);
    Distribute(s * c * d, s * c * y, t);
  }

  lemma Negated(s: int, c: int, y: int, t: int)
    ensures (-s) * c * y * t == -(s * c * y * t)
  {
    Scaled(s, c, y, t);
    Scaled(-s, c, y, t);
    assert (-s) * (c * y) == -(s * (c * y));
  }

  /** The value law: for every mark, what is realized plus what the new position is
      worth equals what the old one was worth, plus the fill's own term, less the
      rounding of a stacked entry. */
  lemma ApplyFillValue(pos: Pos, fillSide: Side, lots: U64, price: U64, tickSize: U64, mark: int)
    requires ApplyFill(pos, fillSide, lots, price, tickSize).Success?
    ensures var out := ApplyFill(pos, fillSide, lots, price, tickSize).value;
      out.realizedPnlQuoteLots + Unrealized(out.pos, mark, tickSize)
      == Unrealized(pos, mark, tickSize) + FillTerm(fillSide, lots, price, mark, tickSize)
         - FillDust(pos, fillSide, lots, price) * tickSize
  {
    var out := ApplyFill(pos, fillSide, lots, price, tickSize).value;
    if pos.sizeLots == 0 {
    } else if pos.side == fillSide {
      StackBracketed(pos.side, pos.entryTicks, pos.sizeLots, price, lots);
      StackValue(pos.side, pos.entryTicks, pos.sizeLots, price, lots, out.pos.entryTicks,
                 FillDust(pos, fillSide, lots, price), mark, tickSize);
    } else if lots <= pos.sizeLots {
      CloseValue(pos.side, pos.sizeLots, lots, pos.entryTicks, price, mark, tickSize);
    } else {
      FlipValue(pos, lots, price, tickSize, mark);
    }
  }

  lemma FlipValue(pos: Pos, lots: U64, price: U64, tickSize: U64, mark: int)
    requires lots > pos.sizeLots
    ensures Sign(pos.side) * pos.sizeLots * (price - pos.entryTicks) * tickSize
          + Sign(Opposite(pos.side)) * (lots - pos.sizeLots) * (mark - price) * tickSize
         == Unrealized(pos, mark, tickSize) + FillTerm(Opposite(pos.side), lots, price, mark, tickSize)
  {
    CloseValue(pos.side, pos.sizeLots, pos.sizeLots, pos.entryTicks, price, mark, tickSize);
    SplitLots(Sign(Opposite(pos.side)), lots, pos.sizeLots, mark - price, tickSize);
    assert Sign(pos.side) * (pos.sizeLots - pos.sizeLots) == 0;
  }

  lemma SplitLots(s: int, l: int, q: int, x: int, t: int)
    ensures s * (l - q) * x * t == s * l * x * t - s * q * x * t
  {
    Distribute(l - q, q, s);
    Distribute(s * (l - q), s * q, x);
    Distribute(s * (l - q) * x, s * q * x, t);
  }

  // ----- when a fill goes through, and what it resets -----

  /** The gain of the lots that a fill closes, in ticks. */
  function ClosedTicks(pos: Pos, lots: U64, price: U64): int {
    Sign(pos.side) * Min(lots, pos.sizeLots) * (price - pos.entryTicks)
  }

  /** Opening never fails, stacking exactly when the size overflows, and closing exactly
      when the gain does not fit 64 bits, or at tick size 0 its ticks 128. */
  lemma ApplyFillSucceeds(pos: Pos, fillSide: Side, lots: U64, price: U64, tickSize: U64)
    ensures ApplyFill(pos, fillSide, lots, price, tickSize).Success? <==>
      || pos.sizeLots == 0
      || (pos.side == fillSide && pos.sizeLots + lots <= U64_MAX)
      || (pos.side != fillSide && InI64(ClosedTicks(pos, lots, price) * tickSize)
          && (tickSize > 0 || InI128(ClosedTicks(pos, lots, price))))
    ensures ApplyFill(pos, fillSide, lots, price, tickSize).Failure? ==>
      ApplyFill(pos, fillSide, lots, price, tickSize).error == Overflow
  {
    if pos.sizeLots > 0 && pos.side == fillSide && pos.sizeLots + lots <= U64_MAX {
      WeightedFits(pos.entryTicks, pos.sizeLots, price, lots);
    } else if pos.sizeLots > 0 && pos.side != fillSide {
      WideGain(ClosedTicks(pos, lots, price), tickSize);
      hide InI64, InI128;
    }
  }

  lemma WeightedFits(entry: U64, size: U64, price: U64, lots: U64)
    requires size + lots <= U64_MAX
    ensures Weighted(entry, size, price, lots) <= U128_MAX
  {
    Scale(size, entry, U64_MAX);
    Scale(lots, price, U64_MAX);
    Scale(U64_MAX, size + lots, U64_MAX);
    Distribute(size, lots, U64_MAX);
  }

  /** A gain that fits 64 bits after scaling by a positive tick fitted 128 before. */
  lemma WideGain(gain: int, tick: nat)
    ensures InI64(gain * tick) ==> InI128(gain * tick) && (tick > 0 ==> InI128(gain))
  {
    if tick > 0 && gain >= 0 {
      Scale(gain, 1, tick);
    } else if tick > 0 {
      Scale(-gain, 1, tick);
      assert -gain * tick == -(gain * tick);
    }
  }

  /** The funding basis is reset exactly when the position was flat, becomes flat, or
      changes sides: whenever a fresh basis of lots begins. */
  lemma ResetExact(pos: Pos, fillSide: Side, lots: U64, price: U64, tickSize: U64)
    requires ApplyFill(pos, fillSide, lots, price, tickSize).Success?
    ensures var out := ApplyFill(pos, fillSide, lots, price, tickSize).value;
      out.resetFunding <==> pos.sizeLots == 0 || out.pos.sizeLots == 0 || out.pos.side != pos.side
  {
  }

  /** Gains are realized only on lots that are closed, and those that stay keep their
      entry; a position that flips enters at the fill, and a flat one has no entry. */
  lemma EntryKept(pos: Pos, fillSide: Side, lots: U64, price: U64, tickSize: U64)
    requires ApplyFill(pos, fillSide, lots, price, tickSize).Success? && pos.sizeLots > 0
    ensures var out := ApplyFill(pos, fillSide, lots, price, tickSize).value;
      && (pos.side == fillSide ==> out.realizedPnlQuoteLots == 0)
      && (pos.side != fillSide ==>
            && out.realizedPnlQuoteLots == ClosedTicks(pos, lots, price) * tickSize
            && out.pos.entryTicks
               == (if lots < pos.sizeLots then pos.entryTicks else if lots > pos.sizeLots then price else 0))
  {
  }

  // ----- runs of two-sided fills -----

  function SignedLots(pos: Pos): int {
    Sign(pos.side) * pos.sizeLots
  }

  lemma ApplyFillLots(pos: Pos, fillSide: Side, lots: U64, price: U64, tickSize: U64)
    requires ApplyFill(pos, fillSide, lots, price, tickSize).Success?
    ensures SignedLots(ApplyFill(pos, fillSide, lots, price, tickSize).value.pos)
         == SignedLots(pos) + Sign(fillSide) * lots
  {
  }

  datatype Account = Account(pos: Pos, realized: int)

  datatype Trade = Trade(taker: nat, maker: nat, takerSide: Side, lots: U64, price: U64)

  /** One leg of a trade; the account is left alone when the arithmetic refuses. */
  function Leg(a: Account, side: Side, t: Trade, tickSize: U64): Result<Account, PosMathError> {
    match ApplyFill(a.pos, side, t.lots, t.price, tickSize)
    case Success(out) => Success(Account(out.pos, a.realized + out.realizedPnlQuoteLots))
    case Failure(e) => Failure(e)
  }

  /** Both legs settle, or neither does. */
  function Settle(book: seq<Account>, t: Trade, tickSize: U64): (r: seq<Account>)
    requires t.taker < |book| && t.maker < |book|
    ensures |r| == |book|
  {
    match Leg(book[t.taker], t.takerSide, t, tickSize)
    case Failure(_) => book
    case Success(taker) =>
      var mid := book[t.taker := taker];
      match Leg(mid[t.maker], Opposite(t.takerSide), t, tickSize)
      case Failure(_) => book
      case Success(maker) => mid[t.maker := maker]
  }

  predicate Among(trades: seq<Trade>, n: nat) {
    forall i :: 0 <= i < |trades| ==> trades[i].taker < n && trades[i].maker < n
  }

  function Run(book: seq<Account>, trades: seq<Trade>, tickSize: U64): (r: seq<Account>)
    requires Among(trades, |book|)
    ensures |r| == |book|
    decreases |trades|
  {
    if trades == [] then book else Run(Settle(book, trades[0], tickSize), trades[1..], tickSize)
  }

  /** A run is its trades, one after the other. */
  lemma {:induction false} RunIsTrades(book: seq<Account>, trades: seq<Trade>, t: Trade, tickSize: U64)
    requires Among(trades, |book|) && t.taker < |book| && t.maker < |book|
    ensures Among(trades + [t], |book|) && Run(book, [], tickSize) == book
    ensures Run(book, trades + [t], tickSize) == Settle(Run(book, trades, tickSize), t, tickSize)
    decreases |trades|
  {
    hide Settle;
    if trades == [] {
      assert [] + [t] == [t] && [t][1..] == [];
      assert Run(Settle(book, t, tickSize), [], tickSize) == Settle(book, t, tickSize);
    } else {
      assert (trades + [t])[0] == trades[0] && (trades + [t])[1..] == trades[1..] + [t];
      RunIsTrades(Settle(book, trades[0], tickSize), trades[1..], t, tickSize);
    }
  }

  function Equity(a: Account, mark: int, tickSize: int): int {
    a.realized + Unrealized(a.pos, mark, tickSize)
  }

  function TotalEquity(book: seq<Account>, mark: int, tickSize: int): int {
    if book == [] then 0 else TotalEquity(book[..|book| - 1], mark, tickSize) + Equity(book[|book| - 1], mark, tickSize)
  }

  function NetLots(book: seq<Account>): int {
    if book == [] then 0 else NetLots(book[..|book| - 1]) + SignedLots(book[|book| - 1].pos)
  }

  function LongLots(book: seq<Account>): nat {
    if book == [] then 0
    else LongLots(book[..|book| - 1]) + LotsOn(book[|book| - 1].pos, SIDE_LONG)
  }

  function ShortLots(book: seq<Account>): nat {
    if book == [] then 0
    else ShortLots(book[..|book| - 1]) + LotsOn(book[|book| - 1].pos, SIDE_SHORT)
  }

  function LotsOn(pos: Pos, side: Side): nat {
    if pos.side == side then pos.sizeLots else 0
  }

  lemma {:induction false} NetIsLongLessShort(book: seq<Account>)
    ensures NetLots(book) == LongLots(book) - ShortLots(book)
  {
    if book != [] {
      NetIsLongLessShort(book[..|book| - 1]);
    }
  }

  lemma {:induction false} Replaced(book: seq<Account>, i: nat, a: Account, mark: int, tickSize: int)
    requires i < |book|
    ensures TotalEquity(book[i := a], mark, tickSize)
         == TotalEquity(book, mark, tickSize) - Equity(book[i], mark, tickSize) + Equity(a, mark, tickSize)
    ensures NetLots(book[i := a]) == NetLots(book) - SignedLots(book[i].pos) + SignedLots(a.pos)
  {
    var n := |book| - 1;
    if i == n {
      assert book[i := a][..n] == book[..n];
    } else {
      Replaced(book[..n], i, a, mark, tickSize);
      assert book[i := a][..n] == book[..n][i := a];
    }
  }

  /** What rounding takes in one settled trade: at most one share per leg. */
  function TradeDust(book: seq<Account>, t: Trade, tickSize: U64): (r: nat)
    requires t.taker < |book| && t.maker < |book|
  {
    match Leg(book[t.taker], t.takerSide, t, tickSize)
    case Failure(_) => 0
    case Success(taker) =>
      var mid := book[t.taker := taker];
      match Leg(mid[t.maker], Opposite(t.takerSide), t, tickSize)
      case Failure(_) => 0
      case Success(_) =>
        FillDust(book[t.taker].pos, t.takerSide, t.lots, t.price)
        + FillDust(mid[t.maker].pos, Opposite(t.takerSide), t.lots, t.price)
  }

  function RunDust(book: seq<Account>, trades: seq<Trade>, tickSize: U64): nat
    requires Among(trades, |book|)
    decreases |trades|
  {
    if trades == [] then 0
    else TradeDust(book, trades[0], tickSize) + RunDust(Settle(book, trades[0], tickSize), trades[1..], tickSize)
  }

  /** The two legs' own terms cancel: a trade moves value only by rounding. */
  lemma SettleValue(book: seq<Account>, t: Trade, tickSize: U64, mark: int)
    requires t.taker < |book| && t.maker < |book|
    ensures TotalEquity(Settle(book, t, tickSize), mark, tickSize)
         == TotalEquity(book, mark, tickSize) - TradeDust(book, t, tickSize) * tickSize
    ensures NetLots(Settle(book, t, tickSize)) == NetLots(book)
  {
    hide ApplyFill, FillDust, Equity, FillTerm, SignedLots;
    var side, other := t.takerSide, Opposite(t.takerSide);
    var leg1 := Leg(book[t.taker], side, t, tickSize);
    if leg1.Success? {
      var mid := book[t.taker := leg1.value];
      var leg2 := Leg(mid[t.maker], other, t, tickSize);
      if leg2.Success? {
        LegValue(book, t.taker, side, t, tickSize, mark);
        LegValue(mid, t.maker, other, t, tickSize, mark);
        TermsCancel(side, t.lots, t.price, mark, tickSize);
        Distribute(FillDust(book[t.taker].pos, side, t.lots, t.price),
                   FillDust(mid[t.maker].pos, other, t.lots, t.price), tickSize);
      }
    }
  }

  /** A trade between two accounts settles exactly when both legs can: then the lots go
      from the one to the other, and every other account is as it was. */
  lemma SettleMoves(book: seq<Account>, t: Trade, tickSize: U64)
    requires t.taker < |book| && t.maker < |book| && t.taker != t.maker
    ensures var book' := Settle(book, t, tickSize);
      if ApplyFill(book[t.taker].pos, t.takerSide, t.lots, t.price, tickSize).Success?
         && ApplyFill(book[t.maker].pos, Opposite(t.takerSide), t.lots, t.price, tickSize).Success?
      then
        && SignedLots(book'[t.taker].pos) == SignedLots(book[t.taker].pos) + Sign(t.takerSide) * t.lots
        && SignedLots(book'[t.maker].pos) == SignedLots(book[t.maker].pos) - Sign(t.takerSide) * t.lots
        && forall i :: 0 <= i < |book| && i != t.taker && i != t.maker ==> book'[i] == book[i]
      else book' == book
  {
    hide ApplyFill, SignedLots;
    if ApplyFill(book[t.taker].pos, t.takerSide, t.lots, t.price, tickSize).Success?
       && ApplyFill(book[t.maker].pos, Opposite(t.takerSide), t.lots, t.price, tickSize).Success? {
      ApplyFillLots(book[t.taker].pos, t.takerSide, t.lots, t.price, tickSize);
      ApplyFillLots(book[t.maker].pos, Opposite(t.takerSide), t.lots, t.price, tickSize);
    }
  }

  lemma TermsCancel(side: Side, lots: U64, price: U64, mark: int, tickSize: U64)
    ensures FillTerm(side, lots, price, mark, tickSize) + FillTerm(Opposite(side), lots, price, mark, tickSize) == 0
  {
    Scaled(1, lots, mark - price, tickSize);
    Scaled(-1, lots, mark - price, tickSize);
    assert (-1) * (lots * (mark - price)) * tickSize == -(lots * (mark - price) * tickSize);
  }

  lemma LegValue(book: seq<Account>, i: nat, side: Side, t: Trade, tickSize: U64, mark: int)
    requires i < |book| && Leg(book[i], side, t, tickSize).Success?
    ensures var after := book[i := Leg(book[i], side, t, tickSize).value];
      && TotalEquity(after, mark, tickSize)
         == TotalEquity(book, mark, tickSize) + FillTerm(side, t.lots, t.price, mark, tickSize)
            - FillDust(book[i].pos, side, t.lots, t.price) * tickSize
      && NetLots(after) == NetLots(book) + Sign(side) * t.lots
  {
    hide ApplyFill, FillDust, FillTerm, SignedLots, Unrealized;
    ApplyFillValue(book[i].pos, side, t.lots, t.price, tickSize, mark);
    ApplyFillLots(book[i].pos, side, t.lots, t.price, tickSize);
    Replaced(book, i, Leg(book[i], side, t, tickSize).value, mark, tickSize);
  }

  /** Over any run and at every mark, value falls by exactly what rounding took. */
  lemma {:induction false} RunValue(book: seq<Account>, trades: seq<Trade>, tickSize: U64, mark: int)
    requires Among(trades, |book|)
    ensures TotalEquity(Run(book, trades, tickSize), mark, tickSize)
         == TotalEquity(book, mark, tickSize) - RunDust(book, trades, tickSize) * tickSize
    ensures NetLots(Run(book, trades, tickSize)) == NetLots(book)
    decreases |trades|
  {
    hide Settle, TradeDust, Equity;
    if trades != [] {
      var t, rest := trades[0], trades[1..];
      SettleValue(book, t, tickSize, mark);
      RunValue(Settle(book, t, tickSize), rest, tickSize, mark);
      Telescope(TotalEquity(book, mark, tickSize), TotalEquity(Settle(book, t, tickSize), mark, tickSize),
                TotalEquity(Run(book, trades, tickSize), mark, tickSize),
                TradeDust(book, t, tickSize), RunDust(Settle(book, t, tickSize), rest, tickSize), tickSize);
    }
  }

  lemma Telescope(e0: int, e1: int, e2: int, d1: int, d2: int, tick: int)
    requires e1 == e0 - d1 * tick && e2 == e1 - d2 * tick
    ensures e2 == e0 - (d1 + d2) * tick
  {
  }

  /** From flat accounts no run creates value: long lots equal short lots, and total
      equity is at most zero at every mark. */
  lemma FromFlat(n: nat, trades: seq<Trade>, tickSize: U64, mark: int)
    requires Among(trades, n)
    ensures var book := Run(seq(n, _ => Account(FLAT, 0)), trades, tickSize);
      && LongLots(book) == ShortLots(book)
      && TotalEquity(book, mark, tickSize) <= 0
  {
    var start := seq(n, _ => Account(FLAT, 0));
    FlatIsZero(start, mark, tickSize);
    RunValue(start, trades, tickSize, mark);
    NetIsLongLessShort(Run(start, trades, tickSize));
    ProductNotNegative(RunDust(start, trades, tickSize), tickSize);
  }

  lemma ProductNotNegative(a: nat, b: nat)
    ensures a * b >= 0
  {
  }

  lemma {:induction false} FlatIsZero(book: seq<Account>, mark: int, tickSize: U64)
    requires forall i :: 0 <= i < |book| ==> book[i] == Account(FLAT, 0)
    ensures TotalEquity(book, mark, tickSize) == 0 && NetLots(book) == 0
  {
    if book != [] {
      FlatIsZero(book[..|book| - 1], mark, tickSize);
      assert book[|book| - 1] == Account(FLAT, 0);
    }
  }
}
