/** Many holders share one residual: what any run of releases, matures and converts
    pays out, and that no holder's gains are lost. */
module HaircutRuns {
  import opened Arithmetic
  import opened Bytes
  import opened Wrappers
  import opened Haircut

  datatype Market = Market(residual: U128, maturedTotal: U128, dust: U128, hMin: U64, hMax: U64)

  /** A position, and the history of what it gained and was given. */
  datatype Holder = Holder(pos: PositionHaircut, gained: nat, credited: nat, dusted: nat)

  datatype World = World(market: Market, holders: seq<Holder>)

  datatype Op =
    | Release(who: nat, gain: U64, now: U64)
    | Mature(who: nat, now: U64)
    | Convert(who: nat)

  function RatioOf(m: Market): (h: U128)
    ensures h <= H_DENOM
  {
    ComputeH(m.residual, m.maturedTotal)
  }

  /** The checked subtractions and additions of a convert all succeed. */
  predicate ConvertFits(w: World, who: nat)
    requires who < |w.holders|
  {
    var p := w.holders[who].pos;
    var (post, credit, dust) := ApplyConvert(p, RatioOf(w.market));
    && p.maturedPos <= w.market.maturedTotal && credit <= w.market.residual
    && w.market.dust + dust <= U128_MAX
  }

  function Put(w: World, who: nat, h: Holder): World
    requires who < |w.holders|
  {
    w.(holders := w.holders[who := h])
  }

  /** One instruction; a failed one leaves everything as it was. */
  function Step(w: World, op: Op): World {
    if op.who >= |w.holders| then w
    else
      var h, m := w.holders[op.who], w.market;
      match op
      case Release(who, gain, now) => (
        match ApplyRelease(h.pos, gain, now, m.hMin)
        case Failure(_) => w
        case Success(post) => Put(w, who, h.(pos := post, gained := h.gained + gain)))
      case Mature(who, now) => (
        match ApplyMature(h.pos, now, m.hMin, m.hMax)
        case Failure(_) => w
        case Success((post, delta)) =>
          if m.maturedTotal + delta > U128_MAX then w
          else Put(w, who, h.(pos := post)).(market := m.(maturedTotal := m.maturedTotal + delta)))
      case Convert(who) =>
        if !ConvertFits(w, who) then w
        else
          var (post, credit, dust) := ApplyConvert(h.pos, RatioOf(m));
          Put(w, who, h.(pos := post, credited := h.credited + credit, dusted := h.dusted + dust))
          .(market := m.(residual := m.residual - credit, maturedTotal := m.maturedTotal - h.pos.maturedPos,
                         dust := m.dust + dust))
  }

  function Run(w: World, ops: seq<Op>): World
    decreases |ops|
  {
    if ops == [] then w else Run(Step(w, ops[0]), ops[1..])
  }

  /** A run is its steps, one after the other. */
  lemma {:induction false} RunIsSteps(w: World, ops: seq<Op>, op: Op)
    ensures Run(w, []) == w && Run(w, ops + [op]) == Step(Run(w, ops), op)
    decreases |ops|
  {
    hide Step;
    if ops == [] {
      assert [] + [op] == [op] && [op][1..] == [];
      assert Run(Step(w, op), []) == Step(w, op);
    } else {
      assert (ops + [op])[0] == ops[0] && (ops + [op])[1..] == ops[1..] + [op];
      RunIsSteps(Step(w, ops[0]), ops[1..], op);
    }
  }

  // ----- totals -----

  function Matured(hs: seq<Holder>): nat {
    if hs == [] then 0 else Matured(hs[..|hs| - 1]) + hs[|hs| - 1].pos.maturedPos
  }

  function Credited(hs: seq<Holder>): nat {
    if hs == [] then 0 else Credited(hs[..|hs| - 1]) + hs[|hs| - 1].credited
  }

  function Dusted(hs: seq<Holder>): nat {
    if hs == [] then 0 else Dusted(hs[..|hs| - 1]) + hs[|hs| - 1].dusted
  }

  lemma {:induction false} Replaced(hs: seq<Holder>, who: nat, h: Holder)
    requires who < |hs|
    ensures Matured(hs[who := h]) == Matured(hs) - hs[who].pos.maturedPos + h.pos.maturedPos
    ensures Credited(hs[who := h]) == Credited(hs) - hs[who].credited + h.credited
    ensures Dusted(hs[who := h]) == Dusted(hs) - hs[who].dusted + h.dusted
    ensures hs[who].pos.maturedPos <= Matured(hs)
  {
    var n := |hs| - 1;
    if who == n {
      assert hs[who := h][..n] == hs[..n];
    } else {
      Replaced(hs[..n], who, h);
      assert hs[who := h][..n] == hs[..n][who := h];
    }
  }

  /** Every gain is in the reserve, matured, credited or dust; nothing is lost. */
  predicate Accounted(h: Holder) {
    h.gained == h.pos.releasedReserve + h.pos.maturedPos + h.credited + h.dusted
  }

  ghost predicate Sound(w: World) {
    && w.market.maturedTotal == Matured(w.holders)
    && forall i :: 0 <= i < |w.holders| ==> Tracked(w.holders[i].pos) && Accounted(w.holders[i])
  }

  /** The ratio is exact when this step converts. */
  predicate Exact(w: World, op: Op) {
    op.Convert? ==> NoFallback(w.market.residual, w.market.maturedTotal)
  }

  ghost predicate ExactRun(w: World, ops: seq<Op>)
    decreases |ops|
  {
    ops == [] || (Exact(w, ops[0]) && ExactRun(Step(w, ops[0]), ops[1..]))
  }

  lemma StepKeeps(w: World, op: Op)
    requires Sound(w)
    ensures Sound(Step(w, op))
    ensures var w' := Step(w, op);
      && w'.market.residual + Credited(w'.holders) == w.market.residual + Credited(w.holders)
      && w'.market.dust + Dusted(w.holders) == w.market.dust + Dusted(w'.holders)
      && |w'.holders| == |w.holders|
  {
    var w' := Step(w, op);
    if w' != w {
      Replaced(w.holders, op.who, w'.holders[op.who]);
      StepMatured(w, op);
      HolderKeeps(w, op);
    }
  }

  /** What a step moves between one holder and the market. */
  lemma StepMatured(w: World, op: Op)
    requires Sound(w) && op.who < |w.holders|
    ensures var w' := Step(w, op);
      && |w'.holders| == |w.holders| && w'.holders == w.holders[op.who := w'.holders[op.who]]
      && var h, h' := w.holders[op.who], w'.holders[op.who];
      && w'.market.maturedTotal - w.market.maturedTotal == h'.pos.maturedPos - h.pos.maturedPos
      && w.market.residual - w'.market.residual == h'.credited - h.credited
      && w'.market.dust - w.market.dust == h'.dusted - h.dusted
  {
    hide ComputeH, MaturedFraction, Blended;
  }

  lemma HolderKeeps(w: World, op: Op)
    requires Sound(w) && op.who < |w.holders|
    ensures var w' := Step(w, op);
      op.who < |w'.holders| && Tracked(w'.holders[op.who].pos) && Accounted(w'.holders[op.who])
  {
    hide ComputeH, MaturedFraction, Blended;
    assert Tracked(w.holders[op.who].pos) && Accounted(w.holders[op.who]);
  }

  /** A convert never fails for want of residual or matured total. */
  lemma ConvertPays(w: World, who: nat)
    requires Sound(w) && who < |w.holders| && NoFallback(w.market.residual, w.market.maturedTotal)
    ensures var p := w.holders[who].pos;
      p.maturedPos <= w.market.maturedTotal && ApplyConvert(p, RatioOf(w.market)).1 <= w.market.residual
  {
    Replaced(w.holders, who, w.holders[who]);
    CreditBacked(w.market.residual, w.market.maturedTotal, w.holders[who].pos.maturedPos);
  }

  /** The dust counter has room for whatever this convert leaves. */
  predicate DustFits(w: World, who: nat)
    requires who < |w.holders|
  {
    w.market.dust + w.holders[who].pos.maturedPos <= U128_MAX
  }

  ghost predicate AlwaysPays(w: World, ops: seq<Op>)
    decreases |ops|
  {
    ops == [] ||
    (&& (ops[0].Convert? && ops[0].who < |w.holders| && DustFits(w, ops[0].who) ==> ConvertFits(w, ops[0].who))
     && (ops[0].Convert? ==> RatioOf(Step(w, ops[0]).market) >= RatioOf(w.market))
     && AlwaysPays(Step(w, ops[0]), ops[1..]))
  }

  /** Each convert leaves the ratio of the others at least as high. */
  lemma ConvertFair(w: World, who: nat)
    requires Sound(w) && NoFallback(w.market.residual, w.market.maturedTotal)
    ensures RatioOf(Step(w, Convert(who)).market) >= RatioOf(w.market)
  {
    if who < |w.holders| && ConvertFits(w, who) {
      ConvertPays(w, who);
      var matured := w.holders[who].pos.maturedPos;
      ConvertKeepsRatio(w.market.residual, w.market.maturedTotal, matured);
      var w' := Step(w, Convert(who));
      NothingToConvert(RatioOf(w.market));
      assert w'.market.maturedTotal == w.market.maturedTotal - matured;
      assert w'.market.residual == w.market.residual - ConvertWithHaircut(matured, RatioOf(w.market)).0;
    }
  }

  lemma NothingToConvert(h: U128)
    requires h <= H_DENOM
    ensures ConvertWithHaircut(0, h) == (0, 0)
  {
  }

  /** Over any run whose converts see an exact ratio: no convert is refused for want of
      backing, none lowers the ratio for those who wait, everything paid comes out of
      the starting residual, and every holder's gains stay accounted for. */
  lemma {:induction false} RunSolvent(w: World, ops: seq<Op>)
    requires Sound(w) && ExactRun(w, ops)
    ensures AlwaysPays(w, ops) && Sound(Run(w, ops))
    ensures var w' := Run(w, ops);
      && w'.market.residual + Credited(w'.holders) == w.market.residual + Credited(w.holders)
      && Credited(w'.holders) - Credited(w.holders) <= w.market.residual
    decreases |ops|
  {
    if ops != [] {
      var op := ops[0];
      StepKeeps(w, op);
      RunSolvent(Step(w, op), ops[1..]);
      if op.Convert? {
        ConvertFair(w, op.who);
        if op.who < |w.holders| {
          ConvertPays(w, op.who);
          DustSmall(w.holders[op.who].pos, RatioOf(w.market));
        }
      }
      hide Step, Sound, ConvertFits, RatioOf;
    }
  }

  lemma DustSmall(p: PositionHaircut, h: U128)
    requires h <= H_DENOM
    ensures ApplyConvert(p, h).2 <= p.maturedPos
  {
  }

  // ----- what every step does -----

  /** Only the one holder differs. */
  ghost predicate OnlyHolder(w: World, w': World, who: nat) {
    && |w'.holders| == |w.holders|
    && forall i :: 0 <= i < |w.holders| && i != who ==> w'.holders[i] == w.holders[i]
  }

  /** A gain is added to the holder's reserve, or refused whole. */
  lemma ReleaseEffect(w: World, who: nat, gain: U64, now: U64)
    requires who < |w.holders|
    ensures var w' := Step(w, Release(who, gain, now));
      && OnlyHolder(w, w', who) && w'.market == w.market
      && var p, p' := w.holders[who].pos, w'.holders[who].pos;
         var running := Running(p, now, w.market.hMin);
         if 0 < gain && p.releasedReserve + gain <= U64_MAX && (running ==> p.originalReserveAtAttach + gain <= U64_MAX)
         then w'.holders[who] == w.holders[who].(pos := p', gained := w.holders[who].gained + gain)
              && p'.releasedReserve == p.releasedReserve + gain && p'.maturedPos == p.maturedPos
         else w' == w
  {
    var p := w.holders[who].pos;
    ReleaseExact(p, gain, now, w.market.hMin);
    hide ApplyRelease, Running, AverageAge;
  }

  /** A mature moves what the ramp has opened from the reserve to the matured lots, of
      the holder and in total. */
  lemma MatureEffect(w: World, who: nat, now: U64)
    requires Sound(w) && who < |w.holders|
    ensures var w' := Step(w, Mature(who, now));
      && OnlyHolder(w, w', who)
      && var p, p', m := w.holders[who].pos, w'.holders[who].pos, w.market;
         var target := MaturedFraction(p.originalReserveAtAttach, p.releasedAttachedAtSlot, now, m.hMin, m.hMax);
         var drained := p.originalReserveAtAttach - p.releasedReserve;
         var delta := Max(target, drained) - drained;
         if p.maturedPos + delta <= U64_MAX && m.maturedTotal + delta <= U128_MAX
         then w'.market == m.(maturedTotal := m.maturedTotal + delta)
              && w'.holders[who] == w.holders[who].(pos := p')
              && p'.maturedPos == p.maturedPos + delta && p'.releasedReserve == p.releasedReserve - delta
         else w' == w
  {
    assert Tracked(w.holders[who].pos);
    MatureExact(w.holders[who].pos, now, w.market.hMin, w.market.hMax);
    hide ApplyMature, MaturedFraction, Sound;
  }

  /** A convert pays the holder the floor of its share out of the residual, burns the
      rest, and takes both off the matured total. */
  ghost predicate Converted(w: World, w': World, who: nat)
    requires who < |w.holders| && OnlyHolder(w, w', who)
  {
    var h, h', matured, ratio := w.holders[who], w'.holders[who], w.holders[who].pos.maturedPos, RatioOf(w.market);
    var paid := h'.credited - h.credited;
    && paid >= 0 && paid * H_DENOM <= matured * ratio < (paid + 1) * H_DENOM
    && h'.dusted == h.dusted + matured - paid && h'.gained == h.gained && h'.pos == h.pos.(maturedPos := 0)
    && w'.market.residual == w.market.residual - paid && w'.market.maturedTotal == w.market.maturedTotal - matured
    && w'.market.dust == w.market.dust + matured - paid
    && w'.market.hMin == w.market.hMin && w'.market.hMax == w.market.hMax
  }

  /** It does so whenever the dust counter has room, and else it does so or nothing. */
  lemma ConvertEffect(w: World, who: nat)
    requires Sound(w) && who < |w.holders| && NoFallback(w.market.residual, w.market.maturedTotal)
    ensures var w' := Step(w, Convert(who));
      && OnlyHolder(w, w', who) && (w' == w || Converted(w, w', who))
      && (DustFits(w, who) ==> Converted(w, w', who))
  {
    ConvertPays(w, who);
    ApplyConvertExact(w.holders[who].pos, RatioOf(w.market));
    DustSmall(w.holders[who].pos, RatioOf(w.market));
    hide ApplyConvert, RatioOf, Sound;
  }

  /** Up to 2^34 holders, no total can reach the overflow fallback. */
  lemma FewHoldersExact(w: World, op: Op)
    requires Sound(w) && |w.holders| <= 0x4_0000_0000
    ensures Exact(w, op)
  {
    MaturedBound(w.holders);
    assert w.market.maturedTotal <= 0x4_0000_0000 * 0x1_0000_0000_0000_0000;
  }

  lemma {:induction false} MaturedBound(hs: seq<Holder>)
    ensures Matured(hs) <= |hs| * 0x1_0000_0000_0000_0000
  {
    if hs != [] {
      MaturedBound(hs[..|hs| - 1]);
    }
  }

  lemma {:induction false} FewHoldersExactRun(w: World, ops: seq<Op>)
    requires Sound(w) && |w.holders| <= 0x4_0000_0000
    ensures ExactRun(w, ops)
    decreases |ops|
  {
    if ops != [] {
      FewHoldersExact(w, ops[0]);
      StepKeeps(w, ops[0]);
      FewHoldersExactRun(Step(w, ops[0]), ops[1..]);
    }
  }

  function FreshHolders(n: nat): seq<Holder> {
    seq(n, _ => Holder(FLAT_HAIRCUT, 0, 0, 0))
  }

  /** Markets start sound, with nothing paid. */
  lemma FreshSound(m: Market, n: nat)
    requires m.maturedTotal == 0
    ensures Sound(World(m, FreshHolders(n))) && Credited(FreshHolders(n)) == 0
  {
    AllFlat(FreshHolders(n));
  }

  /** A market with nothing matured yet, and up to 2^34 holders, is solvent over every
      run: whatever is released, matured and converted, no convert is refused for want
      of backing or lowers the ratio of those who wait, and all that is ever paid
      comes out of the residual. */
  lemma FreshMarketSolvent(m: Market, n: nat, ops: seq<Op>)
    requires m.maturedTotal == 0 && n <= 0x4_0000_0000
    ensures var w := World(m, FreshHolders(n));
      && AlwaysPays(w, ops) && Sound(Run(w, ops))
      && Run(w, ops).market.residual + Credited(Run(w, ops).holders) == m.residual
  {
    var w := World(m, FreshHolders(n));
    FreshSound(m, n);
    assert |w.holders| == n;
    hide Sound, Run, AlwaysPays, ExactRun, Credited, FreshHolders;
    FewHoldersExactRun(w, ops);
    RunSolvent(w, ops);
  }

  lemma {:induction false} AllFlat(hs: seq<Holder>)
    requires forall i :: 0 <= i < |hs| ==> hs[i].pos == FLAT_HAIRCUT && hs[i].credited == 0
    ensures Matured(hs) == 0 && Credited(hs) == 0
  {
    if hs != [] {
      AllFlat(hs[..|hs| - 1]);
    }
  }
}
