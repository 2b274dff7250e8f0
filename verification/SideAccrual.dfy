/** Lazy deleveraging: one multiplier per side stands for the product of every
    reduction, and a position reads its size off it. */
module SideAccruals {
  import opened Arithmetic
  import opened Bytes

  const ADL_ONE: U128 := 1_000_000_000_000_000

  /** A requested reduction: the side shrinks by numerator / denominator. */
  datatype Reduction = Reduction(numerator: U128, denominator: U128)

  /** Only proper fractions shrink the side; the rest are ignored. */
  predicate Applies(r: Reduction) {
    r.numerator < r.denominator
  }

  function SaturatingMul(a: U128, b: U128): U128 {
    if a * b > U128_MAX then U128_MAX else a * b
  }

  function ReducedA(a: U128, r: Reduction): (a': U128)
    ensures a' <= a || Saturates(a, r)
  {
    if r.denominator == 0 || r.numerator >= r.denominator then a
    else
      FloorBounds(SaturatingMul(a, r.numerator), r.denominator);
      NoGrowth(a, r.numerator, r.denominator, SaturatingMul(a, r.numerator) / r.denominator);
      SaturatingMul(a, r.numerator) / r.denominator
  }

  predicate Saturates(a: U128, r: Reduction) {
    Applies(r) && a * r.numerator > U128_MAX
  }

  lemma NoGrowth(a: nat, n: nat, d: nat, q: nat)
    requires n < d && (q * d <= a * n || q * d <= U128_MAX < a * n)
    ensures q <= a
  {
    Scale(a, n, d);
    AtMost(q, a, d);
  }

  class SideAccrual {
    var a: U128

    constructor ()
      ensures a == ADL_ONE
    {
      a := ADL_ONE;
    }

    method ReduceAProRata(numerator: U128, denominator: U128) returns (newA: U128)
      modifies this
      ensures newA == a == ReducedA(old(a), Reduction(numerator, denominator))
    {
      if denominator == 0 || numerator >= denominator {
        return a;
      }
      newA := SaturatingMul(a, numerator) / denominator;
      a := newA;
    }

    /** A run of reductions. */
    method ReduceAll(steps: seq<Reduction>)
      modifies this
      ensures a == RunA(old(a), steps)
    {
      for i := 0 to |steps|
        invariant a == RunA(old(a), steps[..i])
      {
        assert steps[..i + 1] == steps[..i] + [steps[i]];
        var _ := ReduceAProRata(steps[i].numerator, steps[i].denominator);
      }
      assert steps[..|steps|] == steps;
    }
  }

  function RunA(a: U128, steps: seq<Reduction>): U128 {
    if steps == [] then a else ReducedA(RunA(a, steps[..|steps| - 1]), steps[|steps| - 1])
  }

  /** No step of the run saturates. */
  predicate Fits(a: U128, steps: seq<Reduction>) {
    steps == [] || (Fits(a, steps[..|steps| - 1]) && !Saturates(RunA(a, steps[..|steps| - 1]), steps[|steps| - 1]))
  }

  function Count(steps: seq<Reduction>): nat {
    if steps == [] then 0 else Count(steps[..|steps| - 1]) + if Applies(steps[|steps| - 1]) then 1 else 0
  }

  /** The exact product of the applied ratios is Numer over Denom. */
  function Numer(steps: seq<Reduction>): nat {
    if steps == [] then 1
    else if Applies(steps[|steps| - 1]) then Times(Numer(steps[..|steps| - 1]), steps[|steps| - 1].numerator)
    else Numer(steps[..|steps| - 1])
  }

  function Denom(steps: seq<Reduction>): (d: nat)
    ensures d > 0
  {
    if steps == [] then 1
    else if Applies(steps[|steps| - 1]) then
      Positive(Denom(steps[..|steps| - 1]), steps[|steps| - 1].denominator);
      Times(Denom(steps[..|steps| - 1]), steps[|steps| - 1].denominator)
    else Denom(steps[..|steps| - 1])
  }

  function Times(a: nat, b: nat): nat {
    a * b
  }

  lemma Positive(a: nat, b: nat)
    requires a > 0 && b > 0
    ensures Times(a, b) > 0
  {
    Above(a, 0, b);
  }

  lemma Regroup(a: nat, b: nat, c: nat)
    ensures Times(a, Times(b, c)) == Times(b, Times(a, c)) == Times(c, Times(a, b)) == Times(Times(a, b), c)
  {
    assert a * (b * c) == a * b * c;
    assert b * (a * c) == b * a * c;
    assert c * (a * b) == a * b * c;
  }

  lemma More(k: nat, a: nat, b: nat)
    requires a <= b
    ensures Times(k, a) <= Times(k, b)
  {
    Scale(k, a, b);
  }

  /** One floored step against the exact product, over the common denominator. */
  lemma StepTracks(a: nat, a0: nat, num: nat, den: nat, n: nat, d: nat, a': nat, k: nat)
    requires Times(a, den) <= Times(a0, num) <= Times(a + k, den)
    requires n < d && a' * d <= a * n < a' * d + d
    ensures Times(a', Times(den, d)) <= Times(a0, Times(num, n)) <= Times(a' + (k + 1), Times(den, d))
  {
    var exact := Times(a0, num);
    Regroup(a0, num, n);
    assert Times(a0, Times(num, n)) == Times(n, exact);
    // Below.
    More(n, Times(a, den), exact);
    Regroup(n, a, den);
    Regroup(a', den, d);
    More(den, Times(a', d), Times(a, n));
    assert Times(a, n) == Times(n, a) && Times(d, a') == Times(a', d);
    // Above.
    More(n, exact, Times(a + k, den));
    Regroup(n, a + k, den);
    Regroup(a' + (k + 1), den, d);
    UpperStep(a, n, d, a', k);
    More(den, Times(n, a + k), Times(a' + (k + 1), d));
  }

  lemma UpperStep(a: nat, n: nat, d: nat, a': nat, k: nat)
    requires n < d && a * n < a' * d + d
    ensures Times(n, a + k) <= Times(a' + (k + 1), d)
  {
    Scale(k, n, d);
    assert n * (a + k) == a * n + k * n;
    assert (a' + (k + 1)) * d == a' * d + k * d + d;
  }

  /** The multiplier tracks the exact product from below, within one per reduction. */
  lemma {:induction false} RunTracks(a: U128, steps: seq<Reduction>)
    requires Fits(a, steps)
    ensures Times(RunA(a, steps), Denom(steps)) <= Times(a, Numer(steps))
    ensures Times(a, Numer(steps)) <= Times(RunA(a, steps) + Count(steps), Denom(steps))
  {
    if steps != [] {
      var rest, r := steps[..|steps| - 1], steps[|steps| - 1];
      RunTracks(a, rest);
      hide Times, Fits;
      if Applies(r) {
        Reduced(RunA(a, rest), r);
        StepTracks(RunA(a, rest), a, Numer(rest), Denom(rest), r.numerator, r.denominator, RunA(a, steps), Count(rest));
      }
    }
  }

  lemma Reduced(a: U128, r: Reduction)
    requires Applies(r) && !Saturates(a, r)
    ensures ReducedA(a, r) * r.denominator <= a * r.numerator < ReducedA(a, r) * r.denominator + r.denominator
  {
    FloorBounds(a * r.numerator, r.denominator);
  }

  function EffectiveLots(basisLots: U64, aNow: U128, aSnap: U128): U64 {
    if aSnap == 0 then 0
    else
      var lots := SaturatingMul(basisLots, aNow) / aSnap;
      FloorBounds(SaturatingMul(basisLots, aNow), aSnap);
      if lots > U64_MAX then U64_MAX else lots
  }

  lemma {:induction false} RunShrinks(a: U128, steps: seq<Reduction>)
    requires Fits(a, steps)
    ensures RunA(a, steps) <= a
  {
    if steps != [] {
      RunShrinks(a, steps[..|steps| - 1]);
    }
  }

  /** The size a position reads is the floor of its share, with no saturation. */
  lemma EffectiveFloor(basisLots: U64, aNow: U128, aSnap: U128)
    requires 0 < aSnap <= ADL_ONE && aNow <= aSnap
    ensures EffectiveLots(basisLots, aNow, aSnap) == basisLots * aNow / aSnap <= basisLots
  {
    Scale(basisLots, aNow, aSnap);
    Scale(basisLots, aSnap, ADL_ONE);
    ShareOf(basisLots, aNow, aSnap);
  }

  lemma ShareOf(basis: nat, a: nat, snap: nat)
    requires 0 < snap && basis * a <= basis * snap
    ensures 0 <= basis * a && 0 <= basis * a / snap <= basis
    ensures Times(basis * a / snap, snap) <= Times(basis, a) < Times(basis * a / snap, snap) + snap
  {
    FloorBounds(basis * a, snap);
    AtMost(basis * a / snap, basis, snap);
  }

  /** Lazy deleveraging tracks the exact product p = Numer / Denom: after a run of k
      reductions a position is never larger than its exact share, basis * p, and is
      short of it by less than 1 + basis * k / aSnap. */
  lemma LazyTracksExact(basisLots: U64, aSnap: U128, steps: seq<Reduction>)
    requires 0 < aSnap <= ADL_ONE && Fits(aSnap, steps)
    ensures var lots, k := EffectiveLots(basisLots, RunA(aSnap, steps), aSnap), Count(steps);
      && Times(lots, Denom(steps)) <= Times(basisLots, Numer(steps))
      && Times(aSnap, Times(basisLots, Numer(steps)))
         < Times(Denom(steps), Times(lots, aSnap) + aSnap + Times(basisLots, k))
  {
    var a := RunA(aSnap, steps);
    RunTracks(aSnap, steps);
    RunShrinks(aSnap, steps);
    EffectiveFloor(basisLots, a, aSnap);
    Scale(basisLots, a, aSnap);
    ShareOf(basisLots, a, aSnap);
    hide RunA, Numer, Denom, Count, EffectiveLots, Fits, Times;
    ShareBounds(basisLots, a, aSnap, Numer(steps), Denom(steps), Count(steps), EffectiveLots(basisLots, a, aSnap));
  }

  lemma ShareBounds(basis: nat, a: nat, snap: nat, num: nat, den: nat, k: nat, lots: nat)
    requires snap > 0 && den > 0 && Times(a, den) <= Times(snap, num) <= Times(a + k, den)
    requires Times(lots, snap) <= Times(basis, a) < Times(lots, snap) + snap
    ensures Times(lots, den) <= Times(basis, num)
    ensures Times(snap, Times(basis, num)) < Times(den, Times(lots, snap) + snap + Times(basis, k))
  {
    More(den, Times(lots, snap), Times(basis, a));
    More(basis, Times(a, den), Times(snap, num));
    More(basis, Times(snap, num), Times(a + k, den));
    Regroup(basis, a, den);
    Regroup(basis, snap, num);
    Regroup(lots, snap, den);
    Regroup(basis, a + k, den);
    CancelTimes(snap, Times(lots, den), Times(basis, num));
    SplitTimes(basis, a, k);
    StrictlyMore(den, Times(basis, a + k), Times(lots, snap) + snap + Times(basis, k));
  }

  lemma CancelTimes(k: nat, a: nat, b: nat)
    requires k > 0
    ensures Times(k, a) <= Times(k, b) ==> a <= b
  {
    if a > b {
      Above(a, b, k);
    }
  }

  lemma SplitTimes(k: nat, a: nat, b: nat)
    ensures Times(k, a + b) == Times(k, a) + Times(k, b)
  {
  }

  lemma StrictlyMore(k: nat, a: nat, b: nat)
    requires k > 0 && a < b
    ensures Times(k, a) < Times(k, b)
  {
    Above(b, a, k);
  }

  /** Numerators are lots of open interest, 64 bits wide: no run of them saturates. */
  lemma {:induction false} LotsFit(a: U128, steps: seq<Reduction>)
    requires a <= ADL_ONE && forall i :: 0 <= i < |steps| ==> steps[i].numerator <= U64_MAX
    ensures Fits(a, steps)
  {
    if steps != [] {
      var rest, r := steps[..|steps| - 1], steps[|steps| - 1];
      LotsFit(a, rest);
      RunShrinks(a, rest);
      Scale(RunA(a, rest), r.numerator, U64_MAX);
      Scale(U64_MAX, RunA(a, rest), ADL_ONE);
    }
  }

  /** So for every run of reductions the program can request, the lazily read size is
      the exact share from below, short of it by less than 1 + basis * k / aSnap. */
  lemma LotsTrackExact(basisLots: U64, aSnap: U128, steps: seq<Reduction>)
    requires 0 < aSnap <= ADL_ONE && forall i :: 0 <= i < |steps| ==> steps[i].numerator <= U64_MAX
    ensures var lots, k := EffectiveLots(basisLots, RunA(aSnap, steps), aSnap), Count(steps);
      && Times(lots, Denom(steps)) <= Times(basisLots, Numer(steps))
      && Times(aSnap, Times(basisLots, Numer(steps)))
         < Times(Denom(steps), Times(lots, aSnap) + aSnap + Times(basisLots, k))
  {
    LotsFit(aSnap, steps);
    LazyTracksExact(basisLots, aSnap, steps);
  }
}
