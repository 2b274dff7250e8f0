/** Junior profit: gains wait in a reserve, mature over a window, and convert to
    credit at the ratio that the residual can back. */
module Haircut {
  import opened Arithmetic
  import opened Bytes
  import opened Wrappers

  const H_DENOM: U128 := 1_000_000_000

  datatype HaircutError = Overflow | Underflow | ZeroGain

  datatype PositionHaircut = PositionHaircut(
    releasedReserve: U64, releasedAttachedAtSlot: U64, maturedPos: U64, originalReserveAtAttach: U64)

  const FLAT_HAIRCUT := PositionHaircut(0, 0, 0, 0)

  // ----- the ratio -----

  function ComputeH(residual: U128, matured: U128): (h: U128)
    ensures h <= H_DENOM
  {
    if matured == 0 then H_DENOM
    else
      var backed := Min(residual, matured);
      if backed * H_DENOM > U128_MAX then H_DENOM
      else
        FloorAtMost(backed * H_DENOM, matured, H_DENOM);
        backed * H_DENOM / matured
  }

  lemma FloorAtLeast(a: nat, b: nat, c: nat)
    requires b > 0 && c * b <= a
    ensures c <= a / b
  {
    FloorBounds(a, b);
    Above(c, a / b, b);
  }

  /** The product fits, or nothing needs to be cut. */
  predicate NoFallback(residual: U128, matured: U128) {
    Min(residual, matured) * H_DENOM <= U128_MAX || residual >= matured
  }

  /** The ratio is the largest one that the residual backs, exactly when the overflow
      fallback does not stand in for it. */
  lemma ComputeHExact(residual: U128, matured: U128)
    requires matured > 0
    ensures var h := ComputeH(residual, matured);
      (h * matured <= Min(residual, matured) * H_DENOM < (h + 1) * matured) <==> NoFallback(residual, matured)
  {
    var h, b := ComputeH(residual, matured), Min(residual, matured);
    if b * H_DENOM <= U128_MAX {
      FloorBounds(b * H_DENOM, matured);
      assert (h + 1) * matured == h * matured + matured;
    } else {
      assert (H_DENOM + 1) * matured == H_DENOM * matured + matured;
      if residual < matured {
        assert H_DENOM * matured > H_DENOM * residual;
      }
    }
  }

  /** With the fallback, a market backed by half pays in full. */
  lemma FallbackOverpays()
    ensures var residual, matured := 0x8_0000_0000_0000_0000_0000_0000, 0x10_0000_0000_0000_0000_0000_0000;
      ComputeH(residual, matured) == H_DENOM && residual < matured
  {
  }

  function ConvertWithHaircut(matured: U128, h: U128): (r: (U128, U128))
    requires h <= H_DENOM
    ensures r.0 + r.1 == matured
  {
    var scaled := if matured * h > U128_MAX then U128_MAX else matured * h;
    assert scaled <= matured * H_DENOM by { Scale(matured, h, H_DENOM); }
    (scaled / H_DENOM, matured - scaled / H_DENOM)
  }

  /** A convert pays the floor of its share: never more, and never a whole lot less
      unless the product is past the last multiple that 128 bits hold. */
  lemma ConvertExact(matured: U128, h: U128)
    requires h <= H_DENOM
    ensures var credit := ConvertWithHaircut(matured, h).0;
      && credit * H_DENOM <= matured * h
      && (matured * h < (credit + 1) * H_DENOM <==> matured * h < (U128_MAX / H_DENOM + 1) * H_DENOM)
  {
    Scale(matured, 0, h);
    var product := matured * h;
    FloorBounds(if product > U128_MAX then U128_MAX else product, H_DENOM);
    FloorBounds(U128_MAX, H_DENOM);
  }

  // ----- release -----

  function ApplyRelease(pre: PositionHaircut, gain: U64, now: U64, hMin: U64): Result<PositionHaircut, HaircutError> {
    if gain == 0 then Failure(ZeroGain)
    else if pre.releasedReserve + gain > U64_MAX then Failure(Overflow)
    else
      var newReserve := pre.releasedReserve + gain;
      var oldElapsed := SaturatingSub(now, pre.releasedAttachedAtSlot);
      if pre.releasedReserve == 0 || oldElapsed >= hMin then
        Success(PositionHaircut(newReserve, now, pre.maturedPos, newReserve))
      else if pre.originalReserveAtAttach + gain > U64_MAX then Failure(Overflow)
      else
        Success(PositionHaircut(newReserve, Blended(pre.releasedReserve, pre.releasedAttachedAtSlot, gain, now),
                                pre.maturedPos, pre.originalReserveAtAttach + gain))
  }

  /** The window of what is in the reserve has not opened yet. */
  predicate Running(pre: PositionHaircut, now: U64, hMin: U64) {
    pre.releasedReserve > 0 && hMin > 0 && now < pre.releasedAttachedAtSlot + hMin
  }

  /** A gain joins the reserve, unless it is nothing or too much. Into a running window
      it comes at the average age; otherwise the window starts anew for all of it. */
  lemma ReleaseExact(pre: PositionHaircut, gain: U64, now: U64, hMin: U64)
    ensures var r, running := ApplyRelease(pre, gain, now, hMin), Running(pre, now, hMin);
      && (r == Failure(ZeroGain) <==> gain == 0)
      && (r == Failure(Overflow) <==>
            && gain > 0
            && (pre.releasedReserve + gain > U64_MAX || (running && pre.originalReserveAtAttach + gain > U64_MAX)))
      && r != Failure(Underflow)
      && (r.Success? ==>
            && r.value.releasedReserve == pre.releasedReserve + gain && r.value.maturedPos == pre.maturedPos
            && r.value.originalReserveAtAttach
               == gain + (if running then pre.originalReserveAtAttach else pre.releasedReserve)
            && (!running ==> r.value.releasedAttachedAtSlot == now)
            && (running ==> AverageAge(pre.releasedReserve, pre.releasedAttachedAtSlot, gain, now,
                                       r.value.releasedAttachedAtSlot)))
  {
    if pre.releasedReserve + gain > 0 {
      BlendedExact(pre.releasedReserve, pre.releasedAttachedAtSlot, gain, now);
    }
  }

  /** At slot n the whole of r and g is as old, lots times slots, as r attached at a and
      g attached now, or older by less than one slot of each lot. */
  predicate AverageAge(r: U64, a: U64, g: U64, n: U64, b: U64) {
    r * (n - a) <= (r + g) * (n - b) < r * (n - a) + (r + g)
  }

  lemma BlendedExact(r: U64, a: U64, g: U64, n: U64)
    requires r + g > 0
    ensures AverageAge(r, a, g, n, Blended(r, a, g, n))
  {
    Scale(r, 0, a);
    Scale(g, 0, n);
    FloorBounds(r * a + g * n, r + g);
    AgeInts(r, a, g, n, Blended(r, a, g, n));
  }

  lemma AgeInts(r: nat, a: nat, g: nat, n: nat, b: nat)
    requires b * (r + g) <= r * a + g * n < b * (r + g) + (r + g)
    ensures r * (n - a) <= (r + g) * (n - b) < r * (n - a) + (r + g)
  {
    assert r * (n - a) == r * n - r * a;
    assert (r + g) * (n - b) == r * n + g * n - b * (r + g);
  }

  /** The reserve-weighted attach slot. */
  function Blended(r: U64, a: U64, g: U64, n: U64): (b: U64)
    requires r + g > 0
    ensures Min(a, n) <= b <= a + n - Min(a, n)
  {
    var lo, hi := Min(a, n), a + n - Min(a, n);
    WeightedBetween(r, a, g, n, lo, hi);
    (r * a + g * n) / (r + g)
  }

  lemma WeightedBetween(r: nat, a: nat, g: nat, n: nat, lo: nat, hi: nat)
    requires r + g > 0 && lo <= a <= hi && lo <= n <= hi
    ensures 0 <= r * a + g * n
    ensures lo <= (r * a + g * n) / (r + g) <= hi
  {
    Scale(r, lo, a);
    Scale(r, a, hi);
    Scale(g, lo, n);
    Scale(g, n, hi);
    assert lo * (r + g) == r * lo + g * lo && hi * (r + g) == r * hi + g * hi;
    FloorAtLeast(r * a + g * n, r + g, lo);
    FloorAtMost(r * a + g * n, r + g, hi);
  }

  // ----- maturing -----

  function MaturedFraction(reserve: U64, attachedAtSlot: U64, now: U64, hMin: U64, hMax: U64): (m: U64)
    ensures m <= reserve
  {
    if reserve == 0 || now < attachedAtSlot then 0
    else
      var elapsed := now - attachedAtSlot;
      if elapsed < hMin then 0
      else if elapsed >= hMax then reserve
      else
        Scale(reserve, elapsed - hMin, hMax - hMin);
        FloorAtMost(reserve * (elapsed - hMin), hMax - hMin, reserve);
        Min(reserve * (elapsed - hMin) / (hMax - hMin), reserve)
  }

  /** Nothing before the window, all of it after, and on the way the floor of the share
      of the window that has passed. */
  lemma RampExact(reserve: U64, attachedAtSlot: U64, now: U64, hMin: U64, hMax: U64)
    ensures var m, elapsed := MaturedFraction(reserve, attachedAtSlot, now, hMin, hMax), now - attachedAtSlot;
      && (elapsed < hMin ==> m == 0)
      && (elapsed >= hMin && elapsed >= hMax ==> m == reserve)
      && (hMin <= elapsed < hMax ==>
            m * (hMax - hMin) <= reserve * (elapsed - hMin) < (m + 1) * (hMax - hMin))
  {
    var elapsed := now - attachedAtSlot;
    if hMin <= elapsed < hMax {
      Scale(reserve, 0, elapsed - hMin);
      Scale(reserve, elapsed - hMin, hMax - hMin);
      FloorAtMost(reserve * (elapsed - hMin), hMax - hMin, reserve);
      FloorBounds(reserve * (elapsed - hMin), hMax - hMin);
      if reserve == 0 {
        assert reserve * (elapsed - hMin) == 0;
      }
      Succ(MaturedFraction(reserve, attachedAtSlot, now, hMin, hMax), hMax - hMin);
    }
  }

  lemma Succ(m: nat, w: nat)
    ensures (m + 1) * w == m * w + w
  {
  }

  lemma MaturedMonotone(reserve: U64, attachedAtSlot: U64, s1: U64, s2: U64, hMin: U64, hMax: U64)
    requires s1 <= s2
    ensures MaturedFraction(reserve, attachedAtSlot, s1, hMin, hMax)
         <= MaturedFraction(reserve, attachedAtSlot, s2, hMin, hMax)
  {
    if reserve > 0 && s1 >= attachedAtSlot && hMin <= s1 - attachedAtSlot && s2 - attachedAtSlot < hMax {
      var e1, e2, w := s1 - attachedAtSlot - hMin, s2 - attachedAtSlot - hMin, hMax - hMin;
      Scale(reserve, e1, e2);
      FloorMonotone(reserve * e1, reserve * e2, w);
    }
  }

  lemma FloorMonotone(a: nat, a': nat, b: nat)
    requires b > 0 && a <= a'
    ensures a / b <= a' / b
  {
    FloorBounds(a, b);
    FloorAtLeast(a', b, a / b);
  }

  function ApplyMature(pre: PositionHaircut, now: U64, hMin: U64, hMax: U64)
    : Result<(PositionHaircut, U64), HaircutError>
  {
    var target := MaturedFraction(pre.originalReserveAtAttach, pre.releasedAttachedAtSlot, now, hMin, hMax);
    var drained := SaturatingSub(pre.originalReserveAtAttach, pre.releasedReserve);
    var delta: U64 := SaturatingSub(target, drained);
    if delta == 0 then Success((pre, 0))
    else if pre.releasedReserve < delta then Failure(Underflow)
    else if pre.maturedPos + delta > U64_MAX then Failure(Overflow)
    else
      var newReserve := pre.releasedReserve - delta;
      var (attached, original) :=
        if newReserve == 0 then (0, 0) else (pre.releasedAttachedAtSlot, pre.originalReserveAtAttach);
      Success((PositionHaircut(newReserve, attached, pre.maturedPos + delta, original), delta))
  }

  /** What releases and matures keep: the reserve is what is left of the original. */
  predicate Tracked(p: PositionHaircut) {
    p.releasedReserve <= p.originalReserveAtAttach
  }

  lemma MatureTracked(pre: PositionHaircut, now: U64, hMin: U64, hMax: U64)
    requires Tracked(pre)
    ensures ApplyMature(pre, now, hMin, hMax) != Failure(Underflow)
    ensures ApplyMature(pre, now, hMin, hMax).Success? ==> Tracked(ApplyMature(pre, now, hMin, hMax).value.0)
  {
  }

  /** A mature brings what has matured in all up to the ramp, out of the reserve, and
      is refused only when the position's total would overflow. */
  lemma MatureExact(pre: PositionHaircut, now: U64, hMin: U64, hMax: U64)
    requires Tracked(pre)
    ensures var r := ApplyMature(pre, now, hMin, hMax);
      var target := MaturedFraction(pre.originalReserveAtAttach, pre.releasedAttachedAtSlot, now, hMin, hMax);
      var drained := pre.originalReserveAtAttach - pre.releasedReserve;
      var delta := Max(target, drained) - drained;
      && (r.Success? <==> pre.maturedPos + delta <= U64_MAX)
      && (r.Failure? ==> r.error == Overflow)
      && (r.Success? ==>
            && r.value.1 == delta && r.value.0.maturedPos == pre.maturedPos + delta
            && r.value.0.releasedReserve == pre.releasedReserve - delta
            && (if delta > 0 && delta == pre.releasedReserve
                then r.value.0.releasedAttachedAtSlot == 0 && r.value.0.originalReserveAtAttach == 0
                else && r.value.0.releasedAttachedAtSlot == pre.releasedAttachedAtSlot
                     && r.value.0.originalReserveAtAttach == pre.originalReserveAtAttach))
  {
    hide MaturedFraction;
  }

  /** Maturing at s1 and then at s2 is maturing once at s2: same state, same total,
      and the pair fails exactly when the single call does. */
  lemma MaturePathIndependent(pre: PositionHaircut, s1: U64, s2: U64, hMin: U64, hMax: U64)
    requires Tracked(pre) && s1 <= s2
    ensures var once := ApplyMature(pre, s2, hMin, hMax);
      match ApplyMature(pre, s1, hMin, hMax)
      case Failure(e) => once == Failure(e)
      case Success((mid, d1)) =>
        match ApplyMature(mid, s2, hMin, hMax)
        case Failure(e) => once == Failure(e)
        case Success((post, d2)) => d1 + d2 <= U64_MAX && once == Success((post, d1 + d2))
  {
    hide MaturedFraction;
    MaturedMonotone(pre.originalReserveAtAttach, pre.releasedAttachedAtSlot, s1, s2, hMin, hMax);
    NothingMatures(0, s2, hMin, hMax);
  }

  lemma NothingMatures(attachedAtSlot: U64, now: U64, hMin: U64, hMax: U64)
    ensures MaturedFraction(0, attachedAtSlot, now, hMin, hMax) == 0
  {
  }

  /** Right after a release nothing moves, through both clock branches, exactly when
      the window does not end at once. */
  lemma FreshReleaseWaits(pre: PositionHaircut, gain: U64, now: U64, hMin: U64, hMax: U64)
    requires hMin <= hMax && ApplyRelease(pre, gain, now, hMin).Success?
    ensures var post := ApplyRelease(pre, gain, now, hMin).value;
      ApplyMature(post, now, hMin, hMax) == Success((post, 0)) <==> hMax > 0
  {
    var post := ApplyRelease(pre, gain, now, hMin).value;
    if post.releasedAttachedAtSlot == now && hMin == 0 && hMax > 0 {
      assert post.originalReserveAtAttach * (now - now - hMin) == 0;
    }
  }

  // ----- converting -----

  function ApplyConvert(pre: PositionHaircut, h: U128): (PositionHaircut, U64, U64)
    requires h <= H_DENOM
  {
    if pre.maturedPos == 0 then (pre, 0, 0)
    else
      var (credit, dust) := ConvertWithHaircut(pre.maturedPos, h);
      (pre.(maturedPos := 0), credit, dust)
  }

  /** A convert empties the position's matured lots: the floor of their share is paid,
      and what is burnt is less than the cut and one lot. At the full ratio all is paid. */
  lemma ApplyConvertExact(pre: PositionHaircut, h: U128)
    requires h <= H_DENOM
    ensures var (post, credit, dust) := ApplyConvert(pre, h);
      && post == pre.(maturedPos := 0) && credit + dust == pre.maturedPos
      && credit * H_DENOM <= pre.maturedPos * h < (credit + 1) * H_DENOM
      && dust * H_DENOM < pre.maturedPos * (H_DENOM - h) + H_DENOM
      && (h == H_DENOM ==> credit == pre.maturedPos)
  {
    var matured := pre.maturedPos;
    ConvertExact(matured, h);
    Scale(h, 0, matured);
    Scale(h, matured, U64_MAX);
    Scale(U64_MAX, h, H_DENOM);
    FloorBounds(U128_MAX, H_DENOM);
    assert matured * (H_DENOM - h) == matured * H_DENOM - matured * h;
    hide ConvertWithHaircut;
  }

  /** A position's credit is at most its share of what is backed. */
  lemma CreditBacked(residual: U128, total: U128, matured: U64)
    requires NoFallback(residual, total) && matured <= total
    ensures var credit := ConvertWithHaircut(matured, ComputeH(residual, total)).0;
      credit <= residual && credit * H_DENOM <= matured * ComputeH(residual, total)
  {
    var h := ComputeH(residual, total);
    Scale(matured, h, H_DENOM);
    FloorBounds(matured * h, H_DENOM);
    if total > 0 {
      ComputeHExact(residual, total);
      assert matured * h <= total * h by { Scale(h, matured, total); }
    }
  }

  /** Converting does not penalise those who wait: the ratio left for the remaining
      holders is at least what it was. */
  lemma ConvertKeepsRatio(residual: U128, total: U128, matured: U64)
    requires NoFallback(residual, total) && matured <= total
    ensures var credit := ConvertWithHaircut(matured, ComputeH(residual, total)).0;
      && credit <= residual
      && NoFallback(residual - credit, total - matured)
      && ComputeH(residual - credit, total - matured) >= ComputeH(residual, total)
  {
    var h := ComputeH(residual, total);
    var credit := ConvertWithHaircut(matured, h).0;
    CreditBacked(residual, total, matured);
    if total - matured > 0 {
      var r', t' := residual - credit, total - matured;
      ComputeHExact(residual, total);
      assert h * t' == h * total - h * matured;
      if residual >= total {
        FullRatio(residual, total);
      }
      assert h * t' <= t' * H_DENOM by { Scale(t', h, H_DENOM); }
      assert h * t' <= r' * H_DENOM;
      if Min(r', t') * H_DENOM <= U128_MAX {
        FloorAtLeast(Min(r', t') * H_DENOM, t', h);
      }
    }
  }

  lemma FullRatio(residual: U128, total: U128)
    requires residual >= total
    ensures ComputeH(residual, total) == H_DENOM
  {
    if total > 0 && total * H_DENOM <= U128_MAX {
      FloorAtLeast(total * H_DENOM, total, H_DENOM);
    }
  }
}
