/** Small arithmetic that several modules share. */
module Arithmetic {
  /** Basis points in one. */
  const BPS_DENOM := 10_000

  function Abs(x: int): nat {
    if x < 0 then -x else x
  }

  function Min(a: int, b: int): int {
    if a < b then a else b
  }

  function Max(a: int, b: int): int {
    if a < b then b else a
  }

  /** Division that rounds up. */
  function CeilDiv(a: nat, b: nat): nat
    requires b > 0
  {
    if a % b == 0 then a / b else a / b + 1
  }

  lemma FloorBounds(a: nat, b: nat)
    requires b > 0
    ensures a / b >= 0 && a / b * b <= a < a / b * b + b
  {
  }

  lemma CeilBounds(a: nat, b: nat)
    requires b > 0
    ensures a <= CeilDiv(a, b) * b < a + b
  {
    assert a == a / b * b + a % b;
    assert (a / b + 1) * b == a / b * b + b;
  }

  lemma Scale(k: nat, a: int, b: int)
    requires a <= b
    ensures k * a <= k * b
    ensures a >= 0 ==> k * a >= 0
  {
  }

  lemma Above(q: int, c: int, b: nat)
    ensures q > c ==> q * b >= c * b + b
  {
    if q > c {
      var d := q - c - 1;
      assert q * b == c * b + b + d * b;
      assert d * b >= 0;
    }
  }

  lemma AtMost(q: int, c: int, b: nat)
    requires b > 0 && q * b <= c * b
    ensures q <= c
  {
    Above(q, c, b);
  }

  lemma FloorAtMost(a: nat, b: nat, c: nat)
    requires b > 0 && a <= c * b
    ensures 0 <= a / b <= c
  {
    FloorBounds(a, b);
    AtMost(a / b, c, b);
  }

  lemma SubsetCount<T>(a: set<T>, b: set<T>)
    requires a <= b
    ensures |a| <= |b|
  {
    assert b == a + (b - a);
  }
}
