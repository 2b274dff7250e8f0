/** Bytes, little-endian integers, and fields at fixed offsets of a buffer. */
module Bytes {
  type byte = x: int | 0 <= x < 256

  type Bytes32 = s: seq<byte> | |s| == 32 witness seq(32, i => 0)

  type U8 = byte
  type U32 = x: int | 0 <= x < 0x1_0000_0000
  type U64 = x: int | 0 <= x < 0x1_0000_0000_0000_0000

  type U128 = x: int | 0 <= x < 0x1_0000_0000_0000_0000_0000_0000_0000_0000

  type I64 = x: int | InI64(x)

  const U64_MAX: U64 := 0xFFFF_FFFF_FFFF_FFFF

  const U128_MAX: U128 := 0xFFFF_FFFF_FFFF_FFFF_FFFF_FFFF_FFFF_FFFF

  const I128_MAX := 0x7FFF_FFFF_FFFF_FFFF_FFFF_FFFF_FFFF_FFFF

  /** What one call may add to the length of an account. */
  const MAX_PERMITTED_DATA_INCREASE := 10240

  predicate InI64(x: int) {
    -0x8000_0000_0000_0000 <= x < 0x8000_0000_0000_0000
  }

  predicate InI128(x: int) {
    -I128_MAX - 1 <= x <= I128_MAX
  }

  function Zeros(n: nat): (z: seq<byte>)
    ensures |z| == n && forall i :: 0 <= i < n ==> z[i] == 0
  {
    seq(n, i => 0)
  }

  const ZERO32: Bytes32 := Zeros(32)

  function SaturatingAddU64(a: U64, b: U64): U64 {
    if a + b > U64_MAX then U64_MAX else a + b
  }

  function SaturatingSub(a: nat, b: nat): nat {
    if a < b then 0 else a - b
  }

  function Pow256(n: nat): (p: nat)
    ensures p > 0
  {
    if n == 0 then 1 else 256 * Pow256(n - 1)
  }

  lemma PowWidths()
    ensures Pow256(4) == 0x1_0000_0000 && Pow256(8) == 0x1_0000_0000_0000_0000
  {
    assert Pow256(2) == 65536;
    assert Pow256(4) == 65536 * 65536;
    assert Pow256(6) == 65536 * 65536 * 65536;
  }

  /** The n low bytes of v, least significant first. */
  function Le(n: nat, v: nat): (s: seq<byte>)
    ensures |s| == n
  {
    if n == 0 then [] else [v % 256] + Le(n - 1, v / 256)
  }

  function LeValue(s: seq<byte>): nat {
    if s == [] then 0 else s[0] + 256 * LeValue(s[1..])
  }

  lemma {:induction false} LeRoundTrip(n: nat, v: nat)
    requires v < Pow256(n)
    ensures LeValue(Le(n, v)) == v
  {
    if n > 0 {
      LeRoundTrip(n - 1, v / 256);
      assert Le(n, v)[1..] == Le(n - 1, v / 256);
    }
  }

  lemma {:induction false} LeValueBound(s: seq<byte>)
    ensures LeValue(s) < Pow256(|s|)
  {
    if s != [] {
      LeValueBound(s[1..]);
    }
  }

  lemma {:induction false} LeValueRoundTrip(s: seq<byte>)
    ensures Le(|s|, LeValue(s)) == s
  {
    if s != [] {
      LeValueRoundTrip(s[1..]);
      assert (s[0] + 256 * LeValue(s[1..])) / 256 == LeValue(s[1..]);
      assert s == [s[0]] + s[1..];
    }
  }

  lemma {:induction false} LeValueZero(s: seq<byte>)
    ensures LeValue(s) == 0 <==> s == Zeros(|s|)
  {
    if s != [] {
      LeValueZero(s[1..]);
      if s[0] == 0 && s[1..] == Zeros(|s| - 1) {
        assert s == [s[0]] + s[1..];
      }
      if s == Zeros(|s|) {
        assert s[1..] == Zeros(|s| - 1);
      }
    }
  }

  function Le64(v: U64): (s: seq<byte>)
    ensures |s| == 8 && LeValue(s) == v
  {
    PowWidths();
    LeRoundTrip(8, v);
    Le(8, v)
  }

  function Le32(v: U32): (s: seq<byte>)
    ensures |s| == 4 && LeValue(s) == v
  {
    PowWidths();
    LeRoundTrip(4, v);
    Le(4, v)
  }

  function U64Of(s: seq<byte>): (v: U64)
    requires |s| == 8
    ensures Le64(v) == s
  {
    PowWidths();
    LeValueBound(s);
    LeValueRoundTrip(s);
    LeValue(s)
  }

  function U32Of(s: seq<byte>): (v: U32)
    requires |s| == 4
    ensures Le32(v) == s
  {
    PowWidths();
    LeValueBound(s);
    LeValueRoundTrip(s);
    LeValue(s)
  }

  lemma U64RoundTrip(v: U64)
    ensures U64Of(Le64(v)) == v
  {
  }

  lemma U32RoundTrip(v: U32)
    ensures U32Of(Le32(v)) == v
  {
  }

  // ----- fields of a buffer -----

  ghost predicate SameBytes(d: seq<byte>, d': seq<byte>, lo: int, hi: int) {
    |d'| == |d| && forall i :: 0 <= i < |d| && lo <= i < hi ==> d'[i] == d[i]
  }

  /** The bytes of d outside [off, off + n) are those of d'. */
  ghost predicate OnlyAt(d: seq<byte>, d': seq<byte>, off: int, n: int) {
    |d'| == |d| && forall i :: 0 <= i < |d| && !(off <= i < off + n) ==> d'[i] == d[i]
  }

  /** A field between what precedes and what follows it. */
  lemma FieldAt(d: seq<byte>, pre: seq<byte>, field: seq<byte>, post: seq<byte>)
    requires |d| >= |pre| + |field| + |post| && d[..|pre| + |field| + |post|] == pre + field + post
    ensures d[|pre|..|pre| + |field|] == field
  {
    var n := |pre| + |field| + |post|;
    forall i | 0 <= i < |field|
      ensures d[|pre| + i] == field[i]
    {
      assert d[..n][|pre| + i] == (pre + field + post)[|pre| + i];
    }
  }

  method WriteAt(data: array<byte>, off: nat, bytes: seq<byte>)
    requires off + |bytes| <= data.Length
    modifies data
    ensures data[off..off + |bytes|] == bytes
    ensures OnlyAt(old(data[..]), data[..], off, |bytes|)
  {
    for k := 0 to |bytes|
      invariant forall i :: 0 <= i < k ==> data[off + i] == bytes[i]
      invariant forall i :: 0 <= i < data.Length && !(off <= i < off + k) ==> data[i] == old(data[i])
    {
      data[off + k] := bytes[k];
    }
  }

  /** Write the bytes that follow what was written from base on. */
  method WriteNext(data: array<byte>, base: nat, ghost before: seq<byte>, ghost done: seq<byte>, off: nat,
                   bytes: seq<byte>)
    returns (ghost done': seq<byte>)
    requires off == base + |done| && off + |bytes| <= data.Length
    requires data[base..off] == done && OnlyAt(before, data[..], base, |done|)
    modifies data
    ensures done' == done + bytes
    ensures data[base..off + |bytes|] == done' && OnlyAt(before, data[..], base, |done'|)
  {
    ghost var d := data[..];
    WriteAt(data, off, bytes);
    done' := done + bytes;
    assert data[base..off] == d[base..off] == done;
    assert data[base..off + |bytes|] == data[base..off] + data[off..off + |bytes|];
  }
}
