/** The canonical serialization of a fill, whose hash is its commitment. */
module FillPreimages {
  import opened Bytes
  import opened Wrappers

  const FILL_PREIMAGE_LEN := 136

  /** "FBfillC2" */
  const FILL_COMMIT_DOMAIN: seq<byte> := [0x46, 0x42, 0x66, 0x69, 0x6C, 0x6C, 0x43, 0x32]

  datatype FillFields = FillFields(
    market: Bytes32, taker: Bytes32, maker: Bytes32,
    takerSide: U8, sizeLots: U64, priceTicks: U64,
    takerSubIndex: U8, makerSubIndex: U8, producedIndex: U64, takerWasJit: bool)

  function BoolByte(b: bool): byte {
    if b then 1 else 0
  }

  function Preimage(f: FillFields): (p: seq<byte>)
    ensures |p| == FILL_PREIMAGE_LEN
  {
    FILL_COMMIT_DOMAIN + f.market + f.taker + f.maker
    + [f.takerSide, f.takerSubIndex, f.makerSubIndex]
    + Le64(f.sizeLots) + Le64(f.priceTicks) + Le64(f.producedIndex)
    + [BoolByte(f.takerWasJit)] + Zeros(4)
  }

  lemma PreimageFields(f: FillFields)
    ensures var p := Preimage(f);
      && p[0..8] == FILL_COMMIT_DOMAIN && p[8..40] == f.market && p[40..72] == f.taker && p[72..104] == f.maker
      && p[104] == f.takerSide && p[105] == f.takerSubIndex && p[106] == f.makerSubIndex
      && p[107..115] == Le64(f.sizeLots) && p[115..123] == Le64(f.priceTicks) && p[123..131] == Le64(f.producedIndex)
      && p[131] == BoolByte(f.takerWasJit) && p[132..136] == Zeros(4)
  {
  }

  /** Read the fields back; None when no fill serializes to p. */
  function ParsePreimage(p: seq<byte>): Option<FillFields> {
    if |p| != FILL_PREIMAGE_LEN || p[0..8] != FILL_COMMIT_DOMAIN || p[131] > 1 || p[132..136] != Zeros(4) then None
    else Some(FillFields(p[8..40], p[40..72], p[72..104], p[104], U64Of(p[107..115]), U64Of(p[115..123]),
                         p[105], p[106], U64Of(p[123..131]), p[131] == 1))
  }

  lemma PreimageParses(f: FillFields)
    ensures ParsePreimage(Preimage(f)) == Some(f)
  {
    PreimageFields(f);
  }

  /** The parser accepts exactly the serializations. */
  lemma ParsedIsPreimage(p: seq<byte>)
    ensures ParsePreimage(p).Some? ==> Preimage(ParsePreimage(p).value) == p
    ensures ParsePreimage(p).None? ==> forall f :: Preimage(f) != p
  {
    if ParsePreimage(p).Some? {
      var q := Preimage(ParsePreimage(p).value);
      PreimageFields(ParsePreimage(p).value);
      SplitEqual(p, q);
    } else {
      forall f
        ensures Preimage(f) != p
      {
        PreimageFields(f);
      }
    }
  }

  /** A serialization binds all ten fields. */
  lemma PreimageInjective(f: FillFields, g: FillFields)
    ensures Preimage(f) == Preimage(g) <==> f == g
  {
    PreimageParses(f);
    PreimageParses(g);
  }

  /** The serialization as it is built, field by field, in a zeroed buffer. */
  method FillPreimage(f: FillFields) returns (p: array<byte>)
    ensures fresh(p) && p[..] == Preimage(f)
  {
    p := new byte[FILL_PREIMAGE_LEN](_ => 0);
    ghost var before := p[..];
    WriteAt(p, 0, FILL_COMMIT_DOMAIN);
    ghost var done := FILL_COMMIT_DOMAIN;
    done := WriteNext(p, 0, before, done, 8, f.market);
    done := WriteNext(p, 0, before, done, 40, f.taker);
    done := WriteNext(p, 0, before, done, 72, f.maker);
    done := WriteNext(p, 0, before, done, 104, [f.takerSide, f.takerSubIndex, f.makerSubIndex]);
    done := WriteNext(p, 0, before, done, 107, Le64(f.sizeLots));
    done := WriteNext(p, 0, before, done, 115, Le64(f.priceTicks));
    done := WriteNext(p, 0, before, done, 123, Le64(f.producedIndex));
    done := WriteNext(p, 0, before, done, 131, [BoolByte(f.takerWasJit)]);
    assert p[..] == p[0..132] + p[132..136];
    assert p[132..136] == Zeros(4);
  }

  lemma SplitEqual(s: seq<byte>, t: seq<byte>)
    requires |s| == |t| == FILL_PREIMAGE_LEN
    requires s[0..8] == t[0..8] && s[8..40] == t[8..40] && s[40..72] == t[40..72] && s[72..104] == t[72..104]
    requires s[104] == t[104] && s[105] == t[105] && s[106] == t[106]
    requires s[107..115] == t[107..115] && s[115..123] == t[115..123] && s[123..131] == t[123..131]
    requires s[131] == t[131] && s[132..136] == t[132..136]
    ensures s == t
  {
    assert forall u: seq<byte> :: |u| == FILL_PREIMAGE_LEN ==>
      u == u[0..8] + u[8..40] + u[40..72] + u[72..104] + [u[104], u[105], u[106]]
         + u[107..115] + u[115..123] + u[123..131] + [u[131]] + u[132..136];
  }
}
