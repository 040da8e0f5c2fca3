/** The value and array encoder (serialization.js lines 121-131). */
module Encoder {
  import opened Alphabet

  /** Values the two-digit scheme can represent: 0 .. 36 * 28 - 1. */
  predicate Representable(v: nat) {
    v < Pos0Size * Pos1Size
  }

  /** Every element of `xs` is representable. */
  predicate AllRepresentable(xs: seq<nat>) {
    forall i :: 0 <= i < |xs| ==> Representable(xs[i])
  }

  /** The code of one value: its low digit as a low-digit character, preceded
      by its high digit as a high-digit character only when that digit is not
      zero. */
  function EncodeValue(v: nat): (r: string)
    requires Representable(v)
    ensures |r| == 1 <==> v < Pos0Size
    ensures |r| == 1 || |r| == 2
    ensures r[|r| - 1] == Pos0[v % Pos0Size]
    ensures |r| == 2 ==> 1 <= v / Pos0Size < Pos1Size && r[0] == Pos1[v / Pos0Size]
    ensures r[0] != 'a' && 'a' !in r
    ensures forall k :: 0 <= k < |r| ==> IsPos0Char(r[k]) || IsPos1Char(r[k])
  {
    TableClasses();
    var low := v % Pos0Size;
    var high := v / Pos0Size;
    (if high == 0 then "" else [Pos1[high]]) + [Pos0[low]]
  }

  /** The code string of a sequence: the codes of its elements, in order,
      with no separator. */
  function EncodeArray(xs: seq<nat>): (r: string)
    requires AllRepresentable(xs)
    ensures |xs| <= |r| <= 2 * |xs|
    ensures forall k :: 0 <= k < |r| ==> IsPos0Char(r[k]) || IsPos1Char(r[k])
    ensures 'a' !in r
  {
    if |xs| == 0 then ""
    else
      EncodeValue(xs[0]) + EncodeArray(xs[1..])
  }

  /** Encoding a concatenation is concatenating the encodings. */
  lemma {:induction false} EncodeArrayAppend(xs: seq<nat>, ys: seq<nat>)
    requires AllRepresentable(xs) && AllRepresentable(ys)
    ensures AllRepresentable(xs + ys)
    ensures EncodeArray(xs + ys) == EncodeArray(xs) + EncodeArray(ys)
    decreases |xs|
  {
    var zs := xs + ys;
    forall i | 0 <= i < |zs|
      ensures Representable(zs[i])
    {
      if i < |xs| {
        assert zs[i] == xs[i];
      } else {
        assert zs[i] == ys[i - |xs|];
      }
    }
    if |xs| == 0 {
      assert zs == ys;
    } else {
      assert zs[0] == xs[0] && zs[1..] == xs[1..] + ys;
      assert AllRepresentable(xs[1..]);
      EncodeArrayAppend(xs[1..], ys);
      var e, rest := EncodeValue(xs[0]), EncodeArray(xs[1..]);
      assert EncodeArray(zs) == e + (rest + EncodeArray(ys));
      assert e + (rest + EncodeArray(ys)) == (e + rest) + EncodeArray(ys);
    }
  }

  /** The boundary codes: 0 is "A", 35 is "9", 36 is "bA" (not "aA"), and
      1000 is "+2". */
  lemma EncodeValueBoundaries()
    ensures EncodeValue(0) == "A" && EncodeValue(35) == "9"
    ensures EncodeValue(36) == "bA" && EncodeValue(1000) == "+2"
  {
    TablesFixed();
  }
}
