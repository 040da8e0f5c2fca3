/** The two directions of the codec as the page offers them: a list text to
    a code string (serialization.js lines 74-77) and a code string back to a
    list text (lines 152-196). */
module Codec {
  import opened Wrappers
  import opened CodecErrors
  import opened Alphabet
  import opened Text
  import opened Encoder
  import opened Decoder
  import opened ListText

  /** Every value is at most the maximum number. */
  predicate AllAtMost(xs: seq<nat>) {
    forall k :: 0 <= k < |xs| ==> xs[k] <= MaxNumber
  }

  /** A list text parsed, then encoded. A text the parser rejects fails
      with the parser's error; otherwise the code string decodes back to the
      parsed values. */
  function SerializeText(txt: string): (r: Result<string, Error>)
    ensures r.Success? <==> ParseInputText(txt).Success?
    ensures r.Failure? ==> r.error == ParseInputText(txt).error
    ensures r.Success? ==> Decode(r.value) == ParseInputText(txt)
  {
    var xs :- ParseInputText(txt);
    RepresentableUpToMax(xs);
    RoundTrip(xs);
    Success(EncodeArray(xs))
  }

  /** A code string decoded, then formatted. A code string the decoder
      rejects fails with the decoder's error; otherwise, when every value is
      at most the maximum number, the list text parses back to the decoded
      values. */
  function DeserializeText(code: string): (r: Result<string, Error>)
    ensures r.Success? <==> Decode(code).Success?
    ensures r.Failure? ==> r.error == Decode(code).error
    ensures r.Success? && AllAtMost(Decode(code).value) ==> ParseInputText(r.value) == Decode(code)
  {
    var xs :- Decode(code);
    if AllAtMost(xs) then FormatParse(xs); Success(FormatList(xs))
    else Success(FormatList(xs))
  }

  /** Values up to the maximum number fit in two digits. */
  lemma RepresentableUpToMax(xs: seq<nat>)
    requires AllAtMost(xs)
    ensures AllRepresentable(xs)
  {
    EntryChecks();
  }

  /** Serializing and deserializing a list text gives its normal form: the
      parsed values, in decimal, one space apart. */
  lemma SerializeDeserialize(txt: string)
    requires SerializeText(txt).Success?
    ensures DeserializeText(SerializeText(txt).value) == Success(FormatList(ParseInputText(txt).value))
  {
  }

  /** Deserializing a decodable code string whose values are all at most
      the maximum number, and serializing the list text, succeeds; the code
      string comes back as it was (less surrounding whitespace) exactly when
      it holds no 'a', the high digit zero the encoder never writes. */
  lemma DeserializeSerialize(code: string)
    requires Decode(code).Success? && AllAtMost(Decode(code).value)
    ensures SerializeText(DeserializeText(code).value).Success?
    ensures SerializeText(DeserializeText(code).value).value == Trim(code) <==> 'a' !in Trim(code)
  {
    CanonicalIff(Trim(code));
  }

  /** A high digit with a low digit after it: the low digit plus 36 times
      the high digit, even where the result exceeds the maximum number. */
  lemma DecodeTwoChars(h: nat, l: nat)
    requires h < Pos1Size && l < Pos0Size
    ensures Decode([Pos1[h], Pos0[l]]) == Success([l + h * Pos0Size])
  {
    TableClasses();
    TrimNoop([Pos1[h], Pos0[l]]);
    StandardTables();
    ScanPair(h, l, Pos0Index, Pos1Index);
  }

  /** When `text` is the normal form of values up to the maximum number and
      `code` is their code string, each direction maps one onto the other. */
  lemma CodecPair(xs: seq<nat>, text: string, code: string)
    requires AllAtMost(xs) && AllRepresentable(xs)
    requires FormatList(xs) == text && EncodeArray(xs) == code
    ensures SerializeText(text) == Success(code)
    ensures DeserializeText(code) == Success(text)
  {
    FormatParse(xs);
    RoundTrip(xs);
  }
}
