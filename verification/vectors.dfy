/** The expectations of the program's own self-checks (serialization.js
    lines 229-281) and the edge cases around them, stated about the model.
    Each expectation is assembled from small facts about its literals (the
    range of its values, their decimal spelling, their code string) and one
    general lemma; the decoder is reached only through the round trip. */
module Vectors {
  import opened Wrappers
  import opened CodecErrors
  import opened Alphabet
  import opened Text
  import opened Encoder
  import opened Decoder
  import opened ListText
  import opened Codec

  /** Values whose decimal pieces join to `text` and whose code string is
      `code`: serializing `text` gives `code` and deserializing `code` gives
      `text`. */
  lemma Vector(xs: seq<nat>, ts: seq<string>, text: string, code: string)
    requires AllAtMost(xs) && AllRepresentable(xs)
    requires Decimals(xs) == ts && Join(ts, Delimiter) == text
    requires EncodeArray(xs) == code
    ensures SerializeText(text) == Success(code)
    ensures DeserializeText(code) == Success(text)
  {
    CodecPair(xs, text, code);
  }

  /** A trimmed text whose space-separated words carry no whitespace at
      their ends parses as those words. */
  lemma ParseCleanWords(ts: seq<string>, text: string)
    requires |ts| >= 1 && Join(ts, Delimiter) == text
    requires |text| > 0 && Trim(text) == text
    requires forall k :: 0 <= k < |ts| ==> Delimiter !in ts[k] && Trim(ts[k]) == ts[k]
    ensures ParseInputText(text) == ParsePieces(ts)
  {
    SplitJoin(ts, Delimiter);
    assert TrimAll(ts) == ts;
    ParseUntrimmed(text);
  }

  // "0 1 2 3 4 5 6 7 8 9" and "ABCDEFGHIJ": one character per value.

  lemma DigitsRange()
    ensures AllAtMost([0, 1, 2, 3, 4, 5, 6, 7, 8, 9])
    ensures AllRepresentable([0, 1, 2, 3, 4, 5, 6, 7, 8, 9])
  {
  }

  lemma DigitsDecimals()
    ensures Decimals([0, 1, 2, 3, 4, 5, 6, 7, 8, 9]) == ["0", "1", "2", "3", "4", "5", "6", "7", "8", "9"]
  {
    DigitsHalves();
    LowDigitsDecimals();
    HighDigitsDecimals();
    DecimalsAppend([0, 1, 2, 3, 4], [5, 6, 7, 8, 9]);
  }

  lemma LowDigitsDecimals()
    ensures Decimals([0, 1, 2, 3, 4]) == ["0", "1", "2", "3", "4"]
  {
  }

  lemma HighDigitsDecimals()
    ensures Decimals([5, 6, 7, 8, 9]) == ["5", "6", "7", "8", "9"]
  {
  }

  lemma DigitsJoin()
    ensures Join(["0", "1", "2", "3", "4", "5", "6", "7", "8", "9"], Delimiter) == "0 1 2 3 4 5 6 7 8 9"
  {
    DigitsHalves();
    assert Join(["0", "1", "2", "3", "4"], Delimiter) == "0 1 2 3 4";
    assert Join(["5", "6", "7", "8", "9"], Delimiter) == "5 6 7 8 9";
    JoinAppend(["0", "1", "2", "3", "4"], ["5", "6", "7", "8", "9"], Delimiter);
  }

  lemma DigitsCode()
    ensures EncodeArray([0, 1, 2, 3, 4, 5, 6, 7, 8, 9]) == "ABCDEFGHIJ"
  {
    DigitsHalvesRange();
    LowDigitsCode();
    HighDigitsCode();
    EncodeArrayAppend([0, 1, 2, 3, 4], [5, 6, 7, 8, 9]);
    DigitsHalves();
  }

  lemma DigitsHalvesRange()
    ensures AllRepresentable([0, 1, 2, 3, 4]) && AllRepresentable([5, 6, 7, 8, 9])
  {
  }

  lemma LowDigitsCode()
    ensures EncodeArray([0, 1, 2, 3, 4]) == "ABCDE"
  {
    TablesFixed();
  }

  lemma HighDigitsCode()
    ensures EncodeArray([5, 6, 7, 8, 9]) == "FGHIJ"
  {
    HighDigitsParts();
    EncodeArrayAppend([5, 6, 7], [8, 9]);
    assert [5, 6, 7] + [8, 9] == [5, 6, 7, 8, 9];
    assert "FGH" + "IJ" == "FGHIJ";
  }

  lemma HighDigitsParts()
    ensures AllRepresentable([5, 6, 7]) && AllRepresentable([8, 9])
    ensures EncodeArray([5, 6, 7]) == "FGH" && EncodeArray([8, 9]) == "IJ"
  {
    FghCode();
    IjCode();
  }

  lemma FghCode()
    ensures EncodeArray([5, 6, 7]) == "FGH"
  {
    TablesFixed();
  }

  lemma IjCode()
    ensures EncodeArray([8, 9]) == "IJ"
  {
    TablesFixed();
  }

  lemma DigitsHalves()
    ensures [0, 1, 2, 3, 4] + [5, 6, 7, 8, 9] == [0, 1, 2, 3, 4, 5, 6, 7, 8, 9]
    ensures "ABCDE" + "FGHIJ" == "ABCDEFGHIJ"
    ensures ["0", "1", "2", "3", "4"] + ["5", "6", "7", "8", "9"] == ["0", "1", "2", "3", "4", "5", "6", "7", "8", "9"]
    ensures "0 1 2 3 4" + [Delimiter] + "5 6 7 8 9" == "0 1 2 3 4 5 6 7 8 9"
  {
  }

  lemma SerializeDigits()
    ensures SerializeText("0 1 2 3 4 5 6 7 8 9") == Success("ABCDEFGHIJ")
    ensures DeserializeText("ABCDEFGHIJ") == Success("0 1 2 3 4 5 6 7 8 9")
  {
    DigitsRange();
    DigitsDecimals();
    DigitsJoin();
    DigitsCode();
    Vector([0, 1, 2, 3, 4, 5, 6, 7, 8, 9], ["0", "1", "2", "3", "4", "5", "6", "7", "8", "9"], "0 1 2 3 4 5 6 7 8 9", "ABCDEFGHIJ");
  }

  // "0 500 1000" and "An6+2": the smallest and the largest accepted value.

  lemma ExtremesRange()
    ensures AllAtMost([0, 500, 1000]) && AllRepresentable([0, 500, 1000])
  {
  }

  lemma ExtremesDecimals()
    ensures Decimals([0, 500, 1000]) == ["0", "500", "1000"]
  {
    assert Decimal(500) == "500";
    assert Decimal(1000) == "1000";
  }

  lemma ExtremesJoin()
    ensures Join(["0", "500", "1000"], Delimiter) == "0 500 1000"
  {
  }

  lemma ExtremesCode()
    ensures EncodeArray([0, 500, 1000]) == "An6+2"
  {
    TablesFixed();
  }

  lemma SerializeExtremes()
    ensures SerializeText("0 500 1000") == Success("An6+2")
    ensures DeserializeText("An6+2") == Success("0 500 1000")
  {
    ExtremesRange();
    ExtremesDecimals();
    ExtremesJoin();
    ExtremesCode();
    Vector([0, 500, 1000], ["0", "500", "1000"], "0 500 1000", "An6+2");
  }

  // "0 36 72 108" and "AbAcAdA": multiples of 36 take the low digit 'A'.

  lemma MultiplesRange()
    ensures AllAtMost([0, 36, 72, 108]) && AllRepresentable([0, 36, 72, 108])
  {
  }

  lemma MultiplesDecimals()
    ensures Decimals([0, 36, 72, 108]) == ["0", "36", "72", "108"]
  {
    assert Decimal(36) == "36";
    assert Decimal(72) == "72";
    assert Decimal(108) == "108";
  }

  lemma MultiplesJoin()
    ensures Join(["0", "36", "72", "108"], Delimiter) == "0 36 72 108"
  {
  }

  lemma MultiplesCode()
    ensures EncodeArray([0, 36, 72, 108]) == "AbAcAdA"
  {
    TablesFixed();
  }

  lemma SerializeMultiples()
    ensures SerializeText("0 36 72 108") == Success("AbAcAdA")
    ensures DeserializeText("AbAcAdA") == Success("0 36 72 108")
  {
    MultiplesRange();
    MultiplesDecimals();
    MultiplesJoin();
    MultiplesCode();
    Vector([0, 36, 72, 108], ["0", "36", "72", "108"], "0 36 72 108", "AbAcAdA");
  }

  // "231 45 999 612" and "gPbJ+1rA": one- and two-character codes mixed.

  lemma MixedRange()
    ensures AllAtMost([231, 45, 999, 612]) && AllRepresentable([231, 45, 999, 612])
  {
  }

  lemma MixedDecimals()
    ensures Decimals([231, 45, 999, 612]) == ["231", "45", "999", "612"]
  {
    assert Decimal(231) == "231";
    assert Decimal(45) == "45";
    assert Decimal(999) == "999";
    assert Decimal(612) == "612";
  }

  lemma MixedJoin()
    ensures Join(["231", "45", "999", "612"], Delimiter) == "231 45 999 612"
  {
  }

  lemma MixedCode()
    ensures EncodeArray([231, 45, 999, 612]) == "gPbJ+1rA"
  {
    assert AllRepresentable([231, 45]) && AllRepresentable([999, 612]);
    MixedFirstCode();
    MixedSecondCode();
    EncodeArrayAppend([231, 45], [999, 612]);
    assert [231, 45] + [999, 612] == [231, 45, 999, 612];
    assert "gPbJ" + "+1rA" == "gPbJ+1rA";
  }

  lemma MixedFirstCode()
    ensures EncodeArray([231, 45]) == "gPbJ"
  {
    TablesFixed();
  }

  lemma MixedSecondCode()
    ensures EncodeArray([999, 612]) == "+1rA"
  {
    TablesFixed();
  }

  lemma SerializeMixed()
    ensures SerializeText("231 45 999 612") == Success("gPbJ+1rA")
    ensures DeserializeText("gPbJ+1rA") == Success("231 45 999 612")
  {
    MixedRange();
    MixedDecimals();
    MixedJoin();
    MixedCode();
    Vector([231, 45, 999, 612], ["231", "45", "999", "612"], "231 45 999 612", "gPbJ+1rA");
  }

  // "100 200" is a valid list text: it serializes to "c2fU".

  lemma HundredsRange()
    ensures AllAtMost([100, 200]) && AllRepresentable([100, 200])
  {
  }

  lemma HundredsDecimals()
    ensures Decimals([100, 200]) == ["100", "200"]
  {
    assert Decimal(100) == "100";
    assert Decimal(200) == "200";
  }

  lemma HundredsJoin()
    ensures Join(["100", "200"], Delimiter) == "100 200"
  {
  }

  lemma HundredsCode()
    ensures EncodeArray([100, 200]) == "c2fU"
  {
    TablesFixed();
  }

  lemma SerializeHundreds()
    ensures SerializeText("100 200") == Success("c2fU")
    ensures DeserializeText("c2fU") == Success("100 200")
  {
    HundredsRange();
    HundredsDecimals();
    HundredsJoin();
    HundredsCode();
    Vector([100, 200], ["100", "200"], "100 200", "c2fU");
  }

  /** A negative value is numeric but out of range. */
  lemma SerializeNegative()
    ensures SerializeText("-1") == Failure(OutOfRange(-1))
  {
    TrimNoop("-1");
    ParseOneWord("-1");
  }

  /** A value above the maximum number is out of range. */
  lemma SerializeTooLarge()
    ensures SerializeText("2000") == Failure(OutOfRange(2000))
  {
    TrimNoop("2000");
    ParseOneWord("2000");
    DecimalValue(2000, "2000");
  }

  /** A digit string that is the decimal spelling of `n` denotes `n`. */
  lemma DecimalValue(n: nat, t: string)
    requires Decimal(n) == t
    ensures IsNumeric(t) && ParseInt(t) == n
  {
  }

  /** "-0" passes both tests and denotes 0. */
  lemma SerializeMinusZero()
    ensures SerializeText("-0") == Success("A")
  {
    ParseMinusZero();
    ZeroCode();
  }

  lemma ParseMinusZero()
    ensures ParseInputText("-0") == Success([0])
  {
    TrimNoop("-0");
    ParseOneWord("-0");
  }

  lemma ZeroCode()
    ensures EncodeArray([0]) == "A"
  {
    TableClasses();
  }

  /** The first word of "NOT INTENGER SET" is not numeric. */
  lemma SerializeWords()
    ensures SerializeText("NOT INTENGER SET") == Failure(NonNumeric("NOT"))
  {
    WordsFacts();
    TrimNoop("NOT INTENGER SET");
    ParseCleanWords(["NOT", "INTENGER", "SET"], "NOT INTENGER SET");
    assert !IsNumeric("NOT");
  }

  lemma WordsFacts()
    ensures Join(["NOT", "INTENGER", "SET"], Delimiter) == "NOT INTENGER SET"
    ensures forall k :: 0 <= k < 3 ==> Delimiter !in ["NOT", "INTENGER", "SET"][k] && Trim(["NOT", "INTENGER", "SET"][k]) == ["NOT", "INTENGER", "SET"][k]
  {
    WordsTrimmed();
  }

  lemma WordsTrimmed()
    ensures Delimiter !in "NOT" && Trim("NOT") == "NOT"
    ensures Delimiter !in "INTENGER" && Trim("INTENGER") == "INTENGER"
    ensures Delimiter !in "SET" && Trim("SET") == "SET"
  {
    TrimNoop("NOT");
    TrimNoop("INTENGER");
    TrimNoop("SET");
  }

  /** Two spaces leave an empty piece between them, which is skipped. */
  lemma SerializeDoubleSpace()
    ensures ParseInputText("1  1") == Success([1, 1])
  {
    DoubleSpaceFacts();
    ParseCleanWords(["1", "", "1"], "1  1");
    assert ParseToken("1") == Success(1);
    assert ["1"][1..] == [];
    assert ParsePieces(["1"]) == Cons(1, ParsePieces([]));
    assert [1 as nat] + [] == [1];
    assert ["", "1"][1..] == ["1"];
    assert ParsePieces(["", "1"]) == Success([1]);
    assert ["1", "", "1"][1..] == ["", "1"];
    assert ParsePieces(["1", "", "1"]) == Success([1] + [1]);
    assert [1 as nat] + [1] == [1, 1];
  }

  lemma DoubleSpaceFacts()
    ensures Join(["1", "", "1"], Delimiter) == "1  1"
    ensures Trim("1  1") == "1  1"
    ensures forall k :: 0 <= k < 3 ==> Delimiter !in ["1", "", "1"][k] && Trim(["1", "", "1"][k]) == ["1", "", "1"][k]
  {
    TrimNoop("1  1");
    TrimNoop("1");
    TrimNoop("");
  }

  /** The decoder has no range test: "+9" decodes to 1007, the largest
      two-character value, and the list text "1007" is then rejected. */
  lemma DecodeBeyondMax()
    ensures Decode("+9") == Success([1007])
    ensures DeserializeText("+9") == Success("1007")
    ensures SerializeText("1007") == Failure(OutOfRange(1007))
  {
    BeyondMaxRange();
    BeyondMaxCode();
    BeyondMaxDecimal();
    RoundTrip([1007]);
    SerializeBeyondMax();
  }

  lemma SerializeBeyondMax()
    ensures SerializeText("1007") == Failure(OutOfRange(1007))
  {
    BeyondMaxDecimal();
    TrimNoop("1007");
    ParseOneWord("1007");
    DecimalValue(1007, "1007");
  }

  lemma BeyondMaxRange()
    ensures AllRepresentable([1007]) && !AllAtMost([1007])
  {
    assert [1007][0] > MaxNumber;
  }

  lemma BeyondMaxCode()
    ensures EncodeArray([1007]) == "+9"
  {
    TablesFixed();
  }

  lemma BeyondMaxDecimal()
    ensures Decimal(1007) == "1007" && FormatList([1007]) == "1007"
  {
  }

  /** The decoder takes 'a', the high digit zero, as a code prefix: "aA"
      decodes to 0. */
  lemma DecodeZeroHigh()
    ensures Decode("aA") == Success([0])
  {
    StandardTables();
    TableClasses();
    TrimNoop("aA");
    ScanZeroHigh('A', Pos0Index, Pos1Index);
  }

  /** "abcdef" fails at its second character: 'a' is a high digit, and 'b'
      after it is not a low digit. */
  lemma DecodeRejects()
    ensures Decode("abcdef") == Failure(UnexpectedChar('b'))
    ensures DeserializeText("abcdef") == Failure(UnexpectedChar('b'))
  {
    TrimNoop("abcdef");
    DecodeBadSecond("abcdef");
  }
}
