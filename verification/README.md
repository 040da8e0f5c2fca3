# Integer-list codec of serialization.js

`serialization.js` turns a list of integers from 0 to 1000, typed as decimal
text separated by spaces, into a compact code string, and turns a code string
back into that text. Each value is written in base 36 with at most two
digits:

- the low digit comes from the table `A`..`Z`, `0`..`9`;
- the high digit comes from the table `a`..`z`, `-`, `+`;
- the high digit is left out when it is zero.

Codes are concatenated with no separator. The decoder scans left to right with
one character of lookahead.

This Dafny project models that codec as pure functions over `seq<char>` and
`seq<nat>`, and proves the following about it:

- the tables are fixed and injective;
- the encoder's shape;
- the round trip;
- that the decoder succeeds exactly on the code grammar;
- the parser's success and error behaviour;
- the formatter's normal form;
- every expectation of the program's own self-checks.

Modules follow the program's pieces:

| module | file | what it holds |
|---|---|---|
| `Wrappers`, `CodecErrors` | `wrappers.dfy` | the `Result` type and the closed error type |
| `Alphabet` | `alphabet.dfy` | the two tables and their reverse maps |
| `Text` | `text.dfy` | trim, split and join |
| `Encoder` | `encoder.dfy` | value and array encoding |
| `Decoder` | `decoder.dfy` | the scan, as a function and as a loop |
| `ListText` | `listtext.dfy` | the list-text parser and formatter |
| `Codec` | `codec.dfy` | both directions composed |
| `Vectors` | `vectors.dfy` | the self-check expectations |

The errors the program throws as strings are the datatype
`Error = NonNumeric(token) | OutOfRange(value) | UnexpectedChar(c) | UnexpectedEnd`.

Behaviour of the code worth knowing:

- **36 encodes to "bA".** serialization.js:129 writes no high digit when it is zero, so `a` is never written; the self-check vector "AbAcAdA" at serialization.js:252 shows it. `Encoder.EncodeValueBoundaries` states this.
- **The decoder accepts more than the encoder writes.** It takes `a` followed by a low digit as a code: "aA" decodes to 0. `Decoder.CanonicalIff` proves that a decodable string re-encodes to itself exactly when it holds no `a`.
- **The decoder checks no range.** Values up to 36·28−1 = 1007 come out; "+9" decodes to 1007, which the parser then rejects.
- **"100 200" is a valid list text.** serializeText("100 200") returns "c2fU" (`Vectors.SerializeHundreds`). The self-check line at serialization.js:254 prints FAILED only because "c2fU" is not the placeholder text it compares against.

## Model

| member | source | states |
|---|---|---|
| Alphabet.RangeChars | serialization.js:45-53 | the characters from `lo` to `hi` in ascending code-point order, `hi − lo + 1` of them, none when `lo` is above `hi` |
| Alphabet.TablesFixed | serialization.js:28-35 | the low-digit table is exactly "A…Z0…9" and the high-digit table exactly "a…z-+" |
| Alphabet.TablesDistinct | serialization.js:28-35 | the tables have 36 and 28 entries, neither repeats a character, and no character is in both |
| Alphabet.TableEntries | serialization.js:28-35 | the code point of every entry of both tables, read off the character ranges they are built from |
| Alphabet.LastIndexOf | serialization.js:38-42 | the index it returns holds `c`, and no later index does |
| Alphabet.ReverseTable | serialization.js:38-42 | the reverse map has exactly the table's characters as keys, each mapped to its last index, because later assignments overwrite earlier ones |
| Alphabet.ReverseInverse | serialization.js:38-42 | for a table without repeats, the reverse map sends every entry back to its own index |
| Alphabet.ReverseTableSize | serialization.js:38-42 | for a table without repeats, the reverse map has as many keys as the table has entries |
| Alphabet.IndexMembership | serialization.js:12-13 | a character is a key of a reverse map exactly when it belongs to that table's character class |
| Alphabet.IndexInverse | serialization.js:12-13 | each reverse map and its table are inverse to each other, in both directions |
| Alphabet.EntryChecks | serialization.js:202-227 | the tables have 36 and 28 entries, the reverse maps have 36 and 28 keys, and 36·28−1 ≥ 1000 |
| Alphabet.StandardTables | serialization.js:10-13 | the codec's reverse maps meet the conditions the decoder lemmas assume of `low` and `high` |
| Text.TrimSpec | serialization.js:82 | trimming removes a leading and a trailing run of whitespace and nothing else; the result does not start or end with whitespace |
| Text.TrimIdempotent | serialization.js:90 | trimming a trimmed text changes nothing |
| Text.TrimEmptyIff | serialization.js:82-85 | a text trims to "" exactly when it is all whitespace |
| Text.Split | serialization.js:87 | splitting gives at least one piece; no piece holds the delimiter, and joining the pieces with it restores the text |
| Text.SplitJoin | serialization.js:87 | splitting the join of delimiter-free pieces gives those pieces back, including empty ones |
| Text.JoinAppend | serialization.js:195 | joining two non-empty runs of pieces puts exactly one delimiter between their joins |
| Encoder.EncodeValue | serialization.js:126-131 | a value below 36 is the one character `Pos0[v mod 36]`; a larger one is two characters, `Pos1[v div 36]` (never `a`) then `Pos0[v mod 36]` |
| Encoder.EncodeArray | serialization.js:121-123 | the code string has between n and 2n characters, all from the two tables, and no `a` |
| Encoder.EncodeArrayAppend | serialization.js:121-123 | encoding a concatenation concatenates the encodings |
| Encoder.EncodeValueBoundaries | serialization.js:126-131 | 0 is "A", 35 is "9", 36 is "bA" and 1000 is "+2" |
| Decoder.Scan | serialization.js:173-188 | on success it yields one value per one or two characters; it fails only with an unexpected character that is not a low digit, or at the end after a high digit |
| Decoder.Decode | serialization.js:152-155 | a blank text decodes to no values |
| Decoder.ScanSucceedsIff | serialization.js:173-188 | over standard reverse maps, the scan succeeds exactly on strings of the code grammar, and every value it yields is at most 1007 |
| Decoder.ScanFailure | serialization.js:173-188 | a failed scan stops after a well-formed prefix, at the first offending character: one in neither table (reported), a high digit that ends the input (`UnexpectedEnd`), or the character after a high digit that is not a low digit (reported) |
| Decoder.DecodeFailure | serialization.js:152-188 | the same for the decoder as typed: the failure is located in the trimmed text, after a well-formed prefix |
| Decoder.DecodeCodesSpec | serialization.js:152-191 | decoding succeeds iff the string is in the code grammar; it fails on any character outside both tables and on a trailing high digit; its values are representable |
| Decoder.ScanValue | serialization.js:164-167 | the scan reads the code of any representable value back as that value and continues after it |
| Decoder.ScanZeroHigh | serialization.js:164-167 | `a` followed by a low digit scans to that low digit's value alone |
| Decoder.DecodeBadSecond | serialization.js:177-181 | a high digit followed by a character that is not a low digit fails with that character |
| Decoder.ScanEncode | serialization.js:173-188 | the scan of an encoder output gives the encoded values back |
| Decoder.RoundTrip | serialization.js:121-191 | decoding the code string of any representable values gives those values, in order and with duplicates kept |
| Decoder.ScanCanonical | serialization.js:164-167 | a decodable string with no `a` is exactly the code string of its decoded values |
| Decoder.CanonicalIff | serialization.js:164-167 | a decodable string re-encodes to itself if and only if it contains no `a` |
| Decoder.ScanLoop | serialization.js:157-190 | the character-reading loop with one lookahead returns what the recursive scan defines |
| Decoder.DecodeLoop | serialization.js:152-191 | the decoder as the program runs it, trim then loop, equals `Decode` |
| ListText.Decimal | serialization.js:195 | the shortest decimal spelling of a value: digits only, denoting the value, no leading zero unless the value is 0 |
| ListText.DecimalParses | serialization.js:116-118 | the decimal spelling of a value passes the numeric test and parses back to the value |
| ListText.IsNumeric | serialization.js:116-118 | an optional `-` then one or more ASCII digits, and nothing else; no contract of its own, `NumericIff` states it |
| ListText.NumericIff | serialization.js:116-118 | a token is numeric exactly when it holds a digit and every character is a digit, except that the first may be `-` |
| ListText.PlaceAppend | serialization.js:99 | appending a digit multiplies the positional value of the digits before it by ten and adds the digit |
| ListText.DigitsPlace | serialization.js:99 | the digit value accumulated from the end equals the positional value read from the front, each digit weighted by the power of ten of its place |
| ListText.ParseInt | serialization.js:99 | the positional base-ten value of the digits, negated after `-` |
| ListText.ParseToken | serialization.js:95-107 | a token is accepted iff it is numeric and denotes 0..1000; otherwise the error is `NonNumeric` for a format failure, or `OutOfRange` with the denoted value |
| ListText.ParsePieces | serialization.js:89-110 | every value of a successful parse is at most 1000 |
| ListText.ParseInputText | serialization.js:80-113 | a blank text gives no values; every value of a successful parse is at most 1000 |
| ListText.ParsePiecesAccepts | serialization.js:89-110 | the pieces parse if and only if every non-empty piece is accepted |
| ListText.ParsePiecesValues | serialization.js:89-110 | a successful parse has one value per non-empty piece, the integer that piece denotes, in order |
| ListText.ParsePiecesFailure | serialization.js:95-107 | a failed parse reports the first piece that is not accepted, with that piece's own error |
| ListText.ParseDecimals | serialization.js:89-110 | the decimal spellings of values up to 1000 parse back to those values |
| ListText.ParseOneWord | serialization.js:87-112 | a one-word text parses to that word's value, or fails with that word's error |
| ListText.FormatParse | serialization.js:194-196 | parsing the formatted text of values up to 1000 gives those values back |
| ListText.FormatList | serialization.js:194-196 | the decimal spellings joined by single spaces; no contract of its own, `FormatShape` and `FormatParse` state it |
| ListText.FormatShape | serialization.js:194-196 | the formatted text is empty only for the empty list; otherwise it neither starts nor ends with a space, and cutting it at each space gives the decimal spellings |
| ListText.NormalForm | serialization.js:80-113 | formatting the values of a parsed text and parsing again gives the same values |
| ListText.ParseLoop | serialization.js:80-113 | the parsing loop with `continue` on empty pieces and the two tests returns what `ParseInputText` defines |
| Codec.SerializeText | serialization.js:74-77 | serialization succeeds iff parsing does, fails with the parser's error, and its result decodes to the parsed values |
| Codec.DeserializeText | serialization.js:140-141 | deserialization succeeds iff decoding does, fails with the decoder's error, and for values up to 1000 its text parses back to them |
| Codec.RepresentableUpToMax | serialization.js:224-225 | every value up to 1000 has a code of at most two characters |
| Codec.SerializeDeserialize | serialization.js:74-77 | serializing then deserializing a list text gives its normal form |
| Codec.DeserializeSerialize | serialization.js:152-191 | deserializing then serializing a code string with values up to 1000 succeeds, and gives the trimmed code back iff it holds no `a` |
| Codec.DecodeTwoChars | serialization.js:164-167 | a high digit then a low digit decodes to low + 36·high, even above 1000 |
| Codec.CodecPair | serialization.js:237-281 | when a text is the normal form of some values and a code string is their encoding, each direction maps one onto the other |
| Vectors.SerializeDigits | serialization.js:250 | "0 1 2 3 4 5 6 7 8 9" serializes to "ABCDEFGHIJ", which deserializes back to it |
| Vectors.SerializeExtremes | serialization.js:251 | "0 500 1000" and "An6+2" map to each other |
| Vectors.SerializeMultiples | serialization.js:252 | "0 36 72 108" and "AbAcAdA" map to each other |
| Vectors.SerializeMixed | serialization.js:253 | "231 45 999 612" and "gPbJ+1rA" map to each other |
| Vectors.SerializeHundreds | serialization.js:254 | "100 200" serializes to "c2fU", which deserializes back to "100 200" |
| Vectors.SerializeNegative | serialization.js:255 | "-1" fails as out of range with value −1 |
| Vectors.SerializeTooLarge | serialization.js:256 | "2000" fails as out of range with value 2000 |
| Vectors.SerializeWords | serialization.js:257 | "NOT INTENGER SET" fails with its first word "NOT" as non-numeric |
| Vectors.SerializeMinusZero | serialization.js:99-109 | "-0" is accepted as 0 and serializes to "A" |
| Vectors.SerializeDoubleSpace | serialization.js:89-93 | "1  1" parses to two values 1: the empty piece between the spaces is skipped |
| Vectors.DecodeBeyondMax | serialization.js:164-167 | "+9" decodes to 1007 and deserializes to "1007", which then fails to serialize as out of range |
| Vectors.DecodeZeroHigh | serialization.js:164-167 | "aA" decodes to 0 |
| Vectors.DecodeRejects | serialization.js:280 | "abcdef" fails at `b`, both decoding and deserializing |

## Left out

- The page handlers `serialize` and `deserialize` (serialization.js:56-71, 134-149). They read and write DOM elements, log to the console, and show the caught error text. `Codec.SerializeText` and `Codec.DeserializeText` are what they compute.
- The self-check functions as runnable code (serialization.js:199-282). It only prints. Its expectations are the `Vectors` lemmas, and `checkEntry` is `Alphabet.EntryChecks`.
- The exact wording of the thrown strings. They are the constructors of `Error`.
- A high digit at the end of the input. The program reads `undefined` as the next character and reports it as an unexpected character; the model reports `UnexpectedEnd`.
- The `Number.isNaN` branch (serialization.js:101-103). A token that passes the numeric test always parses to a number, so the branch cannot be reached.
- `parseInt` on digit strings longer than about 15 digits, which yields a rounded floating-point number. The model uses the exact integer. Such a token is out of range either way; only the value carried by `OutOfRange` can differ.
- The sign of `-0`. The program keeps negative zero, which compares, encodes and prints like 0; the model has only 0.
- UTF-16 code units. Dafny characters are Unicode scalar values. A character outside the Basic Multilingual Plane is two code units to the program but one character here, so it is reported as one unexpected character, not a surrogate half. `RangeChars` requires its upper end below U+D800, which all the table ranges satisfy.
- Reverse maps as JavaScript objects. A lookup of a key the table does not hold is `undefined`; the model uses `in` on a `map`. No single character can name an inherited object property, so no other case arises.
