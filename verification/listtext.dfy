/** The list text: values written in decimal and separated by spaces
    (serialization.js lines 80-118 read it, lines 194-196 write it). */
module ListText {
  import opened Wrappers
  import opened CodecErrors
  import opened Alphabet
  import opened Text

  /** The separator between values, a single space. */
  const Delimiter: char := ' '

  /** A decimal digit '0'..'9', as the `\d` class of a non-Unicode regular
      expression matches it. */
  predicate IsDigit(c: char) {
    '0' <= c <= '9'
  }

  predicate AllDigits(t: string) {
    forall k :: 0 <= k < |t| ==> IsDigit(t[k])
  }

  /** The token is an optional minus sign followed by one or more digits,
      the whole token and nothing else. */
  predicate IsNumeric(t: string) {
    || (|t| >= 1 && AllDigits(t))
    || (|t| >= 2 && t[0] == '-' && AllDigits(t[1..]))
  }

  function DigitValue(c: char): (d: nat)
    requires IsDigit(c)
    ensures d < 10
  {
    c as int - '0' as int
  }

  function DigitChar(d: nat): (c: char)
    requires d < 10
    ensures IsDigit(c) && DigitValue(c) == d
  {
    ('0' as int + d) as char
  }

  /** The number a run of digits spells in base ten, most significant digit
      first; leading zeros add nothing. */
  function DigitsValue(t: string): nat
    requires AllDigits(t)
  {
    if |t| == 0 then 0 else DigitsValue(t[..|t| - 1]) * 10 + DigitValue(t[|t| - 1])
  }

  /** The token read character by character: at least one digit, and every
      character a digit except that the first may be a minus sign. */
  lemma NumericIff(t: string)
    ensures IsNumeric(t) <==>
              && (exists k :: 0 <= k < |t| && IsDigit(t[k]))
              && (forall k :: 0 <= k < |t| ==> IsDigit(t[k]) || (k == 0 && t[k] == '-'))
  {
    if |t| >= 1 && t[0] == '-' {
      assert forall k :: 1 <= k < |t| ==> t[k] == t[1..][k - 1];
      if |t| >= 2 && AllDigits(t[1..]) {
        assert IsDigit(t[1]);
      }
    } else if |t| >= 1 && AllDigits(t) {
      assert IsDigit(t[0]);
    }
  }

  function Pow10(n: nat): (p: nat)
    ensures p >= 1
  {
    if n == 0 then 1 else 10 * Pow10(n - 1)
  }

  /** Positional notation read from the front: each digit weighted by the
      power of ten of its place. */
  function PlaceValue(t: string): nat
    requires AllDigits(t)
  {
    if |t| == 0 then 0 else DigitValue(t[0]) * Pow10(|t| - 1) + PlaceValue(t[1..])
  }

  /** A digit appended at the end shifts the places of the others by one. */
  lemma {:induction false} PlaceAppend(u: string, c: char)
    requires AllDigits(u) && IsDigit(c)
    ensures AllDigits(u + [c]) && PlaceValue(u + [c]) == PlaceValue(u) * 10 + DigitValue(c)
    decreases |u|
  {
    var w := u + [c];
    assert forall k :: 0 <= k < |u| ==> w[k] == u[k];
    if |u| > 0 {
      assert w[1..] == u[1..] + [c];
      PlaceAppend(u[1..], c);
      assert Pow10(|u|) == Pow10(|u| - 1) * 10;
      assert DigitValue(u[0]) * Pow10(|u|) == DigitValue(u[0]) * Pow10(|u| - 1) * 10;
    } else {
      assert w == [c];
    }
  }

  /** The value accumulated from the last digit backwards is the positional
      value read from the front. */
  lemma {:induction false} DigitsPlace(t: string)
    requires AllDigits(t)
    ensures DigitsValue(t) == PlaceValue(t)
    decreases |t|
  {
    if |t| > 0 {
      var init := t[..|t| - 1];
      DigitsPlace(init);
      PlaceAppend(init, t[|t| - 1]);
      assert init + [t[|t| - 1]] == t;
    }
  }

  /** The integer a numeric token denotes: the positional value of its
      digits, negated after a minus sign. "-0" denotes 0. */
  function ParseInt(t: string): (r: int)
    requires IsNumeric(t)
    ensures r == if t[0] == '-' then -(PlaceValue(t[1..]) as int) else PlaceValue(t) as int
  {
    if t[0] == '-' then DigitsPlace(t[1..]); -(DigitsValue(t[1..]) as int)
    else DigitsPlace(t); DigitsValue(t)
  }

  /** The shortest decimal spelling of `n`, as a number converts to text. */
  function Decimal(n: nat): (r: string)
    ensures |r| >= 1 && AllDigits(r) && DigitsValue(r) == n
    ensures r[0] == '0' ==> n == 0
    decreases n
  {
    if n < 10 then [DigitChar(n)]
    else
      var r := Decimal(n / 10) + [DigitChar(n % 10)];
      assert r[..|r| - 1] == Decimal(n / 10);
      r
  }

  /** A token the parser takes: numeric, and denoting a value from 0 to the
      maximum number. */
  predicate Accepted(w: string) {
    IsNumeric(w) && 0 <= ParseInt(w) <= MaxNumber
  }

  /** One trimmed, non-empty token: its value, or why it is rejected. The
      format test comes first, then the range test. */
  function ParseToken(w: string): (r: Result<nat, Error>)
    ensures r.Success? <==> Accepted(w)
    ensures r.Success? ==> r.value == ParseInt(w) && r.value <= MaxNumber
    ensures r.Failure? ==> r.error == (if IsNumeric(w) then OutOfRange(ParseInt(w)) else NonNumeric(w))
  {
    if !IsNumeric(w) then Failure(NonNumeric(w))
    else
      var v := ParseInt(w);
      if v < 0 || v > MaxNumber then Failure(OutOfRange(v)) else Success(v)
  }

  /** Every piece trimmed, as the parser trims each one before testing it. */
  function TrimAll(ts: seq<string>): (ps: seq<string>)
    ensures |ps| == |ts|
    ensures forall k :: 0 <= k < |ts| ==> ps[k] == Trim(ts[k])
  {
    seq(|ts|, k requires 0 <= k < |ts| => Trim(ts[k]))
  }

  /** The trimmed pieces that carry a value: the empty ones dropped. */
  function Words(ps: seq<string>): (ws: seq<string>)
    ensures |ws| <= |ps|
    ensures forall k :: 0 <= k < |ws| ==> |ws[k]| > 0
  {
    if |ps| == 0 then []
    else if |ps[0]| == 0 then Words(ps[1..])
    else [ps[0]] + Words(ps[1..])
  }

  /** The trimmed pieces parsed in order, empty ones skipped; the first
      rejected piece ends the parse with its error. */
  function ParsePieces(ps: seq<string>): (r: Result<seq<nat>, Error>)
    ensures r.Success? ==> forall k :: 0 <= k < |r.value| ==> r.value[k] <= MaxNumber
  {
    if |ps| == 0 then Success([])
    else if |ps[0]| == 0 then ParsePieces(ps[1..])
    else
      var v :- ParseToken(ps[0]);
      Cons(v, ParsePieces(ps[1..]))
  }

  /** The values of a list text. A blank text has none; otherwise the
      trimmed text is split at every single space and each piece, trimmed,
      is parsed. */
  function ParseInputText(txt: string): (r: Result<seq<nat>, Error>)
    ensures |Trim(txt)| == 0 ==> r == Success([])
    ensures r.Success? ==> forall k :: 0 <= k < |r.value| ==> r.value[k] <= MaxNumber
  {
    var t := Trim(txt);
    if |t| == 0 then Success([]) else ParsePieces(TrimAll(Split(t, Delimiter)))
  }

  /** The decimal spellings of the values, in order. */
  function Decimals(xs: seq<nat>): (ds: seq<string>)
    ensures |ds| == |xs|
    ensures forall k :: 0 <= k < |ds| ==> ds[k] == Decimal(xs[k])
  {
    if |xs| == 0 then [] else [Decimal(xs[0])] + Decimals(xs[1..])
  }

  /** The spellings of a concatenation are the spellings of its parts. */
  lemma DecimalsAppend(xs: seq<nat>, ys: seq<nat>)
    ensures Decimals(xs + ys) == Decimals(xs) + Decimals(ys)
  {
    var zs := xs + ys;
    assert forall k :: 0 <= k < |zs| ==> zs[k] == if k < |xs| then xs[k] else ys[k - |xs|];
  }

  /** The values in decimal with one space between neighbours. */
  function FormatList(xs: seq<nat>): string {
    Join(Decimals(xs), Delimiter)
  }

  /** The pieces parse exactly when every word among them is accepted. */
  lemma {:induction false} ParsePiecesAccepts(ps: seq<string>)
    ensures ParsePieces(ps).Success? <==> forall k {:trigger Words(ps)[k]} :: 0 <= k < |Words(ps)| ==> Accepted(Words(ps)[k])
    decreases |ps|
  {
    if |ps| > 0 {
      ParsePiecesAccepts(ps[1..]);
      assert ParsePieces(ps[1..]).Success? <==> forall k :: 0 <= k < |Words(ps[1..])| ==> Accepted(Words(ps[1..])[k]);
      if |ps[0]| > 0 {
        var ws := Words(ps);
        var rest := Words(ps[1..]);
        assert ws == [ps[0]] + rest;
        if Accepted(ps[0]) {
          assert ParsePieces(ps) == Cons(ParseInt(ps[0]), ParsePieces(ps[1..]));
          if ParsePieces(ps[1..]).Success? {
            forall k | 1 <= k < |ws|
              ensures Accepted(ws[k])
            {
              assert ws[k] == rest[k - 1] && Accepted(rest[k - 1]);
            }
          } else {
            var k :| 0 <= k < |rest| && !Accepted(rest[k]);
            assert ws[k + 1] == rest[k];
          }
        } else {
          assert !Accepted(ws[0]);
        }
      }
    }
  }

  /** A successful parse has one value per word, the value the word
      denotes, in the order of the words. */
  lemma {:induction false} ParsePiecesValues(ps: seq<string>)
    requires ParsePieces(ps).Success?
    ensures forall k {:trigger Words(ps)[k]} :: 0 <= k < |Words(ps)| ==> Accepted(Words(ps)[k])
    ensures |ParsePieces(ps).value| == |Words(ps)|
    ensures forall k :: 0 <= k < |Words(ps)| ==> IsNumeric(Words(ps)[k]) && ParsePieces(ps).value[k] == ParseInt(Words(ps)[k])
    decreases |ps|
  {
    ParsePiecesAccepts(ps);
    if |ps| == 0 {
    } else if |ps[0]| == 0 {
      ParsePiecesValues(ps[1..]);
    } else {
      ParsePiecesValues(ps[1..]);
      var ws := Words(ps);
      var rest := Words(ps[1..]);
      var vs := ParsePieces(ps).value;
      var tail := ParsePieces(ps[1..]).value;
      assert ws == [ps[0]] + rest;
      assert vs == [ParseInt(ps[0])] + tail;
      forall k | 1 <= k < |ws|
        ensures vs[k] == ParseInt(ws[k])
      {
        assert ws[k] == rest[k - 1] && vs[k] == tail[k - 1];
      }
    }
  }

  /** A failed parse reports the first token that is not accepted, with the
      error the token test gives it. */
  lemma {:induction false} ParsePiecesFailure(ps: seq<string>) returns (i: nat)
    requires ParsePieces(ps).Failure?
    ensures i < |Words(ps)| && !Accepted(Words(ps)[i])
    ensures forall k :: 0 <= k < i ==> Accepted(Words(ps)[k])
    ensures ParsePieces(ps).error == ParseToken(Words(ps)[i]).error
    decreases |ps|
  {
    if |ps[0]| == 0 {
      i := ParsePiecesFailure(ps[1..]);
    } else if !Accepted(ps[0]) {
      i := 0;
    } else {
      var j := ParsePiecesFailure(ps[1..]);
      i := j + 1;
      var ws := Words(ps);
      assert ws == [ps[0]] + Words(ps[1..]);
      assert forall k :: 1 <= k < |ws| ==> ws[k] == Words(ps[1..])[k - 1];
    }
  }

  /** The decimal spelling of a value is a numeric token denoting it. */
  lemma DecimalParses(n: nat)
    ensures IsNumeric(Decimal(n)) && ParseInt(Decimal(n)) == n
  {
  }

  /** Digits are never whitespace, and never the delimiter. */
  lemma DigitsPlain(t: string)
    requires AllDigits(t)
    ensures forall k :: 0 <= k < |t| ==> !IsWhitespace(t[k])
    ensures Delimiter !in t
  {
  }

  /** The decimal spellings of values up to the maximum parse back to the
      values, piece by piece. */
  lemma {:induction false} ParseDecimals(xs: seq<nat>)
    requires forall k :: 0 <= k < |xs| ==> xs[k] <= MaxNumber
    ensures ParsePieces(Decimals(xs)) == Success(xs)
    decreases |xs|
  {
    if |xs| > 0 {
      DecimalParses(xs[0]);
      assert Decimals(xs)[1..] == Decimals(xs[1..]);
      ParseDecimals(xs[1..]);
      assert [xs[0]] + xs[1..] == xs;
    }
  }

  /** Decimal spellings hold no delimiter and are left alone by trimming. */
  lemma DecimalsTrimmed(xs: seq<nat>)
    ensures forall k :: 0 <= k < |xs| ==> Delimiter !in Decimals(xs)[k]
    ensures TrimAll(Decimals(xs)) == Decimals(xs)
  {
    var ds := Decimals(xs);
    forall k | 0 <= k < |ds|
      ensures Delimiter !in ds[k] && Trim(ds[k]) == ds[k]
    {
      DecimalPlain(xs[k]);
    }
  }

  /** The decimal spelling of a value holds no delimiter and no whitespace
      at its ends. */
  lemma DecimalPlain(n: nat)
    ensures Delimiter !in Decimal(n) && Trim(Decimal(n)) == Decimal(n)
  {
    DigitsPlain(Decimal(n));
    TrimNoop(Decimal(n));
  }

  /** The joined text starts with the first piece's first character. */
  lemma JoinFirst(xs: seq<string>, d: char)
    requires |xs| >= 1 && |xs[0]| > 0
    ensures |Join(xs, d)| > 0 && Join(xs, d)[0] == xs[0][0]
  {
  }

  /** The joined text ends with the last piece's last character. */
  lemma {:induction false} JoinLast(xs: seq<string>, d: char)
    requires |xs| >= 1 && |xs[|xs| - 1]| > 0
    ensures var s := Join(xs, d);
            |s| > 0 && s[|s| - 1] == xs[|xs| - 1][|xs[|xs| - 1]| - 1]
    decreases |xs|
  {
    if |xs| > 1 {
      JoinLast(xs[1..], d);
    }
  }

  /** Formatting values up to the maximum and parsing the text gives the
      values back. */
  lemma FormatParse(xs: seq<nat>)
    requires forall k :: 0 <= k < |xs| ==> xs[k] <= MaxNumber
    ensures ParseInputText(FormatList(xs)) == Success(xs)
  {
    var ds := Decimals(xs);
    var s := FormatList(xs);
    if |xs| > 0 {
      JoinFirst(ds, Delimiter);
      JoinLast(ds, Delimiter);
      DigitsPlain(ds[0]);
      DigitsPlain(ds[|ds| - 1]);
      TrimNoop(s);
      DecimalsTrimmed(xs);
      SplitJoin(ds, Delimiter);
      assert Split(s, Delimiter) == ds;
      ParseDecimals(xs);
      assert ParsePieces(TrimAll(ds)) == Success(xs);
      ParseUntrimmed(s);
    }
  }

  /** The parse of a text that is already trimmed and not empty. */
  lemma ParseUntrimmed(t: string)
    requires |t| > 0 && Trim(t) == t
    ensures ParseInputText(t) == ParsePieces(TrimAll(Split(t, Delimiter)))
  {
  }

  /** A text of one word, with no delimiter and no whitespace at its ends,
      parses as that word alone. */
  lemma ParseOneWord(w: string)
    requires |w| > 0 && Delimiter !in w && Trim(w) == w
    ensures ParseInputText(w) == (if Accepted(w) then Success([ParseInt(w)]) else Failure(ParseToken(w).error))
  {
    SplitJoin([w], Delimiter);
    assert TrimAll([w]) == [w];
    ParseUntrimmed(w);
    assert [w][1..] == [];
    if Accepted(w) {
      assert ParsePieces([w]) == Cons(ParseInt(w), ParsePieces([]));
      assert [ParseInt(w) as nat] + [] == [ParseInt(w)];
    } else {
      assert ParsePieces([w]) == Failure(ParseToken(w).error);
    }
  }

  /** The formatted text is empty exactly for the empty list; otherwise it
      neither starts nor ends with a space, and cutting it at every space
      gives the decimal spellings back: exactly one space separates
      neighbours. */
  lemma FormatShape(xs: seq<nat>)
    ensures FormatList(xs) == "" <==> |xs| == 0
    ensures |xs| > 0 ==> FormatList(xs)[0] != Delimiter && FormatList(xs)[|FormatList(xs)| - 1] != Delimiter
    ensures |xs| > 0 ==> Split(FormatList(xs), Delimiter) == Decimals(xs)
  {
    if |xs| > 0 {
      var ds := Decimals(xs);
      JoinFirst(ds, Delimiter);
      JoinLast(ds, Delimiter);
      DigitsPlain(ds[0]);
      DigitsPlain(ds[|ds| - 1]);
      DecimalsTrimmed(xs);
      SplitJoin(ds, Delimiter);
    }
  }

  /** Formatting is a normal form of the list text: the formatted values of
      a parsed text parse to the same values. */
  lemma NormalForm(txt: string)
    requires ParseInputText(txt).Success?
    ensures ParseInputText(FormatList(ParseInputText(txt).value)) == ParseInputText(txt)
  {
    FormatParse(ParseInputText(txt).value);
  }

  /** The parser of the list text, loop by loop as the program runs it:
      trim, split, and for every piece trim it, skip it when empty, test the
      format, convert, test the range. */
  method ParseLoop(txt: string) returns (r: Result<seq<nat>, Error>)
    ensures r == ParseInputText(txt)
  {
    var t := Trim(txt);
    if |t| == 0 {
      return Success([]);
    }
    var tokens := Split(t, Delimiter);
    ghost var ps := TrimAll(tokens);
    var values: seq<nat> := [];
    var i := 0;
    assert ps[i..] == ps;
    PrependNothing(ParsePieces(ps));
    while i < |tokens|
      invariant 0 <= i <= |tokens|
      invariant ParsePieces(ps) == Prepend(values, ParsePieces(ps[i..]))
    {
      assert ps[i..][0] == ps[i] && ps[i..][1..] == ps[i + 1..];
      var w := Trim(tokens[i]);
      assert w == ps[i];
      i := i + 1;
      if |w| == 0 {
        continue;
      }
      if !IsNumeric(w) {
        return Failure(NonNumeric(w));
      }
      var v := ParseInt(w);
      if v < 0 || v > MaxNumber {
        return Failure(OutOfRange(v));
      }
      assert ParsePieces(ps[i - 1..]) == Cons(v, ParsePieces(ps[i..]));
      PrependCons(values, v, ParsePieces(ps[i..]));
      values := values + [v];
    }
    assert ps[i..] == [] && values + [] == values;
    return Success(values);
  }
}
