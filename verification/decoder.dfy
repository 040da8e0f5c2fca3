/** The code-string decoder (serialization.js lines 152-191): a left-to-right
    scan with one character of lookahead, after trimming the input. The scan
    is written against the two reverse maps it consults, and the decoder runs
    it on the reverse maps of the alphabet tables. */
module Decoder {
  import opened Wrappers
  import opened CodecErrors
  import opened Alphabet
  import opened Text
  import opened Encoder

  /** The scan of an already trimmed code string against the reverse maps
      `low` (low digits) and `high` (high digits). A high-digit character
      starts a two-character code whose second character must be a low digit
      and whose value is the low digit plus 36 times the high digit; a
      low-digit character alone is a one-character code; any other character,
      and a high digit at the very end, is an error. */
  function Scan(s: string, low: map<char, nat>, high: map<char, nat>): (r: Result<seq<nat>, Error>)
    ensures r.Success? ==> |r.value| <= |s| <= 2 * |r.value|
    ensures r.Failure? ==> r.error.UnexpectedChar? || r.error.UnexpectedEnd?
    ensures r.Failure? && r.error.UnexpectedChar? ==> r.error.c in s && r.error.c !in low
    ensures r.Failure? && r.error.UnexpectedEnd? ==> |s| > 0 && s[|s| - 1] in high
    decreases |s|
  {
    if |s| == 0 then Success([])
    else if s[0] in high then
      if |s| == 1 then Failure(UnexpectedEnd)
      else if s[1] !in low then Failure(UnexpectedChar(s[1]))
      else Cons(low[s[1]] + high[s[0]] * Pos0Size, Scan(s[2..], low, high))
    else if s[0] in low then Cons(low[s[0]], Scan(s[1..], low, high))
    else Failure(UnexpectedChar(s[0]))
  }

  /** The scan over the codec's own reverse maps. */
  function DecodeCodes(s: string): Result<seq<nat>, Error> {
    Scan(s, Pos0Index, Pos1Index)
  }

  /** Decoding of a code string as the user typed it: surrounding whitespace
      is ignored, so an empty or blank text decodes to no values. */
  function Decode(txt: string): (r: Result<seq<nat>, Error>)
    ensures |Trim(txt)| == 0 ==> r == Success([])
  {
    DecodeCodes(Trim(txt))
  }

  /** The grammar of well-formed code strings: a sequence of codes, each a
      low-digit character alone or a high-digit character followed by a
      low-digit character. */
  predicate IsCodeString(s: string)
    decreases |s|
  {
    || |s| == 0
    || (IsPos0Char(s[0]) && IsCodeString(s[1..]))
    || (|s| >= 2 && IsPos1Char(s[0]) && IsPos0Char(s[1]) && IsCodeString(s[2..]))
  }

  /** Over standard reverse maps, the scan succeeds exactly on the strings of
      the code grammar, and every value it yields is representable. */
  lemma {:induction false} ScanSucceedsIff(s: string, low: map<char, nat>, high: map<char, nat>)
    requires StandardIndexes(low, high) && ClassIndexes(low, high)
    ensures Scan(s, low, high).Success? <==> IsCodeString(s)
    ensures Scan(s, low, high).Success? ==> AllRepresentable(Scan(s, low, high).value)
    decreases |s|
  {
    if |s| == 0 {
    } else if IsPos1Char(s[0]) {
      assert s[0] in high && !IsPos0Char(s[0]);
      if |s| >= 2 {
        ScanSucceedsIff(s[2..], low, high);
        if s[1] in low {
          assert low[s[1]] < Pos0Size && high[s[0]] < Pos1Size;
        }
      }
    } else if IsPos0Char(s[0]) {
      assert s[0] in low && s[0] !in high;
      ScanSucceedsIff(s[1..], low, high);
    } else {
      assert s[0] !in low && s[0] !in high;
    }
  }

  /** Every character of a well-formed code string is in one of the two
      alphabets, and its last character is a low digit. */
  lemma {:induction false} CodeStringChars(s: string)
    requires IsCodeString(s)
    ensures forall k :: 0 <= k < |s| ==> IsPos0Char(s[k]) || IsPos1Char(s[k])
    ensures |s| > 0 ==> IsPos0Char(s[|s| - 1])
    decreases |s|
  {
    if |s| == 0 {
    } else if IsPos0Char(s[0]) && IsCodeString(s[1..]) {
      CodeStringChars(s[1..]);
      assert forall k :: 1 <= k < |s| ==> s[k] == s[1..][k - 1];
    } else {
      CodeStringChars(s[2..]);
      assert forall k :: 2 <= k < |s| ==> s[k] == s[2..][k - 2];
    }
  }

  /** Where the scan stops when it fails: after a well-formed prefix
      `s[..k]`, at a character in neither alphabet, at a high digit that ends
      the input, or at the character after a high digit when that character
      is not a low digit. The error names the character the scan stopped
      at, so it is always the first offending one. */
  lemma {:induction false} ScanFailure(s: string, low: map<char, nat>, high: map<char, nat>) returns (k: nat)
    requires ClassIndexes(low, high)
    requires Scan(s, low, high).Failure?
    ensures k < |s| && IsCodeString(s[..k])
    ensures var e := Scan(s, low, high).error;
            || (!IsPos0Char(s[k]) && !IsPos1Char(s[k]) && e == UnexpectedChar(s[k]))
            || (IsPos1Char(s[k]) && k + 1 == |s| && e == UnexpectedEnd)
            || (IsPos1Char(s[k]) && k + 1 < |s| && !IsPos0Char(s[k + 1]) && e == UnexpectedChar(s[k + 1]))
    decreases |s|
  {
    if s[0] in high {
      if |s| == 1 || s[1] !in low {
        k := 0;
      } else {
        var j := ScanFailure(s[2..], low, high);
        k := j + 2;
        assert s[..k][2..] == s[2..][..j];
        assert s[k] == s[2..][j];
        assert k + 1 < |s| ==> s[k + 1] == s[2..][j + 1];
      }
    } else if s[0] in low {
      var j := ScanFailure(s[1..], low, high);
      k := j + 1;
      assert s[..k][1..] == s[1..][..j];
      assert s[k] == s[1..][j];
      assert k + 1 < |s| ==> s[k + 1] == s[1..][j + 1];
    } else {
      k := 0;
    }
  }

  /** Decoding a code string as typed fails where the scan of its trimmed
      text stops (see ScanFailure). */
  lemma DecodeFailure(txt: string) returns (k: nat)
    requires Decode(txt).Failure?
    ensures var s := Trim(txt);
            k < |s| && IsCodeString(s[..k])
    ensures var s, e := Trim(txt), Decode(txt).error;
            || (!IsPos0Char(s[k]) && !IsPos1Char(s[k]) && e == UnexpectedChar(s[k]))
            || (IsPos1Char(s[k]) && k + 1 == |s| && e == UnexpectedEnd)
            || (IsPos1Char(s[k]) && k + 1 < |s| && !IsPos0Char(s[k + 1]) && e == UnexpectedChar(s[k + 1]))
  {
    StandardTables();
    k := ScanFailure(Trim(txt), Pos0Index, Pos1Index);
  }

  /** The decoder succeeds exactly on the code grammar; it fails on any
      character outside both alphabets and on a trailing high digit; its
      values are representable (at most 1007, not only up to 1000). */
  lemma DecodeCodesSpec(s: string)
    ensures DecodeCodes(s).Success? <==> IsCodeString(s)
    ensures DecodeCodes(s).Success? ==> AllRepresentable(DecodeCodes(s).value)
    ensures (exists k :: 0 <= k < |s| && !IsPos0Char(s[k]) && !IsPos1Char(s[k])) ==> DecodeCodes(s).Failure?
    ensures |s| > 0 && IsPos1Char(s[|s| - 1]) ==> DecodeCodes(s).Failure?
    ensures DecodeCodes(s).Failure? && DecodeCodes(s).error.UnexpectedChar? ==> !IsPos0Char(DecodeCodes(s).error.c)
  {
    StandardTables();
    ScanSucceedsIff(s, Pos0Index, Pos1Index);
    if IsCodeString(s) {
      CodeStringChars(s);
    }
  }

  /** Over standard reverse maps, the scan reads the code of `x` back as
      `x` and carries on with what follows it. */
  lemma ScanValue(x: nat, tail: string, low: map<char, nat>, high: map<char, nat>)
    requires StandardIndexes(low, high) && Representable(x)
    ensures Scan(EncodeValue(x) + tail, low, high) == Cons(x, Scan(tail, low, high))
  {
    if x < Pos0Size {
      ScanLowValue(x, tail, low, high);
    } else {
      ScanHighValue(x, tail, low, high);
    }
  }

  /** `ScanValue` for a value below 36: one low digit. */
  lemma ScanLowValue(x: nat, tail: string, low: map<char, nat>, high: map<char, nat>)
    requires StandardIndexes(low, high) && x < Pos0Size
    ensures Scan(EncodeValue(x) + tail, low, high) == Cons(x, Scan(tail, low, high))
  {
    TableClasses();
    assert EncodeValue(x) == [Pos0[x]];
    assert low[Pos0[x]] == x;
    ScanOne(Pos0[x], tail, low, high);
  }

  /** `ScanValue` for a representable value from 36 up: a high digit, then
      a low digit. */
  lemma ScanHighValue(x: nat, tail: string, low: map<char, nat>, high: map<char, nat>)
    requires StandardIndexes(low, high) && Representable(x) && x >= Pos0Size
    ensures Scan(EncodeValue(x) + tail, low, high) == Cons(x, Scan(tail, low, high))
  {
    TableClasses();
    var h := x / Pos0Size;
    var l := x % Pos0Size;
    assert EncodeValue(x) == [Pos1[h], Pos0[l]];
    assert low[Pos0[l]] == l && high[Pos1[h]] == h;
    ScanTwo(Pos1[h], Pos0[l], tail, low, high);
    assert l + h * Pos0Size == x;
  }

  /** A low digit that is not a high digit is a one-character code. */
  lemma ScanOne(c: char, tail: string, low: map<char, nat>, high: map<char, nat>)
    requires c in low && c !in high
    ensures Scan([c] + tail, low, high) == Cons(low[c], Scan(tail, low, high))
  {
    assert ([c] + tail)[1..] == tail;
  }

  /** Over standard reverse maps, the table's high digit `h` followed by
      its low digit `l` scans to the one value `l + 36 * h`. */
  lemma ScanPair(h: nat, l: nat, low: map<char, nat>, high: map<char, nat>)
    requires StandardIndexes(low, high) && h < Pos1Size && l < Pos0Size
    ensures Scan([Pos1[h], Pos0[l]], low, high) == Success([l + h * Pos0Size])
  {
    TableClasses();
    assert low[Pos0[l]] == l && high[Pos1[h]] == h;
    ScanTwo(Pos1[h], Pos0[l], [], low, high);
    assert [Pos1[h], Pos0[l]] + [] == [Pos1[h], Pos0[l]];
    assert [l + h * Pos0Size] + [] == [l + h * Pos0Size];
  }

  /** Over standard reverse maps, the zero high digit 'a' in front of a low
      digit adds nothing to its value. */
  lemma ScanZeroHigh(c: char, low: map<char, nat>, high: map<char, nat>)
    requires StandardIndexes(low, high) && c in low
    ensures Scan(['a', c], low, high) == Success([low[c]])
  {
    TableClasses();
    assert 'a' in high && high['a'] == 0;
    ScanTwo('a', c, [], low, high);
    assert ['a', c] + [] == ['a', c] && [low[c]] + [] == [low[c]];
  }

  /** Over standard reverse maps, a high digit followed by a character
      that is no low digit fails on that character. */
  lemma ScanBadSecond(s: string, low: map<char, nat>, high: map<char, nat>)
    requires StandardIndexes(low, high) && ClassIndexes(low, high)
    requires |s| >= 2 && IsPos1Char(s[0]) && !IsPos0Char(s[1])
    ensures Scan(s, low, high) == Failure(UnexpectedChar(s[1]))
  {
  }

  /** A trimmed code string that opens with a high digit and a character
      that is no low digit fails on that character. */
  lemma DecodeBadSecond(s: string)
    requires Trim(s) == s && |s| >= 2 && IsPos1Char(s[0]) && !IsPos0Char(s[1])
    ensures Decode(s) == Failure(UnexpectedChar(s[1]))
  {
    StandardTables();
    ScanBadSecond(s, Pos0Index, Pos1Index);
  }

  /** A high digit followed by a low digit is a two-character code. */
  lemma ScanTwo(c1: char, c2: char, tail: string, low: map<char, nat>, high: map<char, nat>)
    requires c1 in high && c2 in low
    ensures Scan([c1, c2] + tail, low, high) == Cons(low[c2] + high[c1] * Pos0Size, Scan(tail, low, high))
  {
    assert ([c1, c2] + tail)[2..] == tail;
  }

  /** Over standard reverse maps, scanning the code string of representable
      values gives them back, in order and with repeats. */
  lemma {:induction false} ScanEncode(xs: seq<nat>, low: map<char, nat>, high: map<char, nat>)
    requires StandardIndexes(low, high) && AllRepresentable(xs)
    ensures Scan(EncodeArray(xs), low, high) == Success(xs)
    decreases |xs|
  {
    if |xs| > 0 {
      assert AllRepresentable(xs[1..]);
      ScanEncode(xs[1..], low, high);
      ScanValue(xs[0], EncodeArray(xs[1..]), low, high);
      assert [xs[0]] + xs[1..] == xs;
    }
  }

  /** Code strings the encoder produced contain no whitespace, so the trim
      of the decoder leaves them alone and the codec round-trips. */
  lemma RoundTrip(xs: seq<nat>)
    requires AllRepresentable(xs)
    ensures Decode(EncodeArray(xs)) == Success(xs)
  {
    var s := EncodeArray(xs);
    if |s| > 0 {
      assert IsPos0Char(s[0]) || IsPos1Char(s[0]);
      assert IsPos0Char(s[|s| - 1]) || IsPos1Char(s[|s| - 1]);
    }
    TrimNoop(s);
    StandardTables();
    ScanEncode(xs, Pos0Index, Pos1Index);
  }

  /** The first code of a successfully scanned string: its length `n`, its
      value `v`, and (unless it starts with 'a') the fact that `v` encodes to
      exactly those `n` characters. */
  lemma ScanHead(s: string, low: map<char, nat>, high: map<char, nat>) returns (n: nat, v: nat)
    requires StandardIndexes(low, high)
    requires Scan(s, low, high).Success? && |s| > 0
    ensures 1 <= n <= 2 && n <= |s| && Representable(v)
    ensures Scan(s, low, high) == Cons(v, Scan(s[n..], low, high))
    ensures s[0] != 'a' ==> EncodeValue(v) == s[..n]
  {
    n, v := ScanStep(s, low, high);
    if n == 2 {
      TwoRepresentable(s, low, high);
      if s[0] != 'a' {
        ReencodeTwo(s, low, high);
      }
    } else {
      ReencodeOne(s, low, high);
    }
  }

  /** The first code of a decodable string: a high digit with the low digit
      after it, or a lone low digit. */
  lemma ScanStep(s: string, low: map<char, nat>, high: map<char, nat>) returns (n: nat, v: nat)
    requires Scan(s, low, high).Success? && |s| > 0
    ensures 1 <= n <= 2 && n <= |s|
    ensures Scan(s, low, high) == Cons(v, Scan(s[n..], low, high))
    ensures n == 2 ==> s[0] in high && s[1] in low && v == low[s[1]] + high[s[0]] * Pos0Size
    ensures n == 1 ==> s[0] !in high && s[0] in low && v == low[s[0]]
  {
    if s[0] in high {
      n, v := 2, low[s[1]] + high[s[0]] * Pos0Size;
    } else {
      n, v := 1, low[s[0]];
    }
  }


  /** The code string of `v` followed by `rest` is `s` when `v` encodes to
      the first `n` characters of `s` and `rest` to the others. */
  lemma EncodeCons(v: nat, rest: seq<nat>, s: string, n: nat)
    requires 0 < n <= |s| && Representable(v) && AllRepresentable(rest)
    requires EncodeValue(v) == s[..n] && EncodeArray(rest) == s[n..]
    ensures AllRepresentable([v] + rest) && EncodeArray([v] + rest) == s
  {
    var xs := [v] + rest;
    assert xs[0] == v && xs[1..] == rest;
    assert s == s[..n] + s[n..];
  }

  /** Over standard reverse maps, a decodable string without the zero high
      digit 'a' is exactly the code string of its decoded values. */
  lemma {:induction false} ScanCanonical(s: string, low: map<char, nat>, high: map<char, nat>)
    requires StandardIndexes(low, high)
    requires Scan(s, low, high).Success? && 'a' !in s
    ensures AllRepresentable(Scan(s, low, high).value)
    ensures EncodeArray(Scan(s, low, high).value) == s
    decreases |s|
  {
    if |s| > 0 {
      var n, v := ScanHead(s, low, high);
      var tail := s[n..];
      assert s[0] in s;
      assert 'a' !in tail by {
        forall k | 0 <= k < |tail|
          ensures tail[k] != 'a'
        {
          assert tail[k] == s[k + n];
        }
      }
      ScanCanonical(tail, low, high);
      EncodeCons(v, Scan(tail, low, high).value, s, n);
    }
  }

  /** A low digit plus 36 times a high digit is representable. */
  lemma TwoDigitBound(l: nat, h: nat)
    requires l < Pos0Size && h < Pos1Size
    ensures Representable(l + h * Pos0Size)
  {
    assert h * Pos0Size <= (Pos1Size - 1) * Pos0Size;
  }

  /** Over standard reverse maps, the value of a high digit followed by a
      low digit fits in two digits. */
  lemma TwoRepresentable(s: string, low: map<char, nat>, high: map<char, nat>)
    requires StandardIndexes(low, high)
    requires |s| >= 2 && s[0] in high && s[1] in low
    ensures Representable(low[s[1]] + high[s[0]] * Pos0Size)
  {
    TableClasses();
    TwoDigitBound(low[s[1]], high[s[0]]);
  }

  /** Over standard reverse maps, a one-character code is what the encoder
      writes for its value. */
  lemma ReencodeOne(s: string, low: map<char, nat>, high: map<char, nat>)
    requires StandardIndexes(low, high) && |s| >= 1 && s[0] in low
    ensures Representable(low[s[0]]) && EncodeValue(low[s[0]]) == s[..1]
  {
    assert s[..1] == [s[0]];
  }

  /** Over standard reverse maps, a two-character code whose high digit is
      not 'a' is what the encoder writes for its value. */
  lemma ReencodeTwo(s: string, low: map<char, nat>, high: map<char, nat>)
    requires StandardIndexes(low, high)
    requires |s| >= 2 && s[0] in high && s[1] in low && s[0] != 'a'
    ensures Representable(low[s[1]] + high[s[0]] * Pos0Size)
    ensures EncodeValue(low[s[1]] + high[s[0]] * Pos0Size) == s[..2]
  {
    TableClasses();
    var v := low[s[1]] + high[s[0]] * Pos0Size;
    assert high[s[0]] != 0;
    assert v / Pos0Size == high[s[0]] && v % Pos0Size == low[s[1]];
    assert s[..2] == [s[0], s[1]];
  }

  /** A decodable string is exactly what the encoder makes of its values if
      and only if no code in it has the zero high digit 'a', which the decoder
      accepts and the encoder never writes. */
  lemma CanonicalIff(s: string)
    requires DecodeCodes(s).Success?
    ensures AllRepresentable(DecodeCodes(s).value)
    ensures EncodeArray(DecodeCodes(s).value) == s <==> 'a' !in s
  {
    StandardTables();
    ScanSucceedsIff(s, Pos0Index, Pos1Index);
    if 'a' !in s {
      ScanCanonical(s, Pos0Index, Pos1Index);
    }
  }

  /** The scan as the program runs it: a left-to-right loop that reads one
      character, and a second one after a high digit, and appends the value
      of each code to the output. */
  method ScanLoop(s: string, low: map<char, nat>, high: map<char, nat>) returns (r: Result<seq<nat>, Error>)
    ensures r == Scan(s, low, high)
  {
    var out: seq<nat> := [];
    var i := 0;
    assert s[i..] == s;
    PrependNothing(Scan(s, low, high));
    while i < |s|
      invariant 0 <= i <= |s|
      invariant Scan(s, low, high) == Prepend(out, Scan(s[i..], low, high))
    {
      var first := s[i];
      assert s[i..][0] == first;
      if first in high {
        if i + 1 == |s| {
          return Failure(UnexpectedEnd);
        }
        var second := s[i + 1];
        assert s[i..][1] == second;
        if second !in low {
          return Failure(UnexpectedChar(second));
        }
        var v := low[second] + high[first] * Pos0Size;
        assert s[i..][2..] == s[i + 2..];
        PrependCons(out, v, Scan(s[i + 2..], low, high));
        out := out + [v];
        i := i + 2;
      } else if first in low {
        assert s[i..][1..] == s[i + 1..];
        PrependCons(out, low[first], Scan(s[i + 1..], low, high));
        out := out + [low[first]];
        i := i + 1;
      } else {
        return Failure(UnexpectedChar(first));
      }
    }
    assert s[i..] == [] && out + [] == out;
    return Success(out);
  }

  /** The decoder as the program runs it: trim, then the scanning loop over
      the reverse maps of the alphabet tables. */
  method DecodeLoop(txt: string) returns (r: Result<seq<nat>, Error>)
    ensures r == Decode(txt)
  {
    r := ScanLoop(Trim(txt), Pos0Index, Pos1Index);
  }
}
