/** The string primitives the codec relies on: whitespace trimming, splitting
    on a single delimiter character, and joining with one. */
module Text {

  /** The characters removed by trimming: white space and line terminators
      as section 12.2 and 12.3 of ECMA-262 define them. */
  predicate IsWhitespace(c: char) {
    || c == '\t' || c == '\U{000B}' || c == '\U{000C}' || c == ' '
    || c == '\U{00A0}' || c == '\U{FEFF}' || c == '\U{1680}'
    || ('\U{2000}' <= c <= '\U{200A}')
    || c == '\U{202F}' || c == '\U{205F}' || c == '\U{3000}'
    || c == '\n' || c == '\r' || c == '\U{2028}' || c == '\U{2029}'
  }

  /** Every character of `t` is whitespace. */
  predicate AllWhitespace(t: string) {
    forall k :: 0 <= k < |t| ==> IsWhitespace(t[k])
  }

  /** `s` without its leading whitespace. */
  function TrimStart(s: string): string {
    if |s| > 0 && IsWhitespace(s[0]) then TrimStart(s[1..]) else s
  }

  /** `s` without its trailing whitespace. */
  function TrimEnd(s: string): string {
    if |s| > 0 && IsWhitespace(s[|s| - 1]) then TrimEnd(s[..|s| - 1]) else s
  }

  /** `s` without leading and trailing whitespace. */
  function Trim(s: string): string {
    TrimEnd(TrimStart(s))
  }

  /** TrimStart removes a prefix of whitespace and stops at the first other
      character. */
  lemma {:induction false} TrimStartSpec(s: string)
    ensures var r := TrimStart(s);
            && |r| <= |s| && r == s[|s| - |r|..]
            && AllWhitespace(s[..|s| - |r|])
            && (|r| == 0 || !IsWhitespace(r[0]))
    decreases |s|
  {
    if |s| > 0 && IsWhitespace(s[0]) {
      TrimStartSpec(s[1..]);
      var r := TrimStart(s[1..]);
      assert s[..|s| - |r|] == [s[0]] + s[1..][..|s| - 1 - |r|];
    }
  }

  /** TrimEnd removes a suffix of whitespace and stops at the last other
      character. */
  lemma {:induction false} TrimEndSpec(s: string)
    ensures var r := TrimEnd(s);
            && |r| <= |s| && r == s[..|r|]
            && AllWhitespace(s[|r|..])
            && (|r| == 0 || !IsWhitespace(r[|r| - 1]))
    decreases |s|
  {
    if |s| > 0 && IsWhitespace(s[|s| - 1]) {
      TrimEndSpec(s[..|s| - 1]);
      var r := TrimEnd(s[..|s| - 1]);
      assert s[|r|..] == s[..|s| - 1][|r|..] + [s[|s| - 1]];
    }
  }

  /** Trim keeps a contiguous middle part of `s`, cuts only whitespace around
      it, and leaves neither end of the result on a whitespace character. */
  lemma TrimSpec(s: string)
    ensures |TrimStart(s)| <= |s|
    ensures var i := |s| - |TrimStart(s)|;
            && i + |Trim(s)| <= |s| && Trim(s) == s[i..i + |Trim(s)|]
            && AllWhitespace(s[..i]) && AllWhitespace(s[i + |Trim(s)|..])
    ensures |Trim(s)| == 0 || (!IsWhitespace(Trim(s)[0]) && !IsWhitespace(Trim(s)[|Trim(s)| - 1]))
  {
    var a := TrimStart(s);
    var b := TrimEnd(a);
    TrimStartSpec(s);
    TrimEndSpec(a);
    var i := |s| - |a|;
    assert a == s[i..];
    assert b == a[..|b|];
    assert b == s[i..i + |b|];
    if |b| > 0 {
      assert b[0] == a[0];
    }
    assert s[i + |b|..] == a[|b|..];
  }

  /** A string with no whitespace at either end is its own trim. */
  lemma TrimNoop(s: string)
    requires |s| == 0 || (!IsWhitespace(s[0]) && !IsWhitespace(s[|s| - 1]))
    ensures Trim(s) == s
  {
  }

  /** Trimming twice is trimming once. */
  lemma TrimIdempotent(s: string)
    ensures Trim(Trim(s)) == Trim(s)
  {
    TrimSpec(s);
    TrimNoop(Trim(s));
  }

  /** The trim of `s` is empty exactly when `s` is all whitespace. */
  lemma TrimEmptyIff(s: string)
    ensures |Trim(s)| == 0 <==> AllWhitespace(s)
  {
    TrimSpec(s);
    var i := |s| - |TrimStart(s)|;
    if |Trim(s)| == 0 {
      assert s == s[..i] + s[i..];
      forall k | 0 <= k < |s|
        ensures IsWhitespace(s[k])
      {
        if k < i {
          assert s[k] == s[..i][k];
        } else {
          assert s[k] == s[i..][k - i];
        }
      }
    } else {
      assert Trim(s)[0] == s[i];
    }
  }

  /** The parts of `xs` with one `d` between neighbours; "" for no parts. */
  function Join(xs: seq<string>, d: char): (r: string)
    ensures |xs| == 1 ==> r == xs[0]
  {
    if |xs| == 0 then ""
    else if |xs| == 1 then xs[0]
    else xs[0] + [d] + Join(xs[1..], d)
  }

  /** Joining two non-empty runs of parts is joining each and putting one
      `d` between them. */
  lemma {:induction false} JoinAppend(xs: seq<string>, ys: seq<string>, d: char)
    requires |xs| > 0 && |ys| > 0
    ensures Join(xs + ys, d) == Join(xs, d) + [d] + Join(ys, d)
    decreases |xs|
  {
    var zs := xs + ys;
    assert zs[0] == xs[0];
    if |xs| == 1 {
      assert zs[1..] == ys;
    } else {
      assert zs[1..] == xs[1..] + ys;
      JoinAppend(xs[1..], ys, d);
      var rest := Join(xs[1..], d);
      assert Join(zs, d) == xs[0] + [d] + (rest + [d] + Join(ys, d));
      assert xs[0] + [d] + (rest + [d] + Join(ys, d)) == (xs[0] + [d] + rest) + [d] + Join(ys, d);
    }
  }

  /** The pieces of `s` between occurrences of `d`: at least one piece, none
      containing `d`, one more piece than `d` occurs in `s`, and joining them
      with `d` rebuilds `s`. */
  function Split(s: string, d: char): (r: seq<string>)
    ensures |r| >= 1
    ensures forall k :: 0 <= k < |r| ==> d !in r[k]
    ensures Join(r, d) == s
  {
    if |s| == 0 then [""]
    else
      var rest := Split(s[1..], d);
      if s[0] == d then
        assert s == [d] + s[1..];
        [""] + rest
      else
        var r := [[s[0]] + rest[0]] + rest[1..];
        assert r[1..] == rest[1..];
        assert s == [s[0]] + s[1..];
        r
  }

  /** Splitting the join of pieces that do not contain `d` gives the pieces
      back. */
  lemma {:induction false} SplitJoin(xs: seq<string>, d: char)
    requires |xs| >= 1
    requires forall k :: 0 <= k < |xs| ==> d !in xs[k]
    ensures Split(Join(xs, d), d) == xs
    decreases |xs|, |xs[0]|
  {
    var s := Join(xs, d);
    if |xs[0]| == 0 {
      if |xs| == 1 {
      } else {
        assert s == [d] + Join(xs[1..], d);
        assert s[1..] == Join(xs[1..], d);
        SplitJoin(xs[1..], d);
      }
    } else {
      var ys := [xs[0][1..]] + xs[1..];
      assert d !in ys[0];
      assert forall k :: 1 <= k < |ys| ==> ys[k] == xs[k];
      assert s == [xs[0][0]] + Join(ys, d) by {
        if |xs| == 1 {
          assert xs[0] == [xs[0][0]] + xs[0][1..];
        } else {
          assert ys[1..] == xs[1..];
          assert xs[0] == [xs[0][0]] + xs[0][1..];
        }
      }
      assert s[1..] == Join(ys, d);
      SplitJoin(ys, d);
      assert xs[0][0] != d;
      assert [xs[0][0]] + ys[0] == xs[0];
      assert ([[xs[0][0]] + ys[0]] + ys[1..])[1..] == xs[1..];
    }
  }
}
