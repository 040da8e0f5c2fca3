/** The two alphabet tables of the code string and their reverse maps
    (serialization.js lines 10-53). */
module Alphabet {

  /** Largest value the list text may carry. */
  const MaxNumber: nat := 1000
  /** Number of symbols of the low-digit table. */
  const Pos0Size: nat := 36
  /** Number of symbols of the high-digit table. */
  const Pos1Size: nat := 28

  /** The characters whose code points run from `lo` to `hi` inclusive, in
      ascending order; empty when `lo` is above `hi`. */
  function RangeChars(lo: char, hi: char): (r: seq<char>)
    requires hi as int < 0xD800
    ensures lo <= hi ==> |r| == hi as int - lo as int + 1
    ensures hi < lo ==> r == []
    ensures forall i :: 0 <= i < |r| ==> r[i] as int == lo as int + i
    decreases hi as int - lo as int
  {
    if hi < lo then []
    else if lo == hi then [lo]
    else [lo] + RangeChars((lo as int + 1) as char, hi)
  }

  /** Ends of the character ranges the tables are built from. */
  const FirstUpper: char := 'A'
  const LastUpper: char := 'Z'
  const FirstDigit: char := '0'
  const LastDigit: char := '9'
  const FirstLower: char := 'a'
  const LastLower: char := 'z'

  /** Low-digit table: 'A'..'Z' then '0'..'9'. */
  const Pos0: seq<char> := RangeChars(FirstUpper, LastUpper) + RangeChars(FirstDigit, LastDigit)

  /** High-digit table: 'a'..'z' then '-' and '+'. */
  const Pos1: seq<char> := RangeChars(FirstLower, LastLower) + ['-', '+']

  /** No character occurs twice in `t`. */
  predicate Distinct(t: seq<char>) {
    forall i, j :: 0 <= i < j < |t| ==> t[i] != t[j]
  }

  /** `m` maps exactly the characters of `t`, each to the LAST index at which
      it occurs in `t`. */
  predicate IsReverseOf(t: seq<char>, m: map<char, nat>) {
    && (forall c :: c in m <==> c in t)
    && (forall c :: c in m ==> m[c] < |t| && t[m[c]] == c)
    && (forall c, j :: c in m && m[c] < j < |t| ==> t[j] != c)
  }

  /** The last index at which `c` occurs in `t`. */
  function LastIndexOf(t: seq<char>, c: char): (k: nat)
    requires c in t
    ensures k < |t| && t[k] == c
    ensures forall j :: k < j < |t| ==> t[j] != c
  {
    if t[|t| - 1] == c then |t| - 1
    else
      assert c in t[..|t| - 1] by {
        var i :| 0 <= i < |t| && t[i] == c;
        assert t[..|t| - 1][i] == c;
      }
      LastIndexOf(t[..|t| - 1], c)
  }

  /** Map from each character of `t` to its index, built as the original's
      in-order assignments build it: when a character repeats, the later
      index overwrites the earlier one. */
  function ReverseTable(t: seq<char>): (m: map<char, nat>)
    ensures IsReverseOf(t, m)
  {
    map c | c in t :: LastIndexOf(t, c)
  }

  /** A table without repeats has as many distinct characters as entries. */
  lemma {:induction false} DistinctCardinality(t: seq<char>)
    requires Distinct(t)
    ensures |set c | c in t| == |t|
  {
    if |t| > 0 {
      var init := t[..|t| - 1];
      assert Distinct(init);
      DistinctCardinality(init);
      assert (set c | c in t) == (set c | c in init) + {t[|t| - 1]} by {
        forall c | c in t
          ensures c in init || c == t[|t| - 1]
        {
          var i :| 0 <= i < |t| && t[i] == c;
          if i < |t| - 1 {
            assert init[i] == c;
          }
        }
        assert t == init + [t[|t| - 1]];
      }
      assert t[|t| - 1] !in init;
    }
  }

  /** The reverse map of a table without repeats has one entry per table
      entry. */
  lemma ReverseTableSize(t: seq<char>)
    requires Distinct(t)
    ensures |ReverseTable(t)| == |t|
  {
    var m := ReverseTable(t);
    assert m.Keys == set c | c in t;
    DistinctCardinality(t);
  }

  /** In a reverse map of a table without repeats, every position maps back to
      itself. */
  lemma ReverseInverse(t: seq<char>, m: map<char, nat>)
    requires Distinct(t) && IsReverseOf(t, m)
    ensures forall i :: 0 <= i < |t| ==> t[i] in m && m[t[i]] == i
  {
    forall i | 0 <= i < |t|
      ensures t[i] in m && m[t[i]] == i
    {
      assert t[i] in t;
    }
  }

  /** Reverse map of the low-digit table. */
  const Pos0Index: map<char, nat> := ReverseTable(Pos0)

  /** Reverse map of the high-digit table. */
  const Pos1Index: map<char, nat> := ReverseTable(Pos1)

  /** The characters of the low-digit table. */
  predicate IsPos0Char(c: char) {
    ('A' <= c <= 'Z') || ('0' <= c <= '9')
  }

  /** The characters of the high-digit table. */
  predicate IsPos1Char(c: char) {
    ('a' <= c <= 'z') || c == '-' || c == '+'
  }

  /** Each table is exactly the fixed symbol list of the code-string format. */
  lemma TablesFixed()
    ensures Pos0 == "ABCDEFGHIJKLMNOPQRSTUVWXYZ0123456789"
    ensures Pos1 == "abcdefghijklmnopqrstuvwxyz-+"
  {
    RangeFixed(FirstUpper, LastUpper, "ABCDEFGHIJKLMNOPQRSTUVWXYZ");
    RangeFixed(FirstDigit, LastDigit, "0123456789");
    RangeFixed(FirstLower, LastLower, "abcdefghijklmnopqrstuvwxyz");
  }

  /** A character range equals the string that lists it. */
  lemma RangeFixed(lo: char, hi: char, t: string)
    requires lo <= hi && hi as int < 0xD800
    requires |t| == hi as int - lo as int + 1
    requires forall i :: 0 <= i < |t| ==> t[i] as int == lo as int + i
    ensures RangeChars(lo, hi) == t
  {
    var r := RangeChars(lo, hi);
    assert forall i :: 0 <= i < |t| ==> r[i] == t[i];
  }


  /** Both tables have the sizes the format relies on, hold no repeated
      character, and are disjoint from each other. */
  lemma TablesDistinct()
    ensures |Pos0| == Pos0Size && |Pos1| == Pos1Size
    ensures Distinct(Pos0) && Distinct(Pos1)
    ensures forall i, j :: 0 <= i < |Pos0| && 0 <= j < |Pos1| ==> Pos0[i] != Pos1[j]
  {
    TablesFixed();
  }

  /** The code point of every table entry. */
  lemma TableEntries()
    ensures |Pos0| == Pos0Size && |Pos1| == Pos1Size
    ensures forall i :: 0 <= i < 26 ==> Pos0[i] as int == 'A' as int + i
    ensures forall i :: 26 <= i < Pos0Size ==> Pos0[i] as int == '0' as int + i - 26
    ensures forall i :: 0 <= i < 26 ==> Pos1[i] as int == 'a' as int + i
    ensures Pos1[26] == '-' && Pos1[27] == '+'
  {
    var upper, digits := RangeChars(FirstUpper, LastUpper), RangeChars(FirstDigit, LastDigit);
    assert forall i :: 26 <= i < Pos0Size ==> Pos0[i] == digits[i - 26];
  }

  /** The keys of each reverse map are exactly the characters of its table. */
  lemma IndexMembership()
    ensures forall c :: c in Pos0Index <==> IsPos0Char(c)
    ensures forall c :: c in Pos1Index <==> IsPos1Char(c)
  {
    Pos0Membership();
    Pos1Membership();
  }

  lemma Pos0Membership()
    ensures forall c :: c in Pos0Index <==> IsPos0Char(c)
  {
    TableEntries();
    forall c | IsPos0Char(c)
      ensures c in Pos0Index
    {
      var i := if 'A' <= c then c as int - 'A' as int else c as int - '0' as int + 26;
      assert Pos0[i] == c;
    }
    forall c | c in Pos0Index
      ensures IsPos0Char(c)
    {
      var i := Pos0Index[c];
      assert Pos0[i] == c;
    }
  }

  lemma Pos1Membership()
    ensures forall c :: c in Pos1Index <==> IsPos1Char(c)
  {
    TableEntries();
    forall c | IsPos1Char(c)
      ensures c in Pos1Index
    {
      var i := if c == '-' then 26 else if c == '+' then 27 else c as int - 'a' as int;
      assert Pos1[i] == c;
    }
    forall c | c in Pos1Index
      ensures IsPos1Char(c)
    {
      var i := Pos1Index[c];
      assert Pos1[i] == c;
    }
  }

  /** Each reverse map sends every table character back to its index, and
      every key to an index whose table entry is that key. */
  lemma IndexInverse()
    ensures forall i :: 0 <= i < Pos0Size ==> Pos0[i] in Pos0Index && Pos0Index[Pos0[i]] == i
    ensures forall c :: c in Pos0Index ==> Pos0Index[c] < Pos0Size && Pos0[Pos0Index[c]] == c
    ensures forall i :: 0 <= i < Pos1Size ==> Pos1[i] in Pos1Index && Pos1Index[Pos1[i]] == i
    ensures forall c :: c in Pos1Index ==> Pos1Index[c] < Pos1Size && Pos1[Pos1Index[c]] == c
  {
    TablesDistinct();
    ReverseInverse(Pos0, Pos0Index);
    ReverseInverse(Pos1, Pos1Index);
  }

  /** The start-up checks of the original program: table sizes, reverse-map
      sizes, and a capacity of the two-digit scheme of at least MaxNumber. */
  lemma EntryChecks()
    ensures |Pos0| == Pos0Size && |Pos1| == Pos1Size
    ensures |Pos0Index| == Pos0Size && |Pos1Index| == Pos1Size
    ensures Pos0Size * Pos1Size - 1 >= MaxNumber
  {
    TablesDistinct();
    ReverseTableSize(Pos0);
    ReverseTableSize(Pos1);
  }

  /** `m` sends every entry of `t` back to its position and every key to a
      position of `t` holding that key. */
  predicate IsIndexOf(t: seq<char>, m: map<char, nat>) {
    && (forall i :: 0 <= i < |t| ==> t[i] in m && m[t[i]] == i)
    && (forall c :: c in m ==> m[c] < |t| && t[m[c]] == c)
  }

  /** `low` and `high` behave as the reverse maps of the low- and high-digit
      tables: each inverts its table, and no character is a key of both. */
  predicate StandardIndexes(low: map<char, nat>, high: map<char, nat>) {
    && IsIndexOf(Pos0, low) && IsIndexOf(Pos1, high)
    && (forall c :: c in low ==> c !in high)
  }

  /** The keys of `low` and `high` are exactly the low- and high-digit
      character classes. */
  predicate ClassIndexes(low: map<char, nat>, high: map<char, nat>) {
    && (forall c :: c in low <==> IsPos0Char(c))
    && (forall c :: c in high <==> IsPos1Char(c))
  }

  /** The reverse maps the codec builds are standard. */
  lemma StandardTables()
    ensures StandardIndexes(Pos0Index, Pos1Index)
    ensures ClassIndexes(Pos0Index, Pos1Index)
  {
    IndexMembership();
    IndexInverse();
  }

  /** The sizes of the tables and the character class of their entries; the
      zero digits are 'A' and 'a', and 'a' occurs only at position 0. */
  lemma TableClasses()
    ensures |Pos0| == Pos0Size && |Pos1| == Pos1Size
    ensures forall i :: 0 <= i < |Pos0| ==> IsPos0Char(Pos0[i])
    ensures forall i :: 0 <= i < |Pos1| ==> IsPos1Char(Pos1[i])
    ensures Pos0[0] == 'A'
    ensures Pos1[0] == 'a' && forall i :: 0 < i < |Pos1| ==> Pos1[i] != 'a'
  {
    TablesFixed();
  }
}
