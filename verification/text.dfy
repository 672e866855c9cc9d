/**
 The string operations the record and collection rely on: ASCII lower-casing,
 substring search (Python's `needle in hay`), decimal rendering of integers
 (what an f-string does with an `int`), formatting of a line with integer
 holes and the scanner that reads such a line back, and `"\n".join` with its
 inverse `split("\n")`.
 */
module Text {
  import opened Wrappers

  // ---------------------------------------------------------------------------
  // Case folding and substring search

  /** ASCII lower-casing of one character; every other character is unchanged. */
  function LowerChar(c: char): char {
    if 'A' <= c <= 'Z' then (c as int - 'A' as int + 'a' as int) as char else c
  }

  function Lower(s: string): (r: string)
    ensures |r| == |s|
    ensures forall i :: 0 <= i < |s| ==> r[i] == LowerChar(s[i])
  {
    seq(|s|, i requires 0 <= i < |s| => LowerChar(s[i]))
  }

  ghost predicate OccursAt(needle: string, hay: string, i: int) {
    0 <= i && i + |needle| <= |hay| && hay[i..i + |needle|] == needle
  }

  /** Python's `needle in hay` on strings; the empty string occurs in every string. */
  function Contains(hay: string, needle: string): (b: bool)
    ensures b <==> exists i :: OccursAt(needle, hay, i)
    decreases |hay|
  {
    if needle <= hay then
      assert OccursAt(needle, hay, 0);
      true
    else if |hay| == 0 then
      false
    else
      var b := Contains(hay[1..], needle);
      ShiftOccurrence(needle, hay);
      b
  }

  lemma ShiftOccurrence(needle: string, hay: string)
    requires |hay| > 0 && !(needle <= hay)
    ensures (exists i :: OccursAt(needle, hay, i)) <==> (exists i :: OccursAt(needle, hay[1..], i))
  {
    if i :| OccursAt(needle, hay, i) {
      if i == 0 {
        assert false;
      }
      assert hay[1..][i - 1..i - 1 + |needle|] == hay[i..i + |needle|];
      assert OccursAt(needle, hay[1..], i - 1);
    }
    if i :| OccursAt(needle, hay[1..], i) {
      assert hay[1..][i..i + |needle|] == hay[i + 1..i + 1 + |needle|];
      assert OccursAt(needle, hay, i + 1);
    }
  }

  // ---------------------------------------------------------------------------
  // Decimal integers

  predicate IsDigit(c: char) {
    '0' <= c <= '9'
  }

  predicate AllDigits(s: string) {
    forall i :: 0 <= i < |s| ==> IsDigit(s[i])
  }

  function DigitValue(c: char): nat
    requires IsDigit(c)
  {
    c as int - '0' as int
  }

  function DigitChar(d: nat): (c: char)
    requires d < 10
    ensures IsDigit(c) && DigitValue(c) == d
  {
    (d + '0' as int) as char
  }

  /** The decimal digits of `n`, most significant first, without leading zeros. */
  function NatToString(n: nat): (s: string)
    ensures |s| > 0 && AllDigits(s)
    ensures s[0] == '0' <==> n == 0
    decreases n
  {
    if n < 10 then [DigitChar(n)]
    else NatToString(n / 10) + [DigitChar(n % 10)]
  }

  /** `str(n)` for a Python `int`: a minus sign before the digits of a negative number. */
  function IntToString(n: int): (s: string)
    ensures |s| > 0
    ensures '\n' !in s
  {
    if n < 0 then "-" + NatToString(-n) else NatToString(n)
  }

  /** The value of a string of decimal digits. */
  function DigitsValue(s: string): nat
    requires AllDigits(s)
    decreases |s|
  {
    if |s| == 0 then 0 else DigitsValue(s[..|s| - 1]) * 10 + DigitValue(s[|s| - 1])
  }

  lemma {:induction false} NatToStringValue(n: nat)
    ensures DigitsValue(NatToString(n)) == n
    decreases n
  {
    if n >= 10 {
      var s := NatToString(n);
      assert s[..|s| - 1] == NatToString(n / 10);
      NatToStringValue(n / 10);
    }
  }

  /** Splits `s` into its longest all-digit prefix and the remainder. */
  function SpanDigits(s: string): (r: (string, string))
    ensures r.0 + r.1 == s && AllDigits(r.0)
    ensures |r.1| > 0 ==> !IsDigit(r.1[0])
    decreases |s|
  {
    if |s| > 0 && IsDigit(s[0]) then
      var t := SpanDigits(s[1..]);
      assert s == [s[0]] + s[1..];
      ([s[0]] + t.0, t.1)
    else
      ([], s)
  }

  /** The split of `SpanDigits` is the only split into digits and a non-digit start. */
  lemma {:induction false} SpanDigitsOf(ds: string, rest: string)
    requires AllDigits(ds)
    requires |rest| > 0 ==> !IsDigit(rest[0])
    ensures SpanDigits(ds + rest) == (ds, rest)
    decreases |ds|
  {
    if |ds| == 0 {
      assert ds + rest == rest;
    } else {
      assert (ds + rest)[0] == ds[0];
      assert (ds + rest)[1..] == ds[1..] + rest;
      SpanDigitsOf(ds[1..], rest);
      assert ds == [ds[0]] + ds[1..];
    }
  }

  /** Reads an optionally negative decimal integer at the start of `s`. */
  function ReadInt(s: string): Option<(int, string)> {
    if |s| > 0 && s[0] == '-' then
      var (ds, rest) := SpanDigits(s[1..]);
      var v := -(DigitsValue(ds) as int);
      if |ds| == 0 then None else Some((v, rest))
    else
      var (ds, rest) := SpanDigits(s);
      if |ds| == 0 then None else Some((DigitsValue(ds), rest))
  }

  /** Reading back a rendered integer recovers it and stops where the digits end. */
  lemma ReadIntRoundTrip(n: int, rest: string)
    requires |rest| > 0 ==> !IsDigit(rest[0])
    ensures ReadInt(IntToString(n) + rest) == Some((n, rest))
  {
    if n < 0 {
      ReadNegative(-n, rest);
    } else {
      ReadNonNegative(n, rest);
    }
  }

  lemma ReadNonNegative(n: nat, rest: string)
    requires |rest| > 0 ==> !IsDigit(rest[0])
    ensures ReadInt(NatToString(n) + rest) == Some((n, rest))
  {
    var s := NatToString(n) + rest;
    assert s[0] == NatToString(n)[0];
    SpanDigitsOf(NatToString(n), rest);
    NatToStringValue(n);
  }

  lemma ReadNegative(m: nat, rest: string)
    requires |rest| > 0 ==> !IsDigit(rest[0])
    ensures ReadInt("-" + NatToString(m) + rest) == Some((-(m as int), rest))
  {
    var s := "-" + NatToString(m) + rest;
    assert s[1..] == NatToString(m) + rest;
    SpanDigitsOf(NatToString(m), rest);
    NatToStringValue(m);
  }

  // ---------------------------------------------------------------------------
  // Lines with integer holes

  /** `s` with the prefix `p` removed, when `s` starts with `p`. */
  function StripPrefix(p: string, s: string): (r: Option<string>)
    ensures r.Some? <==> p <= s
    ensures r.Some? ==> s == p + r.value
  {
    if p <= s then Some(s[|p|..]) else None
  }

  /**
   The f-string `lits[0]{vals[0]}lits[1]{vals[1]}...lits[n]` whose holes are
   all integers.
   */
  function FormatInts(lits: seq<string>, vals: seq<int>): (s: string)
    requires |lits| == |vals| + 1
    ensures lits[0] <= s
    ensures (forall i :: 0 <= i < |lits| ==> '\n' !in lits[i]) ==> '\n' !in s
    decreases |vals|
  {
    if |vals| == 0 then lits[0]
    else
      var tail := FormatInts(lits[1..], vals[1..]);
      assert lits[0] + (IntToString(vals[0]) + tail) == lits[0] + IntToString(vals[0]) + tail;
      lits[0] + IntToString(vals[0]) + tail
  }

  /** Literal pieces that can follow an integer hole without being read as part of it. */
  ghost predicate Separated(lits: seq<string>) {
    forall i :: 1 <= i < |lits| ==> |lits[i]| > 0 && !IsDigit(lits[i][0])
  }

  /** Reads the integers back out of a line shaped by `lits`. */
  function ScanInts(lits: seq<string>, s: string): Option<seq<int>>
    requires |lits| > 0
    decreases |lits|
  {
    var afterLit :- StripPrefix(lits[0], s);
    if |lits| == 1 then
      if afterLit == [] then Some([]) else None
    else
      var (v, rest) :- ReadInt(afterLit);
      var vs :- ScanInts(lits[1..], rest);
      Some([v] + vs)
  }

  lemma {:induction false} ScanFormatRoundTrip(lits: seq<string>, vals: seq<int>)
    requires |lits| == |vals| + 1 && Separated(lits)
    ensures ScanInts(lits, FormatInts(lits, vals)) == Some(vals)
    decreases |vals|
  {
    var s := FormatInts(lits, vals);
    if |vals| == 0 {
      assert s[|lits[0]|..] == [];
    } else {
      var tail := FormatInts(lits[1..], vals[1..]);
      SeparatedTail(lits);
      ScanFormatRoundTrip(lits[1..], vals[1..]);
      ScanStep(lits, vals[0], tail);
      assert vals == [vals[0]] + vals[1..];
    }
  }

  lemma SeparatedTail(lits: seq<string>)
    requires |lits| > 0 && Separated(lits)
    ensures Separated(lits[1..])
  {
    forall i | 1 <= i < |lits[1..]|
      ensures |lits[1..][i]| > 0 && !IsDigit(lits[1..][i][0])
    {
      assert lits[1..][i] == lits[i + 1];
    }
  }

  /** One hole: the literal, then the integer, then whatever the rest of the pieces read. */
  lemma ScanStep(lits: seq<string>, v: int, tail: string)
    requires |lits| > 1 && Separated(lits) && lits[1] <= tail
    ensures ScanInts(lits, lits[0] + IntToString(v) + tail)
         == (match ScanInts(lits[1..], tail) case Some(vs) => Some([v] + vs) case None => None)
  {
    var s := lits[0] + IntToString(v) + tail;
    assert s == lits[0] + (IntToString(v) + tail);
    assert StripPrefix(lits[0], s) == Some(IntToString(v) + tail);
    assert tail[0] == lits[1][0];
    ReadIntRoundTrip(v, tail);
  }

  // ---------------------------------------------------------------------------
  // Lines

  /** Python's `"\n".join(lines)`. */
  function JoinLines(lines: seq<string>): string
    decreases |lines|
  {
    if |lines| == 0 then ""
    else if |lines| == 1 then lines[0]
    else lines[0] + "\n" + JoinLines(lines[1..])
  }

  /** Python's `s.split("\n")`: always at least one piece. */
  function SplitLines(s: string): (lines: seq<string>)
    ensures |lines| > 0
    decreases |s|
  {
    if |s| == 0 then [""]
    else
      var rest := SplitLines(s[1..]);
      if s[0] == '\n' then [""] + rest
      else [[s[0]] + rest[0]] + rest[1..]
  }

  lemma {:induction false} SplitLinesPrefix(a: string, t: string)
    requires '\n' !in a
    ensures SplitLines(a + t) == [a + SplitLines(t)[0]] + SplitLines(t)[1..]
    decreases |a|
  {
    if |a| > 0 {
      var lines := SplitLines(t);
      assert a[0] in a;
      assert (a + t)[0] == a[0] != '\n';
      assert (a + t)[1..] == a[1..] + t;
      SplitLinesPrefix(a[1..], t);
      var rest := SplitLines(a[1..] + t);
      assert rest[0] == a[1..] + lines[0];
      assert rest[1..] == lines[1..];
      assert [a[0]] + (a[1..] + lines[0]) == a + lines[0];
    } else {
      var lines := SplitLines(t);
      assert a + t == t;
      assert a + lines[0] == lines[0];
      assert lines == [lines[0]] + lines[1..];
    }
  }

  /** Splitting a join of newline-free lines gives the lines back. */
  lemma {:induction false} SplitJoinRoundTrip(lines: seq<string>)
    requires |lines| > 0
    requires forall i :: 0 <= i < |lines| ==> '\n' !in lines[i]
    ensures SplitLines(JoinLines(lines)) == lines
    decreases |lines|
  {
    if |lines| == 1 {
      SplitLinesPrefix(lines[0], "");
      assert lines[0] + "" == lines[0];
      assert SplitLines("") == [""];
      assert lines == [lines[0]];
    } else {
      var rest := JoinLines(lines[1..]);
      forall i | 0 <= i < |lines[1..]|
        ensures '\n' !in lines[1..][i]
      {
        assert lines[1..][i] == lines[i + 1];
      }
      SplitJoinRoundTrip(lines[1..]);
      assert ("\n" + rest)[0] == '\n';
      assert ("\n" + rest)[1..] == rest;
      var after := SplitLines("\n" + rest);
      assert after == [""] + lines[1..];
      assert after[0] == "" && after[1..] == lines[1..];
      assert JoinLines(lines) == lines[0] + ("\n" + rest);
      SplitLinesPrefix(lines[0], "\n" + rest);
      assert lines[0] + "" == lines[0];
      assert lines == [lines[0]] + lines[1..];
    }
  }
}
