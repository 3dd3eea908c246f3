/**
 * The Ruby String operations the recipe search is built from: downcase and
 * blank? (on ASCII), strip, include?, split(",") and to_i; and Array#join(","),
 * used to state that parsing undoes a join.
 */
module Text {

  // ------------------------------------------------------------------
  // Characters
  // ------------------------------------------------------------------

  /** String#downcase on one character (ASCII letters only). */
  function LowerChar(c: char): char {
    if 'A' <= c <= 'Z' then (c as int + 32) as char else c
  }

  /** What ActiveSupport's blank? treats as blank: ASCII [[:space:]]. */
  predicate IsSpace(c: char) {
    c == ' ' || '\t' <= c <= '\r'
  }

  /** What String#strip removes at either end: whitespace and NUL. */
  predicate IsStripChar(c: char) {
    c == '\0' || IsSpace(c)
  }

  predicate IsDigit(c: char) {
    '0' <= c <= '9'
  }

  lemma LowerCharKeepsKind(c: char)
    ensures IsSpace(LowerChar(c)) <==> IsSpace(c)
    ensures IsStripChar(LowerChar(c)) <==> IsStripChar(c)
    ensures LowerChar(c) == ',' <==> c == ','
    ensures !('A' <= LowerChar(c) <= 'Z')
    ensures LowerChar(LowerChar(c)) == LowerChar(c)
  {
  }

  // ------------------------------------------------------------------
  // downcase
  // ------------------------------------------------------------------

  /** String#downcase. */
  function Lower(s: string): string {
    seq(|s|, i requires 0 <= i < |s| => LowerChar(s[i]))
  }

  /** Array#map(&:downcase). */
  function LowerAll(ss: seq<string>): seq<string> {
    seq(|ss|, k requires 0 <= k < |ss| => Lower(ss[k]))
  }

  predicate IsLowerCase(s: string) {
    forall i :: 0 <= i < |s| ==> !('A' <= s[i] <= 'Z')
  }

  /** downcase leaves exactly the strings without upper-case letters unchanged. */
  lemma LowerFixedPoint(s: string)
    ensures IsLowerCase(Lower(s))
    ensures Lower(s) == s <==> IsLowerCase(s)
  {
    if IsLowerCase(s) {
      forall i | 0 <= i < |s| ensures Lower(s)[i] == s[i] {
        assert !('A' <= s[i] <= 'Z');
      }
    }
    forall i | 0 <= i < |s| ensures !('A' <= Lower(s)[i] <= 'Z') {
      LowerCharKeepsKind(s[i]);
    }
  }

  lemma LowerIdempotent(s: string)
    ensures Lower(Lower(s)) == Lower(s)
  {
    LowerFixedPoint(s);
    LowerFixedPoint(Lower(s));
  }

  lemma LowerAllIdempotent(ss: seq<string>)
    ensures LowerAll(LowerAll(ss)) == LowerAll(ss)
  {
    forall k | 0 <= k < |ss| ensures LowerAll(LowerAll(ss))[k] == LowerAll(ss)[k] {
      LowerIdempotent(ss[k]);
    }
  }

  lemma LowerSplits(s: string, t: string)
    ensures Lower(s + t) == Lower(s) + Lower(t)
  {
  }

  /** downcase does not make a comma. */
  lemma LowerKeepsComma(s: string)
    requires NoComma(s)
    ensures NoComma(Lower(s))
  {
    forall i | 0 <= i < |s| ensures Lower(s)[i] != ',' {
      LowerCharKeepsKind(s[i]);
    }
  }

  /** downcase and slicing commute. */
  lemma LowerSlice(s: string, i: nat, j: nat)
    requires i <= j <= |s|
    ensures Lower(s)[i..j] == Lower(s[i..j])
  {
  }

  // ------------------------------------------------------------------
  // blank?
  // ------------------------------------------------------------------

  /** Object#blank? on a string: empty or whitespace only. */
  predicate Blank(s: string) {
    forall i :: 0 <= i < |s| ==> IsSpace(s[i])
  }

  lemma BlankLower(s: string)
    ensures Blank(Lower(s)) <==> Blank(s)
  {
    forall i | 0 <= i < |s| ensures IsSpace(Lower(s)[i]) <==> IsSpace(s[i]) {
      LowerCharKeepsKind(s[i]);
    }
  }

  // ------------------------------------------------------------------
  // strip
  // ------------------------------------------------------------------

  /** The first index at or after i whose character strip keeps (|s| if there is none). */
  function FirstKept(s: string, i: nat): (j: nat)
    requires i <= |s|
    ensures i <= j <= |s|
    ensures forall k :: i <= k < j ==> IsStripChar(s[k])
    ensures j == |s| || !IsStripChar(s[j])
    decreases |s| - i
  {
    if i < |s| && IsStripChar(s[i]) then FirstKept(s, i + 1) else i
  }

  /** The end of the kept part of s[lo..j]: j without the whitespace before it, but not below lo. */
  function LastKept(s: string, lo: nat, j: nat): (e: nat)
    requires lo <= j <= |s|
    ensures lo <= e <= j
    ensures forall k :: e <= k < j ==> IsStripChar(s[k])
    ensures e == lo || !IsStripChar(s[e - 1])
  {
    if j > lo && IsStripChar(s[j - 1]) then LastKept(s, lo, j - 1) else j
  }

  /** Where the strip of s starts in s: the length of the whitespace prefix. */
  function StripStart(s: string): nat
    ensures StripStart(s) <= |s|
  {
    FirstKept(s, 0)
  }

  /** Where the strip of s ends in s. */
  function StripEnd(s: string): (e: nat)
    ensures StripStart(s) <= e <= |s|
  {
    LastKept(s, StripStart(s), |s|)
  }

  /** The two ends of a stripped string are not whitespace. */
  predicate IsStripped(s: string) {
    s == [] || (!IsStripChar(s[0]) && !IsStripChar(s[|s| - 1]))
  }

  /** String#strip: s without the whitespace at its two ends. */
  function Strip(s: string): (r: string)
    ensures IsStripped(r)
    ensures |r| <= |s|
  {
    s[StripStart(s)..StripEnd(s)]
  }

  /**
   * Strip removes whitespace at the two ends and nothing else: its result is
   * the slice of the input from StripStart(s) to StripEnd(s), and everything
   * outside the slice is whitespace.
   */
  lemma StripKeepsMiddle(s: string)
    ensures StripEnd(s) == StripStart(s) + |Strip(s)|
    ensures Strip(s) == s[StripStart(s)..StripEnd(s)]
    ensures forall k :: 0 <= k < StripStart(s) ==> IsStripChar(s[k])
    ensures forall k :: StripEnd(s) <= k < |s| ==> IsStripChar(s[k])
  {
  }

  /** strip only removes characters: it does not make a comma. */
  lemma StripNoComma(s: string)
    requires NoComma(s)
    ensures NoComma(Strip(s))
  {
    forall i | 0 <= i < |Strip(s)| ensures Strip(s)[i] != ',' {
      assert Strip(s)[i] == s[StripStart(s) + i];
    }
  }

  /** A string whose ends are not whitespace is its own strip. */
  lemma StripStripped(s: string)
    requires IsStripped(s)
    ensures Strip(s) == s
  {
    assert StripStart(s) == 0;
    assert StripEnd(s) == |s|;
  }

  lemma {:induction false} FirstKeptLower(s: string, i: nat)
    requires i <= |s|
    ensures FirstKept(Lower(s), i) == FirstKept(s, i)
    decreases |s| - i
  {
    if i < |s| {
      LowerCharKeepsKind(s[i]);
      FirstKeptLower(s, i + 1);
    }
  }

  lemma {:induction false} LastKeptLower(s: string, lo: nat, j: nat)
    requires lo <= j <= |s|
    ensures LastKept(Lower(s), lo, j) == LastKept(s, lo, j)
  {
    if j > lo {
      LowerCharKeepsKind(s[j - 1]);
      assert Lower(s)[j - 1] == LowerChar(s[j - 1]);
      LastKeptLower(s, lo, j - 1);
    }
  }

  /** Stripping and lower-casing commute. */
  lemma StripLower(s: string)
    ensures Strip(Lower(s)) == Lower(Strip(s))
  {
    FirstKeptLower(s, 0);
    LastKeptLower(s, StripStart(s), |s|);
    LowerSlice(s, StripStart(s), StripEnd(s));
  }

  /** A blank string strips to a blank string. */
  lemma BlankStrip(s: string)
    requires Blank(s)
    ensures Blank(Strip(s))
  {
    StripKeepsMiddle(s);
  }

  /** A stripped string is blank exactly when it is empty. */
  lemma BlankStripped(s: string)
    requires IsStripped(s)
    ensures Blank(s) <==> s == []
  {
    if s != [] {
      assert !IsSpace(s[0]);
    }
  }

  // ------------------------------------------------------------------
  // include?
  // ------------------------------------------------------------------

  predicate StartsWith(s: string, prefix: string) {
    |prefix| <= |s| && s[..|prefix|] == prefix
  }

  /** String#include?: needle occurs in hay. */
  predicate Contains(hay: string, needle: string)
    decreases |hay|
  {
    StartsWith(hay, needle) || (|hay| > 0 && Contains(hay[1..], needle))
  }

  /** needle is the slice of hay that starts at position i. */
  predicate OccursAt(hay: string, needle: string, i: int) {
    0 <= i <= |hay| - |needle| && hay[i..i + |needle|] == needle
  }

  /** Contains agrees with "needle is the slice of hay at some position". */
  lemma {:induction false} ContainsAt(hay: string, needle: string)
    ensures Contains(hay, needle) <==> exists i :: OccursAt(hay, needle, i)
    decreases |hay|
  {
    if StartsWith(hay, needle) {
      assert OccursAt(hay, needle, 0);
    }
    if |hay| > 0 {
      ContainsAt(hay[1..], needle);
      if Contains(hay[1..], needle) {
        var i :| OccursAt(hay[1..], needle, i);
        assert hay[1..][i..i + |needle|] == hay[i + 1..i + 1 + |needle|];
        assert OccursAt(hay, needle, i + 1);
      }
      if exists i :: OccursAt(hay, needle, i) {
        var i :| OccursAt(hay, needle, i);
        if i > 0 {
          assert hay[1..][i - 1..i - 1 + |needle|] == hay[i..i + |needle|];
          assert OccursAt(hay[1..], needle, i - 1);
        }
      }
    } else if exists i :: OccursAt(hay, needle, i) {
      var i :| OccursAt(hay, needle, i);
      assert i == 0 && |needle| == 0;
    }
  }

  /** Every string contains the empty string. */
  lemma ContainsEmpty(hay: string)
    ensures Contains(hay, "")
  {
  }

  // ------------------------------------------------------------------
  // split(",") and join(",")
  // ------------------------------------------------------------------

  /** s holds no comma. */
  predicate NoComma(s: string) {
    forall i :: 0 <= i < |s| ==> s[i] != ','
  }

  /** Every comma-separated field of s, empty ones included, in order. */
  function SplitFields(s: string): (fields: seq<string>)
    ensures |fields| >= 1
    ensures forall k :: 0 <= k < |fields| ==> NoComma(fields[k])
    decreases |s|
  {
    if |s| == 0 then [""]
    else
      var rest := SplitFields(s[1..]);
      if s[0] == ',' then [""] + rest
      else [[s[0]] + rest[0]] + rest[1..]
  }

  /** Drops the empty strings at the end of a list, as String#split does. */
  function DropTrailingEmpty(p: seq<string>): (r: seq<string>)
    ensures |r| <= |p| && r == p[..|r|]
    ensures r == [] || r[|r| - 1] != ""
    ensures forall k :: |r| <= k < |p| ==> p[k] == ""
  {
    if |p| > 0 && p[|p| - 1] == "" then DropTrailingEmpty(p[..|p| - 1]) else p
  }

  /** String#split(","): the fields of s, without the empty ones at its end. */
  function Split(s: string): (fields: seq<string>)
    ensures forall k :: 0 <= k < |fields| ==> NoComma(fields[k])
    ensures fields == [] || fields[|fields| - 1] != ""
  {
    DropTrailingEmpty(SplitFields(s))
  }

  /** Array#join(","). */
  function Join(parts: seq<string>): string {
    if |parts| == 0 then ""
    else if |parts| == 1 then parts[0]
    else parts[0] + "," + Join(parts[1..])
  }

  /** A join starts with the first part. */
  lemma JoinHead(parts: seq<string>)
    requires |parts| >= 1
    ensures Join(parts) == parts[0] + Join(parts)[|parts[0]|..]
  {
    if |parts| > 1 {
      assert Join(parts) == parts[0] + ("," + Join(parts[1..]));
    }
  }

  /** Joining the fields of s with commas gives s back. */
  lemma {:induction false} JoinSplitFields(s: string)
    ensures Join(SplitFields(s)) == s
    decreases |s|
  {
    if |s| > 0 {
      var rest := SplitFields(s[1..]);
      JoinSplitFields(s[1..]);
      if s[0] == ',' {
        assert SplitFields(s) == [""] + rest;
        assert s == "," + s[1..];
      } else if |rest| == 1 {
        assert SplitFields(s) == [[s[0]] + rest[0]];
        assert s == [s[0]] + s[1..];
      } else {
        var fields := SplitFields(s);
        assert fields[1..] == rest[1..];
        assert Join(rest) == rest[0] + "," + Join(rest[1..]);
        assert s == [s[0]] + s[1..];
      }
    }
  }

  /** A comma-free prefix glues onto the first field. */
  lemma {:induction false} SplitFieldsAfterPlainPrefix(a: string, t: string)
    requires NoComma(a)
    ensures SplitFields(a + t) == [a + SplitFields(t)[0]] + SplitFields(t)[1..]
    decreases |a|
  {
    if |a| > 0 {
      assert (a + t)[1..] == a[1..] + t;
      SplitFieldsAfterPlainPrefix(a[1..], t);
      assert [a[0]] + (a[1..] + SplitFields(t)[0]) == a + SplitFields(t)[0];
    } else {
      var rest := SplitFields(t);
      assert a + t == t;
      assert a + rest[0] == rest[0];
      assert rest == [rest[0]] + rest[1..];
    }
  }

  /** Splitting comma-free parts joined by commas gives the parts back. */
  lemma {:induction false} SplitFieldsJoin(parts: seq<string>)
    requires |parts| >= 1
    requires forall k :: 0 <= k < |parts| ==> NoComma(parts[k])
    ensures SplitFields(Join(parts)) == parts
    decreases |parts|
  {
    if |parts| == 1 {
      var a := parts[0];
      SplitFieldsAfterPlainPrefix(a, "");
      assert a + "" == a;
      assert SplitFields("") == [""];
      assert SplitFields(a) == [a + ""] + [""][1..];
      assert Join(parts) == a;
      assert parts == [a];
    } else {
      SplitFieldsJoin(parts[1..]);
      var t := "," + Join(parts[1..]);
      assert Join(parts) == parts[0] + t;
      SplitFieldsAfterPlainPrefix(parts[0], t);
      assert t[1..] == Join(parts[1..]);
      assert SplitFields(t) == [""] + parts[1..];
      assert parts[0] + "" == parts[0];
      assert parts == [parts[0]] + parts[1..];
    }
  }

  /** split(",") undoes join(",") when no part holds a comma and the last part is not empty. */
  lemma SplitJoin(parts: seq<string>)
    requires forall k :: 0 <= k < |parts| ==> NoComma(parts[k])
    requires parts == [] || parts[|parts| - 1] != ""
    ensures Split(Join(parts)) == parts
  {
    if parts != [] {
      SplitFieldsJoin(parts);
    }
  }

  /** One step of SplitFields: a comma opens a new field, any other character joins the first field. */
  lemma SplitFieldsCons(c: char, t: string)
    ensures SplitFields([c] + t) ==
            if c == ',' then [""] + SplitFields(t)
            else [[c] + SplitFields(t)[0]] + SplitFields(t)[1..]
  {
    assert ([c] + t)[1..] == t;
  }

  lemma {:induction false} SplitFieldsLower(s: string)
    ensures SplitFields(Lower(s)) == LowerAll(SplitFields(s))
    decreases |s|
  {
    if |s| > 0 {
      var c, t := s[0], s[1..];
      assert s == [c] + t;
      assert Lower(s) == [LowerChar(c)] + Lower(t) by {
        LowerSplits([c], t);
      }
      SplitFieldsLower(t);
      SplitFieldsLowerStep(c, t);
    }
  }

  /** The step of SplitFieldsLower: lower-casing one more character in front. */
  lemma SplitFieldsLowerStep(c: char, t: string)
    requires SplitFields(Lower(t)) == LowerAll(SplitFields(t))
    ensures SplitFields([LowerChar(c)] + Lower(t)) == LowerAll(SplitFields([c] + t))
  {
    SplitFieldsCons(c, t);
    SplitFieldsCons(LowerChar(c), Lower(t));
    LowerCharKeepsKind(c);
    if c == ',' {
      LowerAllCons("", SplitFields(t));
    } else {
      SplitFieldsLowerJoin(c, SplitFields(t));
    }
  }

  lemma LowerAllCons(h: string, rest: seq<string>)
    ensures LowerAll([h] + rest) == [Lower(h)] + LowerAll(rest)
  {
  }

  /** Lower-casing fields after a non-comma character joined the first one. */
  lemma SplitFieldsLowerJoin(c: char, rest: seq<string>)
    requires |rest| >= 1
    ensures LowerAll([[c] + rest[0]] + rest[1..]) == [[LowerChar(c)] + LowerAll(rest)[0]] + LowerAll(rest)[1..]
  {
    LowerAllCons([c] + rest[0], rest[1..]);
    LowerSplits([c], rest[0]);
    assert Lower([c]) == [LowerChar(c)];
    assert LowerAll(rest)[0] == Lower(rest[0]);
    assert LowerAll(rest[1..]) == LowerAll(rest)[1..];
  }

  lemma {:induction false} DropTrailingEmptyLower(p: seq<string>)
    ensures DropTrailingEmpty(LowerAll(p)) == LowerAll(DropTrailingEmpty(p))
    decreases |p|
  {
    if |p| > 0 {
      assert |Lower(p[|p| - 1])| == |p[|p| - 1]|;
      assert LowerAll(p)[..|p| - 1] == LowerAll(p[..|p| - 1]);
      DropTrailingEmptyLower(p[..|p| - 1]);
    }
  }

  /** split(",") and downcase commute: a comma is not a letter. */
  lemma SplitLower(s: string)
    ensures Split(Lower(s)) == LowerAll(Split(s))
  {
    SplitFieldsLower(s);
    DropTrailingEmptyLower(SplitFields(s));
  }

  // ------------------------------------------------------------------
  // to_i
  // ------------------------------------------------------------------

  /** Drops leading whitespace, as String#to_i does before reading a number. */
  function SkipSpace(s: string): (r: string)
    ensures |r| <= |s| && r == s[|s| - |r|..]
    ensures r == [] || !IsSpace(r[0])
    ensures forall i :: 0 <= i < |s| - |r| ==> IsSpace(s[i])
  {
    if |s| > 0 && IsSpace(s[0]) then SkipSpace(s[1..]) else s
  }

  /** The longest prefix of s made of decimal digits. */
  function LeadingDigits(s: string): (d: string)
    ensures |d| <= |s| && d == s[..|d|]
    ensures forall i :: 0 <= i < |d| ==> IsDigit(d[i])
    ensures |d| == |s| || !IsDigit(s[|d|])
  {
    if |s| > 0 && IsDigit(s[0]) then [s[0]] + LeadingDigits(s[1..]) else []
  }

  /** The number a string of decimal digits denotes. */
  function DigitsValue(d: string): nat {
    if d == [] then 0
    else
      var last := d[|d| - 1] as int - '0' as int;
      DigitsValue(d[..|d| - 1]) * 10 + (if 0 <= last then last else 0)
  }

  /** String#to_i: optional leading whitespace and sign, then the leading digits; 0 when there are none. */
  function ToI(s: string): int {
    var t := SkipSpace(s);
    if |t| > 0 && t[0] == '-' then -(DigitsValue(LeadingDigits(t[1..])) as int)
    else if |t| > 0 && t[0] == '+' then DigitsValue(LeadingDigits(t[1..]))
    else DigitsValue(LeadingDigits(t))
  }

  function DigitChar(d: nat): char
    requires d < 10
  {
    ('0' as int + d) as char
  }

  /** Integer#to_s for a natural number. */
  function Digits(n: nat): (d: string)
    ensures |d| >= 1
    ensures forall i :: 0 <= i < |d| ==> IsDigit(d[i])
  {
    if n < 10 then [DigitChar(n)] else Digits(n / 10) + [DigitChar(n % 10)]
  }

  /** Integer#to_s. */
  function DecimalText(n: int): string {
    if n < 0 then "-" + Digits(-n) else Digits(n)
  }

  lemma {:induction false} DigitsValueOfDigits(n: nat)
    ensures DigitsValue(Digits(n)) == n
  {
    if n >= 10 {
      var d := Digits(n);
      assert d[..|d| - 1] == Digits(n / 10);
      DigitsValueOfDigits(n / 10);
    }
  }

  /** to_i reads back the decimal text of every integer. */
  lemma ToIDecimalText(n: int)
    ensures ToI(DecimalText(n)) == n
  {
    var text := DecimalText(n);
    var m: nat := if n < 0 then -n else n;
    var d := Digits(m);
    DigitsValueOfDigits(m);
    AllDigitsLeading(d);
    assert SkipSpace(text) == text by {
      assert !IsSpace(text[0]);
    }
    if n < 0 {
      assert text[0] == '-' && text[1..] == d;
      assert ToI(text) == -(DigitsValue(LeadingDigits(d)) as int);
    } else {
      assert text == d && IsDigit(text[0]);
      assert ToI(text) == DigitsValue(LeadingDigits(d));
    }
  }

  /** A string of digits is its own leading digits. */
  lemma AllDigitsLeading(d: string)
    requires forall i :: 0 <= i < |d| ==> IsDigit(d[i])
    ensures LeadingDigits(d) == d
  {
    var l := LeadingDigits(d);
    assert |l| == |d|;
  }
}
