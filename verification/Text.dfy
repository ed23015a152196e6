/** The JavaScript string operations the notes logic relies on:
    `toLowerCase` (restricted to ASCII letters), `trim`, `includes`,
    `startsWith`, and the decimal rendering of a non-negative integer
    that `"n" + Date.now()` performs. */
module Text {

  /** ASCII lowercasing of one character; every other character is kept. */
  function LowerChar(c: char): char
  {
    if 'A' <= c <= 'Z' then (c as int + 32) as char else c
  }

  /** `s.toLowerCase()` on ASCII letters. */
  function Lower(s: string): (r: string)
    ensures |r| == |s|
    ensures forall i :: 0 <= i < |s| ==> r[i] == LowerChar(s[i])
  {
    seq(|s|, i requires 0 <= i < |s| => LowerChar(s[i]))
  }

  /** A lowered string holds no upper-case ASCII letter, and lowering it
      again changes nothing. */
  lemma LowerIdempotent(s: string)
    ensures forall i :: 0 <= i < |Lower(s)| ==> !('A' <= Lower(s)[i] <= 'Z')
    ensures Lower(Lower(s)) == Lower(s)
  {
  }

  /** The characters `String.prototype.trim` removes: the ECMAScript
      WhiteSpace and LineTerminator code points. */
  predicate IsWhitespace(c: char)
  {
    ('\t' <= c <= '\r') || c == ' ' || c == '\U{A0}' || c == '\U{1680}' ||
    ('\U{2000}' <= c <= '\U{200A}') ||
    c == '\U{2028}' || c == '\U{2029}' || c == '\U{202F}' || c == '\U{205F}' ||
    c == '\U{3000}' || c == '\U{FEFF}'
  }

  predicate AllWhitespace(s: string)
  {
    forall i :: 0 <= i < |s| ==> IsWhitespace(s[i])
  }

  /** Drops leading whitespace: the result is the longest suffix of `s`
      that does not start with whitespace. */
  function TrimStart(s: string): (r: string)
    ensures |r| <= |s|
    ensures forall k :: 0 <= k < |r| ==> r[k] == s[|s| - |r| + k]
    ensures forall k :: 0 <= k < |s| - |r| ==> IsWhitespace(s[k])
    ensures |r| > 0 ==> !IsWhitespace(r[0])
  {
    if |s| > 0 && IsWhitespace(s[0]) then
      var t := s[1..];
      var r := TrimStart(t);
      assert forall k :: 0 <= k < |r| ==> r[k] == s[|s| - |r| + k];
      assert forall j :: 0 <= j < |t| - |r| ==> IsWhitespace(t[j]);
      r
    else s
  }

  /** Drops trailing whitespace: the result is the longest prefix of `s`
      that does not end with whitespace. */
  function TrimEnd(s: string): (r: string)
    ensures |r| <= |s|
    ensures forall k :: 0 <= k < |r| ==> r[k] == s[k]
    ensures forall k :: |r| <= k < |s| ==> IsWhitespace(s[k])
    ensures |r| > 0 ==> !IsWhitespace(r[|r| - 1])
  {
    if |s| > 0 && IsWhitespace(s[|s| - 1]) then
      var init := s[..|s| - 1];
      var r := TrimEnd(init);
      assert forall k :: |r| <= k < |init| ==> IsWhitespace(init[k]);
      r
    else s
  }

  /** `r` is the slice of `s` starting at `a`, and `s` holds only
      whitespace before and after it. */
  predicate SliceBetween(s: string, r: string, a: int)
  {
    && 0 <= a && a + |r| <= |s| && r == s[a..a + |r|]
    && AllWhitespace(s[..a]) && AllWhitespace(s[a + |r|..])
  }

  /** `s.trim()`: the slice of `s` between its leading and trailing
      whitespace. */
  function Trim(s: string): (r: string)
    ensures |r| <= |s|
    ensures |r| > 0 ==> !IsWhitespace(r[0]) && !IsWhitespace(r[|r| - 1])
    ensures r == "" <==> AllWhitespace(s)
    ensures exists a :: SliceBetween(s, r, a)
  {
    var e := TrimEnd(s);
    var r := TrimStart(e);
    SliceBetweenWhitespace(s, e, r);
    r
  }

  /** The facts `TrimEnd` and `TrimStart` establish about `e` (a prefix of
      `s` followed only by whitespace) and `r` (a suffix of `e` preceded only
      by whitespace) make `r` the slice of `s` between its leading and
      trailing whitespace. */
  lemma {:induction false} SliceBetweenWhitespace(s: string, e: string, r: string)
    requires |r| <= |e| <= |s|
    requires forall k :: 0 <= k < |e| ==> e[k] == s[k]
    requires forall k :: |e| <= k < |s| ==> IsWhitespace(s[k])
    requires forall k :: 0 <= k < |r| ==> r[k] == e[|e| - |r| + k]
    requires forall k :: 0 <= k < |e| - |r| ==> IsWhitespace(e[k])
    requires |r| > 0 ==> !IsWhitespace(r[0])
    requires |e| > 0 ==> !IsWhitespace(e[|e| - 1])
    ensures |r| > 0 ==> !IsWhitespace(r[|r| - 1])
    ensures r == "" <==> AllWhitespace(s)
    ensures exists a :: SliceBetween(s, r, a)
  {
    var a := |e| - |r|;
    assert forall k :: 0 <= k < |r| ==> r[k] == s[a + k];
    assert r == s[a..a + |r|];
    assert AllWhitespace(s[..a]) by {
      var head := s[..a];
      assert forall k :: 0 <= k < |head| ==> head[k] == e[k];
    }
    assert AllWhitespace(s[a + |r|..]) by {
      var tail := s[|e|..];
      assert forall k :: 0 <= k < |tail| ==> tail[k] == s[|e| + k];
    }
    assert SliceBetween(s, r, a);
    if |r| > 0 {
      assert r[|r| - 1] == e[|e| - |r| + (|r| - 1)];
      assert !IsWhitespace(s[a]);
    } else {
      assert |e| == 0;
    }
  }

  /** Trimming an already trimmed string changes nothing. */
  lemma TrimIdempotent(s: string)
    ensures Trim(Trim(s)) == Trim(s)
  {
    var t := Trim(s);
    if |t| > 0 {
      assert TrimEnd(t) == t;
      assert TrimStart(t) == t;
    }
  }

  /** `needle` occurs in `hay` starting at index `i`. */
  predicate OccursAt(hay: string, needle: string, i: int)
  {
    0 <= i && i + |needle| <= |hay| && hay[i..i + |needle|] == needle
  }

  /** `s.startsWith(prefix)`: `s` begins with the characters of `prefix`. */
  function StartsWith(s: string, prefix: string): (b: bool)
    ensures b <==> |prefix| <= |s| && forall i :: 0 <= i < |prefix| ==> s[i] == prefix[i]
  {
    |prefix| <= |s| && s[..|prefix|] == prefix
  }

  /** `hay.includes(needle)`: true exactly when `needle` occurs at some
      index of `hay`; the empty needle occurs everywhere. */
  function Contains(hay: string, needle: string): (r: bool)
    ensures r <==> exists i :: OccursAt(hay, needle, i)
  {
    if StartsWith(hay, needle) then
      assert OccursAt(hay, needle, 0);
      true
    else if |hay| == 0 then
      assert forall i :: !OccursAt(hay, needle, i);
      false
    else
      var r := Contains(hay[1..], needle);
      forall i
        ensures OccursAt(hay, needle, i) <==> i > 0 && OccursAt(hay[1..], needle, i - 1)
      {
        if 0 < i && i + |needle| <= |hay| {
          var a := hay[i..i + |needle|];
          var b := hay[1..][i - 1..i - 1 + |needle|];
          assert forall k :: 0 <= k < |a| ==> a[k] == b[k];
          assert a == b;
        }
      }
      if r then
        var j :| OccursAt(hay[1..], needle, j);
        assert OccursAt(hay, needle, j + 1);
        r
      else r
  }

  /** Every string contains itself and the empty string. */
  lemma ContainsSelfAndEmpty(s: string)
    ensures Contains(s, s)
    ensures Contains(s, "")
  {
    assert OccursAt(s, s, 0);
    assert OccursAt(s, "", 0);
  }

  /** The decimal digit for `d < 10`. */
  function Digit(d: nat): (c: char)
    requires d < 10
    ensures '0' <= c <= '9'
  {
    ('0' as int + d) as char
  }

  /** The value of a decimal digit character, or 0 for any other. */
  function DigitValue(c: char): nat
  {
    if '0' <= c <= '9' then c as int - '0' as int else 0
  }

  /** The decimal numeral of `n`, without leading zeros, as JavaScript
      converts a non-negative safe integer to a string. */
  function DecimalString(n: nat): (s: string)
    ensures |s| > 0
    ensures forall i :: 0 <= i < |s| ==> '0' <= s[i] <= '9'
    ensures |s| > 1 ==> s[0] != '0'
  {
    if n < 10 then [Digit(n)] else DecimalString(n / 10) + [Digit(n % 10)]
  }

  /** The number a string of decimal digits denotes. */
  function DecimalValue(s: string): nat
  {
    if |s| == 0 then 0 else DecimalValue(s[..|s| - 1]) * 10 + DigitValue(s[|s| - 1])
  }

  /** Reading the decimal numeral of `n` back gives `n`. */
  lemma {:induction false} DecimalRoundTrip(n: nat)
    ensures DecimalValue(DecimalString(n)) == n
  {
    var s := DecimalString(n);
    if n < 10 {
      assert s[..|s| - 1] == [];
    } else {
      assert s[..|s| - 1] == DecimalString(n / 10);
      DecimalRoundTrip(n / 10);
      assert DigitValue(s[|s| - 1]) == n % 10;
      assert n == (n / 10) * 10 + n % 10;
    }
  }

  /** Different numbers have different numerals. */
  lemma DecimalInjective(m: nat, n: nat)
    requires m != n
    ensures DecimalString(m) != DecimalString(n)
  {
    DecimalRoundTrip(m);
    DecimalRoundTrip(n);
  }
}
