/** The pieces of Python's `str` behaviour the handlers rely on: `isspace`, `lower`,
    `split()`, `split(sep)`, the `in` operator on strings, `int(text)` with the
    whitespace it skips, and `str(n)` for integers. Decimal digits are restricted to ASCII '0'..'9';
    lower-casing covers ASCII and the Cyrillic block U+0400..U+042F. */
module Text {
  import opened Wrappers

  /** Python's `str.isspace()`: the characters `\s` matches in a str pattern and the
      ones `split()` and `strip()` treat as whitespace. */
  predicate IsSpace(c: char) {
    || ('\t' <= c <= '\r')
    || ('\U{1C}' <= c <= ' ')
    || c == '\U{85}' || c == '\U{A0}' || c == '\U{1680}'
    || ('\U{2000}' <= c <= '\U{200A}')
    || c == '\U{2028}' || c == '\U{2029}' || c == '\U{202F}' || c == '\U{205F}' || c == '\U{3000}'
  }

  /** The whitespace `int()` skips around a number. CPython maps non-ASCII whitespace
      to a space and then skips only ASCII `\t`..`\r` and space, so the separators
      U+001C..U+001F, though `isspace()`, are not skipped. */
  predicate IsIntSpace(c: char) {
    IsSpace(c) && !('\U{1C}' <= c <= '\U{1F}')
  }

  predicate IsDigit(c: char) {
    '0' <= c <= '9'
  }

  function DigitValue(c: char): (d: nat)
    requires IsDigit(c)
    ensures d < 10
  {
    c as int - '0' as int
  }

  function DigitChar(d: nat): (c: char)
    requires d < 10
    ensures IsDigit(c) && DigitValue(c) == d
  {
    ('0' as int + d) as char
  }

  predicate NoSpace(s: string) {
    forall i :: 0 <= i < |s| ==> !IsSpace(s[i])
  }

  // ---------------------------------------------------------------------------
  // lower()

  /** Upper-case letters that `str.lower()` changes, within the modelled alphabet. */
  predicate IsUpper(c: char) {
    ('A' <= c <= 'Z') || ('\U{0400}' <= c <= '\U{042F}')
  }

  function LowerChar(c: char): (r: char)
    ensures !IsUpper(r)
    ensures r == c <==> !IsUpper(c)
  {
    if 'A' <= c <= 'Z' then (c as int + 32) as char
    else if '\U{0410}' <= c <= '\U{042F}' then (c as int + 32) as char
    else if '\U{0400}' <= c <= '\U{040F}' then (c as int + 80) as char
    else c
  }

  function Lower(s: string): (r: string)
    ensures |r| == |s|
    ensures forall i :: 0 <= i < |s| ==> r[i] == LowerChar(s[i])
  {
    seq(|s|, i requires 0 <= i < |s| => LowerChar(s[i]))
  }

  /** Lower-casing twice is lower-casing once. */
  lemma LowerIdempotent(s: string)
    ensures Lower(Lower(s)) == Lower(s)
  {
  }

  // ---------------------------------------------------------------------------
  // split()  (no argument: runs of whitespace separate, empty tokens are dropped)

  /** Length of the leading run of non-whitespace characters. */
  function TokenLength(s: string): (n: nat)
    ensures n <= |s|
    ensures forall i :: 0 <= i < n ==> !IsSpace(s[i])
    ensures n == |s| || IsSpace(s[n])
  {
    if s == [] || IsSpace(s[0]) then 0 else 1 + TokenLength(s[1..])
  }

  function Split(s: string): (r: seq<string>)
    ensures forall k :: 0 <= k < |r| ==> |r[k]| > 0 && NoSpace(r[k])
    decreases |s|
  {
    if s == [] then []
    else if IsSpace(s[0]) then Split(s[1..])
    else
      var n := TokenLength(s);
      [s[..n]] + Split(s[n..])
  }

  function Concat(parts: seq<string>): string {
    if parts == [] then [] else parts[0] + Concat(parts[1..])
  }

  /** The non-whitespace characters of `s`, in order. */
  function RemoveSpaces(s: string): (r: string)
    ensures NoSpace(r)
  {
    if s == [] then []
    else if IsSpace(s[0]) then RemoveSpaces(s[1..])
    else [s[0]] + RemoveSpaces(s[1..])
  }

  lemma {:induction false} RemoveSpacesAppend(a: string, b: string)
    ensures RemoveSpaces(a + b) == RemoveSpaces(a) + RemoveSpaces(b)
  {
    if a == [] {
      assert a + b == b;
    } else {
      assert (a + b)[1..] == a[1..] + b;
      RemoveSpacesAppend(a[1..], b);
    }
  }

  lemma {:induction false} RemoveSpacesOfWord(w: string)
    requires NoSpace(w)
    ensures RemoveSpaces(w) == w
  {
    if w != [] {
      RemoveSpacesOfWord(w[1..]);
    }
  }

  /** `split()` loses exactly the whitespace: gluing the tokens back together gives the
      non-whitespace characters of the input, in order. */
  lemma {:induction false} SplitKeepsEveryLetter(s: string)
    ensures Concat(Split(s)) == RemoveSpaces(s)
    decreases |s|
  {
    if s == [] {
    } else if IsSpace(s[0]) {
      SplitKeepsEveryLetter(s[1..]);
    } else {
      var n := TokenLength(s);
      var r := Split(s[n..]);
      assert Split(s) == [s[..n]] + r;
      assert ([s[..n]] + r)[1..] == r;
      SplitKeepsEveryLetter(s[n..]);
      assert s == s[..n] + s[n..];
      RemoveSpacesAppend(s[..n], s[n..]);
      RemoveSpacesOfWord(s[..n]);
    }
  }

  /** A single word splits into itself. */
  lemma {:induction false} SplitOfWord(w: string)
    requires |w| > 0 && NoSpace(w)
    ensures Split(w) == [w]
  {
    WordTokenLength(w);
    assert w[..|w|] == w;
    assert w[|w|..] == [];
  }

  lemma {:induction false} WordTokenLength(w: string)
    requires NoSpace(w)
    ensures TokenLength(w) == |w|
  {
    if w != [] {
      WordTokenLength(w[1..]);
    }
  }

  // ---------------------------------------------------------------------------
  // split(sep)  (a single separator character; empty fields are kept)

  function SplitOn(s: string, sep: char): (r: seq<string>)
    ensures |r| >= 1
    ensures forall k :: 0 <= k < |r| ==> sep !in r[k]
  {
    if s == [] then [""]
    else
      var rest := SplitOn(s[1..], sep);
      if s[0] == sep then [""] + rest else [[s[0]] + rest[0]] + rest[1..]
  }

  function JoinOn(parts: seq<string>, sep: char): string
    requires |parts| >= 1
  {
    if |parts| == 1 then parts[0] else parts[0] + [sep] + JoinOn(parts[1..], sep)
  }

  /** `sep.join(s.split(sep)) == s`. */
  lemma {:induction false} JoinSplitOn(s: string, sep: char)
    ensures JoinOn(SplitOn(s, sep), sep) == s
  {
    if s != [] {
      var rest := SplitOn(s[1..], sep);
      JoinSplitOn(s[1..], sep);
      if s[0] == sep {
        assert SplitOn(s, sep) == [""] + rest;
        assert ([""] + rest)[1..] == rest;
      } else {
        var r := [[s[0]] + rest[0]] + rest[1..];
        assert SplitOn(s, sep) == r;
        if |rest| == 1 {
          assert JoinOn(rest, sep) == rest[0];
        } else {
          assert r[1..] == rest[1..];
          assert JoinOn(rest, sep) == rest[0] + [sep] + JoinOn(rest[1..], sep);
        }
      }
    }
  }

  /** Splitting `a + sep + b` where neither side holds `sep` gives back exactly `[a, b]`. */
  lemma {:induction false} SplitOnTwoFields(a: string, b: string, sep: char)
    requires sep !in a && sep !in b
    ensures SplitOn(a + [sep] + b, sep) == [a, b]
  {
    if a == [] {
      assert a + [sep] + b == [sep] + b;
      assert ([sep] + b)[1..] == b;
      SplitOnField(b, sep);
    } else {
      assert (a + [sep] + b)[1..] == a[1..] + [sep] + b;
      SplitOnTwoFields(a[1..], b, sep);
      assert [a[0]] + a[1..] == a;
    }
  }

  lemma {:induction false} SplitOnField(b: string, sep: char)
    requires sep !in b
    ensures SplitOn(b, sep) == [b]
  {
    if b != [] {
      SplitOnField(b[1..], sep);
      assert [b[0]] + b[1..] == b;
    }
  }

  // ---------------------------------------------------------------------------
  // `needle in hay`

  /** Python's `s.startswith(prefix)`, and what a pattern anchored with `^` checks first. */
  predicate StartsWith(s: string, prefix: string) {
    |prefix| <= |s| && s[..|prefix|] == prefix
  }

  predicate OccursAt(hay: string, needle: string, i: nat) {
    i + |needle| <= |hay| && hay[i..i + |needle|] == needle
  }

  predicate Contains(hay: string, needle: string)
    decreases |hay|
  {
    OccursAt(hay, needle, 0) || (|hay| > 0 && Contains(hay[1..], needle))
  }

  /** The scanning definition agrees with "there is a position where `needle` occurs". */
  lemma {:induction false} ContainsIff(hay: string, needle: string)
    ensures Contains(hay, needle) <==> exists i: nat :: OccursAt(hay, needle, i)
    decreases |hay|
  {
    if Contains(hay, needle) {
      if !OccursAt(hay, needle, 0) {
        ContainsIff(hay[1..], needle);
        var i: nat :| OccursAt(hay[1..], needle, i);
        assert hay[1..][i..i + |needle|] == hay[i + 1..i + 1 + |needle|];
        assert OccursAt(hay, needle, i + 1);
      }
    }
    if exists i: nat :: OccursAt(hay, needle, i) {
      var i: nat :| OccursAt(hay, needle, i);
      if i > 0 {
        assert hay[1..][i - 1..i - 1 + |needle|] == hay[i..i + |needle|];
        assert OccursAt(hay[1..], needle, i - 1);
        ContainsIff(hay[1..], needle);
      }
    }
  }

  // ---------------------------------------------------------------------------
  // int(text)

  /** Number of characters `int()` skips at the start of `s`. */
  function LeadingSpaces(s: string): (n: nat)
    ensures n <= |s|
    ensures forall i :: 0 <= i < n ==> IsIntSpace(s[i])
    ensures n < |s| ==> !IsIntSpace(s[n])
  {
    if s != [] && IsIntSpace(s[0]) then 1 + LeadingSpaces(s[1..]) else 0
  }

  /** Number of characters `int()` skips at the end of `s`. */
  function TrailingSpaces(s: string): (n: nat)
    ensures n <= |s|
    ensures forall i :: |s| - n <= i < |s| ==> IsIntSpace(s[i])
    ensures n < |s| ==> !IsIntSpace(s[|s| - 1 - n])
  {
    if s != [] && IsIntSpace(s[|s| - 1]) then 1 + TrailingSpaces(s[..|s| - 1]) else 0
  }

  /** The text `int()` reads: `s` without the whitespace it skips on either side. */
  function IntStrip(s: string): string {
    var a := LeadingSpaces(s);
    if a == |s| then [] else s[a..|s| - TrailingSpaces(s)]
  }

  /** The digit part `int()` accepts in base 10: ASCII digits, with single underscores
      allowed between two digits. */
  predicate IsDigitString(s: string) {
    && |s| > 0
    && IsDigit(s[0]) && IsDigit(s[|s| - 1])
    && (forall i :: 0 <= i < |s| ==> IsDigit(s[i]) || s[i] == '_')
    && (forall i, j | 0 <= i < |s| && 0 <= j < |s| && j == i + 1 :: !(s[i] == '_' && s[j] == '_'))
  }

  function DigitsValue(s: string): nat
    requires forall i :: 0 <= i < |s| ==> IsDigit(s[i]) || s[i] == '_'
  {
    if s == [] then 0
    else if s[|s| - 1] == '_' then DigitsValue(s[..|s| - 1])
    else 10 * DigitsValue(s[..|s| - 1]) + DigitValue(s[|s| - 1])
  }

  /** Python's `int(text)`: skipped whitespace, then an optional sign, then digits. */
  function ParseInt(s: string): Option<int> {
    ParseSigned(IntStrip(s))
  }

  /** `int()` on text already stripped of surrounding whitespace. */
  function ParseSigned(t: string): Option<int> {
    if |t| > 0 && (t[0] == '+' || t[0] == '-') then
      if IsDigitString(t[1..]) then
        var v: int := DigitsValue(t[1..]);
        Some(if t[0] == '-' then -v else v)
      else None
    else if IsDigitString(t) then Some(DigitsValue(t))
    else None
  }

  /** Python's `str(n)` for a natural number. */
  function NatToString(n: nat): (r: string)
    ensures |r| > 0
    ensures forall i :: 0 <= i < |r| ==> IsDigit(r[i])
  {
    if n < 10 then [DigitChar(n)] else NatToString(n / 10) + [DigitChar(n % 10)]
  }

  function IntToString(n: int): string {
    if n < 0 then "-" + NatToString(-n) else NatToString(n)
  }

  lemma {:induction false} NatToStringValue(n: nat)
    ensures DigitsValue(NatToString(n)) == n
  {
    if n >= 10 {
      var p := NatToString(n / 10);
      var s := p + [DigitChar(n % 10)];
      assert s[..|s| - 1] == p;
      NatToStringValue(n / 10);
    }
  }

  /** `int(str(n)) == n` for every integer. */
  lemma ParseIntRoundTrip(n: int)
    ensures ParseInt(IntToString(n)) == Some(n)
  {
    if n < 0 {
      NegativeRoundTrip(n);
    } else {
      NatToStringValue(n);
      ParseUnsigned(NatToString(n));
    }
  }

  lemma NegativeRoundTrip(n: int)
    requires n < 0
    ensures ParseInt(IntToString(n)) == Some(n)
  {
    var m: nat := -n;
    var d := NatToString(m);
    assert IntToString(n) == "-" + d;
    NatToStringValue(m);
    ParseNegative(d);
  }

  lemma ParseUnsigned(d: string)
    requires |d| > 0 && forall i :: 0 <= i < |d| ==> IsDigit(d[i])
    ensures ParseInt(d) == Some(DigitsValue(d) as int)
  {
    StripUnpadded(d);
    AllDigitsIsDigitString(d);
  }

  lemma ParseNegative(d: string)
    requires |d| > 0 && forall i :: 0 <= i < |d| ==> IsDigit(d[i])
    ensures ParseInt("-" + d) == Some(-(DigitsValue(d) as int))
  {
    ParseSignedNegative(d);
    StripNegative(d);
  }

  lemma StripNegative(d: string)
    requires |d| > 0 && forall i :: 0 <= i < |d| ==> IsDigit(d[i])
    ensures IntStrip("-" + d) == "-" + d
  {
    var s := "-" + d;
    assert s[|s| - 1] == d[|d| - 1];
    StripUnpadded(s);
  }

  lemma ParseSignedNegative(d: string)
    requires |d| > 0 && forall i :: 0 <= i < |d| ==> IsDigit(d[i])
    ensures ParseSigned("-" + d) == Some(-(DigitsValue(d) as int))
  {
    var s := "-" + d;
    assert s[0] == '-';
    assert s[1..] == d;
    AllDigitsIsDigitString(d);
  }

  lemma StripUnpadded(s: string)
    requires |s| > 0 && !IsIntSpace(s[0]) && !IsIntSpace(s[|s| - 1])
    ensures IntStrip(s) == s
  {
    assert LeadingSpaces(s) == 0;
    assert TrailingSpaces(s) == 0;
  }

  lemma AllDigitsIsDigitString(s: string)
    requires |s| > 0 && forall i :: 0 <= i < |s| ==> IsDigit(s[i])
    ensures IsDigitString(s)
  {
  }

  /** `int()` skips a space but not the separator U+001C: `int(" 9") == 9`, while
      `int("\x1c9")` raises although `"\x1c9".strip() == "9"`. */
  lemma IntSpaceExamples()
    ensures ParseInt(" 9") == Some(9)
    ensures ParseInt("\U{1C}9") == None
  {
    assert IntStrip(" 9") == "9";
    ParseIntRejectsForeignChar("\U{1C}9", 0);
  }

  /** A character that is neither whitespace `int()` skips, a digit, an underscore nor
      a sign makes `int()` fail, wherever it stands. */
  lemma ParseIntRejectsForeignChar(s: string, k: nat)
    requires k < |s|
    requires !IsIntSpace(s[k]) && !IsDigit(s[k]) && s[k] !in "_+-"
    ensures ParseInt(s) == None
  {
    var a := LeadingSpaces(s);
    var e := TrailingSpaces(s);
    assert a <= k < |s| - e;
    var t := s[a..|s| - e];
    assert IntStrip(s) == t;
    assert t[k - a] == s[k];
    if |t| > 0 && (t[0] == '+' || t[0] == '-') {
      assert k - a > 0 && t[1..][k - a - 1] == s[k];
    }
  }
}
