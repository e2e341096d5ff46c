/** The handful of Python `str` operations the extraction pipeline relies on:
    character classes, ASCII case mapping, `strip()`, the `in` substring
    test, `startswith`, `split('\n')` and decimal digit strings. */
module Strings {

  // ---------------------------------------------------------------------------
  // Character classes
  // ---------------------------------------------------------------------------

  /** The characters Python's `str.isspace()` accepts; both `str.strip()` and
      the regular-expression class `\s` remove or match exactly these. */
  predicate IsSpace(c: char) {
    var n := c as int;
    || 9 <= n <= 13
    || 28 <= n <= 32
    || n == 0x85 || n == 0xA0 || n == 0x1680
    || 0x2000 <= n <= 0x200A
    || n == 0x2028 || n == 0x2029 || n == 0x202F || n == 0x205F || n == 0x3000
  }

  predicate IsDigit(c: char) {
    '0' <= c <= '9'
  }

  predicate IsAsciiLetter(c: char) {
    'a' <= c <= 'z' || 'A' <= c <= 'Z'
  }

  /** The regular-expression class `\w`, restricted to ASCII. */
  predicate IsWordChar(c: char) {
    IsAsciiLetter(c) || IsDigit(c) || c == '_'
  }

  predicate AllDigits(s: string) {
    forall k :: 0 <= k < |s| ==> IsDigit(s[k])
  }

  // ---------------------------------------------------------------------------
  // Case mapping (ASCII)
  // ---------------------------------------------------------------------------

  function UpperChar(c: char): (u: char)
    ensures 'a' <= c <= 'z' ==> 'A' <= u <= 'Z' && u as int == c as int - 32
    ensures !('a' <= c <= 'z') ==> u == c
  {
    if 'a' <= c <= 'z' then (c as int - 32) as char else c
  }

  function LowerChar(c: char): (l: char)
    ensures 'A' <= c <= 'Z' ==> 'a' <= l <= 'z' && l as int == c as int + 32
    ensures !('A' <= c <= 'Z') ==> l == c
  {
    if 'A' <= c <= 'Z' then (c as int + 32) as char else c
  }

  /** `s.upper()`: same length, every character mapped on its own. */
  function Upper(s: string): (r: string)
    ensures |r| == |s|
    ensures forall k :: 0 <= k < |s| ==> r[k] == UpperChar(s[k])
  {
    if |s| == 0 then "" else [UpperChar(s[0])] + Upper(s[1..])
  }

  /** `s.lower()`: same length, every character mapped on its own. */
  function Lower(s: string): (r: string)
    ensures |r| == |s|
    ensures forall k :: 0 <= k < |s| ==> r[k] == LowerChar(s[k])
  {
    if |s| == 0 then "" else [LowerChar(s[0])] + Lower(s[1..])
  }

  /** `s.replace(a, b)` for single characters. */
  function ReplaceChar(s: string, a: char, b: char): (r: string)
    ensures |r| == |s|
    ensures forall k :: 0 <= k < |s| ==> r[k] == (if s[k] == a then b else s[k])
  {
    if |s| == 0 then "" else [if s[0] == a then b else s[0]] + ReplaceChar(s[1..], a, b)
  }

  // ---------------------------------------------------------------------------
  // Substrings
  // ---------------------------------------------------------------------------

  predicate OccursAt(s: string, sub: string, k: nat) {
    k + |sub| <= |s| && s[k..k + |sub|] == sub
  }

  /** Python's `sub in s`. */
  predicate Contains(s: string, sub: string) {
    exists k :: 0 <= k <= |s| && OccursAt(s, sub, k)
  }

  /** Python's `s.startswith(prefix)`. */
  predicate StartsWith(s: string, prefix: string) {
    prefix <= s
  }

  /** The position of the first `c` in `s`, or `|s|` when there is none. */
  function IndexOf(s: string, c: char): (k: nat)
    ensures k <= |s|
    ensures forall j :: 0 <= j < k ==> s[j] != c
    ensures k < |s| ==> s[k] == c
  {
    if |s| == 0 then 0 else if s[0] == c then 0 else 1 + IndexOf(s[1..], c)
  }

  /** The first `c` in `a + b`, when `a` has none and `b` starts with one,
      is where `b` starts. */
  lemma {:induction false} IndexOfAfter(a: string, b: string, c: char)
    requires c !in a && |b| > 0 && b[0] == c
    ensures IndexOf(a + b, c) == |a|
  {
    if |a| > 0 {
      assert (a + b)[1..] == a[1..] + b;
      IndexOfAfter(a[1..], b, c);
    } else {
      assert a + b == b;
    }
  }

  // ---------------------------------------------------------------------------
  // strip()
  // ---------------------------------------------------------------------------

  /** The length of the longest all-whitespace prefix. */
  function LeadingSpaces(s: string): (n: nat)
    ensures n <= |s|
    ensures forall k :: 0 <= k < n ==> IsSpace(s[k])
    ensures n < |s| ==> !IsSpace(s[n])
  {
    if |s| == 0 || !IsSpace(s[0]) then 0 else 1 + LeadingSpaces(s[1..])
  }

  /** The length of the longest all-whitespace suffix. */
  function TrailingSpaces(s: string): (n: nat)
    ensures n <= |s|
    ensures forall k :: |s| - n <= k < |s| ==> IsSpace(s[k])
    ensures n < |s| ==> !IsSpace(s[|s| - n - 1])
  {
    if |s| == 0 || !IsSpace(s[|s| - 1]) then 0 else 1 + TrailingSpaces(s[..|s| - 1])
  }

  /** Python's `s.strip()`: the result is a run of `s` that neither starts nor
      ends with whitespace, and everything cut away is whitespace. */
  function Strip(s: string): (r: string)
    ensures |r| <= |s|
    ensures r == "" || (!IsSpace(r[0]) && !IsSpace(r[|r| - 1]))
    ensures exists a ::
              && 0 <= a <= |s| - |r| && OccursAt(s, r, a)
              && (forall k :: 0 <= k < a ==> IsSpace(s[k]))
              && (forall k :: a + |r| <= k < |s| ==> IsSpace(s[k]))
    ensures r == "" <==> forall k :: 0 <= k < |s| ==> IsSpace(s[k])
  {
    var a := LeadingSpaces(s);
    var t := s[a..];
    var r := t[..|t| - TrailingSpaces(t)];
    assert OccursAt(s, r, a);
    assert forall k :: a + |r| <= k < |s| ==> IsSpace(s[k]) by {
      forall k | a + |r| <= k < |s| ensures IsSpace(s[k]) {
        assert s[k] == t[k - a];
      }
    }
    r
  }

  /** Once leading whitespace ends at `a`, every non-space character from
      there on survives the strip, shifted left by `a`. */
  lemma StripFrom(s: string, a: nat, j: nat)
    requires a <= j < |s| && !IsSpace(s[a]) && !IsSpace(s[j])
    requires forall k :: 0 <= k < a ==> IsSpace(s[k])
    ensures j - a < |Strip(s)| && Strip(s)[j - a] == s[j]
  {
    var r := Strip(s);
    var b :| && 0 <= b <= |s| - |r| && OccursAt(s, r, b)
             && (forall k :: 0 <= k < b ==> IsSpace(s[k]))
             && (forall k :: b + |r| <= k < |s| ==> IsSpace(s[k]));
    assert r != "";
    assert s[b] == r[0];
    assert b == a;
    assert j < b + |r|;
    assert r[j - a] == s[b..b + |r|][j - a];
  }

  /** A string with no whitespace at either end is its own `strip()`. */
  lemma StripFixedPoint(s: string)
    requires s == "" || (!IsSpace(s[0]) && !IsSpace(s[|s| - 1]))
    ensures Strip(s) == s
  {
  }

  /** `strip()` keeps a head that starts and ends with non-whitespace. */
  lemma StripKeepsHead(s: string, k: nat)
    requires 0 < k <= |s| && !IsSpace(s[0]) && !IsSpace(s[k - 1])
    ensures s[..k] <= Strip(s)
  {
    assert LeadingSpaces(s) == 0;
    var n := TrailingSpaces(s);
    assert |s| - n >= k;
  }

  lemma StripIdempotent(s: string)
    ensures Strip(Strip(s)) == Strip(s)
  {
    StripFixedPoint(Strip(s));
  }

  // ---------------------------------------------------------------------------
  // split('\n') and its inverse
  // ---------------------------------------------------------------------------

  /** Python's `s.split(sep)` for a one-character separator: one more piece
      than there are separators, none of them containing the separator. */
  function Split(s: string, sep: char): (r: seq<string>)
    ensures |r| >= 1
    ensures forall k :: 0 <= k < |r| ==> sep !in r[k]
  {
    if |s| == 0 then [""]
    else
      var rest := Split(s[1..], sep);
      if s[0] == sep then [""] + rest
      else [[s[0]] + rest[0]] + rest[1..]
  }

  /** `sep.join(parts)`. */
  function Join(parts: seq<string>, sep: char): string
    requires |parts| >= 1
  {
    if |parts| == 1 then parts[0] else parts[0] + [sep] + Join(parts[1..], sep)
  }

  /** Splitting loses nothing: joining the pieces gives the text back. */
  lemma {:induction false} JoinSplit(s: string, sep: char)
    ensures Join(Split(s, sep), sep) == s
  {
    if |s| > 0 {
      var rest := Split(s[1..], sep);
      JoinSplit(s[1..], sep);
      if s[0] == sep {
        assert Split(s, sep)[1..] == rest;
      } else {
        var r := Split(s, sep);
        if |rest| == 1 {
          assert r == [[s[0]] + rest[0]];
        } else {
          assert r[1..] == rest[1..];
          assert Join(r, sep) == [s[0]] + rest[0] + [sep] + Join(rest[1..], sep);
        }
      }
    }
  }

  /** The first piece is the text before the first separator. */
  lemma {:induction false} SplitHead(s: string, sep: char)
    ensures Split(s, sep)[0] == s[..IndexOf(s, sep)]
  {
    if |s| > 0 && s[0] != sep {
      SplitHead(s[1..], sep);
      assert IndexOf(s, sep) == 1 + IndexOf(s[1..], sep);
      assert s[..IndexOf(s, sep)] == [s[0]] + s[1..][..IndexOf(s[1..], sep)];
    }
  }

  // ---------------------------------------------------------------------------
  // Decimal digit strings
  // ---------------------------------------------------------------------------

  function DigitValue(c: char): (v: nat)
    requires IsDigit(c)
    ensures v < 10
  {
    c as int - '0' as int
  }

  function DigitChar(v: nat): (c: char)
    requires v < 10
    ensures IsDigit(c) && DigitValue(c) == v
  {
    ('0' as int + v) as char
  }

  /** The value of a string of decimal digits, as Python's `int()` reads it. */
  function NumberValue(s: string): nat
    requires AllDigits(s)
  {
    if |s| == 0 then 0 else 10 * NumberValue(s[..|s| - 1]) + DigitValue(s[|s| - 1])
  }

  /** `n` written with exactly `width` digits, zero-padded on the left, as
      `%02d` and `%04d` do for values that fit. */
  function PadNumber(n: nat, width: nat): (r: string)
    requires n < Pow10(width)
    ensures |r| == width && AllDigits(r)
    ensures NumberValue(r) == n
  {
    if width == 0 then ""
    else
      var r := PadNumber(n / 10, width - 1) + [DigitChar(n % 10)];
      assert r[..|r| - 1] == PadNumber(n / 10, width - 1);
      r
  }

  /** Reading a digit string and writing the value back at the same width
      gives the same string, leading zeros included. */
  lemma {:induction false} PadNumberValue(t: string)
    requires AllDigits(t)
    ensures NumberValue(t) < Pow10(|t|)
    ensures PadNumber(NumberValue(t), |t|) == t
    decreases |t|
  {
    if |t| > 0 {
      var init := t[..|t| - 1];
      var c := t[|t| - 1];
      PadNumberValue(init);
      var n := NumberValue(t);
      assert n / 10 == NumberValue(init) && n % 10 == DigitValue(c);
      assert DigitChar(DigitValue(c)) == c;
      assert t == init + [c];
    }
  }

  function Pow10(k: nat): (p: nat)
    ensures p >= 1
  {
    if k == 0 then 1 else 10 * Pow10(k - 1)
  }
}
