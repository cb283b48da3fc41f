/** The string primitives the validator relies on: Python's `str.isspace` and
    `str.strip()`, the key pattern `^[a-zA-Z_][a-zA-Z0-9_]*$` under `re.match`,
    and `str(n)` for a natural number. Strings are sequences of Unicode scalar
    values; for a Python string made only of those, `|s|` is its `len(s)`. */
module Text {

  /** Python's `str.isspace()` for one character: the characters that `str.strip()`
      with no argument removes. */
  predicate IsWhitespace(c: char) {
    || ('\t' <= c <= '\r')
    || ('\U{1c}' <= c <= '\U{1f}')
    || c == ' '
    || c == '\U{85}'
    || c == '\U{a0}'
    || c == '\U{1680}'
    || ('\U{2000}' <= c <= '\U{200a}')
    || c == '\U{2028}'
    || c == '\U{2029}'
    || c == '\U{202f}'
    || c == '\U{205f}'
    || c == '\U{3000}'
  }

  predicate AllWhitespace(s: string) {
    forall k :: 0 <= k < |s| ==> IsWhitespace(s[k])
  }

  /** A string that `strip()` leaves as it is: empty, or neither end is whitespace. */
  predicate IsStripped(s: string) {
    s == [] || (!IsWhitespace(s[0]) && !IsWhitespace(s[|s| - 1]))
  }

  /** `s` without its leading whitespace: `s.lstrip()`. */
  function StripLeading(s: string): (r: string)
    ensures |r| <= |s| && r == s[|s| - |r|..]
    ensures r == [] || !IsWhitespace(r[0])
  {
    if s != [] && IsWhitespace(s[0]) then StripLeading(s[1..]) else s
  }

  /** `s` without its trailing whitespace: `s.rstrip()`. */
  function StripTrailing(s: string): (r: string)
    ensures |r| <= |s| && r == s[..|r|]
    ensures r == [] || !IsWhitespace(r[|r| - 1])
  {
    if s != [] && IsWhitespace(s[|s| - 1]) then StripTrailing(s[..|s| - 1]) else s
  }

  /** Python's `s.strip()`: `s` with its leading and trailing whitespace removed. */
  function Strip(s: string): (r: string)
    ensures |r| <= |s|
    ensures IsStripped(r)
  {
    StripTrailing(StripLeading(s))
  }

  /** A whitespace character followed by `n - 1` more is a run of `n`. */
  lemma WhitespacePrefix(s: string, n: nat)
    requires 0 < n <= |s| && IsWhitespace(s[0]) && AllWhitespace(s[1..][..n - 1])
    ensures AllWhitespace(s[..n])
  {
    forall k | 1 <= k < n
      ensures IsWhitespace(s[k])
    {
      assert s[k] == s[1..][..n - 1][k - 1];
    }
  }

  /** A run of whitespace ending just before a final whitespace character. */
  lemma WhitespaceSuffix(s: string, n: nat)
    requires n < |s| && IsWhitespace(s[|s| - 1]) && AllWhitespace(s[..|s| - 1][n..])
    ensures AllWhitespace(s[n..])
  {
    forall k | n <= k < |s| - 1
      ensures IsWhitespace(s[k])
    {
      assert s[k] == s[..|s| - 1][n..][k - n];
    }
  }

  lemma SliceOfSuffix<T>(s: seq<T>, a: nat, m: nat)
    requires a + m <= |s|
    ensures s[a..][..m] == s[a..a + m]
    ensures s[a..][m..] == s[a + m..]
  {
  }

  /** What `StripLeading` removes is whitespace. */
  lemma {:induction false} StripLeadingRemovesWhitespace(s: string)
    ensures AllWhitespace(s[..|s| - |StripLeading(s)|])
  {
    if s != [] && IsWhitespace(s[0]) {
      StripLeadingRemovesWhitespace(s[1..]);
      WhitespacePrefix(s, |s| - |StripLeading(s)|);
    }
  }

  /** `lstrip()` returns the empty string exactly for an all-whitespace string. */
  lemma StripLeadingEmpty(s: string)
    ensures StripLeading(s) == [] <==> AllWhitespace(s)
  {
    StripLeadingRemovesWhitespace(s);
    var r := StripLeading(s);
    if r == [] {
      assert s[..|s|] == s;
    } else {
      assert r[0] == s[|s| - |r|];
    }
  }

  /** What `StripTrailing` removes is whitespace. */
  lemma {:induction false} StripTrailingRemovesWhitespace(s: string)
    ensures AllWhitespace(s[|StripTrailing(s)|..])
  {
    if s != [] && IsWhitespace(s[|s| - 1]) {
      StripTrailingRemovesWhitespace(s[..|s| - 1]);
      WhitespaceSuffix(s, |StripTrailing(s)|);
    }
  }

  /** `Strip(s)` is the middle of `s` that `StripLeading` leaves and `StripTrailing` cuts. */
  lemma StripIsMiddle(s: string)
    ensures |s| - |StripLeading(s)| + |Strip(s)| <= |s|
    ensures s[|s| - |StripLeading(s)|..|s| - |StripLeading(s)| + |Strip(s)|] == Strip(s)
  {
    SliceOfSuffix(s, |s| - |StripLeading(s)|, |Strip(s)|);
  }

  /** What follows `Strip(s)` in `s` is whitespace. */
  lemma StripRemovesTrailing(s: string)
    ensures |s| - |StripLeading(s)| + |Strip(s)| <= |s|
    ensures AllWhitespace(s[|s| - |StripLeading(s)| + |Strip(s)|..])
  {
    StripTrailingRemovesWhitespace(StripLeading(s));
    SliceOfSuffix(s, |s| - |StripLeading(s)|, |Strip(s)|);
  }

  /** `strip()` returns the empty string exactly for an all-whitespace string. */
  lemma StripEmpty(s: string)
    ensures Strip(s) == [] <==> AllWhitespace(s)
  {
    StripLeadingEmpty(s);
    var t := StripLeading(s);
    if Strip(s) == [] {
      StripTrailingRemovesWhitespace(t);
      assert t[|StripTrailing(t)|..] == t;
    }
  }

  /** `strip()` leaves a stripped string as it is. */
  lemma StripOfStripped(s: string)
    requires IsStripped(s)
    ensures Strip(s) == s
  {
  }

  /** `strip()` is idempotent. */
  lemma StripIdempotent(s: string)
    ensures Strip(Strip(s)) == Strip(s)
  {
    StripOfStripped(Strip(s));
  }

  predicate IsIdentStart(c: char) {
    ('a' <= c <= 'z') || ('A' <= c <= 'Z') || c == '_'
  }

  predicate IsIdentChar(c: char) {
    IsIdentStart(c) || ('0' <= c <= '9')
  }

  /** The whole of `s` is `[a-zA-Z_][a-zA-Z0-9_]*`. */
  predicate IsIdentifier(s: string) {
    |s| >= 1 && IsIdentStart(s[0]) && forall k :: 1 <= k < |s| ==> IsIdentChar(s[k])
  }

  /** `KEY_PATTERN.match(s)` for `^[a-zA-Z_][a-zA-Z0-9_]*$` without flags: `match`
      anchors at the start, and Python's `$` matches at the end of the string or
      just before a newline that ends it. */
  predicate KeyPatternMatches(s: string) {
    || IsIdentifier(s)
    || (|s| >= 2 && s[|s| - 1] == '\n' && IsIdentifier(s[..|s| - 1]))
  }

  /** Without a newline in it, a key the pattern accepts is an identifier. */
  lemma KeyPatternWithoutNewline(s: string)
    requires KeyPatternMatches(s)
    requires forall k :: 0 <= k < |s| ==> s[k] != '\n'
    ensures IsIdentifier(s)
  {
  }

  /** The pattern accepts a key that is not an identifier: one trailing newline
      gets past `$`. */
  lemma KeyPatternAcceptsTrailingNewline()
    ensures KeyPatternMatches("a\n") && !IsIdentifier("a\n")
  {
    assert IsIdentifier("a\n"[..1]);
  }

  function DigitChar(d: nat): (c: char)
    requires d < 10
    ensures '0' <= c <= '9'
    ensures c as int - '0' as int == d
  {
    ('0' as int + d) as char
  }

  predicate AllDigits(s: string) {
    forall k :: 0 <= k < |s| ==> '0' <= s[k] <= '9'
  }

  /** Python's `str(n)` for a natural number: its decimal digits. */
  function NatToString(n: nat): (s: string)
    ensures |s| >= 1 && AllDigits(s)
    ensures s[0] == '0' ==> n == 0
  {
    if n < 10 then [DigitChar(n)] else NatToString(n / 10) + [DigitChar(n % 10)]
  }

  /** The number a string of decimal digits denotes. */
  function DecimalValue(s: string): nat
    requires AllDigits(s)
  {
    if s == [] then 0 else 10 * DecimalValue(s[..|s| - 1]) + (s[|s| - 1] as int - '0' as int)
  }

  lemma {:induction false} DecimalRoundTrip(n: nat)
    ensures DecimalValue(NatToString(n)) == n
  {
    if n >= 10 {
      var s := NatToString(n);
      assert s[..|s| - 1] == NatToString(n / 10);
      DecimalRoundTrip(n / 10);
    }
  }

  /** Distinct numbers have distinct decimal strings. */
  lemma NatToStringInjective(a: nat, b: nat)
    requires NatToString(a) == NatToString(b)
    ensures a == b
  {
    DecimalRoundTrip(a);
    DecimalRoundTrip(b);
  }
}
