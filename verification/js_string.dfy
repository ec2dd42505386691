/** The parts of ECMAScript string semantics the page's logic depends on:
    the whitespace class shared by `\s` and `String.prototype.trim`, trimming
    itself, and `.length` counted in UTF-16 code units. */
module JsString {

  /** A code point of the ECMAScript WhiteSpace or LineTerminator productions.
      This is the set the regular-expression class `\s` matches and the set
      `trim` removes from both ends of a string. */
  predicate IsSpace(c: char) {
    || c == '\t' || c == '\n' || c == '\U{000B}' || c == '\U{000C}' || c == '\r'
    || c == ' ' || c == '\U{00A0}' || c == '\U{1680}'
    || ('\U{2000}' <= c <= '\U{200A}')
    || c == '\U{2028}' || c == '\U{2029}' || c == '\U{202F}' || c == '\U{205F}'
    || c == '\U{3000}' || c == '\U{FEFF}'
  }

  /** Every character of `s` from `lo` up to (not including) `hi` is whitespace. */
  predicate SpaceBetween(s: string, lo: nat, hi: nat)
    requires lo <= hi <= |s|
  {
    forall k :: lo <= k < hi ==> IsSpace(s[k])
  }

  predicate AllSpace(s: string) {
    SpaceBetween(s, 0, |s|)
  }

  /** True when `s` neither starts nor ends with whitespace. */
  predicate IsTrimmed(s: string) {
    s == [] || (!IsSpace(s[0]) && !IsSpace(s[|s| - 1]))
  }

  /** The position of the first non-space character at or after `i`, or `|s|`
      when there is none. */
  function SkipLeading(s: string, i: nat): (j: nat)
    requires i <= |s|
    ensures i <= j <= |s| && SpaceBetween(s, i, j)
    ensures j == |s| || !IsSpace(s[j])
    decreases |s| - i
  {
    if i < |s| && IsSpace(s[i]) then SkipLeading(s, i + 1) else i
  }

  /** The position just past the last non-space character before `j` and not
      before `lo`, or `lo` when there is none. */
  function SkipTrailing(s: string, lo: nat, j: nat): (k: nat)
    requires lo <= j <= |s|
    ensures lo <= k <= j && SpaceBetween(s, k, j)
    ensures k == lo || !IsSpace(s[k - 1])
  {
    if lo < j && IsSpace(s[j - 1]) then SkipTrailing(s, lo, j - 1) else j
  }

  /** `String.prototype.trim`: the infix of `s` left once whitespace is cut
      from both ends. It starts at the first non-space character. */
  function Trim(s: string): (r: string)
    ensures IsTrimmed(r)
    ensures var a := SkipLeading(s, 0);
      && a + |r| <= |s| && r == s[a..a + |r|]
      && SpaceBetween(s, 0, a) && SpaceBetween(s, a + |r|, |s|)
  {
    var a := SkipLeading(s, 0);
    var b := SkipTrailing(s, a, |s|);
    assert SpaceBetween(s, b, |s|) by {
      assert a == b ==> SpaceBetween(s, a, |s|);
    }
    s[a..b]
  }

  /** The trimmed infix is the only one with those properties: cutting only
      whitespace from both ends, and no more once neither end is whitespace,
      leaves `Trim(s)`. */
  lemma TrimUnique(s: string, a: nat, b: nat)
    requires a <= b <= |s|
    requires SpaceBetween(s, 0, a) && SpaceBetween(s, b, |s|)
    requires IsTrimmed(s[a..b])
    ensures Trim(s) == s[a..b]
  {
    var a' := SkipLeading(s, 0);
    var b' := SkipTrailing(s, a', |s|);
    if a < b {
      assert s[a..b][0] == s[a] && s[a..b][b - a - 1] == s[b - 1];
      assert a' == a;
      assert b' == b;
    } else {
      assert SpaceBetween(s, 0, |s|);
      assert a' == |s|;
    }
  }

  /** A string with no whitespace at either end is its own trim. */
  lemma TrimmedIsFixed(s: string)
    requires IsTrimmed(s)
    ensures Trim(s) == s
  {
    assert s[0..|s|] == s;
    TrimUnique(s, 0, |s|);
  }

  lemma TrimIdempotent(s: string)
    ensures Trim(Trim(s)) == Trim(s)
  {
    TrimmedIsFixed(Trim(s));
  }

  /** Surrounding `s` with whitespace, of any amount on either side, does not
      change what `trim` returns. */
  lemma TrimIgnoresPadding(s: string, left: string, right: string)
    requires AllSpace(left) && AllSpace(right)
    ensures Trim(left + s + right) == Trim(s)
  {
    var r := Trim(s);
    var a := SkipLeading(s, 0);
    var b := a + |r|;
    var p := left + s + right;
    assert p[|left| + a..|left| + b] == s[a..b];
    assert SpaceBetween(p, 0, |left| + a);
    assert SpaceBetween(p, |left| + b, |p|);
    TrimUnique(p, |left| + a, |left| + b);
  }

  /** `v` is what is left of `raw` once whitespace is cut from both ends, and
      no more than that: `v` itself neither starts nor ends with whitespace. */
  ghost predicate IsTrimOf(v: string, raw: string) {
    && IsTrimmed(v)
    && exists a :: 0 <= a && a + |v| <= |raw| && v == raw[a..a + |v|]
         && SpaceBetween(raw, 0, a) && SpaceBetween(raw, a + |v|, |raw|)
  }

  /** `Trim(raw)` is a trim of `raw`. */
  lemma TrimIsTrimOf(raw: string)
    ensures IsTrimOf(Trim(raw), raw)
  {
    var v := Trim(raw);
    var a := SkipLeading(raw, 0);
    assert 0 <= a && a + |v| <= |raw| && v == raw[a..a + |v|]
      && SpaceBetween(raw, 0, a) && SpaceBetween(raw, a + |v|, |raw|);
  }

  /** Any trim of `raw` is `Trim(raw)`. */
  lemma TrimOfIsTrim(v: string, raw: string)
    requires IsTrimOf(v, raw)
    ensures v == Trim(raw)
  {
    var a :| 0 <= a && a + |v| <= |raw| && v == raw[a..a + |v|]
      && SpaceBetween(raw, 0, a) && SpaceBetween(raw, a + |v|, |raw|);
    TrimUnique(raw, a, a + |v|);
  }

  /** `Trim(raw)` is the one value that is a trim of `raw`. */
  lemma IsTrimOfIffTrim(v: string, raw: string)
    ensures IsTrimOf(v, raw) <==> v == Trim(raw)
  {
    if IsTrimOf(v, raw) {
      TrimOfIsTrim(v, raw);
    } else {
      TrimIsTrimOf(raw);
    }
  }

  /** Visible ASCII characters, `!` through `~`, are never whitespace. */
  lemma VisibleAsciiHasNoSpace(s: string)
    requires forall k :: 0 <= k < |s| ==> '!' <= s[k] <= '~'
    ensures forall k :: 0 <= k < |s| ==> !IsSpace(s[k])
  {
  }

  /** Number of UTF-16 code units encoding `c`: two for a code point outside
      the Basic Multilingual Plane, one otherwise. */
  function CodeUnits(c: char): nat {
    if c as int >= 0x1_0000 then 2 else 1
  }

  /** `.length` of a string: its size in UTF-16 code units. */
  function Utf16Length(s: string): (n: nat)
    ensures |s| <= n <= 2 * |s|
    ensures n == |s| <==> forall k :: 0 <= k < |s| ==> s[k] as int < 0x1_0000
    ensures n == 0 <==> s == []
  {
    if s == [] then 0 else Utf16Length(s[..|s| - 1]) + CodeUnits(s[|s| - 1])
  }
}
