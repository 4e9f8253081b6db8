/**
 * The few JavaScript string operations the rest of the model relies on,
 * stated over `string` (a sequence of characters):
 * `String.prototype.trim`, `substring(0, n)`, `startsWith`, the search
 * for a literal pattern, and the decimal rendering of a number in a
 * template literal.
 */
module JsString {

  import opened Wrappers

  /** WhiteSpace and LineTerminator code points, the set `trim` removes. */
  predicate IsWhitespace(c: char)
  {
    || c == '\t' || c == '\n' || c == '\U{000B}' || c == '\U{000C}' || c == '\r'
    || c == ' ' || c == '\U{00A0}' || c == '\U{1680}'
    || ('\U{2000}' <= c <= '\U{200A}')
    || c == '\U{2028}' || c == '\U{2029}' || c == '\U{202F}' || c == '\U{205F}'
    || c == '\U{3000}' || c == '\U{FEFF}'
  }

  ghost predicate AllWhitespace(s: string)
  {
    forall i :: 0 <= i < |s| ==> IsWhitespace(s[i])
  }

  /** `s` has no whitespace at either end. */
  ghost predicate Trimmed(s: string)
  {
    s == [] || (!IsWhitespace(s[0]) && !IsWhitespace(s[|s| - 1]))
  }

  /** Drops the leading whitespace: the result is the longest suffix that
      starts with a non-whitespace character (or is empty). */
  function TrimStart(s: string): (r: string)
    ensures |r| <= |s| && r == s[|s| - |r|..]
    ensures AllWhitespace(s[..|s| - |r|])
    ensures r == [] || !IsWhitespace(r[0])
  {
    if s != [] && IsWhitespace(s[0]) then TrimStart(s[1..]) else s
  }

  /** Drops the trailing whitespace: the result is the longest prefix that
      ends with a non-whitespace character (or is empty). */
  function TrimEnd(s: string): (r: string)
    ensures |r| <= |s| && r == s[..|r|]
    ensures AllWhitespace(s[|r|..])
    ensures r == [] || !IsWhitespace(r[|r| - 1])
  {
    if s != [] && IsWhitespace(s[|s| - 1]) then TrimEnd(s[..|s| - 1]) else s
  }

  /** `String.prototype.trim`: `s` is the result framed by whitespace,
      and the result has no whitespace at either end. */
  function Trim(s: string): (r: string)
    ensures Trimmed(r)
    ensures exists lead, trail :: AllWhitespace(lead) && AllWhitespace(trail) && s == lead + r + trail
  {
    var t := TrimStart(s);
    var r := TrimEnd(t);
    assert r == [] || r[0] == t[0];
    SplitThree(s, t, r);
    r
  }

  /** A suffix `t` of `s` and a prefix `r` of `t` cut `s` in three. */
  lemma {:induction false} SplitThree(s: string, t: string, r: string)
    requires |r| <= |t| <= |s| && t == s[|s| - |t|..] && r == t[..|r|]
    ensures s == s[..|s| - |t|] + r + t[|r|..]
  {
    assert t == r + t[|r|..];
    assert s == s[..|s| - |t|] + t;
  }

  /** `s.substring(0, n)` for a non-negative `n`: the first `n` characters,
      or all of `s` when it is shorter. */
  function Prefix(s: string, n: nat): (r: string)
    ensures |r| == if |s| < n then |s| else n
    ensures s == r + s[|r|..]
  {
    if |s| < n then s else s[..n]
  }

  /** The literal `pat` occurs in `s` starting at index `i`. */
  predicate OccursAt(s: string, pat: string, i: nat)
  {
    i + |pat| <= |s| && s[i..i + |pat|] == pat
  }

  /** `s.startsWith(pat)`. */
  predicate StartsWith(s: string, pat: string)
  {
    OccursAt(s, pat, 0)
  }

  /** The first index at or after `from` where `pat` occurs, if any. */
  function IndexOf(s: string, pat: string, from: nat): (r: Option<nat>)
    requires from <= |s|
    ensures r.Some? ==> from <= r.value && r.value + |pat| <= |s|
    decreases |s| - from
  {
    if OccursAt(s, pat, from) then Some(from)
    else if from == |s| then None
    else IndexOf(s, pat, from + 1)
  }

  /** What `IndexOf` finds is an occurrence of `pat`. */
  lemma {:induction false} IndexOfSound(s: string, pat: string, from: nat)
    requires from <= |s| && IndexOf(s, pat, from).Some?
    ensures OccursAt(s, pat, IndexOf(s, pat, from).value)
    decreases |s| - from
  {
    if !OccursAt(s, pat, from) {
      IndexOfSound(s, pat, from + 1);
    }
  }

  /** No occurrence of `pat` lies between `from` and the one `IndexOf`
      finds; with none found, there is none at or after `from`. */
  lemma {:induction false} IndexOfFirst(s: string, pat: string, from: nat)
    requires from <= |s|
    ensures forall k :: from <= k <= |s| && (IndexOf(s, pat, from).None? || k < IndexOf(s, pat, from).value) ==> !OccursAt(s, pat, k)
    decreases |s| - from
  {
    if !OccursAt(s, pat, from) && from < |s| {
      IndexOfFirst(s, pat, from + 1);
    }
  }

  function DigitChar(d: nat): (c: char)
    requires d < 10
    ensures '0' <= c <= '9'
  {
    (('0' as int) + d) as char
  }

  /** The decimal text of `n`, as a template literal renders a
      non-negative integer: no sign, no leading zero. */
  function NatToString(n: nat): (r: string)
    ensures |r| >= 1
    ensures forall i :: 0 <= i < |r| ==> '0' <= r[i] <= '9'
    ensures r[0] == '0' ==> n == 0
  {
    if n < 10 then [DigitChar(n)] else NatToString(n / 10) + [DigitChar(n % 10)]
  }

  /** The number a string of decimal digits denotes. */
  function DecimalValue(s: string): nat
    requires forall i :: 0 <= i < |s| ==> '0' <= s[i] <= '9'
  {
    if s == [] then 0
    else 10 * DecimalValue(s[..|s| - 1]) + ((s[|s| - 1] as int) - ('0' as int))
  }

  /** Reading the decimal text of `n` back gives `n`. */
  lemma {:induction false} NatToStringValue(n: nat)
    ensures DecimalValue(NatToString(n)) == n
  {
    if n >= 10 {
      var r := NatToString(n);
      assert r[..|r| - 1] == NatToString(n / 10);
      NatToStringValue(n / 10);
    }
  }
}
