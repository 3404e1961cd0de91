/**
 * The JavaScript string built-ins the WhatsApp bridge relies on, with strings as
 * sequences of Unicode scalar values (`seq<char>`); JavaScript counts UTF-16
 * code units, and the two agree for text without characters above U+FFFF. The
 * trimming and searching functions carry only the bounds their callers need for
 * termination; what they compute is stated by the lemmas beside them.
 */
module JsString {
  import opened Wrappers

  /** JavaScript truthiness of a `string | undefined`: set and not the empty string. */
  predicate Truthy(v: Option<string>) {
    v.Some? && v.value != ""
  }

  function Max(a: int, b: int): int {
    if a < b then b else a
  }

  /**
   * The code points ECMAScript counts as WhiteSpace or LineTerminator, which are
   * exactly the ones `trim` and `trimStart` remove (the Zs category taken from
   * Unicode 15).
   */
  predicate IsWhitespace(c: char) {
    c == '\t' || c == '\n' || c == '\U{000B}' || c == '\U{000C}' || c == '\r' || c == ' '
    || c == '\U{00A0}' || c == '\U{1680}' || ('\U{2000}' <= c <= '\U{200A}')
    || c == '\U{2028}' || c == '\U{2029}' || c == '\U{202F}' || c == '\U{205F}'
    || c == '\U{3000}' || c == '\U{FEFF}'
  }

  predicate AllWhitespace(s: string) {
    forall i :: 0 <= i < |s| ==> IsWhitespace(s[i])
  }

  // ---------------------------------------------------------------------------
  // trimStart, trimEnd, trim

  /** `s.trimStart()`: drops the longest all-whitespace prefix. */
  function TrimStart(s: string): (r: string)
    ensures |r| <= |s|
  {
    if s != [] && IsWhitespace(s[0]) then TrimStart(s[1..]) else s
  }

  /** The whitespace `s.trimStart()` removes. */
  function LeadingWhitespace(s: string): string {
    s[..|s| - |TrimStart(s)|]
  }

  /**
   * `trimStart` removes whitespace only, and all of it: what it keeps is a suffix
   * that is empty or starts with a character that is not whitespace.
   */
  lemma {:induction false} TrimStartSpec(s: string)
    ensures s == LeadingWhitespace(s) + TrimStart(s)
    ensures AllWhitespace(LeadingWhitespace(s))
    ensures TrimStart(s) == [] || !IsWhitespace(TrimStart(s)[0])
  {
    if s != [] && IsWhitespace(s[0]) {
      TrimStartSpec(s[1..]);
      var w := LeadingWhitespace(s[1..]);
      assert LeadingWhitespace(s) == [s[0]] + w;
    }
  }

  /** `trimStart` stops exactly at the first character that is not whitespace. */
  lemma {:induction false} TrimStartStopsAt(s: string, k: nat)
    requires k <= |s| && AllWhitespace(s[..k]) && (k == |s| || !IsWhitespace(s[k]))
    ensures TrimStart(s) == s[k..]
  {
    if k > 0 {
      assert IsWhitespace(s[0]) by { assert s[..k][0] == s[0]; }
      assert s[1..][..k - 1] == s[..k][1..];
      TrimStartStopsAt(s[1..], k - 1);
      assert s[1..][k - 1..] == s[k..];
    }
  }

  /** `s.trimEnd()`: drops the longest all-whitespace suffix. */
  function TrimEnd(s: string): (r: string)
    ensures |r| <= |s|
  {
    if s != [] && IsWhitespace(s[|s| - 1]) then TrimEnd(s[..|s| - 1]) else s
  }

  /** `trimEnd` keeps a prefix, removes whitespace only, and all of it. */
  lemma {:induction false} TrimEndSpec(s: string)
    ensures TrimEnd(s) == s[..|TrimEnd(s)|]
    ensures AllWhitespace(s[|TrimEnd(s)|..])
    ensures TrimEnd(s) == [] || !IsWhitespace(TrimEnd(s)[|TrimEnd(s)| - 1])
  {
    if s != [] && IsWhitespace(s[|s| - 1]) {
      var init := s[..|s| - 1];
      TrimEndSpec(init);
      var n := |TrimEnd(init)|;
      assert s[..n] == init[..n];
      assert s[n..] == init[n..] + [s[|s| - 1]];
    }
  }

  /** `trimEnd` stops exactly at the last character that is not whitespace. */
  lemma {:induction false} TrimEndStopsAt(s: string, k: nat)
    requires k <= |s| && AllWhitespace(s[k..]) && (k == 0 || !IsWhitespace(s[k - 1]))
    ensures TrimEnd(s) == s[..k]
    decreases |s|
  {
    if k < |s| {
      assert IsWhitespace(s[|s| - 1]) by { assert s[k..][|s| - 1 - k] == s[|s| - 1]; }
      assert s[..|s| - 1][k..] == s[k..][..|s| - 1 - k];
      TrimEndStopsAt(s[..|s| - 1], k);
      assert s[..|s| - 1][..k] == s[..k];
    }
  }

  /** `s.trim()`: drops whitespace at both ends. */
  function Trim(s: string): string {
    TrimEnd(TrimStart(s))
  }

  /**
   * `trim` keeps one contiguous part of `s`, removes only whitespace around it,
   * and leaves no whitespace at either end.
   */
  lemma TrimSpec(s: string)
    ensures var r := Trim(s); var i := |LeadingWhitespace(s)|;
      && i + |r| <= |s| && r == s[i..i + |r|]
      && AllWhitespace(s[..i]) && AllWhitespace(s[i + |r|..])
      && (r == [] || (!IsWhitespace(r[0]) && !IsWhitespace(r[|r| - 1])))
  {
    TrimStartSpec(s);
    var t := TrimStart(s);
    TrimEndSpec(t);
    var r := TrimEnd(t);
    var i := |LeadingWhitespace(s)|;
    assert t == s[i..];
    assert s[..i] == LeadingWhitespace(s);
    assert r == s[i..i + |r|];
    assert s[i + |r|..] == t[|r|..];
    if r != [] {
      assert r[0] == t[0];
    }
  }

  // ---------------------------------------------------------------------------
  // toLowerCase, startsWith, lastIndexOf

  /** ASCII case mapping; every other character is kept as it is. */
  function LowerChar(c: char): char {
    if 'A' <= c <= 'Z' then (c as int - 'A' as int + 'a' as int) as char else c
  }

  /** `s.toLowerCase()`, restricted to ASCII letters. */
  function ToLowerCase(s: string): (r: string)
    ensures |r| == |s|
  {
    if s == [] then [] else [LowerChar(s[0])] + ToLowerCase(s[1..])
  }

  /** `s.startsWith(prefix)`. */
  predicate StartsWith(s: string, prefix: string) {
    |prefix| <= |s| && s[..|prefix|] == prefix
  }

  /** `pat` occurs in `s` starting at index `i`. */
  predicate OccursAt(s: string, pat: string, i: int) {
    0 <= i && i + |pat| <= |s| && s[i..i + |pat|] == pat
  }

  /**
   * `s.lastIndexOf(pat, from)`: the largest index at or before `from` (clamped
   * below at 0) where `pat` starts, or -1 if there is none.
   */
  function LastIndexOf(s: string, pat: string, from: int): (r: int)
    ensures -1 <= r <= Max(from, 0)
    decreases Max(from, 0)
  {
    if OccursAt(s, pat, Max(from, 0)) then Max(from, 0)
    else if from <= 0 then -1
    else LastIndexOf(s, pat, from - 1)
  }

  /** `lastIndexOf` finds an occurrence, and no later one up to `from`; -1 means there is none. */
  lemma {:induction false} LastIndexOfSpec(s: string, pat: string, from: int)
    ensures var r := LastIndexOf(s, pat, from);
      && (r == -1 || OccursAt(s, pat, r))
      && forall j :: r < j <= Max(from, 0) ==> !OccursAt(s, pat, j)
    decreases Max(from, 0)
  {
    if !OccursAt(s, pat, Max(from, 0)) && from > 0 {
      LastIndexOfSpec(s, pat, from - 1);
    }
  }
}
