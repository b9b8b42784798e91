/** The JavaScript string built-ins the autofill rules rely on: `trim`,
    `includes`, and `toLowerCase` / `toUpperCase` restricted to ASCII. */
module JsText {

  /** JavaScript's WhiteSpace and LineTerminator code points: exactly what
      `String.prototype.trim` removes and what `\s` matches in a regular expression. */
  predicate IsSpace(c: char)
  {
    || c == ' ' || c == '\t' || c == '\n' || c == '\r'
    || c == '\U{000B}' || c == '\U{000C}' || c == '\U{00A0}' || c == '\U{1680}'
    || ('\U{2000}' <= c <= '\U{200A}')
    || c == '\U{2028}' || c == '\U{2029}' || c == '\U{202F}' || c == '\U{205F}'
    || c == '\U{3000}' || c == '\U{FEFF}'
  }

  /** The code points `.` does not match in a regular expression without the `s` flag. */
  predicate IsLineTerminator(c: char)
  {
    c == '\n' || c == '\r' || c == '\U{2028}' || c == '\U{2029}'
  }

  /** `\d` */
  predicate IsDigit(c: char)
  {
    '0' <= c <= '9'
  }

  /** `[A-Za-z0-9]` */
  predicate IsAsciiAlnum(c: char)
  {
    IsDigit(c) || 'a' <= c <= 'z' || 'A' <= c <= 'Z'
  }

  predicate AllSpace(s: string)
  {
    forall i :: 0 <= i < |s| ==> IsSpace(s[i])
  }

  /** Neither end of `s` is whitespace: what `trim` guarantees of its result. */
  predicate IsTrimmed(s: string)
  {
    s == [] || (!IsSpace(s[0]) && !IsSpace(s[|s| - 1]))
  }

  /** The number of whitespace characters `s` starts with. */
  function LeadingSpace(s: string): (n: nat)
    ensures n <= |s| && (n == |s| || !IsSpace(s[n]))
  {
    if |s| > 0 && IsSpace(s[0]) then LeadingSpace(s[1..]) + 1 else 0
  }

  /** The number of whitespace characters `s` ends with. */
  function TrailingSpace(s: string): (n: nat)
    ensures n <= |s| && (n == |s| || !IsSpace(s[|s| - n - 1]))
  {
    if |s| > 0 && IsSpace(s[|s| - 1]) then TrailingSpace(s[..|s| - 1]) + 1 else 0
  }

  lemma {:induction false} LeadingSpaceIsSpace(s: string)
    ensures AllSpace(s[..LeadingSpace(s)])
  {
    if |s| > 0 && IsSpace(s[0]) {
      LeadingSpaceIsSpace(s[1..]);
      assert s[..LeadingSpace(s)] == [s[0]] + s[1..][..LeadingSpace(s[1..])];
    }
  }

  lemma {:induction false} TrailingSpaceIsSpace(s: string)
    ensures AllSpace(s[|s| - TrailingSpace(s)..])
  {
    if |s| > 0 && IsSpace(s[|s| - 1]) {
      var p := s[..|s| - 1];
      TrailingSpaceIsSpace(p);
      assert s[|s| - TrailingSpace(s)..] == p[|p| - TrailingSpace(p)..] + [s[|s| - 1]];
    }
  }

  /** `s.trimEnd()`: `s` without its trailing whitespace. */
  function TrimEnd(s: string): (r: string)
    ensures r == [] || !IsSpace(r[|r| - 1])
  {
    s[..|s| - TrailingSpace(s)]
  }

  /** `s.trim()`: leading whitespace is dropped one character at a time, then
      trailing whitespace; the result has whitespace at neither end. */
  function Trim(s: string): (r: string)
    ensures IsTrimmed(r)
  {
    if |s| > 0 && IsSpace(s[0]) then
      Trim(s[1..])
    else
      var r := TrimEnd(s);
      assert r == [] || r[0] == s[0];
      r
  }

  /** `trim` is `trimStart` followed by `trimEnd`. */
  lemma {:induction false} TrimAfterLeading(s: string)
    ensures Trim(s) == TrimEnd(s[LeadingSpace(s)..])
  {
    if |s| > 0 && IsSpace(s[0]) {
      TrimAfterLeading(s[1..]);
      assert s[1..][LeadingSpace(s[1..])..] == s[LeadingSpace(s)..];
    }
  }

  /** `trim` returns a slice of its input, starting after the leading whitespace. */
  lemma TrimSlice(s: string)
    ensures LeadingSpace(s) + |Trim(s)| <= |s|
    ensures Trim(s) == s[LeadingSpace(s)..LeadingSpace(s) + |Trim(s)|]
  {
    var n := LeadingSpace(s);
    TrimAfterLeading(s);
    assert Trim(s) == s[n..][..|s| - n - TrailingSpace(s[n..])];
  }

  /** What `trim` drops before and after its result is whitespace. */
  lemma TrimDropsSpace(s: string)
    ensures LeadingSpace(s) + |Trim(s)| <= |s|
    ensures AllSpace(s[..LeadingSpace(s)])
    ensures AllSpace(s[LeadingSpace(s) + |Trim(s)|..])
  {
    var n := LeadingSpace(s);
    var t := s[n..];
    TrimAfterLeading(s);
    LeadingSpaceIsSpace(s);
    TrailingSpaceIsSpace(t);
    assert s[n + |Trim(s)|..] == t[|t| - TrailingSpace(t)..];
  }

  /** `trim` removes characters and never adds one. */
  lemma TrimKeeps(s: string, c: char)
    requires c in Trim(s)
    ensures c in s
  {
    TrimSlice(s);
    var r := Trim(s);
    var k :| 0 <= k < |r| && r[k] == c;
    assert s[LeadingSpace(s) + k] == c;
  }

  lemma TrimLacks(s: string, c: char)
    requires c !in s
    ensures c !in Trim(s)
  {
    if c in Trim(s) {
      TrimKeeps(s, c);
    }
  }

  /** A string that is already trimmed is left alone. */
  lemma TrimTrimmed(s: string)
    requires IsTrimmed(s)
    ensures Trim(s) == s
  {
    assert TrimEnd(s) == s[..|s|];
  }

  /** Whitespace in front does not change what `trim` returns. */
  lemma {:induction false} TrimAfterSpace(w: string, s: string)
    requires AllSpace(w)
    ensures Trim(w + s) == Trim(s)
    decreases |w|
  {
    if w != [] {
      assert (w + s)[1..] == w[1..] + s;
      TrimAfterSpace(w[1..], s);
    } else {
      assert w + s == s;
    }
  }

  /** A string of whitespace only trims to the empty string. */
  lemma TrimAllSpace(s: string)
    requires AllSpace(s)
    ensures Trim(s) == []
  {
    TrimAfterSpace(s, []);
    assert s + [] == s;
  }

  function LowerChar(c: char): char
  {
    if 'A' <= c <= 'Z' then (c as int - 'A' as int + 'a' as int) as char else c
  }

  function UpperChar(c: char): char
  {
    if 'a' <= c <= 'z' then (c as int - 'a' as int + 'A' as int) as char else c
  }

  /** `s.toLowerCase()` on ASCII letters; every other character is kept. */
  function Lower(s: string): (r: string)
    ensures |r| == |s| && forall i :: 0 <= i < |s| ==> r[i] == LowerChar(s[i])
  {
    seq(|s|, i requires 0 <= i < |s| => LowerChar(s[i]))
  }

  /** `s.toUpperCase()` on ASCII letters; every other character is kept. */
  function Upper(s: string): (r: string)
    ensures |r| == |s| && forall i :: 0 <= i < |s| ==> r[i] == UpperChar(s[i])
  {
    seq(|s|, i requires 0 <= i < |s| => UpperChar(s[i]))
  }

  lemma UpperOfUpper(s: string)
    ensures Upper(Upper(s)) == Upper(s)
  {
  }

  /** Upper-casing loses nothing that lower-casing keeps. */
  lemma LowerOfUpper(s: string)
    ensures Lower(Upper(s)) == Lower(s)
  {
  }

  /** Lower-casing twice is lower-casing once. */
  lemma LowerOfLower(s: string)
    ensures Lower(Lower(s)) == Lower(s)
  {
  }

  /** `pat` occurs in `s` starting at index `i`. */
  ghost predicate OccursAt(s: string, pat: string, i: int)
  {
    0 <= i && i + |pat| <= |s| && s[i..i + |pat|] == pat
  }

  /** `s.includes(pat)` */
  function Contains(s: string, pat: string): (r: bool)
    ensures r <==> exists i :: OccursAt(s, pat, i)
    decreases |s|
  {
    if |pat| > |s| then
      false
    else if s[..|pat|] == pat then
      assert OccursAt(s, pat, 0);
      true
    else
      OccursShift(s, pat);
      Contains(s[1..], pat)
  }

  lemma OccursShift(s: string, pat: string)
    requires |pat| <= |s| && s[..|pat|] != pat
    ensures (exists i :: OccursAt(s, pat, i)) <==> (exists i :: OccursAt(s[1..], pat, i))
  {
    if i :| OccursAt(s, pat, i) {
      assert i != 0;
      assert s[1..][i - 1..i - 1 + |pat|] == s[i..i + |pat|];
      assert OccursAt(s[1..], pat, i - 1);
    }
    if i :| OccursAt(s[1..], pat, i) {
      assert s[1..][i..i + |pat|] == s[i + 1..i + 1 + |pat|];
      assert OccursAt(s, pat, i + 1);
    }
  }

  /** Whatever contains `p + q` contains `p`: substring tests see prefixes of longer words. */
  lemma ContainsPrefix(s: string, p: string, q: string)
    requires Contains(s, p + q)
    ensures Contains(s, p)
  {
    var i :| OccursAt(s, p + q, i);
    assert s[i..i + |p|] == (p + q)[..|p|] == p;
    assert OccursAt(s, p, i);
  }

  /** Whatever contains `p + q + r` contains `q`. */
  lemma ContainsInner(s: string, p: string, q: string, r: string)
    requires Contains(s, p + q + r)
    ensures Contains(s, q)
  {
    var i :| OccursAt(s, p + q + r, i);
    var j := i + |p|;
    forall t | 0 <= t < |q|
      ensures s[j..j + |q|][t] == q[t]
    {
      assert s[j + t] == s[i..i + |p + q + r|][|p| + t] == (p + q + r)[|p| + t];
    }
    assert OccursAt(s, q, j);
  }

  /** A string containing `pat` contains every character of `pat`. */
  lemma ContainsChar(s: string, pat: string, c: char)
    requires Contains(s, pat) && c in pat
    ensures c in s
  {
    var i :| OccursAt(s, pat, i);
    var k :| 0 <= k < |pat| && pat[k] == c;
    assert s[i + k] == s[i..i + |pat|][k];
  }
}
