/** `parseFileName` of content.js: a file's display name becomes an optional
    leading number and a cleaned description. */
module FileNames {
  import opened Wrappers
  import opened JsText

  /** The result of `parseFileName`: `num` is `null` when the name has no number prefix. */
  datatype ParsedName = ParsedName(num: Option<nat>, desc: string)

  /** The two capture groups of the number-prefix regular expression. */
  datatype PrefixMatch = PrefixMatch(digits: string, rest: string)

  /** `[.\-–_:]`: the separators allowed after the leading number (`–` is the en dash). */
  predicate IsSeparator(c: char)
  {
    c == '.' || c == '-' || c == '\U{2013}' || c == '_' || c == ':'
  }

  predicate AllDigits(s: string)
  {
    forall i :: 0 <= i < |s| ==> IsDigit(s[i])
  }

  predicate NoLineTerminator(s: string)
  {
    forall i :: 0 <= i < |s| ==> !IsLineTerminator(s[i])
  }

  /** 10 to the power `n`. */
  function Pow10(n: nat): nat
  {
    if n == 0 then 1 else 10 * Pow10(n - 1)
  }

  /** `parseInt(ds, 10)` of a run of decimal digits: a number of `|ds|` digits
      is below 10 to the power `|ds|`, and a single digit is its own value. */
  function DecimalValue(ds: string): (v: nat)
    requires AllDigits(ds)
    ensures v < Pow10(|ds|)
    ensures |ds| == 1 ==> v == ds[0] as int - '0' as int
  {
    if ds == [] then 0 else 10 * DecimalValue(ds[..|ds| - 1]) + (ds[|ds| - 1] as int - '0' as int)
  }

  /** Leading zeros do not change the number: `01. Cover` is file 1. */
  lemma {:induction false} LeadingZero(ds: string)
    requires AllDigits(ds)
    ensures AllDigits(['0'] + ds) && DecimalValue(['0'] + ds) == DecimalValue(ds)
  {
    if ds != [] {
      var z := ['0'] + ds;
      assert z[..|z| - 1] == ['0'] + ds[..|ds| - 1];
      LeadingZero(ds[..|ds| - 1]);
    }
  }

  /** The first index at or after `i` that does not hold whitespace. */
  function SkipSpace(s: string, i: nat): (j: nat)
    requires i <= |s|
    ensures i <= j <= |s|
    ensures forall k :: i <= k < j ==> IsSpace(s[k])
    ensures j == |s| || !IsSpace(s[j])
    decreases |s| - i
  {
    if i < |s| && IsSpace(s[i]) then SkipSpace(s, i + 1) else i
  }

  /** The first index at or after `i` that does not hold a decimal digit. */
  function SkipDigits(s: string, i: nat): (j: nat)
    requires i <= |s|
    ensures i <= j <= |s|
    ensures forall k :: i <= k < j ==> IsDigit(s[k])
    ensures j == |s| || !IsDigit(s[j])
    decreases |s| - i
  {
    if i < |s| && IsDigit(s[i]) then SkipDigits(s, i + 1) else i
  }

  /** `name.match(/^\s*(\d+)\s*[.\-–_:]\s*(.+)$/i)`, with the greedy,
      backtracking semantics of JavaScript regular expressions. The whitespace
      after the separator is taken greedily; only when that leaves nothing for
      `(.+)` does the engine give back one whitespace character to it. */
  function MatchNumberPrefix(name: string): (m: Option<PrefixMatch>)
    ensures m.Some? ==> |m.value.digits| > 0 && AllDigits(m.value.digits)
  {
    var a := SkipSpace(name, 0);
    var b := SkipDigits(name, a);
    var c := SkipSpace(name, b);
    if b == a || c == |name| || !IsSeparator(name[c]) then
      None
    else
      var d := SkipSpace(name, c + 1);
      if d < |name| then
        if NoLineTerminator(name[d..]) then Some(PrefixMatch(name[a..b], name[d..])) else None
      else if c + 1 < d && !IsLineTerminator(name[d - 1]) then
        Some(PrefixMatch(name[a..b], name[d - 1..]))
      else
        None
  }

  /** Positions `a <= b <= c < d < |name|` cut `name` into whitespace
      `[0, a)`, digits `[a, b)`, whitespace `[b, c)`, one separator at `c`,
      whitespace `(c, d)` and a non-empty rest `[d, |name|)` without line
      terminators: a way for the number-prefix regular expression to match
      the whole of `name`, with `name[a..b]` and `name[d..]` as its groups. */
  ghost predicate IsNumberedSplit(name: string, a: int, b: int, c: int, d: int)
  {
    && 0 <= a < b <= c < d < |name|
    && (forall k :: 0 <= k < a ==> IsSpace(name[k]))
    && (forall k :: a <= k < b ==> IsDigit(name[k]))
    && (forall k :: b <= k < c ==> IsSpace(name[k]))
    && IsSeparator(name[c])
    && (forall k :: c < k < d ==> IsSpace(name[k]))
    && (forall k :: d <= k < |name| ==> !IsLineTerminator(name[k]))
  }

  ghost predicate HasNumberPrefix(name: string)
  {
    exists a, b, c, d :: IsNumberedSplit(name, a, b, c, d)
  }

  /** Every match the matcher reports comes from a split of the name, with the
      captured groups as the split's digits and rest. */
  lemma MatchSound(name: string)
    requires MatchNumberPrefix(name).Some?
    ensures var m := MatchNumberPrefix(name).value;
      exists a, b, c, d :: IsNumberedSplit(name, a, b, c, d) && m.digits == name[a..b] && m.rest == name[d..]
  {
    var a := SkipSpace(name, 0);
    var b := SkipDigits(name, a);
    var c := SkipSpace(name, b);
    var d := SkipSpace(name, c + 1);
    var e := if d < |name| then d else d - 1;
    assert IsNumberedSplit(name, a, b, c, e);
  }

  /** Every split of the name is found by the matcher, with the same digits and
      a rest that differs from the split's at most by leading whitespace. */
  lemma MatchComplete(name: string, a: int, b: int, c: int, d: int)
    requires IsNumberedSplit(name, a, b, c, d)
    ensures MatchNumberPrefix(name).Some?
    ensures MatchNumberPrefix(name).value.digits == name[a..b]
    ensures Trim(MatchNumberPrefix(name).value.rest) == Trim(name[d..])
  {
    SplitPrefix(name, a, b, c, d);
    SplitRest(name, c, d);
    MatchFromScans(name, a, b, c);
  }

  /** What the matcher returns once the scans have found the digits `[a, b)`
      and the separator at `c`. */
  lemma MatchFromScans(name: string, a: int, b: int, c: int)
    requires 0 <= a < b <= c < |name| && IsSeparator(name[c])
    requires SkipSpace(name, 0) == a && SkipDigits(name, a) == b && SkipSpace(name, b) == c
    ensures var e := SkipSpace(name, c + 1);
      MatchNumberPrefix(name) ==
        if e < |name| then
          if NoLineTerminator(name[e..]) then Some(PrefixMatch(name[a..b], name[e..])) else None
        else if c + 1 < e && !IsLineTerminator(name[e - 1]) then Some(PrefixMatch(name[a..b], name[e - 1..]))
        else None
  {
  }

  /** The scans for the leading whitespace, the digits and the gap stop where the split says. */
  lemma SplitPrefix(name: string, a: int, b: int, c: int, d: int)
    requires IsNumberedSplit(name, a, b, c, d)
    ensures SkipSpace(name, 0) == a && SkipDigits(name, a) == b && SkipSpace(name, b) == c
  {
    assert IsDigit(name[a]) && !IsSpace(name[a]);
    assert !IsDigit(name[b]) by {
      if b < c { assert IsSpace(name[b]); } else { assert IsSeparator(name[b]); }
    }
  }

  /** Whatever the greedy scan after the separator leaves for `(.+)` trims like the split's rest. */
  lemma SplitRest(name: string, c: int, d: int)
    requires 0 <= c < d < |name|
    requires forall k :: c < k < d ==> IsSpace(name[k])
    requires forall k :: d <= k < |name| ==> !IsLineTerminator(name[k])
    ensures var e := SkipSpace(name, c + 1);
      e < |name| ==> NoLineTerminator(name[e..]) && Trim(name[e..]) == Trim(name[d..])
    ensures var e := SkipSpace(name, c + 1);
      e == |name| ==> c + 1 < e && !IsLineTerminator(name[e - 1]) && Trim(name[e - 1..]) == Trim(name[d..])
  {
    var e := SkipSpace(name, c + 1);
    if e <= d {
      SpaceBefore(name, e, d);
    } else if e < |name| {
      SpaceBefore(name, d, e);
    } else {
      RestAllSpace(name, d);
    }
  }

  /** A rest made of whitespace only trims, like its last character, to nothing. */
  lemma RestAllSpace(name: string, d: int)
    requires 0 <= d < |name|
    requires forall k :: d <= k < |name| ==> IsSpace(name[k])
    ensures Trim(name[d..]) == [] == Trim(name[|name| - 1..])
  {
    assert AllSpace(name[d..]);
    TrimAllSpace(name[d..]);
    TrimAllSpace(name[|name| - 1..]);
  }

  /** Dropping whitespace `[i, j)` in front of `name[j..]` does not change its trimmed form. */
  lemma SpaceBefore(name: string, i: int, j: int)
    requires 0 <= i <= j <= |name|
    requires forall k :: i <= k < j ==> IsSpace(name[k])
    ensures Trim(name[i..]) == Trim(name[j..])
  {
    assert AllSpace(name[i..j]);
    SliceJoin(name, i, j);
    TrimAfterSpace(name[i..j], name[j..]);
  }

  lemma SliceJoin(s: string, i: int, j: int)
    requires 0 <= i <= j <= |s|
    ensures s[i..j] + s[j..] == s[i..]
  {
  }

  /** The number prefix is recognised exactly when such a split exists. */
  lemma MatchIff(name: string)
    ensures MatchNumberPrefix(name).Some? <==> HasNumberPrefix(name)
  {
    if MatchNumberPrefix(name).Some? {
      MatchSound(name);
    }
    if HasNumberPrefix(name) {
      var a, b, c, d :| IsNumberedSplit(name, a, b, c, d);
      MatchComplete(name, a, b, c, d);
    }
  }

  /** `d.split("/")[0]`: the part of `d` before its first `/`. */
  function BeforeSlash(d: string): (h: string)
    ensures h <= d && '/' !in h
    ensures |h| < |d| ==> d[|h|] == '/'
  {
    if d == [] || d[0] == '/' then [] else [d[0]] + BeforeSlash(d[1..])
  }

  /** The regular expression `/\.[A-Za-z0-9]+$/` matches `s` at index `i`. */
  predicate ExtensionAt(s: string, i: int)
  {
    0 <= i && i + 1 < |s| && s[i] == '.' && forall k :: i < k < |s| ==> IsAsciiAlnum(s[k])
  }

  /** The number of ASCII letters and digits at the end of `s`. */
  function AlnumTail(s: string): (n: nat)
    ensures n <= |s|
    ensures forall k :: |s| - n <= k < |s| ==> IsAsciiAlnum(s[k])
    ensures n == |s| || !IsAsciiAlnum(s[|s| - n - 1])
  {
    if s != [] && IsAsciiAlnum(s[|s| - 1]) then AlnumTail(s[..|s| - 1]) + 1 else 0
  }

  /** `s.replace(/\.[A-Za-z0-9]+$/i, "")`: the one place the pattern can match
      is cut off, and a string it does not match is returned as it is. */
  function StripExtension(s: string): (r: string)
    ensures r <= s
    ensures forall i :: ExtensionAt(s, i) ==> r == s[..i]
    ensures (forall i :: !ExtensionAt(s, i)) ==> r == s
  {
    var n := AlnumTail(s);
    if 0 < n < |s| && s[|s| - n - 1] == '.' then
      assert ExtensionAt(s, |s| - n - 1);
      s[..|s| - n - 1]
    else
      s
  }

  /** The pattern matches in at most one place, so exactly one extension goes. */
  lemma ExtensionUnique(s: string, i: int, j: int)
    requires ExtensionAt(s, i) && ExtensionAt(s, j)
    ensures i == j
  {
  }

  /** The description cleanup of `parseFileName`: keep what precedes the first
      `/`, drop one trailing extension, trim. */
  function Tidy(d: string): (r: string)
    ensures '/' !in r
    ensures IsTrimmed(r)
  {
    var head := if '/' in d then TrimLacks(BeforeSlash(d), '/'); Trim(BeforeSlash(d)) else d;
    var stripped := StripExtension(head);
    TrimLacks(stripped, '/');
    Trim(stripped)
  }

  /** `parseFileName(raw)` */
  function ParseFileName(raw: string): (p: ParsedName)
    ensures '/' !in p.desc
    ensures IsTrimmed(p.desc)
  {
    var name := Trim(raw);
    match MatchNumberPrefix(name)
    case Some(m) => ParsedName(Some(DecimalValue(m.digits)), Tidy(Trim(m.rest)))
    case None => ParsedName(None, Tidy(name))
  }

  /** A name with a number prefix yields that number, and a description built
      from what follows the separator. */
  lemma ParseNumbered(raw: string, a: int, b: int, c: int, d: int)
    requires IsNumberedSplit(Trim(raw), a, b, c, d)
    ensures AllDigits(Trim(raw)[a..b])
    ensures ParseFileName(raw) == ParsedName(Some(DecimalValue(Trim(raw)[a..b])), Tidy(Trim(Trim(raw)[d..])))
  {
    MatchComplete(Trim(raw), a, b, c, d);
  }

  /** A name without a number prefix yields no number, and a description built
      from the whole trimmed name. */
  lemma ParseUnnumbered(raw: string)
    requires !HasNumberPrefix(Trim(raw))
    ensures ParseFileName(raw) == ParsedName(None, Tidy(Trim(raw)))
  {
    MatchIff(Trim(raw));
  }

  /** Only the last extension goes: a double extension keeps its first part. */
  lemma StripOneExtension()
    ensures StripExtension("skripsi.tar.gz") == "skripsi.tar"
  {
    assert ExtensionAt("skripsi.tar.gz", 11);
  }
}
