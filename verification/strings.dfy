/**
  The handful of Python `str` and `os.path` operations the scripts rely on,
  over `string` (`seq<char>`, one element per Unicode code point as in Python):
  substring membership (`p in s`), `startswith`/`endswith`, `strip()`,
  `", ".join`, `split("-")[-1]`, `int()` on a digit string, a first-occurrence
  search and `os.path.join`.
 */
module Strings {
  import opened Wrappers

  /** Python's `str.isspace` for one character: the characters `str.strip()`
      removes and the regular-expression class `\s` matches. */
  predicate IsSpace(c: char) {
    || ('\t' <= c <= '\r')
    || ('\U{1C}' <= c <= '\U{1F}')
    || c == ' '
    || c == '\U{85}'
    || c == '\U{A0}'
    || c == '\U{1680}'
    || ('\U{2000}' <= c <= '\U{200A}')
    || c == '\U{2028}'
    || c == '\U{2029}'
    || c == '\U{202F}'
    || c == '\U{205F}'
    || c == '\U{3000}'
  }

  predicate AllSpace(s: string) {
    forall k :: 0 <= k < |s| ==> IsSpace(s[k])
  }

  /** `p` occurs in `s` starting at offset `i`. */
  predicate OccursAt(s: string, p: string, i: int) {
    0 <= i && i + |p| <= |s| && s[i..i + |p|] == p
  }

  /** `p in s`: `p` occurs in `s` at some offset. */
  predicate Contains(s: string, p: string) {
    exists i | 0 <= i <= |s| - |p| :: OccursAt(s, p, i)
  }

  lemma ContainsAt(s: string, p: string, i: nat)
    requires i + |p| <= |s| && s[i..i + |p|] == p
    ensures Contains(s, p)
  {
    assert OccursAt(s, p, i);
  }

  /** A slice of a slice is a slice. */
  lemma SliceOfSlice(s: string, a: nat, b: nat, j: nat, len: nat)
    requires a <= j && j + len <= b <= |s|
    ensures s[j..j + len] == s[a..b][j - a..j - a + len]
  {
    var t := s[a..b];
    assert forall k :: j - a <= k < j - a + len ==> t[k] == s[a + k];
  }

  predicate StartsWith(s: string, p: string) {
    |p| <= |s| && s[..|p|] == p
  }

  predicate EndsWith(s: string, p: string) {
    |p| <= |s| && s[|s| - |p|..] == p
  }

  /** `s.lstrip()`: the suffix of `s` left after dropping its leading whitespace. */
  function TrimStart(s: string): (r: string)
    ensures |r| <= |s|
    ensures r == [] || !IsSpace(r[0])
  {
    if |s| > 0 && IsSpace(s[0]) then TrimStart(s[1..]) else s
  }

  /** `lstrip()` only drops a prefix, and what it drops is whitespace. */
  lemma {:induction false} TrimStartSplits(s: string)
    ensures s == s[..|s| - |TrimStart(s)|] + TrimStart(s)
    ensures AllSpace(s[..|s| - |TrimStart(s)|])
  {
    if |s| > 0 && IsSpace(s[0]) {
      TrimStartSplits(s[1..]);
      var a := |s| - |TrimStart(s)|;
      assert s[..a] == [s[0]] + s[1..][..a - 1];
    }
  }

  /** `s.rstrip()`: the prefix of `s` left after dropping its trailing whitespace. */
  function TrimEnd(s: string): (r: string)
    ensures |r| <= |s| && r == s[..|r|]
    ensures r == [] || !IsSpace(r[|r| - 1])
  {
    if |s| > 0 && IsSpace(s[|s| - 1]) then
      var front := s[..|s| - 1];
      var r := TrimEnd(front);
      assert r == front[..|r|] == s[..|r|];
      r
    else s
  }

  /** `rstrip()` only drops a suffix, and what it drops is whitespace. */
  lemma {:induction false} TrimEndSplits(s: string)
    ensures s == TrimEnd(s) + s[|TrimEnd(s)|..]
    ensures AllSpace(s[|TrimEnd(s)|..])
  {
    var b := |TrimEnd(s)|;
    assert s == s[..b] + s[b..];
    if |s| > 0 && IsSpace(s[|s| - 1]) {
      var front := s[..|s| - 1];
      TrimEndSplits(front);
      assert s[b..] == front[b..] + [s[|s| - 1]];
    }
  }

  /** `r` is `s` with its leading and trailing whitespace removed and nothing
      else: `s` is whitespace, then `r`, then whitespace, and `r` neither
      starts nor ends with whitespace itself. This pins `r` down uniquely. */
  ghost predicate IsStripOf(s: string, r: string) {
    && (exists lead, trail :: s == lead + r + trail && AllSpace(lead) && AllSpace(trail))
    && (r == [] || (!IsSpace(r[0]) && !IsSpace(r[|r| - 1])))
  }

  /** `s.strip()`. */
  function Strip(s: string): (r: string)
    ensures |r| <= |s|
    ensures r == [] || (!IsSpace(r[0]) && !IsSpace(r[|r| - 1]))
  {
    var t := TrimStart(s);
    var r := TrimEnd(t);
    assert r != [] ==> r[0] == t[0];
    r
  }

  /** `strip()` returns the strip of its input. */
  lemma StripIsStrip(s: string)
    ensures IsStripOf(s, Strip(s))
  {
    var t := TrimStart(s);
    var r := TrimEnd(t);
    TrimStartSplits(s);
    TrimEndSplits(t);
    var lead := s[..|s| - |t|];
    var trail := t[|r|..];
    assert s == lead + r + trail;
  }

  /** An occurrence past a prefix is an occurrence in what follows the prefix. */
  lemma OccursAfterPrefix(lead: string, t: string, w: string, i: nat)
    requires |lead| <= i && OccursAt(lead + t, w, i)
    ensures OccursAt(t, w, i - |lead|)
  {
    var s := lead + t;
    var b := i - |lead|;
    forall k | 0 <= k < |w| ensures t[b + k] == w[k] {
      assert t[b + k] == s[i + k] == s[i..i + |w|][k];
    }
    assert t[b..b + |w|] == w;
  }

  /** A word that does not start with whitespace survives `lstrip()`. */
  lemma TrimStartKeepsWord(s: string, w: string, i: nat)
    requires OccursAt(s, w, i) && |w| > 0 && !IsSpace(w[0])
    ensures OccursAt(TrimStart(s), w, i - (|s| - |TrimStart(s)|))
  {
    var t := TrimStart(s);
    var a := |s| - |t|;
    TrimStartSplits(s);
    assert s[i] == w[0] by { assert s[i..i + |w|][0] == s[i]; }
    assert a <= i;
    OccursAfterPrefix(s[..a], t, w, i);
  }

  /** A word that does not end with whitespace survives `rstrip()`. */
  lemma TrimEndKeepsWord(t: string, w: string, i: nat)
    requires OccursAt(t, w, i) && |w| > 0 && !IsSpace(w[|w| - 1])
    ensures OccursAt(TrimEnd(t), w, i)
  {
    var r := TrimEnd(t);
    var j := i + |w| - 1;
    TrimEndSplits(t);
    assert t[j] == w[|w| - 1] by { assert t[i..i + |w|][|w| - 1] == t[j]; }
    assert j < |r|;
    assert r[i..i + |w|] == t[i..i + |w|];
  }

  /** Stripping never removes a word that neither starts nor ends with whitespace. */
  lemma StripKeepsWord(s: string, w: string)
    requires Contains(s, w) && |w| > 0 && !IsSpace(w[0]) && !IsSpace(w[|w| - 1])
    ensures Contains(Strip(s), w)
  {
    var i :| 0 <= i <= |s| - |w| && OccursAt(s, w, i);
    var t := TrimStart(s);
    TrimStartKeepsWord(s, w, i);
    var k := i - (|s| - |t|);
    TrimEndKeepsWord(t, w, k);
    assert OccursAt(Strip(s), w, k);
  }

  /** Where a strip sits in `s == lead + r + trail`: whitespace before it and
      after it, and non-space characters at both of its ends. */
  lemma StripBounds(s: string, lead: string, r: string, trail: string)
    requires s == lead + r + trail && AllSpace(lead) && AllSpace(trail)
    requires r == [] || (!IsSpace(r[0]) && !IsSpace(r[|r| - 1]))
    ensures forall k :: 0 <= k < |lead| ==> IsSpace(s[k])
    ensures forall k :: |lead| + |r| <= k < |s| ==> IsSpace(s[k])
    ensures r != [] ==> !IsSpace(s[|lead|]) && !IsSpace(s[|lead| + |r| - 1])
    ensures forall k :: 0 <= k < |r| ==> r[k] == s[|lead| + k]
  {
  }

  /** `IsStripOf` pins the strip down: two strips of the same string agree. */
  lemma StripUnique(s: string, r1: string, r2: string)
    requires IsStripOf(s, r1) && IsStripOf(s, r2)
    ensures r1 == r2
  {
    var lead1, trail1 :| s == lead1 + r1 + trail1 && AllSpace(lead1) && AllSpace(trail1);
    var lead2, trail2 :| s == lead2 + r2 + trail2 && AllSpace(lead2) && AllSpace(trail2);
    StripBounds(s, lead1, r1, trail1);
    StripBounds(s, lead2, r2, trail2);
    if r1 != [] && r2 != [] {
      assert |lead1| == |lead2|;
      assert |r1| == |r2|;
    }
  }

  /** Whitespace followed by whitespace is whitespace. */
  lemma AllSpaceConcat(x: string, y: string)
    requires AllSpace(x) && AllSpace(y)
    ensures AllSpace(x + y)
  {
    assert forall k :: 0 <= k < |x + y| ==> (x + y)[k] == if k < |x| then x[k] else y[k - |x|];
  }

  /** A strip of `s` is also a strip of `s` with whitespace around it. */
  lemma StripOfPadded(ws1: string, s: string, ws2: string, r: string)
    requires AllSpace(ws1) && AllSpace(ws2) && IsStripOf(s, r)
    ensures IsStripOf(ws1 + s + ws2, r)
  {
    var lead, trail :| s == lead + r + trail && AllSpace(lead) && AllSpace(trail);
    AllSpaceConcat(ws1, lead);
    AllSpaceConcat(trail, ws2);
    assert ws1 + s + ws2 == (ws1 + lead) + r + (trail + ws2);
  }

  /** Whitespace around a string does not change what `strip()` returns. */
  lemma StripIgnoresPadding(ws1: string, s: string, ws2: string)
    requires AllSpace(ws1) && AllSpace(ws2)
    ensures Strip(ws1 + s + ws2) == Strip(s)
  {
    StripIsStrip(s);
    StripIsStrip(ws1 + s + ws2);
    StripOfPadded(ws1, s, ws2, Strip(s));
    StripUnique(ws1 + s + ws2, Strip(s), Strip(ws1 + s + ws2));
  }

  /** `sep.join(parts)`. */
  function Join(parts: seq<string>, sep: string): string {
    if |parts| == 0 then ""
    else if |parts| == 1 then parts[0]
    else parts[0] + sep + Join(parts[1..], sep)
  }

  /** `s.split(c)[-1]`: the part of `s` after its last `c`, or all of `s` when
      `c` does not occur. */
  function AfterLast(s: string, c: char): (r: string)
    ensures |r| <= |s| && r == s[|s| - |r|..]
    ensures c !in r
    ensures |r| < |s| ==> s[|s| - |r| - 1] == c
  {
    if |s| == 0 then ""
    else if s[|s| - 1] == c then ""
    else AfterLast(s[..|s| - 1], c) + [s[|s| - 1]]
  }

  /** The three facts `AfterLast` promises pin its result down: at most one
      suffix of `s` is free of `c` and preceded by `c` (unless it is all of `s`). */
  lemma AfterLastUnique(s: string, c: char, r1: string, r2: string)
    requires |r1| <= |s| && r1 == s[|s| - |r1|..] && c !in r1 && (|r1| < |s| ==> s[|s| - |r1| - 1] == c)
    requires |r2| <= |s| && r2 == s[|s| - |r2|..] && c !in r2 && (|r2| < |s| ==> s[|s| - |r2| - 1] == c)
    ensures r1 == r2
  {
    assert forall k :: |s| - |r1| <= k < |s| ==> s[k] == r1[k - (|s| - |r1|)];
    assert forall k :: |s| - |r2| <= k < |s| ==> s[k] == r2[k - (|s| - |r2|)];
  }

  /** Whatever precedes the last `c` does not affect `split(c)[-1]`. */
  lemma AfterLastOfSuffix(prefix: string, s: string, c: char)
    requires c in s
    ensures AfterLast(prefix + s, c) == AfterLast(s, c)
  {
    var t := prefix + s;
    var r := AfterLast(s, c);
    assert |r| == |s| ==> r == s;
    assert t[|t| - |r|..] == s[|s| - |r|..];
    assert t[|t| - |r| - 1] == s[|s| - |r| - 1];
    AfterLastUnique(t, c, r, AfterLast(t, c));
  }

  predicate IsDigits(s: string) {
    |s| > 0 && forall k :: 0 <= k < |s| ==> '0' <= s[k] <= '9'
  }

  /** `int(s)` for a string of ASCII decimal digits. */
  function DigitsValue(s: string): nat
    requires forall k :: 0 <= k < |s| ==> '0' <= s[k] <= '9'
  {
    if |s| == 0 then 0
    else DigitsValue(s[..|s| - 1]) * 10 + ((s[|s| - 1] as int) - ('0' as int))
  }

  /** The first offset at or after `k` where `p` occurs in `s`: what
      `s.find(p, k)` returns, with `None` for `-1`. */
  function FindFrom(s: string, p: string, k: nat): (r: Option<nat>)
    ensures r.Some? ==> k <= r.value && OccursAt(s, p, r.value)
    ensures r.Some? ==> forall j :: k <= j < r.value ==> !OccursAt(s, p, j)
    ensures r.None? ==> forall j :: k <= j ==> !OccursAt(s, p, j)
    decreases |s| - k
  {
    if k + |p| > |s| then None
    else if s[k..k + |p|] == p then Some(k)
    else FindFrom(s, p, k + 1)
  }

  /** The contract of `FindFrom` pins its result down: an occurrence at `j`
      with none between `k` and `j` is the one found. */
  lemma FindFromIs(s: string, p: string, k: nat, j: nat)
    requires k <= j && OccursAt(s, p, j)
    requires forall i :: k <= i < j ==> !OccursAt(s, p, i)
    ensures FindFrom(s, p, k) == Some(j)
  {
  }

  /** `os.path.join(a, b)` for two relative or absolute POSIX paths. */
  function PathJoin(a: string, b: string): string {
    if StartsWith(b, "/") || a == "" then b
    else if EndsWith(a, "/") then a + b
    else a + "/" + b
  }

  /** Joining onto a relative directory gives an absolute path exactly when
      the second component is absolute. */
  lemma PathJoinAbsolute(a: string, b: string)
    requires a != "" && !StartsWith(a, "/")
    ensures StartsWith(PathJoin(a, b), "/") <==> StartsWith(b, "/")
  {
    if !StartsWith(b, "/") {
      var p := PathJoin(a, b);
      assert p[0] == a[0];
      assert p[..1] == [p[0]] && a[..1] == [a[0]];
    }
  }

  /** Joining onto a relative directory loses nothing: the joined path
      determines the second component. */
  lemma PathJoinInjective(a: string, b1: string, b2: string)
    requires a != "" && !StartsWith(a, "/")
    requires PathJoin(a, b1) == PathJoin(a, b2)
    ensures b1 == b2
  {
    PathJoinAbsolute(a, b1);
    PathJoinAbsolute(a, b2);
    if !StartsWith(b1, "/") {
      var p := PathJoin(a, b1);
      var n := if EndsWith(a, "/") then |a| else |a| + 1;
      assert b1 == p[n..] && b2 == p[n..];
    }
  }
}
