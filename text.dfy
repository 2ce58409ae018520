/** The Python `str` operations the two scripts rely on (`in`, `strip`, `startswith`,
    `split(sep)[1]`, and what `os.path.join` tests), over `string`, with the helpers behind
    them (`isspace`, `lstrip`/`rstrip`, `find`, `split(sep)[0]`, `endswith`).
    A Dafny `char` is a Unicode scalar value; a Python `str` element is a code point, which
    may also be a lone surrogate. Strings here hold scalar values only, and `|s|` is
    Python's `len(s)` on them. */
module Text {
  import opened Wrappers

  /** Python 3's `c.isspace()`: the characters that `str.strip()` removes by default. */
  predicate IsSpace(c: char) {
    || c == ' '
    || ('\t' <= c <= '\r')
    || ('\U{1C}' <= c <= '\U{1F}')
    || c == '\U{85}' || c == '\U{A0}' || c == '\U{1680}'
    || ('\U{2000}' <= c <= '\U{200A}')
    || c == '\U{2028}' || c == '\U{2029}' || c == '\U{202F}' || c == '\U{205F}' || c == '\U{3000}'
  }

  /** Every character of `s` is whitespace (so `s.strip()` is empty). */
  predicate AllSpace(s: string) {
    forall i :: 0 <= i < |s| ==> IsSpace(s[i])
  }

  /** `s.lstrip()`: the suffix of `s` left after dropping its leading whitespace. */
  function TrimLeft(s: string): (r: string)
    ensures |r| <= |s| && r == s[|s| - |r|..]
    ensures forall i :: 0 <= i < |s| - |r| ==> IsSpace(s[i])
    ensures r == [] || !IsSpace(r[0])
  {
    if |s| > 0 && IsSpace(s[0]) then TrimLeft(s[1..]) else s
  }

  /** `s.rstrip()`: the prefix of `s` left after dropping its trailing whitespace. */
  function TrimRight(s: string): (r: string)
    ensures |r| <= |s| && r == s[..|r|]
    ensures forall i :: |r| <= i < |s| ==> IsSpace(s[i])
    ensures r == [] || !IsSpace(r[|r| - 1])
  {
    if |s| > 0 && IsSpace(s[|s| - 1]) then TrimRight(s[..|s| - 1]) else s
  }

  /** `s.strip()`: what is left of `s` without its leading and trailing whitespace. */
  function Strip(s: string): (r: string)
    ensures |r| <= |s|
    ensures r == [] || (!IsSpace(r[0]) && !IsSpace(r[|r| - 1]))
  {
    TrimRight(TrimLeft(s))
  }

  /** `s.strip()` is empty exactly when `s` is all whitespace. */
  lemma StripEmptyIffAllSpace(s: string)
    ensures Strip(s) == [] <==> AllSpace(s)
  {
    var l := TrimLeft(s);
    assert forall i :: |s| - |l| <= i < |s| ==> s[i] == l[i - (|s| - |l|)];
  }

  /** `s.startswith(p)`. */
  predicate StartsWith(s: string, p: string) {
    |p| <= |s| && s[..|p|] == p
  }

  /** `s.endswith(p)`. */
  predicate EndsWith(s: string, p: string) {
    |p| <= |s| && s[|s| - |p|..] == p
  }

  /** `p` occurs in `s` starting at index `i`. */
  predicate OccursAt(s: string, p: string, i: nat) {
    i + |p| <= |s| && s[i..i + |p|] == p
  }

  /** `i` is where `p` occurs first in `s`. */
  predicate FirstOccurrence(s: string, p: string, i: nat) {
    OccursAt(s, p, i) && forall j: nat :: j < i ==> !OccursAt(s, p, j)
  }

  /** The least index at or after `from` where `p` occurs in `s`, if any. */
  function FindFrom(s: string, p: string, from: nat): (r: Option<nat>)
    requires from <= |s|
    ensures r.Some? ==> from <= r.value && OccursAt(s, p, r.value)
    ensures r.Some? ==> forall j: nat :: from <= j < r.value ==> !OccursAt(s, p, j)
    ensures r.None? ==> forall j: nat :: from <= j ==> !OccursAt(s, p, j)
    decreases |s| - from
  {
    if OccursAt(s, p, from) then Some(from)
    else if from == |s| then None
    else FindFrom(s, p, from + 1)
  }

  /** `s.find(p)`, with `None` for Python's `-1`: the first occurrence of `p`, if any. */
  function Find(s: string, p: string): (r: Option<nat>)
    ensures r.Some? ==> FirstOccurrence(s, p, r.value)
    ensures r.None? ==> forall j: nat :: !OccursAt(s, p, j)
  {
    FindFrom(s, p, 0)
  }

  /** `p in s`. */
  predicate Contains(s: string, p: string) {
    Find(s, p).Some?
  }

  /** `p in s` holds exactly when `p` occurs somewhere in `s`. */
  lemma ContainsIffOccurs(s: string, p: string)
    ensures Contains(s, p) <==> exists i: nat | i <= |s| :: OccursAt(s, p, i)
  {
    if Contains(s, p) {
      assert OccursAt(s, p, Find(s, p).value);
    }
  }

  /** `s.split(sep)[0]`: the text before the first occurrence of `sep`, or all of `s`. */
  function SplitFirst(s: string, sep: string): (r: string)
    ensures |r| <= |s| && r == s[..|r|]
  {
    match Find(s, sep)
    case Some(j) => s[..j]
    case None => s
  }

  /** `s.split(sep)[1]`, which the scripts only evaluate after checking `sep in s`:
      the text after the first occurrence of `sep`, up to the next one or to the end. */
  function SplitSecond(s: string, sep: string): (r: string)
    requires sep != "" && Contains(s, sep)
  {
    SplitFirst(s[Find(s, sep).value + |sep|..], sep)
  }

  /** `r` is the piece of `s` that starts right after the occurrence of `sep` at `i`
      and runs to the next occurrence of `sep` or to the end of `s`. */
  predicate PieceAfter(s: string, sep: string, i: nat, r: string) {
    && i + |sep| + |r| <= |s|
    && s[i + |sep|..i + |sep| + |r|] == r
    && (i + |sep| + |r| == |s| || OccursAt(s, sep, i + |sep| + |r|))
    && forall j: nat :: i + |sep| <= j < i + |sep| + |r| ==> !OccursAt(s, sep, j)
  }

  /** Occurrences in a suffix `s[k..]` are the occurrences in `s` shifted by `k`. */
  lemma OccursInSuffix(s: string, p: string, k: nat, j: nat)
    requires k <= |s|
    ensures OccursAt(s[k..], p, j) <==> OccursAt(s, p, k + j)
  {
    if j + |p| <= |s| - k {
      assert s[k..][j..j + |p|] == s[k + j..k + j + |p|];
    }
  }

  /** The independent description of `SplitSecond`: `s` is (text before the first `sep`)
      + `sep` + `r` + (either nothing or another `sep` and the rest), and no `sep` starts
      inside `r`. */
  lemma SplitSecondBetweenOccurrences(s: string, sep: string)
    requires sep != "" && Contains(s, sep)
    ensures Find(s, sep).Some?
    ensures FirstOccurrence(s, sep, Find(s, sep).value)
    ensures PieceAfter(s, sep, Find(s, sep).value, SplitSecond(s, sep))
  {
    var i := Find(s, sep).value;
    PieceOfSuffix(s, sep, i);
    assert SplitSecond(s, sep) == SplitFirst(s[i + |sep|..], sep);
  }

  /** `SplitFirst` stops at the first occurrence of `sep` or at the end. */
  lemma SplitFirstStops(t: string, sep: string)
    ensures var r := SplitFirst(t, sep);
            && (|r| == |t| || OccursAt(t, sep, |r|))
            && forall j: nat :: j < |r| ==> !OccursAt(t, sep, j)
  {
  }

  /** A prefix `r` of `s[k..]` that stops at the first `sep` of `s[k..]` stops at the
      same place in `s`. */
  lemma StopsInSuffix(s: string, sep: string, k: nat, r: string)
    requires k <= |s| && |r| <= |s| - k && r == s[k..][..|r|]
    requires |r| == |s| - k || OccursAt(s[k..], sep, |r|)
    requires forall j: nat :: j < |r| ==> !OccursAt(s[k..], sep, j)
    ensures s[k..k + |r|] == r
    ensures k + |r| == |s| || OccursAt(s, sep, k + |r|)
    ensures forall m: nat :: k <= m < k + |r| ==> !OccursAt(s, sep, m)
  {
    assert s[k..][..|r|] == s[k..k + |r|];
    OccursInSuffix(s, sep, k, |r|);
    forall m: nat | k <= m < k + |r| ensures !OccursAt(s, sep, m) {
      OccursInSuffix(s, sep, k, m - k);
    }
  }

  /** What `SplitFirst` cuts from the text after position `i + |sep|` is a `PieceAfter`. */
  lemma PieceOfSuffix(s: string, sep: string, i: nat)
    requires i + |sep| <= |s|
    ensures PieceAfter(s, sep, i, SplitFirst(s[i + |sep|..], sep))
  {
    var k := i + |sep|;
    var r := SplitFirst(s[k..], sep);
    SplitFirstStops(s[k..], sep);
    StopsInSuffix(s, sep, k, r);
  }

  /** A substring of `b` is a substring of `a + b`. */
  lemma ContainsInSuffix(a: string, b: string, p: string)
    requires Contains(b, p)
    ensures Contains(a + b, p)
  {
    var i := Find(b, p).value;
    assert (a + b)[|a| + i..|a| + i + |p|] == b[i..i + |p|];
    assert OccursAt(a + b, p, |a| + i);
    ContainsIffOccurs(a + b, p);
  }
}
