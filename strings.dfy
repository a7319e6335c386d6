/** Python's `str.strip()` without an argument, as pandas' `.str.strip()` applies
    it to every cell of a column. */
module Strings {

  /** The characters for which Python's `str.isspace()` holds. */
  predicate IsSpace(c: char) {
    || c == ' '
    || '\t' <= c <= '\r'
    || '\U{1C}' <= c <= '\U{1F}'
    || c == '\U{85}' || c == '\U{A0}' || c == '\U{1680}'
    || '\U{2000}' <= c <= '\U{200A}'
    || c == '\U{2028}' || c == '\U{2029}' || c == '\U{202F}' || c == '\U{205F}' || c == '\U{3000}'
  }

  /** `s` neither starts nor ends with whitespace. */
  predicate IsStripped(s: string) {
    s == [] || (!IsSpace(s[0]) && !IsSpace(s[|s| - 1]))
  }

  /** Every character of `s` is whitespace. */
  predicate AllSpace(s: string) {
    forall k | 0 <= k < |s| :: IsSpace(s[k])
  }

  /** Every character of `s` from index lo up to hi is whitespace. */
  predicate SpaceBetween(s: string, lo: nat, hi: nat)
    requires lo <= hi <= |s|
  {
    forall k | lo <= k < hi :: IsSpace(s[k])
  }

  /** The first index at or after k that does not hold whitespace (|s| if none). */
  function SkipSpace(s: string, k: nat): (n: nat)
    requires k <= |s|
    ensures k <= n <= |s| && SpaceBetween(s, k, n)
    ensures n == |s| || !IsSpace(s[n])
    decreases |s| - k
  {
    if k < |s| && IsSpace(s[k]) then SkipSpace(s, k + 1) else k
  }

  /** Where `s[..e]` ends once its trailing whitespace, but nothing before lo, is
      removed. */
  function TrimSpace(s: string, lo: nat, e: nat): (n: nat)
    requires lo <= e <= |s|
    ensures lo <= n <= e && SpaceBetween(s, n, e)
    ensures n == lo || !IsSpace(s[n - 1])
  {
    if lo < e && IsSpace(s[e - 1]) then TrimSpace(s, lo, e - 1) else e
  }

  /** `s.strip()`: the part of `s` between its leading and its trailing whitespace. */
  function Strip(s: string): (r: string)
    ensures IsStripped(r)
    ensures var i := SkipSpace(s, 0);
            && i + |r| <= |s|
            && r == s[i..i + |r|]
            && SpaceBetween(s, 0, i) && SpaceBetween(s, i + |r|, |s|)
  {
    var i := SkipSpace(s, 0);
    s[i..TrimSpace(s, i, |s|)]
  }

  /** SkipSpace stops at the first non-whitespace index and nowhere else. */
  lemma {:induction false} SkipSpaceAt(s: string, k: nat, n: nat)
    requires k <= n <= |s| && SpaceBetween(s, k, n)
    requires n == |s| || !IsSpace(s[n])
    ensures SkipSpace(s, k) == n
    decreases n - k
  {
    if k < n {
      SkipSpaceAt(s, k + 1, n);
    }
  }

  /** TrimSpace stops just after the last non-whitespace index and nowhere else. */
  lemma {:induction false} TrimSpaceAt(s: string, lo: nat, e: nat, n: nat)
    requires lo <= n <= e <= |s| && SpaceBetween(s, n, e)
    requires n == lo || !IsSpace(s[n - 1])
    ensures TrimSpace(s, lo, e) == n
    decreases e - n
  {
    if n < e {
      TrimSpaceAt(s, lo, e - 1, n);
    }
  }

  /** Whatever whitespace surrounds a string without surrounding whitespace, strip
      gives that string back. */
  lemma StripOf(pre: string, core: string, post: string)
    requires AllSpace(pre) && AllSpace(post) && IsStripped(core)
    ensures Strip(pre + core + post) == core
  {
    var x := pre + core + post;
    var a, b := |pre|, |pre| + |core|;
    assert forall k | 0 <= k < a :: x[k] == pre[k];
    assert forall k | b <= k < |x| :: x[k] == post[k - b];
    if core == [] {
      SkipSpaceAt(x, 0, |x|);
      TrimSpaceAt(x, |x|, |x|, |x|);
    } else {
      assert x[a] == core[0] && x[b - 1] == core[|core| - 1];
      SkipSpaceAt(x, 0, a);
      TrimSpaceAt(x, a, |x|, b);
      assert x[a..b] == core;
    }
  }

  /** A string without surrounding whitespace is left as it is. */
  lemma {:induction false} StripKeepsStripped(s: string)
    requires IsStripped(s)
    ensures Strip(s) == s
  {
    assert [] + s + [] == s;
    StripOf([], s, []);
  }

  /** Stripping twice is stripping once. */
  lemma StripIdempotent(s: string)
    ensures Strip(Strip(s)) == Strip(s)
  {
    StripKeepsStripped(Strip(s));
  }
}
