/** Python's argument-less `str.strip()`, as applied to the "Add New User"
    input before it is registered. */
module Text {

  /** The characters `str.strip()` removes: CPython's whitespace set, that is
      every code point whose Unicode general category is Zs or whose
      bidirectional class is WS, B or S. */
  predicate IsWhitespace(c: char)
    ensures c == ' ' || c == '\t' || c == '\n' || c == '\r' ==> IsWhitespace(c)
    ensures IsWhitespace(c) ==> !('0' <= c <= '9' || 'A' <= c <= 'Z' || 'a' <= c <= 'z')
  {
    var n := c as int;
    || 0x09 <= n <= 0x0D
    || 0x1C <= n <= 0x20
    || n == 0x85
    || n == 0xA0
    || n == 0x1680
    || 0x2000 <= n <= 0x200A
    || n == 0x2028
    || n == 0x2029
    || n == 0x202F
    || n == 0x205F
    || n == 0x3000
  }

  /** Every character of `s` is whitespace. */
  predicate AllWhitespace(s: string)
  {
    forall i :: 0 <= i < |s| ==> IsWhitespace(s[i])
  }

  /** `s` neither begins nor ends with whitespace. */
  predicate IsStripped(s: string)
  {
    s == [] || (!IsWhitespace(s[0]) && !IsWhitespace(s[|s| - 1]))
  }

  /** Scanning forward from `i`, the index of the first character that is
      not whitespace, or `|s|` if there is none. */
  function SkipForward(s: string, i: nat): (k: nat)
    requires i <= |s|
    ensures i <= k <= |s|
    ensures forall m :: i <= m < k ==> IsWhitespace(s[m])
    ensures k < |s| ==> !IsWhitespace(s[k])
    decreases |s| - i
  {
    if i < |s| && IsWhitespace(s[i]) then SkipForward(s, i + 1) else i
  }

  /** Scanning backward from `j` but not past `lo`, the end of the last
      character that is not whitespace, or `lo` if there is none. */
  function SkipBackward(s: string, lo: nat, j: nat): (k: nat)
    requires lo <= j <= |s|
    ensures lo <= k <= j
    ensures forall m :: k <= m < j ==> IsWhitespace(s[m])
    ensures k > lo ==> !IsWhitespace(s[k - 1])
    decreases j
  {
    if j > lo && IsWhitespace(s[j - 1]) then SkipBackward(s, lo, j - 1) else j
  }

  /** `s.strip()`: the span between the first and the last character that is
      not whitespace. */
  function Strip(s: string): (r: string)
    ensures |r| <= |s|
    ensures IsStripped(r)
  {
    var lo := SkipForward(s, 0);
    s[lo..SkipBackward(s, lo, |s|)]
  }

  /** The forward scan stops at `k` whenever everything from `i` up to `k`
      is whitespace and `k` is the end or a non-whitespace character. */
  lemma SkipForwardStopsAt(s: string, i: nat, k: nat)
    requires i <= k <= |s|
    requires forall m :: i <= m < k ==> IsWhitespace(s[m])
    requires k < |s| ==> !IsWhitespace(s[k])
    ensures SkipForward(s, i) == k
  {
  }

  /** The backward scan stops at `k` whenever everything from `k` up to `j`
      is whitespace and `k` is `lo` or ends a non-whitespace character. */
  lemma SkipBackwardStopsAt(s: string, lo: nat, j: nat, k: nat)
    requires lo <= k <= j <= |s|
    requires forall m :: k <= m < j ==> IsWhitespace(s[m])
    requires k > lo ==> !IsWhitespace(s[k - 1])
    ensures SkipBackward(s, lo, j) == k
  {
  }

  /** Strip is characterised by its result alone: whatever whitespace `p`
      and `q` surround a stripped string `m`, stripping gives back `m`. */
  lemma StripUnique(p: string, m: string, q: string)
    requires AllWhitespace(p) && AllWhitespace(q)
    requires IsStripped(m)
    ensures Strip(p + m + q) == m
  {
    var s := p + m + q;
    var lo, hi := |p|, |p| + |m|;
    assert forall i :: 0 <= i < |p| ==> s[i] == p[i];
    assert forall i :: hi <= i < |s| ==> s[i] == q[i - hi];
    if m == [] {
      SkipForwardStopsAt(s, 0, |s|);
      SkipBackwardStopsAt(s, |s|, |s|, |s|);
    } else {
      assert s[lo] == m[0] && s[hi - 1] == m[|m| - 1];
      SkipForwardStopsAt(s, 0, lo);
      SkipBackwardStopsAt(s, lo, |s|, hi);
      assert s[lo..hi] == m;
    }
  }

  /** Cutting `s` at `i` and `j` and gluing the pieces gives `s` back. */
  lemma Rejoin(s: string, i: nat, j: nat)
    requires i <= j <= |s|
    ensures s == s[..i] + s[i..j] + s[j..]
  {
    assert s[i..] == s[i..j] + s[j..];
    assert s == s[..i] + s[i..];
  }

  /** Every string splits into leading whitespace `p`, its stripped core and
      trailing whitespace `q`. */
  lemma StripSplits(s: string) returns (p: string, q: string)
    ensures AllWhitespace(p) && AllWhitespace(q)
    ensures s == p + Strip(s) + q
  {
    var lo := SkipForward(s, 0);
    var hi := SkipBackward(s, lo, |s|);
    p, q := s[..lo], s[hi..];
    Rejoin(s, lo, hi);
  }

  /** Stripping twice is the same as stripping once. */
  lemma StripIdempotent(s: string)
    ensures Strip(Strip(s)) == Strip(s)
  {
    var m := Strip(s);
    assert [] + m + [] == m;
    StripUnique([], m, []);
  }
}
