/** The pieces of Python's `str` behaviour the model relies on: `str.isspace`,
    `str.strip()`, the `in` substring test and the prefix slice `s[:n]`. */
module PyText {

  /** Python's `str.isspace`, which is also the set of characters `str.strip()`
      removes when it is called without arguments. */
  predicate IsSpace(c: char) {
    var n := c as int;
    || (9 <= n <= 13)
    || (28 <= n <= 32)
    || n == 0x85 || n == 0xA0 || n == 0x1680
    || (0x2000 <= n <= 0x200A)
    || n == 0x2028 || n == 0x2029 || n == 0x202F || n == 0x205F || n == 0x3000
  }

  predicate AllSpace(s: string) {
    forall i :: 0 <= i < |s| ==> IsSpace(s[i])
  }

  /** Neither the first nor the last character is whitespace. */
  predicate NoEdgeSpace(s: string) {
    |s| == 0 || (!IsSpace(s[0]) && !IsSpace(s[|s| - 1]))
  }

  /** `s.lstrip()`: the suffix of `s` left after dropping leading whitespace. */
  function LStrip(s: string): (r: string)
    ensures |r| <= |s| && r == s[|s| - |r|..]
    ensures forall i :: 0 <= i < |s| - |r| ==> IsSpace(s[i])
    ensures r == [] || !IsSpace(r[0])
  {
    if |s| > 0 && IsSpace(s[0]) then LStrip(s[1..]) else s
  }

  /** `s.rstrip()`: the prefix of `s` left after dropping trailing whitespace. */
  function RStrip(s: string): (r: string)
    ensures |r| <= |s| && r == s[..|r|]
    ensures forall i :: |r| <= i < |s| ==> IsSpace(s[i])
    ensures r == [] || !IsSpace(r[|r| - 1])
  {
    if |s| > 0 && IsSpace(s[|s| - 1]) then RStrip(s[..|s| - 1]) else s
  }

  /** Number of leading whitespace characters `s.strip()` drops. */
  function StripOffset(s: string): (a: nat)
    ensures a <= |s|
  {
    |s| - |LStrip(s)|
  }

  /** `s.strip()`: the slice of `s` between its leading and trailing whitespace. */
  function Strip(s: string): (r: string)
    ensures NoEdgeSpace(r)
    ensures StripOffset(s) + |r| <= |s|
    ensures r == s[StripOffset(s)..StripOffset(s) + |r|]
    ensures forall i :: 0 <= i < StripOffset(s) ==> IsSpace(s[i])
    ensures forall i :: StripOffset(s) + |r| <= i < |s| ==> IsSpace(s[i])
  {
    RStrip(LStrip(s))
  }

  /** Stripping leaves nothing exactly when the text is all whitespace. */
  lemma StripEmptyIffAllSpace(s: string)
    ensures Strip(s) == [] <==> AllSpace(s)
  {
    if Strip(s) != [] {
      assert s[StripOffset(s)] == Strip(s)[0];
    }
  }

  /** A string without edge whitespace is its own strip. */
  lemma StripFixesTrimmed(s: string)
    requires NoEdgeSpace(s)
    ensures Strip(s) == s
  {
    LStripFixes(s);
    RStripFixes(s);
  }

  lemma LStripFixes(s: string)
    requires s == [] || !IsSpace(s[0])
    ensures LStrip(s) == s
  {
  }

  lemma RStripFixes(s: string)
    requires s == [] || !IsSpace(s[|s| - 1])
    ensures RStrip(s) == s
  {
  }

  /** `pat` occurs in `s` starting at index `i`. */
  predicate OccursAt(s: string, pat: string, i: int) {
    0 <= i && i + |pat| <= |s| && s[i..i + |pat|] == pat
  }

  /** `s.find(pat, start)`: the first index at or after `start` where `pat`
      occurs, or -1. */
  function FindFrom(s: string, pat: string, start: nat): (r: int)
    requires start <= |s|
    ensures r == -1 || (start <= r && OccursAt(s, pat, r))
    ensures r == -1 ==> forall j :: start <= j ==> !OccursAt(s, pat, j)
    ensures r != -1 ==> forall j :: start <= j < r ==> !OccursAt(s, pat, j)
    decreases |s| - start
  {
    if start + |pat| > |s| then -1
    else if s[start..start + |pat|] == pat then start
    else FindFrom(s, pat, start + 1)
  }

  /** Python's `pat in s` for strings. */
  function Contains(s: string, pat: string): (b: bool)
    ensures b <==> exists i :: OccursAt(s, pat, i)
  {
    var k := FindFrom(s, pat, 0);
    assert k != -1 ==> OccursAt(s, pat, k);
    k != -1
  }

  /** `s[:n]` for any integer `n`: a negative `n` counts from the end. */
  function PyPrefix(s: string, n: int): (r: string)
    ensures |r| <= |s| && r == s[..|r|]
    ensures 0 <= n <= |s| ==> |r| == n
    ensures n >= |s| ==> r == s
    ensures n < 0 && |s| + n >= 0 ==> |r| == |s| + n
    ensures |s| + n < 0 ==> r == []
  {
    if n >= 0 then (if n <= |s| then s[..n] else s)
    else if |s| + n >= 0 then s[..|s| + n]
    else []
  }

  /** `s.startswith(p)`. */
  predicate StartsWith(s: string, p: string) {
    |p| <= |s| && s[..|p|] == p
  }

  /** `s.endswith(p)`. */
  predicate EndsWith(s: string, p: string) {
    |p| <= |s| && s[|s| - |p|..] == p
  }

  /** One trailing whitespace character after a trimmed text is stripped. */
  lemma StripDropsTrailingSpace(t: string, c: char)
    requires t != [] && NoEdgeSpace(t) && IsSpace(c)
    ensures Strip(t + [c]) == t
  {
    var s := t + [c];
    assert LStrip(s) == s;
    assert s[..|s| - 1] == t;
    assert RStrip(s) == RStrip(t);
    assert RStrip(t) == t;
  }

  // ---------------------------------------------------------------------------
  // Deleting elements while keeping the order of the rest

  /** `idx` lists, in increasing order, positions of `s` that spell out `r`. */
  ghost predicate EmbedsBy<T>(r: seq<T>, s: seq<T>, idx: seq<int>) {
    && |idx| == |r|
    && (forall k :: 0 <= k < |idx| ==> 0 <= idx[k] < |s| && s[idx[k]] == r[k])
    && (forall k, l :: 0 <= k < l < |idx| ==> idx[k] < idx[l])
  }

  /** `r` is `s` with some elements deleted and the rest kept in order. */
  ghost predicate IsSubsequence<T>(r: seq<T>, s: seq<T>) {
    exists idx :: EmbedsBy(r, s, idx)
  }

  lemma EmbedCompose<T>(a: seq<T>, b: seq<T>, c: seq<T>, f: seq<int>, g: seq<int>) returns (h: seq<int>)
    requires EmbedsBy(a, b, f) && EmbedsBy(b, c, g)
    ensures EmbedsBy(a, c, h)
  {
    h := seq(|f|, k requires 0 <= k < |f| => g[f[k]]);
  }

  /** An embedding into the tail of `s` is an embedding into `s` that
      avoids its first position. */
  lemma EmbedShift<T>(r: seq<T>, s: seq<T>, idx: seq<int>) returns (shifted: seq<int>)
    requires |s| > 0 && EmbedsBy(r, s[1..], idx)
    ensures EmbedsBy(r, s, shifted)
    ensures forall k :: 0 <= k < |shifted| ==> shifted[k] >= 1
  {
    shifted := seq(|idx|, k requires 0 <= k < |idx| => idx[k] + 1);
    forall k | 0 <= k < |shifted|
      ensures s[shifted[k]] == r[k]
    {
      assert s[1..][idx[k]] == r[k];
    }
  }

  /** Keeping the first element in front of an embedding that avoids it. */
  lemma EmbedCons<T>(r: seq<T>, s: seq<T>, idx: seq<int>) returns (idx2: seq<int>)
    requires |s| > 0 && EmbedsBy(r, s, idx)
    requires forall k :: 0 <= k < |idx| ==> idx[k] >= 1
    ensures EmbedsBy([s[0]] + r, s, idx2)
  {
    idx2 := [0] + idx;
    var r2 := [s[0]] + r;
    forall k | 0 <= k < |idx2|
      ensures 0 <= idx2[k] < |s| && s[idx2[k]] == r2[k]
    {
      if k > 0 {
        assert idx2[k] == idx[k - 1] && r2[k] == r[k - 1];
      }
    }
    forall k, l | 0 <= k < l < |idx2|
      ensures idx2[k] < idx2[l]
    {
      if k > 0 {
        assert idx2[k] == idx[k - 1] && idx2[l] == idx[l - 1];
      }
    }
  }

  /** A run of consecutive characters of `s` embeds in `s`. */
  lemma RunEmbeds(r: string, s: string, a: int) returns (idx: seq<int>)
    requires 0 <= a && a + |r| <= |s|
    requires forall k :: 0 <= k < |r| ==> r[k] == s[a + k]
    ensures EmbedsBy(r, s, idx)
  {
    idx := seq(|r|, k requires 0 <= k < |r| => a + k);
  }

  /** The characters of `s.strip()` are those of `s` from the strip offset on. */
  lemma StripRun(s: string)
    ensures forall k :: 0 <= k < |Strip(s)| ==> Strip(s)[k] == s[StripOffset(s) + k]
  {
  }

  /** Stripping deletes characters only at the ends. */
  lemma StripEmbeds(s: string) returns (idx: seq<int>)
    ensures EmbedsBy(Strip(s), s, idx)
  {
    StripRun(s);
    idx := RunEmbeds(Strip(s), s, StripOffset(s));
  }

  /** A prefix keeps the first characters in place. */
  lemma PrefixEmbeds(s: string, n: int) returns (idx: seq<int>)
    ensures EmbedsBy(PyPrefix(s, n), s, idx)
  {
    var r := PyPrefix(s, n);
    assert forall k :: 0 <= k < |r| ==> r[k] == s[..|r|][k];
    idx := RunEmbeds(r, s, 0);
  }

  /** Cutting whitespace off both ends of a text does not change how often a
      non-whitespace character occurs in it. */
  lemma TrimKeepsCounts(t: string, a: int, b: int, c: char)
    requires 0 <= a <= b <= |t| && !IsSpace(c)
    requires forall i :: 0 <= i < a ==> IsSpace(t[i])
    requires forall i :: b <= i < |t| ==> IsSpace(t[i])
    ensures multiset(t[a..b])[c] == multiset(t)[c]
  {
    assert t == t[..a] + t[a..b] + t[b..];
    assert c !in t[..a];
    assert c !in t[b..];
  }

  /** Stripping removes only whitespace: every other character occurs in the
      result as often as in the input. */
  lemma StripKeepsCounts(s: string, c: char)
    requires !IsSpace(c)
    ensures multiset(Strip(s))[c] == multiset(s)[c]
  {
    TrimKeepsCounts(s, StripOffset(s), StripOffset(s) + |Strip(s)|, c);
  }
}
