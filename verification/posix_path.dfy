/** The part of Python's `pathlib.PurePosixPath` the model relies on: how a
    path string falls apart into named components, the final component
    (`.name`), its `.suffix` and `.stem`, and joining with `/`. */
module PosixPath {
  import opened PyText

  predicate NoSlash(s: string) {
    forall i :: 0 <= i < |s| ==> s[i] != '/'
  }

  /** The '/'-separated segments of `s`, the first of them continuing the
      unfinished segment `cur`; with `cur` empty this is `s.split('/')`. */
  function Segments(s: string, cur: string): (r: seq<string>)
    requires NoSlash(cur)
    ensures |r| >= 1
    ensures forall k :: 0 <= k < |r| ==> NoSlash(r[k])
    decreases |s|
  {
    if |s| == 0 then [cur]
    else if s[0] == '/' then [cur] + Segments(s[1..], [])
    else Segments(s[1..], cur + [s[0]])
  }

  /** Segments that name something: pathlib drops empty segments (from
      repeated or trailing slashes) and `.` segments. */
  function Named(segs: seq<string>): (r: seq<string>)
    ensures |r| <= |segs|
    ensures forall k :: 0 <= k < |r| ==> r[k] != [] && r[k] != "." && r[k] in segs
  {
    if |segs| == 0 then []
    else if segs[0] == [] || segs[0] == "." then Named(segs[1..])
    else [segs[0]] + Named(segs[1..])
  }

  /** The named components of a path string, without the root. */
  function Components(s: string): (r: seq<string>)
    ensures forall k :: 0 <= k < |r| ==> NoSlash(r[k]) && r[k] != [] && r[k] != "."
  {
    var segs := Segments(s, []);
    var r := Named(segs);
    assert forall k :: 0 <= k < |r| ==> r[k] in segs;
    r
  }

  /** `PurePosixPath(s).name`: the last named component, or empty. */
  function Name(s: string): (r: string)
    ensures NoSlash(r)
    ensures r == [] <==> Components(s) == []
    ensures Components(s) != [] ==> r == Components(s)[|Components(s)| - 1]
  {
    var cs := Components(s);
    if |cs| == 0 then [] else cs[|cs| - 1]
  }

  predicate IsAbsolute(s: string) {
    |s| > 0 && s[0] == '/'
  }

  /** `PurePosixPath(base) / rel`, as a string. */
  function Join(base: string, rel: string): string {
    if IsAbsolute(rel) then rel
    else if base == [] then rel
    else base + "/" + rel
  }

  /** A name that `Join` puts directly under its base: one named
      component that does not step back up to the parent. */
  predicate IsSingleComponent(n: string) {
    n != [] && n != "." && n != ".." && NoSlash(n)
  }

  lemma {:induction false} SegmentsPlain(s: string, cur: string)
    requires NoSlash(cur) && NoSlash(s)
    ensures Segments(s, cur) == [cur + s]
    decreases |s|
  {
    if |s| > 0 {
      assert s[0] != '/';
      SegmentsPlain(s[1..], cur + [s[0]]);
      assert cur + [s[0]] + s[1..] == cur + s;
    } else {
      assert cur + s == cur;
    }
  }

  lemma {:induction false} SegmentsConcat(a: string, b: string, cur: string)
    requires NoSlash(cur)
    ensures Segments(a + "/" + b, cur) == Segments(a, cur) + Segments(b, [])
    decreases |a|
  {
    if |a| == 0 {
      assert a + "/" + b == "/" + b;
      assert ("/" + b)[1..] == b;
    } else {
      assert (a + "/" + b)[0] == a[0];
      assert (a + "/" + b)[1..] == a[1..] + "/" + b;
      if a[0] == '/' {
        SegmentsConcat(a[1..], b, []);
      } else {
        SegmentsConcat(a[1..], b, cur + [a[0]]);
      }
    }
  }

  lemma {:induction false} NamedConcat(x: seq<string>, y: seq<string>)
    ensures Named(x + y) == Named(x) + Named(y)
    decreases |x|
  {
    if |x| > 0 {
      assert (x + y)[0] == x[0];
      assert (x + y)[1..] == x[1..] + y;
      NamedConcat(x[1..], y);
    } else {
      assert x + y == y;
    }
  }

  /** Joining a relative path appends its components to the base's. */
  lemma JoinComponents(base: string, rel: string)
    requires !IsAbsolute(rel)
    ensures Components(Join(base, rel)) == Components(base) + Components(rel)
  {
    if base != [] {
      SegmentsConcat(base, rel, []);
      NamedConcat(Segments(base, []), Segments(rel, []));
    }
  }

  /** A single component is a path of exactly one component, and joining it
      to any directory yields a path whose parent components are exactly the
      directory's and whose name is the component itself. */
  lemma SingleComponentJoin(base: string, n: string)
    requires IsSingleComponent(n)
    ensures Components(n) == [n]
    ensures Components(Join(base, n)) == Components(base) + [n]
    ensures Name(Join(base, n)) == n
  {
    SegmentsPlain(n, []);
    assert [] + n == n;
    assert Named([n]) == [n] + Named([]);
    JoinComponents(base, n);
  }

  /** Index of the last occurrence of `c` in `s`, or -1: `s.rfind(c)`. */
  function RFind(s: string, c: char): (i: int)
    ensures -1 <= i < |s|
    ensures i >= 0 ==> s[i] == c
    ensures forall j :: i < j < |s| ==> s[j] != c
  {
    if |s| == 0 then -1
    else if s[|s| - 1] == c then |s| - 1
    else RFind(s[..|s| - 1], c)
  }

  /** `PurePath.suffix` of a final component `name`: from the last dot on,
      provided that dot is neither the first nor the last character. */
  function Suffix(name: string): (r: string)
    ensures r == [] || (2 <= |r| < |name| && r[0] == '.' && EndsWith(name, r))
    ensures forall j :: 0 < j < |r| ==> r[j] != '.'
  {
    var i := RFind(name, '.');
    if 0 < i < |name| - 1 then name[i..] else []
  }

  /** `PurePath.stem` of a final component `name`: the name without its suffix. */
  function Stem(name: string): (r: string)
    ensures r + Suffix(name) == name
    ensures Suffix(name) != [] ==> r != [] && |r| < |name|
  {
    var i := RFind(name, '.');
    if 0 < i < |name| - 1 then name[..i] else name
  }

  /** A dot that is neither first nor last and that no later dot follows
      starts the suffix and ends the stem. */
  lemma SuffixAt(name: string, i: int)
    requires 0 < i < |name| - 1 && name[i] == '.'
    requires forall j :: i < j < |name| ==> name[j] != '.'
    ensures Suffix(name) == name[i..] && Stem(name) == name[..i]
  {
    assert RFind(name, '.') == i;
  }
}
