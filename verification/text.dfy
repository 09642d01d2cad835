/**
 * Character classes and string primitives of Python and JavaScript that the
 * conversion scripts and the front end rely on: whitespace, `strip`/`trim`,
 * substring tests, `split` on one character.  Strings are `seq<char>` of
 * Unicode scalar values, so `|s|` is Python's `len(s)`.
 */
module Text {

  /** The sentinel meaning "not determined yet", distinct from the empty string. */
  const Sentinel: string := "待查询"

  /**
   * Python's `str.isspace()`.  It is also the class `\s` matches in a `str`
   * regex and the set `str.strip()` removes.
   */
  predicate PySpace(c: char) {
    ('\t' <= c <= '\r') || ('\U{1C}' <= c <= ' ') || c == '\U{85}' || c == '\U{A0}'
    || c == '\U{1680}' || ('\U{2000}' <= c <= '\U{200A}') || c == '\U{2028}'
    || c == '\U{2029}' || c == '\U{202F}' || c == '\U{205F}' || c == '\U{3000}'
  }

  /**
   * JavaScript's WhiteSpace and LineTerminator characters, which
   * `String.prototype.trim` removes and `parseInt` skips.
   */
  predicate JsSpace(c: char) {
    ('\t' <= c <= '\r') || c == ' ' || c == '\U{A0}' || c == '\U{1680}'
    || ('\U{2000}' <= c <= '\U{200A}') || c == '\U{2028}' || c == '\U{2029}'
    || c == '\U{202F}' || c == '\U{205F}' || c == '\U{3000}' || c == '\U{FEFF}'
  }

  /** An ASCII decimal digit (`\d` in JavaScript). */
  predicate IsDigit(c: char) {
    '0' <= c <= '9'
  }

  predicate NotSpace(c: char) {
    !PySpace(c)
  }

  predicate IsNewline(c: char) {
    c == '\n'
  }

  predicate NotNewline(c: char) {
    c != '\n'
  }

  /** Every character of `s[lo..hi]` satisfies `p`. */
  predicate AllSatisfy(s: string, lo: nat, hi: nat, p: char -> bool)
    requires lo <= hi <= |s|
  {
    forall k :: lo <= k < hi ==> p(s[k])
  }

  /** The end of the longest run of `p`-characters starting at `i`: a greedy `p*`. */
  function SkipWhile(s: string, i: nat, p: char -> bool): (j: nat)
    requires i <= |s|
    ensures i <= j <= |s|
    ensures AllSatisfy(s, i, j, p)
    ensures j < |s| ==> !p(s[j])
    decreases |s| - i
  {
    if i < |s| && p(s[i]) then SkipWhile(s, i + 1, p) else i
  }

  /** The start of the longest run of `p`-characters ending at `hi`, not going below `lo`. */
  function BackWhile(s: string, lo: nat, hi: nat, p: char -> bool): (j: nat)
    requires lo <= hi <= |s|
    ensures lo <= j <= hi
    ensures AllSatisfy(s, j, hi, p)
    ensures j > lo ==> !p(s[j - 1])
    decreases hi - lo
  {
    if lo < hi && p(s[hi - 1]) then BackWhile(s, lo, hi - 1, p) else hi
  }

  /** `SkipWhile` runs at least to the end of a run it starts on. */
  lemma SkipWhileAtLeast(s: string, i: nat, p: char -> bool, h: nat)
    requires i <= h <= |s| && AllSatisfy(s, i, h, p)
    ensures h <= SkipWhile(s, i, p)
    decreases h - i
  {
    if i < h {
      SkipWhileAtLeast(s, i + 1, p, h);
    }
  }

  /** A run that stops where `p` fails is the one `SkipWhile` finds. */
  lemma SkipWhileIs(s: string, i: nat, p: char -> bool, j: nat)
    requires i <= j <= |s|
    requires AllSatisfy(s, i, j, p)
    requires j < |s| ==> !p(s[j])
    ensures SkipWhile(s, i, p) == j
  {
  }

  /** The end of the line containing position `i`: the next `\n`, or the end of `s`. */
  function EndOfLine(s: string, i: nat): (e: nat)
    requires i <= |s|
    ensures i <= e <= |s|
    ensures forall k :: i <= k < e ==> s[k] != '\n'
    ensures e < |s| ==> s[e] == '\n'
  {
    SkipWhile(s, i, NotNewline)
  }

  /** `t` is a contiguous piece of `s`. */
  ghost predicate IsSliceOf(t: string, s: string) {
    exists a: nat, b: nat :: a <= b <= |s| && t == s[a..b]
  }

  /** What occurs at a position is a piece of the text. */
  lemma OccursIsSlice(s: string, t: string, i: nat)
    requires OccursAt(s, t, i)
    ensures IsSliceOf(t, s)
  {
    assert t == s[i..i + |t|];
  }

  lemma SliceOfSlice(t: string, u: string, s: string)
    requires IsSliceOf(t, u) && IsSliceOf(u, s)
    ensures IsSliceOf(t, s)
  {
    var a: nat, b: nat :| a <= b <= |u| && t == u[a..b];
    var c: nat, d: nat :| c <= d <= |s| && u == s[c..d];
    assert |t| == |s[c + a..c + b]|;
    forall k | 0 <= k < |t| ensures t[k] == s[c + a..c + b][k] {
      assert t[k] == u[a + k] == s[c + a + k];
    }
    assert t == s[c + a..c + b];
  }

  /** `s.strip()` for the whitespace class `ws`: `s` without its leading and trailing `ws` characters. */
  function Strip(s: string, ws: char -> bool): (r: string)
    ensures |r| <= |s|
    ensures |r| > 0 ==> !ws(r[0]) && !ws(r[|r| - 1])
    ensures IsSliceOf(r, s)
    ensures r == [] <==> AllSatisfy(s, 0, |s|, ws)
  {
    var a := SkipWhile(s, 0, ws);
    var b := BackWhile(s, a, |s|, ws);
    assert s[a..b] == [] ==> AllSatisfy(s, 0, |s|, ws);
    s[a..b]
  }

  /**
   * `Strip` is the unique way to write `s` as whitespace, a piece that starts
   * and ends with a non-whitespace character, and whitespace.
   */
  lemma StripIsUnique(s: string, ws: char -> bool, a: nat, b: nat)
    requires a <= b <= |s|
    requires AllSatisfy(s, 0, a, ws) && AllSatisfy(s, b, |s|, ws)
    requires a < b ==> !ws(s[a]) && !ws(s[b - 1])
    ensures Strip(s, ws) == s[a..b]
  {
    if a < b {
      SkipWhileIs(s, 0, ws, a);
    } else {
      assert AllSatisfy(s, 0, |s|, ws);
    }
  }

  /** A character that does not occur in `s` does not occur in any piece of it. */
  lemma NotInSlice(u: string, s: string, c: char)
    requires IsSliceOf(u, s) && c !in s
    ensures c !in u
  {
    var a: nat, b: nat :| a <= b <= |s| && u == s[a..b];
    forall k | 0 <= k < |u| ensures u[k] != c {
      assert u[k] == s[a + k];
    }
  }

  /** Stripping text that has no surrounding whitespace leaves it unchanged. */
  lemma StripStripped(s: string, ws: char -> bool)
    requires |s| > 0 ==> !ws(s[0]) && !ws(s[|s| - 1])
    ensures Strip(s, ws) == s
  {
    StripIsUnique(s, ws, 0, |s|);
  }

  /** The piece `Strip` keeps lies between a run of `ws` at the start and one at the end. */
  lemma StripBounds(s: string, ws: char -> bool) returns (a: nat, b: nat)
    ensures a <= b <= |s| && AllSatisfy(s, 0, a, ws) && AllSatisfy(s, b, |s|, ws)
    ensures Strip(s, ws) == s[a..b]
  {
    a := SkipWhile(s, 0, ws);
    b := BackWhile(s, a, |s|, ws);
  }

  /** No Python whitespace at either end. */
  predicate Trimmed(s: string) {
    |s| > 0 ==> !PySpace(s[0]) && !PySpace(s[|s| - 1])
  }

  /** Python's `str.strip()` with no argument. */
  function PyStrip(s: string): (r: string)
    ensures Trimmed(r)
    ensures IsSliceOf(r, s)
  {
    Strip(s, PySpace)
  }

  /** The characters of `s` that satisfy `q`, in order. */
  function Filter(s: string, q: char -> bool): (r: string)
    ensures |r| <= |s|
    ensures forall k :: 0 <= k < |r| ==> q(r[k])
  {
    if |s| == 0 then "" else (if q(s[0]) then [s[0]] else "") + Filter(s[1..], q)
  }

  lemma {:induction false} FilterAppend(x: string, y: string, q: char -> bool)
    ensures Filter(x + y, q) == Filter(x, q) + Filter(y, q)
    decreases |x|
  {
    if |x| > 0 {
      assert (x + y)[1..] == x[1..] + y;
      FilterAppend(x[1..], y, q);
    } else {
      assert x + y == y;
    }
  }

  /** A text none of whose characters satisfy `q` keeps nothing. */
  lemma {:induction false} FilterNone(s: string, q: char -> bool)
    requires forall k :: 0 <= k < |s| ==> !q(s[k])
    ensures Filter(s, q) == ""
    decreases |s|
  {
    if |s| > 0 {
      FilterNone(s[1..], q);
    }
  }

  /** Dropping a front that holds nothing `q` keeps leaves the filtered text alone. */
  lemma {:induction false} FilterDropFront(s: string, lo: nat, q: char -> bool)
    requires lo <= |s|
    requires forall k :: 0 <= k < lo ==> !q(s[k])
    ensures Filter(s[lo..], q) == Filter(s, q)
    decreases lo
  {
    if lo > 0 {
      FilterDropFront(s[1..], lo - 1, q);
      assert s[1..][lo - 1..] == s[lo..];
    }
  }

  /** Dropping a back that holds nothing `q` keeps leaves the filtered text alone. */
  lemma FilterDropBack(s: string, lo: nat, hi: nat, q: char -> bool)
    requires lo <= hi <= |s|
    requires forall k :: hi <= k < |s| ==> !q(s[k])
    ensures Filter(s[lo..hi], q) == Filter(s[lo..], q)
  {
    var mid, post := s[lo..hi], s[hi..];
    assert s[lo..] == mid + post;
    FilterAppend(mid, post, q);
    FilterNone(post, q);
    assert Filter(mid, q) + "" == Filter(mid, q);
  }

  /** `Filter(s[lo..hi])` when `s[..lo]` and `s[hi..]` hold nothing `q` keeps. */
  lemma FilterMiddle(s: string, lo: nat, hi: nat, q: char -> bool)
    requires lo <= hi <= |s|
    requires forall k :: 0 <= k < lo ==> !q(s[k])
    requires forall k :: hi <= k < |s| ==> !q(s[k])
    ensures Filter(s[lo..hi], q) == Filter(s, q)
  {
    FilterDropFront(s, lo, q);
    FilterDropBack(s, lo, hi, q);
  }

  /** Stripping removes only characters of `ws`: everything outside `ws` survives in order. */
  lemma FilterStrip(s: string, ws: char -> bool, q: char -> bool)
    requires forall c :: q(c) ==> !ws(c)
    ensures Filter(Strip(s, ws), q) == Filter(s, q)
  {
    var a, b := StripBounds(s, ws);
    FilterMiddle(s, a, b, q);
  }

  /** JavaScript's `String.prototype.trim()`. */
  function JsTrim(s: string): (r: string)
    ensures |r| > 0 ==> !JsSpace(r[0]) && !JsSpace(r[|r| - 1])
    ensures IsSliceOf(r, s)
  {
    Strip(s, JsSpace)
  }

  /** `t` occurs in `s` starting at index `i`. */
  predicate OccursAt(s: string, t: string, i: nat) {
    i + |t| <= |s| && s[i..i + |t|] == t
  }

  /** Python's `t in s` for strings (and JavaScript's `s.includes(t)`). */
  predicate Contains(s: string, t: string) {
    exists i: nat | i <= |s| :: OccursAt(s, t, i)
  }

  predicate StartsWith(s: string, t: string) {
    OccursAt(s, t, 0)
  }

  /** An occurrence inside `s[lo..hi]` is an occurrence in `s`, shifted by `lo`. */
  lemma OccursInSlice(s: string, lo: nat, hi: nat, t: string, k: nat)
    requires lo <= hi <= |s|
    ensures OccursAt(s[lo..hi], t, k) ==> OccursAt(s, t, lo + k)
  {
    if OccursAt(s[lo..hi], t, k) {
      forall m | 0 <= m < |t| ensures s[lo + k..lo + k + |t|][m] == t[m] {
        assert s[lo..hi][k..k + |t|][m] == t[m];
      }
    }
  }

  /** Whatever occurs in a piece of `s` occurs in `s`. */
  lemma ContainsInSlice(u: string, s: string, t: string)
    requires IsSliceOf(u, s) && Contains(u, t)
    ensures Contains(s, t)
  {
    var i: nat :| i <= |u| && OccursAt(u, t, i);
    assert IsSliceOf(t, u) by { assert t == u[i..i + |t|]; }
    SliceOfSlice(t, u, s);
    var c: nat, d: nat :| c <= d <= |s| && t == s[c..d];
    assert OccursAt(s, t, c);
  }

  /** The index of the first `c` in `s`, or `|s|` when there is none. */
  function FirstIndex(s: string, c: char): (e: nat)
    ensures e <= |s|
    ensures forall k :: 0 <= k < e ==> s[k] != c
    ensures e < |s| ==> s[e] == c
  {
    if |s| == 0 || s[0] == c then 0 else 1 + FirstIndex(s[1..], c)
  }

  /** A position with no `c` before it and `c` at it is the one `FirstIndex` finds. */
  lemma {:induction false} FirstIndexIs(s: string, c: char, e: nat)
    requires e <= |s| && forall k :: 0 <= k < e ==> s[k] != c
    requires e < |s| ==> s[e] == c
    ensures FirstIndex(s, c) == e
  {
    if e > 0 {
      assert s[0] != c;
      FirstIndexIs(s[1..], c, e - 1);
    }
  }

  /** What does not occur in `s` does not occur in any piece of it. */
  lemma NotContainsInSlice(u: string, s: string, t: string)
    requires IsSliceOf(u, s) && !Contains(s, t)
    ensures !Contains(u, t)
  {
    if Contains(u, t) {
      ContainsInSlice(u, s, t);
    }
  }

  /** `s.split(c)` in Python and in JavaScript, for a one-character separator. */
  function Split(s: string, c: char): (parts: seq<string>)
    ensures |parts| > 0
    decreases |s|
  {
    if |s| == 0 then [""]
    else
      var rest := Split(s[1..], c);
      if s[0] == c then [""] + rest else [[s[0]] + rest[0]] + rest[1..]
  }

  /** No piece of a split holds the separator. */
  lemma {:induction false} SplitPartsFree(s: string, c: char)
    ensures forall i :: 0 <= i < |Split(s, c)| ==> c !in Split(s, c)[i]
    decreases |s|
  {
    if |s| > 0 {
      var r := Split(s[1..], c);
      SplitPartsFree(s[1..], c);
      if s[0] != c {
        assert c !in [s[0]] + r[0];
      }
    }
  }

  /** A split has a single piece exactly when the separator does not occur. */
  lemma {:induction false} SplitSingle(s: string, c: char)
    ensures |Split(s, c)| == 1 <==> c !in s
    decreases |s|
  {
    if |s| > 0 {
      SplitSingle(s[1..], c);
      assert s == [s[0]] + s[1..];
    }
  }

  /** `c.join(parts)`: the pieces with one separator between each neighbouring pair. */
  function Join(parts: seq<string>, c: char): string {
    if |parts| == 0 then ""
    else if |parts| == 1 then parts[0]
    else parts[0] + [c] + Join(parts[1..], c)
  }

  lemma JoinCons(x: string, rest: seq<string>, c: char)
    requires |rest| > 0
    ensures Join([x] + rest, c) == x + [c] + Join(rest, c)
  {
    assert ([x] + rest)[1..] == rest;
  }

  /** Splitting and joining again gives back the text. */
  lemma {:induction false} JoinSplit(s: string, c: char)
    ensures Join(Split(s, c), c) == s
    decreases |s|
  {
    if |s| > 0 {
      var t := s[1..];
      var r := Split(t, c);
      JoinSplit(t, c);
      if s[0] == c {
        JoinCons("", r, c);
      } else if |r| == 1 {
        assert Split(s, c) == [[s[0]] + r[0]];
      } else {
        assert r == [r[0]] + r[1..];
        JoinCons(r[0], r[1..], c);
        JoinCons([s[0]] + r[0], r[1..], c);
      }
      assert s == [s[0]] + t;
    }
  }

  /** A text without the separator splits into itself. */
  lemma SplitNoSep(s: string, c: char)
    requires c !in s
    ensures Split(s, c) == [s]
  {
    SplitSingle(s, c);
    JoinSplit(s, c);
  }

  /** Splitting `x + c + y` when `x` has no separator. */
  lemma {:induction false} SplitAround(x: string, y: string, c: char)
    requires c !in x
    ensures Split(x + [c] + y, c) == [x] + Split(y, c)
    decreases |x|
  {
    var s := x + [c] + y;
    if |x| == 0 {
      assert s[1..] == y;
    } else {
      var x' := x[1..];
      assert s[1..] == x' + [c] + y;
      assert c !in x' by {
        forall k | 0 <= k < |x'| ensures x'[k] != c { assert x'[k] == x[k + 1]; }
      }
      SplitAround(x', y, c);
      assert [x[0]] + x' == x;
    }
  }

  lemma Assoc<T>(a: seq<T>, b: seq<T>, d: seq<T>)
    ensures a + (b + d) == (a + b) + d
  {
  }

  /** A separator between `x` and `y` splits them apart: `split` is a homomorphism. */
  lemma {:induction false} SplitAppend(x: string, y: string, c: char)
    ensures Split(x + [c] + y, c) == Split(x, c) + Split(y, c)
    decreases |x|
  {
    var s := x + [c] + y;
    if |x| == 0 {
      assert s[1..] == y;
    } else {
      var x' := x[1..];
      assert s[1..] == x' + [c] + y;
      SplitAppend(x', y, c);
      var p, q := Split(x', c), Split(y, c);
      if x[0] == c {
        Assoc([""], p, q);
      } else {
        assert (p + q)[0] == p[0];
        assert (p + q)[1..] == p[1..] + q;
        Assoc([[x[0]] + p[0]], p[1..], q);
      }
    }
  }

  /** Joining separator-free pieces and splitting again gives back the pieces. */
  lemma {:induction false} SplitJoin(parts: seq<string>, c: char)
    requires |parts| > 0
    requires forall i :: 0 <= i < |parts| ==> c !in parts[i]
    ensures Split(Join(parts, c), c) == parts
    decreases |parts|
  {
    if |parts| > 1 {
      var rest := parts[1..];
      assert parts == [parts[0]] + rest;
      JoinCons(parts[0], rest, c);
      SplitJoin(rest, c);
      SplitAround(parts[0], Join(rest, c), c);
    } else {
      assert Join(parts, c) == parts[0];
      SplitNoSep(parts[0], c);
    }
  }

  /** The first piece of a split starts the text. */
  lemma {:induction false} FirstPieceIsPrefix(s: string, c: char)
    ensures var first := Split(s, c)[0]; |first| <= |s| && first == s[..|first|]
    decreases |s|
  {
    if |s| > 0 && s[0] != c {
      FirstPieceIsPrefix(s[1..], c);
    }
  }

  /** `u` ends `s`. */
  predicate IsSuffix(u: string, s: string) {
    |u| <= |s| && s[|s| - |u|..] == u
  }

  function Last<T>(xs: seq<T>): T
    requires |xs| > 0
  {
    xs[|xs| - 1]
  }

  /** A suffix of `s[1..]` is a suffix of `s`. */
  lemma SuffixOfTail(s: string, u: string)
    requires |s| > 0 && IsSuffix(u, s[1..])
    ensures IsSuffix(u, s)
  {
    assert s[|s| - |u|..] == s[1..][|s| - 1 - |u|..];
  }

  /** The last piece of a split is the last piece of the tail's split, or the whole text. */
  lemma LastPieceStep(s: string, c: char)
    requires |s| > 0
    ensures Last(Split(s, c)) == Last(Split(s[1..], c)) || Last(Split(s, c)) == s
  {
    var t := s[1..];
    var r := Split(t, c);
    if s[0] == c {
      assert Split(s, c) == [""] + r;
    } else if |r| > 1 {
      assert Split(s, c) == [[s[0]] + r[0]] + r[1..];
    } else {
      SplitSingle(t, c);
      SplitNoSep(t, c);
      assert Split(s, c) == [[s[0]] + t];
      assert s == [s[0]] + t;
    }
  }

  lemma {:induction false} LastPieceIsSuffix(s: string, c: char)
    ensures IsSuffix(Last(Split(s, c)), s)
    decreases |s|
  {
    if |s| > 0 {
      LastPieceIsSuffix(s[1..], c);
      LastPieceStep(s, c);
      if Last(Split(s, c)) == Last(Split(s[1..], c)) {
        SuffixOfTail(s, Last(Split(s[1..], c)));
      } else {
        assert s[|s| - |s|..] == s;
      }
    }
  }

  /** Python's `s.split(c)[-1]`: the text after the last `c`, or all of `s` when there is none. */
  function AfterLast(s: string, c: char): (r: string)
    ensures c !in r
    ensures |r| <= |s| && s[|s| - |r|..] == r
    ensures c !in s ==> r == s
  {
    LastPieceIsSuffix(s, c);
    SplitPartsFree(s, c);
    SplitSingle(s, c);
    JoinSplit(s, c);
    Last(Split(s, c))
  }

  /** The value after the last separator is exactly the separator-free tail. */
  lemma AfterLastOf(p: string, v: string, c: char)
    requires c !in v
    ensures AfterLast(p + [c] + v, c) == v
  {
    SplitAppend(p, v, c);
    SplitNoSep(v, c);
  }
}
