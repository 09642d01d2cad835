/**
 * The few shapes of Python `re` patterns the markdown extractor uses, with the
 * backtracking of Python's engine worked out by hand for each shape:
 *
 *   - `re.search`: the leftmost position at which a pattern matches;
 *   - `\s*([^\n]+)` and `\s*(.+?)$` (multi-line) after a fixed prefix;
 *   - `\s*\n\s*\n\s*([^\n]+)` ("a header, a blank line, the next line");
 *   - a lazy `^(.+?)` at a line start followed by the rest of a pattern.
 *
 * `\s` is `Text.PySpace`; it includes `\n`, so a `\s*` may cross lines.
 */
module Regex {
  import opened Wrappers
  import opened Text

  /** `re.search`: the first position from `from` on at which `at` matches, with its capture. */
  function Search<T(==)>(s: string, at: (string, nat) -> Option<T>, from: nat): (r: Option<(nat, T)>)
    ensures r.Some? ==> from <= r.value.0 <= |s| && at(s, r.value.0) == Some(r.value.1)
    ensures r.Some? ==> forall k :: from <= k < r.value.0 ==> at(s, k).None?
    ensures r.None? ==> forall k :: from <= k <= |s| ==> at(s, k).None?
    decreases |s| + 1 - from
  {
    if from > |s| then None
    else match at(s, from)
      case Some(v) => Some((from, v))
      case None => Search(s, at, from + 1)
  }

  /** A position where the pattern matches, with no match before it, is the one the search finds. */
  lemma {:induction false} SearchIs<T>(s: string, at: (string, nat) -> Option<T>, from: nat, i: nat)
    requires from <= i <= |s| && at(s, i).Some?
    requires forall k :: from <= k < i ==> at(s, k).None?
    ensures Search(s, at, from) == Some((i, at(s, i).value))
    decreases i - from
  {
    if from < i {
      SearchIs(s, at, from + 1, i);
    }
  }

  /** A pattern that matches somewhere is found, at that position or earlier. */
  lemma SearchFindsAny<T>(s: string, at: (string, nat) -> Option<T>, k: nat)
    requires k <= |s| && at(s, k).Some?
    ensures Search(s, at, 0).Some?
    ensures Search(s, at, 0).value.0 <= k
  {
  }

  /** The number of newlines in `s[lo..hi]`. */
  function CountNewlines(s: string, lo: nat, hi: nat): nat
    requires lo <= hi <= |s|
    decreases hi - lo
  {
    if lo == hi then 0 else CountNewlines(s, lo, hi - 1) + (if s[hi - 1] == '\n' then 1 else 0)
  }

  lemma {:induction false} CountNewlinesMonotone(s: string, lo: nat, a: nat, b: nat)
    requires lo <= a <= b <= |s|
    ensures CountNewlines(s, lo, a) <= CountNewlines(s, lo, b)
    decreases b - a
  {
    if a < b {
      CountNewlinesMonotone(s, lo, a, b - 1);
    }
  }

  /** A piece of text as long as its newline count is made of newlines only. */
  lemma {:induction false} CountNewlinesAtMost(s: string, lo: nat, hi: nat)
    requires lo <= hi <= |s|
    ensures CountNewlines(s, lo, hi) <= hi - lo
    decreases hi - lo
  {
    if lo < hi {
      CountNewlinesAtMost(s, lo, hi - 1);
    }
  }

  /** The newline count of a piece depends on the piece only, not on where it sits. */
  lemma {:induction false} CountNewlinesShift(s: string, t: string, off: nat, lo: nat, hi: nat)
    requires lo <= hi <= |t| && off + |t| <= |s| && t == s[off..off + |t|]
    ensures CountNewlines(t, lo, hi) == CountNewlines(s, off + lo, off + hi)
    decreases hi - lo
  {
    if lo < hi {
      assert t[hi - 1] == s[off + hi - 1];
      CountNewlinesShift(s, t, off, lo, hi - 1);
    }
  }

  /** The last position in `s[lo..hi]` that is not a newline, if there is one. */
  function LastNonNewline(s: string, lo: nat, hi: nat): (r: Option<nat>)
    requires lo <= hi <= |s|
    ensures r.Some? ==> lo <= r.value < hi && s[r.value] != '\n'
    ensures r.Some? ==> forall k :: r.value < k < hi ==> s[k] == '\n'
    ensures r.None? ==> forall k :: lo <= k < hi ==> s[k] == '\n'
    decreases hi - lo
  {
    if lo == hi then None
    else if s[hi - 1] != '\n' then Some(hi - 1)
    else LastNonNewline(s, lo, hi - 1)
  }

  /**
   * Where the group of `\s*` + `newlines` times `\n\s*` + `([^\n]+)` can start
   * when the pattern is tried at `p`: after whitespace only, on a character
   * that is not a newline, with at least `newlines` newlines on the way.
   */
  ghost predicate TailStartsAt(s: string, p: nat, newlines: nat, g: nat) {
    p <= g < |s| && s[g] != '\n' && AllSatisfy(s, p, g, PySpace)
    && CountNewlines(s, p, g) >= newlines
  }

  ghost predicate TailMatches(s: string, p: nat, newlines: nat) {
    exists g: nat :: TailStartsAt(s, p, newlines, g)
  }

  /**
   * The capture of `\s*` + `newlines` times `\n\s*` + `([^\n]+)` tried at `p`.
   * Every `\s*` is greedy, so Python backtracks to the last admissible group
   * start: the first non-whitespace character when there is one, and
   * otherwise the last non-newline whitespace character before the end.
   * `\s*(.+?)$` under `re.MULTILINE` captures the same text as `\s*([^\n]+)`.
   */
  function Tail(s: string, p: nat, newlines: nat): (r: Option<string>)
    ensures r.Some? ==> |r.value| > 0 && '\n' !in r.value && IsSliceOf(r.value, s)
  {
    if p > |s| then None
    else
      var w := SkipWhile(s, p, PySpace);
      var start := if w < |s| then Some(w) else LastNonNewline(s, p, |s|);
      match start
      case None => None
      case Some(g) =>
        if CountNewlines(s, p, g) >= newlines then
          var e := EndOfLine(s, g);
          assert '\n' !in s[g..e] by {
            forall k | 0 <= k < e - g ensures s[g..e][k] != '\n' { assert s[g + k] != '\n'; }
          }
          Some(s[g..e])
        else None
  }

  /** `Tail` matches exactly when some admissible group start exists. */
  lemma TailIff(s: string, p: nat, newlines: nat)
    ensures Tail(s, p, newlines).Some? <==> TailMatches(s, p, newlines)
  {
    if p <= |s| {
      var w := SkipWhile(s, p, PySpace);
      if TailMatches(s, p, newlines) {
        var g0: nat :| TailStartsAt(s, p, newlines, g0);
        assert g0 <= w;
        if w < |s| {
          CountNewlinesMonotone(s, p, g0, w);
        } else {
          var g := LastNonNewline(s, p, |s|);
          assert g.Some? by { assert s[g0] != '\n'; }
          assert g0 <= g.value;
          CountNewlinesMonotone(s, p, g0, g.value);
        }
      }
      if Tail(s, p, newlines).Some? {
        if w < |s| {
          assert TailStartsAt(s, p, newlines, w);
        } else {
          var g := LastNonNewline(s, p, |s|).value;
          assert TailStartsAt(s, p, newlines, g);
        }
      }
    }
  }

  /**
   * The capture starts at the last admissible group start and runs to the
   * end of that line.
   */
  lemma TailFromLastStart(s: string, p: nat, newlines: nat, g: nat)
    requires TailStartsAt(s, p, newlines, g)
    requires forall h: nat :: TailStartsAt(s, p, newlines, h) ==> h <= g
    ensures Tail(s, p, newlines) == Some(s[g..EndOfLine(s, g)])
  {
    var w := SkipWhile(s, p, PySpace);
    assert g <= w;
    if w < |s| {
      CountNewlinesMonotone(s, p, g, w);
      assert TailStartsAt(s, p, newlines, w);
    } else {
      var h := LastNonNewline(s, p, |s|);
      assert h.Some? && g <= h.value by { assert s[g] != '\n'; }
      CountNewlinesMonotone(s, p, g, h.value);
      assert TailStartsAt(s, p, newlines, h.value);
    }
  }

  /** When the tail matches, its capture is the line from the last admissible group start. */
  lemma TailLastStart(s: string, p: nat, newlines: nat)
    ensures Tail(s, p, newlines).Some? ==>
      exists g: nat :: TailStartsAt(s, p, newlines, g) && (forall h: nat :: TailStartsAt(s, p, newlines, h) ==> h <= g)
        && Tail(s, p, newlines).value == s[g..EndOfLine(s, g)]
  {
    if Tail(s, p, newlines).Some? {
      var w := SkipWhile(s, p, PySpace);
      var g := if w < |s| then w else LastNonNewline(s, p, |s|).value;
      assert TailStartsAt(s, p, newlines, g);
      assert forall h: nat :: TailStartsAt(s, p, newlines, h) ==> h <= g;
      TailFromLastStart(s, p, newlines, g);
    }
  }

  /** A match of a tail inside a piece of `s` is a match of the same tail in `s`. */
  lemma TailInSlice(s: string, t: string, off: nat, p: nat, newlines: nat)
    requires off + |t| <= |s| && t == s[off..off + |t|]
    requires Tail(t, p, newlines).Some?
    ensures Tail(s, off + p, newlines).Some?
  {
    TailIff(t, p, newlines);
    var g: nat :| TailStartsAt(t, p, newlines, g);
    CountNewlinesShift(s, t, off, p, g);
    assert off + g < |s| && s[off + g] == t[g];
    forall k | off + p <= k < off + g ensures PySpace(s[k]) {
      assert s[k] == t[k - off];
    }
    assert AllSatisfy(s, off + p, off + g, PySpace);
    assert TailStartsAt(s, off + p, newlines, off + g);
    TailFromStart(s, off + p, newlines, off + g);
  }

  /** With no newline to cross, the group starts at the first non-whitespace character. */
  lemma TailAtNonSpace(s: string, p: nat, g: nat)
    requires p <= g < |s| && AllSatisfy(s, p, g, PySpace) && !PySpace(s[g])
    ensures Tail(s, p, 0) == Some(s[g..EndOfLine(s, g)])
  {
    SkipWhileIs(s, p, PySpace, g);
  }

  lemma TailFromStart(s: string, p: nat, newlines: nat, g: nat)
    requires TailStartsAt(s, p, newlines, g)
    ensures Tail(s, p, newlines).Some?
  {
    TailIff(s, p, newlines);
  }

  /** `^` under `re.MULTILINE`: the start of the text, or just after a newline. */
  predicate LineStart(s: string, i: nat) {
    i == 0 || (0 < i <= |s| && s[i - 1] == '\n')
  }

  /** The first cut `j` in `[from, e]` after which `rest` matches. */
  function FirstCut<T(==)>(s: string, from: nat, e: nat, rest: (string, nat) -> Option<T>): (r: Option<(nat, T)>)
    requires e <= |s|
    ensures r.Some? ==> from <= r.value.0 <= e && rest(s, r.value.0) == Some(r.value.1)
    ensures r.Some? ==> forall k :: from <= k < r.value.0 ==> rest(s, k).None?
    ensures r.None? ==> forall k :: from <= k <= e ==> rest(s, k).None?
    decreases e + 1 - from
  {
    if from > e then None
    else match rest(s, from)
      case Some(v) => Some((from, v))
      case None => FirstCut(s, from + 1, e, rest)
  }

  /**
   * `^(.+?)` followed by `rest`, tried at `i`: the shortest non-empty piece of
   * the line starting at `i` after which `rest` matches (`.` stops at `\n`).
   */
  function LazyLineAt<T(==)>(s: string, i: nat, rest: (string, nat) -> Option<T>): (r: Option<(string, T)>)
    ensures r.Some? ==> LineStart(s, i) && |r.value.0| > 0 && '\n' !in r.value.0
    ensures r.Some? ==> OccursAt(s, r.value.0, i) && rest(s, i + |r.value.0|) == Some(r.value.1)
    ensures r.Some? ==> forall k :: i < k < i + |r.value.0| ==> rest(s, k).None?
  {
    if i < |s| && LineStart(s, i) then
      var e := EndOfLine(s, i);
      match FirstCut(s, i + 1, e, rest)
      case Some((j, v)) =>
        assert '\n' !in s[i..j] by {
          forall k | 0 <= k < j - i ensures s[i..j][k] != '\n' { assert s[i + k] != '\n'; }
        }
        Some((s[i..j], v))
      case None => None
    else None
  }

  /** A lazy-line match: `rest` matches right after group 1, and after no shorter group 1. */
  lemma LazyLineAtRest<T>(s: string, i: nat, rest: (string, nat) -> Option<T>, g: string, v: T)
    requires LazyLineAt(s, i, rest) == Some((g, v))
    ensures rest(s, i + |g|) == Some(v)
    ensures forall k :: i < k < i + |g| ==> rest(s, k).None?
  {
  }

  /** A cut after which `rest` matches, with none before it, is the one `FirstCut` finds. */
  lemma {:induction false} FirstCutIs<T>(s: string, from: nat, e: nat, rest: (string, nat) -> Option<T>, j: nat)
    requires from <= j <= e <= |s| && rest(s, j).Some?
    requires forall k :: from <= k < j ==> rest(s, k).None?
    ensures FirstCut(s, from, e, rest) == Some((j, rest(s, j).value))
    decreases j - from
  {
    if from < j {
      FirstCutIs(s, from + 1, e, rest, j);
    }
  }

  /**
   * The lazy group ends at the first cut `j` on the line after which `rest`
   * matches: the group is `s[i..j]`.
   */
  lemma LazyLineAtIs<T>(s: string, i: nat, rest: (string, nat) -> Option<T>, j: nat)
    requires LineStart(s, i) && i < j <= |s|
    requires forall k :: i <= k < j ==> s[k] != '\n'
    requires rest(s, j).Some?
    requires forall k :: i < k < j ==> rest(s, k).None?
    ensures LazyLineAt(s, i, rest) == Some((s[i..j], rest(s, j).value))
  {
    var e := EndOfLine(s, i);
    FirstCutIs(s, i + 1, e, rest, j);
  }

  /** A literal piece of pattern: matches at `j` when `t` occurs there. */
  function Literal(t: string): (string, nat) -> Option<()> {
    (s: string, j: nat) => if OccursAt(s, t, j) then Some(()) else None
  }

  /** `$` without `re.MULTILINE`: the end of the text, or just before a final newline. */
  function EndAnchor(): (string, nat) -> Option<()> {
    (s: string, j: nat) => if j == |s| || (j + 1 == |s| && s[j] == '\n') then Some(()) else None
  }

  /**
   * `open` + `(.*?)` + `close` under `re.DOTALL`, tried at `i`: where the
   * lazy group ends, i.e. the first position after `open` at which `close`
   * matches (`.` crosses newlines).
   */
  function BetweenAt(s: string, open: string, close: (string, nat) -> Option<()>, i: nat): (r: Option<nat>)
    ensures r.Some? ==> OccursAt(s, open, i) && i + |open| <= r.value <= |s| && close(s, r.value).Some?
    ensures r.Some? ==> forall k :: i + |open| <= k < r.value ==> close(s, k).None?
    ensures r.None? && OccursAt(s, open, i) ==> forall k :: i + |open| <= k <= |s| ==> close(s, k).None?
  {
    if OccursAt(s, open, i) then
      match FirstCut(s, i + |open|, |s|, close)
      case Some((j, _)) => Some(j)
      case None => None
    else None
  }

  /** `re.search(open + '(.*?)' + close, s, re.DOTALL).group(1)`, or `None` when there is no match. */
  function LazyBetween(s: string, open: string, close: (string, nat) -> Option<()>): (r: Option<string>)
    ensures r.Some? ==> IsSliceOf(r.value, s)
  {
    match Search(s, (t: string, i: nat) => BetweenAt(t, open, close, i), 0)
    case Some((i, j)) => Some(s[i + |open|..j])
    case None => None
  }

  /** `open` occurs at `i` and `close` matches somewhere after it. */
  ghost predicate OpensAt(s: string, open: string, close: (string, nat) -> Option<()>, i: nat) {
    OccursAt(s, open, i) && exists j :: i + |open| <= j <= |s| && close(s, j).Some?
  }

  /**
   * The capture starts right after the leftmost `open` that has a `close`
   * after it, and ends at the first `close` after that `open`.
   */
  lemma LazyBetweenIs(s: string, open: string, close: (string, nat) -> Option<()>, i: nat, j: nat)
    requires OccursAt(s, open, i) && i + |open| <= j <= |s| && close(s, j).Some?
    requires forall k :: i + |open| <= k < j ==> close(s, k).None?
    requires forall h :: 0 <= h < i ==> !OpensAt(s, open, close, h)
    ensures LazyBetween(s, open, close) == Some(s[i + |open|..j])
  {
    var at := (t: string, h: nat) => BetweenAt(t, open, close, h);
    assert at(s, i) == Some(j);
    forall h | 0 <= h < i ensures at(s, h).None? {
      if at(s, h).Some? {
        assert OpensAt(s, open, close, h);
      }
    }
    SearchIs(s, at, 0, i);
  }

  /** The search succeeds exactly when `open` occurs somewhere with `close` matching after it. */
  lemma LazyBetweenIff(s: string, open: string, close: (string, nat) -> Option<()>)
    ensures LazyBetween(s, open, close).Some? <==>
      exists i: nat, j: nat :: i + |open| <= j <= |s| && OccursAt(s, open, i) && close(s, j).Some?
  {
    var at := (t: string, i: nat) => BetweenAt(t, open, close, i);
    if exists i: nat, j: nat :: i + |open| <= j <= |s| && OccursAt(s, open, i) && close(s, j).Some? {
      var i: nat, j: nat :| i + |open| <= j <= |s| && OccursAt(s, open, i) && close(s, j).Some?;
      assert at(s, i).Some?;
      SearchFindsAny(s, at, i);
    }
    if LazyBetween(s, open, close).Some? {
      var (i, j) := Search(s, at, 0).value;
      assert at(s, i) == Some(j);
      assert i + |open| <= j <= |s| && OccursAt(s, open, i) && close(s, j).Some?;
    }
  }

  /**
   * With a literal `close`, the captured section never contains `close`: it
   * stops at the first occurrence after `open`.
   */
  lemma LazyBetweenStopsAtFirst(s: string, open: string, close: string)
    requires |close| > 0
    requires LazyBetween(s, open, Literal(close)).Some?
    ensures !Contains(LazyBetween(s, open, Literal(close)).value, close)
  {
    var at := (t: string, i: nat) => BetweenAt(t, open, Literal(close), i);
    var (i, j) := Search(s, at, 0).value;
    var b := BetweenAt(s, open, Literal(close), i);
    assert b == at(s, i) == Some(j);
    var lo := i + |open|;
    assert lo <= j <= |s|;
    var c := s[lo..j];
    assert LazyBetween(s, open, Literal(close)).value == c;
    forall k: nat | k <= |c| ensures !OccursAt(c, close, k) {
      if k + |close| <= |c| {
        assert lo <= lo + k < j;
        assert Literal(close)(s, lo + k).None?;
        OccursInSlice(s, lo, j, close, k);
      }
    }
  }
}
