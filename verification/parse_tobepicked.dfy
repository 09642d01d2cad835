/**
 * `parse_markdown_file` of the candidate-notes importer: recover the fields
 * of one programme from a loosely formatted markdown note and its file stem.
 * Every field is an independent chain of pattern searches with a fallback,
 * and every chain ends in a default, so the extractor is total.
 *
 * The line-shaped patterns are modelled with Python's matching rules (see
 * module Regex).  The two section captures that use `re.DOTALL`
 * (requirements and description) are given as inputs: `None` when the search
 * found nothing, otherwise the text of group 1.
 */
module ParseTobepicked {
  import opened Wrappers
  import opened Text
  import opened Regex
  import opened Identifier

  /** The row the note is turned into, one field per column of the candidate table. */
  datatype ParsedProject = ParsedProject(
    university: string,
    projectName: string,
    englishName: string,
    admissionRate: string,
    importantDate: string,
    description: string,
    url: string,
    ielts: string,
    deadline: string,
    requirements: string,
    tuition: string,
    duration: string
  )

  /** `[：:]`: a full-width or an ASCII colon. */
  predicate IsColon(c: char) {
    c == '：' || c == ':'
  }

  // ---------------------------------------------------------------- university

  /** The rest of `^(.+?)\s*\(QS:` once the lazy group ends at `j`. */
  function QsRest(s: string, j: nat): Option<()> {
    if j <= |s| && OccursAt(s, "(QS:", SkipWhile(s, j, PySpace)) then Some(()) else None
  }

  /** `^(.+?)\s*\(QS:` under `re.MULTILINE`, tried at `i`: group 1. */
  function QsAt(s: string, i: nat): (r: Option<string>)
    ensures r.Some? ==> LineStart(s, i) && |r.value| > 0 && '\n' !in r.value && OccursAt(s, r.value, i)
  {
    match LazyLineAt(s, i, QsRest)
    case Some((g, _)) => Some(g)
    case None => None
  }

  /** The group is followed by `(QS:` after optional whitespace, and no shorter group is. */
  lemma QsAtFacts(s: string, i: nat, g: string)
    requires QsAt(s, i) == Some(g)
    ensures QsRest(s, i + |g|).Some?
    ensures forall k :: i < k < i + |g| ==> QsRest(s, k).None?
  {
    var m := LazyLineAt(s, i, QsRest);
    LazyLineAtRest(s, i, QsRest, g, m.value.1);
  }

  /** The institution named in the note: the text before a QS ranking, else the first line. */
  function ContentUniversity(content: string): (u: string)
    ensures IsSliceOf(u, content)
  {
    match Search(content, QsAt, 0)
    case Some((i, g)) =>
      OccursIsSlice(content, g, i);
      SliceOfSlice(PyStrip(g), g, content);
      PyStrip(g)
    case None =>
      var first := Split(content, '\n')[0];
      FirstPieceIsPrefix(content, '\n');
      OccursIsSlice(content, first, 0);
      SliceOfSlice(PyStrip(first), first, content);
      PyStrip(first)
  }

  /** A note whose first line is `name (QS: …` names that institution. */
  lemma UniversityBeforeQs(name: string, ws: string, more: string)
    requires |name| > 0 && Trimmed(name) && '\n' !in name && !Contains(name, "(QS:")
    requires AllSatisfy(ws, 0, |ws|, PySpace)
    ensures ContentUniversity(name + ws + "(QS:" + more) == name
  {
    var content := name + ws + "(QS:" + more;
    var n := |name|;
    var q := n + |ws|;
    assert forall k :: 0 <= k < n ==> content[k] == name[k];
    assert forall k :: n <= k < q ==> content[k] == ws[k - n];
    assert content[q..q + 4] == "(QS:";
    forall k | 0 <= k < n ensures !OccursAt(content, "(QS:", k) {
      if k + 4 <= n {
        assert content[k..k + 4] == name[k..k + 4];
        assert !OccursAt(name, "(QS:", k);
      } else {
        assert content[n] == '(' || PySpace(content[n]);
        assert content[k..k + 4][n - k] == content[n];
      }
    }
    SkipWhileIs(content, n, PySpace, q);
    forall k | 0 < k < n ensures QsRest(content, k).None? {
      var w := SkipWhile(content, k, PySpace);
      assert !PySpace(content[n - 1]);
      assert w < n;
    }
    LazyLineAtIs(content, 0, QsRest, n);
    assert content[0..n] == name;
    SearchIs(content, QsAt, 0, 0);
    StripStripped(name, PySpace);
  }

  /** A `(QS:` ranking line needs `(QS:` somewhere in the note. */
  lemma QsAtNeedsQs(s: string, i: nat)
    ensures QsAt(s, i).Some? ==> Contains(s, "(QS:")
  {
    if QsAt(s, i).Some? {
      var g := QsAt(s, i).value;
      QsAtFacts(s, i, g);
      var w := SkipWhile(s, i + |g|, PySpace);
      assert OccursAt(s, "(QS:", w);
    }
  }

  /** A note without any `(QS:` is named by its stripped first line. */
  lemma UniversityFromFirstLine(line: string, rest: string)
    requires '\n' !in line && !Contains(line + "\n" + rest, "(QS:")
    ensures ContentUniversity(line + "\n" + rest) == PyStrip(line)
  {
    var content := line + "\n" + rest;
    forall i: nat | i <= |content| ensures QsAt(content, i).None? {
      QsAtNeedsQs(content, i);
    }
    SplitAround(line, rest, '\n');
  }

  /**
   * The institution kept: the file stem's part before the first `-` when it
   * is strictly shorter than the note's and occurs in it, else the note's.
   */
  function PreferFilenameUniversity(fromName: string, fromContent: string): (u: string)
    ensures u == fromName || u == fromContent
    ensures |u| <= |fromContent| && Contains(fromContent, u)
    ensures u == fromName <==> (|fromName| < |fromContent| && Contains(fromContent, fromName)) || fromName == fromContent
  {
    assert OccursAt(fromContent, fromContent, 0);
    if |fromName| < |fromContent| && Contains(fromContent, fromName) then fromName else fromContent
  }

  // ----------------------------------------------------------- programme names

  /** Substrings that show a name candidate is a link, a school or a ranking rather than a programme. */
  const NameDenylist: seq<string> := ["http", "www", "学院", "QS", ".edu", ".sg", ".hk"]

  /** The same check for the English name, which may mention a school or a ranking. */
  const EnglishDenylist: seq<string> := ["http", "www", ".edu", ".sg", ".hk"]

  predicate ContainsAny(s: string, words: seq<string>) {
    exists i | 0 <= i < |words| :: Contains(s, words[i])
  }

  predicate ValidName(s: string) {
    !ContainsAny(s, NameDenylist) && |s| > 3
  }

  predicate ValidEnglishName(s: string) {
    !ContainsAny(s, EnglishDenylist) && |s| > 3
  }

  /** The rest of `^(.+?)\s*SEP\s*(.+?)$` once the lazy group 1 ends at `j`: group 2. */
  function SeparatorRest(s: string, j: nat, sep: char): (r: Option<string>)
    ensures r.Some? ==> |r.value| > 0 && '\n' !in r.value
    ensures r.Some? ==> j <= |s| && SkipWhile(s, j, PySpace) < |s| && s[SkipWhile(s, j, PySpace)] == sep
  {
    if j > |s| then None
    else
      var w := SkipWhile(s, j, PySpace);
      if w < |s| && s[w] == sep then Tail(s, w + 1, 0) else None
  }

  /** `SeparatorRest` as the pattern piece that follows the lazy group 1. */
  function PairRest(sep: char): (string, nat) -> Option<string> {
    (t: string, j: nat) => SeparatorRest(t, j, sep)
  }

  /** Applying `PairRest` is `SeparatorRest`. */
  lemma PairRestIs(sep: char, t: string, j: nat)
    ensures PairRest(sep)(t, j) == SeparatorRest(t, j, sep)
  {
  }

  /** `^(.+?)\s*SEP\s*(.+?)$` under `re.MULTILINE`, tried at `i`: both groups. */
  function PairAt(s: string, i: nat, sep: char): Option<(string, string)> {
    LazyLineAt(s, i, PairRest(sep))
  }

  /** `PairAt` as a pattern for `Search`. */
  function PairMatcher(sep: char): (string, nat) -> Option<(string, string)> {
    (t: string, i: nat) => PairAt(t, i, sep)
  }

  /**
   * A `name SEP english` match: group 1 is one line starting a line, the
   * separator and group 2 follow it, and no shorter group 1 is followed by
   * the separator.
   */
  lemma PairAtFacts(s: string, i: nat, sep: char, g1: string, g2: string)
    requires PairAt(s, i, sep) == Some((g1, g2))
    ensures LineStart(s, i) && |g1| > 0 && '\n' !in g1 && OccursAt(s, g1, i)
    ensures PairRest(sep)(s, i + |g1|) == Some(g2)
    ensures forall k :: i < k < i + |g1| ==> PairRest(sep)(s, k).None?
  {
    LazyLineAtRest(s, i, PairRest(sep), g1, g2);
  }

  /** The first `name SEP english` line of the note, both sides stripped. */
  function PairCandidate(content: string, sep: char): (r: Option<(string, string)>)
    ensures r.Some? ==> Trimmed(r.value.0) && Trimmed(r.value.1) && '\n' !in r.value.0 && '\n' !in r.value.1
  {
    match Search(content, PairMatcher(sep), 0)
    case Some((k, (g1, g2))) =>
      PairAtFacts(content, k, sep, g1, g2);
      PairRestIs(sep, content, k + |g1|);
      NoNewlineInStrip(g1);
      NoNewlineInStrip(g2);
      Some((PyStrip(g1), PyStrip(g2)))
    case None => None
  }

  /** There is no candidate exactly when no position of the note matches the pattern. */
  lemma PairCandidateNone(content: string, sep: char)
    ensures PairCandidate(content, sep).None? <==> forall i :: 0 <= i <= |content| ==> PairAt(content, i, sep).None?
  {
    var m := Search(content, PairMatcher(sep), 0);
    assert PairCandidate(content, sep).None? <==> m.None?;
    if m.Some? {
      assert PairMatcher(sep)(content, m.value.0).Some?;
    } else {
      forall i | 0 <= i <= |content| ensures PairAt(content, i, sep).None? {
        assert PairMatcher(sep)(content, i).None?;
      }
    }
  }

  /** Stripping a single line keeps it a single line. */
  lemma NoNewlineInStrip(g: string)
    requires '\n' !in g
    ensures '\n' !in PyStrip(g)
  {
    var a, b := StripBounds(g, PySpace);
    assert forall k :: 0 <= k < b - a ==> PyStrip(g)[k] == g[a + k];
  }

  /** Whitespace, the separator, whitespace, then a line's worth of text: group 2 is that text. */
  lemma SeparatorRestOf(s: string, j: nat, sep: char, w: nat, g: nat, e: nat)
    requires j <= w < g < e <= |s| && s[w] == sep && !PySpace(sep)
    requires AllSatisfy(s, j, w, PySpace) && AllSatisfy(s, w + 1, g, PySpace) && !PySpace(s[g])
    requires forall k :: g <= k < e ==> s[k] != '\n'
    requires e < |s| ==> s[e] == '\n'
    ensures SeparatorRest(s, j, sep) == Some(s[g..e])
  {
    SkipWhileIs(s, j, PySpace, w);
    TailAtNonSpace(s, w + 1, g);
    SkipWhileIs(s, g, NotNewline, e);
  }

  /** Before the end of a first line free of the separator, the separator cannot follow. */
  lemma SeparatorRestNoneBefore(s: string, k: nat, n: nat, sep: char)
    requires 0 < k < n <= |s| && !PySpace(s[n - 1])
    requires forall m :: k <= m < n ==> s[m] != sep
    ensures SeparatorRest(s, k, sep).None?
  {
    var v := SkipWhile(s, k, PySpace);
    assert v < n;
  }

  /** The pair pattern at the start of a text whose first line is `name SEP english`, by positions. */
  lemma PairAtFirstLine(s: string, sep: char, n: nat, w: nat, g: nat, e: nat)
    requires 0 < n <= w < g < e <= |s| && s[w] == sep && !PySpace(sep)
    requires forall k :: 0 <= k < n ==> s[k] != '\n' && s[k] != sep
    requires !PySpace(s[n - 1])
    requires AllSatisfy(s, n, w, PySpace) && AllSatisfy(s, w + 1, g, PySpace) && !PySpace(s[g])
    requires forall k :: g <= k < e ==> s[k] != '\n'
    requires e < |s| ==> s[e] == '\n'
    ensures PairAt(s, 0, sep) == Some((s[..n], s[g..e]))
  {
    SeparatorRestOf(s, n, sep, w, g, e);
    PairRestIs(sep, s, n);
    forall k | 0 < k < n ensures PairRest(sep)(s, k).None? {
      SeparatorRestNoneBefore(s, k, n, sep);
      PairRestIs(sep, s, k);
    }
    LazyLineAtIs(s, 0, PairRest(sep), n);
    assert s[0..n] == s[..n];
  }

  /** A note whose first line is `name SEP english` gives that pair. */
  lemma PairCandidateOf(name: string, ws1: string, sep: char, ws2: string, english: string, rest: string)
    requires |name| > 0 && Trimmed(name) && '\n' !in name && sep !in name && !PySpace(sep)
    requires AllSatisfy(ws1, 0, |ws1|, PySpace) && AllSatisfy(ws2, 0, |ws2|, PySpace)
    requires |english| > 0 && Trimmed(english) && '\n' !in english
    requires rest == "" || rest[0] == '\n'
    ensures PairCandidate(name + ws1 + [sep] + ws2 + english + rest, sep) == Some((name, english))
  {
    var content := name + ws1 + [sep] + ws2 + english + rest;
    var n := |name|;
    var w := n + |ws1|;
    var g := w + 1 + |ws2|;
    var e := g + |english|;
    assert forall k :: 0 <= k < n ==> content[k] == name[k];
    assert forall k :: n <= k < w ==> content[k] == ws1[k - n];
    assert content[w] == sep;
    assert forall k :: w + 1 <= k < g ==> content[k] == ws2[k - w - 1];
    assert forall k :: g <= k < e ==> content[k] == english[k - g];
    assert e < |content| ==> content[e] == '\n';
    PairAtFirstLine(content, sep, n, w, g, e);
    assert content[..n] == name;
    assert content[g..e] == english;
    assert PairMatcher(sep)(content, 0) == Some((name, english));
    SearchIs(content, PairMatcher(sep), 0, 0);
    StripStripped(name, PySpace);
    StripStripped(english, PySpace);
  }

  /**
   * The project name and English name.  The file stem's programme part is
   * the first choice; a valid `name - english` line overrides it; a
   * `name | english` line only fills a field that is still the sentinel.
   */
  function ProjectNames(fromName: Option<string>, dash: Option<(string, string)>, pipe: Option<(string, string)>): (names: (string, string))
    // a valid dash-line name wins, even over the file stem
    ensures dash.Some? && ValidName(dash.value.0) ==> names.0 == dash.value.0
    ensures dash.Some? && ValidEnglishName(dash.value.1) ==> names.1 == dash.value.1
    // the pipe line never overwrites a field that already holds a value
    ensures !(dash.Some? && ValidName(dash.value.0)) && fromName.Some? && fromName.value != "" && fromName.value != Sentinel
            ==> names.0 == fromName.value
    // the sentinel is left only when no source supplied a value
    ensures names.0 == Sentinel <==>
              (fromName.None? || fromName.value == "" || fromName.value == Sentinel)
              && !(dash.Some? && ValidName(dash.value.0)) && !(pipe.Some? && ValidName(pipe.value.0))
    ensures names.1 == Sentinel <==>
              !(dash.Some? && ValidEnglishName(dash.value.1)) && !(pipe.Some? && ValidEnglishName(pipe.value.1))
    // the pipe line fills a field no earlier source supplied
    ensures (&& !(dash.Some? && ValidName(dash.value.0))
             && (fromName.None? || fromName.value == "" || fromName.value == Sentinel)
             && pipe.Some? && ValidName(pipe.value.0))
            ==> names.0 == pipe.value.0
    ensures !(dash.Some? && ValidEnglishName(dash.value.1)) && pipe.Some? && ValidEnglishName(pipe.value.1)
            ==> names.1 == pipe.value.1
    // every value comes from one of the sources
    ensures names.0 == Sentinel || (fromName.Some? && names.0 == fromName.value)
            || (dash.Some? && names.0 == dash.value.0) || (pipe.Some? && names.0 == pipe.value.0)
    ensures names.1 == Sentinel || (dash.Some? && names.1 == dash.value.1) || (pipe.Some? && names.1 == pipe.value.1)
  {
    var project0 := if fromName.Some? && fromName.value != "" then fromName.value else Sentinel;
    var project1 := if dash.Some? && ValidName(dash.value.0) then dash.value.0 else project0;
    var english1 := if dash.Some? && ValidEnglishName(dash.value.1) then dash.value.1 else Sentinel;
    if english1 == Sentinel || project1 == Sentinel then
      var project2 := if pipe.Some? && project1 == Sentinel && ValidName(pipe.value.0) then pipe.value.0 else project1;
      var english2 := if pipe.Some? && english1 == Sentinel && ValidEnglishName(pipe.value.1) then pipe.value.1 else english1;
      (project2, english2)
    else
      (project1, english1)
  }

  // ----------------------------------------------------------------------- url

  /**
   * `https?://[^\s\n]+` tried at `i`: the whole match.  When `https://` is
   * present the optional `s` is taken; giving it back cannot help, since
   * `://` would then have to start at that `s`.
   */
  function UrlAt(s: string, i: nat): (r: Option<string>)
    ensures r.Some? <==> (OccursAt(s, "http://", i) && i + 7 < |s| && !PySpace(s[i + 7]))
                         || (OccursAt(s, "https://", i) && i + 8 < |s| && !PySpace(s[i + 8]))
    ensures r.Some? ==> StartsWith(r.value, "http://") || StartsWith(r.value, "https://")
    ensures r.Some? ==> forall k :: 0 <= k < |r.value| ==> !PySpace(r.value[k])
    // the match is the text at `i`, and it runs to the next whitespace or the end
    ensures r.Some? ==> OccursAt(s, r.value, i)
    ensures r.Some? ==> i + |r.value| == |s| || PySpace(s[i + |r.value|])
  {
    SchemesExclusive(s, i);
    var scheme := if OccursAt(s, "https://", i) then "https://" else "http://";
    if OccursAt(s, scheme, i) && i + |scheme| < |s| && !PySpace(s[i + |scheme|]) then
      LinkRun(s, i, scheme);
      Some(s[i..SkipWhile(s, i, NotSpace)])
    else None
  }

  /**
   * The scheme holds no whitespace, so the run of non-whitespace from `i`
   * is the scheme followed by `[^\s\n]+`.
   */
  lemma LinkRun(s: string, i: nat, scheme: string)
    requires scheme == "http://" || scheme == "https://"
    requires OccursAt(s, scheme, i)
    ensures i + |scheme| <= SkipWhile(s, i, NotSpace)
    ensures StartsWith(s[i..SkipWhile(s, i, NotSpace)], scheme)
  {
    var p := i + |scheme|;
    forall k | i <= k < p ensures NotSpace(s[k]) {
      assert s[k] == scheme[k - i];
    }
    SkipWhileAtLeast(s, i, NotSpace, p);
    var e := SkipWhile(s, i, NotSpace);
    assert s[i..e][..|scheme|] == s[i..p];
  }

  /** `https://` and `http://` never both start at one place: the fifth character differs. */
  lemma SchemesExclusive(s: string, i: nat)
    ensures OccursAt(s, "https://", i) ==> !OccursAt(s, "http://", i)
  {
    if OccursAt(s, "https://", i) {
      assert s[i + 4] == 's';
    }
  }

  /** The first link in the note, or the sentinel. */
  function Url(content: string): (url: string)
    ensures url == Sentinel || StartsWith(url, "http://") || StartsWith(url, "https://")
    ensures url == Sentinel <==> forall i :: 0 <= i <= |content| ==> UrlAt(content, i).None?
    ensures url != Sentinel ==>
      exists i :: 0 <= i <= |content| && UrlAt(content, i) == Some(url) && forall k :: 0 <= k < i ==> UrlAt(content, k).None?
  {
    match Search(content, UrlAt, 0)
    case Some((_, u)) => u
    case None => Sentinel
  }

  /** A note that starts with a link gives that link, up to the first whitespace. */
  lemma UrlOfLink(scheme: string, link: string, rest: string)
    requires scheme == "http://" || scheme == "https://"
    requires |link| > 0 && forall k :: 0 <= k < |link| ==> !PySpace(link[k])
    requires |rest| > 0 ==> PySpace(rest[0])
    ensures Url(scheme + link + rest) == scheme + link
  {
    var s := scheme + link + rest;
    assert s[..|scheme|] == scheme;
    assert s[|scheme|] == link[0];
    SearchIs(s, UrlAt, 0, 0);
    var u := UrlAt(s, 0).value;
    assert u == s[..|u|];
    assert forall k :: |scheme| <= k < |scheme| + |link| ==> s[k] == link[k - |scheme|];
    assert |rest| > 0 ==> s[|scheme| + |link|] == rest[0];
    assert |u| == |scheme| + |link|;
    assert s[..|scheme| + |link|] == scheme + link;
  }

  // ------------------------------------------------------------------- tuition

  /** `学费\s*\n\s*\n\s*([^\n]+)` tried at `i`. */
  function TuitionAt(s: string, i: nat): (r: Option<string>)
    ensures r.Some? <==> OccursAt(s, "学费", i) && TailMatches(s, i + 2, 2)
    ensures r.Some? ==> |r.value| > 0 && '\n' !in r.value && IsSliceOf(r.value, s)
  {
    if OccursAt(s, "学费", i) then TailIff(s, i + 2, 2); Tail(s, i + 2, 2) else None
  }

  function IeltsMarkAt(s: string, i: nat): Option<()> {
    if OccursAt(s, "雅思", i) then Some(()) else None
  }

  /**
   * `re.sub(r'雅思.*?$', '', t, flags=re.MULTILINE)` on one line: everything
   * from the first `雅思` to the end of the line is dropped.
   */
  function CutAtIelts(t: string): (r: string)
    ensures |r| <= |t| && r == t[..|r|]
    ensures !Contains(r, "雅思")
    ensures Contains(t, "雅思") ==> OccursAt(t, "雅思", |r|)
    ensures !Contains(t, "雅思") ==> r == t
  {
    match Search(t, IeltsMarkAt, 0)
    case Some((k, _)) =>
      NoMarkBefore(t, k);
      t[..k]
    case None =>
      NoMarkBefore(t, |t|);
      assert t[..|t|] == t;
      t
  }

  /** With no `雅思` starting before `k`, the text before `k` has none. */
  lemma NoMarkBefore(t: string, k: nat)
    requires k <= |t|
    requires forall i :: 0 <= i < k ==> IeltsMarkAt(t, i).None?
    ensures !Contains(t[..k], "雅思")
  {
    forall i: nat | i <= k
      ensures !OccursAt(t[..k], "雅思", i)
    {
      if i + 2 <= k {
        assert t[..k][i..i + 2] == t[i..i + 2];
        assert IeltsMarkAt(t, i).None?;
      }
    }
  }

  /** The tuition line cleaned of any IELTS text that shares it. */
  function CleanTuition(line: string): (r: string)
    ensures !Contains(r, "雅思")
    ensures IsSliceOf(r, line)
  {
    var t := PyStrip(line);
    var cut := CutAtIelts(t);
    var r := PyStrip(cut);
    assert IsSliceOf(cut, t) by { assert cut == t[0..|cut|]; }
    SliceOfSlice(r, cut, t);
    SliceOfSlice(r, t, line);
    NotContainsInSlice(r, cut, "雅思");
    r
  }

  /** Cutting text that has no `雅思` before an appended `雅思` keeps exactly that text. */
  lemma CutBeforeMark(u: string, x: string)
    requires !Contains(u, "雅思")
    ensures CutAtIelts(u + "雅思" + x) == u
  {
    var t := u + "雅思" + x;
    var r := CutAtIelts(t);
    assert OccursAt(t, "雅思", |u|);
    assert t[|u|] == '雅' && t[|u| + 1] == '思';
    assert |r| == |u| by {
      if |r| >= |u| + 2 {
        assert r[|u|..|u| + 2] == "雅思";
        assert OccursAt(r, "雅思", |u|);
      } else if |r| + 2 <= |u| {
        assert t[|r|..|r| + 2] == u[|r|..|r| + 2];
        assert OccursAt(u, "雅思", |r|);
      }
    }
    assert t[..|u|] == u;
  }

  /** Whitespace padding around trimmed text is exactly what stripping removes. */
  lemma StripPadded(ws1: string, t: string, ws2: string)
    requires AllSatisfy(ws1, 0, |ws1|, PySpace) && AllSatisfy(ws2, 0, |ws2|, PySpace)
    requires Trimmed(t)
    ensures PyStrip(ws1 + t + ws2) == t
  {
    var line := ws1 + t + ws2;
    assert line[|ws1|..|ws1| + |t|] == t;
    StripIsUnique(line, PySpace, |ws1|, |ws1| + |t|);
  }

  /** Whitespace after trimmed text is exactly what stripping removes. */
  lemma StripTrailing(t: string, ws: string)
    requires AllSatisfy(ws, 0, |ws|, PySpace)
    requires Trimmed(t)
    ensures PyStrip(t + ws) == t
  {
    var line := t + ws;
    assert line[0..|t|] == t;
    StripIsUnique(line, PySpace, 0, |t|);
  }

  /** Whitespace after text without `雅思` cannot complete a `雅思`. */
  lemma NoMarkInPadded(fee: string, ws: string)
    requires AllSatisfy(ws, 0, |ws|, PySpace) && !Contains(fee, "雅思")
    ensures !Contains(fee + ws, "雅思")
  {
    var u := fee + ws;
    forall k: nat | k <= |u| ensures !OccursAt(u, "雅思", k) {
      if k + 2 <= |fee| {
        assert u[k..k + 2] == fee[k..k + 2];
        assert !OccursAt(fee, "雅思", k);
      } else if k + 2 <= |u| {
        assert PySpace(u[k + 1]);
      }
    }
  }

  /** Trimmed text, whitespace and then `雅思` with trimmed text after it is itself trimmed. */
  lemma MarkedTrimmed(fee: string, ws: string, x: string)
    requires |fee| > 0 && Trimmed(fee)
    requires |x| > 0 ==> !PySpace(x[|x| - 1])
    ensures Trimmed(fee + ws + "雅思" + x)
  {
    var t := fee + ws + "雅思" + x;
    assert t[0] == fee[0];
    if |x| == 0 { assert t[|t| - 1] == '思'; } else { assert t[|t| - 1] == x[|x| - 1]; }
  }

  /** A fee with IELTS text after it on the same line is cleaned down to the fee. */
  lemma CleanTuitionCut(ws1: string, fee: string, ws2: string, x: string, ws3: string)
    requires AllSatisfy(ws1, 0, |ws1|, PySpace) && AllSatisfy(ws2, 0, |ws2|, PySpace) && AllSatisfy(ws3, 0, |ws3|, PySpace)
    requires |fee| > 0 && Trimmed(fee) && !Contains(fee, "雅思")
    requires |x| > 0 ==> !PySpace(x[|x| - 1])
    ensures CleanTuition(ws1 + fee + ws2 + "雅思" + x + ws3) == fee
  {
    var u := fee + ws2;
    var t := u + "雅思" + x;
    assert ws1 + fee + ws2 + "雅思" + x + ws3 == ws1 + t + ws3;
    MarkedTrimmed(fee, ws2, x);
    StripPadded(ws1, t, ws3);
    NoMarkInPadded(fee, ws2);
    CutBeforeMark(u, x);
    StripTrailing(fee, ws2);
  }

  /** A tuition line without IELTS text is cleaned down to its stripped text. */
  lemma CleanTuitionPlain(ws1: string, fee: string, ws2: string)
    requires AllSatisfy(ws1, 0, |ws1|, PySpace) && AllSatisfy(ws2, 0, |ws2|, PySpace)
    requires Trimmed(fee) && !Contains(fee, "雅思")
    ensures CleanTuition(ws1 + fee + ws2) == fee
  {
    var line := ws1 + fee + ws2;
    assert line[|ws1|..|ws1| + |fee|] == fee;
    StripIsUnique(line, PySpace, |ws1|, |ws1| + |fee|);
    StripStripped(fee, PySpace);
  }

  /**
   * The tuition figure: the cleaned line under the first `学费` header, or
   * the sentinel when there is none or the cleaned line is under three
   * characters.
   */
  function Tuition(content: string): (fee: string)
    ensures fee == Sentinel || (|fee| >= 3 && !Contains(fee, "雅思"))
    ensures fee == Sentinel || IsSliceOf(fee, content)
    ensures Search(content, TuitionAt, 0).None? ==> fee == Sentinel
    ensures Search(content, TuitionAt, 0).Some? ==>
      var cleaned := CleanTuition(Search(content, TuitionAt, 0).value.1);
      fee == if |cleaned| < 3 then Sentinel else cleaned
  {
    match Search(content, TuitionAt, 0)
    case Some((_, line)) =>
      var fee := CleanTuition(line);
      if |fee| < 3 then Sentinel else SliceOfSlice(fee, line, content); fee
    case None => Sentinel
  }

  // ---------------------------------------------------------------------- IELTS

  /** `雅思\s*\n\s*\n\s*([^\n]+)` tried at `i`. */
  function IeltsHeaderAt(s: string, i: nat): (r: Option<string>)
    ensures r.Some? <==> OccursAt(s, "雅思", i) && TailMatches(s, i + 2, 2)
    ensures r.Some? ==> |r.value| > 0 && '\n' !in r.value && IsSliceOf(r.value, s)
  {
    if OccursAt(s, "雅思", i) then TailIff(s, i + 2, 2); Tail(s, i + 2, 2) else None
  }

  /** `(\d+(?:\.\d+)?(?:/\d+)?)` tried at `i`: digits, then optionally `.digits`, then optionally `/digits`. */
  function ScoreAt(s: string, i: nat): (r: Option<string>)
    ensures r.Some? <==> i < |s| && IsDigit(s[i])
    ensures r.Some? ==> |r.value| > 0 && OccursAt(s, r.value, i)
  {
    if i < |s| && IsDigit(s[i]) then
      var e1 := SkipWhile(s, i, IsDigit);
      var e2 := if e1 + 1 < |s| && s[e1] == '.' && IsDigit(s[e1 + 1]) then SkipWhile(s, e1 + 1, IsDigit) else e1;
      var e3 := if e2 + 1 < |s| && s[e2] == '/' && IsDigit(s[e2 + 1]) then SkipWhile(s, e2 + 1, IsDigit) else e2;
      Some(s[i..e3])
    else None
  }

  /** `t[lo..hi]` is an optional group `(?:M\d+)`: empty, or the mark `M` and at least one digit. */
  predicate GroupIn(t: string, lo: nat, hi: nat, mark: char)
    requires lo <= hi <= |t|
  {
    lo == hi || (lo + 1 < hi && t[lo] == mark && AllSatisfy(t, lo + 1, hi, IsDigit))
  }

  /** `t` is a whole match of `\d+(?:\.\d+)?(?:/\d+)?`, its runs ending at `a` and `b`. */
  ghost predicate IsScore(t: string) {
    exists a: nat, b: nat :: 0 < a <= b <= |t| && AllSatisfy(t, 0, a, IsDigit) && GroupIn(t, a, b, '.') && GroupIn(t, b, |t|, '/')
  }

  /** Three runs laid out as in a score, given by their ends, make a score-shaped text. */
  lemma ScoreFromRuns(s: string, i: nat, m1: nat, m2: nat, e: nat)
    requires i < m1 <= m2 <= e <= |s|
    requires AllSatisfy(s, i, m1, IsDigit)
    requires m1 < m2 ==> m1 + 1 < m2 && s[m1] == '.' && AllSatisfy(s, m1 + 1, m2, IsDigit)
    requires m2 < e ==> m2 + 1 < e && s[m2] == '/' && AllSatisfy(s, m2 + 1, e, IsDigit)
    ensures IsScore(s[i..e])
  {
    var t := s[i..e];
    assert forall k :: 0 <= k < |t| ==> t[k] == s[i + k];
    assert AllSatisfy(t, 0, m1 - i, IsDigit);
    assert GroupIn(t, m1 - i, m2 - i, '.');
    assert GroupIn(t, m2 - i, |t|, '/');
  }

  /** What `ScoreAt` captures has the shape of a score. */
  lemma ScoreShape(s: string, i: nat)
    requires i < |s| && IsDigit(s[i])
    ensures IsScore(ScoreAt(s, i).value)
  {
    var e1 := SkipWhile(s, i, IsDigit);
    var e2 := if e1 + 1 < |s| && s[e1] == '.' && IsDigit(s[e1 + 1]) then SkipWhile(s, e1 + 1, IsDigit) else e1;
    var e3 := if e2 + 1 < |s| && s[e2] == '/' && IsDigit(s[e2 + 1]) then SkipWhile(s, e2 + 1, IsDigit) else e2;
    assert ScoreAt(s, i) == Some(s[i..e3]);
    ScoreFromRuns(s, i, e1, e2, e3);
  }

  /** Greediness: every score-shaped text at `i` ends within what `ScoreAt` captures. */
  lemma ScoreIsLongest(s: string, i: nat, e: nat)
    requires i < e <= |s| && IsScore(s[i..e])
    ensures ScoreAt(s, i).Some? && e <= i + |ScoreAt(s, i).value|
  {
    var m1, m2 := RunsOfScore(s, i, e);
    ScoreRunsWithin(s, i, e, m1, m2);
  }

  /** The runs of a score-shaped piece of `s`, as positions in `s`. */
  lemma RunsOfScore(s: string, i: nat, e: nat) returns (m1: nat, m2: nat)
    requires i < e <= |s| && IsScore(s[i..e])
    ensures i < m1 <= m2 <= e
    ensures AllSatisfy(s, i, m1, IsDigit)
    ensures m1 < m2 ==> m1 + 1 < m2 && s[m1] == '.' && AllSatisfy(s, m1 + 1, m2, IsDigit)
    ensures m2 < e ==> m2 + 1 < e && s[m2] == '/' && AllSatisfy(s, m2 + 1, e, IsDigit)
  {
    var t := s[i..e];
    var a: nat, b: nat :| 0 < a <= b <= |t| && AllSatisfy(t, 0, a, IsDigit) && GroupIn(t, a, b, '.') && GroupIn(t, b, |t|, '/');
    m1, m2 := i + a, i + b;
    forall k | i <= k < e ensures s[k] == t[k - i] { }
    assert AllSatisfy(s, i, m1, IsDigit);
    assert m1 < m2 ==> s[m1] == '.' && AllSatisfy(s, m1 + 1, m2, IsDigit);
    assert m2 < e ==> s[m2] == '/' && AllSatisfy(s, m2 + 1, e, IsDigit);
  }

  /** The same, with the three runs of a score-shaped text given by their ends `m1` and `m2`. */
  lemma ScoreRunsWithin(s: string, i: nat, e: nat, m1: nat, m2: nat)
    requires i < m1 <= m2 <= e <= |s|
    requires AllSatisfy(s, i, m1, IsDigit)
    requires m1 < m2 ==> m1 + 1 < m2 && s[m1] == '.' && AllSatisfy(s, m1 + 1, m2, IsDigit)
    requires m2 < e ==> m2 + 1 < e && s[m2] == '/' && AllSatisfy(s, m2 + 1, e, IsDigit)
    ensures ScoreAt(s, i).Some? && e <= i + |ScoreAt(s, i).value|
  {
    var e1 := SkipWhile(s, i, IsDigit);
    if m1 == e {
      SkipWhileAtLeast(s, i, IsDigit, e);
      ScoreEndsAfter(s, i, e1);
    } else if m1 < m2 {
      SkipWhileIs(s, i, IsDigit, m1);
      var e2 := SkipWhile(s, e1 + 1, IsDigit);
      if m2 == e {
        SkipWhileAtLeast(s, e1 + 1, IsDigit, e);
      } else {
        SkipWhileIs(s, e1 + 1, IsDigit, m2);
        SkipWhileAtLeast(s, m2 + 1, IsDigit, e);
      }
      ScoreEndsAfter(s, i, e2);
    } else {
      SkipWhileIs(s, i, IsDigit, m1);
      SkipWhileAtLeast(s, m1 + 1, IsDigit, e);
    }
  }

  /** `ScoreAt` never ends before the digits-and-dot prefix it has already read. */
  lemma ScoreEndsAfter(s: string, i: nat, x: nat)
    requires i < |s| && IsDigit(s[i])
    requires var e1 := SkipWhile(s, i, IsDigit);
             x == e1 || (e1 + 1 < |s| && s[e1] == '.' && IsDigit(s[e1 + 1]) && x == SkipWhile(s, e1 + 1, IsDigit))
    ensures x <= i + |ScoreAt(s, i).value|
  {
  }

  /** Text that shows a line is about cost or duration rather than a language score. */
  const CostMarkers: seq<string> := ["$", "HK$", "S$", "学制", "学费"]

  /** The IELTS requirement, labelled `雅思: `; the empty string (not the sentinel) when there is none. */
  function Ielts(content: string): (ielts: string)
    ensures ielts == "" || StartsWith(ielts, "雅思: ")
    ensures ielts != Sentinel
    ensures Search(content, IeltsHeaderAt, 0).None? ==> ielts == ""
    ensures Search(content, IeltsHeaderAt, 0).Some? ==>
      var raw := PyStrip(Search(content, IeltsHeaderAt, 0).value.1);
      && (Search(raw, ScoreAt, 0).Some? ==> ielts == "雅思: " + Search(raw, ScoreAt, 0).value.1)
      && (Search(raw, ScoreAt, 0).None? ==>
            (ielts != "" <==> raw != "" && raw != "雅思" && !ContainsAny(raw, CostMarkers))
            && (ielts != "" ==> ielts == "雅思: " + raw))
  {
    match Search(content, IeltsHeaderAt, 0)
    case None => ""
    case Some((_, line)) =>
      var raw := PyStrip(line);
      match Search(raw, ScoreAt, 0)
      case Some((_, score)) => "雅思: " + score
      case None =>
        if raw != "" && raw != "雅思" && !ContainsAny(raw, CostMarkers) then "雅思: " + raw else ""
  }

  // ------------------------------------------------------------------ deadline

  /** `申请截止[：:]\s*([^\n]+)` tried at `i`. */
  function DeadlineAt(s: string, i: nat): (r: Option<string>)
    ensures r.Some? <==> OccursAt(s, "申请截止", i) && i + 4 < |s| && IsColon(s[i + 4]) && TailMatches(s, i + 5, 0)
    ensures r.Some? ==> |r.value| > 0 && '\n' !in r.value && IsSliceOf(r.value, s)
  {
    if OccursAt(s, "申请截止", i) && i + 4 < |s| && IsColon(s[i + 4]) then TailIff(s, i + 5, 0); Tail(s, i + 5, 0) else None
  }

  /** `申请时间\s*\n\s*\n\s*([^\n]+)` tried at `i`. */
  function ApplicationPeriodAt(s: string, i: nat): (r: Option<string>)
    ensures r.Some? <==> OccursAt(s, "申请时间", i) && TailMatches(s, i + 4, 2)
    ensures r.Some? ==> |r.value| > 0 && '\n' !in r.value && IsSliceOf(r.value, s)
  {
    if OccursAt(s, "申请时间", i) then TailIff(s, i + 4, 2); Tail(s, i + 4, 2) else None
  }

  /**
   * The prefix `申请截止[：:]\s*Round\s*1[：:]` tried at `i`, giving the position
   * after it.  Neither `R` nor `1` is whitespace, so each greedy `\s*` before
   * them never gives anything back.
   */
  function FirstRoundPrefix(s: string, i: nat): (e: Option<nat>)
    ensures e.Some? <==>
      && OccursAt(s, "申请截止", i) && i + 4 < |s| && IsColon(s[i + 4])
      && var w := SkipWhile(s, i + 5, PySpace);
         && OccursAt(s, "Round", w)
         && var w2 := SkipWhile(s, w + 5, PySpace);
            w2 + 1 < |s| && s[w2] == '1' && IsColon(s[w2 + 1])
    ensures e.Some? ==> i + 12 <= e.value <= |s| && s[e.value - 2] == '1' && IsColon(s[e.value - 1])
  {
    if OccursAt(s, "申请截止", i) && i + 4 < |s| && IsColon(s[i + 4]) then
      var w := SkipWhile(s, i + 5, PySpace);
      if OccursAt(s, "Round", w) then
        var w2 := SkipWhile(s, w + 5, PySpace);
        if w2 + 1 < |s| && s[w2] == '1' && IsColon(s[w2 + 1]) then Some(w2 + 2) else None
      else None
    else None
  }

  /** `申请截止[：:]\s*Round\s*1[：:]\s*([^\n]+)` tried at `i`: the prefix, then a group start over whitespace. */
  function FirstRoundAt(s: string, i: nat): (r: Option<string>)
    ensures r.Some? <==> FirstRoundPrefix(s, i).Some? && TailMatches(s, FirstRoundPrefix(s, i).value, 0)
    ensures r.Some? ==> |r.value| > 0 && '\n' !in r.value && IsSliceOf(r.value, s)
  {
    match FirstRoundPrefix(s, i)
    case Some(e) => TailIff(s, e, 0); Tail(s, e, 0)
    case None => None
  }

  /** The deadline patterns in the order they are tried. */
  const DeadlinePatterns: seq<(string, nat) -> Option<string>> := [DeadlineAt, ApplicationPeriodAt, FirstRoundAt]

  /** The index of the first pattern from `k` on that matches somewhere, with its capture. */
  function FirstPattern(s: string, patterns: seq<(string, nat) -> Option<string>>, k: nat): (r: Option<(nat, string)>)
    ensures r.Some? ==> k <= r.value.0 < |patterns|
    ensures r.Some? ==> Search(s, patterns[r.value.0], 0).Some? && Search(s, patterns[r.value.0], 0).value.1 == r.value.1
    ensures r.Some? ==> forall m :: k <= m < r.value.0 ==> Search(s, patterns[m], 0).None?
    ensures r.None? ==> forall m :: k <= m < |patterns| ==> Search(s, patterns[m], 0).None?
    decreases |patterns| - k
  {
    if k >= |patterns| then None
    else match Search(s, patterns[k], 0)
      case Some((_, g)) => Some((k, g))
      case None => FirstPattern(s, patterns, k + 1)
  }

  /** The application deadline: the capture of the first pattern in list order that matches, stripped. */
  function Deadline(content: string): (d: string)
    ensures FirstPattern(content, DeadlinePatterns, 0).None? ==> d == Sentinel
    ensures FirstPattern(content, DeadlinePatterns, 0).Some? ==> d == PyStrip(FirstPattern(content, DeadlinePatterns, 0).value.1)
    ensures '\n' !in d
  {
    match FirstPattern(content, DeadlinePatterns, 0)
    case Some((k, g)) =>
      CaptureIsOneLine(content, DeadlinePatterns[k], g);
      NotInSlice(PyStrip(g), g, '\n');
      PyStrip(g)
    case None => Sentinel
  }

  /** Every deadline pattern ends in `([^\n]+)`, so a capture never spans lines. */
  lemma CaptureIsOneLine(content: string, pattern: (string, nat) -> Option<string>, g: string)
    requires pattern in DeadlinePatterns
    requires Search(content, pattern, 0).Some? && Search(content, pattern, 0).value.1 == g
    ensures '\n' !in g
  {
  }

  /** Wherever the `Round 1` pattern matches, the plain deadline pattern matches too. */
  lemma FirstRoundImpliesDeadline(s: string, i: nat)
    requires FirstRoundAt(s, i).Some?
    ensures DeadlineAt(s, i).Some?
  {
    var w := SkipWhile(s, i + 5, PySpace);
    assert s[w] == 'R' by { assert s[w..w + 5] == "Round"; }
    assert TailStartsAt(s, i + 5, 0, w);
    TailIff(s, i + 5, 0);
  }

  /** The third deadline pattern can never be the one chosen: the first subsumes it. */
  lemma FirstRoundNeverWins(content: string)
    ensures FirstPattern(content, DeadlinePatterns, 0).Some? ==> FirstPattern(content, DeadlinePatterns, 0).value.0 != 2
  {
    var r := Search(content, FirstRoundAt, 0);
    if r.Some? {
      FirstRoundImpliesDeadline(content, r.value.0);
      SearchFindsAny(content, DeadlineAt, r.value.0);
      assert DeadlinePatterns[0] == DeadlineAt;
    }
  }

  // ----------------------------------------------- requirements and description

  /**
   * `re.sub(pattern, ' ', s)` where `pattern` is `p+`: every maximal run of
   * `p`-characters becomes one space.
   */
  /** Collapsing runs keeps every character of interest, in order, when such characters are neither spaces nor in `p`. */
  lemma {:induction false} CollapseRunsKeeps(s: string, p: char -> bool, q: char -> bool)
    requires !q(' ') && forall c :: q(c) ==> !p(c)
    ensures Filter(CollapseRuns(s, p), q) == Filter(s, q)
    decreases |s|
  {
    if |s| > 0 {
      if p(s[0]) {
        var j := SkipWhile(s, 0, p);
        CollapseRunsKeeps(s[j..], p, q);
        FilterMiddle(s, j, |s|, q);
        assert s[j..|s|] == s[j..];
        var r := [' '] + CollapseRuns(s[j..], p);
        assert r[1..] == CollapseRuns(s[j..], p);
      } else {
        CollapseRunsKeeps(s[1..], p, q);
        var r := [s[0]] + CollapseRuns(s[1..], p);
        assert r[1..] == CollapseRuns(s[1..], p);
      }
    }
  }

  function CollapseRuns(s: string, p: char -> bool): (r: string)
    ensures forall i :: 0 <= i < |r| ==> r[i] == ' ' || !p(r[i])
    ensures p(' ') ==> forall i :: 0 <= i < |r| - 1 ==> !(p(r[i]) && p(r[i + 1]))
    ensures |s| > 0 <==> |r| > 0
    ensures |s| > 0 && !p(s[0]) ==> r[0] == s[0]
    ensures |s| > 0 && !p(s[|s| - 1]) ==> r[|r| - 1] == s[|s| - 1]
    decreases |s|
  {
    if |s| == 0 then ""
    else if p(s[0]) then
      var j := SkipWhile(s, 0, p);
      var rest := CollapseRuns(s[j..], p);
      assert |s[j..]| > 0 ==> !p(s[j..][0]);
      [' '] + rest
    else
      [s[0]] + CollapseRuns(s[1..], p)
  }

  /** A one-line text with single spaces between words and none at either end. */
  predicate Normalized(t: string) {
    && '\n' !in t
    && (forall i :: 0 <= i < |t| - 1 ==> !(PySpace(t[i]) && PySpace(t[i + 1])))
    && Trimmed(t)
  }

  /** Collapsing newline runs, then whitespace runs, of trimmed text leaves normalised text. */
  lemma CollapseTwiceNormalized(s: string)
    requires Trimmed(s)
    ensures Normalized(CollapseRuns(CollapseRuns(s, IsNewline), PySpace))
  {
    var lines := CollapseRuns(s, IsNewline);
    var t := CollapseRuns(lines, PySpace);
    assert forall i :: 0 <= i < |t| ==> t[i] == ' ' || !PySpace(t[i]);
    assert forall i :: 0 <= i < |t| ==> t[i] != '\n';
  }

  /** Neither collapse drops a character that is not whitespace. */
  lemma CollapseTwiceKeeps(s: string)
    ensures Filter(CollapseRuns(CollapseRuns(s, IsNewline), PySpace), NotSpace) == Filter(s, NotSpace)
  {
    CollapseRunsKeeps(s, IsNewline, NotSpace);
    CollapseRunsKeeps(CollapseRuns(s, IsNewline), PySpace, NotSpace);
  }

  /** `strip`, then `re.sub(r'\n+', ' ', …)`, then `re.sub(r'\s+', ' ', …)`. */
  function NormalizeSection(capture: string): (t: string)
    ensures Normalized(t)
    // every non-whitespace character of the capture survives, in order, and nothing else but single spaces
    ensures Filter(t, NotSpace) == Filter(capture, NotSpace)
  {
    var stripped := PyStrip(capture);
    FilterStrip(capture, PySpace, NotSpace);
    CollapseTwiceNormalized(stripped);
    CollapseTwiceKeeps(stripped);
    CollapseRuns(CollapseRuns(stripped, IsNewline), PySpace)
  }

  /** A section's text (requirements, description) normalised, or the sentinel when the section is absent. */
  function SectionText(capture: Option<string>): (t: string)
    ensures capture.None? ==> t == Sentinel
    ensures capture.Some? ==> Normalized(t)
    ensures capture.Some? ==> Filter(t, NotSpace) == Filter(capture.value, NotSpace)
  {
    match capture
    case Some(c) => NormalizeSection(c)
    case None => Sentinel
  }

  // ------------------------------------------------------------------ duration

  /** `学制[：:]\s*([^\n]+)` tried at `i`. */
  function DurationAt(s: string, i: nat): (r: Option<string>)
    ensures r.Some? <==> OccursAt(s, "学制", i) && i + 2 < |s| && IsColon(s[i + 2]) && TailMatches(s, i + 3, 0)
    ensures r.Some? ==> |r.value| > 0 && '\n' !in r.value && IsSliceOf(r.value, s)
  {
    if OccursAt(s, "学制", i) && i + 2 < |s| && IsColon(s[i + 2]) then TailIff(s, i + 3, 0); Tail(s, i + 3, 0) else None
  }

  /** The programme length from a `学制:` line of the note, else from one inside the tuition text, else the sentinel. */
  function Duration(content: string, tuition: string): (d: string)
    ensures Search(content, DurationAt, 0).Some? ==> d == PyStrip(Search(content, DurationAt, 0).value.1)
    ensures Search(content, DurationAt, 0).None? && Contains(tuition, "学制") && Search(tuition, DurationAt, 0).Some?
      ==> d == PyStrip(Search(tuition, DurationAt, 0).value.1)
    ensures Search(content, DurationAt, 0).None? && Search(tuition, DurationAt, 0).None? ==> d == Sentinel
    ensures !Contains(tuition, "学制") && Search(content, DurationAt, 0).None? ==> d == Sentinel
    ensures '\n' !in d
  {
    match Search(content, DurationAt, 0)
    case Some((_, g)) => NotInSlice(PyStrip(g), g, '\n'); PyStrip(g)
    case None =>
      if Contains(tuition, "学制") then
        match Search(tuition, DurationAt, 0)
        case Some((_, g)) => NotInSlice(PyStrip(g), g, '\n'); PyStrip(g)
        case None => Sentinel
      else Sentinel
  }

  /** A `学制:` match inside a piece of the note is a match in the note. */
  lemma DurationInSlice(s: string, t: string, off: nat, i: nat)
    requires off + |t| <= |s| && t == s[off..off + |t|]
    ensures DurationAt(t, i).Some? ==> DurationAt(s, off + i).Some?
  {
    if DurationAt(t, i).Some? {
      assert t[i] == s[off + i] && t[i + 1] == s[off + i + 1] && t[i + 2] == s[off + i + 2];
      assert t[i..i + 2] == "学制";
      assert s[off + i..off + i + 2] == "学制";
      TailInSlice(s, t, off, i + 3, 0);
    }
  }

  /**
   * Falling back to the tuition text cannot find a duration the note lacks
   * when that text is the sentinel or a piece of the note.
   */
  lemma FallbackFindsNothing(content: string, tuition: string)
    requires Search(content, DurationAt, 0).None?
    requires tuition == Sentinel || IsSliceOf(tuition, content)
    ensures Duration(content, tuition) == Sentinel
  {
    if tuition != Sentinel {
      var a: nat, b: nat :| a <= b <= |content| && tuition == content[a..b];
      forall i | 0 <= i <= |tuition| ensures DurationAt(tuition, i).None? {
        DurationInSlice(content, tuition, a, i);
        assert DurationAt(content, a + i).None?;
      }
    }
  }

  /**
   * The fallback through the tuition line can only give the sentinel: the
   * tuition text is a piece of the note, so a `学制:` line in it would have
   * matched in the note first.
   */
  lemma DurationFallbackIsSentinel(content: string)
    requires Search(content, DurationAt, 0).None?
    ensures Duration(content, Tuition(content)) == Sentinel
  {
    FallbackFindsNothing(content, Tuition(content));
  }

  // ---------------------------------------------------------------- the record

  /**
   * `parse_markdown_file`: the stem of the file name, the note's text and the
   * two `re.DOTALL` section captures give one candidate row.
   */
  function ParseMarkdownFile(stem: string, content: string, requirements: Option<string>, description: Option<string>): (p: ParsedProject)
    ensures p.admissionRate == Sentinel && p.importantDate == Sentinel
    ensures p.ielts == "" || StartsWith(p.ielts, "雅思: ")
    ensures p.tuition == Sentinel || (|p.tuition| >= 3 && !Contains(p.tuition, "雅思"))
    ensures p.url == Sentinel || StartsWith(p.url, "http://") || StartsWith(p.url, "https://")
    ensures requirements.None? ==> p.requirements == Sentinel
    ensures requirements.Some? ==> Normalized(p.requirements)
    ensures description.None? ==> p.description == Sentinel
    ensures description.Some? ==> Normalized(p.description)
    ensures Contains(ContentUniversity(content), p.university)
    ensures requirements.Some? ==> Filter(p.requirements, NotSpace) == Filter(requirements.value, NotSpace)
    ensures description.Some? ==> Filter(p.description, NotSpace) == Filter(description.value, NotSpace)
    ensures p.url == Sentinel <==> forall i :: 0 <= i <= |content| ==> UrlAt(content, i).None?
    // each line-shaped field is the stripped capture of its first match, or its default
    ensures Search(content, TuitionAt, 0).None? ==> p.tuition == Sentinel
    ensures Search(content, TuitionAt, 0).Some? ==>
      var cleaned := CleanTuition(Search(content, TuitionAt, 0).value.1);
      p.tuition == if |cleaned| < 3 then Sentinel else cleaned
    ensures Search(content, IeltsHeaderAt, 0).None? ==> p.ielts == ""
    ensures FirstPattern(content, DeadlinePatterns, 0).None? ==> p.deadline == Sentinel
    ensures FirstPattern(content, DeadlinePatterns, 0).Some? ==> p.deadline == PyStrip(FirstPattern(content, DeadlinePatterns, 0).value.1)
    ensures Search(content, DurationAt, 0).Some? ==> p.duration == PyStrip(Search(content, DurationAt, 0).value.1)
    ensures Search(content, DurationAt, 0).None? && Search(p.tuition, DurationAt, 0).None? ==> p.duration == Sentinel
  {
    var (nameUniversity, nameProject) := SplitFirst(stem, '-');
    var university := PreferFilenameUniversity(nameUniversity, ContentUniversity(content));
    var names := ProjectNames(nameProject, PairCandidate(content, '-'), PairCandidate(content, '|'));
    var tuition := Tuition(content);
    ParsedProject(
      university := university,
      projectName := names.0,
      englishName := names.1,
      admissionRate := Sentinel,
      importantDate := Sentinel,
      description := SectionText(description),
      url := Url(content),
      ielts := Ielts(content),
      deadline := Deadline(content),
      requirements := SectionText(requirements),
      tuition := tuition,
      duration := Duration(content, tuition)
    )
  }

  /** The institution kept is the note's, or the stem's part before the first `-` when that is shorter and occurs in it. */
  lemma UniversityChoice(stem: string, content: string, requirements: Option<string>, description: Option<string>)
    ensures var p := ParseMarkdownFile(stem, content, requirements, description);
      var fromName := SplitFirst(stem, '-').0;
      var fromContent := ContentUniversity(content);
      && (p.university == fromName || p.university == fromContent)
      && (p.university != fromContent ==> |fromName| < |fromContent| && Contains(fromContent, fromName))
  {
  }

  /** A note whose IELTS line holds a score records that score, labelled. */
  lemma ParsedIeltsScore(stem: string, content: string, requirements: Option<string>, description: Option<string>)
    requires Search(content, IeltsHeaderAt, 0).Some?
    requires Search(PyStrip(Search(content, IeltsHeaderAt, 0).value.1), ScoreAt, 0).Some?
    ensures ParseMarkdownFile(stem, content, requirements, description).ielts
      == "雅思: " + Search(PyStrip(Search(content, IeltsHeaderAt, 0).value.1), ScoreAt, 0).value.1
  {
  }

  /** The two names of the record are those `ProjectNames` picks from the stem and the two name-pair lines. */
  lemma ParsedNames(stem: string, content: string, requirements: Option<string>, description: Option<string>)
    ensures var p := ParseMarkdownFile(stem, content, requirements, description);
      var names := ProjectNames(SplitFirst(stem, '-').1, PairCandidate(content, '-'), PairCandidate(content, '|'));
      p.projectName == names.0 && p.englishName == names.1
  {
  }
}
