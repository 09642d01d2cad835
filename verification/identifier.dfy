/**
 * The identifier convention both pipelines share: `institution-programme`,
 * and its partial inverse, Python's `s.split('-', 1)` on a file stem.
 */
module Identifier {
  import opened Wrappers
  import opened Text

  /**
   * Python's `s.split(sep, 1)`: the text before the first `sep` and, when
   * there is a separator, the text after it (`None` stands for the missing
   * second element of the list).
   */
  function SplitFirst(s: string, sep: char): (r: (string, Option<string>))
    ensures sep !in r.0
    ensures r.1.None? <==> sep !in s
    ensures r.1.None? ==> r.0 == s
    ensures r.1.Some? ==> s == r.0 + [sep] + r.1.value
  {
    var e := FirstIndex(s, sep);
    if e == |s| then (s, None)
    else
      assert s == s[..e] + [sep] + s[e + 1..];
      (s[..e], Some(s[e + 1..]))
  }

  /** A text is split at its first separator, whatever follows it. */
  lemma SplitFirstOf(head: string, tail: string, sep: char)
    requires sep !in head
    ensures SplitFirst(head + [sep] + tail, sep) == (head, Some(tail))
  {
    var s := head + [sep] + tail;
    forall k | 0 <= k < |head| ensures s[k] != sep {
      assert s[k] == head[k];
    }
    FirstIndexIs(s, sep, |head|);
    assert s[..|head|] == head && s[|head| + 1..] == tail;
  }

  /**
   * `generate_project_id(university, project_name)`: the two names joined by
   * `-`, without escaping a `-` inside either name.
   */
  function GenerateProjectId(university: string, project: string): (id: string)
    ensures |id| == |university| + 1 + |project|
    ensures '-' !in university ==> SplitFirst(id, '-') == (university, Some(project))
  {
    var id := university + "-" + project;
    if '-' !in university then SplitFirstOf(university, project, '-'); id else id
  }

  /**
   * Splitting a stem at its first `-` and joining the parts again gives the
   * stem back, so a retained file's identifier is its stem.
   */
  lemma StemRoundTrip(stem: string)
    requires '-' in stem
    ensures var (u, p) := SplitFirst(stem, '-');
      p.Some? && '-' !in u && GenerateProjectId(u, p.value) == stem
  {
  }

  /** Identifiers are unambiguous as long as institution names have no `-`. */
  lemma IdInjective(u1: string, p1: string, u2: string, p2: string)
    requires '-' !in u1 && '-' !in u2
    requires GenerateProjectId(u1, p1) == GenerateProjectId(u2, p2)
    ensures u1 == u2 && p1 == p2
  {
  }

  /** Without that condition the identifier is ambiguous: a `-` can move between the names. */
  lemma IdAmbiguous(u: string, v: string, w: string)
    ensures GenerateProjectId(u + "-" + v, w) == GenerateProjectId(u, v + "-" + w)
  {
  }
}
