/**
 * The admitted-list converter: CSV rows to project records, and the social
 * media notes (one markdown file per project) to a dictionary keyed by
 * project identifier.
 */
module ConvertData {
  import opened Wrappers
  import opened Text
  import opened Regex
  import opened MapFold
  import opened Identifier
  import opened ProjectRecords

  /** `convert_csv_to_json` of the admitted list: records without a status. */
  method ConvertCsvToJson(rows: seq<Row>) returns (r: Result<seq<Project>, string>)
    ensures r.Success? <==> forall k :: 0 <= k < |rows| ==> HasColumns(rows[k])
    ensures r.Success? ==> |r.value| == |rows|
    ensures r.Success? ==> forall k :: 0 <= k < |rows| ==> HasColumns(rows[k]) && CopiedFrom(r.value[k], rows[k], None)
    ensures r.Failure? ==> exists k :: (0 <= k < |rows| && !HasColumns(rows[k])
      && (forall j :: 0 <= j < k ==> HasColumns(rows[j]))
      && MissingColumn(rows[k], 0) == Some(r.error))
  {
    r := ConvertRows(rows, None);
  }

  // ---------------------------------------------------------------- basic info

  /** The keys `basic_info` can hold, i.e. `english_name`, `admission_rate`, `important_date`. */
  datatype InfoKey = EnglishName | AdmissionRate | ImportantDate

  const InfoHeader: string := "## 项目基本信息\n"
  const NextHeader: string := "\n##"
  const EnglishNameLabel: string := "英文名称"
  const AdmissionRateLabel: string := "录取概率"
  const ImportantDateLabel: string := "重要日期"
  const FullWidthColon: char := '：'

  /**
   * Which key a line of the basic-info section sets: only list items (lines
   * starting with `-`) count, and the first label found wins, in the order
   * English name, admission rate, important date.
   */
  function InfoKeyOf(line: string): (k: Option<InfoKey>)
    ensures k == Some(EnglishName) <==> StartsWith(line, "-") && Contains(line, EnglishNameLabel)
    ensures k == Some(AdmissionRate) <==>
      StartsWith(line, "-") && !Contains(line, EnglishNameLabel) && Contains(line, AdmissionRateLabel)
    ensures k == Some(ImportantDate) <==>
      StartsWith(line, "-") && !Contains(line, EnglishNameLabel) && !Contains(line, AdmissionRateLabel)
      && Contains(line, ImportantDateLabel)
  {
    DashLineNotBlank(line);
    if PyStrip(line) != "" && StartsWith(line, "-") then
      if Contains(line, EnglishNameLabel) then Some(EnglishName)
      else if Contains(line, AdmissionRateLabel) then Some(AdmissionRate)
      else if Contains(line, ImportantDateLabel) then Some(ImportantDate)
      else None
    else None
  }

  /** A line starting with `-` is never blank, so `line.strip()` adds nothing to the test. */
  lemma DashLineNotBlank(line: string)
    ensures StartsWith(line, "-") ==> PyStrip(line) != ""
  {
    if StartsWith(line, "-") {
      assert line[0] == '-' && !PySpace(line[0]);
    }
  }

  /** The value of a basic-info line: the text after its last full-width colon, stripped. */
  function InfoValue(line: string): (v: string)
    ensures FullWidthColon !in v
    ensures Trimmed(v)
    ensures IsSliceOf(v, line)
    // a line without the colon is its own value
    ensures FullWidthColon !in line ==> v == PyStrip(line)
  {
    var after := AfterLast(line, FullWidthColon);
    assert IsSliceOf(after, line) by { assert after == line[|line| - |after|..|line|]; }
    var v := PyStrip(after);
    NotInSlice(v, after, FullWidthColon);
    SliceOfSlice(v, after, line);
    v
  }

  /** The text after the line's last colon is read back stripped, whatever comes before it. */
  lemma InfoValueOf(prefix: string, v: string)
    requires FullWidthColon !in v
    ensures InfoValue(prefix + [FullWidthColon] + v) == PyStrip(v)
  {
    AfterLastOf(prefix, v, FullWidthColon);
  }

  /** The assignment `basic_info[key] = value` a line performs, if any. */
  function InfoAssignment(line: string): Option<(InfoKey, string)> {
    match InfoKeyOf(line)
    case Some(k) => Some((k, InfoValue(line)))
    case None => None
  }

  /** The basic-info dictionary of a section: the lines' assignments in order. */
  function ParseBasicInfo(section: string): (info: map<InfoKey, string>)
    ensures forall k :: k in info <==> LineSetsKey(Split(section, '\n'), k)
  {
    var lines := Split(section, '\n');
    forall k ensures k in Assign(map[], lines, InfoAssignment) <==> LineSetsKey(lines, k) {
      LineKeys(lines, k);
    }
    Assign(map[], lines, InfoAssignment)
  }

  lemma SetsKeyIff(lines: seq<string>, k: InfoKey)
    ensures forall i :: AssignsKey(lines, InfoAssignment, i, k) <==> 0 <= i < |lines| && InfoKeyOf(lines[i]) == Some(k)
  {
    forall i ensures AssignsKey(lines, InfoAssignment, i, k) <==> 0 <= i < |lines| && InfoKeyOf(lines[i]) == Some(k) {
      if 0 <= i < |lines| {
        var line := lines[i];
        assert InfoAssignment(line).Some? <==> InfoKeyOf(line).Some?;
      }
    }
  }

  /** Some line sets the key `k`. */
  predicate LineSetsKey(lines: seq<string>, k: InfoKey) {
    exists i :: 0 <= i < |lines| && InfoKeyOf(lines[i]) == Some(k)
  }

  lemma LineKeys(lines: seq<string>, k: InfoKey)
    ensures k in Assign(map[], lines, InfoAssignment) <==> LineSetsKey(lines, k)
  {
    AssignKeys(map[], lines, InfoAssignment, k);
    SetsKeyIff(lines, k);
  }

  /** The last line that sets a key decides its value. */
  lemma BasicInfoLastLineWins(section: string, k: InfoKey, i: nat)
    requires var lines := Split(section, '\n');
      i < |lines| && InfoKeyOf(lines[i]) == Some(k)
      && forall j :: i < j < |lines| ==> InfoKeyOf(lines[j]) != Some(k)
    ensures k in ParseBasicInfo(section)
    ensures ParseBasicInfo(section)[k] == InfoValue(Split(section, '\n')[i])
  {
    var lines := Split(section, '\n');
    SetsKeyIff(lines, k);
    AssignLastWins(map[], lines, InfoAssignment, i, k);
  }

  // --------------------------------------------------------------------- posts

  /** The groups of one `re.findall` match of a Xiaohongshu post (the post number first). */
  datatype XhsMatch = XhsMatch(number: string, title: string, publishDate: string, author: string,
                               likes: string, url: string)

  /** The groups of one `re.findall` match of a Zhihu post (the post number first). */
  datatype ZhihuMatch = ZhihuMatch(number: string, title: string, publishDate: string, likes: string,
                                   answers: string, url: string, summary: string)

  datatype XhsPost = XhsPost(title: string, publishDate: string, author: string, likes: string, url: string)

  datatype ZhihuPost = ZhihuPost(title: string, publishDate: string, likes: string, answers: string,
                                 url: string, summary: string)

  /**
   * The three `re.findall` calls of the parser, applied to the section text
   * they receive: Xiaohongshu posts, Zhihu posts, and `### title` + body pairs.
   */
  datatype Finders = Finders(
    xhs: string -> seq<XhsMatch>,
    zhihu: string -> seq<ZhihuMatch>,
    sections: string -> seq<(string, string)>)

  /** `v` is the matched group `g` with only whitespace removed, and none left at either end. */
  ghost predicate StrippedFrom(v: string, g: string) {
    && Trimmed(v)
    && exists a: nat, b: nat :: a <= b <= |g| && AllSatisfy(g, 0, a, PySpace) && AllSatisfy(g, b, |g|, PySpace) && v == g[a..b]
  }

  lemma StripIsStrippedFrom(g: string)
    ensures StrippedFrom(PyStrip(g), g)
  {
    var a, b := StripBounds(g, PySpace);
  }

  /** Being stripped from `g` determines the value: it is `g.strip()`. */
  lemma StrippedFromIsStrip(v: string, g: string)
    requires StrippedFrom(v, g)
    ensures v == PyStrip(g)
  {
    var a: nat, b: nat :| a <= b <= |g| && AllSatisfy(g, 0, a, PySpace) && AllSatisfy(g, b, |g|, PySpace) && v == g[a..b];
    if a < b {
      assert g[a] == v[0] && g[b - 1] == v[|v| - 1];
    }
    StripIsUnique(g, PySpace, a, b);
  }

  function XhsPostOf(m: XhsMatch): (p: XhsPost)
    ensures StrippedFrom(p.title, m.title) && StrippedFrom(p.publishDate, m.publishDate)
    ensures StrippedFrom(p.author, m.author) && StrippedFrom(p.likes, m.likes) && StrippedFrom(p.url, m.url)
  {
    StripIsStrippedFrom(m.title);
    StripIsStrippedFrom(m.publishDate);
    StripIsStrippedFrom(m.author);
    StripIsStrippedFrom(m.likes);
    StripIsStrippedFrom(m.url);
    XhsPost(PyStrip(m.title), PyStrip(m.publishDate), PyStrip(m.author), PyStrip(m.likes), PyStrip(m.url))
  }

  function ZhihuPostOf(m: ZhihuMatch): (p: ZhihuPost)
    ensures StrippedFrom(p.title, m.title) && StrippedFrom(p.publishDate, m.publishDate)
    ensures StrippedFrom(p.likes, m.likes) && StrippedFrom(p.answers, m.answers)
    ensures StrippedFrom(p.url, m.url) && StrippedFrom(p.summary, m.summary)
  {
    StripIsStrippedFrom(m.title);
    StripIsStrippedFrom(m.publishDate);
    StripIsStrippedFrom(m.likes);
    StripIsStrippedFrom(m.answers);
    StripIsStrippedFrom(m.url);
    StripIsStrippedFrom(m.summary);
    ZhihuPost(PyStrip(m.title), PyStrip(m.publishDate), PyStrip(m.likes), PyStrip(m.answers),
              PyStrip(m.url), PyStrip(m.summary))
  }

  /** The summary assignment `summary[title] = content.strip()`. */
  function SummaryAssignment(section: (string, string)): Option<(string, string)> {
    Some((section.0, PyStrip(section.1)))
  }

  // ------------------------------------------------------------------ the file

  const XhsHeader: string := "## 小红书搜索结果\n"
  const ZhihuHeader: string := "## 知乎搜索结果\n"
  const ZhihuNext: string := "\n## 知乎搜索结果"
  const SummaryHeader: string := "## 关键信息总结\n"
  const SummaryNext: string := "\n## 关键信息总结"

  datatype SocialMedia = SocialMedia(
    basicInfo: map<InfoKey, string>,
    xiaohongshuPosts: seq<XhsPost>,
    zhihuPosts: seq<ZhihuPost>,
    summary: map<string, string>)

  /** The basic-info dictionary: empty without the section, otherwise read from its lines. */
  function BasicInfoOf(content: string): (info: map<InfoKey, string>)
    ensures var s := LazyBetween(content, InfoHeader, Literal(NextHeader));
      (s.None? ==> info == map[]) && (s.Some? ==> info == ParseBasicInfo(s.value))
    ensures forall k :: k in info ==> FullWidthColon !in info[k] && Trimmed(info[k])
  {
    match LazyBetween(content, InfoHeader, Literal(NextHeader))
    case Some(s) => BasicInfoValues(s); ParseBasicInfo(s)
    case None => map[]
  }

  /** The Xiaohongshu posts: none without the section, otherwise one per match, in order. */
  function XhsPostsOf(content: string, finders: Finders): (posts: seq<XhsPost>)
    ensures var s := LazyBetween(content, XhsHeader, Literal(ZhihuNext));
      (s.None? ==> posts == [])
      && (s.Some? ==> (|posts| == |finders.xhs(s.value)|
          && forall i :: 0 <= i < |posts| ==> posts[i] == XhsPostOf(finders.xhs(s.value)[i])))
  {
    match LazyBetween(content, XhsHeader, Literal(ZhihuNext))
    case Some(s) => var ms := finders.xhs(s); seq(|ms|, i requires 0 <= i < |ms| => XhsPostOf(ms[i]))
    case None => []
  }

  /** The Zhihu posts: none without the section, otherwise one per match, in order. */
  function ZhihuPostsOf(content: string, finders: Finders): (posts: seq<ZhihuPost>)
    ensures var s := LazyBetween(content, ZhihuHeader, Literal(SummaryNext));
      (s.None? ==> posts == [])
      && (s.Some? ==> (|posts| == |finders.zhihu(s.value)|
          && forall i :: 0 <= i < |posts| ==> posts[i] == ZhihuPostOf(finders.zhihu(s.value)[i])))
  {
    match LazyBetween(content, ZhihuHeader, Literal(SummaryNext))
    case Some(s) => var ms := finders.zhihu(s); seq(|ms|, i requires 0 <= i < |ms| => ZhihuPostOf(ms[i]))
    case None => []
  }

  /** The summary dictionary: empty without the section, every value stripped. */
  function SummaryOf(content: string, finders: Finders): (summary: map<string, string>)
    ensures LazyBetween(content, SummaryHeader, EndAnchor()).None? ==> summary == map[]
    ensures var s := LazyBetween(content, SummaryHeader, EndAnchor());
      s.Some? ==> summary == Assign(map[], finders.sections(s.value), SummaryAssignment)
    ensures forall t :: t in summary ==> Trimmed(summary[t])
  {
    match LazyBetween(content, SummaryHeader, EndAnchor())
    case Some(s) => SummaryValues(finders.sections(s)); Assign(map[], finders.sections(s), SummaryAssignment)
    case None => map[]
  }

  /**
   * `parse_markdown` on a file's text.  Each part is read from its own
   * section; a missing section leaves that part empty.
   */
  function ParseMarkdown(content: string, finders: Finders): (d: SocialMedia)
    ensures var s := LazyBetween(content, InfoHeader, Literal(NextHeader));
      (s.None? ==> d.basicInfo == map[]) && (s.Some? ==> d.basicInfo == ParseBasicInfo(s.value))
    ensures forall k :: k in d.basicInfo ==> FullWidthColon !in d.basicInfo[k] && Trimmed(d.basicInfo[k])
    ensures var s := LazyBetween(content, XhsHeader, Literal(ZhihuNext));
      (s.None? ==> d.xiaohongshuPosts == [])
      && (s.Some? ==> (|d.xiaohongshuPosts| == |finders.xhs(s.value)|
          && forall i :: 0 <= i < |d.xiaohongshuPosts| ==> d.xiaohongshuPosts[i] == XhsPostOf(finders.xhs(s.value)[i])))
    ensures var s := LazyBetween(content, ZhihuHeader, Literal(SummaryNext));
      (s.None? ==> d.zhihuPosts == [])
      && (s.Some? ==> (|d.zhihuPosts| == |finders.zhihu(s.value)|
          && forall i :: 0 <= i < |d.zhihuPosts| ==> d.zhihuPosts[i] == ZhihuPostOf(finders.zhihu(s.value)[i])))
    ensures LazyBetween(content, SummaryHeader, EndAnchor()).None? ==> d.summary == map[]
    ensures var s := LazyBetween(content, SummaryHeader, EndAnchor());
      s.Some? ==> d.summary == Assign(map[], finders.sections(s.value), SummaryAssignment)
    ensures forall t :: t in d.summary ==> Trimmed(d.summary[t])
  {
    SocialMedia(BasicInfoOf(content), XhsPostsOf(content, finders), ZhihuPostsOf(content, finders), SummaryOf(content, finders))
  }

  /** Every value an assignment fold produces is one of the assigned values. */
  lemma {:induction false} AssignedValues<T, K, V>(m: map<K, V>, xs: seq<T>, f: T -> Option<(K, V)>, p: V -> bool)
    requires forall k :: k in m ==> p(m[k])
    requires forall x :: x in xs && f(x).Some? ==> p(f(x).value.1)
    ensures forall k :: k in Assign(m, xs, f) ==> p(Assign(m, xs, f)[k])
    decreases |xs|
  {
    if |xs| > 0 {
      assert xs[0] in xs;
      AssignedValues(Step(m, xs[0], f), xs[1..], f, p);
    }
  }

  lemma BasicInfoValues(section: string)
    ensures forall k :: k in ParseBasicInfo(section) ==>
      FullWidthColon !in ParseBasicInfo(section)[k] && Trimmed(ParseBasicInfo(section)[k])
  {
    AssignedValues(map[], Split(section, '\n'), InfoAssignment, (v: string) => FullWidthColon !in v && Trimmed(v));
  }

  lemma SummaryValues(sections: seq<(string, string)>)
    ensures forall t :: t in Assign(map[], sections, SummaryAssignment) ==>
      Trimmed(Assign(map[], sections, SummaryAssignment)[t])
  {
    AssignedValues(map[], sections, SummaryAssignment, Trimmed);
  }

  /** A title is a key of the summary exactly when some `### title` section carries it. */
  lemma SummaryKeys(sections: seq<(string, string)>, t: string)
    ensures t in Assign(map[], sections, SummaryAssignment) <==> exists i :: 0 <= i < |sections| && sections[i].0 == t
  {
    AssignKeys(map[], sections, SummaryAssignment, t);
    assert forall i :: AssignsKey(sections, SummaryAssignment, i, t) <==> 0 <= i < |sections| && sections[i].0 == t;
  }

  /** A title repeated in the summary keeps the body of its last section, stripped. */
  lemma SummaryLastWins(sections: seq<(string, string)>, i: nat)
    requires i < |sections|
    requires forall j :: i < j < |sections| ==> sections[j].0 != sections[i].0
    ensures sections[i].0 in Assign(map[], sections, SummaryAssignment)
    ensures Assign(map[], sections, SummaryAssignment)[sections[i].0] == PyStrip(sections[i].1)
  {
    var t := sections[i].0;
    assert forall j :: AssignsKey(sections, SummaryAssignment, j, t) <==> 0 <= j < |sections| && sections[j].0 == t;
    AssignLastWins(map[], sections, SummaryAssignment, i, t);
  }

  /** The basic-info section ends at the next heading: it never contains one. */
  lemma BasicInfoSectionEndsAtHeading(content: string)
    requires LazyBetween(content, InfoHeader, Literal(NextHeader)).Some?
    ensures !Contains(LazyBetween(content, InfoHeader, Literal(NextHeader)).value, NextHeader)
  {
    LazyBetweenStopsAtFirst(content, InfoHeader, NextHeader);
  }

  // ------------------------------------------------------------- the directory

  /** A markdown file of the notes directory: its name without `.md`, and its text. */
  datatype MarkdownFile = MarkdownFile(stem: string, content: string)

  /**
   * The entry a file contributes: keyed by `university-project` when its stem
   * has a `-`, nothing otherwise.
   */
  function FileEntry(finders: Finders): MarkdownFile -> Option<(string, SocialMedia)> {
    (file: MarkdownFile) =>
      match SplitFirst(file.stem, '-')
      case (u, Some(p)) => Some((GenerateProjectId(u, p), ParseMarkdown(file.content, finders)))
      case (_, None) => None
  }

  /** A file contributes an entry exactly when its stem has a `-`, and the entry is keyed by the stem. */
  lemma FileEntryKey(finders: Finders, file: MarkdownFile)
    ensures FileEntry(finders)(file).Some? <==> '-' in file.stem
    ensures FileEntry(finders)(file).Some? ==> FileEntry(finders)(file).value == (file.stem, ParseMarkdown(file.content, finders))
  {
    if '-' in file.stem {
      StemRoundTrip(file.stem);
    }
  }

  /** `convert_markdowns_to_json`: the files in directory order, later files overwriting earlier ones. */
  function ConvertMarkdownsToJson(files: seq<MarkdownFile>, finders: Finders): (notes: map<string, SocialMedia>)
    // the keys are exactly the stems that contain a `-`
    ensures forall id :: id in notes <==> '-' in id && StemOf(files, id)
  {
    forall id ensures id in Assign(map[], files, FileEntry(finders)) <==> '-' in id && StemOf(files, id) {
      MarkdownKeys(files, finders, id);
    }
    Assign(map[], files, FileEntry(finders))
  }

  /** Some file has the stem `id`. */
  predicate StemOf(files: seq<MarkdownFile>, id: string) {
    exists i :: 0 <= i < |files| && files[i].stem == id
  }

  /** The notes dictionary has an entry for `id` exactly when some file has that stem and it contains a `-`. */
  lemma MarkdownKeys(files: seq<MarkdownFile>, finders: Finders, id: string)
    ensures id in Assign(map[], files, FileEntry(finders)) <==> '-' in id && StemOf(files, id)
  {
    var f := FileEntry(finders);
    forall i | 0 <= i < |files| { FileEntryKey(finders, files[i]); }
    AssignKeys(map[], files, f, id);
    assert forall i :: AssignsKey(files, f, i, id) <==> 0 <= i < |files| && '-' in id && files[i].stem == id;
  }

  /** The notes of a project come from the last file with its stem. */
  lemma LastFileWins(files: seq<MarkdownFile>, finders: Finders, i: nat)
    requires i < |files| && '-' in files[i].stem
    requires forall j :: i < j < |files| ==> files[j].stem != files[i].stem
    ensures files[i].stem in ConvertMarkdownsToJson(files, finders)
    ensures ConvertMarkdownsToJson(files, finders)[files[i].stem] == ParseMarkdown(files[i].content, finders)
  {
    var f := FileEntry(finders);
    var id := files[i].stem;
    forall j | 0 <= j < |files| { FileEntryKey(finders, files[j]); }
    assert forall j :: AssignsKey(files, f, j, id) <==> 0 <= j < |files| && files[j].stem == id;
    AssignLastWins(map[], files, f, i, id);
  }

  /** A file whose stem has no `-` is skipped: removing it changes nothing. */
  lemma SkippedFileIgnored(files: seq<MarkdownFile>, finders: Finders, i: nat)
    requires i < |files| && '-' !in files[i].stem
    ensures ConvertMarkdownsToJson(files[..i] + files[i + 1..], finders) == ConvertMarkdownsToJson(files, finders)
  {
    FileEntryKey(finders, files[i]);
    DropSilentItem(map[], files, FileEntry(finders), i);
  }
}
