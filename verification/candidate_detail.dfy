/**
 * The candidate detail page: the "value or default" rule for the displayed
 * fields, and `formatSummaryText`, which turns a summary into paragraphs.
 */
module CandidateDetail {
  import opened Text
  import opened ProjectRecords

  // ------------------------------------------------------------------ defaults

  const Pending: string := "待查询"
  const ToBeDecided: string := "待定"
  const NoRequirement: string := "无要求"
  const NoDescription: string := "暂无描述"
  const NoLink: string := "暂无链接"
  const NoHref: string := "#"

  /** `value || fallback` for a string value: the empty string is the only falsy one. */
  function ValueOr(value: string, fallback: string): (shown: string)
    ensures value != "" ==> shown == value
    ensures value == "" ==> shown == fallback
    ensures fallback != "" ==> shown != ""
  {
    if value != "" then value else fallback
  }

  /** What the detail page writes into each element. */
  datatype DetailView = DetailView(
    title: string,
    university: string,
    englishName: string,
    admissionRate: string,
    rateClass: string,
    importantDate: string,
    deadline: string,
    ielts: string,
    tuition: string,
    duration: string,
    requirements: string,
    description: string,
    urlHref: string,
    urlText: string)

  /**
   * `renderProjectDetail` for one record: names as they are, every other
   * field its value or its fixed default, and the badge always `low`.
   */
  function RenderProjectDetail(p: Project): (v: DetailView)
    ensures v.title == p.projectName && v.university == p.university && v.englishName == p.englishName
    ensures v.rateClass == "admission-rate low"
    ensures p.admissionRate != "" ==> v.admissionRate == p.admissionRate
    ensures p.admissionRate == "" ==> v.admissionRate == Pending
    ensures p.importantDate != "" ==> v.importantDate == p.importantDate
    ensures p.importantDate == "" ==> v.importantDate == ToBeDecided
    ensures p.deadline != "" ==> v.deadline == p.deadline
    ensures p.deadline == "" ==> v.deadline == Pending
    ensures p.ieltsRequirement != "" ==> v.ielts == p.ieltsRequirement
    ensures p.ieltsRequirement == "" ==> v.ielts == NoRequirement
    ensures p.tuition != "" ==> v.tuition == p.tuition
    ensures p.tuition == "" ==> v.tuition == Pending
    ensures p.duration != "" ==> v.duration == p.duration
    ensures p.duration == "" ==> v.duration == Pending
    ensures p.requirements != "" ==> v.requirements == p.requirements
    ensures p.requirements == "" ==> v.requirements == Pending
    ensures p.description != "" ==> v.description == p.description
    ensures p.description == "" ==> v.description == NoDescription
    ensures p.url != "" ==> v.urlHref == p.url && v.urlText == p.url
    ensures p.url == "" ==> v.urlHref == NoHref && v.urlText == NoLink
    ensures v.admissionRate != "" && v.importantDate != "" && v.deadline != "" && v.ielts != ""
      && v.tuition != "" && v.duration != "" && v.requirements != "" && v.description != ""
      && v.urlHref != "" && v.urlText != ""
  {
    DetailView(
      p.projectName, p.university, p.englishName,
      ValueOr(p.admissionRate, Pending), "admission-rate low",
      ValueOr(p.importantDate, ToBeDecided),
      ValueOr(p.deadline, Pending),
      ValueOr(p.ieltsRequirement, NoRequirement),
      ValueOr(p.tuition, Pending),
      ValueOr(p.duration, Pending),
      ValueOr(p.requirements, Pending),
      ValueOr(p.description, NoDescription),
      ValueOr(p.url, NoHref),
      ValueOr(p.url, NoLink))
  }

  // ------------------------------------------------------------------- summary

  /** `/^\d+\./`: a numbered list item. */
  predicate IsNumbered(line: string) {
    var e := SkipWhile(line, 0, IsDigit);
    0 < e < |line| && line[e] == '.'
  }

  /** A paragraph holding `t`. */
  function Paragraph(t: string): string {
    "<p>" + t + "</p>"
  }

  /**
   * The formatting of one line: blank lines vanish, every other line becomes
   * a paragraph of its trimmed text, numbered or not.
   */
  function FormatLine(line: string): (html: string)
    ensures html == "" <==> JsTrim(line) == ""
    ensures html != "" ==> html == Paragraph(JsTrim(line))
    ensures '\n' !in line ==> '\n' !in html
  {
    var t := JsTrim(line);
    TrimKeepsNoBreak(line);
    if t == "" then ""
    else if IsNumbered(t) then Paragraph(t)
    else Paragraph(t)
  }

  lemma TrimKeepsNoBreak(line: string)
    ensures '\n' !in line ==> '\n' !in JsTrim(line)
  {
    if '\n' !in line {
      NotInSlice(JsTrim(line), line, '\n');
    }
  }

  /** The formatted lines, joined with `''`. */
  function FormatLines(lines: seq<string>): (html: string)
    ensures (forall i :: 0 <= i < |lines| ==> '\n' !in lines[i]) ==> '\n' !in html
  {
    if |lines| == 0 then ""
    else FormatLine(lines[0]) + FormatLines(lines[1..])
  }

  /**
   * `formatSummaryText(text)`: the empty text gives the empty string,
   * otherwise the formatted lines joined with nothing between them.  The
   * result is a single line of HTML.
   */
  function FormatSummaryText(text: string): (html: string)
    ensures text == "" ==> html == ""
    ensures '\n' !in html
  {
    if text == "" then "" else SplitPartsFree(text, '\n'); FormatLines(Split(text, '\n'))
  }

  lemma {:induction false} FormatLinesAppend(a: seq<string>, b: seq<string>)
    ensures FormatLines(a + b) == FormatLines(a) + FormatLines(b)
    decreases |a|
  {
    if |a| > 0 {
      assert (a + b)[1..] == a[1..] + b;
      FormatLinesAppend(a[1..], b);
    } else {
      assert a + b == b;
    }
  }

  /** Text without a line break gives its trimmed text as one paragraph, or nothing if it is blank. */
  lemma FormatSingleLine(line: string)
    requires '\n' !in line
    ensures FormatSummaryText(line) == if JsTrim(line) == "" then "" else Paragraph(JsTrim(line))
  {
    if line != "" {
      SplitNoSep(line, '\n');
      assert FormatLines([line]) == FormatLine(line) + FormatLines([]);
    } else {
      assert JsTrim(line) == "";
    }
  }

  /** Formatting two pieces of text joined by a line break formats each piece in turn. */
  lemma FormatAppend(x: string, y: string)
    ensures FormatSummaryText(x + "\n" + y) == FormatSummaryText(x) + FormatSummaryText(y)
  {
    SplitAppend(x, y, '\n');
    FormatLinesAppend(Split(x, '\n'), Split(y, '\n'));
    if x == "" {
      assert Split(x, '\n') == [""];
      assert FormatLines([""]) == FormatLine("") + FormatLines([]);
      assert JsTrim("") == "";
    }
    if y == "" {
      assert Split(y, '\n') == [""];
      assert FormatLines([""]) == FormatLine("") + FormatLines([]);
      assert JsTrim("") == "";
    }
  }

  /** A blank line adds nothing to the output. */
  lemma BlankLineVanishes(x: string, blank: string)
    requires '\n' !in blank && JsTrim(blank) == ""
    ensures FormatSummaryText(x + "\n" + blank) == FormatSummaryText(x)
  {
    FormatAppend(x, blank);
    FormatSingleLine(blank);
  }

  /** A numbered line is formatted exactly like any other line. */
  lemma NumberedLinePlain(line: string)
    requires IsNumbered(JsTrim(line))
    ensures FormatLine(line) == Paragraph(JsTrim(line))
  {
  }
}
