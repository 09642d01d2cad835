# grad-admission-tracker in Dafny

The project models the pure logic of grad-admission-tracker. The tracker is a small set of Python scripts that turn application notes into data, plus a static web front end that lists, sorts and shows that data:

- **Candidate-note extractor.** `parse_markdown_file` reads a loosely formatted markdown note about a programme, together with its file stem. It yields one candidate row. Each field comes from a chain of pattern searches that ends in the sentinel `待查询` or another default.
- **CSV converters.** The admitted-list and candidate-list versions of `convert_csv_to_json` copy each CSV row into a project record. The record's identifier is `university-project`. The candidate version also tags each record with `status: tobepicked`.
- **Social-media converter.** `convert_markdowns_to_json` and `parse_markdown` build a dictionary of per-project notes, keyed by file stem.
- **Front-end helpers.**
  - the admission-rate badge class;
  - `extractDate`;
  - the sort orders of the two list pages;
  - the "value or default" display rule and `formatSummaryText` of the candidate detail page.

The model is organised in modules:

- **Shared helpers.**
  - `Wrappers`: `Option` and `Result`.
  - `Text`: Python/JavaScript whitespace, `strip`/`trim`, `split`, `in`.
  - `Regex`: the shapes of Python `re` patterns used, with the engine's backtracking worked out for each shape.
  - `MapFold`: building a dict by successive assignment.
  - `JsNumber`: `parseInt`.
  - `Sorting`: a stable `Array.prototype.sort`.
- **Source-file modules.**
  - `Identifier`: `generate_project_id` and `split('-', 1)`.
  - `ParseTobepicked`: parse_tobepicked.py.
  - `ProjectRecords`: the CSV row copy shared by both converters.
  - `ConvertData`: convert_data.py.
  - `ConvertTobepickedData`: convert_tobepicked_data.py.
  - `Dates`: `extractDate`, which is identical in both list pages.
  - `ProjectList`: web/js/main.js.
  - `CandidateList`: web/js/tobepicked.js.
  - `CandidateDetail`: js/tobepicked-detail.js.

How the inputs are modelled:

- Strings are sequences of Unicode scalar values.
- A CSV row is a map from header to cell.
- A missing column is Python's `KeyError`. It ends the whole conversion, so it is modelled as `Failure(column)`.
- `localeCompare(…, 'zh-CN')` is the parameter `collate`.

Some details are duplicated in the source:

- `generate_project_id` is defined twice, at convert_data.py:84-87 and convert_tobepicked_data.py:12-14. Both definitions are the same, so the model has one.
- `extractDate` and the two comparators shared by the list pages are also duplicated word for word. The model has one copy of each.

Three facts about the code, not its intent, are proved:

- A valid `name - english` line in a note overrides the project name taken from the file stem.
- The third deadline pattern can never be the one chosen, because the first pattern matches wherever the third does.
- The fallback that looks for a duration in the tuition line can only give `待查询`. The tuition line is a piece of the note, so any `学制:` in it would already have matched in the note.

## Model

| member | source | states |
|---|---|---|
| Text.Strip | parse_tobepicked.py:25 | `strip` drops leading and trailing whitespace. The result is a piece of the input, starts and ends with non-whitespace, and is empty exactly when the input is all whitespace. |
| Text.StripIsUnique | parse_tobepicked.py:25 | Any split of a text into whitespace, a piece with non-whitespace ends, and whitespace is the split `strip` chooses. |
| Text.StripBounds | parse_tobepicked.py:25 | `strip` removes exactly a run of whitespace at the start and a run at the end: what is left lies between two whitespace-only stretches. |
| Text.FilterStrip | parse_tobepicked.py:112 | Stripping removes no character that is not whitespace: the non-whitespace characters of the text survive, in order. |
| Text.FilterMiddle | parse_tobepicked.py:112 | Cutting off ends that hold no kept character does not change what is kept. |
| Text.Split | convert_data.py:23 | `split` on one character gives at least one part. |
| Text.SplitPartsFree | convert_data.py:23 | No part of a split contains the separator. |
| Text.SplitSingle | convert_data.py:23 | A split has exactly one part iff the separator does not occur. |
| Text.SplitNoSep | js/tobepicked-detail.js:152 | A text without the separator splits into itself alone. |
| Text.FirstPieceIsPrefix | parse_tobepicked.py:25 | The first part of a split starts the text. |
| Text.LastPieceIsSuffix | convert_data.py:26 | The last part of a split ends the text. |
| Text.JoinSplit | convert_data.py:23 | Joining the parts of a split with the separator gives back the text. |
| Text.SplitJoin | convert_data.py:23 | Splitting a join of separator-free parts gives back the parts. |
| Text.SplitAppend | js/tobepicked-detail.js:152 | Splitting `x + sep + y` gives the parts of `x` followed by the parts of `y`. |
| Text.AfterLast | convert_data.py:26 | `split('：')[-1]` is a suffix of the line that contains no `：`. It is the whole line when the line has no `：`. |
| Text.AfterLastOf | convert_data.py:26 | The text written after the last `：` is exactly what `split('：')[-1]` returns. |
| Regex.Search | parse_tobepicked.py:67 | `re.search` returns the leftmost position where the pattern matches, with its capture. It fails only when no position matches. |
| Regex.SearchFindsAny | parse_tobepicked.py:104 | If a pattern matches at some position, the search succeeds at that position or an earlier one. |
| Regex.SearchIs | parse_tobepicked.py:67 | A position where the pattern matches, with no match before it, is the one `re.search` reports, with its capture. |
| Regex.LazyLineAtIs | parse_tobepicked.py:22 | Under `re.MULTILINE`, `^(.+?)rest` at a line start captures the shortest non-empty prefix of the line after which `rest` matches. |
| Regex.Tail | parse_tobepicked.py:71 | A capture of `\s*…\n\s*\n\s*([^\n]+)` is non-empty, contains no newline, and is a piece of the text. Its exact value is given by `Regex.TailLastStart`. |
| Regex.TailIff | parse_tobepicked.py:71 | The tail matches iff some admissible group start exists: a non-newline character reached over whitespace that crosses the required number of newlines. |
| Regex.TailLastStart | parse_tobepicked.py:71 | When the tail matches, the capture runs from the last admissible group start to the end of that line: the greedy `\s*` gives back only the character `[^\n]+` needs. |
| Regex.TailFromLastStart | parse_tobepicked.py:71 | Given the last admissible group start, the capture is the rest of the line from that start. |
| Regex.TailInSlice | parse_tobepicked.py:126 | A tail match inside a piece of the text is also a match in the whole text. |
| Regex.LazyBetween | convert_data.py:20 | The DOTALL capture `open(.*?)close` is a piece of the text. Its exact value is given by `Regex.LazyBetweenIs`. |
| Regex.LazyBetweenIff | convert_data.py:20 | The section search succeeds iff `open` occurs with `close` matching somewhere after it. |
| Regex.LazyBetweenIs | convert_data.py:20 | The section is the text from the leftmost `open` that has a `close` after it, up to the first `close` after that `open`. |
| Regex.LazyBetweenStopsAtFirst | convert_data.py:34 | With a literal `close`, the captured section never contains `close`. It stops at the first occurrence. |
| Identifier.SplitFirst | parse_tobepicked.py:17-19 | `split('-', 1)`: the head has no `-`. There is no tail iff the stem has no `-`, and then the head is the whole stem. Otherwise `head + '-' + tail` is the stem. |
| Identifier.SplitFirstOf | parse_tobepicked.py:17-19 | Splitting `head + '-' + tail` at the first `-` gives back `head` and `tail` when `head` has no `-`. |
| Identifier.GenerateProjectId | convert_data.py:84-87 | The identifier is as long as both names plus one. When the university has no `-`, splitting it at the first `-` gives back the two names. |
| Identifier.StemRoundTrip | convert_data.py:124-128 | For a stem with a `-`, splitting at the first `-` and regenerating the identifier gives the stem, and the university part has no `-`. |
| Identifier.IdInjective | convert_data.py:84-87 | Identifiers built from university names without `-` determine both names. |
| Identifier.IdAmbiguous | convert_tobepicked_data.py:12-14 | A `-` can move between the two names without changing the identifier, because nothing is escaped. |
| ParseTobepicked.ContentUniversity | parse_tobepicked.py:22-28 | The institution read from the note, whether taken before `(QS:` or from the first line, is always a piece of the note. Its value for the two usual note shapes is given by the next two lemmas. |
| ParseTobepicked.QsAt | parse_tobepicked.py:22 | A `^(.+?)\s*\(QS:` match at a position starts a line, and its capture is a non-empty one-line piece of the note at that position. |
| ParseTobepicked.QsAtFacts | parse_tobepicked.py:22 | `(QS:` follows the captured group after optional whitespace, and it follows no shorter group. |
| ParseTobepicked.UniversityBeforeQs | parse_tobepicked.py:22-28 | A note starting with `name (QS: …`, where `name` is one trimmed line without `(QS:`, names the institution `name`. |
| ParseTobepicked.UniversityFromFirstLine | parse_tobepicked.py:22-26 | A note with no `(QS:` anywhere names the institution by its first line, stripped. |
| ParseTobepicked.PreferFilenameUniversity | parse_tobepicked.py:31-35 | The result is the stem's university or the note's university. It is the stem's exactly when that is strictly shorter and occurs in the note's, or when the two are equal. |
| ParseTobepicked.UniversityChoice | parse_tobepicked.py:17-35 | The parsed university is the note's university unless the stem part before the first `-` is shorter and contained in it. |
| ParseTobepicked.PairAtFacts | parse_tobepicked.py:44 | A `^(.+?)\s*SEP\s*(.+?)$` match captures as group 1 a non-empty one-line prefix of a line. The rest of the pattern (`\s*SEP\s*(.+?)$`, the matcher `PairRest`) matches right after it with group 2, and after no shorter prefix. |
| ParseTobepicked.SeparatorRestOf | parse_tobepicked.py:44 | After group 1, optional whitespace, the separator and optional whitespace, group 2 is the rest of the line. |
| ParseTobepicked.SeparatorRestNoneBefore | parse_tobepicked.py:44 | Inside a first line without the separator, and before its last non-whitespace character, the rest of the pattern cannot match. |
| ParseTobepicked.PairAtFirstLine | parse_tobepicked.py:44 | A text whose first line is group 1, whitespace, the separator, whitespace and one line of text matches with exactly those two groups. |
| ParseTobepicked.PairCandidate | parse_tobepicked.py:44-47 | Both parts of a name pair are stripped single lines. |
| ParseTobepicked.PairCandidateNone | parse_tobepicked.py:44-45 | There is no name pair exactly when the pattern matches at no position of the note. |
| ParseTobepicked.PairCandidateOf | parse_tobepicked.py:44-47 | A note whose first line is `name SEP english`, with `name` free of the separator, gives the pair `(name, english)`. |
| ParseTobepicked.ProjectNames | parse_tobepicked.py:39-64 | A valid dash-line name or English name always wins, even over the stem. Without one, a non-empty stem name other than `待查询` is kept and the pipe line cannot replace it. Without both, a valid pipe-line value fills the field. A field is `待查询` iff no source supplied a valid value. Every value comes from the stem, the dash line or the pipe line. |
| ParseTobepicked.UrlAt | parse_tobepicked.py:67 | `https?://[^\s\n]+` matches at a position iff `http://` or `https://` starts there followed by a non-whitespace character. The match is the text at that position, has no whitespace, and runs up to the next whitespace or the end. |
| ParseTobepicked.LinkRun | parse_tobepicked.py:67 | The run of non-whitespace from a scheme covers the whole scheme, so the match starts with `http://` or `https://`. |
| ParseTobepicked.Url | parse_tobepicked.py:67-68 | The URL is `待查询` iff no position holds a link. Otherwise it is the match at the leftmost such position, starting with `http://` or `https://`. |
| ParseTobepicked.UrlOfLink | parse_tobepicked.py:67-68 | A note that starts with a link gives that link, up to the first whitespace. |
| ParseTobepicked.TuitionAt | parse_tobepicked.py:71 | `学费\s*\n\s*\n\s*([^\n]+)` matches at a position iff `学费` is there and a group start follows over whitespace with two newlines. The capture is one non-empty line of the note. |
| ParseTobepicked.CutAtIelts | parse_tobepicked.py:75 | Removing `雅思.*?$` from a one-line text keeps the prefix before the first `雅思`. The result contains no `雅思`, and it is the whole text when the text has none. |
| ParseTobepicked.CleanTuition | parse_tobepicked.py:73-75 | The cleaned tuition line contains no `雅思` and is a piece of the matched line. Its exact value for a padded `fee 雅思…` line is given by `ParseTobepicked.CleanTuitionCut`. |
| ParseTobepicked.CutBeforeMark | parse_tobepicked.py:75 | Cutting at `雅思` a text that has no `雅思` before an appended one keeps exactly that text. |
| ParseTobepicked.CleanTuitionCut | parse_tobepicked.py:73-75 | A tuition line `fee 雅思…`, padded with whitespace, is cleaned down to `fee`. |
| ParseTobepicked.StripTrailing | parse_tobepicked.py:75 | Stripping trimmed text followed by whitespace gives back the text. |
| ParseTobepicked.CleanTuitionPlain | parse_tobepicked.py:73-75 | A tuition line without `雅思` is cleaned down to its stripped text. |
| ParseTobepicked.Tuition | parse_tobepicked.py:71-79 | The tuition is `待查询` when the note has no `学费` match. Otherwise it is the cleaned first match, or `待查询` when that is under 3 characters. So it is `待查询` or a piece of the note at least 3 characters long without `雅思`. |
| ParseTobepicked.IeltsHeaderAt | parse_tobepicked.py:82 | `雅思\s*\n\s*\n\s*([^\n]+)` matches at a position iff `雅思` is there and a group start follows over whitespace with two newlines. The capture is one non-empty line of the note. |
| ParseTobepicked.ScoreAt | parse_tobepicked.py:86 | A score matches at a position iff a digit is there. The match is non-empty text at that position. Its shape and greediness are given by `ParseTobepicked.ScoreShape` and `ParseTobepicked.ScoreIsLongest`. |
| ParseTobepicked.ScoreShape | parse_tobepicked.py:86 | The captured score has the shape `\d+(?:\.\d+)?(?:/\d+)?`. |
| ParseTobepicked.ScoreFromRuns | parse_tobepicked.py:86 | Digits, then optionally `.` and digits, then optionally `/` and digits, form a score-shaped text. |
| ParseTobepicked.RunsOfScore | parse_tobepicked.py:86 | Conversely, a score-shaped text is made of those three runs. |
| ParseTobepicked.ScoreIsLongest | parse_tobepicked.py:86 | Greediness: every score-shaped text starting at the position ends within the captured score. |
| ParseTobepicked.Ielts | parse_tobepicked.py:82-94 | Without a `雅思` header match the field is `""`. With one, it is `雅思: ` plus the first score in the stripped line. Without a score it is `雅思: ` plus the line when that is non-empty, not `雅思`, and free of cost markers, and `""` otherwise. It is never `待查询`. |
| ParseTobepicked.DeadlineAt | parse_tobepicked.py:98 | `申请截止[：:]\s*([^\n]+)` matches at a position iff `申请截止` and a colon are there and a non-newline character follows after whitespace, possibly on a later line. The capture is one non-empty line of the note. |
| ParseTobepicked.ApplicationPeriodAt | parse_tobepicked.py:99 | `申请时间\s*\n\s*\n\s*([^\n]+)` matches iff `申请时间` is there and a group start follows over whitespace with two newlines. |
| ParseTobepicked.FirstRoundPrefix | parse_tobepicked.py:100 | The prefix `申请截止[：:]\s*Round\s*1[：:]` matches at a position iff `申请截止`, a colon, whitespace, `Round`, whitespace, `1` and a colon are there. It ends just after that colon. |
| ParseTobepicked.FirstRoundAt | parse_tobepicked.py:100 | `申请截止[：:]\s*Round\s*1[：:]\s*([^\n]+)` matches iff its prefix does and a non-newline character follows after whitespace. The capture is one non-empty line of the note. |
| ParseTobepicked.FirstPattern | parse_tobepicked.py:102-107 | The chosen pattern is the first in list order that matches, and the capture is its match. None of the earlier patterns matches. When nothing is chosen, no pattern matches. |
| ParseTobepicked.Deadline | parse_tobepicked.py:97-107 | The deadline is the stripped capture of the first pattern in list order that matches, or `待查询` when none does. It is always a single line. |
| ParseTobepicked.CaptureIsOneLine | parse_tobepicked.py:98-100 | Every deadline pattern ends in `([^\n]+)`, so its capture has no newline. |
| ParseTobepicked.FirstRoundImpliesDeadline | parse_tobepicked.py:98-100 | Wherever the `Round 1` pattern matches, the plain `申请截止` pattern matches too. |
| ParseTobepicked.FirstRoundNeverWins | parse_tobepicked.py:97-107 | The third deadline pattern is never the chosen one. |
| ParseTobepicked.CollapseRunsKeeps | parse_tobepicked.py:114-115 | Collapsing runs of `p` into a space keeps every character that is neither a space nor in `p`, in order. |
| ParseTobepicked.CollapseRuns | parse_tobepicked.py:114-115 | `re.sub(p+, ' ')`: no `p` character is left except a single space. With `\s`, no two whitespace characters are adjacent. Non-`p` ends are kept. |
| ParseTobepicked.NormalizeSection | parse_tobepicked.py:112-115 | A normalised section has no newline, no two adjacent whitespace characters, and no whitespace at either end. Its non-whitespace characters are those of the capture, in order. |
| ParseTobepicked.CollapseTwiceNormalized | parse_tobepicked.py:114-115 | The two substitutions applied to stripped text leave it without newlines, without adjacent whitespace, and stripped. |
| ParseTobepicked.CollapseTwiceKeeps | parse_tobepicked.py:114-115 | The two substitutions keep every non-whitespace character, in order. |
| ParseTobepicked.SectionText | parse_tobepicked.py:110-117 | Requirements or description is `待查询` when the section is absent. Otherwise it is normalised and keeps the capture's non-whitespace characters in order. |
| ParseTobepicked.DurationAt | parse_tobepicked.py:120 | `学制[：:]\s*([^\n]+)` matches at a position iff `学制` and a colon are there and a non-newline character follows after whitespace, possibly on a later line. The capture is one non-empty line. |
| ParseTobepicked.Duration | parse_tobepicked.py:120-132 | The duration is the stripped capture of the first `学制:` match in the note. Failing that, it is the stripped capture of the first match in the tuition text when that text contains `学制`. Otherwise it is `待查询`. It is always a single line. |
| ParseTobepicked.DurationInSlice | parse_tobepicked.py:126 | A `学制:` match in a piece of the note is also a match in the note. |
| ParseTobepicked.FallbackFindsNothing | parse_tobepicked.py:124-132 | When the note has no `学制:` match and the tuition text is `待查询` or a piece of the note, the duration is `待查询`. |
| ParseTobepicked.DurationFallbackIsSentinel | parse_tobepicked.py:119-132 | Falling back to the tuition line can only give `待查询`. |
| ParseTobepicked.ParseMarkdownFile | parse_tobepicked.py:143-156 | Admission rate and important date are always `待查询`. The university occurs in the note's institution name. URL, tuition, IELTS, deadline and duration follow the rules above. Sections are `待查询` or normalised with their non-whitespace text kept. |
| ParseTobepicked.ParsedIeltsScore | parse_tobepicked.py:82-94 | A record whose note has an IELTS line holding a score stores `雅思: ` plus the first score of the stripped line. |
| ParseTobepicked.ParsedNames | parse_tobepicked.py:143-146 | The record's Chinese and English names are the pair `ProjectNames` picks from the stem, the dash line and the pipe line. |
| MapFold.AssignKeys | convert_data.py:132 | After successive `d[k] = v` assignments, a key is present iff it was present before or some item assigned it. |
| MapFold.AssignUntouched | convert_data.py:132 | A key that no item assigns keeps its value. |
| MapFold.AssignLastWins | convert_data.py:132 | The last assignment to a key decides its value. |
| MapFold.AssignAppend | convert_data.py:121-132 | Processing two lists one after the other is the same as processing their concatenation. |
| MapFold.DropSilentItem | convert_data.py:124-125 | An item that assigns nothing can be removed without changing the dict. |
| ProjectRecords.MissingColumn | convert_data.py:96-110 | The reported column is the first one, in lookup order, that the row lacks. There is none iff the row has every column from that point on. |
| ProjectRecords.MissingColumnIff | convert_data.py:96-110 | The lookups fail on a row exactly when it lacks one of the twelve columns. |
| ProjectRecords.ConvertRows | convert_data.py:91-114 | The conversion succeeds iff every row has all columns. It then gives one record per row, in order, and each field is copied verbatim from its column, with `id = university-project`. On failure, the error is the first missing column of the first incomplete row. |
| ConvertData.ConvertCsvToJson | convert_data.py:89-114 | Admitted-list conversion succeeds iff every row has all columns, giving one record per row copied verbatim with no `status`. On failure, the error is the first missing column of the first incomplete row. |
| ConvertTobepickedData.ConvertCsvToJson | convert_tobepicked_data.py:16-42 | Candidate-list conversion succeeds iff every row has all columns, giving one record per row copied verbatim with `status == 'tobepicked'`. On failure, the error is the first missing column of the first incomplete row. |
| ConvertData.InfoKeyOf | convert_data.py:24-30 | Only lines starting with `-` set a key. `英文名称` takes priority over `录取概率`, which takes priority over `重要日期`. |
| ConvertData.DashLineNotBlank | convert_data.py:24 | A line starting with `-` always passes `line.strip()`. |
| ConvertData.InfoValue | convert_data.py:26 | The value has no `：`, no surrounding whitespace, and is a piece of the line. A line without `：` gives the stripped line. |
| ConvertData.InfoValueOf | convert_data.py:26 | Whatever precedes the last `：`, the value is the text after it, stripped. |
| ConvertData.ParseBasicInfo | convert_data.py:19-30 | `basic_info` has a key iff some line of the section sets it. |
| ConvertData.BasicInfoLastLineWins | convert_data.py:23-30 | The last line setting a key decides its value. |
| ConvertData.XhsPostOf | convert_data.py:41-47 | Each Xiaohongshu post field is its group with only leading and trailing whitespace removed, and none left. The post number is dropped. |
| ConvertData.ZhihuPostOf | convert_data.py:58-65 | The same holds for the six Zhihu fields. |
| ConvertData.StrippedFromIsStrip | convert_data.py:42 | A value obtained from a group that way is exactly the group's `strip()`. |
| ConvertData.ParseMarkdown | convert_data.py:13-82 | Each part comes from its own section, and a missing section leaves that part empty. Posts are in match order. Basic-info values contain no `：`. All values are stripped. The summary assigns each section title its stripped body, in order. |
| ConvertData.SummaryKeys | convert_data.py:73-75 | A title is a summary key iff some `### title` section carries it. |
| ConvertData.SummaryLastWins | convert_data.py:73-75 | A repeated title keeps the stripped body of its last section. |
| ConvertData.BasicInfoSectionEndsAtHeading | convert_data.py:20 | The basic-info section never contains `\n##`. |
| ConvertData.FileEntryKey | convert_data.py:123-131 | A file contributes an entry iff its stem has a `-`, and the entry is keyed by the stem itself. |
| ConvertData.ConvertMarkdownsToJson | convert_data.py:116-134 | The keys of the notes dictionary are exactly the file stems that contain `-`. |
| ConvertData.MarkdownKeys | convert_data.py:121-131 | Some file with stem `id` exists and `id` contains `-` exactly when the folded dictionary has the key `id`. |
| ConvertData.LastFileWins | convert_data.py:121-132 | The entry for a stem is the parse of the last file with that stem. |
| ConvertData.SkippedFileIgnored | convert_data.py:124-125 | A file whose stem has no `-` contributes nothing: removing it leaves the dictionary unchanged. |
| JsNumber.ParseInt | web/js/main.js:64 | `parseInt` is NaN iff no digit of the chosen base follows the whitespace, sign and `0x` prefix. Otherwise it is the sign times the value of the longest digit run. |
| JsNumber.DecimalValue | web/js/main.js:64 | The decimal digits of `n` are read back as `n`. |
| JsNumber.ParseIntOfDecimal | web/js/main.js:64 | `parseInt(String(n) + suffix) == n` for any suffix that starts with neither a digit, `x` nor `X`, for example `%`. |
| JsNumber.RateKey | web/js/main.js:77-78 | `parseInt(rate) \|\| 0` is 0 for an unparsable rate and the parsed integer otherwise. |
| ProjectList.GetAdmissionRateClass | web/js/main.js:62-68 | An empty rate is `low`. The class is `high` iff the parsed integer is at least 60, and `medium` iff it is in [30, 60). NaN is `low`. |
| ProjectList.RateClassOfPercent | web/js/main.js:62-68 | `"n%"` gets `high` for n ≥ 60, `medium` for 30 ≤ n < 60, and `low` otherwise. |
| ProjectList.RateDescending | web/js/main.js:76-80 | The comparator is negative iff `a` has the higher `parseInt(rate) \|\| 0`, zero iff the two are equal, and the negation of the ascending comparator. |
| ProjectList.RateAscending | web/js/main.js:83-87 | The comparator is negative iff `a` has the lower `parseInt(rate) \|\| 0`, and zero iff the two are equal. |
| ProjectList.UniversityOrder | web/js/main.js:90-92 | The comparator looks only at the two universities, and ranks `a` first iff `collate` does. |
| ProjectList.CompareDeadlines | web/js/main.js:95-103 | A dated project ranks before an undated one, two undated ones tie, and two dated ones compare by `collate` on their `YYYY-MM` keys. |
| Dates.DateAt | web/js/main.js:116 | `(\d{4})[年-](\d{1,2})` matches at a position iff four digits, `年` or `-`, and a digit are there. The year is the four digits. The month is the text after the separator, and it takes a second digit whenever one follows. |
| Dates.PadMonth | web/js/main.js:119 | `padStart(2, '0')` gives two characters that end with the month, with a leading `0` for a one-digit month. |
| Dates.ExtractDate | web/js/main.js:113-123 | The result is null iff the input is empty or `待查询`. Otherwise it is non-empty. It is `YYYY-MM` iff the text contains a date, and the unchanged input when it contains none. |
| Dates.YearMonthOf | web/js/main.js:119-120 | Four digits, `-` and a two-digit padded month always form a `YYYY-MM` key. |
| Dates.ExtractDateIsLeftmost | web/js/main.js:116-120 | The date normalised is the leftmost one: its year, `-`, and its month padded to two digits. |
| Dates.YearMonthIsDate | web/js/main.js:116-121 | A `YYYY-MM` text is its own date. |
| Dates.ExtractDateIdempotent | web/js/main.js:113-123 | Normalising a deadline twice gives the same result as once. |
| Dates.ExtractDateOf | web/js/main.js:116-121 | A text with no digit before `YYYY年M` or `YYYY-M` normalises to `YYYY-0M`, or to `YYYY-MM` for a two-digit month. |
| Sorting.Insert | web/js/main.js:76-80 | Insertion adds exactly the new element and nothing else. |
| Sorting.Sort | web/js/main.js:72-104 | The sorted list is a permutation of the input. |
| Sorting.InsertSorted | web/js/main.js:76-80 | Under a total preorder, inserting into a sorted list keeps it sorted. |
| Sorting.SortSorted | web/js/main.js:72-104 | Under a total preorder, the result is sorted. |
| Sorting.InsertPartitioned | web/js/main.js:95-103 | Insertion keeps the preferred elements first. |
| Sorting.SortPartitioned | web/js/main.js:95-103 | If the comparator ranks every `p` element below every non-`p` element, all `p` elements come first, whatever else it does. |
| Sorting.SortOfSorted | web/js/main.js:72-104 | The sort is stable: an already sorted list comes back unchanged. |
| Sorting.InsertAtEnd | web/js/main.js:76-80 | An element that compares below none of the list is appended at its end. |
| ProjectList.DeadlineRanksDatedFirst | web/js/main.js:94-103 | The deadline comparator ranks projects with a date before undated ones, for any `collate`. |
| ProjectList.SortProjects | web/js/main.js:71-110 | The result is a permutation of the projects. An unknown sort type keeps the original order. The rate orders are non-increasing or non-decreasing in `parseInt(rate) \|\| 0`. The deadline order puts every undated project after every dated one. |
| ProjectList.UniversitySorted | web/js/main.js:89-93 | When `localeCompare` is a total preorder, the university sort is ordered by university. |
| ProjectList.UniversityIsPreorder | web/js/main.js:90-92 | The university comparator is a total preorder when `collate` is one. |
| ProjectList.DeadlineSorted | web/js/main.js:94-103 | When `localeCompare` is a total preorder, dated projects are ordered by their `YYYY-MM` key. |
| ProjectList.DeadlineIsPreorder | web/js/main.js:95-103 | The deadline comparator is a total preorder when `collate` is one. |
| CandidateList.SortProjects | web/js/tobepicked.js:62-87 | The result is a permutation. Only `university` and `deadline` sort, and both agree with the admitted-list page. Every other type keeps the original order. Undated projects come last. |
| CandidateList.RateSortsIgnored | web/js/tobepicked.js:65-84 | The admission-rate sort types leave the candidate list unchanged. |
| CandidateDetail.ValueOr | js/tobepicked-detail.js:71-84 | `value \|\| default` shows a non-empty value as is, shows the default for `""`, and is never empty when the default is not. |
| CandidateDetail.RenderProjectDetail | js/tobepicked-detail.js:60-84 | Each field shows the record value when it is non-empty and its fixed default otherwise (`待查询`, `待定`, `无要求`, `暂无描述`, `#`/`暂无链接`). Names are copied, the badge is always `low`, and no defaulted field is empty. |
| CandidateDetail.FormatLine | js/tobepicked-detail.js:152-159 | A blank line gives nothing. Any other line gives `<p>` + its trimmed text + `</p>`, whether numbered or not. A line without `\n` gives HTML without `\n`. |
| CandidateDetail.FormatLines | js/tobepicked-detail.js:152-160 | Lines without a newline format to HTML without a newline. |
| CandidateDetail.FormatSummaryText | js/tobepicked-detail.js:149-161 | The empty text gives `''`. The output never contains `\n`. |
| CandidateDetail.FormatLinesAppend | js/tobepicked-detail.js:152-160 | Formatting concatenated line lists concatenates their outputs. |
| CandidateDetail.FormatSingleLine | js/tobepicked-detail.js:152-160 | A one-line text gives its trimmed text as one paragraph, or `''` when it is blank. |
| CandidateDetail.FormatAppend | js/tobepicked-detail.js:152-160 | Formatting `x + '\n' + y` gives the formatting of `x` followed by the formatting of `y`. |
| CandidateDetail.BlankLineVanishes | js/tobepicked-detail.js:154 | Appending a blank line does not change the output. |
| CandidateDetail.NumberedLinePlain | js/tobepicked-detail.js:156-159 | A numbered line formats exactly like any other line. |

## Left out

- File reading and writing, directory globbing and `os.makedirs` are left out, as are CSV/JSON serialisation, `main` in every script, and printing. They are I/O.
- Per-file exception catching and logging in parse_tobepicked.py are left out.
- move_markdown_files.py is not part of this model. It only copies and deletes files.
- Browser code is left out: `fetch`, the async loaders, `URLSearchParams`, `DOMContentLoaded`, `updateProjectCount`, `goToDetail`, and the HTML of the list cards and of `renderSocialMedia`. These are UI concerns.
- ParseTobepicked.ParseMarkdownFile: the two `re.DOTALL` section captures (requirements and description) are inputs, not searched for. Only what the code does with them is modelled.
- ConvertData.ParseMarkdown: the three `re.findall` calls (Xiaohongshu posts, Zhihu posts, summary sections) are the parameter `finders`, applied to the section text. The section searches themselves are modelled.
- ParseTobepicked.ScoreAt: `\d` is ASCII digits. Python's `\d` on `str` also matches other Unicode decimal digits.
- JsNumber.ParseInt: the result is an unbounded integer. Double-precision rounding of very long digit runs and the sign of `-0` are not modelled. `-0` is treated as `0`, which it equals in every comparison the pages make.
- Sorting.Sort: JavaScript leaves the order unspecified when a comparator is inconsistent, for example when `localeCompare` is not a preorder. The model uses one stable insertion order, so only permutation and the dated-first partition are claimed for an arbitrary `collate`.
- ProjectList.UniversitySorted: sortedness is claimed only when `collate` is a total preorder. The `zh-CN` collation itself is not modelled.
- ProjectRecords.ConvertRows: a short CSV row, which `csv.DictReader` fills with `None`, is not modelled. Cells are strings.
- The UTF-8 byte-order mark handling (`utf-8-sig`) is not modelled. Headers are taken as decoded.
- Python dicts keep insertion order, which decides the order of JSON keys. The model's maps are unordered.
- ParseTobepicked.NormalizeSection: the contract keeps the non-whitespace characters in order and leaves single spaces, but does not state that a space stands exactly where the capture had a whitespace run.
- ParseTobepicked.ContentUniversity: the exact value is proved for a first line ending in `(QS:` and for a note without `(QS:`. A note whose `(QS:` line comes later is described only through the leftmost `QsAt` match.
- ParseTobepicked.UrlOfLink: a link in the middle of a note is described through `UrlAt` and the leftmost-match clause of `Url`, not by a concrete lemma.
- ProjectList.DeadlineSorted: the deadline comparison calls `localeCompare` with no locale, while the university comparison passes `zh-CN`. The model uses the one parameter `collate` for both.
