/**
 * `extractDate` of the two list pages: the sort key of a deadline.  Both
 * pages define the same function.
 */
module Dates {
  import opened Wrappers
  import opened Text
  import opened Regex

  const YearMark: char := '年'

  /** The groups of `(\d{4})[年-](\d{1,2})` when it matches at `i`; the second `\d` is greedy. */
  function DateAt(s: string, i: nat): (r: Option<(string, string)>)
    ensures r.Some? ==> i + 6 <= |s| && r.value.0 == s[i..i + 4] && (s[i + 4] == YearMark || s[i + 4] == '-')
    ensures r.Some? ==> |r.value.0| == 4 && forall k :: 0 <= k < 4 ==> IsDigit(r.value.0[k])
    ensures r.Some? ==> 1 <= |r.value.1| <= 2 && forall k :: 0 <= k < |r.value.1| ==> IsDigit(r.value.1[k])
    // the pattern matches exactly when four digits, a separator and a digit start at `i`
    ensures r.Some? <==> i + 6 <= |s| && AllSatisfy(s, i, i + 4, IsDigit)
                         && (s[i + 4] == YearMark || s[i + 4] == '-') && IsDigit(s[i + 5])
    // the month is the text after the separator, and it takes a second digit whenever there is one
    ensures r.Some? ==> i + 5 + |r.value.1| <= |s| && r.value.1 == s[i + 5..i + 5 + |r.value.1|]
    ensures r.Some? && |r.value.1| == 1 ==> i + 6 == |s| || !IsDigit(s[i + 6])
  {
    if i + 6 <= |s| && IsDigit(s[i]) && IsDigit(s[i + 1]) && IsDigit(s[i + 2]) && IsDigit(s[i + 3])
       && (s[i + 4] == YearMark || s[i + 4] == '-') && IsDigit(s[i + 5])
    then
      var month := if i + 7 <= |s| && IsDigit(s[i + 6]) then s[i + 5..i + 7] else s[i + 5..i + 6];
      Some((s[i..i + 4], month))
    else None
  }

  /** `YYYY-MM`: four digits, a dash, two digits. */
  predicate IsYearMonth(d: string) {
    |d| == 7 && d[4] == '-' && forall k :: 0 <= k < 7 && k != 4 ==> IsDigit(d[k])
  }

  /** `month.padStart(2, '0')` for a month of one or two digits. */
  function PadMonth(month: string): (r: string)
    requires 1 <= |month| <= 2
    ensures |r| == 2 && r[2 - |month|..] == month
    ensures |month| == 1 ==> r[0] == '0'
    ensures (forall k :: 0 <= k < |month| ==> IsDigit(month[k])) ==> IsDigit(r[0]) && IsDigit(r[1])
  {
    if |month| == 1 then "0" + month else month
  }

  /** Four digits, a dash and two digits make a `YYYY-MM` key. */
  lemma YearMonthOf(year: string, mm: string)
    requires |year| == 4 && forall k :: 0 <= k < 4 ==> IsDigit(year[k])
    requires |mm| == 2 && IsDigit(mm[0]) && IsDigit(mm[1])
    ensures IsYearMonth(year + "-" + mm)
  {
    var d := year + "-" + mm;
    assert forall k :: 0 <= k < 4 ==> d[k] == year[k];
    assert d[5] == mm[0] && d[6] == mm[1];
  }

  /** The text has a date somewhere. */
  ghost predicate HasDate(s: string) {
    exists i: nat :: i <= |s| && DateAt(s, i).Some?
  }

  /**
   * `extractDate(dateStr)`: `None` (JavaScript `null`) for the empty text and
   * the sentinel, `YYYY-MM` from the leftmost date in the text, and the text
   * itself when it holds no date.
   */
  function ExtractDate(s: string): (r: Option<string>)
    ensures r.None? <==> s == "" || s == Sentinel
    ensures r.Some? ==> r.value != ""
    ensures r.Some? ==> (IsYearMonth(r.value) <==> HasDate(s))
    ensures r.Some? && !HasDate(s) ==> r.value == s
  {
    if s == "" || s == Sentinel then None
    else match Search(s, DateAt, 0)
      case Some((i, (year, month))) =>
        var d := year + "-" + PadMonth(month);
        YearMonthOf(year, PadMonth(month));
        Some(d)
      case None => Some(s)
  }

  /** The leftmost date in the text is the one normalised. */
  lemma ExtractDateIsLeftmost(s: string, i: nat)
    requires s != "" && s != Sentinel
    requires i <= |s| && DateAt(s, i).Some?
    requires forall k :: 0 <= k < i ==> DateAt(s, k).None?
    ensures ExtractDate(s) == Some(s[i..i + 4] + "-" + PadMonth(DateAt(s, i).value.1))
  {
    SearchIs(s, DateAt, 0, i);
  }

  /** A `YYYY-MM` text is its own date. */
  lemma YearMonthIsDate(d: string)
    requires IsYearMonth(d)
    ensures DateAt(d, 0) == Some((d[..4], d[5..7]))
    ensures ExtractDate(d) == Some(d)
  {
    assert d != Sentinel by { assert |Sentinel| == 3; }
    assert d == d[..4] + "-" + d[5..7];
  }

  /** Normalising twice changes nothing. */
  lemma ExtractDateIdempotent(s: string)
    requires ExtractDate(s).Some?
    ensures ExtractDate(ExtractDate(s).value) == ExtractDate(s)
  {
    var r := ExtractDate(s).value;
    if IsYearMonth(r) {
      YearMonthIsDate(r);
    }
  }

  /**
   * A text with no digit before a year, `年` or `-`, and a month (followed by
   * a non-digit when the month has one digit) normalises to that year and month.
   */
  lemma ExtractDateOf(pre: string, year: string, sep: char, month: string, rest: string)
    requires forall k :: 0 <= k < |pre| ==> !IsDigit(pre[k])
    requires |year| == 4 && forall k :: 0 <= k < 4 ==> IsDigit(year[k])
    requires sep == YearMark || sep == '-'
    requires 1 <= |month| <= 2 && forall k :: 0 <= k < |month| ==> IsDigit(month[k])
    requires |month| == 1 && |rest| > 0 ==> !IsDigit(rest[0])
    ensures ExtractDate(pre + year + [sep] + month + rest) == Some(year + "-" + PadMonth(month))
  {
    var s := pre + year + [sep] + month + rest;
    var n := |pre|;
    assert forall k :: 0 <= k < n ==> s[k] == pre[k];
    assert s[n..n + 4] == year;
    assert s[n + 4] == sep;
    assert s[n + 5..n + 5 + |month|] == month;
    assert |month| == 1 && n + 6 < |s| ==> s[n + 6] == rest[0];
    assert DateAt(s, n) == Some((year, month));
    assert s != Sentinel by { assert |Sentinel| == 3; }
    ExtractDateIsLeftmost(s, n);
  }
}
