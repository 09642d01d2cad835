/**
 * The admitted-list page: the admission-rate badge class and the four sort
 * orders of the sort selector.  `localeCompare(…, 'zh-CN')` is the parameter
 * `collate`, whose sign is all the sort looks at.
 */
module ProjectList {
  import opened JsNumber
  import opened Dates
  import opened Sorting
  import opened ProjectRecords

  datatype RateClass = Low | Medium | High

  /**
   * `getAdmissionRateClass(rate)`: an empty rate is low; otherwise the
   * integer prefix decides, at 60 and 30, and an unparsable rate is low.
   */
  function GetAdmissionRateClass(rate: string): (c: RateClass)
    ensures rate == "" ==> c == Low
    ensures c == High <==> rate != "" && ParseInt(rate).Int? && ParseInt(rate).value >= 60
    ensures c == Medium <==> rate != "" && ParseInt(rate).Int? && 30 <= ParseInt(rate).value < 60
  {
    if rate == "" then Low
    else match ParseInt(rate)
      case NaN => Low
      case Int(n) => if n >= 60 then High else if n >= 30 then Medium else Low
  }

  /** A percentage such as `65%` gets the class of its number. */
  lemma RateClassOfPercent(n: int)
    ensures GetAdmissionRateClass(ToDecimal(n) + "%") ==
      if n >= 60 then High else if n >= 30 then Medium else Low
  {
    ParseIntOfDecimal(n, "%");
  }

  // ---------------------------------------------------------------- comparators

  /** `(a, b) => rateB - rateA` with `rate = parseInt(admission_rate) || 0`. */
  function RateDescending(a: Project, b: Project): (r: int)
    ensures r < 0 <==> RateKey(a.admissionRate) > RateKey(b.admissionRate)
    ensures r == 0 <==> RateKey(a.admissionRate) == RateKey(b.admissionRate)
    ensures r == -RateAscending(a, b)
  {
    RateKey(b.admissionRate) - RateKey(a.admissionRate)
  }

  /** `(a, b) => rateA - rateB`. */
  function RateAscending(a: Project, b: Project): (r: int)
    ensures r < 0 <==> RateKey(a.admissionRate) < RateKey(b.admissionRate)
    ensures r == 0 <==> RateKey(a.admissionRate) == RateKey(b.admissionRate)
  {
    RateKey(a.admissionRate) - RateKey(b.admissionRate)
  }

  /** `(a, b) => a.university.localeCompare(b.university, 'zh-CN')`. */
  function UniversityOrder(collate: (string, string) -> int): (order: (Project, Project) -> int)
    // only the universities are compared
    ensures forall a: Project, b: Project, a': Project, b': Project ::
      a.university == a'.university && b.university == b'.university ==> order(a, b) == order(a', b')
    ensures forall a: Project, b: Project :: order(a, b) < 0 <==> collate(a.university, b.university) < 0
  {
    (a: Project, b: Project) => collate(a.university, b.university)
  }

  /** The deadline comparator: undated projects after dated ones, dated ones by their `YYYY-MM` key. */
  function CompareDeadlines(collate: (string, string) -> int, a: Project, b: Project): (r: int)
    ensures Dated(a) && !Dated(b) ==> r < 0
    ensures !Dated(a) && Dated(b) ==> r > 0
    ensures !Dated(a) && !Dated(b) ==> r == 0
    ensures Dated(a) && Dated(b) ==> r == collate(ExtractDate(a.deadline).value, ExtractDate(b.deadline).value)
  {
    var da := ExtractDate(a.deadline);
    var db := ExtractDate(b.deadline);
    if da.None? && db.None? then 0
    else if da.None? then 1
    else if db.None? then -1
    else collate(da.value, db.value)
  }

  function DeadlineOrder(collate: (string, string) -> int): (Project, Project) -> int {
    (a: Project, b: Project) => CompareDeadlines(collate, a, b)
  }

  /** The project has a usable deadline (`extractDate` is not `null`). */
  predicate Dated(p: Project) {
    ExtractDate(p.deadline).Some?
  }

  lemma RateOrdersArePreorders()
    ensures TotalPreorder(RateDescending) && TotalPreorder(RateAscending)
  {
  }

  /** The deadline comparator ranks dated projects first, whatever `collate` does. */
  lemma DeadlineRanksDatedFirst(collate: (string, string) -> int)
    ensures RanksFirst(DeadlineOrder(collate), Dated)
  {
  }

  // ----------------------------------------------------------------------- sort

  const RateDesc: string := "admission_rate_desc"
  const RateAsc: string := "admission_rate_asc"
  const ByUniversity: string := "university"
  const ByDeadline: string := "deadline"

  /**
   * `sortProjects(sortType)`: a sorted copy of `projects` for the four known
   * sort types, the projects in their original order for any other.
   */
  function SortProjects(projects: seq<Project>, sortType: string, collate: (string, string) -> int): (r: seq<Project>)
    ensures multiset(r) == multiset(projects)
    ensures sortType != RateDesc && sortType != RateAsc && sortType != ByUniversity && sortType != ByDeadline
      ==> r == projects
    ensures sortType == RateDesc ==>
      forall i, j :: 0 <= i < j < |r| ==> RateKey(r[i].admissionRate) >= RateKey(r[j].admissionRate)
    ensures sortType == RateAsc ==>
      forall i, j :: 0 <= i < j < |r| ==> RateKey(r[i].admissionRate) <= RateKey(r[j].admissionRate)
    ensures sortType == ByDeadline ==> forall i, j :: 0 <= i < j < |r| && Dated(r[j]) ==> Dated(r[i])
  {
    RateOrdersArePreorders();
    if sortType == RateDesc then
      SortSorted(projects, RateDescending);
      Sort(projects, RateDescending)
    else if sortType == RateAsc then
      SortSorted(projects, RateAscending);
      Sort(projects, RateAscending)
    else if sortType == ByUniversity then
      Sort(projects, UniversityOrder(collate))
    else if sortType == ByDeadline then
      DeadlineRanksDatedFirst(collate);
      SortPartitioned(projects, DeadlineOrder(collate), Dated);
      Sort(projects, DeadlineOrder(collate))
    else projects
  }

  /** When `localeCompare` is a total preorder, the university sort orders by university. */
  lemma UniversitySorted(projects: seq<Project>, collate: (string, string) -> int)
    requires TotalPreorder(collate)
    ensures var r := SortProjects(projects, ByUniversity, collate);
      forall i, j :: 0 <= i < j < |r| ==> collate(r[i].university, r[j].university) <= 0
  {
    UniversityIsPreorder(collate);
    SortSorted(projects, UniversityOrder(collate));
  }

  lemma UniversityIsPreorder(collate: (string, string) -> int)
    requires TotalPreorder(collate)
    ensures TotalPreorder(UniversityOrder(collate))
  {
    var cmp := UniversityOrder(collate);
    forall a: Project, b: Project ensures cmp(a, b) < 0 <==> cmp(b, a) > 0 {
      assert cmp(a, b) == collate(a.university, b.university);
      assert cmp(b, a) == collate(b.university, a.university);
    }
    forall a: Project, b: Project, c: Project | cmp(a, b) <= 0 && cmp(b, c) <= 0 ensures cmp(a, c) <= 0 {
      assert collate(a.university, b.university) <= 0 && collate(b.university, c.university) <= 0;
    }
  }

  /**
   * Among dated projects the deadline sort follows the `YYYY-MM` keys when
   * `localeCompare` is a total preorder on them.
   */
  lemma DeadlineSorted(projects: seq<Project>, collate: (string, string) -> int)
    requires TotalPreorder(collate)
    ensures var r := SortProjects(projects, ByDeadline, collate);
      forall i, j :: 0 <= i < j < |r| && Dated(r[j]) ==>
        collate(ExtractDate(r[i].deadline).value, ExtractDate(r[j].deadline).value) <= 0
  {
    DeadlineIsPreorder(collate);
    SortSorted(projects, DeadlineOrder(collate));
    DeadlineRanksDatedFirst(collate);
    SortPartitioned(projects, DeadlineOrder(collate), Dated);
  }

  lemma DeadlineIsPreorder(collate: (string, string) -> int)
    requires TotalPreorder(collate)
    ensures TotalPreorder(DeadlineOrder(collate))
  {
  }
}
