/**
 * The candidate-list page.  It repeats the university and deadline
 * comparators and `extractDate` of the admitted-list page word for word and
 * drops the two admission-rate orders.
 */
module CandidateList {
  import opened Dates
  import opened Sorting
  import opened ProjectRecords
  import opened ProjectList

  /**
   * `sortProjects(sortType)` of the candidate page: only `university` and
   * `deadline` sort; every other type, the admission-rate ones included,
   * keeps the original order.
   */
  function SortProjects(projects: seq<Project>, sortType: string, collate: (string, string) -> int): (r: seq<Project>)
    ensures multiset(r) == multiset(projects)
    ensures sortType != ByUniversity && sortType != ByDeadline ==> r == projects
    ensures sortType == ByDeadline ==> forall i, j :: 0 <= i < j < |r| && Dated(r[j]) ==> Dated(r[i])
    ensures sortType == ByUniversity || sortType == ByDeadline ==>
      r == ProjectList.SortProjects(projects, sortType, collate)
  {
    if sortType == ByUniversity then
      Sort(projects, UniversityOrder(collate))
    else if sortType == ByDeadline then
      DeadlineRanksDatedFirst(collate);
      SortPartitioned(projects, DeadlineOrder(collate), Dated);
      Sort(projects, DeadlineOrder(collate))
    else projects
  }

  /** The candidate page ignores the admission-rate sort types. */
  lemma RateSortsIgnored(projects: seq<Project>, collate: (string, string) -> int)
    ensures SortProjects(projects, RateDesc, collate) == projects
    ensures SortProjects(projects, RateAsc, collate) == projects
  {
  }
}
