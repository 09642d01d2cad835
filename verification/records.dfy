/**
 * A project record as both CSV converters write it, and the row-by-row copy
 * from a `csv.DictReader` row (a map from header to cell) to a record.
 */
module ProjectRecords {
  import opened Wrappers
  import opened Identifier

  /** One CSV data row: header name to cell text. */
  type Row = map<string, string>

  const UniversityColumn: string := "大学名称"
  const ProjectNameColumn: string := "项目名称"
  const EnglishNameColumn: string := "项目英文名称"
  const AdmissionRateColumn: string := "录取概率"
  const ImportantDateColumn: string := "重要日期"
  const DescriptionColumn: string := "详细描述"
  const UrlColumn: string := "项目URL"
  const IeltsColumn: string := "IELTS要求"
  const DeadlineColumn: string := "申请截止日期"
  const RequirementsColumn: string := "申请要求"
  const TuitionColumn: string := "学费信息"
  const DurationColumn: string := "项目时长"

  /**
   * The columns a row must have, in the order the converters look them up
   * (the identifier reads the university and project name first).
   */
  const Columns: seq<string> := [
    UniversityColumn, ProjectNameColumn, EnglishNameColumn, AdmissionRateColumn,
    ImportantDateColumn, DescriptionColumn, UrlColumn, IeltsColumn,
    DeadlineColumn, RequirementsColumn, TuitionColumn, DurationColumn
  ]

  /** A project record; `status` is present only in the candidate list. */
  datatype Project = Project(
    id: string,
    university: string,
    projectName: string,
    englishName: string,
    admissionRate: string,
    importantDate: string,
    description: string,
    url: string,
    ieltsRequirement: string,
    deadline: string,
    requirements: string,
    tuition: string,
    duration: string,
    status: Option<string>)

  /** `row` has a cell for every column the converters read. */
  predicate HasColumns(row: Row) {
    UniversityColumn in row && ProjectNameColumn in row && EnglishNameColumn in row
    && AdmissionRateColumn in row && ImportantDateColumn in row && DescriptionColumn in row
    && UrlColumn in row && IeltsColumn in row && DeadlineColumn in row
    && RequirementsColumn in row && TuitionColumn in row && DurationColumn in row
  }

  /** The first column, from index `from` on, that `row` lacks: the `KeyError` Python raises. */
  function MissingColumn(row: Row, from: nat): (r: Option<string>)
    ensures r.None? <==> forall i :: from <= i < |Columns| ==> Columns[i] in row
    ensures r.Some? ==> r.value !in row
    ensures r.Some? ==> exists i :: (from <= i < |Columns| && Columns[i] == r.value
      && forall j :: from <= j < i ==> Columns[j] in row)
    decreases |Columns| - from
  {
    if from >= |Columns| then None
    else if Columns[from] !in row then Some(Columns[from])
    else MissingColumn(row, from + 1)
  }

  /** Looking the columns up one by one fails exactly on a row that lacks one. */
  lemma MissingColumnIff(row: Row)
    ensures MissingColumn(row, 0).None? <==> HasColumns(row)
  {
    assert Columns[0] == UniversityColumn && Columns[1] == ProjectNameColumn;
    assert Columns[2] == EnglishNameColumn && Columns[3] == AdmissionRateColumn;
    assert Columns[4] == ImportantDateColumn && Columns[5] == DescriptionColumn;
    assert Columns[6] == UrlColumn && Columns[7] == IeltsColumn;
    assert Columns[8] == DeadlineColumn && Columns[9] == RequirementsColumn;
    assert Columns[10] == TuitionColumn && Columns[11] == DurationColumn;
  }

  /** Every field of `p` holds its column's cell, the identifier is built from the two names. */
  ghost predicate CopiedFrom(p: Project, row: Row, status: Option<string>)
    requires HasColumns(row)
  {
    p.id == GenerateProjectId(row[UniversityColumn], row[ProjectNameColumn])
    && p.university == row[UniversityColumn]
    && p.projectName == row[ProjectNameColumn]
    && p.englishName == row[EnglishNameColumn]
    && p.admissionRate == row[AdmissionRateColumn]
    && p.importantDate == row[ImportantDateColumn]
    && p.description == row[DescriptionColumn]
    && p.url == row[UrlColumn]
    && p.ieltsRequirement == row[IeltsColumn]
    && p.deadline == row[DeadlineColumn]
    && p.requirements == row[RequirementsColumn]
    && p.tuition == row[TuitionColumn]
    && p.duration == row[DurationColumn]
    && p.status == status
  }

  /**
   * The loop of `convert_csv_to_json`: one record per row, in row order.  A
   * row without one of the columns raises `KeyError` and the whole conversion
   * fails with the first column the failing row lacks.
   */
  method ConvertRows(rows: seq<Row>, status: Option<string>) returns (r: Result<seq<Project>, string>)
    ensures r.Success? <==> forall k :: 0 <= k < |rows| ==> HasColumns(rows[k])
    ensures r.Success? ==> |r.value| == |rows|
    ensures r.Success? ==> forall k :: 0 <= k < |rows| ==> HasColumns(rows[k]) && CopiedFrom(r.value[k], rows[k], status)
    ensures r.Failure? ==> exists k :: (0 <= k < |rows| && !HasColumns(rows[k])
      && (forall j :: 0 <= j < k ==> HasColumns(rows[j]))
      && MissingColumn(rows[k], 0) == Some(r.error))
  {
    var projects: seq<Project> := [];
    var i := 0;
    while i < |rows|
      invariant 0 <= i <= |rows| && |projects| == i
      invariant forall k :: 0 <= k < i ==> HasColumns(rows[k]) && CopiedFrom(projects[k], rows[k], status)
    {
      var row := rows[i];
      var missing := MissingColumn(row, 0);
      MissingColumnIff(row);
      if missing.Some? {
        return Failure(missing.value);
      }
      var p := Project(
        GenerateProjectId(row[UniversityColumn], row[ProjectNameColumn]),
        row[UniversityColumn], row[ProjectNameColumn], row[EnglishNameColumn],
        row[AdmissionRateColumn], row[ImportantDateColumn], row[DescriptionColumn],
        row[UrlColumn], row[IeltsColumn], row[DeadlineColumn],
        row[RequirementsColumn], row[TuitionColumn], row[DurationColumn], status);
      projects := projects + [p];
      i := i + 1;
    }
    return Success(projects);
  }
}
