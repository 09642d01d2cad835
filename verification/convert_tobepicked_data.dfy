/** The candidate-list converter: the same row copy, every record marked as a candidate. */
module ConvertTobepickedData {
  import opened Wrappers
  import opened ProjectRecords

  const CandidateStatus: string := "tobepicked"

  /** `convert_csv_to_json` of the candidate list: every record carries the status `tobepicked`. */
  method ConvertCsvToJson(rows: seq<Row>) returns (r: Result<seq<Project>, string>)
    ensures r.Success? <==> forall k :: 0 <= k < |rows| ==> HasColumns(rows[k])
    ensures r.Success? ==> |r.value| == |rows|
    ensures r.Success? ==> forall k :: 0 <= k < |rows| ==> r.value[k].status == Some(CandidateStatus)
    ensures r.Success? ==> forall k :: 0 <= k < |rows| ==>
      HasColumns(rows[k]) && CopiedFrom(r.value[k], rows[k], Some(CandidateStatus))
    ensures r.Failure? ==> exists k :: (0 <= k < |rows| && !HasColumns(rows[k])
      && (forall j :: 0 <= j < k ==> HasColumns(rows[j]))
      && MissingColumn(rows[k], 0) == Some(r.error))
  {
    r := ConvertRows(rows, Some(CandidateStatus));
  }
}
