/** The keyword loop of `main` (app/googlesearch.py:103-126): each keyword
    is searched afresh and harvested on its own, and one sheet is written
    per keyword, in keyword order. */
module Orchestrator {
  import opened Records
  import opened Pagination

  /** A keyword together with what the search engine offers for it. */
  datatype Search = Search(keyword: string, world: World)

  /** The table written for one keyword (`output/<keyword>.xlsx`). */
  datatype Sheet = Sheet(keyword: string, rows: seq<Entry>)

  /** Harvest every keyword in list order. Each harvest starts from an
      empty `data` and cursor 1, so a sheet depends only on its own
      keyword's pages and on `limit`. */
  method Run(searches: seq<Search>, limit: nat) returns (sheets: seq<Sheet>)
    ensures |sheets| == |searches|
    ensures forall i :: 0 <= i < |sheets| ==> sheets[i].keyword == searches[i].keyword
    ensures forall i :: 0 <= i < |sheets| ==> sheets[i].rows == Padded(AllRecords(BatchesOf(searches[i].world)), limit)
    ensures forall i :: 0 <= i < |sheets| ==> |sheets[i].rows| == limit
  {
    sheets := [];
    for i := 0 to |searches|
      invariant |sheets| == i
      invariant forall j :: 0 <= j < i ==> sheets[j].keyword == searches[j].keyword
      invariant forall j :: 0 <= j < i ==> sheets[j].rows == Padded(AllRecords(BatchesOf(searches[j].world)), limit)
    {
      var rows, _ := Harvest(searches[i].world, limit);
      sheets := sheets + [Sheet(searches[i].keyword, rows)];
    }
  }
}
