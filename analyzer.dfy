/** One analysis task end to end, without the file output: the file list,
    the accumulation, the sorted index vocabulary, the records in name order
    and the rows of the inventory and pivot reports. */
module Analyzer {
  import opened StringOrder
  import opened Sorting
  import opened Tables
  import opened Aggregation
  import opened Reports

  /** What a successful task hands to the CSV writer: the records in
      inventory order, the index vocabulary, and the two reports, each with
      its header row first. */
  datatype TaskReports = TaskReports(
    tblInfos: seq<TblInfo>,
    indexes: seq<string>,
    tableInfo: seq<seq<string>>,
    indexAnalysis: seq<seq<string>>)

  /** The inventory is ordered by table name. */
  function NameKey(info: TblInfo): string
  {
    info.tblName
  }

  /** The pivot's membership test as `processTask` performs it: the record's path
      is looked up among the paths of the file list that passed the filter,
      and the index among the indexes that path's parse declares. */
  ghost predicate MarkedAsWritten(paths: seq<string>, env: Env, path: string, idx: string)
  {
    path in paths && Supported(path) && idx in env.parse(path).indexes
  }

  /** The outcome of a successful task over the file list `paths`. */
  ghost predicate Reported(paths: seq<string>, env: Env, rep: TaskReports)
  {
    && Collect(paths, env).Ok?
    // the records: exactly those collected, non-decreasing by name
    && multiset(rep.tblInfos) == multiset(Collect(paths, env).value)
    && SortedBy(rep.tblInfos, NameKey)
    // the vocabulary: every declared index once, in ascending order
    && StrictlySorted(rep.indexes)
    && (forall x :: x in rep.indexes <==> x in IndexNames(paths, env))
    // table_info.csv
    && |rep.tableInfo| == |rep.tblInfos| + 1
    && rep.tableInfo[0] == InventoryHeader
    && (forall k :: 0 <= k < |rep.tblInfos| ==> rep.tableInfo[k + 1] == InventoryRow(rep.tblInfos[k], env.formatSize))
    // table_index_analysis.csv
    && |rep.indexAnalysis| == |rep.tblInfos| + 1
    && rep.indexAnalysis[0] == ["Table Path"] + rep.indexes
    && (forall k :: 0 <= k < |rep.tblInfos| ==> PivotRowOf(paths, env, rep.tblInfos[k], rep.indexes, rep.indexAnalysis[k + 1]))
  }

  /** A data row of the pivot: the record's path, then for each vocabulary
      entry "1" if the loop marked it for that path and "0" otherwise. */
  ghost predicate PivotRowOf(paths: seq<string>, env: Env, info: TblInfo, indexes: seq<string>, row: seq<string>)
  {
    && |row| == |indexes| + 1
    && row[0] == info.tblPath
    && forall c :: 0 <= c < |indexes| ==>
         row[c + 1] == if MarkedAsWritten(paths, env, info.tblPath, indexes[c]) then "1" else "0"
  }

  /** `processTask`, up to the point where the rows go to the CSV writer. */
  method ProcessTask(task: Task, env: Env) returns (r: Result<TaskReports, TaskError>)
    ensures var paths := Listed(task.dirs, task.ifRecursive, env);
            && (r.Err? <==> exists k :: 0 <= k < |paths| && SizeFails(paths[k], env))
            && (r.Err? ==> Collect(paths, env) == Err(r.error))
            && (r.Ok? ==> Reported(paths, env, r.value))
  {
    var paths := CollectPaths(task, env);
    var collected := Accumulate(paths, env);
    CollectFails(paths, env);
    if collected.Err? {
      return Err(collected.error);
    }
    var acc := collected.value;

    var indexes := Vocabulary(acc.idxCount);
    var tblInfos := SortByKey(acc.tblInfos, NameKey);
    var infoRows := InventoryRows(tblInfos, env.formatSize);
    var pivotRows := PivotRows(tblInfos, indexes, acc.tblMapIdx);
    ReportedFromParts(paths, env, acc, tblInfos, indexes, infoRows, pivotRows);
    r := Ok(TaskReports(tblInfos, indexes, [InventoryHeader] + infoRows, [["Table Path"] + indexes] + pivotRows));
  }

  /** The index vocabulary: the keys of the occurrence map, sorted. */
  method Vocabulary(idxCount: map<string, int>) returns (indexes: seq<string>)
    ensures StrictlySorted(indexes)
    ensures forall x :: x in indexes <==> x in idxCount
  {
    var keys := Keys(idxCount);
    indexes := SortByKey(keys, Identity);
    PermutationKeepsDistinct(keys, indexes);
    SortedDistinctIsStrict(indexes);
    assert forall x :: x in indexes <==> x in multiset(keys);
  }

  /** The pieces `ProcessTask` computes, put together, are the outcome stated on
      the file list; in particular the pivot cells read from the membership
      map are the membership test stated on the file list. */
  lemma ReportedFromParts(paths: seq<string>, env: Env, acc: Accumulated, tblInfos: seq<TblInfo>,
                          indexes: seq<string>, infoRows: seq<seq<string>>, pivotRows: seq<seq<string>>)
    requires Accumulates(paths, env, acc)
    requires multiset(tblInfos) == multiset(acc.tblInfos) && SortedBy(tblInfos, NameKey)
    requires StrictlySorted(indexes) && forall x :: x in indexes <==> x in acc.idxCount
    requires |infoRows| == |tblInfos|
    requires forall k :: 0 <= k < |infoRows| ==> infoRows[k] == InventoryRow(tblInfos[k], env.formatSize)
    requires |pivotRows| == |tblInfos|
    requires forall k :: 0 <= k < |pivotRows| ==> |pivotRows[k]| == |indexes| + 1 && pivotRows[k][0] == tblInfos[k].tblPath
    requires forall k, c :: 0 <= k < |pivotRows| && 0 <= c < |indexes| ==>
               pivotRows[k][c + 1] == Cell(acc.tblMapIdx, tblInfos[k].tblPath, indexes[c])
    ensures Reported(paths, env, TaskReports(tblInfos, indexes, [InventoryHeader] + infoRows,
                                             [["Table Path"] + indexes] + pivotRows))
  {
    var tableInfo := [InventoryHeader] + infoRows;
    var indexAnalysis := [["Table Path"] + indexes] + pivotRows;
    forall k | 0 <= k < |tblInfos|
      ensures tableInfo[k + 1] == InventoryRow(tblInfos[k], env.formatSize)
      ensures PivotRowOf(paths, env, tblInfos[k], indexes, indexAnalysis[k + 1])
    {
      assert indexAnalysis[k + 1] == pivotRows[k];
      forall c | 0 <= c < |indexes|
        ensures Cell(acc.tblMapIdx, tblInfos[k].tblPath, indexes[c]) ==
                if MarkedAsWritten(paths, env, tblInfos[k].tblPath, indexes[c]) then "1" else "0"
      {
        assert tblInfos[k].tblPath in acc.tblMapIdx <==> tblInfos[k].tblPath in paths && Supported(tblInfos[k].tblPath);
      }
    }
    assert forall x :: x in indexes <==> x in IndexNames(paths, env);
  }
}
