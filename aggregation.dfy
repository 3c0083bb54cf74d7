/** The collection phase of a task: listing the files, the accumulation loop
    over them and the extraction of the index vocabulary. */
module Aggregation {
  import opened Tables
  import opened Sorting

  /** The file list `processTask` builds: each directory's listing, in
      directory order, and nothing else. */
  ghost function Listed(dirs: seq<string>, recursive: bool, env: Env): (r: seq<string>)
    ensures forall k :: 0 <= k < |dirs| ==> forall p :: p in env.filePaths(dirs[k], recursive) ==> p in r
    ensures forall p :: p in r ==> exists k :: 0 <= k < |dirs| && p in env.filePaths(dirs[k], recursive)
  {
    if dirs == [] then []
    else
      var front := dirs[..|dirs| - 1];
      assert forall k :: 0 <= k < |front| ==> front[k] == dirs[k];
      Listed(front, recursive, env) + env.filePaths(dirs[|dirs| - 1], recursive)
  }

  method CollectPaths(task: Task, env: Env) returns (paths: seq<string>)
    ensures paths == Listed(task.dirs, task.ifRecursive, env)
  {
    paths := [];
    for d := 0 to |task.dirs|
      invariant paths == Listed(task.dirs[..d], task.ifRecursive, env)
    {
      assert task.dirs[..d + 1][..d] == task.dirs[..d];
      paths := paths + env.filePaths(task.dirs[d], task.ifRecursive);
    }
    assert task.dirs[..|task.dirs|] == task.dirs;
  }

  /** The structures the loop over the file list fills in. */
  datatype Accumulated = Accumulated(
    tblInfos: seq<TblInfo>,
    idxCount: map<string, int>,
    idxSet: set<string>,
    tblMapIdx: map<string, map<string, bool>>)

  /** Once a prefix of the file list fails, the whole list fails the same way. */
  lemma {:induction false} CollectErrSticky(paths: seq<string>, n: nat, env: Env)
    requires n <= |paths| && Collect(paths[..n], env).Err?
    ensures Collect(paths, env) == Collect(paths[..n], env)
    decreases |paths| - n
  {
    if n < |paths| {
      assert paths[..n + 1][..n] == paths[..n];
      CollectErrSticky(paths, n + 1, env);
    } else {
      assert paths[..n] == paths;
    }
  }

  /** What the structures hold after the loop has seen `paths`: the records
      of the supported files in list order, the set and the occurrence count
      of every declared index, and for each supported path exactly the
      indexes its parse declares. */
  ghost predicate Accumulates(paths: seq<string>, env: Env, acc: Accumulated)
  {
    && Collect(paths, env) == Ok(acc.tblInfos)
    && acc.idxSet == IndexNames(paths, env) && acc.idxCount.Keys == acc.idxSet
    && (forall x :: Count(acc.idxCount, x) == Occurrences(paths, env, x))
    && (forall p :: p in acc.tblMapIdx <==> p in paths && Supported(p))
    && (forall p, i :: p in acc.tblMapIdx ==> (Lookup(acc.tblMapIdx, p, i) <==> i in env.parse(p).indexes))
  }

  /** An unsupported path changes nothing. */
  lemma SkipStep(paths: seq<string>, p: string, env: Env, acc: Accumulated)
    requires Accumulates(paths, env, acc) && !Supported(p)
    ensures Accumulates(paths + [p], env, acc)
  {
  }

  /** A supported path whose size is known adds its record, its indexes to
      the set and the counts, and its own membership map. */
  lemma AddStep(paths: seq<string>, p: string, env: Env, acc: Accumulated, info: TblInfo,
                idxCount': map<string, int>, idxSet': set<string>, tblMapIdx': map<string, map<string, bool>>)
    requires Accumulates(paths, env, acc) && Supported(p) && Describes(info, p, env)
    requires idxCount'.Keys == idxSet'
    requires forall x :: x in idxSet' <==> x in acc.idxSet || x in env.parse(p).indexes
    requires forall x :: Count(idxCount', x) == Count(acc.idxCount, x) + multiset(env.parse(p).indexes)[x]
    requires p in tblMapIdx' && tblMapIdx' == acc.tblMapIdx[p := tblMapIdx'[p]]
    requires forall i :: Lookup(tblMapIdx', p, i) <==> i in env.parse(p).indexes
    ensures Accumulates(paths + [p], env, Accumulated(acc.tblInfos + [info], idxCount', idxSet', tblMapIdx'))
  {
  }

  /** The accumulation loop: skips unsupported files, aborts on the first
      failed size lookup, and otherwise records each supported file and its
      indexes. */
  method Accumulate(paths: seq<string>, env: Env) returns (r: Result<Accumulated, TaskError>)
    ensures r.Err? <==> Collect(paths, env).Err?
    ensures r.Err? ==> r.error == Collect(paths, env).error
    ensures r.Ok? ==> Accumulates(paths, env, r.value)
  {
    var tblInfos: seq<TblInfo> := [];
    var idxCount: map<string, int> := map[];
    var idxSet: set<string> := {};
    var tblMapIdx: map<string, map<string, bool>> := map[];
    var n := 0;
    while n < |paths|
      invariant n <= |paths|
      invariant Accumulates(paths[..n], env, Accumulated(tblInfos, idxCount, idxSet, tblMapIdx))
    {
      var filePath := paths[n];
      assert paths[..n + 1] == paths[..n] + [filePath];
      if !Supported(filePath) {
        SkipStep(paths[..n], filePath, env, Accumulated(tblInfos, idxCount, idxSet, tblMapIdx));
        n := n + 1;
        continue;
      }
      var tbl := env.parse(filePath);
      var fileSize := env.fileSize(tbl.filePath);
      var timeStamp := env.timeStamp(tbl.filePath);
      if fileSize.None? {
        assert paths[..n + 1][..n] == paths[..n];
        CollectErrSticky(paths, n + 1, env);
        return Err(FileSizeUnavailable(tbl.filePath));
      }
      ghost var acc := Accumulated(tblInfos, idxCount, idxSet, tblMapIdx);
      var info := TblInfo(env.fileName(tbl.filePath), tbl.filePath, fileSize.value,
                          timeStamp, tbl.indexes, tbl.colKeys);
      tblInfos := tblInfos + [info];
      idxCount, idxSet, tblMapIdx := AddIndexes(idxCount, idxSet, tblMapIdx, filePath, tbl.indexes);
      AddStep(paths[..n], filePath, env, acc, info, idxCount, idxSet, tblMapIdx);
      n := n + 1;
    }
    assert paths[..n] == paths;
    r := Ok(Accumulated(tblInfos, idxCount, idxSet, tblMapIdx));
  }

  /** The inner loop for one supported file: a fresh membership map for the
      file, and for each declared index an increment of its count, its
      insertion into the index set and its mark in the file's membership.
      The file's membership map is the local `marks`, which the outer map
      holds under `filePath` (in Go both names denote the same map). */
  method AddIndexes(idxCount: map<string, int>, idxSet: set<string>,
                    tblMapIdx: map<string, map<string, bool>>, filePath: string, indexes: seq<string>)
    returns (idxCount': map<string, int>, idxSet': set<string>, tblMapIdx': map<string, map<string, bool>>)
    requires idxCount.Keys == idxSet
    ensures idxCount'.Keys == idxSet'
    ensures forall x :: x in idxSet' <==> x in idxSet || x in indexes
    ensures forall x :: Count(idxCount', x) == Count(idxCount, x) + multiset(indexes)[x]
    ensures filePath in tblMapIdx' && tblMapIdx' == tblMapIdx[filePath := tblMapIdx'[filePath]]
    ensures forall i :: Lookup(tblMapIdx', filePath, i) <==> i in indexes
  {
    idxCount', idxSet' := idxCount, idxSet;
    var marks: map<string, bool> := map[];
    for j := 0 to |indexes|
      invariant AddedPrefix(idxCount, idxSet, indexes[..j], idxCount', idxSet', marks)
    {
      var idx := indexes[j];
      assert indexes[..j + 1] == indexes[..j] + [idx];
      AddOneIndex(idxCount, idxSet, indexes[..j], idxCount', idxSet', marks, idx);
      idxCount' := idxCount'[idx := Count(idxCount', idx) + 1];
      idxSet' := idxSet' + {idx};
      marks := marks[idx := true];
    }
    assert indexes[..|indexes|] == indexes;
    tblMapIdx' := tblMapIdx[filePath := marks];
  }

  /** The state of the inner loop once it has seen the indexes `seen`: the
      counts and the set grown by them, and the file's membership map holding
      exactly them, each marked true. */
  ghost predicate AddedPrefix(idxCount: map<string, int>, idxSet: set<string>, seen: seq<string>,
                              idxCount': map<string, int>, idxSet': set<string>, marks: map<string, bool>)
  {
    && idxCount'.Keys == idxSet'
    && (forall x :: x in idxSet' <==> x in idxSet || x in seen)
    && (forall x :: Count(idxCount', x) == Count(idxCount, x) + multiset(seen)[x])
    && (forall i :: i in marks ==> marks[i])
    && (forall i :: i in marks <==> i in seen)
  }

  /** One more index handled by the inner loop. */
  lemma AddOneIndex(idxCount: map<string, int>, idxSet: set<string>, seen: seq<string>,
                    idxCount': map<string, int>, idxSet': set<string>, marks: map<string, bool>, idx: string)
    requires AddedPrefix(idxCount, idxSet, seen, idxCount', idxSet', marks)
    ensures AddedPrefix(idxCount, idxSet, seen + [idx],
                        idxCount'[idx := Count(idxCount', idx) + 1], idxSet' + {idx}, marks[idx := true])
  {
  }

  /** The keys of the occurrence map, in whatever order the map yields them. */
  method Keys(idxCount: map<string, int>) returns (keys: seq<string>)
    ensures forall x :: x in keys <==> x in idxCount
    ensures Distinct(keys)
  {
    keys := [];
    var rest := idxCount.Keys;
    while rest != {}
      invariant forall x :: x in idxCount <==> x in rest || x in keys
      invariant forall x :: x in keys ==> x !in rest
      invariant Distinct(keys)
      decreases rest
    {
      var k :| k in rest;
      keys := keys + [k];
      rest := rest - {k};
    }
  }
}
