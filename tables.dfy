/** The entities of one analysis task and the reference definitions of what
    the aggregation over a task's file list must produce. */
module Tables {
  import opened Sorting

  datatype Option<T> = None | Some(value: T)

  datatype Result<T, E> = Ok(value: T) | Err(error: E)

  /** What the table parser reports for one file: the path it read, the
      declared indexes and the column keys, in the parser's order. */
  datatype ParsedTable = ParsedTable(filePath: string, indexes: seq<string>, colKeys: seq<string>)

  /** One inventory record, created once per supported file. */
  datatype TblInfo = TblInfo(
    tblName: string,
    tblPath: string,
    tblSize: int,
    timeStamp: string,
    indexNames: seq<string>,
    colKeys: seq<string>)

  /** A configured task: a name, the directories to scan and whether to
      scan them recursively. */
  datatype Task = Task(name: string, dirs: seq<string>, ifRecursive: bool)

  /** The only way the aggregation aborts: the size of a file could not be
      read. The path is the one the size was asked for; the size lookup's
      own error, which `processTask` wraps, is not kept. */
  datatype TaskError = FileSizeUnavailable(path: string)

  /** The collaborators whose code is not part of this model, as functions
      of their arguments: directory listing, table parsing, file metadata
      and the megabyte rendering of a size. */
  datatype Env = Env(
    filePaths: (string, bool) -> seq<string>,
    parse: string -> ParsedTable,
    fileSize: string -> Option<int>,
    timeStamp: string -> string,
    fileName: string -> string,
    formatSize: int -> string)

  /** Go's `strings.HasSuffix`: case-sensitive comparison of the tail. */
  predicate HasSuffix(s: string, suffix: string)
  {
    |suffix| <= |s| && s[|s| - |suffix|..] == suffix
  }

  /** `HasSuffix` holds exactly when the string is something followed by the suffix. */
  lemma HasSuffixMeans(s: string, suffix: string)
    ensures HasSuffix(s, suffix) <==> exists prefix :: s == prefix + suffix
  {
    if |suffix| <= |s| {
      var prefix := s[..|s| - |suffix|];
      assert s == prefix + s[|s| - |suffix|..];
      forall p | s == p + suffix
        ensures s[|s| - |suffix|..] == suffix
      {
        assert s[|p|..] == suffix;
      }
    } else {
      forall p
        ensures s != p + suffix
      {
        assert |p + suffix| >= |suffix|;
      }
    }
  }

  /** The file-extension filter: only `.fac`, `.txt` and `.csv` files are
      analysed. */
  predicate Supported(path: string)
  {
    HasSuffix(path, ".fac") || HasSuffix(path, ".txt") || HasSuffix(path, ".csv")
  }

  /** A supported path is at least four characters long and its last four
      characters are one of the three extensions, dot included; case
      matters. */
  lemma SupportedMeans(path: string)
    ensures Supported(path) <==> 4 <= |path| && path[|path| - 4..] in [".fac", ".txt", ".csv"]
    ensures Supported(path) ==> path[|path| - 4] == '.'
  {
  }

  /** The filter looks at the last four characters only: whatever directory
      a file name is listed under, it is kept exactly when the bare name is. */
  lemma SupportedIgnoresDirectory(dir: string, name: string)
    requires |name| >= 4
    ensures Supported(dir + name) <==> Supported(name)
  {
  }

  /** A missing key reads as 0, as in a Go `map[string]int`. */
  function Count(m: map<string, int>, x: string): int
  {
    if x in m then m[x] else 0
  }

  /** A missing path or index reads as false, as in a Go
      `map[string]map[string]bool`. */
  predicate Lookup(m: map<string, map<string, bool>>, path: string, idx: string)
    ensures path !in m ==> !Lookup(m, path, idx)
    ensures path in m && idx !in m[path] ==> !Lookup(m, path, idx)
  {
    path in m && idx in m[path] && m[path][idx]
  }

  /** The paths of the file list that pass the extension filter, in list
      order. */
  ghost function Kept(paths: seq<string>): (r: seq<string>)
    ensures |r| <= |paths|
    ensures forall p :: p in r <==> p in paths && Supported(p)
  {
    if paths == [] then []
    else
      var last := paths[|paths| - 1];
      assert paths == paths[..|paths| - 1] + [last];
      Kept(paths[..|paths| - 1]) + if Supported(last) then [last] else []
  }

  /** The size lookup for the file at `path` fails: such a file makes `processTask` return an error. */
  ghost predicate SizeFails(path: string, env: Env)
  {
    Supported(path) && env.fileSize(env.parse(path).filePath).None?
  }

  /** `info` is the record built for the supported file at `path`: every
      field comes from the parse of `path`, the metadata being looked up
      under the path the parser reports. */
  ghost predicate Describes(info: TblInfo, path: string, env: Env)
  {
    var t := env.parse(path);
    && env.fileSize(t.filePath).Some?
    && info == TblInfo(env.fileName(t.filePath), t.filePath, env.fileSize(t.filePath).value,
                       env.timeStamp(t.filePath), t.indexes, t.colKeys)
  }

  /** The records of a task in file-list order, or the error of the first
      supported file whose size cannot be read. */
  ghost function Collect(paths: seq<string>, env: Env): (r: Result<seq<TblInfo>, TaskError>)
  {
    if paths == [] then Ok([])
    else
      var front, last := paths[..|paths| - 1], paths[|paths| - 1];
      var prev := Collect(front, env);
      if prev.Err? || !Supported(last) then prev
      else
        var t := env.parse(last);
        match env.fileSize(t.filePath)
        case None => Err(FileSizeUnavailable(t.filePath))
        case Some(size) =>
          Ok(prev.value + [TblInfo(env.fileName(t.filePath), t.filePath, size,
                                   env.timeStamp(t.filePath), t.indexes, t.colKeys)])
  }

  /** The loop fails exactly when some supported file's size cannot be read,
      and the error names the first such file. */
  lemma {:induction false} CollectFails(paths: seq<string>, env: Env)
    ensures Collect(paths, env).Err? <==> exists k :: 0 <= k < |paths| && SizeFails(paths[k], env)
    ensures Collect(paths, env).Err? ==>
              exists k :: 0 <= k < |paths| && SizeFails(paths[k], env)
                && Collect(paths, env).error == FileSizeUnavailable(env.parse(paths[k]).filePath)
                && forall j :: 0 <= j < k ==> !SizeFails(paths[j], env)
  {
    if paths != [] {
      var front := paths[..|paths| - 1];
      CollectFails(front, env);
      assert forall k :: 0 <= k < |front| ==> front[k] == paths[k];
    }
  }

  /** On success there is one record per supported file, in list order, and
      each is built from that file's parse and metadata. */
  lemma {:induction false} CollectDescribes(paths: seq<string>, env: Env)
    ensures Collect(paths, env).Ok? ==>
              |Collect(paths, env).value| == |Kept(paths)|
              && forall k :: 0 <= k < |Kept(paths)| ==> Describes(Collect(paths, env).value[k], Kept(paths)[k], env)
  {
    if paths != [] {
      CollectDescribes(paths[..|paths| - 1], env);
    }
  }

  /** The record built for the supported file at `path`; the size is only
      meaningful when its lookup succeeds. */
  ghost function RecordOf(path: string, env: Env): TblInfo
  {
    var t := env.parse(path);
    var size := match env.fileSize(t.filePath) case Some(n) => n case None => 0;
    TblInfo(env.fileName(t.filePath), t.filePath, size, env.timeStamp(t.filePath), t.indexes, t.colKeys)
  }

  /** The records of the supported files of a list, in list order, ignoring
      failures. */
  ghost function Records(paths: seq<string>, env: Env): seq<TblInfo>
  {
    if paths == [] then []
    else
      var last := paths[|paths| - 1];
      Records(paths[..|paths| - 1], env) + if Supported(last) then [RecordOf(last, env)] else []
  }

  /** On success the collected records are the records of the supported files. */
  lemma {:induction false} CollectIsRecords(paths: seq<string>, env: Env)
    ensures Collect(paths, env).Ok? ==> Collect(paths, env).value == Records(paths, env)
  {
    if paths != [] {
      CollectIsRecords(paths[..|paths| - 1], env);
    }
  }

  /** The records of two lists one after the other are the records of the
      joined list. */
  lemma {:induction false} RecordsConcat(a: seq<string>, b: seq<string>, env: Env)
    ensures Records(a + b, env) == Records(a, env) + Records(b, env)
    decreases |b|
  {
    if b == [] {
      assert a + b == a;
    } else {
      var front := b[..|b| - 1];
      assert (a + b)[..|a + b| - 1] == a + front;
      RecordsConcat(a, front, env);
    }
  }

  /** Listing the same files in another order gives the same records, up to
      their order. */
  lemma {:induction false} RecordsPermutation(paths1: seq<string>, paths2: seq<string>, env: Env)
    requires multiset(paths1) == multiset(paths2)
    ensures multiset(Records(paths1, env)) == multiset(Records(paths2, env))
    decreases |paths1|
  {
    if paths1 == [] {
      assert |paths2| == |multiset(paths2)| == 0;
    } else {
      var front, x := paths1[..|paths1| - 1], paths1[|paths1| - 1];
      assert paths1 == front + [x];
      var a, b := SplitAtLast(paths1, paths2);
      RecordsPermutation(front, a + b, env);
      var rx := if Supported(x) then [RecordOf(x, env)] else [];
      assert Records(paths1, env) == Records(front, env) + rx;
      assert Records([x], env) == rx by {
        assert [x][..0] == [];
        assert Records([x], env) == Records([], env) + rx;
      }
      assert Records(paths2, env) == Records(a, env) + rx + Records(b, env) by {
        RecordsConcat(a + [x], b, env);
        RecordsConcat(a, [x], env);
      }
      RecordsConcat(a, b, env);
    }
  }

  /** The distinct index names declared by the supported files of a task. */
  ghost function IndexNames(paths: seq<string>, env: Env): set<string>
  {
    if paths == [] then {}
    else
      var front, last := paths[..|paths| - 1], paths[|paths| - 1];
      IndexNames(front, env) + if Supported(last) then set i | i in env.parse(last).indexes else {}
  }

  /** An index name is in the set exactly when some supported listed file declares it. */
  lemma {:induction false} IndexNamesMembers(paths: seq<string>, env: Env)
    ensures forall i :: i in IndexNames(paths, env) <==>
              exists p :: p in paths && Supported(p) && i in env.parse(p).indexes
  {
    if paths != [] {
      var front := paths[..|paths| - 1];
      IndexNamesMembers(front, env);
      assert paths == front + [paths[|paths| - 1]];
    }
  }

  /** How many times `x` is declared, summed over the index lists of the
      supported files of a task (a file listed twice counts twice). */
  ghost function Occurrences(paths: seq<string>, env: Env, x: string): (r: nat)
    ensures r > 0 <==> x in IndexNames(paths, env)
  {
    if paths == [] then 0
    else
      var front, last := paths[..|paths| - 1], paths[|paths| - 1];
      Occurrences(front, env, x) + if Supported(last) then multiset(env.parse(last).indexes)[x] else 0
  }
}
