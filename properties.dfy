/** What the reports of a successful task say about its file list. */
module TaskProperties {
  import opened StringOrder
  import opened Sorting
  import opened Tables
  import opened Aggregation
  import opened Reports
  import opened Analyzer

  /** The parser reports back the path it was given. The records carry the
      parser's path while the membership map is keyed by the listed path,
      so the pivot describes the record's indexes only under this condition. */
  ghost predicate EchoesPath(env: Env)
  {
    forall p :: env.parse(p).filePath == p
  }

  /** Both reports have one data row per listed file that passes the
      extension filter (a file listed twice gives two rows). */
  lemma RowsPerKeptFile(paths: seq<string>, env: Env, rep: TaskReports)
    requires Reported(paths, env, rep)
    ensures |rep.tableInfo| == |Kept(paths)| + 1
    ensures |rep.indexAnalysis| == |Kept(paths)| + 1
  {
    CollectDescribes(paths, env);
    calc {
      |rep.tblInfos|;
      |multiset(rep.tblInfos)|;
      |multiset(Collect(paths, env).value)|;
      |Collect(paths, env).value|;
    }
  }

  /** Each record is the record of some supported listed file. */
  lemma RecordSource(paths: seq<string>, env: Env, rep: TaskReports, k: nat)
    requires Reported(paths, env, rep) && k < |rep.tblInfos|
    ensures exists p :: p in paths && Supported(p) && Describes(rep.tblInfos[k], p, env)
  {
    var records := Collect(paths, env).value;
    CollectDescribes(paths, env);
    assert rep.tblInfos[k] in multiset(records);
    var j :| 0 <= j < |records| && records[j] == rep.tblInfos[k];
    assert Kept(paths)[j] in Kept(paths);
  }

  /** A path has a record, and hence a row in both reports, exactly when it
      is listed and ends in `.fac`, `.txt` or `.csv`. */
  lemma RecordIffSupported(paths: seq<string>, env: Env, rep: TaskReports, p: string)
    requires Reported(paths, env, rep) && EchoesPath(env)
    ensures (exists k :: 0 <= k < |rep.tblInfos| && rep.tblInfos[k].tblPath == p) <==> p in paths && Supported(p)
  {
    var records := Collect(paths, env).value;
    CollectDescribes(paths, env);
    if k :| 0 <= k < |rep.tblInfos| && rep.tblInfos[k].tblPath == p {
      RecordSource(paths, env, rep, k);
    }
    if p in paths && Supported(p) {
      assert p in Kept(paths);
      var j :| 0 <= j < |Kept(paths)| && Kept(paths)[j] == p;
      assert records[j] in multiset(rep.tblInfos);
      var k :| 0 <= k < |rep.tblInfos| && rep.tblInfos[k] == records[j];
      assert rep.tblInfos[k].tblPath == p;
    }
  }

  /** A pivot cell is "1" exactly when the vocabulary entry of its column is
      among the indexes of the record of its row. */
  lemma PivotCellMeansDeclared(paths: seq<string>, env: Env, rep: TaskReports, k: nat, c: nat)
    requires Reported(paths, env, rep) && EchoesPath(env)
    requires k < |rep.tblInfos| && c < |rep.indexes|
    ensures |rep.indexAnalysis[k + 1]| == |rep.indexes| + 1
    ensures rep.indexAnalysis[k + 1][c + 1] == "1" <==> rep.indexes[c] in rep.tblInfos[k].indexNames
    ensures rep.indexAnalysis[k + 1][c + 1] == "0" <==> rep.indexes[c] !in rep.tblInfos[k].indexNames
  {
    RecordSource(paths, env, rep, k);
    assert PivotRowOf(paths, env, rep.tblInfos[k], rep.indexes, rep.indexAnalysis[k + 1]);
  }

  /** The vocabulary, and so the pivot header, depends only on which files
      are listed, not on their order or repetition. */
  lemma VocabularyOrderIndependent(paths1: seq<string>, paths2: seq<string>, env: Env,
                                   rep1: TaskReports, rep2: TaskReports)
    requires Reported(paths1, env, rep1) && Reported(paths2, env, rep2)
    requires forall p :: p in paths1 <==> p in paths2
    ensures rep1.indexes == rep2.indexes
    ensures rep1.indexAnalysis[0] == rep2.indexAnalysis[0]
  {
    IndexNamesMembers(paths1, env);
    IndexNamesMembers(paths2, env);
    assert forall x :: x in IndexNames(paths1, env) <==> x in IndexNames(paths2, env);
    StrictlySortedUnique(rep1.indexes, rep2.indexes);
  }

  /** Records sharing a table name are the same record: the names all
      differ, or the only repeats are a file listed more than once. */
  ghost predicate NamesDetermineRecords(s: seq<TblInfo>)
  {
    forall i, j :: 0 <= i < |s| && 0 <= j < |s| && s[i].tblName == s[j].tblName ==> s[i] == s[j]
  }

  /** Ties between equal table names are the only freedom in the inventory
      order: when records sharing a name are identical, the name-sorted
      order is unique. */
  lemma {:induction false} InventoryOrderDetermined(a: seq<TblInfo>, b: seq<TblInfo>)
    requires multiset(a) == multiset(b) && SortedBy(a, NameKey) && SortedBy(b, NameKey)
    requires NamesDetermineRecords(a)
    ensures a == b
    decreases |a|
  {
    assert |multiset(a)| == |a| && |multiset(b)| == |b|;
    if a != [] {
      SameFirstRecord(a, b);
      var a', b' := a[1..], b[1..];
      TailPermutation(a, b);
      assert SortedBy(a', NameKey) && SortedBy(b', NameKey) by {
        assert forall i :: 0 <= i < |a'| ==> a'[i] == a[i + 1];
        assert forall i :: 0 <= i < |b'| ==> b'[i] == b[i + 1];
      }
      assert NamesDetermineRecords(a') by {
        assert forall i :: 0 <= i < |a'| ==> a'[i] == a[i + 1];
      }
      InventoryOrderDetermined(a', b');
      assert a == [a[0]] + a' && b == [b[0]] + b';
    }
  }

  /** Two name-sorted permutations start with the same record. */
  lemma SameFirstRecord(a: seq<TblInfo>, b: seq<TblInfo>)
    requires multiset(a) == multiset(b) && SortedBy(a, NameKey) && SortedBy(b, NameKey)
    requires NamesDetermineRecords(a)
    requires a != []
    ensures b != [] && a[0] == b[0]
  {
    assert a[0] in multiset(b);
    var i :| 0 <= i < |b| && b[i] == a[0];
    assert b[0] in multiset(a);
    var j :| 0 <= j < |a| && a[j] == b[0];
    if a[0].tblName != b[0].tblName {
      LessTotal(a[0].tblName, b[0].tblName);
    }
  }

  /** Listing the same files in another order, with the same repetitions,
      gives the same reports, provided records sharing a table name are
      identical (different records with one name may come out in either
      order). */
  lemma ReportsOrderIndependent(paths1: seq<string>, paths2: seq<string>, env: Env,
                                rep1: TaskReports, rep2: TaskReports)
    requires Reported(paths1, env, rep1) && Reported(paths2, env, rep2)
    requires multiset(paths1) == multiset(paths2)
    requires NamesDetermineRecords(rep1.tblInfos)
    ensures rep1 == rep2
  {
    SameRecords(paths1, paths2, env, rep1, rep2);
    assert forall p :: p in paths1 <==> p in paths2 by {
      forall p
        ensures p in paths1 <==> p in paths2
      {
        assert p in paths1 <==> p in multiset(paths1);
        assert p in paths2 <==> p in multiset(paths2);
      }
    }
    VocabularyOrderIndependent(paths1, paths2, env, rep1, rep2);
    SameTableInfo(paths1, paths2, env, rep1, rep2);
    SameIndexAnalysis(paths1, paths2, env, rep1, rep2);
  }

  /** The inventory report is fixed by its records. */
  lemma SameTableInfo(paths1: seq<string>, paths2: seq<string>, env: Env, rep1: TaskReports, rep2: TaskReports)
    requires Reported(paths1, env, rep1) && Reported(paths2, env, rep2)
    requires rep1.tblInfos == rep2.tblInfos
    ensures rep1.tableInfo == rep2.tableInfo
  {
    forall k | 0 <= k < |rep1.tableInfo|
      ensures rep1.tableInfo[k] == rep2.tableInfo[k]
    {
      if k > 0 {
        assert rep1.tableInfo[k] == InventoryRow(rep1.tblInfos[k - 1], env.formatSize);
      }
    }
  }

  /** The pivot report is fixed by its records, its vocabulary and which
      paths are listed. */
  lemma SameIndexAnalysis(paths1: seq<string>, paths2: seq<string>, env: Env, rep1: TaskReports, rep2: TaskReports)
    requires Reported(paths1, env, rep1) && Reported(paths2, env, rep2)
    requires rep1.tblInfos == rep2.tblInfos && rep1.indexes == rep2.indexes
    requires forall p :: p in paths1 <==> p in paths2
    ensures rep1.indexAnalysis == rep2.indexAnalysis
  {
    forall k | 0 <= k < |rep1.indexAnalysis|
      ensures rep1.indexAnalysis[k] == rep2.indexAnalysis[k]
    {
      if k > 0 {
        var row1 := ReportedRow(paths1, env, rep1, k - 1);
        var row2 := ReportedRow(paths2, env, rep2, k - 1);
        SamePivotRow(paths1, paths2, env, rep1.tblInfos[k - 1], rep1.indexes, row1, row2);
      }
    }
  }

  /** Two listings of the same files give the same records, in the same
      order when records sharing a name are identical. */
  lemma SameRecords(paths1: seq<string>, paths2: seq<string>, env: Env, rep1: TaskReports, rep2: TaskReports)
    requires Reported(paths1, env, rep1) && Reported(paths2, env, rep2)
    requires multiset(paths1) == multiset(paths2)
    requires NamesDetermineRecords(rep1.tblInfos)
    ensures rep1.tblInfos == rep2.tblInfos
  {
    CollectIsRecords(paths1, env);
    CollectIsRecords(paths2, env);
    RecordsPermutation(paths1, paths2, env);
    InventoryOrderDetermined(rep1.tblInfos, rep2.tblInfos);
  }

  /** A pivot row depends on the file list only through which paths it holds. */
  lemma SamePivotRow(paths1: seq<string>, paths2: seq<string>, env: Env, info: TblInfo,
                     indexes: seq<string>, row1: seq<string>, row2: seq<string>)
    requires forall p :: p in paths1 <==> p in paths2
    requires PivotRowOf(paths1, env, info, indexes, row1) && PivotRowOf(paths2, env, info, indexes, row2)
    ensures row1 == row2
  {
    forall c | 0 <= c < |row1|
      ensures row1[c] == row2[c]
    {
      if c > 0 {
        assert MarkedAsWritten(paths1, env, info.tblPath, indexes[c - 1])
            == MarkedAsWritten(paths2, env, info.tblPath, indexes[c - 1]);
      }
    }
  }

  /** Two supported files declaring {X, Y} and {Y, Z} and one unsupported
      file give the vocabulary X, Y, Z and one pivot row per supported file. */
  lemma WorkedExample(paths: seq<string>, env: Env, rep: TaskReports)
    requires paths == ["a.csv", "b.txt", "c.dat"] && ExampleEnv(env)
    requires Reported(paths, env, rep)
    ensures rep.indexes == ["X", "Y", "Z"]
    ensures rep.indexAnalysis == [["Table Path", "X", "Y", "Z"], ["a.csv", "1", "1", "0"], ["b.txt", "0", "1", "1"]]
  {
    var ra, rb := ExampleRecords(paths, env, rep);
    var rowA := ReportedRow(paths, env, rep, 0);
    var rowB := ReportedRow(paths, env, rep, 1);
    ExampleAnalysis(paths, env, ra, rb, rep.indexAnalysis);
  }

  /** The example's pivot, from the rows of its two records. */
  lemma ExampleAnalysis(paths: seq<string>, env: Env, ra: TblInfo, rb: TblInfo, analysis: seq<seq<string>>)
    requires paths == ["a.csv", "b.txt", "c.dat"] && ExampleEnv(env)
    requires ra.tblPath == "a.csv" && rb.tblPath == "b.txt"
    requires |analysis| == 3 && analysis[0] == ["Table Path"] + ["X", "Y", "Z"]
    requires PivotRowOf(paths, env, ra, ["X", "Y", "Z"], analysis[1])
    requires PivotRowOf(paths, env, rb, ["X", "Y", "Z"], analysis[2])
    ensures analysis == [["Table Path", "X", "Y", "Z"], ["a.csv", "1", "1", "0"], ["b.txt", "0", "1", "1"]]
  {
    ExampleRow(paths, env, ra, analysis[1], ["a.csv", "1", "1", "0"]);
    ExampleRow(paths, env, rb, analysis[2], ["b.txt", "0", "1", "1"]);
    assert ["Table Path"] + ["X", "Y", "Z"] == ["Table Path", "X", "Y", "Z"];
  }

  /** The pivot row of the `k`-th record, read off the reports. */
  lemma ReportedRow(paths: seq<string>, env: Env, rep: TaskReports, k: nat) returns (row: seq<string>)
    requires Reported(paths, env, rep) && k < |rep.tblInfos|
    ensures row == rep.indexAnalysis[k + 1] && PivotRowOf(paths, env, rep.tblInfos[k], rep.indexes, row)
  {
    row := rep.indexAnalysis[k + 1];
  }

  /** In the worked example the records come out as a's then b's, and the
      vocabulary is X, Y, Z. */
  lemma ExampleRecords(paths: seq<string>, env: Env, rep: TaskReports) returns (ra: TblInfo, rb: TblInfo)
    requires paths == ["a.csv", "b.txt", "c.dat"] && ExampleEnv(env)
    requires Reported(paths, env, rep)
    ensures rep.tblInfos == [ra, rb] && ra.tblPath == "a.csv" && rb.tblPath == "b.txt"
    ensures rep.indexes == ["X", "Y", "Z"]
  {
    ra := TblInfo("a", "a.csv", env.fileSize("a.csv").value, env.timeStamp("a.csv"), ["X", "Y"], []);
    rb := TblInfo("b", "b.txt", env.fileSize("b.txt").value, env.timeStamp("b.txt"), ["Y", "Z"], []);
    ExampleTask(paths, env, ra, rb);
    ExampleVocabulary(rep.indexes, IndexNames(paths, env));
    ExampleOrder(ra, rb, rep.tblInfos);
  }

  /** What the example's file list collects. */
  lemma ExampleTask(paths: seq<string>, env: Env, ra: TblInfo, rb: TblInfo)
    requires paths == ["a.csv", "b.txt", "c.dat"] && ExampleEnv(env)
    requires ra == TblInfo("a", "a.csv", env.fileSize("a.csv").value, env.timeStamp("a.csv"), ["X", "Y"], [])
    requires rb == TblInfo("b", "b.txt", env.fileSize("b.txt").value, env.timeStamp("b.txt"), ["Y", "Z"], [])
    ensures Collect(paths, env) == Ok([ra, rb])
    ensures IndexNames(paths, env) == {"X", "Y", "Z"}
  {
    ExampleFiles(env, ra, rb);
    ExampleCollected(env, "a.csv", "b.txt", "c.dat", ra, rb);
    ExampleNames(ra, rb);
  }

  /** The example's files against the extension filter, and their records;
      a lemma of its own so that these facts about literal strings are
      proved once, apart from the collection proof that uses them. */
  lemma ExampleFiles(env: Env, ra: TblInfo, rb: TblInfo)
    requires ExampleEnv(env)
    requires ra == TblInfo("a", "a.csv", env.fileSize("a.csv").value, env.timeStamp("a.csv"), ["X", "Y"], [])
    requires rb == TblInfo("b", "b.txt", env.fileSize("b.txt").value, env.timeStamp("b.txt"), ["Y", "Z"], [])
    ensures Supported("a.csv") && Describes(ra, "a.csv", env)
    ensures Supported("b.txt") && Describes(rb, "b.txt", env)
    ensures !Supported("c.dat")
  {
  }

  /** The example's two records, sorted by name, come out as a's then b's;
      kept apart so the sort contract is unfolded on two records only. */
  lemma ExampleOrder(ra: TblInfo, rb: TblInfo, infos: seq<TblInfo>)
    requires ra.tblName == "a" && rb.tblName == "b"
    requires multiset(infos) == multiset([ra, rb]) && SortedBy(infos, NameKey)
    ensures infos == [ra, rb]
  {
  }

  /** The collaborators in the worked example. */
  ghost predicate ExampleEnv(env: Env)
  {
    && env.parse("a.csv") == ParsedTable("a.csv", ["X", "Y"], [])
    && env.parse("b.txt") == ParsedTable("b.txt", ["Y", "Z"], [])
    && env.fileSize("a.csv").Some? && env.fileSize("b.txt").Some?
    && env.fileName("a.csv") == "a" && env.fileName("b.txt") == "b"
  }

  /** A listed file that fails the extension filter adds nothing. */
  lemma SkipUnsupported(paths: seq<string>, p: string, env: Env)
    requires !Supported(p)
    ensures Collect(paths + [p], env) == Collect(paths, env)
    ensures IndexNames(paths + [p], env) == IndexNames(paths, env)
  {
  }

  /** A supported file whose size is known adds its record and its indexes. */
  lemma AddSupported(paths: seq<string>, p: string, env: Env, info: TblInfo)
    requires Collect(paths, env).Ok? && Supported(p) && Describes(info, p, env)
    ensures Collect(paths + [p], env) == Ok(Collect(paths, env).value + [info])
    ensures IndexNames(paths + [p], env) == IndexNames(paths, env) + set i | i in env.parse(p).indexes
  {
  }

  /** Two supported files around one unsupported file collect the two
      records in order, and the union of their indexes. */
  lemma ExampleCollected(env: Env, a: string, b: string, c: string, ra: TblInfo, rb: TblInfo)
    requires Supported(a) && Describes(ra, a, env)
    requires Supported(b) && Describes(rb, b, env)
    requires !Supported(c)
    ensures Collect([a, b, c], env) == Ok([ra, rb])
    ensures IndexNames([a, b, c], env) == (set i | i in ra.indexNames) + (set i | i in rb.indexNames)
  {
    assert [] + [a] == [a] && [a] + [b] == [a, b] && [a, b] + [c] == [a, b, c];
    assert Collect([], env) == Ok([]) && IndexNames([], env) == {};
    AddSupported([], a, env, ra);
    AddSupported([a], b, env, rb);
    SkipUnsupported([a, b], c, env);
    assert [] + [ra] == [ra] && [ra] + [rb] == [ra, rb];
  }

  /** The example's index set; kept apart so the set extensionality proof
      does not meet the collection proof. */
  lemma ExampleNames(ra: TblInfo, rb: TblInfo)
    requires ra.indexNames == ["X", "Y"] && rb.indexNames == ["Y", "Z"]
    ensures (set i | i in ra.indexNames) + (set i | i in rb.indexNames) == {"X", "Y", "Z"}
  {
  }

  /** The only strictly increasing listing of {X, Y, Z}. */
  lemma ExampleVocabulary(indexes: seq<string>, names: set<string>)
    requires names == {"X", "Y", "Z"}
    requires StrictlySorted(indexes) && forall x :: x in indexes <==> x in names
    ensures indexes == ["X", "Y", "Z"]
  {
    assert Less("X", "Y") && Less("Y", "Z") && Less("X", "Z");
    StrictlySortedUnique(indexes, ["X", "Y", "Z"]);
  }

  /** Which of the example's indexes are marked for a.csv; one lemma per
      row keeps each unfolding of `MarkedAsWritten` small. */
  lemma ExampleMarksA(paths: seq<string>, env: Env)
    requires paths == ["a.csv", "b.txt", "c.dat"] && ExampleEnv(env)
    ensures MarkedAsWritten(paths, env, "a.csv", "X") && MarkedAsWritten(paths, env, "a.csv", "Y")
    ensures !MarkedAsWritten(paths, env, "a.csv", "Z")
  {
  }

  /** Which of the example's indexes are marked for b.txt; see
      `ExampleMarksA`. */
  lemma ExampleMarksB(paths: seq<string>, env: Env)
    requires paths == ["a.csv", "b.txt", "c.dat"] && ExampleEnv(env)
    ensures !MarkedAsWritten(paths, env, "b.txt", "X")
    ensures MarkedAsWritten(paths, env, "b.txt", "Y") && MarkedAsWritten(paths, env, "b.txt", "Z")
  {
  }

  /** Each of the example's two pivot rows, cell by cell. */
  lemma ExampleRow(paths: seq<string>, env: Env, info: TblInfo, row: seq<string>, expected: seq<string>)
    requires paths == ["a.csv", "b.txt", "c.dat"] && ExampleEnv(env)
    requires expected == ["a.csv", "1", "1", "0"] || expected == ["b.txt", "0", "1", "1"]
    requires info.tblPath == expected[0]
    requires PivotRowOf(paths, env, info, ["X", "Y", "Z"], row)
    ensures row == expected
  {
    ExampleMarksA(paths, env);
    ExampleMarksB(paths, env);
    var vocabulary := ["X", "Y", "Z"];
    assert row[1] == if MarkedAsWritten(paths, env, info.tblPath, vocabulary[0]) then "1" else "0";
    assert row[2] == if MarkedAsWritten(paths, env, info.tblPath, vocabulary[1]) then "1" else "0";
    assert row[3] == if MarkedAsWritten(paths, env, info.tblPath, vocabulary[2]) then "1" else "0";
  }
}
