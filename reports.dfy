/** The rows of the two reports of a task, `table_info.csv` and
    `table_index_analysis.csv`, as sequences of cells. */
module Reports {
  import opened Tables

  /** Go's `strings.Join`. */
  function Join(elems: seq<string>, sep: string): (r: string)
    ensures |elems| >= 1 ==> elems[0] <= r
    ensures forall k :: 0 <= k < |elems| ==> |elems[k]| <= |r|
  {
    if elems == [] then ""
    else if |elems| == 1 then elems[0]
    else elems[0] + sep + Join(elems[1..], sep)
  }

  /** Go's `strings.Split` with a one-character separator: the pieces
      between separators, at least one (possibly empty) piece. */
  function Split(s: string, sep: char): (r: seq<string>)
    ensures |r| >= 1
  {
    if s == [] then [""]
    else
      var rest := Split(s[1..], sep);
      if s[0] == sep then [""] + rest
      else [[s[0]] + rest[0]] + rest[1..]
  }

  lemma {:induction false} SplitNoSeparator(x: string, sep: char)
    requires sep !in x
    ensures Split(x, sep) == [x]
  {
    if x != [] {
      SplitNoSeparator(x[1..], sep);
      assert [x[0]] + x[1..] == x;
    }
  }

  lemma {:induction false} SplitAtFirstSeparator(x: string, sep: char, y: string)
    requires sep !in x
    ensures Split(x + [sep] + y, sep) == [x] + Split(y, sep)
  {
    var s := x + [sep] + y;
    if x == [] {
      assert s[1..] == y;
    } else {
      assert s[1..] == x[1..] + [sep] + y;
      SplitAtFirstSeparator(x[1..], sep, y);
      assert [x[0]] + x[1..] == x;
    }
  }

  /** Joining a non-empty list whose elements do not contain the separator
      loses nothing: splitting gives the list back. */
  lemma {:induction false} SplitJoin(elems: seq<string>, sep: char)
    requires |elems| >= 1
    requires forall k :: 0 <= k < |elems| ==> sep !in elems[k]
    ensures Split(Join(elems, [sep]), sep) == elems
  {
    if |elems| == 1 {
      SplitNoSeparator(elems[0], sep);
    } else {
      SplitAtFirstSeparator(elems[0], sep, Join(elems[1..], [sep]));
      SplitJoin(elems[1..], sep);
      assert [elems[0]] + elems[1..] == elems;
    }
  }

  /** The header row of `table_info.csv`. */
  const InventoryHeader: seq<string> :=
    ["Table Path", "Modified at", "Table Size (in M)", "Table Name", "Indexes", "ColKeys"]

  /** One row of `table_info.csv`; the size cell is rendered by `formatSize`. */
  function InventoryRow(info: TblInfo, formatSize: int -> string): (row: seq<string>)
    ensures |row| == |InventoryHeader|
  {
    [info.tblPath, info.timeStamp, formatSize(info.tblSize), info.tblName,
     Join(info.indexNames, ";"), Join(info.colKeys, ";")]
  }

  /** Each cell of an inventory row sits under the header column that names
      it. */
  lemma InventoryColumns(info: TblInfo, formatSize: int -> string, k: nat)
    requires k < |InventoryHeader|
    ensures InventoryHeader[k] == "Table Path" ==> InventoryRow(info, formatSize)[k] == info.tblPath
    ensures InventoryHeader[k] == "Modified at" ==> InventoryRow(info, formatSize)[k] == info.timeStamp
    ensures InventoryHeader[k] == "Table Size (in M)" ==> InventoryRow(info, formatSize)[k] == formatSize(info.tblSize)
    ensures InventoryHeader[k] == "Table Name" ==> InventoryRow(info, formatSize)[k] == info.tblName
    ensures InventoryHeader[k] == "Indexes" ==> InventoryRow(info, formatSize)[k] == Join(info.indexNames, ";")
    ensures InventoryHeader[k] == "ColKeys" ==> InventoryRow(info, formatSize)[k] == Join(info.colKeys, ";")
  {
  }

  /** The index and column-key cells of an inventory row give back the
      record's lists whenever these are non-empty and free of `;`. */
  lemma InventoryRowFields(info: TblInfo, formatSize: int -> string)
    ensures |info.indexNames| >= 1 && (forall k :: 0 <= k < |info.indexNames| ==> ';' !in info.indexNames[k])
            ==> Split(InventoryRow(info, formatSize)[4], ';') == info.indexNames
    ensures |info.colKeys| >= 1 && (forall k :: 0 <= k < |info.colKeys| ==> ';' !in info.colKeys[k])
            ==> Split(InventoryRow(info, formatSize)[5], ';') == info.colKeys
  {
    if |info.indexNames| >= 1 && (forall k :: 0 <= k < |info.indexNames| ==> ';' !in info.indexNames[k]) {
      SplitJoin(info.indexNames, ';');
    }
    if |info.colKeys| >= 1 && (forall k :: 0 <= k < |info.colKeys| ==> ';' !in info.colKeys[k]) {
      SplitJoin(info.colKeys, ';');
    }
  }

  /** The data rows of `table_info.csv`, one per record, in record order. */
  method InventoryRows(tblInfos: seq<TblInfo>, formatSize: int -> string) returns (rows: seq<seq<string>>)
    ensures |rows| == |tblInfos|
    ensures forall k :: 0 <= k < |rows| ==> rows[k] == InventoryRow(tblInfos[k], formatSize)
  {
    rows := [];
    for k := 0 to |tblInfos|
      invariant |rows| == k
      invariant forall j :: 0 <= j < k ==> rows[j] == InventoryRow(tblInfos[j], formatSize)
    {
      rows := rows + [InventoryRow(tblInfos[k], formatSize)];
    }
  }

  /** The cell of the pivot for a table path and an index. */
  function Cell(tblMapIdx: map<string, map<string, bool>>, path: string, idx: string): (r: string)
    ensures r == "1" || r == "0"
    ensures r == "1" <==> path in tblMapIdx && idx in tblMapIdx[path] && tblMapIdx[path][idx]
  {
    if Lookup(tblMapIdx, path, idx) then "1" else "0"
  }

  /** One data row of `table_index_analysis.csv`: the path, then one cell per
      vocabulary entry. */
  method PivotRow(info: TblInfo, indexes: seq<string>, tblMapIdx: map<string, map<string, bool>>)
    returns (row: seq<string>)
    ensures |row| == |indexes| + 1 && row[0] == info.tblPath
    ensures forall c :: 0 <= c < |indexes| ==> row[c + 1] == Cell(tblMapIdx, info.tblPath, indexes[c])
  {
    row := [info.tblPath];
    for c := 0 to |indexes|
      invariant |row| == c + 1 && row[0] == info.tblPath
      invariant forall j :: 0 <= j < c ==> row[j + 1] == Cell(tblMapIdx, info.tblPath, indexes[j])
    {
      if Lookup(tblMapIdx, info.tblPath, indexes[c]) {
        row := row + ["1"];
      } else {
        row := row + ["0"];
      }
    }
  }

  /** The data rows of `table_index_analysis.csv`, one per record, in record
      order. */
  method PivotRows(tblInfos: seq<TblInfo>, indexes: seq<string>, tblMapIdx: map<string, map<string, bool>>)
    returns (rows: seq<seq<string>>)
    ensures |rows| == |tblInfos|
    ensures forall k :: 0 <= k < |rows| ==> |rows[k]| == |indexes| + 1 && rows[k][0] == tblInfos[k].tblPath
    ensures forall k, c :: 0 <= k < |rows| && 0 <= c < |indexes| ==>
              rows[k][c + 1] == Cell(tblMapIdx, tblInfos[k].tblPath, indexes[c])
  {
    rows := [];
    for k := 0 to |tblInfos|
      invariant |rows| == k
      invariant forall j :: 0 <= j < k ==> |rows[j]| == |indexes| + 1 && rows[j][0] == tblInfos[j].tblPath
      invariant forall j, c :: 0 <= j < k && 0 <= c < |indexes| ==>
                  rows[j][c + 1] == Cell(tblMapIdx, tblInfos[j].tblPath, indexes[c])
    {
      var row := PivotRow(tblInfos[k], indexes, tblMapIdx);
      rows := rows + [row];
    }
  }
}
