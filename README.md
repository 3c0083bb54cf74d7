# tblAnalyzer task engine in Dafny

tblAnalyzer scans the directories of a configured task for table files
(`.fac`, `.txt`, `.csv`). It parses each file's declared indexes and column
keys, then writes two CSV reports:

- `table_info.csv`: one inventory row per table, sorted by table name;
- `table_index_analysis.csv`: a pivot with one column per distinct index name
  (sorted) and one row per table, holding `"1"` where the table declares the
  index and `"0"` elsewhere.

This project models `processTask` in `main.go` up to the point where the
rows go to the CSV writer. It covers:

- the file listing;
- the accumulation loop (the extension filter, the abort on an unreadable
  file size, the records, the index counts, the index set and the
  table-to-index membership map);
- the extraction and sorting of the index vocabulary;
- the sorting of the records by name;
- the construction of every row of both reports.

Modules:

- `StringOrder` (ordering.dfy): Go's ordinal `<` on strings and its strict
  total order laws.
- `Sorting` (sorting.dfy): the contract of `sort.Strings` / `sort.Slice`
  (sorted and a permutation), with an insertion sort that meets it.
- `Tables` (tables.dfy): the entities (`TblInfo`, `Task`, the parse result)
  and the collaborators as an `Env` value. It also holds the reference
  definitions of what the loop over the files must produce: `Collect` (the
  records or the first error), `IndexNames` (the distinct indexes) and
  `Occurrences` (the counts).
- `Aggregation` (aggregation.dfy): the loops of lines 46-99 as methods,
  proved against those definitions.
- `Reports` (reports.dfy): the rows of both reports, and `strings.Join`
  with its inverse `Split`.
- `Analyzer` (analyzer.dfy): `ProcessTask`, and `Reported`, the predicate
  stating the whole outcome of a successful task over its file list.
- `TaskProperties` (properties.dfy): consequences of `Reported`. They cover
  row counts, which files get rows, the meaning of a pivot cell, the
  vocabulary's independence from listing order, when the inventory order
  is determined, the independence of both reports from the listing order
  when table names differ, and a worked example.

The collaborators are `sys.GetFilePaths`, `cache.ParseGenericTable`,
`sys.GetFileSize`, `sys.GetTimeStamp`, `sys.GetFileName` and the
megabyte rendering of a size. Their code is not part of this model. Each
is a function field of `Tables.Env`, which covers any behaviour of them
that depends only on their arguments. The size lookup is reduced to a size
or nothing; its own error value is not kept (see "## Left out").

Behaviour of the code worth knowing:

- The inventory is sorted by table name only. Equal names are not broken by
  path, so their order is whatever `sort.Slice` yields. The model states only
  "sorted by name and a permutation". `InventoryOrderDetermined` shows that
  this fixes the order when records sharing a name are identical, for
  example when all names differ.
- The pivot rows are not sorted by path. They follow the name-sorted records.
- The "Modified at" column is present.
- Parsing cannot fail: `ParseGenericTable` returns no error. The only abort
  inside the loop is a failed size lookup.
- The membership map is keyed by the listed path. The pivot looks it up with
  the path the parser reports (`tbl.FilePath`). Statements about pivot cells
  therefore carry the hypothesis `EchoesPath` (the parser reports back the
  path it was given) where they need it.
- A file listed twice gives two records and two rows. Its membership entry
  is replaced by the second visit.

## Model

| member | source | states |
|---|---|---|
| StringOrder.Less | main.go:100-121 | Go's `<` on strings: lexicographic by character, a proper prefix first; its laws are the four lemmas below |
| StringOrder.LessIrreflexive | main.go:100 | no string sorts before itself |
| StringOrder.LessAsymmetric | main.go:100 | if a sorts before b then b does not sort before a |
| StringOrder.LessTransitive | main.go:119-121 | the string order is transitive |
| StringOrder.LessTotal | main.go:119-121 | of two different strings one sorts before the other |
| Sorting.SortByKey | main.go:119-121 | the result is ordered by the key (no element preceded by a greater key) and is a permutation of the input |
| Sorting.InsertKeepsSorted | main.go:119-121 | inserting an element before the first greater key keeps a key-ordered sequence ordered |
| Sorting.SortedDistinctIsStrict | main.go:96-100 | a sorted sequence without duplicates is strictly increasing |
| Sorting.StrictlySortedUnique | main.go:100 | two strictly increasing sequences with the same elements are equal: the sorted vocabulary is unique |
| Sorting.PermutationKeepsDistinct | main.go:97-100 | sorting the duplicate-free key list keeps it duplicate-free |
| Tables.SupportedIgnoresDirectory | main.go:62 | the extension filter depends only on the last four characters of the path, so the directory never matters |
| Tables.HasSuffix | main.go:62 | the case-sensitive suffix test; `HasSuffixMeans` states its meaning |
| Tables.HasSuffixMeans | main.go:62 | a string has a suffix exactly when it is some prefix followed by that suffix |
| Tables.Supported | main.go:62 | the extension filter: `.fac`, `.txt` or `.csv` at the end of the path; `SupportedMeans` states its meaning |
| Tables.SupportedMeans | main.go:62 | a path passes the filter exactly when it has at least four characters and its last four are `.fac`, `.txt` or `.csv`, case included; its fourth-last character is then a dot |
| Tables.Count | main.go:87 | the zero-default read of the count map behind `idxCount[idx]++`; `AddIndexes` and `Accumulate` tie the counts to `Occurrences` |
| Tables.Lookup | main.go:180-184 | the membership test reads false for a missing path and for a missing index, as a Go map read does |
| Tables.Kept | main.go:60-66 | the kept paths are exactly the listed paths with a supported extension, in list order, no more of them than listed |
| Tables.CollectFails | main.go:68-74 | the loop fails exactly when some supported listed file's size cannot be read; the error names the first such file, by the path the parser reports |
| Tables.CollectDescribes | main.go:68-82 | on success there is one record per kept file, in list order, each built from that file's parse and metadata |
| Tables.Collect | main.go:59-82 | the reference result of the loop: the records of the supported files in list order, or the error of the first failing one; `CollectFails` and `CollectDescribes` state its meaning |
| Tables.CollectIsRecords | main.go:67-82 | on success the collected records are the records of the supported files, failures aside |
| Tables.RecordsConcat | main.go:59-82 | the records of two lists joined are the records of the first followed by those of the second |
| Tables.RecordsPermutation | main.go:59-82 | two lists holding the same files, with the same repetitions, give the same records up to order |
| Tables.IndexNames | main.go:84-90 | the reference index set; `IndexNamesMembers` states its meaning |
| Tables.IndexNamesMembers | main.go:84-90 | an index name is collected exactly when some supported listed file declares it |
| Tables.Occurrences | main.go:86-87 | an index has a positive count exactly when it is among the collected index names |
| Aggregation.Listed | main.go:46-49 | the file list holds every path listed for any of the task's directories, and nothing else |
| Aggregation.CollectPaths | main.go:46-49 | the file list is the concatenation of the directory listings in directory order |
| Aggregation.CollectErrSticky | main.go:72-74 | once a prefix of the file list fails, the whole task fails with the same error |
| Aggregation.SkipStep | main.go:61-66 | an unsupported file leaves every accumulated structure unchanged |
| Aggregation.AddStep | main.go:67-90 | a supported file with a known size appends its record and adds its indexes to the set, the counts and its own membership entry |
| Aggregation.Accumulate | main.go:59-93 | the loop fails exactly when the reference collection fails, with the same error; on success it holds the records, index set, counts and membership map the reference definitions give |
| Aggregation.AddIndexes | main.go:84-90 | after one file the counts grow by that file's index multiset, the set by its indexes, and its membership entry holds exactly its indexes; other entries are untouched |
| Aggregation.AddOneIndex | main.go:86-89 | one more index keeps the inner loop's state equal to its definition over the indexes seen |
| Aggregation.Keys | main.go:96-99 | the keys of the count map, each once, in map iteration order |
| Analyzer.NameKey | main.go:119-121 | the sort key of the inventory, the table name; `SortByKey`'s contract with this key is the ordering of the records |
| Analyzer.Vocabulary | main.go:96-100 | the vocabulary is strictly increasing and holds exactly the keys of the count map |
| Analyzer.ProcessTask | main.go:35-191 | `processTask` fails exactly when some supported listed file's size cannot be read, with the reference error; otherwise its records, vocabulary and both reports are those `Reported` defines |
| Analyzer.ReportedFromParts | main.go:96-191 | the computed pieces satisfy `Reported`; in particular a pivot cell read from the membership map is "1" exactly when the row's path is a listed supported path whose parse declares the index |
| Reports.Join | main.go:140-141 | `strings.Join`: the first item is a prefix of the result and no item is longer than it; `SplitJoin` shows `Split` undoes it |
| Reports.SplitJoin | main.go:140-141 | joining a non-empty list of `;`-free items and splitting at `;` gives the list back |
| Reports.InventoryRow | main.go:139-141 | an inventory row has one cell per header column |
| Reports.InventoryColumns | main.go:131-141 | each cell of an inventory row holds the field its header column names: path, time stamp, rendered size, name, joined indexes, joined column keys |
| Reports.InventoryRowFields | main.go:139-141 | the index and column-key cells of an inventory row give back the record's lists when these are non-empty and free of `;` |
| Reports.InventoryRows | main.go:138-147 | one inventory row per record, in record order |
| Reports.Cell | main.go:180-184 | a pivot cell is "1" or "0", and "1" exactly when the membership map marks the index for the path |
| Reports.PivotRow | main.go:177-185 | a pivot row is the record's path followed by one "1"/"0" cell per vocabulary entry, "1" exactly when the membership map marks it |
| Reports.PivotRows | main.go:175-191 | one pivot row per record, in record order, each as `PivotRow` states |
| TaskProperties.RowsPerKeptFile | main.go:59-82 | both reports have one data row per listed file with a supported extension |
| TaskProperties.RecordSource | main.go:67-82 | every record in the reports is the record of some supported listed file |
| TaskProperties.RecordIffSupported | main.go:60-82 | a path has a row exactly when it is listed with a supported extension (parser echoing the path) |
| TaskProperties.PivotCellMeansDeclared | main.go:175-185 | a pivot cell is "1" exactly when its column's index is among its row's record's indexes, and "0" exactly when not (parser echoing the path) |
| TaskProperties.VocabularyOrderIndependent | main.go:96-100 | two file lists with the same files give the same vocabulary and the same pivot header, whatever their order or repetitions |
| TaskProperties.ReportsOrderIndependent | main.go:46-191 | two file lists holding the same files with the same repetitions, in any order, give identical records, vocabulary and reports when records sharing a table name are identical (in particular when all names differ) |
| TaskProperties.SameRecords | main.go:59-121 | two such lists give the same name-sorted records |
| TaskProperties.SameTableInfo | main.go:131-147 | the inventory report is fixed by the records |
| TaskProperties.SameIndexAnalysis | main.go:165-191 | the pivot report is fixed by the records, the vocabulary and which paths are listed |
| TaskProperties.SamePivotRow | main.go:177-185 | a pivot row depends on the file list only through which paths it holds |
| TaskProperties.InventoryOrderDetermined | main.go:119-121 | when records sharing a table name are identical, the name-sorted inventory order is unique |
| TaskProperties.SameFirstRecord | main.go:119-121 | two name-sorted permutations of records in which a shared name means an identical record start with the same record |
| TaskProperties.SkipUnsupported | main.go:61-66 | an unsupported listed file adds no record and no index |
| TaskProperties.AddSupported | main.go:67-90 | a supported file with a known size appends its record and its indexes |
| TaskProperties.ExampleCollected | main.go:59-93 | two supported files and one unsupported one collect the two records in order and the union of their indexes |
| TaskProperties.WorkedExample | main.go:59-191 | a.csv declaring X, Y, b.txt declaring Y, Z and c.dat give the vocabulary X, Y, Z and the pivot rows a.csv 1 1 0 and b.txt 0 1 1 |

## Left out

- `main` and the configuration loading, validation and per-task loop (main.go:17-34) are not modelled. A task is an input to `ProcessTask`.
- Directory listing, table parsing, file size, time stamp and file name lookups are functions of their arguments in `Env`. File system state, timing and concurrency are not modelled.
- The size cell is `formatSize(size)`. The `%.2f` rendering of bytes divided by 1024·1024 involves floating point and is not modelled.
- The output directory, file creation, the CSV encoding (quoting), `Flush`, `Close` and the write errors of lines 103-194 are I/O and are not modelled. The model stops at the rows handed to the writer.
- Progress bars, `fmt.Printf` and `log.Printf` output are not modelled. This includes the count of unique indexes on line 196, which is `|indexes|`.
- `sort.Strings(paths)` on line 101 sorts a list that is never read again, so it is not modelled.
- The standard library's sort algorithms are not modelled. `Sorting.SortByKey` is one sort that meets their contract.
- Sorting.SortByKey: among records with equal names it fixes one order, while `sort.Slice` may yield any. The model's statements about the reports use only the contract (sorted and a permutation), not this order.
- Aggregation.Keys: Go map iteration order is random; the model picks keys with `:|`, so it fixes no order either. Only the sorted vocabulary is used afterwards.
- Go strings are byte sequences compared bytewise. They are modelled as `seq<char>` compared by code point, which is the same order for valid UTF-8.
- Counts and sizes are unbounded integers; `int` overflow of a count would need more than 2^63 occurrences and is not modelled.
- The error returned at line 73 wraps the size lookup's own error. The model replaces it with `FileSizeUnavailable(path)`, naming the path the parser reports; the message text and the underlying cause are not modelled.
- The time stamp is fetched before the size error is checked. The fetch has no effect in the model, since `Env` functions have none.
- Aggregation.AddIndexes: the file's membership map is the local `marks`, stored under the path after the loop. In Go the outer map holds the same map object from the start; no other code reads it during the loop, so the result is the same.
