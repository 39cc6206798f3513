# Record merger — a Dafny model

The repository's record merger reads tables, each a header row followed by data
rows. It keys every data row by the cell in its `ID` column and keeps one store
that maps each identifier to a record. A record is a map from column name to
cell. Alongside the store it grows one ordered list of the distinct column names
seen so far. At the end it writes the list as a header, then one row per stored
identifier in ascending identifier order, with a placeholder cell wherever a
record lacks a column.

The model covers three Java classes.

- `RecordMerger` (`java_test/src/RecordMerger.java`) is module `Merger`,
  file `record_merger.dfy`. It is a class with the fields `uniqueColumnList` and
  `idsMapOfColumnsMap`. `ParseCSV`, `UpdateUniqueColumns` and `ParseLine` update
  or build state with loops. `GenerateCSV` and `GenerateLine` build rows with
  loops. `sortMapById` and `filterFilesByExtension` are stream expressions, so
  they are functions.
- `BaseHelper` and `CSVHelper` (`java_test/src/BaseHelper.java`,
  `java_test/src/CSVHelper.java`) are module `Helpers`, file `helpers.dfy`.
  In the Java code `CSVHelper` inherits from `BaseHelper`. Here a `CSVHelper`
  holds a `BaseHelper` in `base` and reads and assigns the inherited fields
  through it.
- The specification functions that the methods are proved against live in
  their own modules:
  - `Columns` (`columns.dfy`): `Stream.distinct()` and `List.indexOf`.
  - `Records` (`records.dfy`): what `parseLine` returns, the put loop, rendering
    a record, and reading rendered rows back.
  - `JavaStrings` (`java_strings.dfy`): `String.compareTo`, ASCII lower-casing,
    `endsWith`, and sorting a set of identifiers.

A table comes in as its header (`seq<string>`) and its data rows
(`seq<seq<string>>`). The generated table goes out as a `seq<seq<string>>`. The
CSV text format is not modelled.

Some behaviours of the code are easy to mistake for others. The model
follows the code:

- **The identifier column stays in the column list.** `updateUniqueColumns`
  keeps `"ID"` at the position where it was first seen. `generateLine` then
  writes the identifier into that slot. No separate leading identifier column
  is written.
- **A repeated identifier replaces the whole record.** The put loop stores
  `parseLine` of the latest row and drops the earlier record, even one that
  came from an earlier table. A column-by-column union merge would keep the
  earlier table's columns; the code's `put` does not. `LaterTableReplacesRecord`
  shows this on a two-table example: the `Name` column of record 1 is gone.
- **Malformed input raises an index exception.** A header without `"ID"` gives
  index -1. The first data row then fails on `line[-1]`. A row longer than its
  header fails inside `parseLine`. Nothing is checked before the first row, and
  short rows are accepted: their trailing columns are simply absent from the
  record. The failure is modelled as `RowOutOfBounds(i)` at the first data row
  that cannot be indexed. It is not atomic:
  - `RecordMerger.ParseCSV` has already grown the column list and keeps the puts
    of the earlier rows.
  - `CSVHelper.ParseAllCSV` has already replaced `columnNamesList`.
- **Identifiers sort by UTF-16 code unit.** The code sorts them by Java's
  `String.compareTo`, which compares UTF-16 code units, not bytes or code
  points. The orders differ for characters above U+FFFF, which sort before
  U+E000–U+FFFF (`SupplementaryBeforeUpperBmp`).
- **A type mismatch in `parseAllCSV`.** `java_test/src/CSVHelper.java:34`
  passes the `String[]` arrays to `parseLine(List<String>, List<String>)`. The
  model reads the call as passing the same values as lists.

## Model

| member | source | states |
|---|---|---|
| `Merger.RecordMerger.constructor` | java_test/src/RecordMerger.java:55-61 | stores the input files; the html and csv lists are the case-insensitive extension filters of them; the column list and the store start empty |
| `Merger.FilterFilesByExtension` | java_test/src/RecordMerger.java:63-67 | every file whose lower-cased name ends with the lower-cased extension is kept as often as it occurs in the input, and no other file is kept |
| `Merger.FilterKeepsOrder` | java_test/src/RecordMerger.java:64-66 | the filter keeps input order: filtering a concatenation is the concatenation of the filtered parts |
| `Merger.ExtensionsExclusive` | java_test/src/RecordMerger.java:65 | no file name ends both in ".html" and in ".csv", in any letter case |
| `Merger.HtmlAndCsvDisjoint` | java_test/src/RecordMerger.java:57-58 | the constructor's html list and csv list share no file |
| `Merger.RecordMerger.UpdateUniqueColumns` | java_test/src/RecordMerger.java:142-147 | the new list is the distinct union of the old list and the header; the old list is a prefix; the appended names are the header's unseen names ("ID" included) in first-occurrence order; the list stays duplicate-free |
| `Columns.Distinct` | java_test/src/RecordMerger.java:143-146 | the result of `distinct()` has no duplicates and holds exactly the names of its input |
| `Columns.NewNames` | java_test/src/RecordMerger.java:143-146 | the names appended are exactly those of the header that the list lacks |
| `Columns.DistinctAppend` | java_test/src/RecordMerger.java:143-146 | for a duplicate-free list, the distinct union is the list followed by the header's new names in first-occurrence order |
| `Columns.DistinctOfDistinct` | java_test/src/RecordMerger.java:143-146 | absorbing headers one after another gives the distinct names of all of them together, in first-seen order |
| `Columns.AbsorbTwice` | java_test/src/RecordMerger.java:143-146 | absorbing the same header a second time leaves the column list unchanged |
| `Columns.IndexOf` | java_test/src/RecordMerger.java:79 | `indexOf` is -1 exactly when the name is absent; otherwise the name sits at that index and at no earlier one |
| `Merger.RecordMerger.ParseLine` | java_test/src/RecordMerger.java:132-140 | the record built by the loop is the row's record: every column but "ID" at a position inside the row maps to its cell, and a column named twice keeps its last cell |
| `Records.RowRecord` | java_test/src/RecordMerger.java:132-140 | the record never has the identifier column as a key; its key set is exactly the names of the header at positions inside the row, other than the identifier column |
| `Records.RowRecordLastWins` | java_test/src/RecordMerger.java:134-137 | a column maps to the cell at its last position inside the row |
| `Merger.RecordMerger.ParseCSV` | java_test/src/RecordMerger.java:69-86 | the column list becomes the distinct union with the header and stays duplicate-free; once a record is stored the list holds "ID"; the store gets one put per data row up to the first row that cannot be indexed; the outcome is Ok exactly when every row fits, otherwise that row's position |
| `Records.FitCount` | java_test/src/RecordMerger.java:82-83 | the put loop gets through every row before the first one whose identifier cell or extra cells cannot be indexed, and stops at that one |
| `Records.FitCountAt` | java_test/src/RecordMerger.java:82-83 | the loop stops at the first row that does not fit, whatever follows it |
| `Records.FitCountAll` | java_test/src/RecordMerger.java:82-84 | when every row fits, the loop reads all of them |
| `Records.MissingIdColumn` | java_test/src/RecordMerger.java:79-83 | a header without the identifier column gives index -1, and the loop fails at the first data row |
| `Records.PutAllSnoc` | java_test/src/RecordMerger.java:82-84 | each further row that fits adds one put of its record under its identifier cell |
| `Records.PutAll` | java_test/src/RecordMerger.java:82-84 | the put loop (also `parseAllCSV`'s, java_test/src/CSVHelper.java:33-35, from an empty store): the identifiers after it are exactly the earlier ones plus the identifier cells of the rows; none is lost and none is invented |
| `Records.PutAllOverlay` | java_test/src/RecordMerger.java:82-84 | the store after the loop is the old store overlaid by what the same rows give from an empty store |
| `Records.PutAllLastWins` | java_test/src/RecordMerger.java:83 | an identifier maps to the record of the last row carrying it; any earlier record for it, from this table or an earlier one, is replaced whole |
| `Records.PutAllKeepsOthers` | java_test/src/RecordMerger.java:82-84 | identifiers that the rows do not mention keep their records |
| `Records.PutAllTwice` | java_test/src/RecordMerger.java:82-84 | reading the same rows a second time leaves the store unchanged |
| `Records.PutAllDistinct` | java_test/src/RecordMerger.java:83 | rows with pairwise distinct identifiers fill an empty store with exactly one record per row |
| `Merger.LaterTableReplacesRecord` | java_test/src/RecordMerger.java:83 | after (ID,Name: 1,Alice) then (ID,Age: 1,30), record 1 is {Age: 30}; the Name column is gone |
| `JavaStrings.LessIsStrictTotalOrder` | java_test/src/RecordMerger.java:113 | the identifier order is irreflexive, asymmetric, transitive and total |
| `JavaStrings.LessIsUtf16Order` | java_test/src/RecordMerger.java:113 | the order on characters agrees with `compareTo` on the UTF-16 encodings: the first differing code unit decides, otherwise the shorter string comes first |
| `JavaStrings.SupplementaryBeforeUpperBmp` | java_test/src/RecordMerger.java:113 | U+10000 sorts before U+E000 although its code point is larger |
| `JavaStrings.SortedKeys` | java_test/src/RecordMerger.java:112-113 | the keys listed in strictly ascending order, each exactly once |
| `Merger.SortMapById` | java_test/src/RecordMerger.java:111-116 | the sorted map holds exactly the store's entries, each identifier with its own record, with identifiers strictly ascending |
| `Merger.RenderSorted` | java_test/src/RecordMerger.java:100-107 | one rendered row per stored record |
| `Merger.RenderSortedSnoc` | java_test/src/RecordMerger.java:104-107 | each step of the `forEach` appends the rendering of the next entry in identifier order |
| `Merger.RenderSortedRow` | java_test/src/RecordMerger.java:104-106 | data row i renders the i-th entry in identifier order |
| `Merger.RenderSortedIdCell` | java_test/src/RecordMerger.java:121-122 | every "ID" slot of data row i holds the i-th identifier |
| `Merger.RenderSortedAscending` | java_test/src/RecordMerger.java:100-107 | going down the data rows, every "ID" slot strictly ascends |
| `Merger.RecordMerger.GenerateCSV` | java_test/src/RecordMerger.java:88-109 | the rows written are the column list, then one rendered row per stored record in ascending identifier order (`RenderSorted`): the stored record count plus one rows |
| `Merger.RenderSortedWidths` | java_test/src/RecordMerger.java:104-106 | every data row is as wide as the column list |
| `Merger.RecordMerger.GenerateLine` | java_test/src/RecordMerger.java:118-130 | the row is as long as the column list; an "ID" slot holds the identifier; another slot holds the record's value when the record has that column, and "" otherwise |
| `Records.Cell` | java_test/src/RecordMerger.java:121-127 | one output cell (also java_test/src/CSVHelper.java:71-77, with the configured identifier column and placeholder): it is the identifier, a value the record holds, or the placeholder; under any column but the identifier column it is what the record padded to that column holds |
| `Records.RenderRow` | java_test/src/RecordMerger.java:118-130 | a rendered row is as long as the column list |
| `Records.RenderThenParse` | java_test/src/RecordMerger.java:118-140 | parsing a rendered row against the same column list gives the record back, restricted to those columns, with absent ones holding the placeholder; the first identifier slot holds the identifier |
| `Merger.GenerateThenParse` | java_test/src/RecordMerger.java:98-107 | reading the generated data rows back against the column list (when it has "ID", which `RecordMerger.Valid` guarantees whenever a record is stored) gives every identifier back with its record, padded to the column list |
| `Records.ParseRendered` | java_test/src/CSVHelper.java:56-61 | rendering a store in any order that lists each identifier once, then reading the rows back, gives every identifier back with its padded record |
| `Helpers.BaseHelper.constructor` | java_test/src/BaseHelper.java:12-16 | stores the identifier column and the placeholder; the column list starts empty |
| `Helpers.BaseHelper.GetColumnNamesList` | java_test/src/BaseHelper.java:18-20 | returns the current column list and changes nothing |
| `Helpers.BaseHelper.ParseLine` | java_test/src/BaseHelper.java:22-30 | the configured identifier column is never a key; the keys are exactly the columns at positions inside the row other than it; each maps to its last cell in the row |
| `Helpers.CSVHelper.constructor` | java_test/src/CSVHelper.java:14-16 | a new helper with the given identifier column and placeholder, and an empty column list |
| `Helpers.CSVHelper.ParseAllCSV` | java_test/src/CSVHelper.java:20-42 | the column list becomes exactly the header, identifier column included; the result is the put loop over a fresh empty store when every row fits, and otherwise the first row that cannot be indexed |
| `Helpers.CSVHelper.GenerateCSV` | java_test/src/CSVHelper.java:46-66 | the header is the given column list, followed by exactly one rendered row per map entry, in an iteration order left open that lists every identifier once |
| `Helpers.CSVHelper.GenerateLine` | java_test/src/CSVHelper.java:68-80 | the row is as long as the column list; a slot of the configured identifier column holds the identifier; another slot holds the record's value when present, and the configured placeholder otherwise |

## Left out

- `main` (java_test/src/RecordMerger.java:23-40) is left out. It is command-line
  plumbing: it prints, exits, and reads two fixed file names.
- Reading and writing CSV text through opencsv is left out: quoting, escaping,
  line ends and closing the streams. Tables come in as header and rows and go
  out as rows.
- `HTMLHelper` is not part of this model. Its only merge logic is the same put
  loop over `BaseHelper.parseLine`, which is modelled.
- `DEBUG_PRINT` is left out because it only prints to the console.
- `IOException` wrapping is left out. So is the null header that `readNext`
  returns for an empty file, which would make `Arrays.asList` throw.
- `Merger.FilterFilesByExtension`: `toLowerCase` is locale-sensitive in Java.
  It is modelled as lower-casing the ASCII letters A–Z only.
- `Merger.RecordMerger.ParseLine`: requires the row to be no longer than the
  header. The Java method throws on a longer row. Its only caller checks the
  length first and models that exception as `RowOutOfBounds`.
- `Helpers.BaseHelper.ParseLine`: same requirement and reason as
  `Merger.RecordMerger.ParseLine`.
- `Helpers.CSVHelper.GenerateCSV`: the `HashMap` iteration order is not
  modelled. The method may choose any order, and the contract promises none.
- `ArrayIndexOutOfBoundsException` and `IndexOutOfBoundsException` are not
  told apart. Both become `RowOutOfBounds`.
- Aliasing is left out: `getColumnNamesList` returns the live Java list, and
  `Arrays.asList` is a view of the header array. Here lists are values.
- Inheritance is left out. `CSVHelper` reaches the `BaseHelper` fields through
  a `base` object.
