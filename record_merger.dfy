/**
 * RecordMerger: reads header-plus-rows tables into one store keyed by the
 * "ID" column, grows one ordered list of distinct column names across all
 * tables, and renders the store back to rows, sorted by identifier.
 *
 * A table is given as its header row and its data rows; reading and writing
 * CSV text is not part of this model.
 */
module Merger {
  import opened JavaStrings
  import opened Columns
  import opened Records
  import opened SeqFacts

  const ID_COLUMN: string := "ID"
  const EMPTY_CELL: string := ""

  // ---------------------------------------------------------------------------
  // filterFilesByExtension

  /** `file.toLowerCase().endsWith(extension.toLowerCase())` */
  predicate HasExtension(file: string, extension: string)
  {
    EndsWith(AsciiLower(file), AsciiLower(extension))
  }

  /** The input files with the given extension, case-insensitively, in input
      order and with their repetitions. */
  function FilterFilesByExtension(files: seq<string>, extension: string): (r: seq<string>)
    ensures |r| <= |files|
    ensures forall f :: multiset(r)[f] == if HasExtension(f, extension) then multiset(files)[f] else 0
  {
    if files == [] then []
    else
      var rest := FilterFilesByExtension(files[1..], extension);
      assert files == [files[0]] + files[1..];
      if HasExtension(files[0], extension) then [files[0]] + rest else rest
  }

  /** Filtering keeps the input order: it distributes over concatenation. */
  lemma {:induction false} FilterKeepsOrder(a: seq<string>, b: seq<string>, extension: string)
    ensures FilterFilesByExtension(a + b, extension)
         == FilterFilesByExtension(a, extension) + FilterFilesByExtension(b, extension)
  {
    if a == [] {
      assert a + b == b;
    } else {
      assert (a + b)[0] == a[0];
      assert (a + b)[1..] == a[1..] + b;
      FilterKeepsOrder(a[1..], b, extension);
    }
  }

  /** No file name ends in both ".html" and ".csv", whatever its case. */
  lemma ExtensionsExclusive(f: string)
    ensures !(HasExtension(f, ".html") && HasExtension(f, ".csv"))
  {
    if HasExtension(f, ".html") {
      var lower := AsciiLower(f);
      assert AsciiLower(".html")[1] == 'h';
      assert lower[|lower| - 5..][1] == 'h';
      assert lower[|lower| - 4..][0] == 'h';
      assert AsciiLower(".csv")[0] == '.';
    }
  }

  /** So the constructor's two lists never share a file. */
  lemma HtmlAndCsvDisjoint(files: seq<string>)
    ensures forall f :: f in FilterFilesByExtension(files, ".html")
                    ==> f !in FilterFilesByExtension(files, ".csv")
  {
    forall f | f in FilterFilesByExtension(files, ".html")
      ensures f !in FilterFilesByExtension(files, ".csv")
    {
      assert multiset(FilterFilesByExtension(files, ".html"))[f] > 0;
      ExtensionsExclusive(f);
    }
  }

  // ---------------------------------------------------------------------------
  // sortMapById

  /** The identifiers of a list of entries, in order. */
  function EntryIds(entries: seq<(string, Record)>): (ids: seq<string>)
    ensures |ids| == |entries|
    ensures forall i :: 0 <= i < |entries| ==> ids[i] == entries[i].0
  {
    seq(|entries|, i requires 0 <= i < |entries| => entries[i].0)
  }

  /** The entries of the store in ascending identifier order, as the
      LinkedHashMap that `sortMapById` collects them into iterates them: every
      identifier exactly once, with its record. */
  function SortMapById(idMap: Store): (entries: seq<(string, Record)>)
    ensures |entries| == |idMap|
    ensures forall i :: 0 <= i < |entries| ==>
      entries[i].0 in idMap && entries[i].1 == idMap[entries[i].0]
    ensures forall id :: id in idMap <==> id in EntryIds(entries)
    ensures StrictlyAscending(EntryIds(entries))
  {
    var keys := SortedKeys(idMap.Keys);
    assert |idMap.Keys| == |idMap|;
    var entries := seq(|keys|, i requires 0 <= i < |keys| => (keys[i], idMap[keys[i]]));
    assert EntryIds(entries) == keys;
    entries
  }

  /** The data rows `generateCSV` writes, one per stored record, in ascending
      identifier order. */
  function RenderSorted(schema: seq<string>, idMap: Store): (rows: seq<seq<string>>)
    ensures |rows| == |idMap|
  {
    var entries := SortMapById(idMap);
    seq(|entries|, i requires 0 <= i < |entries| =>
      RenderRow(schema, entries[i].1, entries[i].0, ID_COLUMN, EMPTY_CELL))
  }

  /** Rendered row i is the i-th entry in identifier order, rendered. */
  lemma RenderSortedRow(schema: seq<string>, idMap: Store, i: nat)
    requires i < |idMap|
    ensures var entry := SortMapById(idMap)[i];
      RenderSorted(schema, idMap)[i] == RenderRow(schema, entry.1, entry.0, ID_COLUMN, EMPTY_CELL)
  {
  }

  /** The rendering of the first i + 1 entries extends that of the first i by
      the rendering of entry i. */
  lemma RenderSortedSnoc(schema: seq<string>, idMap: Store, i: nat)
    requires i < |idMap|
    ensures var entry := SortMapById(idMap)[i];
      RenderSorted(schema, idMap)[..i + 1]
        == RenderSorted(schema, idMap)[..i] + [RenderRow(schema, entry.1, entry.0, ID_COLUMN, EMPTY_CELL)]
  {
    RenderSortedRow(schema, idMap, i);
    TakeSnoc(RenderSorted(schema, idMap), i);
  }

  /** The "ID" slots of rendered row i hold the i-th identifier. */
  lemma RenderSortedIdCell(schema: seq<string>, idMap: Store, i: nat, k: nat)
    requires i < |idMap| && k < |schema| && schema[k] == ID_COLUMN
    ensures RenderSorted(schema, idMap)[i][k] == EntryIds(SortMapById(idMap))[i]
  {
  }

  /** Every rendered row is as wide as the column list. */
  lemma RenderSortedWidths(schema: seq<string>, idMap: Store)
    ensures forall i :: 0 <= i < |RenderSorted(schema, idMap)| ==> |RenderSorted(schema, idMap)[i]| == |schema|
  {
    forall i | 0 <= i < |idMap| ensures |RenderSorted(schema, idMap)[i]| == |schema| {
      RenderSortedRow(schema, idMap, i);
    }
  }

  /** Every "ID" slot of the rendered rows ascends strictly down the table. */
  lemma RenderSortedAscending(schema: seq<string>, idMap: Store)
    ensures var rows := RenderSorted(schema, idMap);
      forall i, j, k :: (0 <= i < j < |rows| && 0 <= k < |schema| && schema[k] == ID_COLUMN)
        ==> Less(rows[i][k], rows[j][k])
  {
    var rows := RenderSorted(schema, idMap);
    forall i, j, k | 0 <= i < j < |rows| && 0 <= k < |schema| && schema[k] == ID_COLUMN
      ensures Less(rows[i][k], rows[j][k])
    {
      RenderSortedIdCell(schema, idMap, i, k);
      RenderSortedIdCell(schema, idMap, j, k);
    }
  }

  /** Reading the generated table back gives the same store, each record
      restricted and padded to the column list. */
  lemma GenerateThenParse(schema: seq<string>, idMap: Store)
    requires ID_COLUMN in schema
    ensures AllFit(RenderSorted(schema, idMap), schema, IndexOf(schema, ID_COLUMN))
    ensures var back := PutAll(map[], schema, ID_COLUMN, IndexOf(schema, ID_COLUMN), RenderSorted(schema, idMap));
      && back.Keys == idMap.Keys
      && forall id :: id in idMap ==> back[id] == Padded(schema, idMap[id], ID_COLUMN, EMPTY_CELL)
  {
    var ids := EntryIds(SortMapById(idMap));
    var rows := RenderSorted(schema, idMap);
    forall i, j | 0 <= i < j < |ids| ensures ids[i] != ids[j] {
      LessIrreflexive(ids[i]);
    }
    forall i | 0 <= i < |ids|
      ensures rows[i] == RenderRow(schema, idMap[ids[i]], ids[i], ID_COLUMN, EMPTY_CELL)
    {
      RenderSortedRow(schema, idMap, i);
    }
    ParseRendered(schema, ID_COLUMN, EMPTY_CELL, idMap, ids, rows);
  }

  /** With overwrite on a repeated identifier, a second table that has the
      same identifier but other columns leaves none of the first table's
      columns in the record. */
  lemma LaterTableReplacesRecord()
    ensures var first := PutAll(map[], ["ID", "Name"], ID_COLUMN, 0, [["1", "Alice"]]);
            var second := PutAll(first, ["ID", "Age"], ID_COLUMN, 0, [["1", "30"]]);
            && first["1"] == map["Name" := "Alice"]
            && second["1"] == map["Age" := "30"]
  {
    var first := PutAll(map[], ["ID", "Name"], ID_COLUMN, 0, [["1", "Alice"]]);
    assert [["1", "Alice"]][..0] == [];
    assert RowRecord(["1", "Alice"], ["ID", "Name"], ID_COLUMN) == map["Name" := "Alice"] by {
      assert ["1", "Alice"][..1][..0] == [];
    }
    assert [["1", "30"]][..0] == [];
    assert RowRecord(["1", "30"], ["ID", "Age"], ID_COLUMN) == map["Age" := "30"] by {
      assert ["1", "30"][..1][..0] == [];
    }
  }

  /** A header that has "ID" brings "ID" into the column list it is absorbed
      into. */
  lemma IdColumnAbsorbed(columns: seq<string>, header: seq<string>)
    requires 0 <= IndexOf(header, ID_COLUMN)
    ensures ID_COLUMN in Distinct(columns + header)
  {
    assert header[IndexOf(header, ID_COLUMN)] in columns + header;
  }

  // ---------------------------------------------------------------------------
  // The merger object

  class RecordMerger {
    var inputFiles: seq<string>
    var htmlFiles: seq<string>
    var csvFiles: seq<string>
    var uniqueColumnList: seq<string>
    var idsMapOfColumnsMap: Store

    /** The column list never holds a name twice, and once a record is
        stored the column list holds "ID": a put needs "ID" in the header,
        and the list only grows. */
    ghost predicate Valid()
      reads this
    {
      && NoDup(uniqueColumnList)
      && (idsMapOfColumnsMap != map[] ==> ID_COLUMN in uniqueColumnList)
    }

    constructor (inputFiles: seq<string>)
      ensures Valid()
      ensures this.inputFiles == inputFiles
      ensures htmlFiles == FilterFilesByExtension(inputFiles, ".html")
      ensures csvFiles == FilterFilesByExtension(inputFiles, ".csv")
      ensures uniqueColumnList == [] && idsMapOfColumnsMap == map[]
    {
      this.inputFiles := inputFiles;
      htmlFiles := FilterFilesByExtension(inputFiles, ".html");
      csvFiles := FilterFilesByExtension(inputFiles, ".csv");
      uniqueColumnList := [];
      idsMapOfColumnsMap := map[];
    }

    /** Reads one table: absorbs its header into the column list, then puts one
        record per data row under the row's "ID" cell. At the first row whose
        "ID" cell or extra cells cannot be indexed the loop stops with
        RowOutOfBounds; the column list and the puts of the earlier rows stay. */
    method ParseCSV(header: seq<string>, rows: seq<seq<string>>) returns (outcome: Result<()>)
      requires Valid()
      modifies this`uniqueColumnList, this`idsMapOfColumnsMap
      ensures Valid()
      ensures uniqueColumnList == Distinct(old(uniqueColumnList) + header)
      ensures var n := FitCount(rows, header, IndexOf(header, ID_COLUMN));
        && idsMapOfColumnsMap == PutAll(old(idsMapOfColumnsMap), header, ID_COLUMN, IndexOf(header, ID_COLUMN), rows[..n])
        && outcome == if n == |rows| then Ok(()) else RowOutOfBounds(n)
    {
      UpdateUniqueColumns(header);
      var indexOfId := IndexOf(header, ID_COLUMN);
      if 0 <= indexOfId {
        IdColumnAbsorbed(old(uniqueColumnList), header);
      }
      var i := 0;
      while i < |rows|
        invariant 0 <= i <= |rows|
        invariant uniqueColumnList == Distinct(old(uniqueColumnList) + header)
        invariant idsMapOfColumnsMap != map[] ==> ID_COLUMN in uniqueColumnList
        invariant 0 <= indexOfId ==> ID_COLUMN in uniqueColumnList
        invariant AllFit(rows[..i], header, indexOfId)
        invariant idsMapOfColumnsMap == PutAll(old(idsMapOfColumnsMap), header, ID_COLUMN, indexOfId, rows[..i])
      {
        var line := rows[i];
        if !(0 <= indexOfId < |line|) || |line| > |header| {
          FitCountAt(rows, header, indexOfId, i);
          return RowOutOfBounds(i);
        }
        var columnMap := ParseLine(line, header);
        idsMapOfColumnsMap := idsMapOfColumnsMap[line[indexOfId] := columnMap];
        PutAllSnoc(old(idsMapOfColumnsMap), header, ID_COLUMN, indexOfId, rows, i);
        i := i + 1;
      }
      assert rows[..|rows|] == rows;
      FitCountAll(rows, header, indexOfId);
      return Ok(());
    }

    /** The header, then one row per stored record in ascending identifier
        order. */
    method GenerateCSV() returns (rows: seq<seq<string>>)
      ensures rows == [uniqueColumnList] + RenderSorted(uniqueColumnList, idsMapOfColumnsMap)
    {
      rows := [uniqueColumnList];
      var sortedIdMap := SortMapById(idsMapOfColumnsMap);
      ghost var rendered := RenderSorted(uniqueColumnList, idsMapOfColumnsMap);
      for i := 0 to |sortedIdMap|
        invariant rows == [uniqueColumnList] + rendered[..i]
      {
        var newLine := GenerateLine(uniqueColumnList, sortedIdMap[i].1, sortedIdMap[i].0);
        RenderSortedSnoc(uniqueColumnList, idsMapOfColumnsMap, i);
        AppendAssoc([uniqueColumnList], rendered[..i], [newLine]);
        rows := rows + [newLine];
      }
      TakeAll(rendered);
    }

    /** One output row: slot k holds the identifier where the column is "ID",
        the record's value where it has the column, "" otherwise. */
    method GenerateLine(uniqueColumnsList: seq<string>, columnMap: Record, id: string) returns (newLine: seq<string>)
      ensures |newLine| == |uniqueColumnsList|
      ensures forall k :: 0 <= k < |uniqueColumnsList| && uniqueColumnsList[k] == ID_COLUMN ==> newLine[k] == id
      ensures forall k :: (0 <= k < |uniqueColumnsList| && uniqueColumnsList[k] != ID_COLUMN
        && uniqueColumnsList[k] in columnMap) ==> newLine[k] == columnMap[uniqueColumnsList[k]]
      ensures forall k :: (0 <= k < |uniqueColumnsList| && uniqueColumnsList[k] != ID_COLUMN
        && uniqueColumnsList[k] !in columnMap) ==> newLine[k] == EMPTY_CELL
      ensures newLine == RenderRow(uniqueColumnsList, columnMap, id, ID_COLUMN, EMPTY_CELL)
    {
      newLine := [];
      for i := 0 to |uniqueColumnsList|
        invariant |newLine| == i
        invariant forall k :: 0 <= k < i ==> newLine[k] == Cell(uniqueColumnsList[k], columnMap, id, ID_COLUMN, EMPTY_CELL)
      {
        var uniqueColumn := uniqueColumnsList[i];
        if uniqueColumn == ID_COLUMN {
          newLine := newLine + [id];
        } else if uniqueColumn in columnMap {
          newLine := newLine + [columnMap[uniqueColumn]];
        } else {
          newLine := newLine + [EMPTY_CELL];
        }
      }
    }

    /** The record of one data row: every column but "ID" mapped to its cell. */
    method ParseLine(line: seq<string>, columns: seq<string>) returns (columnMap: Record)
      requires |line| <= |columns|
      ensures columnMap == RowRecord(line, columns, ID_COLUMN)
    {
      columnMap := map[];
      for i := 0 to |line|
        invariant columnMap == RowRecord(line[..i], columns, ID_COLUMN)
      {
        assert line[..i + 1][..i] == line[..i];
        if columns[i] != ID_COLUMN {
          columnMap := columnMap[columns[i] := line[i]];
        }
      }
      assert line[..|line|] == line;
    }

    /** Replaces the column list by the distinct names of the old list followed
        by the new header: the old list stays a prefix and the header's unseen
        names, "ID" included, are appended in first-occurrence order. */
    method UpdateUniqueColumns(newColumns: seq<string>)
      requires Valid()
      modifies this`uniqueColumnList
      ensures Valid()
      ensures uniqueColumnList == Distinct(old(uniqueColumnList) + newColumns)
      ensures uniqueColumnList == old(uniqueColumnList) + NewNames(old(uniqueColumnList), newColumns)
    {
      DistinctAppend(uniqueColumnList, newColumns);
      uniqueColumnList := Distinct(uniqueColumnList + newColumns);
    }
  }
}
