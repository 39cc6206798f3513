/**
 * The helper classes: BaseHelper holds the identifier column name, the
 * placeholder for missing cells and the column list of the last table read,
 * and parses one data row; CSVHelper reads a whole table into a fresh store
 * and renders a store back to rows.
 *
 * CSVHelper extends BaseHelper in the source; here a CSVHelper owns a
 * BaseHelper (`base`) and reads and updates the inherited fields through it.
 */
module Helpers {
  import opened Columns
  import opened Records

  class BaseHelper {
    var columnNamesList: seq<string>
    var idColumn: string
    var emptyCell: string

    constructor (idColumn: string, emptyCell: string)
      ensures this.idColumn == idColumn && this.emptyCell == emptyCell
      ensures columnNamesList == []
    {
      this.idColumn := idColumn;
      this.emptyCell := emptyCell;
      columnNamesList := [];
    }

    /** The column list of the last table read (empty before the first). */
    method GetColumnNamesList() returns (names: seq<string>)
      ensures names == columnNamesList
    {
      names := columnNamesList;
    }

    /** The record of one data row: for every position of the row, the column
        at that position mapped to the cell, except the identifier column; a
        column named twice keeps its last cell. */
    method ParseLine(row: seq<string>, columns: seq<string>) returns (columnMap: Record)
      requires |row| <= |columns|
      ensures columnMap == RowRecord(row, columns, idColumn)
      ensures idColumn !in columnMap
      ensures forall c :: c in columnMap <==> exists i :: 0 <= i < |row| && columns[i] == c && c != idColumn
    {
      columnMap := map[];
      for i := 0 to |row|
        invariant columnMap == RowRecord(row[..i], columns, idColumn)
      {
        assert row[..i + 1][..i] == row[..i];
        if columns[i] != idColumn {
          columnMap := columnMap[columns[i] := row[i]];
        }
      }
      assert row[..|row|] == row;
    }
  }

  class CSVHelper {
    const base: BaseHelper

    constructor (idColumn: string, emptyCell: string)
      ensures fresh(base)
      ensures base.idColumn == idColumn && base.emptyCell == emptyCell
      ensures base.columnNamesList == []
    {
      base := new BaseHelper(idColumn, emptyCell);
    }

    /** Reads one table into a new store: the header becomes the column list,
        then every data row is put under its identifier cell. The first row
        whose identifier cell or extra cells cannot be indexed ends the read
        with RowOutOfBounds; the column list has already been replaced. */
    method ParseAllCSV(header: seq<string>, rows: seq<seq<string>>) returns (result: Result<Store>)
      modifies base`columnNamesList
      ensures base.columnNamesList == header
      ensures var idIndex := IndexOf(header, base.idColumn);
        var n := FitCount(rows, header, idIndex);
        result == if n == |rows| then Ok(PutAll(map[], header, base.idColumn, idIndex, rows))
                  else RowOutOfBounds(n)
    {
      var idMapOfColumnMap: Store := map[];
      base.columnNamesList := header;
      var indexOfId := IndexOf(base.columnNamesList, base.idColumn);
      var i := 0;
      while i < |rows|
        invariant 0 <= i <= |rows|
        invariant base.columnNamesList == header
        invariant AllFit(rows[..i], header, indexOfId)
        invariant idMapOfColumnMap == PutAll(map[], header, base.idColumn, indexOfId, rows[..i])
      {
        var line := rows[i];
        if !(0 <= indexOfId < |line|) || |line| > |header| {
          FitCountAt(rows, header, indexOfId, i);
          return RowOutOfBounds(i);
        }
        var columnMap := base.ParseLine(line, header);
        idMapOfColumnMap := idMapOfColumnMap[line[indexOfId] := columnMap];
        PutAllSnoc(map[], header, base.idColumn, indexOfId, rows, i);
        i := i + 1;
      }
      assert rows[..|rows|] == rows;
      FitCountAll(rows, header, indexOfId);
      return Ok(idMapOfColumnMap);
    }

    /** The header, then one rendered row per record of the store, in the
        store's iteration order, which the model leaves open: `ids` is the
        order chosen, every identifier exactly once. */
    method GenerateCSV(idMapOfColumnMap: Store, columnNamesList: seq<string>)
      returns (rows: seq<seq<string>>, ghost ids: seq<string>)
      ensures NoDup(ids) && |ids| == |idMapOfColumnMap|
      ensures forall id :: id in ids <==> id in idMapOfColumnMap
      ensures |rows| == |idMapOfColumnMap| + 1 && rows[0] == columnNamesList
      ensures forall i :: 0 <= i < |ids| ==>
        rows[i + 1] == RenderRow(columnNamesList, idMapOfColumnMap[ids[i]], ids[i], base.idColumn, base.emptyCell)
    {
      rows := [columnNamesList];
      ids := [];
      var remaining := idMapOfColumnMap.Keys;
      while remaining != {}
        invariant remaining <= idMapOfColumnMap.Keys
        invariant NoDup(ids) && |ids| + |remaining| == |idMapOfColumnMap|
        invariant forall id :: id in ids <==> id in idMapOfColumnMap && id !in remaining
        invariant |rows| == |ids| + 1 && rows[0] == columnNamesList
        invariant forall i :: 0 <= i < |ids| ==>
          rows[i + 1] == RenderRow(columnNamesList, idMapOfColumnMap[ids[i]], ids[i], base.idColumn, base.emptyCell)
        decreases |remaining|
      {
        var id :| id in remaining;
        var newLine := GenerateLine(columnNamesList, idMapOfColumnMap[id], id);
        rows := rows + [newLine];
        ids := ids + [id];
        remaining := remaining - {id};
      }
    }

    /** One output row: slot k holds the identifier where the column is the
        identifier column, the record's value where it has the column, and
        the placeholder otherwise. */
    method GenerateLine(columnNamesList: seq<string>, columnMap: Record, id: string) returns (newLine: seq<string>)
      ensures |newLine| == |columnNamesList|
      ensures forall k :: 0 <= k < |columnNamesList| && columnNamesList[k] == base.idColumn ==> newLine[k] == id
      ensures forall k :: (0 <= k < |columnNamesList| && columnNamesList[k] != base.idColumn
        && columnNamesList[k] in columnMap) ==> newLine[k] == columnMap[columnNamesList[k]]
      ensures forall k :: (0 <= k < |columnNamesList| && columnNamesList[k] != base.idColumn
        && columnNamesList[k] !in columnMap) ==> newLine[k] == base.emptyCell
      ensures newLine == RenderRow(columnNamesList, columnMap, id, base.idColumn, base.emptyCell)
    {
      newLine := [];
      for i := 0 to |columnNamesList|
        invariant |newLine| == i
        invariant forall k :: 0 <= k < i ==>
          newLine[k] == Cell(columnNamesList[k], columnMap, id, base.idColumn, base.emptyCell)
      {
        var uniqueColumn := columnNamesList[i];
        if uniqueColumn == base.idColumn {
          newLine := newLine + [id];
        } else if uniqueColumn in columnMap {
          newLine := newLine + [columnMap[uniqueColumn]];
        } else {
          newLine := newLine + [base.emptyCell];
        }
      }
    }
  }
}
