/**
 * Records and record stores, shared by RecordMerger and the helper classes.
 *
 * A record is the column-name-to-cell map that `parseLine` builds from one
 * data row; a store maps each record identifier to its record. Filling a store
 * is a loop of `Map.put(row[indexOfId], parseLine(row, header))`, so a later
 * row with the same identifier replaces the earlier record as a whole. Rendering
 * a record against a list of column names gives one output row.
 */
module Records {
  import opened Columns
  import opened SeqFacts

  type Record = map<string, string>
  type Store = map<string, Record>

  /** The outcome of reading a table. The put loop fails with an
      ArrayIndexOutOfBoundsException at the first data row it cannot index;
      `row` is that row's position among the data rows (0 is the first row
      after the header). */
  datatype Result<T> = Ok(value: T) | RowOutOfBounds(row: nat)

  /** A data row the put loop handles without an exception: the identifier cell
      exists (so the header has the identifier column and the row reaches it),
      and every cell has a column name. */
  predicate RowFits(row: seq<string>, columns: seq<string>, idIndex: int)
  {
    0 <= idIndex < |row| <= |columns|
  }

  predicate AllFit(rows: seq<seq<string>>, columns: seq<string>, idIndex: int)
  {
    && (|rows| > 0 ==> 0 <= idIndex)
    && forall j :: 0 <= j < |rows| ==> 0 <= idIndex < |rows[j]| <= |columns|
  }

  // ---------------------------------------------------------------------------
  // parseLine

  /** The map `parseLine(row, columns)` returns: for i from 0 below |row|, every
      column other than the identifier column is put with row[i]. */
  function RowRecord(row: seq<string>, columns: seq<string>, idColumn: string): (rec: Record)
    requires |row| <= |columns|
    ensures idColumn !in rec
    ensures rec.Keys == set i | 0 <= i < |row| && columns[i] != idColumn :: columns[i]
  {
    if row == [] then map[]
    else
      var n := |row| - 1;
      var rec := RowRecord(row[..n], columns, idColumn);
      if columns[n] == idColumn then rec else rec[columns[n] := row[n]]
  }

  /** A column named twice gets the cell at its last position inside the row. */
  lemma {:induction false} RowRecordLastWins(row: seq<string>, columns: seq<string>, idColumn: string, j: nat)
    requires |row| <= |columns| && j < |row| && columns[j] != idColumn
    requires forall k :: j < k < |row| ==> columns[k] != columns[j]
    ensures columns[j] in RowRecord(row, columns, idColumn)
    ensures RowRecord(row, columns, idColumn)[columns[j]] == row[j]
  {
    if j < |row| - 1 {
      RowRecordLastWins(row[..|row| - 1], columns, idColumn, j);
    }
  }

  // ---------------------------------------------------------------------------
  // The put loop

  /** How many data rows the put loop gets through before the first row it
      cannot index. */
  function FitCount(rows: seq<seq<string>>, columns: seq<string>, idIndex: int): (n: nat)
    ensures n <= |rows|
    ensures AllFit(rows[..n], columns, idIndex)
    ensures n < |rows| ==> !RowFits(rows[n], columns, idIndex)
  {
    if rows == [] || !RowFits(rows[0], columns, idIndex) then 0
    else 1 + FitCount(rows[1..], columns, idIndex)
  }

  /** FitCount is the position of the first row that does not fit. */
  lemma FitCountAt(rows: seq<seq<string>>, columns: seq<string>, idIndex: int, i: nat)
    requires i < |rows| && AllFit(rows[..i], columns, idIndex)
    requires !RowFits(rows[i], columns, idIndex)
    ensures FitCount(rows, columns, idIndex) == i
  {
    var n := FitCount(rows, columns, idIndex);
    forall k | 0 <= k < i ensures RowFits(rows[k], columns, idIndex) {
      assert rows[..i][k] == rows[k];
    }
    forall k | 0 <= k < n ensures RowFits(rows[k], columns, idIndex) {
      assert rows[..n][k] == rows[k];
    }
  }

  /** A header without the identifier column gives index -1, so the put loop
      fails at the first data row, whatever it holds. */
  lemma MissingIdColumn(header: seq<string>, idColumn: string, rows: seq<seq<string>>)
    requires idColumn !in header && |rows| > 0
    ensures IndexOf(header, idColumn) == -1
    ensures FitCount(rows, header, IndexOf(header, idColumn)) == 0
  {
  }

  /** When every row fits, the put loop gets through all of them. */
  lemma FitCountAll(rows: seq<seq<string>>, columns: seq<string>, idIndex: int)
    requires AllFit(rows, columns, idIndex)
    ensures FitCount(rows, columns, idIndex) == |rows|
  {
    assert forall k :: 0 <= k < |rows| ==> RowFits(rows[k], columns, idIndex);
  }

  /** The store after `store.put(row[idIndex], parseLine(row, columns))` for
      every row, in order; idIndex is the header's `indexOf(idColumn)`. */
  function PutAll(store: Store, columns: seq<string>, idColumn: string, idIndex: int, rows: seq<seq<string>>): (r: Store)
    requires AllFit(rows, columns, idIndex)
    ensures r.Keys == store.Keys + Ids(rows, idIndex)
  {
    if |rows| == 0 then store
    else
      var n := |rows| - 1;
      assert AllFit(rows[..n], columns, idIndex);
      IdsSnoc(rows, idIndex);
      PutAll(store, columns, idColumn, idIndex, rows[..n])[rows[n][idIndex] := RowRecord(rows[n], columns, idColumn)]
  }

  /** One more fitting row extends the put loop by one put. */
  lemma PutAllSnoc(store: Store, columns: seq<string>, idColumn: string, idIndex: int, rows: seq<seq<string>>, i: nat)
    requires i < |rows| && AllFit(rows[..i], columns, idIndex) && RowFits(rows[i], columns, idIndex)
    ensures AllFit(rows[..i + 1], columns, idIndex)
    ensures PutAll(store, columns, idColumn, idIndex, rows[..i + 1])
         == PutAll(store, columns, idColumn, idIndex, rows[..i])[rows[i][idIndex] := RowRecord(rows[i], columns, idColumn)]
  {
    assert rows[..i + 1][..i] == rows[..i];
  }

  /** The identifiers of a block of rows. */
  function Ids(rows: seq<seq<string>>, idIndex: int): set<string>
  {
    set j | 0 <= j < |rows| && 0 <= idIndex < |rows[j]| :: rows[j][idIndex]
  }

  /** The identifiers of a non-empty block are those of all but its last row,
      plus the last row's. */
  lemma IdsSnoc(rows: seq<seq<string>>, idIndex: int)
    requires |rows| > 0 && 0 <= idIndex < |rows[|rows| - 1]|
    ensures Ids(rows, idIndex) == Ids(rows[..|rows| - 1], idIndex) + {rows[|rows| - 1][idIndex]}
  {
    var n := |rows| - 1;
    forall x | x in Ids(rows, idIndex) ensures x in Ids(rows[..n], idIndex) + {rows[n][idIndex]} {
      var j :| 0 <= j < |rows| && 0 <= idIndex < |rows[j]| && rows[j][idIndex] == x;
      if j < n {
        assert rows[..n][j] == rows[j];
      }
    }
  }

  /** A put after an overlay is a put into the overlaid map. */
  lemma OverlayThenPut(base: Store, top: Store, id: string, rec: Record)
    ensures (base + top)[id := rec] == base + top[id := rec]
  {
  }

  /** Ingesting rows into a store is the store overlaid with what the same rows
      give from an empty store: earlier entries survive only under identifiers
      the rows do not mention. */
  lemma {:induction false} PutAllOverlay(store: Store, columns: seq<string>, idColumn: string, idIndex: int, rows: seq<seq<string>>)
    requires AllFit(rows, columns, idIndex)
    ensures PutAll(store, columns, idColumn, idIndex, rows) == store + PutAll(map[], columns, idColumn, idIndex, rows)
  {
    if |rows| > 0 {
      var n := |rows| - 1;
      assert AllFit(rows[..n], columns, idIndex);
      PutAllOverlay(store, columns, idColumn, idIndex, rows[..n]);
      var id, rec := rows[n][idIndex], RowRecord(rows[n], columns, idColumn);
      var earlier := PutAll(map[], columns, idColumn, idIndex, rows[..n]);
      OverlayThenPut(store, earlier, id, rec);
    }
  }

  /** The record stored under a row's identifier is parseLine of the LAST row
      with that identifier: the whole earlier record is replaced, not merged
      column by column. */
  lemma {:induction false} PutAllLastWins(store: Store, columns: seq<string>, idColumn: string, idIndex: int, rows: seq<seq<string>>, j: nat)
    requires AllFit(rows, columns, idIndex)
    requires j < |rows|
    requires forall k :: j < k < |rows| ==> rows[k][idIndex] != rows[j][idIndex]
    ensures rows[j][idIndex] in PutAll(store, columns, idColumn, idIndex, rows)
    ensures PutAll(store, columns, idColumn, idIndex, rows)[rows[j][idIndex]] == RowRecord(rows[j], columns, idColumn)
  {
    var n := |rows| - 1;
    if j < n {
      assert AllFit(rows[..n], columns, idIndex);
      PutAllLastWins(store, columns, idColumn, idIndex, rows[..n], j);
    }
  }

  /** Rows whose identifiers are pairwise distinct fill an empty store with
      exactly one record per row: nothing is overwritten. */
  lemma PutAllDistinct(columns: seq<string>, idColumn: string, idIndex: int, rows: seq<seq<string>>, ids: seq<string>)
    requires AllFit(rows, columns, idIndex)
    requires |ids| == |rows| && NoDup(ids)
    requires forall i :: 0 <= i < |rows| ==> rows[i][idIndex] == ids[i]
    ensures PutAll(map[], columns, idColumn, idIndex, rows).Keys == set id | id in ids
    ensures forall i :: 0 <= i < |rows| ==>
      PutAll(map[], columns, idColumn, idIndex, rows)[ids[i]] == RowRecord(rows[i], columns, idColumn)
  {
    forall id | id in Ids(rows, idIndex) ensures id in ids {
      var j :| 0 <= j < |rows| && 0 <= idIndex < |rows[j]| && rows[j][idIndex] == id;
      assert ids[j] == id;
    }
    forall id | id in ids ensures id in Ids(rows, idIndex) {
      var j :| 0 <= j < |ids| && ids[j] == id;
      assert rows[j][idIndex] == id;
    }
    forall i | 0 <= i < |rows|
      ensures PutAll(map[], columns, idColumn, idIndex, rows)[ids[i]] == RowRecord(rows[i], columns, idColumn)
    {
      PutAllLastWins(map[], columns, idColumn, idIndex, rows, i);
    }
  }

  /** Identifiers the rows do not mention keep their records. */
  lemma PutAllKeepsOthers(store: Store, columns: seq<string>, idColumn: string, idIndex: int, rows: seq<seq<string>>, id: string)
    requires AllFit(rows, columns, idIndex)
    requires id in store && id !in Ids(rows, idIndex)
    ensures id in PutAll(store, columns, idColumn, idIndex, rows)
    ensures PutAll(store, columns, idColumn, idIndex, rows)[id] == store[id]
  {
    PutAllOverlay(store, columns, idColumn, idIndex, rows);
  }

  /** Ingesting the same rows a second time changes nothing. */
  lemma PutAllTwice(store: Store, columns: seq<string>, idColumn: string, idIndex: int, rows: seq<seq<string>>)
    requires AllFit(rows, columns, idIndex)
    ensures PutAll(PutAll(store, columns, idColumn, idIndex, rows), columns, idColumn, idIndex, rows)
         == PutAll(store, columns, idColumn, idIndex, rows)
  {
    var once := PutAll(store, columns, idColumn, idIndex, rows);
    var incoming := PutAll(map[], columns, idColumn, idIndex, rows);
    PutAllOverlay(store, columns, idColumn, idIndex, rows);
    PutAllOverlay(once, columns, idColumn, idIndex, rows);
    assert (store + incoming) + incoming == store + incoming;
  }

  // ---------------------------------------------------------------------------
  // generateLine

  /** One output cell: the identifier in the identifier column, the record's
      value where it has the column, the placeholder otherwise. */
  function Cell(column: string, rec: Record, id: string, idColumn: string, emptyCell: string): (c: string)
    ensures c == id || c == emptyCell || c in rec.Values
    ensures column != idColumn ==> c == Padded([column], rec, idColumn, emptyCell)[column]
  {
    if column == idColumn then id
    else if column in rec then rec[column]
    else emptyCell
  }

  /** The list `generateLine` returns for one record. */
  function RenderRow(schema: seq<string>, rec: Record, id: string, idColumn: string, emptyCell: string): (row: seq<string>)
    ensures |row| == |schema|
  {
    seq(|schema|, k requires 0 <= k < |schema| => Cell(schema[k], rec, id, idColumn, emptyCell))
  }

  /** A record completed to every column of the schema (other than the
      identifier column), absent columns holding the placeholder. */
  function Padded(schema: seq<string>, rec: Record, idColumn: string, emptyCell: string): Record
  {
    map c | c in schema && c != idColumn :: if c in rec then rec[c] else emptyCell
  }

  lemma {:induction false} RenderPrefixThenParse(schema: seq<string>, rec: Record, id: string, idColumn: string, emptyCell: string, n: nat)
    requires n <= |schema|
    ensures RowRecord(RenderRow(schema, rec, id, idColumn, emptyCell)[..n], schema, idColumn)
         == Padded(schema[..n], rec, idColumn, emptyCell)
  {
    var row := RenderRow(schema, rec, id, idColumn, emptyCell);
    if n == 0 {
      assert Padded(schema[..0], rec, idColumn, emptyCell) == map[];
    } else {
      RenderPrefixThenParse(schema, rec, id, idColumn, emptyCell, n - 1);
      TakeTake(row, n - 1, n);
      TakeSnoc(schema, n - 1);
    }
  }

  /** Parsing a rendered row against the same column list gives back the record,
      restricted and padded to those columns; the identifier sits at the first
      position of the identifier column. */
  lemma RenderThenParse(schema: seq<string>, rec: Record, id: string, idColumn: string, emptyCell: string)
    ensures RowRecord(RenderRow(schema, rec, id, idColumn, emptyCell), schema, idColumn)
         == Padded(schema, rec, idColumn, emptyCell)
    ensures IndexOf(schema, idColumn) >= 0 ==>
      RenderRow(schema, rec, id, idColumn, emptyCell)[IndexOf(schema, idColumn)] == id
  {
    var row := RenderRow(schema, rec, id, idColumn, emptyCell);
    RenderPrefixThenParse(schema, rec, id, idColumn, emptyCell, |schema|);
    assert row[..|schema|] == row;
    assert schema[..|schema|] == schema;
  }

  /** Rendering every record of a store, in any order that lists each
      identifier once, and reading the rows back against the same column list
      (which has the identifier column) gives the store back, each record
      restricted and padded to those columns. */
  lemma ParseRendered(schema: seq<string>, idColumn: string, emptyCell: string, idMap: Store,
                      ids: seq<string>, rows: seq<seq<string>>)
    requires idColumn in schema
    requires NoDup(ids) && forall id :: id in ids <==> id in idMap
    requires |rows| == |ids|
    requires forall i :: 0 <= i < |ids| ==> rows[i] == RenderRow(schema, idMap[ids[i]], ids[i], idColumn, emptyCell)
    ensures AllFit(rows, schema, IndexOf(schema, idColumn))
    ensures var back := PutAll(map[], schema, idColumn, IndexOf(schema, idColumn), rows);
      && back.Keys == idMap.Keys
      && forall id :: id in idMap ==> back[id] == Padded(schema, idMap[id], idColumn, emptyCell)
  {
    var k := IndexOf(schema, idColumn);
    forall i | 0 <= i < |ids|
      ensures rows[i][k] == ids[i]
      ensures RowRecord(rows[i], schema, idColumn) == Padded(schema, idMap[ids[i]], idColumn, emptyCell)
    {
      RenderThenParse(schema, idMap[ids[i]], ids[i], idColumn, emptyCell);
    }
    PutAllDistinct(schema, idColumn, k, rows, ids);
  }
}
