/**
 The Raw_Data tab as a ledger: row 1 is a header, every row below it holds
 a transaction id in column 6. The sync reads the id column once and then
 writes new rows below the last row in one batch.
 */
module Ledger {
  import opened Records

  /** The id cell of a ledger row. */
  function IdCell(row: seq<string>): string {
    CellAt(row, IdColumn)
  }

  /** The non-empty id cells of `rows` (`if (row[0]) ids.add(String(row[0]))`). */
  function IdsOf(rows: Sheet): (ids: set<string>)
    ensures "" !in ids
    decreases |rows|
  {
    if |rows| == 0 then {}
    else
      var id := IdCell(rows[|rows| - 1]);
      IdsOf(rows[..|rows| - 1]) + (if id != "" then {id} else {})
  }

  /** An id is collected exactly when some row carries it and it is not empty. */
  lemma {:induction false} IdsOfSpec(rows: Sheet, id: string)
    ensures id in IdsOf(rows) <==> id != "" && exists i :: 0 <= i < |rows| && IdCell(rows[i]) == id
    decreases |rows|
  {
    if |rows| > 0 {
      var init := rows[..|rows| - 1];
      IdsOfSpec(init, id);
      if exists i :: 0 <= i < |init| && IdCell(init[i]) == id {
        var i :| 0 <= i < |init| && IdCell(init[i]) == id;
        assert rows[i] == init[i];
      }
      if exists i :: 0 <= i < |rows| && IdCell(rows[i]) == id {
        var i :| 0 <= i < |rows| && IdCell(rows[i]) == id;
        if i < |init| { assert init[i] == rows[i]; }
      }
    }
  }

  /** Collecting ids distributes over a split of the rows. */
  lemma {:induction false} IdsOfAppend(a: Sheet, b: Sheet)
    ensures IdsOf(a + b) == IdsOf(a) + IdsOf(b)
    decreases |b|
  {
    if |b| == 0 {
      assert a + b == a;
    } else {
      assert (a + b)[..|a + b| - 1] == a + b[..|b| - 1];
      assert (a + b)[|a + b| - 1] == b[|b| - 1];
      IdsOfAppend(a, b[..|b| - 1]);
    }
  }

  /**
   `getExistingIds`: nothing when the tab has fewer than two rows, otherwise
   the non-empty id cells of rows 2 to the last row.
   */
  function ExistingIds(sheet: Sheet): (ids: set<string>)
    ensures |sheet| < 2 ==> ids == {}
    ensures "" !in ids
    ensures forall i :: 1 <= i < |sheet| && IdCell(sheet[i]) != "" ==> IdCell(sheet[i]) in ids
    ensures forall id :: id in ids ==> exists i :: 1 <= i < |sheet| && IdCell(sheet[i]) == id
  {
    if |sheet| < 2 then {}
    else
      var data := sheet[1..];
      assert forall i :: 1 <= i < |sheet| ==> sheet[i] == data[i - 1];
      forall i | 1 <= i < |sheet| && IdCell(sheet[i]) != ""
        ensures IdCell(sheet[i]) in IdsOf(data)
      {
        IdsOfSpec(data, IdCell(sheet[i]));
      }
      forall id | id in IdsOf(data)
        ensures exists i :: 1 <= i < |sheet| && IdCell(sheet[i]) == id
      {
        IdsOfSpec(data, id);
        var j :| 0 <= j < |data| && IdCell(data[j]) == id;
        assert sheet[j + 1] == data[j];
      }
      IdsOf(data)
  }

  /** The cells written for a batch of ledger rows, one sheet row per ledger row. */
  function CellsOf(rows: seq<LedgerRow>): (cells: Sheet)
    ensures |cells| == |rows|
    ensures forall k :: 0 <= k < |rows| ==> cells[k] == rows[k].Cells()
  {
    seq(|rows|, k requires 0 <= k < |rows| => rows[k].Cells())
  }

  /**
   The batched `setValues` below the last row: append-only. Earlier rows are
   kept as they were, the new rows follow in order, and an empty batch
   writes nothing.
   */
  function Append(sheet: Sheet, rows: seq<LedgerRow>): (s: Sheet)
    ensures |rows| == 0 ==> s == sheet
    ensures |s| == |sheet| + |rows| && s[..|sheet|] == sheet
    ensures forall k :: 0 <= k < |rows| ==> s[|sheet| + k] == rows[k].Cells()
  {
    if |rows| == 0 then sheet else sheet + CellsOf(rows)
  }

  /** The non-empty ids of a batch of rows. */
  function BatchIds(rows: seq<LedgerRow>): set<string> {
    set k | 0 <= k < |rows| && rows[k].id != "" :: rows[k].id
  }

  /**
   Below an existing header row, an append adds exactly the batch's
   non-empty ids to what the next sync will read back.
   */
  lemma ExistingIdsAfterAppend(sheet: Sheet, rows: seq<LedgerRow>)
    requires |sheet| >= 1
    ensures ExistingIds(Append(sheet, rows)) == ExistingIds(sheet) + BatchIds(rows)
  {
    var cells := CellsOf(rows);
    var after := Append(sheet, rows);
    if |rows| > 0 {
      assert after[1..] == sheet[1..] + cells;
      IdsOfAppend(sheet[1..], cells);
      forall id ensures id in IdsOf(cells) <==> id in BatchIds(rows) {
        IdsOfSpec(cells, id);
        if id in BatchIds(rows) {
          var k :| 0 <= k < |rows| && rows[k].id != "" && rows[k].id == id;
          assert IdCell(cells[k]) == id;
        }
      }
    }
  }

  /** No two data rows (below the header) carry the same non-empty id. */
  ghost predicate UniqueIds(sheet: Sheet) {
    forall i, j :: 1 <= i < j < |sheet| && IdCell(sheet[i]) != "" ==> IdCell(sheet[i]) != IdCell(sheet[j])
  }

  /**
   Appending rows whose ids are pairwise distinct and absent from what the
   ledger already holds keeps no two data rows sharing a non-empty id.
   */
  lemma AppendKeepsIdsUnique(sheet: Sheet, rows: seq<LedgerRow>)
    requires UniqueIds(sheet)
    requires forall k :: 0 <= k < |rows| ==> rows[k].id !in ExistingIds(sheet)
    requires forall k, m :: 0 <= k < m < |rows| ==> rows[k].id != rows[m].id
    ensures UniqueIds(Append(sheet, rows))
  {
  }
}
