/**
 `runSync`: fetch, drop what the ledger already holds, classify the rest,
 append them in one batch, then refresh the cash cell. The ledger's id set
 is read once, before the loop, and is not updated while the batch grows.
 */
module Sync {
  import opened Records
  import opened MappingRules
  import opened Ledger
  import opened Fetch
  import opened Balance

  /** The row built for a transaction not yet in the ledger: `[dated_on, description, amount, category, department, id]`. */
  function RowFor(tx: Tx, rules: Rules): LedgerRow {
    var c := Classify(tx.description, tx.categoryName, rules);
    LedgerRow(tx.datedOn, tx.description, tx.amount, c.category, c.department, tx.id)
  }

  /** The transaction is classified by a keyword rule. */
  predicate IsAutoClassified(tx: Tx, rules: Rules) {
    Classify(tx.description, tx.categoryName, rules).isKeywordMatch
  }

  /** The rows accumulated by the loop, and `autoClassifiedCount`. */
  datatype Batch = Batch(rows: seq<LedgerRow>, autoClassified: nat)

  /**
   The `transactions.forEach` of `runSync`: a transaction whose id is in
   `existing` adds nothing; every other one adds its classified row, in
   fetch order, and counts once if a keyword rule classified it.
   */
  function NewRows(txs: seq<Tx>, rules: Rules, existing: set<string>): (b: Batch)
    ensures |b.rows| <= |txs|
    ensures b.autoClassified <= |b.rows|
    ensures forall k :: 0 <= k < |b.rows| ==> b.rows[k].id !in existing
    ensures forall i :: 0 <= i < |txs| && txs[i].id !in existing ==> RowFor(txs[i], rules) in b.rows
    ensures b.rows == [] <==> forall i :: 0 <= i < |txs| ==> txs[i].id in existing
    decreases |txs|
  {
    if |txs| == 0 then Batch([], 0)
    else
      var init := txs[..|txs| - 1];
      var tx := txs[|txs| - 1];
      var before := NewRows(init, rules, existing);
      assert forall i :: 0 <= i < |init| ==> txs[i] == init[i];
      if tx.id in existing then before
      else
        var auto := if IsAutoClassified(tx, rules) then 1 else 0;
        Batch(before.rows + [RowFor(tx, rules)], before.autoClassified + auto)
  }

  /** The transactions whose ids are not in `existing`, in fetch order. */
  function Fresh(txs: seq<Tx>, existing: set<string>): seq<Tx>
    decreases |txs|
  {
    if |txs| == 0 then []
    else
      var init := Fresh(txs[..|txs| - 1], existing);
      if txs[|txs| - 1].id in existing then init else init + [txs[|txs| - 1]]
  }

  /** A transaction survives the filter exactly when it was fetched and its id is new. */
  lemma {:induction false} FreshMembers(txs: seq<Tx>, existing: set<string>, t: Tx)
    ensures t in Fresh(txs, existing) <==> t in txs && t.id !in existing
    decreases |txs|
  {
    if |txs| > 0 {
      var init := txs[..|txs| - 1];
      FreshMembers(init, existing, t);
      assert txs == init + [txs[|txs| - 1]];
    }
  }

  /** Filtering keeps relative order: the filter of two runs is the two filters, in order. */
  lemma {:induction false} FreshAppend(a: seq<Tx>, b: seq<Tx>, existing: set<string>)
    ensures Fresh(a + b, existing) == Fresh(a, existing) + Fresh(b, existing)
    decreases |b|
  {
    if |b| == 0 {
      assert a + b == a;
    } else {
      var b' := b[..|b| - 1];
      assert (a + b)[..|a + b| - 1] == a + b';
      assert (a + b)[|a + b| - 1] == b[|b| - 1];
      FreshAppend(a, b', existing);
      var fa := Fresh(a, existing);
      var fb := Fresh(b', existing);
      assert (fa + fb) + [b[|b| - 1]] == fa + (fb + [b[|b| - 1]]);
    }
  }

  /** The classified rows of `txs`, one per transaction, in order. */
  function RowsFor(txs: seq<Tx>, rules: Rules): seq<LedgerRow> {
    seq(|txs|, k requires 0 <= k < |txs| => RowFor(txs[k], rules))
  }

  /** How many of `txs` a keyword rule classifies. */
  function AutoCount(txs: seq<Tx>, rules: Rules): nat
    decreases |txs|
  {
    if |txs| == 0 then 0
    else AutoCount(txs[..|txs| - 1], rules) + (if IsAutoClassified(txs[|txs| - 1], rules) then 1 else 0)
  }

  /**
   The loop against a two-stage reference: filter out the known ids, then
   classify what is left. The rows are the classified survivors, in order,
   and the auto-classified count counts the survivors a keyword rule matched.
   */
  lemma {:induction false} NewRowsIsFilterThenClassify(txs: seq<Tx>, rules: Rules, existing: set<string>)
    ensures NewRows(txs, rules, existing)
      == Batch(RowsFor(Fresh(txs, existing), rules), AutoCount(Fresh(txs, existing), rules))
    decreases |txs|
  {
    if |txs| > 0 {
      var init := txs[..|txs| - 1];
      var tx := txs[|txs| - 1];
      NewRowsIsFilterThenClassify(init, rules, existing);
      var f := Fresh(init, existing);
      if tx.id !in existing {
        RowsForSnoc(f, tx, rules);
        AutoCountSnoc(f, tx, rules);
      }
    }
  }

  /** Classifying one more transaction appends its row. */
  lemma RowsForSnoc(txs: seq<Tx>, tx: Tx, rules: Rules)
    ensures RowsFor(txs + [tx], rules) == RowsFor(txs, rules) + [RowFor(tx, rules)]
  {
  }

  /** One more transaction counts once more exactly when a keyword rule classifies it. */
  lemma AutoCountSnoc(txs: seq<Tx>, tx: Tx, rules: Rules)
    ensures AutoCount(txs + [tx], rules) == AutoCount(txs, rules) + (if IsAutoClassified(tx, rules) then 1 else 0)
  {
  }

  /** Every row of the batch is the classified row of some fetched transaction whose id is new. */
  lemma {:induction false} NewRowsComeFromFetched(txs: seq<Tx>, rules: Rules, existing: set<string>, k: nat)
    requires k < |NewRows(txs, rules, existing).rows|
    ensures exists i :: (0 <= i < |txs| && txs[i].id !in existing
      && NewRows(txs, rules, existing).rows[k] == RowFor(txs[i], rules))
    decreases |txs|
  {
    var init := txs[..|txs| - 1];
    var before := NewRows(init, rules, existing);
    if k < |before.rows| {
      NewRowsComeFromFetched(init, rules, existing, k);
      var i :| 0 <= i < |init| && init[i].id !in existing && before.rows[k] == RowFor(init[i], rules);
      assert txs[i] == init[i];
    } else {
      assert NewRows(txs, rules, existing).rows[k] == RowFor(txs[|txs| - 1], rules);
    }
  }

  /** When the fetched ids are pairwise distinct, so are the ids of the batch. */
  lemma {:induction false} NewRowsDistinct(txs: seq<Tx>, rules: Rules, existing: set<string>)
    requires forall i, j :: 0 <= i < j < |txs| ==> txs[i].id != txs[j].id
    ensures forall k, m :: 0 <= k < m < |NewRows(txs, rules, existing).rows| ==>
      NewRows(txs, rules, existing).rows[k].id != NewRows(txs, rules, existing).rows[m].id
    decreases |txs|
  {
    if |txs| > 0 {
      var init := txs[..|txs| - 1];
      var tx := txs[|txs| - 1];
      var before := NewRows(init, rules, existing).rows;
      NewRowsDistinct(init, rules, existing);
      if tx.id !in existing {
        forall k | 0 <= k < |before| ensures before[k].id != tx.id {
          NewRowsComeFromFetched(init, rules, existing, k);
          var i :| 0 <= i < |init| && init[i].id !in existing && before[k] == RowFor(init[i], rules);
          assert init[i] == txs[i];
        }
      }
    }
  }

  /** What one sync pass leaves behind: the ledger tab, rows added, rows auto-classified. */
  datatype SyncOutcome = SyncOutcome(ledger: Sheet, added: nat, autoClassified: nat)

  /**
   The body of `runSync` once the transactions are fetched. With nothing
   fetched the ledger is not read or written. Otherwise the rules are parsed,
   the ledger's ids read once, and the new rows appended in one batch below
   the old ones, which stay as they were.
   */
  function Process(fetched: seq<Tx>, mapping: Sheet, ledger: Sheet): (o: SyncOutcome)
    ensures |fetched| == 0 ==> o == SyncOutcome(ledger, 0, 0)
    ensures o.autoClassified <= o.added <= |fetched|
    ensures |o.ledger| == |ledger| + o.added && o.ledger[..|ledger|] == ledger
    ensures forall k :: |ledger| <= k < |o.ledger| ==> IdCell(o.ledger[k]) !in ExistingIds(ledger)
    ensures o.added == 0 <==> forall i :: 0 <= i < |fetched| ==> fetched[i].id in ExistingIds(ledger)
  {
    if |fetched| == 0 then SyncOutcome(ledger, 0, 0)
    else
      var batch := NewRows(fetched, ParseRules(mapping), ExistingIds(ledger));
      var after := Append(ledger, batch.rows);
      assert forall k :: |ledger| <= k < |after| ==> IdCell(after[k]) == batch.rows[k - |ledger|].id;
      SyncOutcome(after, |batch.rows|, batch.autoClassified)
  }

  /** Every fetched transaction whose id is new gets its classified row appended. */
  lemma EveryNewTransactionIsAppended(fetched: seq<Tx>, mapping: Sheet, ledger: Sheet, i: nat)
    requires i < |fetched| && fetched[i].id !in ExistingIds(ledger)
    ensures var o := Process(fetched, mapping, ledger);
      exists k :: |ledger| <= k < |o.ledger| && o.ledger[k] == RowFor(fetched[i], ParseRules(mapping)).Cells()
  {
    var rules := ParseRules(mapping);
    var batch := NewRows(fetched, rules, ExistingIds(ledger));
    var m :| 0 <= m < |batch.rows| && batch.rows[m] == RowFor(fetched[i], rules);
    assert Process(fetched, mapping, ledger).ledger[|ledger| + m] == batch.rows[m].Cells();
  }

  /**
   Idempotence: below a header row, and with no empty ids, running the pass
   again on the same transactions against the updated ledger adds nothing
   and writes nothing.
   */
  lemma SecondPassAddsNothing(fetched: seq<Tx>, mapping: Sheet, ledger: Sheet)
    requires |ledger| >= 1
    requires forall i :: 0 <= i < |fetched| ==> fetched[i].id != ""
    ensures var first := Process(fetched, mapping, ledger);
      Process(fetched, mapping, first.ledger) == SyncOutcome(first.ledger, 0, 0)
  {
    var first := Process(fetched, mapping, ledger);
    if |fetched| > 0 {
      var rules := ParseRules(mapping);
      var batch := NewRows(fetched, rules, ExistingIds(ledger));
      ExistingIdsAfterAppend(ledger, batch.rows);
      forall i | 0 <= i < |fetched| ensures fetched[i].id in ExistingIds(first.ledger) {
        if fetched[i].id !in ExistingIds(ledger) {
          var m :| 0 <= m < |batch.rows| && batch.rows[m] == RowFor(fetched[i], rules);
          assert batch.rows[m].id == fetched[i].id;
        }
      }
      var again := NewRows(fetched, rules, ExistingIds(first.ledger));
      assert again.rows == [];
    }
  }

  /**
   The dedup invariant: when no two data rows of the ledger share a
   non-empty id, none do after a pass, provided the fetched ids are
   pairwise distinct.
   */
  lemma PassKeepsIdsUnique(fetched: seq<Tx>, mapping: Sheet, ledger: Sheet)
    requires UniqueIds(ledger)
    requires forall i, j :: 0 <= i < j < |fetched| ==> fetched[i].id != fetched[j].id
    ensures UniqueIds(Process(fetched, mapping, ledger).ledger)
  {
    if |fetched| > 0 {
      var existing := ExistingIds(ledger);
      var rules := ParseRules(mapping);
      NewRowsDistinct(fetched, rules, existing);
      AppendKeepsIdsUnique(ledger, NewRows(fetched, rules, existing).rows);
    }
  }

  /**
   The ids are read once, so a transaction fetched twice in one pass is
   appended twice: below a bare header the ledger then repeats an id.
   */
  lemma RepeatedFetchIsAppendedTwice(t: Tx, mapping: Sheet, header: seq<string>)
    requires t.id != ""
    ensures var o := Process([t, t], mapping, [header]);
      o.added == 2 && !UniqueIds(o.ledger)
  {
    var rules := ParseRules(mapping);
    var batch := NewRows([t, t], rules, {});
    assert [t, t][..1] == [t];
    assert NewRows([t], rules, {}).rows == [RowFor(t, rules)];
    var o := Process([t, t], mapping, [header]);
    assert IdCell(o.ledger[1]) == t.id && IdCell(o.ledger[2]) == t.id;
  }

  /**
   A ledger tab without a header row: the first appended row lands in row 1,
   which the id read skips, so the next pass appends the same transaction again.
   */
  lemma HeaderlessLedgerRepeatsRows(t: Tx, mapping: Sheet)
    ensures var first := Process([t], mapping, []);
      first.added == 1 && Process([t], mapping, first.ledger).added == 1
  {
  }

  /**
   A transaction whose id is empty (its url ends in a slash) is never found
   among the existing ids, so every pass appends it again.
   */
  lemma EmptyIdIsAlwaysAppended(t: Tx, mapping: Sheet, ledger: Sheet)
    requires t.id == ""
    ensures Process([t], mapping, ledger).added == 1
  {
  }
}
