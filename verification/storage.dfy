/** The two data tables of backend/src/database.ts as maps from id to row.
    The write primitives behave like single SQLite statements: an INSERT or
    UPDATE whose row breaks a CHECK constraint, or an INSERT that repeats a
    primary key, throws and leaves the table as it was; UPDATE and DELETE
    report how many rows they changed. */
module Storage {
  import opened Common
  import opened Text
  import opened Errors

  /** A row of `transactions`, without its `id` key. `description` and
      `source` are nullable columns; the timestamps are the
      `CURRENT_TIMESTAMP` defaults and the trigger's stamp. */
  datatype TransactionRow = TransactionRow(
    kind: Kind,
    category: string,
    amount: real,
    description: Option<string>,
    date: Instant,
    source: Option<string>,
    createdAt: Instant,
    updatedAt: Instant)

  /** The CHECK constraints of `transactions` (the `type` constraint is the
      `Kind` type itself). A NULL column satisfies its CHECK. */
  predicate TransactionRowOk(r: TransactionRow)
  {
    && |r.category| <= 50
    && 0.0 < r.amount <= MaxAmount
    && (r.description.Some? ==> |r.description.value| <= 500)
    && (r.source.Some? ==> |r.source.value| <= 100)
  }

  /** A row of `goals`, without its `id` key. `notes` is the nullable column
      migration 2 adds. */
  datatype GoalRow = GoalRow(
    name: string,
    targetAmount: real,
    currentAmount: real,
    deadline: Instant,
    color: string,
    notes: Option<string>,
    createdAt: Instant,
    updatedAt: Instant)

  /** The CHECK constraints of `goals`, including the `notes` length cap. The
      colour GLOB admits exactly `#` and six hex digits. */
  predicate GoalRowOk(g: GoalRow)
  {
    && |g.name| <= 100
    && 0.0 < g.targetAmount <= MaxAmount
    && 0.0 <= g.currentAmount <= MaxAmount
    && IsHexColor(g.color)
    && (g.notes.Some? ==> |g.notes.value| <= 1000)
  }

  /** What a write statement did: the table afterwards and `result.changes`,
      or the error it threw. */
  datatype Write<R> = Wrote(table: map<Id, R>, changes: nat) | Failed(error: Error)

  /** Every row of `t` satisfies `ok`. */
  predicate AllRows<R>(t: map<Id, R>, ok: R -> bool)
  {
    forall k :: k in t ==> ok(t[k])
  }

  function UniqueViolation(name: string): Error
  {
    PlainError("UNIQUE constraint failed: " + name + ".id")
  }

  function CheckViolation(name: string): Error
  {
    PlainError("CHECK constraint failed: " + name)
  }

  /** `INSERT INTO name (...) VALUES (...)` under the table's CHECK `ok`. */
  function Insert<R>(name: string, t: map<Id, R>, id: Id, row: R, ok: R -> bool): (w: Write<R>)
    ensures w.Failed? <==> id in t || !ok(row)
    ensures w.Wrote? ==> && w.changes == 1
                         && w.table.Keys == t.Keys + {id}
                         && w.table[id] == row
                         && forall k :: k in t ==> w.table[k] == t[k]
  {
    if id in t then Failed(UniqueViolation(name))
    else if !ok(row) then Failed(CheckViolation(name))
    else Wrote(t[id := row], 1)
  }

  /** `UPDATE name SET ... WHERE id = ?`: `change` rewrites the matching row;
      no matching row means zero changes. */
  function Update<R>(name: string, t: map<Id, R>, id: Id, change: R -> R, ok: R -> bool): (w: Write<R>)
    ensures id !in t ==> w == Wrote(t, 0)
    ensures id in t ==> (w.Failed? <==> !ok(change(t[id])))
    ensures w.Wrote? && id in t ==> && w.changes == 1
                                    && w.table.Keys == t.Keys
                                    && w.table[id] == change(t[id])
                                    && forall k :: k in t && k != id ==> w.table[k] == t[k]
  {
    if id !in t then Wrote(t, 0)
    else if !ok(change(t[id])) then Failed(CheckViolation(name))
    else Wrote(t[id := change(t[id])], 1)
  }

  /** `DELETE FROM name WHERE id = ?`. */
  function Delete<R>(t: map<Id, R>, id: Id): (w: Write<R>)
    ensures w.Wrote?
    ensures w.changes == (if id in t then 1 else 0)
    ensures w.table.Keys == t.Keys - {id}
    ensures forall k :: k in w.table ==> w.table[k] == t[k]
  {
    Wrote(t - {id}, if id in t then 1 else 0)
  }

  /** The CHECK constraints are a table invariant: no write breaks them. */
  lemma WritesKeepRowsOk<R>(name: string, t: map<Id, R>, id: Id, row: R, change: R -> R, ok: R -> bool)
    requires AllRows(t, ok)
    ensures Insert(name, t, id, row, ok).Wrote? ==> AllRows(Insert(name, t, id, row, ok).table, ok)
    ensures Update(name, t, id, change, ok).Wrote? ==> AllRows(Update(name, t, id, change, ok).table, ok)
    ensures AllRows(Delete(t, id).table, ok)
  {
  }

  /** `scan` lists every key of `t` exactly once: the order in which SQLite
      reads the table before any ORDER BY. */
  predicate Enumerates<R>(scan: seq<Id>, t: map<Id, R>)
  {
    && (forall i, j :: 0 <= i < j < |scan| ==> scan[i] != scan[j])
    && (forall k :: k in t ==> k in scan)
    && (forall i :: 0 <= i < |scan| ==> scan[i] in t)
  }

  /** Some scan order always exists. */
  method Scan<R>(t: map<Id, R>) returns (scan: seq<Id>)
    ensures Enumerates(scan, t)
  {
    scan := [];
    var rest := t.Keys;
    while rest != {}
      invariant forall i, j :: 0 <= i < j < |scan| ==> scan[i] != scan[j]
      invariant forall k :: k in t <==> k in scan || k in rest
      invariant forall k :: k in rest ==> k !in scan
      decreases rest
    {
      var k :| k in rest;
      scan := scan + [k];
      rest := rest - {k};
    }
  }

  /** A scan has as many entries as the table has rows. */
  lemma {:induction false} ScanCoversTable<R>(scan: seq<Id>, t: map<Id, R>)
    requires Enumerates(scan, t)
    ensures |scan| == |t|
  {
    if scan == [] {
      assert t.Keys == {};
    } else {
      var k := scan[0];
      var rest := t - {k};
      EnumeratesRest(scan, t);
      ScanCoversTable(scan[1..], rest);
      assert t.Keys == rest.Keys + {k} && k !in rest.Keys;
      assert |t.Keys| == |rest.Keys| + 1;
    }
  }

  /** Dropping the first id of a scan enumerates the table without that row. */
  lemma EnumeratesRest<R>(scan: seq<Id>, t: map<Id, R>)
    requires Enumerates(scan, t) && scan != []
    ensures Enumerates(scan[1..], t - {scan[0]})
  {
    var tail := scan[1..];
    var rest := t - {scan[0]};
    assert forall i :: 0 <= i < |tail| ==> tail[i] == scan[i + 1];
    forall k | k in rest
      ensures k in tail
    {
      var i :| 0 <= i < |scan| && scan[i] == k;
      assert i != 0;
      assert tail[i - 1] == k;
    }
  }

}
