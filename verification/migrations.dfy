/** Schema versioning of backend/src/database.ts: a `migrations` ledger of
    applied versions (its primary key), two migrations guarded by the
    ledger's maximum, and `initDatabase`, which rethrows whatever a step
    throws. Each migration's statements run one by one, so a failure keeps
    what the earlier statements already did. */
module Migrations {
  import opened Common
  import opened Errors

  /** `CURRENT_DB_VERSION`. */
  const CurrentVersion: nat := 2

  /** The parts of the database the migrations touch: the ledger in
      insertion order, whether each data table exists, and whether `goals`
      has its `notes` column. */
  datatype Schema = Schema(ledger: seq<nat>, hasTransactions: bool, hasGoals: bool, hasNotes: bool)

  /** The state after a step, with the error it threw if any. */
  datatype Run = Run(schema: Schema, failure: Option<Error>)

  predicate NoDuplicates(s: seq<nat>)
  {
    forall i, j :: 0 <= i < j < |s| ==> s[i] != s[j]
  }

  /** `SELECT MAX(version)` read through `|| 0`: the largest applied version,
      0 for an empty ledger. */
  function Version(ledger: seq<nat>): (v: nat)
    ensures forall i :: 0 <= i < |ledger| ==> ledger[i] <= v
    ensures ledger == [] ==> v == 0
    ensures ledger != [] ==> v in ledger
  {
    if ledger == [] then 0
    else
      var rest := Version(ledger[1..]);
      assert forall i :: 1 <= i < |ledger| ==> ledger[i] == ledger[1..][i - 1];
      if ledger[0] >= rest then ledger[0] else rest
  }

  /** `INSERT INTO migrations (version) VALUES (k)`: the primary key refuses
      a version already recorded. */
  function Record(s: Schema, k: nat): (r: Run)
    ensures r.failure.None? <==> k !in s.ledger
    ensures r.failure.None? ==> r.schema == s.(ledger := s.ledger + [k])
    ensures r.failure.Some? ==> r.schema == s
  {
    if k in s.ledger then Run(s, Some(PlainError("UNIQUE constraint failed: migrations.version")))
    else Run(s.(ledger := s.ledger + [k]), None)
  }

  /** `runMigration1`: both tables (each `IF NOT EXISTS`), then version 1. */
  function Migration1(s: Schema): (r: Run)
    ensures r.schema.hasTransactions && r.schema.hasGoals && r.schema.hasNotes == s.hasNotes
    ensures r.failure.None? <==> 1 !in s.ledger
    ensures r.failure.None? ==> r.schema.ledger == s.ledger + [1]
    ensures r.failure.Some? ==> r.schema.ledger == s.ledger
  {
    Record(s.(hasTransactions := true, hasGoals := true), 1)
  }

  /** `runMigration2`: `ALTER TABLE goals ADD COLUMN notes`, which fails when
      the table is missing or already has the column, then version 2. */
  function Migration2(s: Schema): (r: Run)
    ensures r.failure.None? <==> s.hasGoals && !s.hasNotes && 2 !in s.ledger
    ensures r.failure.None? ==> r.schema == s.(ledger := s.ledger + [2], hasNotes := true)
    ensures !s.hasGoals || s.hasNotes ==> r.schema == s
  {
    if !s.hasGoals then Run(s, Some(PlainError("no such table: goals")))
    else if s.hasNotes then Run(s, Some(PlainError("duplicate column name: notes")))
    else Record(s.(hasNotes := true), 2)
  }

  /** `initDatabase`: read the version once, run migration 1 when it is
      below 1 and migration 2 when it is below 2, stopping at the first
      error. */
  function Init(s: Schema): (r: Run)
  {
    var v := Version(s.ledger);
    var first := if v < 1 then Migration1(s) else Run(s, None);
    if first.failure.Some? then first
    else if v < 2 then Migration2(first.schema)
    else first
  }

  /** The states a sequence of completed inits can leave: recorded versions
      are 1 and 2, each at most once, 2 only after 1; the tables exist once 1
      is recorded and the `notes` column exists exactly when 2 is. */
  predicate WellFormed(s: Schema)
  {
    && NoDuplicates(s.ledger)
    && (forall i :: 0 <= i < |s.ledger| ==> s.ledger[i] == 1 || s.ledger[i] == 2)
    && (2 in s.ledger ==> 1 in s.ledger)
    && (1 in s.ledger ==> s.hasTransactions && s.hasGoals)
    && (s.hasNotes <==> 2 in s.ledger)
  }

  /** A fresh database file: nothing recorded, no tables. */
  const Fresh: Schema := Schema([], false, false, false)

  /** Which migrations run: the first iff the version is below 1, the second
      iff it is below 2, in that order, each appending its own version. */
  lemma InitRunsPendingMigrations(s: Schema)
    requires WellFormed(s)
    ensures Init(s).failure.None?
    ensures Init(s).schema.ledger == s.ledger
      + (if Version(s.ledger) < 1 then [1] else [])
      + (if Version(s.ledger) < 2 then [2] else [])
  {
    var v := Version(s.ledger);
    if v < 1 {
      assert s.ledger == [];
    } else if v < 2 {
      assert 1 in s.ledger && 2 !in s.ledger;
    } else {
      assert 2 in s.ledger;
    }
  }

  /** From any state a completed init can leave, init succeeds and reaches
      the current version with both tables and the `notes` column. */
  lemma InitReachesCurrentVersion(s: Schema)
    requires WellFormed(s)
    ensures var r := Init(s);
      && r.failure.None?
      && Version(r.schema.ledger) == CurrentVersion
      && r.schema.hasTransactions && r.schema.hasGoals && r.schema.hasNotes
      && WellFormed(r.schema)
  {
    var v := Version(s.ledger);
    var r := Init(s);
    InitRunsPendingMigrations(s);
    if v < 1 {
      assert s.ledger == [];
      assert r.schema.ledger == [1, 2];
    } else if v < 2 {
      assert 1 in s.ledger && 2 !in s.ledger;
      assert forall i :: 0 <= i < |s.ledger| ==> s.ledger[i] == 1;
      assert r.schema.ledger == s.ledger + [2];
    } else {
      assert 2 in s.ledger;
      assert r.schema == s;
    }
  }

  /** The first init from a fresh file creates everything. */
  lemma FreshInit()
    ensures Init(Fresh) == Run(Schema([1, 2], true, true, true), None)
  {
  }

  /** Init is idempotent: a second run applies nothing and changes nothing. */
  lemma InitIdempotent(s: Schema)
    requires WellFormed(s)
    ensures Init(Init(s).schema) == Run(Init(s).schema, None)
  {
    InitReachesCurrentVersion(s);
  }

  /** Whatever happens, the ledger never records a version twice: the
      primary key refuses the second insert. */
  lemma InitKeepsLedgerUnique(s: Schema)
    requires NoDuplicates(s.ledger)
    ensures NoDuplicates(Init(s).schema.ledger)
  {
    var v := Version(s.ledger);
    var first := if v < 1 then Migration1(s) else Run(s, None);
    assert NoDuplicates(first.schema.ledger);
  }

  /** The `notes` column only appears together with version 2: when init
      adds it, it also records 2. */
  lemma NotesComeWithVersion2(s: Schema)
    ensures Init(s).schema.hasNotes && !s.hasNotes ==> 2 in Init(s).schema.ledger && Init(s).failure.None?
  {
  }

  /** A failing step makes init fail: migration 2 does not run after a
      failed migration 1, a failing migration 2 (after migration 1 or on its
      own) is the result, and init reports success exactly when every step
      it runs succeeds. */
  lemma InitPropagatesFailure(s: Schema)
    ensures Version(s.ledger) < 1 && Migration1(s).failure.Some? ==> Init(s) == Migration1(s)
    ensures Version(s.ledger) < 1 && Migration1(s).failure.None? && Migration2(Migration1(s).schema).failure.Some?
      ==> Init(s) == Migration2(Migration1(s).schema)
    ensures Version(s.ledger) == 1 && Migration2(s).failure.Some? ==> Init(s) == Migration2(s)
    ensures Init(s).failure.None? <==>
      && (Version(s.ledger) < 1 ==> Migration1(s).failure.None?)
      && (Version(s.ledger) < 2 ==> Migration2(if Version(s.ledger) < 1 then Migration1(s).schema else s).failure.None?)
  {
  }

  /** Migration 2 is not atomic: if the process stopped after the ALTER but
      before recording version 2, every later init throws and changes
      nothing, so the database never reaches the current version. */
  lemma InterruptedMigration2IsPermanent(s: Schema)
    requires s == Schema([1], true, true, true)
    ensures Init(s) == Run(s, Some(PlainError("duplicate column name: notes")))
  {
  }
}
