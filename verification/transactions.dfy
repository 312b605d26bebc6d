/** The transaction routes of backend/src/routes/transactions.ts over the
    `transactions` table: create with keyword categorisation, get, partial
    update, delete, and the filtered, ordered, paginated listing. The fresh
    id of a create and the clock are parameters. */
module Transactions {
  import opened Common
  import opened Text
  import opened Errors
  import opened Storage
  import opened Validation
  import opened Categorization
  import opened Sorting
  import opened Pagination
  import opened Api

  type TransactionTable = map<Id, TransactionRow>

  /** A row as `SELECT *` returns it. */
  datatype Transaction = Transaction(id: Id, row: TransactionRow)

  const TableName: string := "transactions"
  const NotFound: string := "Transaction not found"
  const NoFields: string := "No fields to update"
  const DeletedMessage: string := "Transaction deleted successfully"

  /** A JavaScript string that is neither missing nor empty. */
  predicate Truthy(s: Option<string>)
  {
    s.Some? && s.value != ""
  }

  /** The create handler hands the description to the classifier. */
  predicate AutoCategorized(c: NewTransaction)
  {
    c.kind == Expense && (c.category == "" || c.category == Other) && Truthy(c.description)
  }

  /** The category the create handler stores: an expense filed under
      "other" (or nothing) with a description is classified by keyword; a
      missing category becomes "other"; any other category is kept. */
  function StoredCategory(c: NewTransaction): (category: string)
    ensures category != ""
    ensures category == c.category || category == Other || IsTableName(category)
    ensures AutoCategorized(c) ==> category == Categorize(c.description.value)
    ensures !AutoCategorized(c) && c.category != "" ==> category == c.category
    ensures category != c.category ==> AutoCategorized(c) || c.category == ""
    ensures 1 <= |c.category| <= 50 ==> 1 <= |category| <= 50
  {
    TableNames();
    if AutoCategorized(c) then
      var r := Categorize(c.description.value);
      assert r == Other || IsTableName(r);
      r
    else if c.category == "" then Other
    else c.category
  }

  /** `x || null` for an optional string. */
  function NullIfEmpty(s: Option<string>): (r: Option<string>)
    ensures r.Some? <==> Truthy(s)
    ensures r.Some? ==> r == s
  {
    if Truthy(s) then s else None
  }

  /** The row the create handler inserts: `description || ''`,
      `source || null`, both timestamps from the clock. */
  function NewRow(c: NewTransaction, now: Instant): (r: TransactionRow)
    ensures r.kind == c.kind && r.amount == c.amount && r.date == c.date
    ensures r.category == StoredCategory(c)
    ensures r.description.Some?
    ensures c.description.Some? ==> r.description == c.description
    ensures c.description.None? ==> r.description == Some("")
    ensures r.source.None? <==> !Truthy(c.source)
    ensures r.source.Some? ==> r.source == c.source
    ensures r.createdAt == now && r.updatedAt == now
  {
    TransactionRow(c.kind, StoredCategory(c), c.amount, Some(OrEmpty(c.description)), c.date,
      NullIfEmpty(c.source), now, now)
  }

  /** `POST /`: insert under the fresh id, then read the row back. */
  function CreateTransaction(t: TransactionTable, id: Id, c: NewTransaction, now: Instant): (h: Handled<TransactionTable, Transaction>)
    ensures h.outcome.Done? <==> id !in t && TransactionRowOk(NewRow(c, now))
    ensures h.outcome.Done? ==> h.outcome.value == Transaction(id, NewRow(c, now))
                                && h.state == t[id := NewRow(c, now)]
    ensures h.outcome.Thrown? ==> h.state == t && !IsOperational(h.outcome.error)
  {
    var row := NewRow(c, now);
    match Storage.Insert(TableName, t, id, row, TransactionRowOk)
    case Failed(e) => Handled(t, Thrown(e))
    case Wrote(t', _) => Handled(t', Done(Transaction(id, t'[id])))
  }

  /** `GET /:id`. */
  function GetTransaction(t: TransactionTable, id: Id): (o: Outcome<Transaction>)
    ensures o.Done? <==> id in t
    ensures o.Done? ==> o.value == Transaction(id, t[id])
    ensures o.Thrown? ==> HandleError(o.error) == ErrorReply(404, NotFound)
  {
    if id in t then Done(Transaction(id, t[id])) else Thrown(Operational(404, NotFound))
  }

  /** What create answers is what a later get returns. */
  lemma CreateThenGet(t: TransactionTable, id: Id, c: NewTransaction, now: Instant)
    requires CreateTransaction(t, id, c, now).outcome.Done?
    ensures var h := CreateTransaction(t, id, c, now); GetTransaction(h.state, id) == h.outcome
  {
  }

  /** The body named at least one updatable field. */
  predicate HasFields(p: TransactionPatch)
  {
    p.category.Some? || p.amount.Some? || p.description.Some? || p.date.Some? || p.source.Some?
  }

  /** The row after `UPDATE ... SET <present fields>` and the
      `updated_at` trigger. */
  function Patched(row: TransactionRow, p: TransactionPatch, now: Instant): (r: TransactionRow)
    ensures r.kind == row.kind && r.createdAt == row.createdAt && r.updatedAt == now
    ensures r.category == (if p.category.Some? then p.category.value else row.category)
    ensures r.amount == (if p.amount.Some? then p.amount.value else row.amount)
    ensures r.description == (if p.description.Some? then p.description else row.description)
    ensures r.date == (if p.date.Some? then p.date.value else row.date)
    ensures r.source == (if p.source.Some? then p.source else row.source)
  {
    row.(category := if p.category.Some? then p.category.value else row.category,
         amount := if p.amount.Some? then p.amount.value else row.amount,
         description := if p.description.Some? then p.description else row.description,
         date := if p.date.Some? then p.date.value else row.date,
         source := if p.source.Some? then p.source else row.source,
         updatedAt := now)
  }

  /** `PATCH /:id`: an empty change-set is refused before the id is looked
      up; a missing id is a 404; otherwise only that row changes. */
  function UpdateTransaction(t: TransactionTable, id: Id, p: TransactionPatch, now: Instant): (h: Handled<TransactionTable, Transaction>)
    ensures !HasFields(p) ==> h == Handled(t, Thrown(Operational(400, NoFields)))
    ensures HasFields(p) && id !in t ==> h == Handled(t, Thrown(Operational(404, NotFound)))
    ensures h.outcome.Thrown? ==> h.state == t
    ensures h.outcome.Done? ==> && id in t
                                && h.outcome.value == Transaction(id, Patched(t[id], p, now))
                                && h.state == t[id := Patched(t[id], p, now)]
    ensures HasFields(p) && id in t ==> (h.outcome.Done? <==> TransactionRowOk(Patched(t[id], p, now)))
  {
    if !HasFields(p) then Handled(t, Thrown(Operational(400, NoFields)))
    else
      match Storage.Update(TableName, t, id, row => Patched(row, p, now), TransactionRowOk)
      case Failed(e) => Handled(t, Thrown(e))
      case Wrote(t', changes) =>
        if changes == 0 then Handled(t, Thrown(Operational(404, NotFound)))
        else Handled(t', Done(Transaction(id, t'[id])))
  }

  /** `DELETE /:id`. */
  function DeleteTransaction(t: TransactionTable, id: Id): Handled<TransactionTable, string>
  {
    DeleteById(t, id, DeletedMessage, NotFound)
  }

  /** Whatever the handlers do, every stored row keeps satisfying the CHECK
      constraints. */
  lemma HandlersKeepChecks(t: TransactionTable, id: Id, c: NewTransaction, p: TransactionPatch, now: Instant)
    requires AllRows(t, TransactionRowOk)
    ensures AllRows(CreateTransaction(t, id, c, now).state, TransactionRowOk)
    ensures AllRows(UpdateTransaction(t, id, p, now).state, TransactionRowOk)
    ensures AllRows(DeleteTransaction(t, id).state, TransactionRowOk)
  {
  }

  /** Defence in depth: a create the validator accepts never trips a CHECK
      constraint, so with a fresh id it always succeeds. */
  lemma ValidatedCreateSucceeds(b: TransactionBody, now: Instant, t: TransactionTable, id: Id)
    requires ValidateTransaction(b, now).Accepted? && id !in t
    ensures CreateTransaction(t, id, ValidateTransaction(b, now).value, now).outcome.Done?
  {
    var c := ValidateTransaction(b, now).value;
    var row := NewRow(c, now);
    assert 1 <= |row.category| <= 50;
    assert |row.description.value| <= 500;
  }

  /** Defence in depth for updates: with a validated change-set the only
      errors left are the 400 for an empty body and the 404. */
  lemma ValidatedUpdateOnlyFailsOperationally(idParam: string, b: TransactionBody, t: TransactionTable, now: Instant)
    requires AllRows(t, TransactionRowOk)
    requires ValidateTransactionUpdate(idParam, b).Accepted?
    ensures var (id, p) := ValidateTransactionUpdate(idParam, b).value;
      var h := UpdateTransaction(t, id, p, now);
      h.outcome.Thrown? ==> IsOperational(h.outcome.error)
  {
    var (id, p) := ValidateTransactionUpdate(idParam, b).value;
    if HasFields(p) && id in t {
      assert TransactionRowOk(t[id]);
      assert TransactionRowOk(Patched(t[id], p, now));
    }
  }

  /** 49 letters followed by U+2764 and the emoji selector U+FE0F. */
  const HeartCategory: string := seq(49, _ => 'a') + ['\U{2764}', '\U{FE0F}']

  /** The category rule as written counts `HeartCategory` as 50 characters
      and lets it through, but its 51 code points break
      `CHECK(length(category) <= 50)`, so the insert throws and the client
      gets a 500 instead of the 400. The code-point rule the model uses
      refuses it. */
  lemma SelectorCategoryFailsCheck(row: TransactionRow)
    requires row.category == HeartCategory
    ensures TrimmedIsLengthWithin(Some(HeartCategory), 1, 50)
    ensures !TrimmedLengthWithin(Some(HeartCategory), 1, 50)
    ensures !TransactionRowOk(row)
  {
    var letters: string := seq(49, _ => 'a');
    var heart: string := ['\U{2764}', '\U{FE0F}'];
    assert Trim(HeartCategory) == HeartCategory;
    IsLengthCountsAllWithoutSelectors(letters);
    IsLengthCountAppend(letters, heart);
    assert IsLengthCount(heart) == 1;
  }

  // ----- routes -----

  /** `POST /` with `validateTransaction`. */
  function PostTransaction(t: TransactionTable, b: TransactionBody, id: Id, now: Instant): (s: Served<TransactionTable, Transaction>)
    ensures s.response.Invalid? <==> ValidateTransaction(b, now).Rejected?
    ensures s.response.Invalid? ==> s.state == t && s.response.details == ValidateTransaction(b, now).details
    ensures s.response.Success? <==> ValidateTransaction(b, now).Accepted? && id !in t
    ensures s.response.Success? ==>
      var row := NewRow(ValidateTransaction(b, now).value, now);
      && StatusOf(s.response) == 201
      && s.response.body == Transaction(id, row)
      && s.state == t[id := row]
    ensures !s.response.Success? ==> s.state == t
  {
    match ValidateTransaction(b, now)
    case Rejected(details) => Served(t, Invalid(details))
    case Accepted(c) =>
      var h := CreateTransaction(t, id, c, now);
      assert id !in t ==> h.outcome.Done? by {
        if id !in t {
          ValidatedCreateSucceeds(b, now, t, id);
        }
      }
      Served(h.state, Reply(h.outcome, 201))
  }

  /** `PATCH /:id` with `validateTransactionUpdate`. */
  function PatchTransaction(t: TransactionTable, idParam: string, b: TransactionBody, now: Instant): (s: Served<TransactionTable, Transaction>)
    ensures s.response.Invalid? <==> ValidateTransactionUpdate(idParam, b).Rejected?
    ensures s.response.Invalid? ==> s.response.details == ValidateTransactionUpdate(idParam, b).details
    ensures !s.response.Success? ==> s.state == t
    ensures s.response.Success? ==>
      var (id, p) := ValidateTransactionUpdate(idParam, b).value;
      && HasFields(p) && id in t
      && StatusOf(s.response) == 200
      && s.response.body == Transaction(id, Patched(t[id], p, now))
      && s.state == t[id := Patched(t[id], p, now)]
    ensures ValidateTransactionUpdate(idParam, b).Accepted? ==>
      var (id, p) := ValidateTransactionUpdate(idParam, b).value;
      && (!HasFields(p) ==> s.response == Failure(ErrorReply(400, NoFields)))
      && (HasFields(p) && id !in t ==> s.response == Failure(ErrorReply(404, NotFound)))
      && (AllRows(t, TransactionRowOk) ==> (s.response.Success? <==> HasFields(p) && id in t))
  {
    match ValidateTransactionUpdate(idParam, b)
    case Rejected(details) => Served(t, Invalid(details))
    case Accepted((id, p)) =>
      var h := UpdateTransaction(t, id, p, now);
      assert AllRows(t, TransactionRowOk) ==> h.outcome.Thrown? ==> IsOperational(h.outcome.error) by {
        if AllRows(t, TransactionRowOk) {
          ValidatedUpdateOnlyFailsOperationally(idParam, b, t, now);
        }
      }
      Served(h.state, Reply(h.outcome, 200))
  }

  /** A patch that names no updatable field (say, only `type`) is a 400 "No
      fields to update", whether or not the id exists. */
  lemma PatchWithoutFieldsIs400(t: TransactionTable, idParam: string, kind: Option<string>, now: Instant)
    requires |Trim(idParam)| >= 1
    ensures var s := PatchTransaction(t, idParam, TransactionBody(kind, Absent, None, None, Absent, None), now);
      s.state == t && s.response == Failure(ErrorReply(400, NoFields))
  {
  }

  /** `GET /:id` with `validateId`. */
  function FetchTransaction(t: TransactionTable, idParam: string): (r: Response<Transaction>)
    ensures r.Invalid? <==> Trim(idParam) == []
    ensures r.Invalid? ==> r.details == [FieldError("id", IdMessage)]
    ensures r.Success? <==> Trim(idParam) != [] && Trim(idParam) in t
    ensures r.Success? ==> r.body == Transaction(Trim(idParam), t[Trim(idParam)]) && StatusOf(r) == 200
    ensures r.Failure? ==> r.reply == ErrorReply(404, NotFound)
  {
    match ValidateId(idParam)
    case Rejected(details) => Invalid(details)
    case Accepted(id) => Reply(GetTransaction(t, id), 200)
  }

  /** `DELETE /:id` with `validateId`. */
  function RemoveTransaction(t: TransactionTable, idParam: string): (s: Served<TransactionTable, string>)
    ensures s.response.Invalid? <==> Trim(idParam) == []
    ensures s.response.Invalid? ==> s.response.details == [FieldError("id", IdMessage)]
    ensures s.response.Success? <==> Trim(idParam) != [] && Trim(idParam) in t
    ensures s.response.Success? ==> s.state == t - {Trim(idParam)} && s.response.body == DeletedMessage && StatusOf(s.response) == 200
    ensures !s.response.Success? ==> s.state == t
    ensures s.response.Failure? ==> s.response.reply == ErrorReply(404, NotFound)
  {
    match ValidateId(idParam)
    case Rejected(details) => Served(t, Invalid(details))
    case Accepted(id) =>
      var h := DeleteTransaction(t, id);
      Served(h.state, Reply(h.outcome, 200))
  }

  // ----- listing -----

  /** The `type` query filter: used only when it is exactly "income" or
      "expense"; any other value lists everything. */
  function KindFilter(q: Option<string>): (f: Option<Kind>)
    ensures f.Some? <==> q.Some? && (q.value == "income" || q.value == "expense")
    ensures f.Some? ==> KindName(f.value) == q.value
  {
    if q.Some? then ParseKind(q.value) else None
  }

  predicate Selected(f: Option<Kind>, r: TransactionRow)
  {
    f.None? || r.kind == f.value
  }

  /** The filter a `WHERE type = ?` clause applies, if any. */
  function KindKeep(f: Option<Kind>): TransactionRow -> bool
  {
    row => Selected(f, row)
  }

  /** The ids of the rows a WHERE clause keeps. */
  function MatchingIds(t: TransactionTable, keep: TransactionRow -> bool): set<Id>
  {
    set k | k in t && keep(t[k])
  }

  function IdsOf(rows: seq<Transaction>): set<Id>
  {
    if rows == [] then {} else {rows[0].id} + IdsOf(rows[1..])
  }

  /** The rows of `scan` a WHERE clause keeps, in scan order. */
  function Select(t: TransactionTable, scan: seq<Id>, keep: TransactionRow -> bool): (rows: seq<Transaction>)
    requires forall i :: 0 <= i < |scan| ==> scan[i] in t
    ensures |rows| <= |scan|
    ensures forall j :: 0 <= j < |rows| ==> rows[j].id in scan && rows[j].id in t && rows[j].row == t[rows[j].id]
    ensures forall j :: 0 <= j < |rows| ==> keep(rows[j].row)
  {
    if scan == [] then []
    else
      var rest := Select(t, scan[1..], keep);
      assert forall j :: 0 <= j < |rest| ==> rest[j].id in scan;
      if keep(t[scan[0]]) then
        var rows := [Transaction(scan[0], t[scan[0]])] + rest;
        assert forall j :: 1 <= j < |rows| ==> rows[j] == rest[j - 1];
        rows
      else rest
  }

  /** Some row of `rows` has id `k`. */
  ghost predicate HasId(rows: seq<Transaction>, k: Id)
  {
    exists j :: 0 <= j < |rows| && rows[j].id == k
  }

  /** Every id of the scan that the clause keeps is selected. */
  lemma {:induction false} SelectComplete(t: TransactionTable, scan: seq<Id>, keep: TransactionRow -> bool, i: nat)
    requires forall i :: 0 <= i < |scan| ==> scan[i] in t
    requires i < |scan| && keep(t[scan[i]])
    ensures HasId(Select(t, scan, keep), scan[i])
  {
    var rows := Select(t, scan, keep);
    var tail := scan[1..];
    if i == 0 {
      assert rows[0].id == scan[0];
    } else {
      assert tail[i - 1] == scan[i];
      SelectComplete(t, tail, keep, i - 1);
      var rest := Select(t, tail, keep);
      var j :| 0 <= j < |rest| && rest[j].id == scan[i];
      if keep(t[scan[0]]) {
        assert rows[j + 1] == rest[j];
      } else {
        assert rows[j] == rest[j];
      }
    }
  }

  function IdOf(x: Transaction): Id
  {
    x.id
  }

  /** The ids of a selection never repeat when the scan does not. */
  lemma {:induction false} SelectDistinct(t: TransactionTable, scan: seq<Id>, keep: TransactionRow -> bool)
    requires forall i :: 0 <= i < |scan| ==> scan[i] in t
    requires forall i, j :: 0 <= i < j < |scan| ==> scan[i] != scan[j]
    ensures DistinctKeys(Select(t, scan, keep), IdOf)
  {
    if scan != [] {
      var tail := scan[1..];
      assert forall i :: 0 <= i < |tail| ==> tail[i] == scan[i + 1];
      SelectDistinct(t, tail, keep);
      if keep(t[scan[0]]) {
        var rest := Select(t, tail, keep);
        var first := Transaction(scan[0], t[scan[0]]);
        forall j | 0 <= j < |rest|
          ensures IdOf(rest[j]) != IdOf(first)
        {
          var i :| 0 <= i < |tail| && tail[i] == rest[j].id;
          assert scan[i + 1] == rest[j].id;
        }
        ConsDistinct(first, rest, IdOf);
      }
    }
  }

  /** Distinct ids: the id set is as large as the sequence. */
  lemma {:induction false} IdsOfDistinct(rows: seq<Transaction>)
    requires DistinctKeys(rows, IdOf)
    ensures |IdsOf(rows)| == |rows|
  {
    if rows != [] {
      assert forall i :: 0 <= i < |rows[1..]| ==> rows[1..][i] == rows[i + 1];
      IdsOfDistinct(rows[1..]);
      IdsOfMembers(rows[1..]);
      assert rows[0].id !in IdsOf(rows[1..]);
    }
  }

  lemma {:induction false} IdsOfMembers(rows: seq<Transaction>)
    ensures forall k :: k in IdsOf(rows) <==> exists j :: 0 <= j < |rows| && rows[j].id == k
  {
    if rows != [] {
      IdsOfMembers(rows[1..]);
      assert forall j :: 1 <= j < |rows| ==> rows[1..][j - 1] == rows[j];
    }
  }

  /** The order of `ORDER BY date DESC, created_at DESC`: `a` may come
      before `b`. */
  predicate NewestFirst(a: Transaction, b: Transaction)
  {
    || Before(b.row.date, a.row.date)
    || (b.row.date == a.row.date && NotAfter(b.row.createdAt, a.row.createdAt))
  }

  lemma NewestFirstIsTotalPreorder()
    ensures TotalPreorder(NewestFirst)
  {
  }

  /** The `GET /` reply: one page of rows and the pagination block. */
  datatype Listing = Listing(data: seq<Transaction>, page: int, limit: int, total: nat, totalPages: nat)

  /** A selection from an enumeration has distinct ids, one per matching row. */
  lemma SelectionFacts(t: TransactionTable, scan: seq<Id>, keep: TransactionRow -> bool)
    requires Enumerates(scan, t)
    ensures DistinctKeys(Select(t, scan, keep), IdOf)
    ensures |Select(t, scan, keep)| == |MatchingIds(t, keep)|
  {
    var rows := Select(t, scan, keep);
    SelectDistinct(t, scan, keep);
    IdsOfDistinct(rows);
    IdsOfMembers(rows);
    forall k | k in MatchingIds(t, keep)
      ensures k in IdsOf(rows)
    {
      var i :| 0 <= i < |scan| && scan[i] == k;
      SelectComplete(t, scan, keep, i);
    }
    assert IdsOf(rows) == MatchingIds(t, keep);
  }

  /** A page is a contiguous run of the ordered rows, so it keeps their
      order, their distinct ids and where they came from. */
  lemma PageOfOrdered(ordered: seq<Transaction>, limit: int, offset: int)
    ensures var data := Window(ordered, limit, offset);
      && (forall j :: 0 <= j < |data| ==> data[j] in ordered)
      && (Sorted(ordered, NewestFirst) ==> Sorted(data, NewestFirst))
      && (DistinctKeys(ordered, IdOf) ==> DistinctKeys(data, IdOf))
  {
    var data := Window(ordered, limit, offset);
    var start := if offset < 0 then 0 else if offset > |ordered| then |ordered| else offset;
    assert forall j :: 0 <= j < |data| ==> data[j] == ordered[start + j];
  }

  /** `data` is what `LIMIT limit OFFSET offset` leaves of some ordering of
      `rows` newest first; SQL may order rows that tie on both keys either
      way, so the ordering is only known up to those ties. */
  ghost predicate PageOf(data: seq<Transaction>, rows: seq<Transaction>, limit: int, offset: int)
  {
    exists ordered :: PageOfOrdering(data, ordered, rows, limit, offset)
  }

  ghost predicate PageOfOrdering(data: seq<Transaction>, ordered: seq<Transaction>, rows: seq<Transaction>, limit: int, offset: int)
  {
    && Sorted(ordered, NewestFirst)
    && multiset(ordered) == multiset(rows)
    && data == Window(ordered, limit, offset)
  }

  /** How many rows a LIMIT/OFFSET page of `total` rows holds: those from
      the clamped offset on, at most `limit` of them unless it is negative. */
  function PageSize(total: nat, limit: int, offset: int): nat
  {
    var start := if offset < 0 then 0 else if offset > total then total else offset;
    if limit < 0 || total - start < limit then total - start else limit
  }

  /** The rows of one page: the rows of the requested type, newest first,
      cut by LIMIT/OFFSET. They are distinct rows of the table, in order. */
  function PageRows(t: TransactionTable, scan: seq<Id>, f: Option<Kind>, limit: int, offset: int): (data: seq<Transaction>)
    requires Enumerates(scan, t)
    ensures forall j :: 0 <= j < |data| ==> data[j].id in t && data[j].row == t[data[j].id] && Selected(f, data[j].row)
    ensures DistinctKeys(data, IdOf)
    ensures Sorted(data, NewestFirst)
    ensures PageOf(data, Select(t, scan, KindKeep(f)), limit, offset)
    ensures |data| == PageSize(|MatchingIds(t, KindKeep(f))|, limit, offset)
  {
    var rows := Select(t, scan, KindKeep(f));
    NewestFirstIsTotalPreorder();
    var ordered := Sort(rows, NewestFirst);
    SelectionFacts(t, scan, KindKeep(f));
    SortKeepsElements(rows, NewestFirst);
    SortKeepsDistinctKeys(rows, NewestFirst, IdOf);
    PageOfOrdered(ordered, limit, offset);
    var data := Window(ordered, limit, offset);
    assert forall j :: 0 <= j < |data| ==> data[j] in rows;
    assert PageOfOrdering(data, ordered, rows, limit, offset);
    WindowSize(ordered, limit, offset);
    data
  }

  /** The size of a window is `PageSize` of the rows it is cut from. */
  lemma WindowSize(ordered: seq<Transaction>, limit: int, offset: int)
    ensures |Window(ordered, limit, offset)| == PageSize(|ordered|, limit, offset)
  {
  }

  /** `SELECT COUNT(*)` under the same WHERE clause. */
  function CountMatching(t: TransactionTable, scan: seq<Id>, f: Option<Kind>): (n: nat)
    requires Enumerates(scan, t)
    ensures n == |MatchingIds(t, KindKeep(f))|
  {
    SelectionFacts(t, scan, KindKeep(f));
    |Select(t, scan, KindKeep(f))|
  }

  /** The pagination block agrees with the page: at most `limit` rows, a
      size between 1 and 100, and `totalPages` the ceiling of
      `total / limit`. */
  predicate PaginationConsistent(r: Listing)
  {
    && 1 <= r.limit <= 100
    && |r.data| <= r.limit
    && (r.total == 0 ==> r.totalPages == 0)
    && (r.total > 0 ==> (r.totalPages - 1) * r.limit < r.total <= r.totalPages * r.limit)
  }

  /** The reply for one page of `total` matching rows. */
  function Paginate(data: seq<Transaction>, page: int, limit: int, total: nat): (r: Listing)
    requires 1 <= limit <= 100 && |data| <= limit
    ensures PaginationConsistent(r)
    ensures r.data == data && r.page == page && r.limit == limit && r.total == total
  {
    Listing(data, page, limit, total, TotalPages(total, limit))
  }

  /** `GET /`: filter by type, order newest first, cut one page. */
  function ListTransactions(t: TransactionTable, scan: seq<Id>, typeQuery: Option<string>, q: PageQuery): (r: Listing)
    requires Enumerates(scan, t)
    ensures forall j :: 0 <= j < |r.data| ==>
      r.data[j].id in t && r.data[j].row == t[r.data[j].id] && Selected(KindFilter(typeQuery), r.data[j].row)
    ensures DistinctKeys(r.data, IdOf)
    ensures Sorted(r.data, NewestFirst)
    ensures r.total == |MatchingIds(t, KindKeep(KindFilter(typeQuery)))|
    ensures r.page == PageNumber(q) && r.limit == Limit(q)
    ensures PaginationConsistent(r)
    ensures PageOf(r.data, Select(t, scan, KindKeep(KindFilter(typeQuery))), r.limit, Offset(r.page, r.limit))
    ensures |r.data| == PageSize(r.total, r.limit, Offset(r.page, r.limit))
  {
    var f := KindFilter(typeQuery);
    var limit := Limit(q);
    var page := PageNumber(q);
    Paginate(PageRows(t, scan, f, limit, Offset(page, limit)), page, limit, CountMatching(t, scan, f))
  }

  /** The route as written computes `LimitAsWritten`, so `?limit=-1` reaches
      the query as LIMIT -1 OFFSET 0 and the page holds every matching row,
      however many there are. */
  lemma RouteAsWrittenListsEveryRow(t: TransactionTable, scan: seq<Id>, typeQuery: Option<string>)
    requires Enumerates(scan, t)
    ensures var q := PageQuery(None, Some(-1));
      var limit := LimitAsWritten(q);
      var f := KindFilter(typeQuery);
      && limit == -1
      && |PageRows(t, scan, f, limit, Offset(PageNumber(q), limit))| == |MatchingIds(t, KindKeep(f))|
  {
  }

  /** The type filter treats every value other than "income" and "expense"
      like no filter at all. */
  lemma OtherTypeValuesListEverything(t: TransactionTable, scan: seq<Id>, value: string, q: PageQuery)
    requires Enumerates(scan, t)
    requires value != "income" && value != "expense"
    ensures ListTransactions(t, scan, Some(value), q) == ListTransactions(t, scan, None, q)
  {
  }
}
