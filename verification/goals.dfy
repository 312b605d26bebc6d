/** The goal routes of backend/src/routes/goals.ts over the `goals` table:
    list by deadline, get, create with defaults, partial update and delete,
    each reply passed through `transformGoal`. The fresh id and the clock
    are parameters. */
module Goals {
  import opened Common
  import opened Text
  import opened Errors
  import opened Storage
  import opened Validation
  import opened Sorting
  import opened Api

  type GoalTable = map<Id, GoalRow>

  /** A row as `SELECT *` returns it. */
  datatype Goal = Goal(id: Id, row: GoalRow)

  /** A goal as the API returns it: camelCase amounts and `notes || ''`. */
  datatype GoalView = GoalView(
    id: Id,
    name: string,
    targetAmount: real,
    currentAmount: real,
    deadline: Instant,
    color: string,
    notes: string,
    createdAt: Instant,
    updatedAt: Instant)

  const TableName: string := "goals"
  const NotFound: string := "Goal not found"
  const NoFields: string := "No fields to update"
  const DeletedMessage: string := "Goal deleted successfully"

  /** `transformGoal`: every column carried over, a NULL or empty note shown
      as the empty string. */
  function View(g: Goal): (v: GoalView)
    ensures v.id == g.id && v.name == g.row.name && v.color == g.row.color && v.deadline == g.row.deadline
    ensures v.targetAmount == g.row.targetAmount && v.currentAmount == g.row.currentAmount
    ensures v.createdAt == g.row.createdAt && v.updatedAt == g.row.updatedAt
    ensures v.notes == OrEmpty(g.row.notes)
  {
    GoalView(g.id, g.row.name, g.row.targetAmount, g.row.currentAmount, g.row.deadline, g.row.color,
      OrEmpty(g.row.notes), g.row.createdAt, g.row.updatedAt)
  }

  /** A goal stored before the `notes` column existed reads as one with an
      empty note. */
  lemma MissingNotesReadEmpty(id: Id, row: GoalRow)
    ensures View(Goal(id, row.(notes := None))) == View(Goal(id, row.(notes := Some(""))))
  {
  }

  /** The rows of `scan` in scan order. */
  function GoalsOf(t: GoalTable, scan: seq<Id>): (gs: seq<Goal>)
    requires forall i :: 0 <= i < |scan| ==> scan[i] in t
    ensures |gs| == |scan|
    ensures forall i :: 0 <= i < |scan| ==> gs[i] == Goal(scan[i], t[scan[i]])
  {
    if scan == [] then []
    else [Goal(scan[0], t[scan[0]])] + GoalsOf(t, scan[1..])
  }

  function GoalIdOf(g: Goal): Id
  {
    g.id
  }

  /** `ORDER BY deadline ASC`: `a` may come before `b`. */
  predicate EarliestDeadline(a: Goal, b: Goal)
  {
    NotAfter(a.row.deadline, b.row.deadline)
  }

  lemma EarliestDeadlineIsTotalPreorder()
    ensures TotalPreorder(EarliestDeadline)
  {
  }

  function Views(gs: seq<Goal>): (vs: seq<GoalView>)
    ensures |vs| == |gs|
    ensures forall i :: 0 <= i < |gs| ==> vs[i] == View(gs[i])
  {
    if gs == [] then [] else [View(gs[0])] + Views(gs[1..])
  }

  /** Every goal of `gs` is a row of `t` under its id. */
  ghost predicate FromTable(gs: seq<Goal>, t: GoalTable)
  {
    forall i :: 0 <= i < |gs| ==> gs[i].id in t && gs[i].row == t[gs[i].id]
  }

  /** Every row of `t` appears in `gs`. */
  ghost predicate CoversTable(gs: seq<Goal>, t: GoalTable)
  {
    forall k :: k in t ==> HasId(gs, k)
  }

  /** The goals ordered by deadline, before the transform. */
  function ByDeadline(t: GoalTable, scan: seq<Id>): (gs: seq<Goal>)
    requires Enumerates(scan, t)
    ensures |gs| == |t|
    ensures FromTable(gs, t) && CoversTable(gs, t)
    ensures DistinctKeys(gs, GoalIdOf)
    ensures Sorted(gs, EarliestDeadline)
  {
    EarliestDeadlineIsTotalPreorder();
    ScanCoversTable(scan, t);
    SortedGoalsFromTable(t, scan);
    SortedGoalsCoverTable(t, scan);
    SortedGoalsDistinct(t, scan);
    Sort(GoalsOf(t, scan), EarliestDeadline)
  }

  lemma SortedGoalsFromTable(t: GoalTable, scan: seq<Id>)
    requires Enumerates(scan, t) && TotalPreorder(EarliestDeadline)
    ensures FromTable(Sort(GoalsOf(t, scan), EarliestDeadline), t)
  {
    var all := GoalsOf(t, scan);
    var gs := Sort(all, EarliestDeadline);
    SortKeepsElements(all, EarliestDeadline);
    assert forall i :: 0 <= i < |gs| ==> gs[i] in all;
    assert FromTable(gs, t);
  }

  /** Some goal of `gs` has id `k`. */
  ghost predicate HasId(gs: seq<Goal>, k: Id)
  {
    exists i :: 0 <= i < |gs| && gs[i].id == k
  }

  lemma SortedGoalsCoverTable(t: GoalTable, scan: seq<Id>)
    requires Enumerates(scan, t) && TotalPreorder(EarliestDeadline)
    ensures CoversTable(Sort(GoalsOf(t, scan), EarliestDeadline), t)
  {
    var all := GoalsOf(t, scan);
    var gs := Sort(all, EarliestDeadline);
    SortKeepsElements(all, EarliestDeadline);
    forall k | k in t
      ensures HasId(gs, k)
    {
      var j :| 0 <= j < |scan| && scan[j] == k;
      HasIdThroughSort(all, gs, j);
    }
    assert CoversTable(gs, t);
  }

  lemma HasIdThroughSort(all: seq<Goal>, gs: seq<Goal>, j: nat)
    requires j < |all|
    requires forall x :: x in gs <==> x in all
    ensures HasId(gs, all[j].id)
  {
    assert all[j] in gs;
    var i :| 0 <= i < |gs| && gs[i] == all[j];
  }

  lemma SortedGoalsDistinct(t: GoalTable, scan: seq<Id>)
    requires Enumerates(scan, t) && TotalPreorder(EarliestDeadline)
    ensures DistinctKeys(Sort(GoalsOf(t, scan), EarliestDeadline), GoalIdOf)
  {
    var all := GoalsOf(t, scan);
    assert DistinctKeys(all, GoalIdOf);
    SortKeepsDistinctKeys(all, EarliestDeadline, GoalIdOf);
  }

  /** `GET /`: every goal exactly once, earliest deadline first. */
  function ListGoals(t: GoalTable, scan: seq<Id>): (vs: seq<GoalView>)
    requires Enumerates(scan, t)
    ensures |vs| == |t|
    ensures forall i :: 0 <= i < |vs| ==> vs[i].id in t && vs[i] == View(Goal(vs[i].id, t[vs[i].id]))
    ensures forall k :: k in t ==> exists i :: 0 <= i < |vs| && vs[i].id == k
    ensures forall i, j :: 0 <= i < j < |vs| ==> vs[i].id != vs[j].id
    ensures forall i, j :: 0 <= i < j < |vs| ==> NotAfter(vs[i].deadline, vs[j].deadline)
  {
    var gs := ByDeadline(t, scan);
    ViewsOfTable(gs, t);
    ViewsKeepOrder(gs);
    Views(gs)
  }

  /** The transform shows each row of the table under its id, and all of them. */
  lemma ViewsOfTable(gs: seq<Goal>, t: GoalTable)
    requires FromTable(gs, t) && CoversTable(gs, t)
    ensures var vs := Views(gs);
      && (forall i :: 0 <= i < |vs| ==> vs[i].id in t && vs[i] == View(Goal(vs[i].id, t[vs[i].id])))
      && (forall k :: k in t ==> exists i :: 0 <= i < |vs| && vs[i].id == k)
  {
    var vs := Views(gs);
    forall i | 0 <= i < |vs|
      ensures vs[i].id in t && vs[i] == View(Goal(vs[i].id, t[vs[i].id]))
    {
      assert gs[i] == Goal(gs[i].id, t[gs[i].id]);
    }
    forall k | k in t
      ensures exists i :: 0 <= i < |vs| && vs[i].id == k
    {
      assert HasId(gs, k);
      var i :| 0 <= i < |gs| && gs[i].id == k;
      assert vs[i].id == k;
    }
  }

  /** The transform keeps distinct ids and the deadline order. */
  lemma ViewsKeepOrder(gs: seq<Goal>)
    requires DistinctKeys(gs, GoalIdOf) && Sorted(gs, EarliestDeadline)
    ensures var vs := Views(gs);
      && (forall i, j :: 0 <= i < j < |vs| ==> vs[i].id != vs[j].id)
      && (forall i, j :: 0 <= i < j < |vs| ==> NotAfter(vs[i].deadline, vs[j].deadline))
  {
    assert forall i, j :: 0 <= i < j < |gs| ==> GoalIdOf(gs[i]) != GoalIdOf(gs[j]) && EarliestDeadline(gs[i], gs[j]);
  }

  /** `GET /:id`. */
  function GetGoal(t: GoalTable, id: Id): (o: Outcome<GoalView>)
    ensures o.Done? <==> id in t
    ensures o.Done? ==> o.value == View(Goal(id, t[id]))
    ensures o.Thrown? ==> HandleError(o.error) == ErrorReply(404, NotFound)
  {
    if id in t then Done(View(Goal(id, t[id]))) else Thrown(Operational(404, NotFound))
  }

  /** The row the create handler inserts: `currentAmount || 0`,
      `notes || ''`, both timestamps from the clock. */
  function NewGoalRow(c: NewGoal, now: Instant): (r: GoalRow)
    ensures r.name == c.name && r.targetAmount == c.targetAmount && r.deadline == c.deadline && r.color == c.color
    ensures c.currentAmount.Some? ==> r.currentAmount == c.currentAmount.value
    ensures c.currentAmount.None? ==> r.currentAmount == 0.0
    ensures r.notes == Some(OrEmpty(c.notes))
    ensures r.createdAt == now && r.updatedAt == now
  {
    GoalRow(c.name, c.targetAmount, if c.currentAmount.Some? then c.currentAmount.value else 0.0,
      c.deadline, c.color, Some(OrEmpty(c.notes)), now, now)
  }

  /** `POST /`: insert under the fresh id, then read the row back. */
  function CreateGoal(t: GoalTable, id: Id, c: NewGoal, now: Instant): (h: Handled<GoalTable, GoalView>)
    ensures h.outcome.Done? <==> id !in t && GoalRowOk(NewGoalRow(c, now))
    ensures h.outcome.Done? ==> h.outcome.value == View(Goal(id, NewGoalRow(c, now)))
                                && h.state == t[id := NewGoalRow(c, now)]
    ensures h.outcome.Thrown? ==> h.state == t && !IsOperational(h.outcome.error)
  {
    var row := NewGoalRow(c, now);
    match Storage.Insert(TableName, t, id, row, GoalRowOk)
    case Failed(e) => Handled(t, Thrown(e))
    case Wrote(t', _) => Handled(t', Done(View(Goal(id, t'[id]))))
  }

  /** What create answers is what a later get returns. */
  lemma CreateThenGetGoal(t: GoalTable, id: Id, c: NewGoal, now: Instant)
    requires CreateGoal(t, id, c, now).outcome.Done?
    ensures var h := CreateGoal(t, id, c, now); GetGoal(h.state, id) == h.outcome
  {
  }

  /** The body named at least one updatable field; an empty note counts. */
  predicate HasFields(p: GoalPatch)
  {
    p.name.Some? || p.targetAmount.Some? || p.currentAmount.Some? || p.deadline.Some? || p.color.Some? || p.notes.Some?
  }

  /** The row after `UPDATE goals SET <present fields>` and the
      `updated_at` trigger. */
  function PatchedGoal(row: GoalRow, p: GoalPatch, now: Instant): (r: GoalRow)
    ensures r.createdAt == row.createdAt && r.updatedAt == now
    ensures r.name == (if p.name.Some? then p.name.value else row.name)
    ensures r.targetAmount == (if p.targetAmount.Some? then p.targetAmount.value else row.targetAmount)
    ensures r.currentAmount == (if p.currentAmount.Some? then p.currentAmount.value else row.currentAmount)
    ensures r.deadline == (if p.deadline.Some? then p.deadline.value else row.deadline)
    ensures r.color == (if p.color.Some? then p.color.value else row.color)
    ensures r.notes == (if p.notes.Some? then p.notes else row.notes)
  {
    row.(name := if p.name.Some? then p.name.value else row.name,
         targetAmount := if p.targetAmount.Some? then p.targetAmount.value else row.targetAmount,
         currentAmount := if p.currentAmount.Some? then p.currentAmount.value else row.currentAmount,
         deadline := if p.deadline.Some? then p.deadline.value else row.deadline,
         color := if p.color.Some? then p.color.value else row.color,
         notes := if p.notes.Some? then p.notes else row.notes,
         updatedAt := now)
  }

  /** `PATCH /:id`: an empty change-set is refused before the id is looked
      up; a missing id is a 404; otherwise only that row changes. */
  function UpdateGoal(t: GoalTable, id: Id, p: GoalPatch, now: Instant): (h: Handled<GoalTable, GoalView>)
    ensures !HasFields(p) ==> h == Handled(t, Thrown(Operational(400, NoFields)))
    ensures HasFields(p) && id !in t ==> h == Handled(t, Thrown(Operational(404, NotFound)))
    ensures h.outcome.Thrown? ==> h.state == t
    ensures h.outcome.Done? ==> && id in t
                                && h.outcome.value == View(Goal(id, PatchedGoal(t[id], p, now)))
                                && h.state == t[id := PatchedGoal(t[id], p, now)]
    ensures HasFields(p) && id in t ==> (h.outcome.Done? <==> GoalRowOk(PatchedGoal(t[id], p, now)))
  {
    if !HasFields(p) then Handled(t, Thrown(Operational(400, NoFields)))
    else
      match Storage.Update(TableName, t, id, row => PatchedGoal(row, p, now), GoalRowOk)
      case Failed(e) => Handled(t, Thrown(e))
      case Wrote(t', changes) =>
        if changes == 0 then Handled(t, Thrown(Operational(404, NotFound)))
        else Handled(t', Done(View(Goal(id, t'[id]))))
  }

  /** `DELETE /:id`. */
  function DeleteGoal(t: GoalTable, id: Id): Handled<GoalTable, string>
  {
    DeleteById(t, id, DeletedMessage, NotFound)
  }

  /** Whatever the handlers do, every stored goal keeps satisfying the CHECK
      constraints. */
  lemma HandlersKeepChecks(t: GoalTable, id: Id, c: NewGoal, p: GoalPatch, now: Instant)
    requires AllRows(t, GoalRowOk)
    ensures AllRows(CreateGoal(t, id, c, now).state, GoalRowOk)
    ensures AllRows(UpdateGoal(t, id, p, now).state, GoalRowOk)
    ensures AllRows(DeleteGoal(t, id).state, GoalRowOk)
  {
  }

  /** A create the validator accepts never trips a CHECK constraint, so with
      a fresh id it always succeeds, and the stored goal has not saved more
      than its target. */
  lemma ValidatedGoalCreateSucceeds(b: GoalBody, now: Instant, t: GoalTable, id: Id)
    requires ValidateGoal(b, now).Accepted? && id !in t
    ensures var h := CreateGoal(t, id, ValidateGoal(b, now).value, now);
      h.outcome.Done? && h.outcome.value.currentAmount <= h.outcome.value.targetAmount
  {
    var c := ValidateGoal(b, now).value;
    var row := NewGoalRow(c, now);
    assert |row.name| <= 100;
    assert |row.notes.value| <= 1000;
  }

  /** With a validated change-set the only errors left are the 400 for an
      empty body and the 404. */
  lemma ValidatedGoalUpdateOnlyFailsOperationally(idParam: string, b: GoalBody, t: GoalTable, now: Instant)
    requires AllRows(t, GoalRowOk)
    requires ValidateGoalUpdate(idParam, b).Accepted?
    ensures var (id, p) := ValidateGoalUpdate(idParam, b).value;
      var h := UpdateGoal(t, id, p, now);
      h.outcome.Thrown? ==> IsOperational(h.outcome.error)
  {
    var (id, p) := ValidateGoalUpdate(idParam, b).value;
    if HasFields(p) && id in t {
      assert GoalRowOk(t[id]);
      assert GoalRowOk(PatchedGoal(t[id], p, now));
    }
  }

  /** Unlike create, update does not compare the amounts: a goal can be
      patched to hold more than its target. */
  lemma PatchCanExceedTarget(now: Instant)
    ensures var row := GoalRow("Trip", 100.0, 0.0, now, "#00ff00", None, now, now);
      var s := PatchGoal(map["g1" := row], "g1", GoalBody(None, Absent, Present(500.0), Absent, None, None), now);
      && s.response.Success?
      && s.response.body.currentAmount > s.response.body.targetAmount
  {
    RaisingCurrentIsAccepted();
    RaisingCurrentApplies(now);
  }

  /** The update validator accepts a body that only sets `currentAmount`. */
  lemma RaisingCurrentIsAccepted()
    ensures ValidateGoalUpdate("g1", GoalBody(None, Absent, Present(500.0), Absent, None, None))
      == Accepted(("g1", GoalPatch(None, None, Some(500.0), None, None, None)))
  {
    TrimKeepsTrimmed("g1");
    assert GoalUpdateAcceptable("g1", GoalBody(None, Absent, Present(500.0), Absent, None, None));
  }

  /** The table's CHECKs do not relate the two amounts, so the update goes
      through with more saved than the target. */
  lemma RaisingCurrentApplies(now: Instant)
    ensures var row := GoalRow("Trip", 100.0, 0.0, now, "#00ff00", None, now, now);
      var h := UpdateGoal(map["g1" := row], "g1", GoalPatch(None, None, Some(500.0), None, None, None), now);
      && h.outcome.Done?
      && h.outcome.value.currentAmount > h.outcome.value.targetAmount
  {
    var row := GoalRow("Trip", 100.0, 0.0, now, "#00ff00", None, now, now);
    var p := GoalPatch(None, None, Some(500.0), None, None, None);
    assert GoalRowOk(PatchedGoal(row, p, now));
  }

  // ----- routes -----

  /** `POST /` with `validateGoal`. */
  function PostGoal(t: GoalTable, b: GoalBody, id: Id, now: Instant): (s: Served<GoalTable, GoalView>)
    ensures s.response.Invalid? <==> ValidateGoal(b, now).Rejected?
    ensures s.response.Invalid? ==> s.state == t && s.response.details == ValidateGoal(b, now).details
    ensures s.response.Success? <==> ValidateGoal(b, now).Accepted? && id !in t
    ensures s.response.Success? ==>
      var row := NewGoalRow(ValidateGoal(b, now).value, now);
      && StatusOf(s.response) == 201
      && s.response.body == View(Goal(id, row))
      && s.state == t[id := row]
    ensures !s.response.Success? ==> s.state == t
  {
    match ValidateGoal(b, now)
    case Rejected(details) => Served(t, Invalid(details))
    case Accepted(c) =>
      var h := CreateGoal(t, id, c, now);
      assert id !in t ==> h.outcome.Done? by {
        if id !in t {
          ValidatedGoalCreateSucceeds(b, now, t, id);
        }
      }
      Served(h.state, Reply(h.outcome, 201))
  }

  /** `PATCH /:id` with `validateGoalUpdate`. */
  function PatchGoal(t: GoalTable, idParam: string, b: GoalBody, now: Instant): (s: Served<GoalTable, GoalView>)
    ensures s.response.Invalid? <==> ValidateGoalUpdate(idParam, b).Rejected?
    ensures s.response.Invalid? ==> s.response.details == ValidateGoalUpdate(idParam, b).details
    ensures !s.response.Success? ==> s.state == t
    ensures s.response.Success? ==>
      var (id, p) := ValidateGoalUpdate(idParam, b).value;
      && HasFields(p) && id in t
      && StatusOf(s.response) == 200
      && s.response.body == View(Goal(id, PatchedGoal(t[id], p, now)))
      && s.state == t[id := PatchedGoal(t[id], p, now)]
    ensures ValidateGoalUpdate(idParam, b).Accepted? ==>
      var (id, p) := ValidateGoalUpdate(idParam, b).value;
      && (!HasFields(p) ==> s.response == Failure(ErrorReply(400, NoFields)))
      && (HasFields(p) && id !in t ==> s.response == Failure(ErrorReply(404, NotFound)))
      && (AllRows(t, GoalRowOk) ==> (s.response.Success? <==> HasFields(p) && id in t))
  {
    match ValidateGoalUpdate(idParam, b)
    case Rejected(details) => Served(t, Invalid(details))
    case Accepted((id, p)) =>
      var h := UpdateGoal(t, id, p, now);
      assert AllRows(t, GoalRowOk) ==> h.outcome.Thrown? ==> IsOperational(h.outcome.error) by {
        if AllRows(t, GoalRowOk) {
          ValidatedGoalUpdateOnlyFailsOperationally(idParam, b, t, now);
        }
      }
      Served(h.state, Reply(h.outcome, 200))
  }

  /** A patch with no field is a 400 "No fields to update", whether or not
      the id exists. */
  lemma PatchWithoutFieldsIs400(t: GoalTable, idParam: string, now: Instant)
    requires |Trim(idParam)| >= 1
    ensures var s := PatchGoal(t, idParam, GoalBody(None, Absent, Absent, Absent, None, None), now);
      s.state == t && s.response == Failure(ErrorReply(400, NoFields))
  {
  }

  /** `GET /:id` with `validateId`. */
  function FetchGoal(t: GoalTable, idParam: string): (r: Response<GoalView>)
    ensures r.Invalid? <==> Trim(idParam) == []
    ensures r.Invalid? ==> r.details == [FieldError("id", IdMessage)]
    ensures r.Success? <==> Trim(idParam) != [] && Trim(idParam) in t
    ensures r.Success? ==> r.body == View(Goal(Trim(idParam), t[Trim(idParam)])) && StatusOf(r) == 200
    ensures r.Failure? ==> r.reply == ErrorReply(404, NotFound)
  {
    match ValidateId(idParam)
    case Rejected(details) => Invalid(details)
    case Accepted(id) => Reply(GetGoal(t, id), 200)
  }

  /** `DELETE /:id` with `validateId`. */
  function RemoveGoal(t: GoalTable, idParam: string): (s: Served<GoalTable, string>)
    ensures s.response.Invalid? <==> Trim(idParam) == []
    ensures s.response.Invalid? ==> s.response.details == [FieldError("id", IdMessage)]
    ensures s.response.Success? <==> Trim(idParam) != [] && Trim(idParam) in t
    ensures s.response.Success? ==> s.state == t - {Trim(idParam)} && s.response.body == DeletedMessage && StatusOf(s.response) == 200
    ensures !s.response.Success? ==> s.state == t
    ensures s.response.Failure? ==> s.response.reply == ErrorReply(404, NotFound)
  {
    match ValidateId(idParam)
    case Rejected(details) => Served(t, Invalid(details))
    case Accepted(id) =>
      var h := DeleteGoal(t, id);
      Served(h.state, Reply(h.outcome, 200))
  }
}
