/** Request validation (backend/src/middleware/validation.ts). Each validator
    is an ordered list of rules over the request body; every rule that fails
    contributes one `{field, message}` entry, and the request reaches its
    handler only when none fails. Passing validators also sanitize: `trim()`
    rewrites the string fields the handler then reads. */
module Validation {
  import opened Common
  import opened Text

  datatype FieldError = FieldError(field: string, message: string)

  /** One rule of a validator chain: the field it reads, the message it
      reports, and whether the request passes it. */
  datatype Rule = Rule(field: string, message: string, passed: bool)

  /** Every rule of the chain passes. */
  predicate AllPass(rules: seq<Rule>)
  {
    forall i :: 0 <= i < |rules| ==> rules[i].passed
  }

  /** The failed rules, in order, as the 400 reply lists them. */
  function Failures(rules: seq<Rule>): (errs: seq<FieldError>)
    ensures |errs| <= |rules|
    ensures errs == [] <==> AllPass(rules)
  {
    if rules == [] then []
    else
      var rest := Failures(rules[1..]);
      assert forall i :: 1 <= i < |rules| ==> rules[i] == rules[1..][i - 1];
      (if rules[0].passed then [] else [FieldError(rules[0].field, rules[0].message)]) + rest
  }

  /** The reply lists exactly the failed rules. */
  lemma {:induction false} FailuresListFailed(rules: seq<Rule>)
    ensures forall e :: e in Failures(rules) <==>
      exists i :: 0 <= i < |rules| && !rules[i].passed && e == FieldError(rules[i].field, rules[i].message)
  {
    if rules != [] {
      FailuresListFailed(rules[1..]);
      assert forall i :: 1 <= i < |rules| ==> rules[i] == rules[1..][i - 1];
      forall e | exists i :: 0 <= i < |rules| && !rules[i].passed && e == FieldError(rules[i].field, rules[i].message)
        ensures e in Failures(rules)
      {
        var i :| 0 <= i < |rules| && !rules[i].passed && e == FieldError(rules[i].field, rules[i].message);
        if i > 0 {
          assert rules[1..][i - 1] == rules[i];
        }
      }
    }
  }

  /** The outcome of a validator: the sanitized request for the handler, or
      the failures for the 400 reply. */
  datatype Validated<T> = Accepted(value: T) | Rejected(details: seq<FieldError>)

  function OrEmpty(s: Option<string>): string
  {
    if s.Some? then s.value else ""
  }

  function TrimOption(s: Option<string>): (t: Option<string>)
    ensures t.Some? <==> s.Some?
  {
    if s.Some? then Some(Trim(s.value)) else None
  }

  function FieldValue<T>(f: Field<T>): (o: Option<T>)
    ensures o.Some? <==> f.Present?
  {
    if f.Present? then Some(f.value) else None
  }

  /** `isFloat({ min: lo, max: 999999999 })`. */
  predicate AmountWithin(f: Field<real>, lo: real)
  {
    f.Present? && lo <= f.value <= MaxAmount
  }

  /** `trim().isLength({ min: lo, max: hi })` on a field that may be missing
      (a missing field reads as the empty string), counted in code points:
      the measure SQLite's `length()` applies in the CHECK constraints, so a
      value this rule admits fits its column. */
  predicate TrimmedLengthWithin(s: Option<string>, lo: nat, hi: nat)
  {
    lo <= |Trim(OrEmpty(s))| <= hi
  }

  /** The variation selectors U+FE0E (text style) and U+FE0F (emoji style). */
  predicate IsVariationSelector(c: char)
  {
    c == '\U{FE0E}' || c == '\U{FE0F}'
  }

  /** The length validator.js `isLength` measures: the UTF-16 length less
      one per surrogate pair (so, code points) and less one per variation
      selector. */
  function IsLengthCount(s: string): (n: nat)
    ensures n <= |s|
  {
    if s == [] then 0
    else (if IsVariationSelector(s[0]) then 0 else 1) + IsLengthCount(s[1..])
  }

  /** `isLength` counts every code point exactly when the text has no
      variation selector. */
  lemma {:induction false} IsLengthCountsAllWithoutSelectors(s: string)
    ensures IsLengthCount(s) == |s| <==> forall i :: 0 <= i < |s| ==> !IsVariationSelector(s[i])
  {
    if s != [] {
      IsLengthCountsAllWithoutSelectors(s[1..]);
      assert forall i :: 1 <= i < |s| ==> s[1..][i - 1] == s[i];
    }
  }

  lemma {:induction false} IsLengthCountAppend(s: string, t: string)
    ensures IsLengthCount(s + t) == IsLengthCount(s) + IsLengthCount(t)
  {
    if s == [] {
      assert s + t == t;
    } else {
      assert (s + t)[0] == s[0] && (s + t)[1..] == s[1..] + t;
      IsLengthCountAppend(s[1..], t);
    }
  }

  /** The length rule as the validator chain applies it, with `isLength`'s
      own count. */
  predicate TrimmedIsLengthWithin(s: Option<string>, lo: nat, hi: nat)
  {
    lo <= IsLengthCount(Trim(OrEmpty(s))) <= hi
  }

  // ----- messages -----

  const TypeMessage: string := "Type must be either income or expense"
  const AmountMessage: string := "Amount must be a positive number between 0.01 and 999999999"
  const CategoryRequiredMessage: string := "Category is required and must be less than 50 characters"
  const CategoryLengthMessage: string := "Category must be less than 50 characters"
  const DescriptionMessage: string := "Description must be less than 500 characters"
  const DateMessage: string := "Date must be a valid ISO 8601 date"
  const FutureDateMessage: string := "Date cannot be more than 1 year in the future"
  const SourceMessage: string := "Source must be less than 100 characters"
  const TransactionIdMessage: string := "Transaction ID is required"
  const NameRequiredMessage: string := "Name is required and must be less than 100 characters"
  const NameLengthMessage: string := "Name must be less than 100 characters"
  const TargetMessage: string := "Target amount must be a positive number between 0.01 and 999999999"
  const TargetUpdateMessage: string := "Target amount must be a positive number"
  const CurrentMessage: string := "Current amount must be a non-negative number less than 999999999"
  const CurrentUpdateMessage: string := "Current amount must be a non-negative number"
  const ExceedsTargetMessage: string := "Current amount cannot exceed target amount"
  const DeadlineMessage: string := "Deadline must be a valid ISO 8601 date"
  const PastDeadlineMessage: string := "Deadline cannot be in the past"
  const ColorMessage: string := "Color must be a valid hex color code (e.g., #10b981)"
  const ColorUpdateMessage: string := "Color must be a valid hex color code"
  const NotesMessage: string := "Notes must be less than 1000 characters"
  const GoalIdMessage: string := "Goal ID is required"
  const IdMessage: string := "ID is required"

  // ----- transactions -----

  /** A transaction request body as parsed from JSON. */
  datatype TransactionBody = TransactionBody(
    kind: Option<string>,
    amount: Field<real>,
    category: Option<string>,
    description: Option<string>,
    date: Field<Instant>,
    source: Option<string>)

  /** What the create handler reads once `validateTransaction` has passed. */
  datatype NewTransaction = NewTransaction(
    kind: Kind,
    category: string,
    amount: real,
    description: Option<string>,
    date: Instant,
    source: Option<string>)

  /** What the update handler reads once `validateTransactionUpdate` has
      passed: the fields present in the body. */
  datatype TransactionPatch = TransactionPatch(
    category: Option<string>,
    amount: Option<real>,
    description: Option<string>,
    date: Option<Instant>,
    source: Option<string>)

  /** The `validateTransaction` chain in declaration order. */
  function TransactionRules(b: TransactionBody, now: Instant): seq<Rule>
  {
    [ Rule("type", TypeMessage, b.kind == Some("income") || b.kind == Some("expense")),
      Rule("amount", AmountMessage, AmountWithin(b.amount, MinAmount)),
      Rule("category", CategoryRequiredMessage, TrimmedLengthWithin(b.category, 1, 50)),
      Rule("description", DescriptionMessage, b.description.None? || TrimmedLengthWithin(b.description, 0, 500)),
      Rule("date", DateMessage, b.date.Present?),
      Rule("date", FutureDateMessage, !(b.date.Present? && Before(YearLater(now), b.date.value))),
      Rule("source", SourceMessage, b.source.None? || TrimmedLengthWithin(b.source, 0, 100)) ]
  }

  /** The conditions under which a transaction may be created. */
  predicate TransactionAcceptable(b: TransactionBody, now: Instant)
  {
    && b.kind.Some? && ParseKind(b.kind.value).Some?
    && b.amount.Present? && MinAmount <= b.amount.value <= MaxAmount
    && b.category.Some? && 1 <= |Trim(b.category.value)| <= 50
    && (b.description.Some? ==> |Trim(b.description.value)| <= 500)
    && b.date.Present? && NotAfter(b.date.value, YearLater(now))
    && (b.source.Some? ==> |Trim(b.source.value)| <= 100)
  }

  /** Rule by rule, what the chain checks. */
  lemma TransactionRulesMeaning(b: TransactionBody, now: Instant)
    ensures AllPass(TransactionRules(b, now)) <==> TransactionAcceptable(b, now)
  {
    var r := TransactionRules(b, now);
    assert |Trim("")| == 0;
    assert AllPass(r) <==> r[0].passed && r[1].passed && r[2].passed && r[3].passed && r[4].passed && r[5].passed && r[6].passed;
  }

  /** `validateTransaction` followed by `handleValidationErrors`. */
  function ValidateTransaction(b: TransactionBody, now: Instant): (v: Validated<NewTransaction>)
    ensures v.Accepted? <==> TransactionAcceptable(b, now)
    ensures v.Rejected? ==> v.details != [] && v.details == Failures(TransactionRules(b, now))
    ensures v.Accepted? ==> && v.value.category == Trim(b.category.value)
                            && v.value.amount == b.amount.value
                            && v.value.date == b.date.value
                            && KindName(v.value.kind) == b.kind.value
                            && v.value.description == TrimOption(b.description)
                            && v.value.source == TrimOption(b.source)
  {
    var rules := TransactionRules(b, now);
    TransactionRulesMeaning(b, now);
    var errs := Failures(rules);
    if errs != [] then Rejected(errs)
    else Accepted(NewTransaction(ParseKind(b.kind.value).value, Trim(b.category.value), b.amount.value,
        TrimOption(b.description), b.date.value, TrimOption(b.source)))
  }

  /** The `validateTransactionUpdate` chain: the id parameter, then only
      optional fields; no `type` rule and no future-date rule. */
  function TransactionUpdateRules(id: string, b: TransactionBody): seq<Rule>
  {
    [ Rule("id", TransactionIdMessage, |Trim(id)| >= 1),
      Rule("amount", AmountMessage, b.amount.Absent? || AmountWithin(b.amount, MinAmount)),
      Rule("category", CategoryLengthMessage, b.category.None? || TrimmedLengthWithin(b.category, 1, 50)),
      Rule("description", DescriptionMessage, b.description.None? || TrimmedLengthWithin(b.description, 0, 500)),
      Rule("date", DateMessage, !b.date.Unparsable?),
      Rule("source", SourceMessage, b.source.None? || TrimmedLengthWithin(b.source, 0, 100)) ]
  }

  predicate TransactionUpdateAcceptable(id: string, b: TransactionBody)
  {
    && |Trim(id)| >= 1
    && (b.amount.Absent? || (b.amount.Present? && MinAmount <= b.amount.value <= MaxAmount))
    && (b.category.Some? ==> 1 <= |Trim(b.category.value)| <= 50)
    && (b.description.Some? ==> |Trim(b.description.value)| <= 500)
    && !b.date.Unparsable?
    && (b.source.Some? ==> |Trim(b.source.value)| <= 100)
  }

  lemma TransactionUpdateRulesMeaning(id: string, b: TransactionBody)
    ensures AllPass(TransactionUpdateRules(id, b)) <==> TransactionUpdateAcceptable(id, b)
  {
    var r := TransactionUpdateRules(id, b);
    assert AllPass(r) <==> r[0].passed && r[1].passed && r[2].passed && r[3].passed && r[4].passed && r[5].passed;
  }

  /** `validateTransactionUpdate` followed by `handleValidationErrors`; the
      handler receives the trimmed id and the present fields. */
  function ValidateTransactionUpdate(id: string, b: TransactionBody): (v: Validated<(Id, TransactionPatch)>)
    ensures v.Accepted? <==> TransactionUpdateAcceptable(id, b)
    ensures v.Rejected? ==> v.details != [] && v.details == Failures(TransactionUpdateRules(id, b))
    ensures v.Accepted? ==> && v.value.0 == Trim(id)
                            && v.value.1.category == TrimOption(b.category)
                            && v.value.1.amount == FieldValue(b.amount)
                            && v.value.1.description == TrimOption(b.description)
                            && v.value.1.date == FieldValue(b.date)
                            && v.value.1.source == TrimOption(b.source)
  {
    var rules := TransactionUpdateRules(id, b);
    TransactionUpdateRulesMeaning(id, b);
    var errs := Failures(rules);
    if errs != [] then Rejected(errs)
    else Accepted((Trim(id), TransactionPatch(TrimOption(b.category), FieldValue(b.amount),
        TrimOption(b.description), FieldValue(b.date), TrimOption(b.source))))
  }

  /** The update validator never looks at `type`. */
  lemma UpdateIgnoresType(id: string, b: TransactionBody, kind: Option<string>)
    ensures ValidateTransactionUpdate(id, b) == ValidateTransactionUpdate(id, b.(kind := kind))
  {
    assert TransactionUpdateRules(id, b) == TransactionUpdateRules(id, b.(kind := kind));
  }

  /** The update validator has no date horizon: any parsed date is as good as none. */
  lemma UpdateHasNoDateHorizon(id: string, b: TransactionBody, d: Instant)
    ensures ValidateTransactionUpdate(id, b.(date := Present(d))).Accepted?
        <==> ValidateTransactionUpdate(id, b.(date := Absent)).Accepted?
  {
  }

  /** A create request whose category is missing or blank is always refused,
      so the create handler never sees an empty category. */
  lemma CreateRequiresCategory(b: TransactionBody, now: Instant)
    requires b.category.None? || Trim(b.category.value) == ""
    ensures ValidateTransaction(b, now).Rejected?
    ensures FieldError("category", CategoryRequiredMessage) in ValidateTransaction(b, now).details
  {
    var rules := TransactionRules(b, now);
    assert !rules[2].passed;
    FailuresListFailed(rules);
  }

  // ----- goals -----

  /** A goal request body as parsed from JSON. */
  datatype GoalBody = GoalBody(
    name: Option<string>,
    targetAmount: Field<real>,
    currentAmount: Field<real>,
    deadline: Field<Instant>,
    color: Option<string>,
    notes: Option<string>)

  /** What the create handler reads once `validateGoal` has passed. */
  datatype NewGoal = NewGoal(
    name: string,
    targetAmount: real,
    currentAmount: Option<real>,
    deadline: Instant,
    color: string,
    notes: Option<string>)

  /** What the update handler reads once `validateGoalUpdate` has passed. */
  datatype GoalPatch = GoalPatch(
    name: Option<string>,
    targetAmount: Option<real>,
    currentAmount: Option<real>,
    deadline: Option<Instant>,
    color: Option<string>,
    notes: Option<string>)

  /** The `validateGoal` chain in declaration order. The cross-field rule
      compares only when both amounts are numbers, and the deadline rule
      only when the deadline parsed. */
  function GoalRules(b: GoalBody, now: Instant): seq<Rule>
  {
    [ Rule("name", NameRequiredMessage, TrimmedLengthWithin(b.name, 1, 100)),
      Rule("targetAmount", TargetMessage, AmountWithin(b.targetAmount, MinAmount)),
      Rule("currentAmount", CurrentMessage, b.currentAmount.Absent? || AmountWithin(b.currentAmount, 0.0)),
      Rule("currentAmount", ExceedsTargetMessage,
        !(b.currentAmount.Present? && b.targetAmount.Present? && b.currentAmount.value > b.targetAmount.value)),
      Rule("deadline", DeadlineMessage, b.deadline.Present?),
      Rule("deadline", PastDeadlineMessage, !(b.deadline.Present? && Before(b.deadline.value, now))),
      Rule("color", ColorMessage, IsHexColor(Trim(OrEmpty(b.color)))),
      Rule("notes", NotesMessage, b.notes.None? || TrimmedLengthWithin(b.notes, 0, 1000)) ]
  }

  /** The conditions under which a goal may be created. */
  predicate GoalAcceptable(b: GoalBody, now: Instant)
  {
    && b.name.Some? && 1 <= |Trim(b.name.value)| <= 100
    && b.targetAmount.Present? && MinAmount <= b.targetAmount.value <= MaxAmount
    && (b.currentAmount.Absent? || (b.currentAmount.Present? && 0.0 <= b.currentAmount.value <= b.targetAmount.value))
    && b.deadline.Present? && NotAfter(now, b.deadline.value)
    && b.color.Some? && IsHexColor(Trim(b.color.value))
    && (b.notes.Some? ==> |Trim(b.notes.value)| <= 1000)
  }

  lemma GoalRulesMeaning(b: GoalBody, now: Instant)
    ensures AllPass(GoalRules(b, now)) <==> GoalAcceptable(b, now)
  {
    var r := GoalRules(b, now);
    assert |Trim("")| == 0;
    assert AllPass(r) <==> r[0].passed && r[1].passed && r[2].passed && r[3].passed && r[4].passed && r[5].passed && r[6].passed && r[7].passed;
  }

  /** `validateGoal` followed by `handleValidationErrors`. */
  function ValidateGoal(b: GoalBody, now: Instant): (v: Validated<NewGoal>)
    ensures v.Accepted? <==> GoalAcceptable(b, now)
    ensures v.Rejected? ==> v.details != [] && v.details == Failures(GoalRules(b, now))
    ensures v.Accepted? ==> && v.value.name == Trim(b.name.value)
                            && v.value.targetAmount == b.targetAmount.value
                            && v.value.currentAmount == FieldValue(b.currentAmount)
                            && v.value.deadline == b.deadline.value
                            && v.value.color == Trim(b.color.value)
                            && v.value.notes == TrimOption(b.notes)
  {
    var rules := GoalRules(b, now);
    GoalRulesMeaning(b, now);
    var errs := Failures(rules);
    if errs != [] then Rejected(errs)
    else Accepted(NewGoal(Trim(b.name.value), b.targetAmount.value, FieldValue(b.currentAmount),
        b.deadline.value, Trim(b.color.value), TrimOption(b.notes)))
  }

  /** The create-only cross-field rules: saved more than the target, or a
      deadline already past, is refused with its own message. */
  lemma GoalCrossFieldRules(b: GoalBody, now: Instant)
    ensures b.currentAmount.Present? && b.targetAmount.Present? && b.currentAmount.value > b.targetAmount.value
      ==> FieldError("currentAmount", ExceedsTargetMessage) in ValidateGoal(b, now).details
    ensures b.deadline.Present? && Before(b.deadline.value, now)
      ==> FieldError("deadline", PastDeadlineMessage) in ValidateGoal(b, now).details
  {
    var rules := GoalRules(b, now);
    assert rules[3].field == "currentAmount" && rules[3].message == ExceedsTargetMessage;
    assert rules[5].field == "deadline" && rules[5].message == PastDeadlineMessage;
    FailuresListFailed(rules);
  }

  /** The `validateGoalUpdate` chain: the id parameter, then optional fields
      with their own bounds; the colour is matched without trimming. */
  function GoalUpdateRules(id: string, b: GoalBody): seq<Rule>
  {
    [ Rule("id", GoalIdMessage, |Trim(id)| >= 1),
      Rule("name", NameLengthMessage, b.name.None? || TrimmedLengthWithin(b.name, 1, 100)),
      Rule("targetAmount", TargetUpdateMessage, b.targetAmount.Absent? || AmountWithin(b.targetAmount, MinAmount)),
      Rule("currentAmount", CurrentUpdateMessage, b.currentAmount.Absent? || AmountWithin(b.currentAmount, 0.0)),
      Rule("deadline", DeadlineMessage, !b.deadline.Unparsable?),
      Rule("color", ColorUpdateMessage, b.color.None? || IsHexColor(b.color.value)),
      Rule("notes", NotesMessage, b.notes.None? || TrimmedLengthWithin(b.notes, 0, 1000)) ]
  }

  predicate GoalUpdateAcceptable(id: string, b: GoalBody)
  {
    && |Trim(id)| >= 1
    && (b.name.Some? ==> 1 <= |Trim(b.name.value)| <= 100)
    && (b.targetAmount.Absent? || (b.targetAmount.Present? && MinAmount <= b.targetAmount.value <= MaxAmount))
    && (b.currentAmount.Absent? || (b.currentAmount.Present? && 0.0 <= b.currentAmount.value <= MaxAmount))
    && !b.deadline.Unparsable?
    && (b.color.Some? ==> IsHexColor(b.color.value))
    && (b.notes.Some? ==> |Trim(b.notes.value)| <= 1000)
  }

  lemma GoalUpdateRulesMeaning(id: string, b: GoalBody)
    ensures AllPass(GoalUpdateRules(id, b)) <==> GoalUpdateAcceptable(id, b)
  {
    var r := GoalUpdateRules(id, b);
    assert AllPass(r) <==> r[0].passed && r[1].passed && r[2].passed && r[3].passed && r[4].passed && r[5].passed && r[6].passed;
  }

  /** `validateGoalUpdate` followed by `handleValidationErrors`. */
  function ValidateGoalUpdate(id: string, b: GoalBody): (v: Validated<(Id, GoalPatch)>)
    ensures v.Accepted? <==> GoalUpdateAcceptable(id, b)
    ensures v.Rejected? ==> v.details != [] && v.details == Failures(GoalUpdateRules(id, b))
    ensures v.Accepted? ==> && v.value.0 == Trim(id)
                            && v.value.1.name == TrimOption(b.name)
                            && v.value.1.targetAmount == FieldValue(b.targetAmount)
                            && v.value.1.currentAmount == FieldValue(b.currentAmount)
                            && v.value.1.deadline == FieldValue(b.deadline)
                            && v.value.1.color == b.color
                            && v.value.1.notes == TrimOption(b.notes)
  {
    var rules := GoalUpdateRules(id, b);
    GoalUpdateRulesMeaning(id, b);
    var errs := Failures(rules);
    if errs != [] then Rejected(errs)
    else Accepted((Trim(id), GoalPatch(TrimOption(b.name), FieldValue(b.targetAmount), FieldValue(b.currentAmount),
        FieldValue(b.deadline), b.color, TrimOption(b.notes))))
  }

  /** The update validator neither compares the two amounts nor looks at the
      clock: whether a body passes does not depend on how they relate. */
  lemma GoalUpdateSkipsCrossChecks(id: string, b: GoalBody, current: real, target: real, deadline: Instant)
    requires 0.0 <= current <= MaxAmount && MinAmount <= target <= MaxAmount
    ensures ValidateGoalUpdate(id, b.(currentAmount := Present(current), targetAmount := Present(target),
        deadline := Present(deadline))).Accepted?
      <==> ValidateGoalUpdate(id, b.(currentAmount := Absent, targetAmount := Absent, deadline := Absent)).Accepted?
  {
  }

  /** `validateId` followed by `handleValidationErrors`. */
  function ValidateId(id: string): (v: Validated<Id>)
    ensures v.Accepted? <==> Trim(id) != []
    ensures v.Accepted? ==> v.value == Trim(id)
    ensures v.Rejected? ==> v.details == [FieldError("id", IdMessage)]
  {
    var rules := [Rule("id", IdMessage, |Trim(id)| >= 1)];
    var errs := Failures(rules);
    if errs != [] then Rejected(errs) else Accepted(Trim(id))
  }
}
