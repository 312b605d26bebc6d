/** Values shared by every layer of the finance tracker backend: optional
    and parsed request fields, transaction kinds, calendar instants and the
    money bounds that both the validators and the storage layer enforce. */
module Common {

  /** Row identifiers are opaque strings (uuid v4 in the running system). */
  type Id = string

  datatype Option<T> = None | Some(value: T)

  /** A request-body field that has to parse (a number, an ISO 8601 date):
      missing, present with its parsed value, or present but unparsable. */
  datatype Field<T> = Absent | Present(value: T) | Unparsable

  /** The two transaction types the `type` column admits. */
  datatype Kind = Income | Expense

  function KindName(k: Kind): string
  {
    match k
    case Income => "income"
    case Expense => "expense"
  }

  function ParseKind(s: string): (k: Option<Kind>)
    ensures k.Some? ==> KindName(k.value) == s
    ensures k.None? <==> s != "income" && s != "expense"
  {
    if s == "income" then Some(Income)
    else if s == "expense" then Some(Expense)
    else None
  }

  /** An already-parsed date-time: the calendar year and the position inside
      that year (month, day and time of day folded into one ordered number).
      Instants are compared lexicographically. */
  datatype Instant = Instant(year: int, withinYear: nat)

  predicate Before(a: Instant, b: Instant)
  {
    a.year < b.year || (a.year == b.year && a.withinYear < b.withinYear)
  }

  predicate NotAfter(a: Instant, b: Instant)
  {
    !Before(b, a)
  }

  /** The same position one calendar year later, as `setFullYear(year + 1)`. */
  function YearLater(t: Instant): (u: Instant)
    ensures Before(t, u)
    ensures u.withinYear == t.withinYear && u.year == t.year + 1
  {
    Instant(t.year + 1, t.withinYear)
  }

  /** Upper bound of every amount column and amount rule. */
  const MaxAmount: real := 999999999.0

  /** Smallest amount a transaction or target may have. */
  const MinAmount: real := 0.01

  function Min(a: real, b: real): real
  {
    if a <= b then a else b
  }
}
