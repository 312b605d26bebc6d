/** `GET /transactions/stats/summary` (backend/src/routes/transactions.ts,
    lines 154-179): per (type, category) the SUM, COUNT and AVG of the
    amounts, optionally restricted to a date window, ordered by total
    descending. GROUP BY is modelled as a fold that adds each row to the
    group with its key, or opens a new group. */
module Summary {
  import opened Common
  import opened Storage
  import opened Sorting
  import opened Transactions

  /** The `startDate` and `endDate` query parameters; `None` is missing or
      empty (both are falsy). */
  datatype DateRange = DateRange(start: Option<Instant>, end: Option<Instant>)

  /** `WHERE date BETWEEN ? AND ?`, added only when both ends are given;
      BETWEEN includes both ends. */
  function DateKeep(q: DateRange): TransactionRow -> bool
  {
    (row: TransactionRow) => q.start.None? || q.end.None? || (NotAfter(q.start.value, row.date) && NotAfter(row.date, q.end.value))
  }

  /** With either end missing the window is ignored and every row counts. */
  lemma OneDateIsIgnored(q: DateRange, row: TransactionRow)
    requires q.start.None? || q.end.None?
    ensures DateKeep(q)(row)
  {
  }

  /** With both ends the window keeps exactly the rows dated inside it. */
  lemma BothDatesBound(q: DateRange, row: TransactionRow)
    requires q.start.Some? && q.end.Some?
    ensures DateKeep(q)(row) <==> NotAfter(q.start.value, row.date) && NotAfter(row.date, q.end.value)
  {
  }

  /** The GROUP BY key. */
  datatype GroupKey = GroupKey(kind: Kind, category: string)

  function KeyOf(x: Transaction): GroupKey
  {
    GroupKey(x.row.kind, x.row.category)
  }

  /** One line of the reply: `type, category, total, count, average`. */
  datatype Stat = Stat(kind: Kind, category: string, total: real, count: nat, average: real)

  function StatKey(s: Stat): GroupKey
  {
    GroupKey(s.kind, s.category)
  }

  /** Reference definitions: COUNT(*) and SUM(amount) of the rows with key `k`. */
  function CountOf(rows: seq<Transaction>, k: GroupKey): nat
  {
    if rows == [] then 0
    else CountOf(rows[..|rows| - 1], k) + (if KeyOf(rows[|rows| - 1]) == k then 1 else 0)
  }

  function TotalOf(rows: seq<Transaction>, k: GroupKey): real
  {
    if rows == [] then 0.0
    else TotalOf(rows[..|rows| - 1], k) + (if KeyOf(rows[|rows| - 1]) == k then rows[|rows| - 1].row.amount else 0.0)
  }

  function CountAsReal(s: Stat): real
  {
    s.count as real
  }

  function TotalOfStat(s: Stat): real
  {
    s.total
  }

  function AmountOf(x: Transaction): real
  {
    x.row.amount
  }

  /** `stats` is the GROUP BY result for `rows`: one line per key that occurs,
      each with that key's count, total and average, and together they
      account for every row and every amount. */
  ghost predicate Summarizes(stats: seq<Stat>, rows: seq<Transaction>)
  {
    && DistinctKeys(stats, StatKey)
    && LinesCorrect(stats, rows)
    && Covers(stats, rows)
    && Sum(stats, CountAsReal) == |rows| as real
    && Sum(stats, TotalOfStat) == Sum(rows, AmountOf)
  }

  /** Every line carries its key's count, total and average. */
  ghost predicate LinesCorrect(stats: seq<Stat>, rows: seq<Transaction>)
  {
    forall i :: 0 <= i < |stats| ==> LineCorrect(stats[i], rows)
  }

  /** One line's count, total and average are those of its key's rows. */
  ghost predicate LineCorrect(s: Stat, rows: seq<Transaction>)
  {
    && s.count == CountOf(rows, StatKey(s))
    && s.total == TotalOf(rows, StatKey(s))
    && s.count >= 1
    && s.average == s.total / (s.count as real)
  }

  /** Every row's key has a line. */
  ghost predicate Covers(stats: seq<Stat>, rows: seq<Transaction>)
  {
    forall j :: 0 <= j < |rows| ==> HasKey(stats, KeyOf(rows[j]))
  }

  /** A new group holding one row. */
  function Open(x: Transaction): Stat
  {
    Stat(x.row.kind, x.row.category, x.row.amount, 1, x.row.amount)
  }

  /** A group with one more row. */
  function Bump(s: Stat, amount: real): Stat
  {
    var total := s.total + amount;
    var count := s.count + 1;
    s.(total := total, count := count, average := total / (count as real))
  }

  /** Add one row to the group with its key, or open a group at the end. */
  function AddRow(stats: seq<Stat>, x: Transaction): seq<Stat>
  {
    if stats == [] then [Open(x)]
    else if StatKey(stats[0]) == KeyOf(x) then [Bump(stats[0], x.row.amount)] + stats[1..]
    else [stats[0]] + AddRow(stats[1..], x)
  }

  /** GROUP BY over `rows` in scan order. */
  function Grouped(rows: seq<Transaction>): seq<Stat>
  {
    if rows == [] then [] else AddRow(Grouped(rows[..|rows| - 1]), rows[|rows| - 1])
  }

  ghost predicate HasKey(stats: seq<Stat>, k: GroupKey)
  {
    exists i :: 0 <= i < |stats| && StatKey(stats[i]) == k
  }

  /** Adding a row counts one more row and its amount. */
  lemma {:induction false} AddRowSums(stats: seq<Stat>, x: Transaction)
    ensures Sum(AddRow(stats, x), CountAsReal) == Sum(stats, CountAsReal) + 1.0
    ensures Sum(AddRow(stats, x), TotalOfStat) == Sum(stats, TotalOfStat) + x.row.amount
  {
    if stats != [] {
      var r := AddRow(stats, x);
      if StatKey(stats[0]) == KeyOf(x) {
        assert r[1..] == stats[1..];
      } else {
        AddRowSums(stats[1..], x);
        assert r[1..] == AddRow(stats[1..], x);
      }
    }
  }

  /** A row whose key has a group bumps that group and nothing else. */
  lemma {:induction false} AddRowBumps(stats: seq<Stat>, x: Transaction)
    requires DistinctKeys(stats, StatKey)
    requires HasKey(stats, KeyOf(x))
    ensures var r := AddRow(stats, x);
      && |r| == |stats|
      && forall i :: 0 <= i < |stats| ==>
           r[i] == (if StatKey(stats[i]) == KeyOf(x) then Bump(stats[i], x.row.amount) else stats[i])
  {
    var r := AddRow(stats, x);
    if StatKey(stats[0]) == KeyOf(x) {
      forall i | 1 <= i < |stats|
        ensures StatKey(stats[i]) != KeyOf(x)
      {
        assert StatKey(stats[0]) != StatKey(stats[i]);
      }
    } else {
      var tail := stats[1..];
      assert forall i :: 1 <= i < |stats| ==> tail[i - 1] == stats[i];
      var i :| 0 <= i < |stats| && StatKey(stats[i]) == KeyOf(x);
      assert StatKey(tail[i - 1]) == KeyOf(x);
      AddRowBumps(tail, x);
      assert r == [stats[0]] + AddRow(tail, x);
    }
  }

  /** A row with a new key opens a group at the end. */
  lemma {:induction false} AddRowAppends(stats: seq<Stat>, x: Transaction)
    requires !HasKey(stats, KeyOf(x))
    ensures AddRow(stats, x) == stats + [Open(x)]
  {
    if stats != [] {
      var tail := stats[1..];
      assert !HasKey(tail, KeyOf(x)) by {
        forall i | 0 <= i < |tail|
          ensures StatKey(tail[i]) != KeyOf(x)
        {
          assert tail[i] == stats[i + 1];
        }
      }
      AddRowAppends(tail, x);
      assert [stats[0]] + (tail + [Open(x)]) == stats + [Open(x)];
    }
  }

  lemma {:induction false} SumAppend<T>(s: seq<T>, x: T, f: T -> real)
    ensures Sum(s + [x], f) == Sum(s, f) + f(x)
  {
    if s != [] {
      assert (s + [x])[1..] == s[1..] + [x];
      SumAppend(s[1..], x, f);
    }
  }

  /** Adding a row to the summary of `rows` gives the summary of `rows + [x]`. */
  lemma AddRowSummarizes(stats: seq<Stat>, rows: seq<Transaction>, x: Transaction)
    requires Summarizes(stats, rows)
    ensures Summarizes(AddRow(stats, x), rows + [x])
  {
    AddRowSums(stats, x);
    SumAppend(rows, x, AmountOf);
    if HasKey(stats, KeyOf(x)) {
      AddRowToGroup(stats, rows, x);
    } else {
      AddRowAsGroup(stats, rows, x);
    }
    AddRowCovers(stats, rows, x);
  }

  lemma CountOfAppend(rows: seq<Transaction>, x: Transaction, k: GroupKey)
    ensures CountOf(rows + [x], k) == CountOf(rows, k) + (if KeyOf(x) == k then 1 else 0)
    ensures TotalOf(rows + [x], k) == TotalOf(rows, k) + (if KeyOf(x) == k then x.row.amount else 0.0)
  {
    assert (rows + [x])[..|rows|] == rows;
  }

  lemma AddRowToGroup(stats: seq<Stat>, rows: seq<Transaction>, x: Transaction)
    requires DistinctKeys(stats, StatKey) && LinesCorrect(stats, rows)
    requires HasKey(stats, KeyOf(x))
    ensures DistinctKeys(AddRow(stats, x), StatKey)
    ensures LinesCorrect(AddRow(stats, x), rows + [x])
  {
    var r := AddRow(stats, x);
    AddRowBumps(stats, x);
    SameKeysStayDistinct(stats, r);
    forall i | 0 <= i < |r|
      ensures LineCorrect(r[i], rows + [x])
    {
      LineAfterRow(stats[i], rows, x);
    }
  }

  /** Lines with the same keys in the same places keep them distinct. */
  lemma SameKeysStayDistinct(stats: seq<Stat>, r: seq<Stat>)
    requires DistinctKeys(stats, StatKey)
    requires |r| == |stats| && forall i :: 0 <= i < |r| ==> StatKey(r[i]) == StatKey(stats[i])
    ensures DistinctKeys(r, StatKey)
  {
  }

  /** A correct line, bumped when the new row has its key, stays correct. */
  lemma LineAfterRow(s: Stat, rows: seq<Transaction>, x: Transaction)
    requires LineCorrect(s, rows)
    ensures LineCorrect(if StatKey(s) == KeyOf(x) then Bump(s, x.row.amount) else s, rows + [x])
  {
    CountOfAppend(rows, x, StatKey(s));
  }

  lemma AddRowAsGroup(stats: seq<Stat>, rows: seq<Transaction>, x: Transaction)
    requires DistinctKeys(stats, StatKey) && LinesCorrect(stats, rows) && Covers(stats, rows)
    requires !HasKey(stats, KeyOf(x))
    ensures DistinctKeys(AddRow(stats, x), StatKey)
    ensures LinesCorrect(AddRow(stats, x), rows + [x])
  {
    AddRowAppends(stats, x);
    NewKeyStaysDistinct(stats, x);
    NewKeyLineCorrect(stats, rows, x);
  }

  lemma NewKeyStaysDistinct(stats: seq<Stat>, x: Transaction)
    requires DistinctKeys(stats, StatKey)
    requires !HasKey(stats, KeyOf(x))
    ensures DistinctKeys(stats + [Open(x)], StatKey)
  {
    var r := stats + [Open(x)];
    assert forall i :: 0 <= i < |stats| ==> r[i] == stats[i];
  }

  /** A key no line has belongs to no row yet. */
  lemma NewKeyUnseen(stats: seq<Stat>, rows: seq<Transaction>, k: GroupKey)
    requires Covers(stats, rows)
    requires !HasKey(stats, k)
    ensures CountOf(rows, k) == 0 && TotalOf(rows, k) == 0.0
  {
    forall j | 0 <= j < |rows|
      ensures KeyOf(rows[j]) != k
    {
      assert HasKey(stats, KeyOf(rows[j]));
    }
    NoKeyNoCount(rows, k);
  }

  lemma NewKeyLineCorrect(stats: seq<Stat>, rows: seq<Transaction>, x: Transaction)
    requires LinesCorrect(stats, rows) && Covers(stats, rows)
    requires !HasKey(stats, KeyOf(x))
    ensures LinesCorrect(stats + [Open(x)], rows + [x])
  {
    var r := stats + [Open(x)];
    NewKeyUnseen(stats, rows, KeyOf(x));
    CountOfAppend(rows, x, KeyOf(x));
    forall i | 0 <= i < |stats|
      ensures LineCorrect(r[i], rows + [x])
    {
      assert r[i] == stats[i];
      LineAfterRow(stats[i], rows, x);
    }
  }

  lemma AddRowCovers(stats: seq<Stat>, rows: seq<Transaction>, x: Transaction)
    requires DistinctKeys(stats, StatKey) && Covers(stats, rows)
    ensures Covers(AddRow(stats, x), rows + [x])
  {
    var r := AddRow(stats, x);
    var rows' := rows + [x];
    if HasKey(stats, KeyOf(x)) {
      AddRowBumps(stats, x);
    } else {
      AddRowAppends(stats, x);
    }
    forall j | 0 <= j < |rows'|
      ensures HasKey(r, KeyOf(rows'[j]))
    {
      var k := KeyOf(rows'[j]);
      if j < |rows| {
        assert rows'[j] == rows[j];
        var i :| 0 <= i < |stats| && StatKey(stats[i]) == k;
        assert StatKey(r[i]) == k;
      } else if HasKey(stats, k) {
        var i :| 0 <= i < |stats| && StatKey(stats[i]) == k;
        assert StatKey(r[i]) == k;
      } else {
        assert StatKey(r[|stats|]) == k;
      }
    }
  }

  /** A key no row has gets count 0 and total 0. */
  lemma {:induction false} NoKeyNoCount(rows: seq<Transaction>, k: GroupKey)
    requires forall j :: 0 <= j < |rows| ==> KeyOf(rows[j]) != k
    ensures CountOf(rows, k) == 0 && TotalOf(rows, k) == 0.0
  {
    if rows != [] {
      NoKeyNoCount(rows[..|rows| - 1], k);
    }
  }

  /** The fold computes the GROUP BY result. */
  lemma {:induction false} GroupedSummarizes(rows: seq<Transaction>)
    ensures Summarizes(Grouped(rows), rows)
  {
    if rows != [] {
      var init := rows[..|rows| - 1];
      GroupedSummarizes(init);
      AddRowSummarizes(Grouped(init), init, rows[|rows| - 1]);
      assert init + [rows[|rows| - 1]] == rows;
    }
  }

  /** `ORDER BY total DESC`: `a` may come before `b`. */
  predicate LargestTotalFirst(a: Stat, b: Stat)
  {
    a.total >= b.total
  }

  lemma LargestTotalFirstIsTotalPreorder()
    ensures TotalPreorder(LargestTotalFirst)
  {
  }

  /** Reordering the lines of a summary keeps it a summary. */
  lemma SortedSummarizes(stats: seq<Stat>, rows: seq<Transaction>)
    requires Summarizes(stats, rows)
    ensures Summarizes(Sort(stats, LargestTotalFirst), rows)
  {
    LargestTotalFirstIsTotalPreorder();
    var s := Sort(stats, LargestTotalFirst);
    SortKeepsDistinctKeys(stats, LargestTotalFirst, StatKey);
    SortKeepsElements(stats, LargestTotalFirst);
    SortKeepsSum(stats, LargestTotalFirst, CountAsReal);
    SortKeepsSum(stats, LargestTotalFirst, TotalOfStat);
    forall j | 0 <= j < |rows|
      ensures HasKey(s, KeyOf(rows[j]))
    {
      var i :| 0 <= i < |stats| && StatKey(stats[i]) == KeyOf(rows[j]);
      assert stats[i] in s;
    }
    forall i | 0 <= i < |s|
      ensures s[i] in stats
    {
      assert s[i] in s;
    }
  }

  /** The reply of `GET /stats/summary`: the GROUP BY result for the rows in
      the date window, largest total first; its counts add up to the number
      of rows in the window. */
  function Summarize(t: TransactionTable, scan: seq<Id>, q: DateRange): (stats: seq<Stat>)
    requires Enumerates(scan, t)
    ensures Summarizes(stats, Select(t, scan, DateKeep(q)))
    ensures Sorted(stats, LargestTotalFirst)
    ensures Sum(stats, CountAsReal) == |MatchingIds(t, DateKeep(q))| as real
  {
    var rows := Select(t, scan, DateKeep(q));
    GroupedSummarizes(rows);
    SortedSummarizes(Grouped(rows), rows);
    SelectionFacts(t, scan, DateKeep(q));
    LargestTotalFirstIsTotalPreorder();
    Sort(Grouped(rows), LargestTotalFirst)
  }
}
