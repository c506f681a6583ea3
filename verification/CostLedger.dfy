/** The cost ledger and the per-day totals kept beside it. */
module CostLedger {
  import opened Cost

  datatype CostRow = CostRow(installationId: int, jobId: string, costUsd: real, date: string, createdAt: int)

  /** The key of a daily row. */
  datatype Day = Day(installationId: int, date: string)

  function DayOf(r: CostRow): Day {
    Day(r.installationId, r.date)
  }

  function DaySum(rows: seq<CostRow>, day: Day): real {
    if rows == [] then 0.0
    else DaySum(rows[..|rows| - 1], day) + if DayOf(rows[|rows| - 1]) == day then rows[|rows| - 1].costUsd else 0.0
  }

  function JobSum(rows: seq<CostRow>, installationId: int, jobId: string): real {
    if rows == [] then 0.0
    else
      var r := rows[|rows| - 1];
      JobSum(rows[..|rows| - 1], installationId, jobId)
      + if r.installationId == installationId && r.jobId == jobId then r.costUsd else 0.0
  }

  /** Rows created at or after, respectively before, the cutoff. */
  function Since(rows: seq<CostRow>, before: int): seq<CostRow> {
    if rows == [] then []
    else if rows[|rows| - 1].createdAt < before then Since(rows[..|rows| - 1], before)
    else Since(rows[..|rows| - 1], before) + [rows[|rows| - 1]]
  }

  function Before(rows: seq<CostRow>, before: int): seq<CostRow> {
    if rows == [] then []
    else if rows[|rows| - 1].createdAt < before then Before(rows[..|rows| - 1], before) + [rows[|rows| - 1]]
    else Before(rows[..|rows| - 1], before)
  }

  /** A prune keeps every copy of a row created at or after the cutoff and deletes every copy of an older one. */
  lemma {:induction false} SinceAndBefore(rows: seq<CostRow>, before: int, r: CostRow)
    ensures multiset(Since(rows, before))[r] == if r.createdAt >= before then multiset(rows)[r] else 0
    ensures multiset(Before(rows, before))[r] == if r.createdAt >= before then 0 else multiset(rows)[r]
  {
    if rows != [] {
      SinceAndBefore(rows[..|rows| - 1], before, r);
      assert rows == rows[..|rows| - 1] + [rows[|rows| - 1]];
    }
  }

  /** Wherever a row stands, taking it out lowers the running total of its own job by its cost, and of no other. */
  lemma {:induction false} JobSumWithout(a: seq<CostRow>, r: CostRow, b: seq<CostRow>, installationId: int, jobId: string)
    ensures JobSum([], installationId, jobId) == 0.0
    ensures (r.installationId, r.jobId) == (installationId, jobId) ==>
      JobSum(a + [r] + b, installationId, jobId) == JobSum(a + b, installationId, jobId) + r.costUsd
    ensures (r.installationId, r.jobId) != (installationId, jobId) ==>
      JobSum(a + [r] + b, installationId, jobId) == JobSum(a + b, installationId, jobId)
    decreases |b|
  {
    if b == [] {
      assert a + [r] + b == a + [r] && a + b == a && (a + [r])[..|a|] == a;
    } else {
      var front, last := b[..|b| - 1], b[|b| - 1];
      JobSumWithout(a, r, front, installationId, jobId);
      assert (a + [r] + b)[..|a| + |b|] == a + [r] + front && (a + b)[..|a| + |front|] == a + front;
    }
  }

  /** The same for the sum of a day: the day of a row is its installation's and its date's. */
  lemma {:induction false} DaySumWithout(a: seq<CostRow>, r: CostRow, b: seq<CostRow>, installationId: int, date: string)
    ensures DaySum([], Day(installationId, date)) == 0.0
    ensures (r.installationId, r.date) == (installationId, date) ==>
      DaySum(a + [r] + b, Day(installationId, date)) == DaySum(a + b, Day(installationId, date)) + r.costUsd
    ensures (r.installationId, r.date) != (installationId, date) ==>
      DaySum(a + [r] + b, Day(installationId, date)) == DaySum(a + b, Day(installationId, date))
    decreases |b|
  {
    if b == [] {
      assert a + [r] + b == a + [r] && a + b == a && (a + [r])[..|a|] == a;
    } else {
      var front, last := b[..|b| - 1], b[|b| - 1];
      DaySumWithout(a, r, front, installationId, date);
      assert (a + [r] + b)[..|a| + |b|] == a + [r] + front && (a + b)[..|a| + |front|] == a + front;
    }
  }

  lemma DaySumSnoc(rows: seq<CostRow>, r: CostRow, day: Day)
    ensures DaySum(rows + [r], day) == DaySum(rows, day) + if DayOf(r) == day then r.costUsd else 0.0
  {
    assert (rows + [r])[..|rows|] == rows;
  }

  lemma {:induction false} PruneSplitsSum(rows: seq<CostRow>, before: int, day: Day)
    ensures DaySum(rows, day) == DaySum(Since(rows, before), day) + DaySum(Before(rows, before), day)
  {
    if rows != [] {
      var front, r := rows[..|rows| - 1], rows[|rows| - 1];
      PruneSplitsSum(front, before, day);
      DaySumSnoc(Since(front, before), r, day);
      DaySumSnoc(Before(front, before), r, day);
    }
  }

  lemma {:induction false} DaySumConcat(a: seq<CostRow>, b: seq<CostRow>, day: Day)
    ensures DaySum(a + b, day) == DaySum(a, day) + DaySum(b, day)
    decreases |b|
  {
    if b == [] {
      assert a + b == a;
    } else {
      var front, r := b[..|b| - 1], b[|b| - 1];
      DaySumConcat(a, front, day);
      assert a + b == (a + front) + [r];
      DaySumSnoc(a + front, r, day);
    }
  }

  lemma {:induction false} SumNonNegative(rows: seq<CostRow>, day: Day)
    requires forall i | 0 <= i < |rows| :: rows[i].costUsd >= 0.0
    ensures DaySum(rows, day) >= 0.0
  {
    if rows != [] { SumNonNegative(rows[..|rows| - 1], day); }
  }

  class Ledger {
    var rows: seq<CostRow>
    var dailyRows: map<Day, real>
    /** Every row a prune has deleted. */
    ghost var deleted: seq<CostRow>

    /** The daily row, or zero without one. */
    function Daily(day: Day): real
      reads this
    {
      if day in dailyRows then dailyRows[day] else 0.0
    }

    /** Each daily row is the sum of that day's ledger rows, deleted ones included. */
    ghost predicate Valid()
      reads this
    {
      forall day :: Daily(day) == DaySum(rows, day) + DaySum(deleted, day)
    }

    constructor ()
      ensures Valid() && rows == [] && dailyRows == map[] && deleted == []
    {
      rows, dailyRows, deleted := [], map[], [];
    }

    /** One transaction: insert the ledger row and add its cost to the daily row. */
    method Record(row: CostRow)
      requires Valid()
      modifies this
      ensures Valid() && rows == old(rows) + [row] && deleted == old(deleted)
      ensures forall day :: Daily(day) == old(Daily(day)) + if day == DayOf(row) then row.costUsd else 0.0
    {
      var day := DayOf(row);
      forall d ensures DaySum(rows + [row], d) == DaySum(rows, d) + if DayOf(row) == d then row.costUsd else 0.0 {
        DaySumSnoc(rows, row, d);
      }
      rows := rows + [row];
      dailyRows := dailyRows[day := if day in dailyRows then dailyRows[day] + row.costUsd else row.costUsd];
    }

    /** Deletes old ledger rows; the daily rows stay as they are. */
    method PruneCostLedger(before: int) returns (count: nat)
      requires Valid()
      modifies this`rows, this`deleted
      ensures Valid() && rows == Since(old(rows), before)
      ensures deleted == old(deleted) + Before(old(rows), before)
      ensures forall r :: multiset(rows)[r] == if r.createdAt >= before then old(multiset(rows)[r]) else 0
      ensures count == |old(rows)| - |rows|
    {
      forall d ensures DaySum(rows, d) + DaySum(deleted, d)
                       == DaySum(Since(rows, before), d) + DaySum(deleted + Before(rows, before), d) {
        PruneSplitsSum(rows, before, d);
        DaySumConcat(deleted, Before(rows, before), d);
      }
      SinceShrinks(rows, before);
      forall r ensures multiset(Since(rows, before))[r] == if r.createdAt >= before then multiset(rows)[r] else 0 {
        SinceAndBefore(rows, before, r);
      }
      count := |rows| - |Since(rows, before)|;
      deleted := deleted + Before(rows, before);
      rows := Since(rows, before);
    }

    /** Running total of a job and daily total of an installation, as the cost check reads them. */
    method ReadTotals(installationId: int, jobId: string, date: string) returns (running: real, daily: real)
      requires Valid()
      ensures running == JobSum(rows, installationId, jobId)
      ensures daily == DaySum(rows, Day(installationId, date)) + DaySum(deleted, Day(installationId, date))
      ensures (forall i | 0 <= i < |deleted| :: deleted[i].costUsd >= 0.0) ==> daily >= DaySum(rows, Day(installationId, date))
    {
      running := 0.0;
      var i := 0;
      while i < |rows|
        invariant 0 <= i <= |rows|
        invariant running == JobSum(rows[..i], installationId, jobId)
      {
        assert rows[..i + 1][..i] == rows[..i];
        if rows[i].installationId == installationId && rows[i].jobId == jobId {
          running := running + rows[i].costUsd;
        }
        i := i + 1;
      }
      assert rows[..|rows|] == rows;
      daily := Daily(Day(installationId, date));
      if forall k | 0 <= k < |deleted| :: deleted[k].costUsd >= 0.0 {
        SumNonNegative(deleted, Day(installationId, date));
      }
    }
  }

  lemma {:induction false} SinceShrinks(rows: seq<CostRow>, before: int)
    ensures |Since(rows, before)| + |Before(rows, before)| == |rows|
  {
    if rows != [] { SinceShrinks(rows[..|rows| - 1], before); }
  }
}
