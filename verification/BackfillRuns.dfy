/** The backfill command over a repository: which PRs it walks, the state file it keeps, and runs
    that crash and are started again. */
module BackfillRuns {
  import opened Optional
  import opened Backfill

  type StateFile = map<int, PrState>

  // ----- which PRs are walked -----

  predicate TooOld(pr: Pr, since: Option<int>) {
    since.Some? && pr.updatedAt.Some? && pr.updatedAt.value < since.value
  }

  /** The PRs from position `i` up to the first one that is too old. */
  function Yielded(listing: seq<Pr>, since: Option<int>, i: nat): seq<Pr>
    requires i <= |listing|
    decreases |listing| - i
  {
    if i == |listing| || TooOld(listing[i], since) then [] else [listing[i]] + Yielded(listing, since, i + 1)
  }

  /** The PRs walked are those before the first one that was last updated before `since`. */
  lemma {:induction false} YieldedExactly(listing: seq<Pr>, since: Option<int>, i: nat) returns (k: nat)
    requires i <= |listing|
    ensures i <= k <= |listing| && Yielded(listing, since, i) == listing[i..k]
    ensures forall j | i <= j < k :: since.Some? && listing[j].updatedAt.Some? ==> listing[j].updatedAt.value >= since.value
    ensures k < |listing| ==> since.Some? && listing[k].updatedAt.Some? && listing[k].updatedAt.value < since.value
    decreases |listing| - i
  {
    if i == |listing| || TooOld(listing[i], since) {
      k := i;
    } else {
      k := YieldedExactly(listing, since, i + 1);
      assert listing[i..k] == [listing[i]] + listing[i + 1..k];
    }
  }

  /** On a listing sorted by update time, newest first, exactly the PRs updated since then are walked. */
  lemma SortedListingYieldsAll(listing: seq<Pr>, since: int, k: nat)
    requires k < |listing|
    requires forall a | 0 <= a < |listing| :: listing[a].updatedAt.Some?
    requires forall a, b | 0 <= a < b < |listing| :: listing[a].updatedAt.value >= listing[b].updatedAt.value
    ensures listing[k].updatedAt.value >= since ==> listing[k] in Yielded(listing, Some(since), 0)
    ensures forall pr <- Yielded(listing, Some(since), 0) :: pr.updatedAt.Some? && pr.updatedAt.value >= since
  {
    var n := YieldedExactly(listing, Some(since), 0);
    if listing[k].updatedAt.value >= since { assert k < n && listing[0..n][k] == listing[k]; }
  }

  // ----- one run, without a crash -----

  predicate Completed(file: StateFile, pr: Pr) {
    pr.number in file && file[pr.number].completed
  }

  function Prior(file: StateFile, pr: Pr): PrState {
    if pr.number in file then file[pr.number] else FRESH
  }

  /** The state file entry a finished PR leaves behind. */
  function Entry(file: StateFile, pr: Pr, rec: Recorder): PrState {
    WholeWalk(pr, Prior(file, pr), rec).(completed := true)
  }

  datatype Run = Run(file: StateFile, totals: Totals, log: seq<Event>)

  function AfterPr(r: Run, pr: Pr, rec: Recorder): Run {
    if Completed(r.file, pr) then r.(totals := AddTotals(r.totals, r.file[pr.number].totals))
    else
      var entry := Entry(r.file, pr, rec);
      Run(r.file[pr.number := entry], AddTotals(r.totals, entry.totals), r.log + AllEvents(pr, Prior(r.file, pr)))
  }

  function AfterPrs(r: Run, prs: seq<Pr>, rec: Recorder): Run
    decreases |prs|
  {
    if prs == [] then r else AfterPrs(AfterPr(r, prs[0], rec), prs[1..], rec)
  }

  /** A run from a state file. */
  function FullRun(file: StateFile, prs: seq<Pr>, rec: Recorder): Run {
    AfterPrs(Run(file, ZERO, []), prs, rec)
  }

  lemma NothingLeft(r: Run, listing: seq<Pr>, since: Option<int>, n: nat, rec: Recorder)
    requires n < |listing| && TooOld(listing[n], since)
    ensures AfterPrs(r, Yielded(listing, since, n), rec) == r
  {
  }

  /** The totals of a run from no state file. */
  lemma FirstRunAdds(listing: seq<Pr>, since: Option<int>, rec: Recorder)
    ensures SameRemote(listing) ==>
      var prs := Yielded(listing, since, 0);
      Adds(ZERO, FullRun(map[], prs, rec).totals, EventsBetween(prs, 0, |prs|), UnresolvedFrom(prs, 0), rec)
  {
    if SameRemote(listing) {
      var k := YieldedExactly(listing, since, 0);
      assert listing[0..k] == listing[..k];
      FinalTotalsBalance(listing[..k], rec, []);
    }
  }

  class Command {
    var file: StateFile
    var job: Job

    constructor (rec: Recorder, loaded: StateFile)
      ensures file == loaded && job.rec == rec && job.log == [] && fresh(job)
    {
      file := loaded;
      job := new Job(rec);
    }

    method Backfill(listing: seq<Pr>, since: Option<int>) returns (totals: Totals)
      requires job.log == []
      modifies this`file, job
      ensures Run(file, totals, job.log) == FullRun(old(file), Yielded(listing, since, 0), job.rec)
      ensures old(file) == map[] && SameRemote(listing) ==>
        var prs := Yielded(listing, since, 0);
        Adds(ZERO, totals, EventsBetween(prs, 0, |prs|), UnresolvedFrom(prs, 0), job.rec)
    {
      FirstRunAdds(listing, since, job.rec);
      totals := ZERO;
      var page := 1;
      ghost var n := 0;
      while true
        invariant page >= 1 && n == (page - 1) * PAGE_SIZE <= |listing|
        invariant AfterPrs(Run(file, totals, job.log), Yielded(listing, since, n), job.rec)
                  == FullRun(old(file), Yielded(listing, since, 0), job.rec)
        decreases |listing| - n
      {
        var data := ListPage(listing, page);
        if |data| == 0 { break; }
        var crossedSince;
        totals, crossedSince := WalkPage(data, since, totals, listing, n);
        if crossedSince { break; }
        n := n + |data|;
        if |data| < PAGE_SIZE { break; }
        page := page + 1;
      }
    }

    /** The PRs of one page, up to one that is too old. */
    method WalkPage(data: seq<Pr>, since: Option<int>, start: Totals, ghost listing: seq<Pr>, ghost from: nat)
      returns (totals: Totals, crossedSince: bool)
      requires from + |data| <= |listing| && forall i | 0 <= i < |data| :: data[i] == listing[from + i]
      modifies this`file, job
      ensures var next := Run(file, totals, job.log);
              AfterPrs(Run(old(file), start, old(job.log)), Yielded(listing, since, from), job.rec)
              == if crossedSince then next else AfterPrs(next, Yielded(listing, since, from + |data|), job.rec)
    {
      totals, crossedSince := start, false;
      ghost var whole := AfterPrs(Run(file, start, job.log), Yielded(listing, since, from), job.rec);
      var i := 0;
      while i < |data|
        invariant 0 <= i <= |data| && !crossedSince
        invariant whole == AfterPrs(Run(file, totals, job.log), Yielded(listing, since, from + i), job.rec)
      {
        if TooOld(data[i], since) {
          NothingLeft(Run(file, totals, job.log), listing, since, from + i, job.rec);
          crossedSince := true;
          break;
        }
        totals := WalkOne(data[i], totals, listing, since, from + i);
        i := i + 1;
      }
    }

    /** The body of the PR loop. */
    method WalkOne(pr: Pr, totals: Totals, ghost listing: seq<Pr>, ghost since: Option<int>, ghost n: nat)
      returns (totals': Totals)
      requires n < |listing| && listing[n] == pr && !TooOld(pr, since)
      modifies this`file, job
      ensures AfterPrs(Run(old(file), totals, old(job.log)), Yielded(listing, since, n), job.rec)
              == AfterPrs(Run(file, totals', job.log), Yielded(listing, since, n + 1), job.rec)
    {
      ghost var todo := Yielded(listing, since, n + 1);
      assert ([pr] + todo)[1..] == todo;
      if pr.number in file && file[pr.number].completed {
        return AddTotals(totals, file[pr.number].totals);
      }
      var prior := if pr.number in file then file[pr.number] else FRESH;
      var s := job.ProcessPr(pr, prior);
      file := file[pr.number := s.(completed := true)];
      return AddTotals(totals, s.totals);
    }
  }

  // ----- runs that crash -----

  /** A run that dies in the PR at position `at`, after `events` of its events reached the recorder
      and before its entry was written; or after the last PR, when `at` is past the end. */
  datatype Crash = Crash(at: nat, events: nat)

  /** What survives: the state file as last written and the events already handed over. */
  datatype Remains = Remains(file: StateFile, log: seq<Event>)

  /** The events of the interrupted PR that were handed over. */
  function Cut(file: StateFile, prs: seq<Pr>, crash: Crash): seq<Event>
    requires crash.at <= |prs|
  {
    if crash.at == |prs| || Completed(file, prs[crash.at]) then []
    else
      var events := AllEvents(prs[crash.at], Prior(file, prs[crash.at]));
      events[..Min(crash.events, |events|)]
  }

  function CrashedRun(file: StateFile, prs: seq<Pr>, rec: Recorder, crash: Crash): Remains
    requires crash.at <= |prs|
  {
    var r := AfterPrs(Run(file, ZERO, []), prs[..crash.at], rec);
    Remains(r.file, r.log + Cut(r.file, prs, crash))
  }

  function AfterCrashes(left: Remains, prs: seq<Pr>, rec: Recorder, crashes: seq<Crash>): Remains
    requires forall c <- crashes :: c.at <= |prs|
    decreases |crashes|
  {
    if crashes == [] then left
    else
      assert crashes[0] in crashes;
      var next := CrashedRun(left.file, prs, rec, crashes[0]);
      AfterCrashes(Remains(next.file, left.log + next.log), prs, rec, crashes[1..])
  }

  // ----- what every state file holds -----

  /** An unchanged remote: a PR number always stands for the same PR. */
  predicate SameRemote(prs: seq<Pr>) {
    forall i, j | 0 <= i < |prs| && 0 <= j < |prs| && prs[i].number == prs[j].number :: prs[i] == prs[j]
  }

  predicate EntryOk(file: StateFile, log: seq<Event>, pr: Pr, rec: Recorder) {
    pr.number in file ==>
      file[pr.number] == Entry(map[], pr, rec) && forall e <- AllEvents(pr, FRESH) :: e in log
  }

  /** Entries exist only for finished PRs, hold the totals of one whole walk, and all their events
      have been handed over. */
  predicate FileOk(file: StateFile, log: seq<Event>, prs: seq<Pr>, rec: Recorder) {
    forall i | 0 <= i < |prs| :: EntryOk(file, log, prs[i], rec)
  }

  lemma AfterPrKeeps(r: Run, pr: Pr, prs: seq<Pr>, rec: Recorder)
    requires pr in prs && SameRemote(prs) && FileOk(r.file, r.log, prs, rec)
    ensures FileOk(AfterPr(r, pr, rec).file, AfterPr(r, pr, rec).log, prs, rec)
    ensures AfterPr(r, pr, rec).totals == AddTotals(r.totals, WholeWalk(pr, FRESH, rec).totals)
    ensures pr.number in AfterPr(r, pr, rec).file
  {
    var k :| 0 <= k < |prs| && prs[k] == pr;
    assert EntryOk(r.file, r.log, prs[k], rec);
    var r' := AfterPr(r, pr, rec);
    forall i | 0 <= i < |prs| ensures EntryOk(r'.file, r'.log, prs[i], rec) {
      assert EntryOk(r.file, r.log, prs[i], rec);
    }
  }

  function TotalOf(prs: seq<Pr>, rec: Recorder): Totals {
    if prs == [] then ZERO else AddTotals(WholeWalk(prs[0], FRESH, rec).totals, TotalOf(prs[1..], rec))
  }

  predicate InFile(file: StateFile, prs: seq<Pr>) {
    forall i | 0 <= i < |prs| :: prs[i].number in file
  }

  predicate Listed(todo: seq<Pr>, prs: seq<Pr>) {
    forall i | 0 <= i < |todo| :: todo[i] in prs
  }

  lemma {:induction false} AfterPrsKeepsFile(r: Run, todo: seq<Pr>, prs: seq<Pr>, rec: Recorder)
    requires SameRemote(prs) && FileOk(r.file, r.log, prs, rec) && Listed(todo, prs)
    ensures FileOk(AfterPrs(r, todo, rec).file, AfterPrs(r, todo, rec).log, prs, rec)
    ensures AfterPrs(r, todo, rec).totals == AddTotals(r.totals, TotalOf(todo, rec))
    decreases |todo|
  {
    if todo != [] {
      AfterPrKeeps(r, todo[0], prs, rec);
      AfterPrsKeepsFile(AfterPr(r, todo[0], rec), todo[1..], prs, rec);
    }
  }

  lemma {:induction false} FileGrows(r: Run, todo: seq<Pr>, rec: Recorder, n: int)
    requires n in r.file
    ensures n in AfterPrs(r, todo, rec).file
    decreases |todo|
  {
    if todo != [] { FileGrows(AfterPr(r, todo[0], rec), todo[1..], rec, n); }
  }

  lemma {:induction false} WalkedIsInFile(r: Run, todo: seq<Pr>, rec: Recorder, k: nat)
    requires k < |todo|
    ensures todo[k].number in AfterPrs(r, todo, rec).file
    decreases |todo|
  {
    if k == 0 {
      FileGrows(AfterPr(r, todo[0], rec), todo[1..], rec, todo[0].number);
    } else {
      WalkedIsInFile(AfterPr(r, todo[0], rec), todo[1..], rec, k - 1);
    }
  }

  /** Whatever a sound state file already holds, a run ends with the totals of walking every PR once. */
  lemma AfterPrsTotals(r: Run, todo: seq<Pr>, prs: seq<Pr>, rec: Recorder)
    requires SameRemote(prs) && FileOk(r.file, r.log, prs, rec) && Listed(todo, prs)
    ensures FileOk(AfterPrs(r, todo, rec).file, AfterPrs(r, todo, rec).log, prs, rec)
    ensures AfterPrs(r, todo, rec).totals == AddTotals(r.totals, TotalOf(todo, rec))
    ensures InFile(AfterPrs(r, todo, rec).file, todo)
  {
    AfterPrsKeepsFile(r, todo, prs, rec);
    forall k | 0 <= k < |todo| ensures todo[k].number in AfterPrs(r, todo, rec).file {
      WalkedIsInFile(r, todo, rec, k);
    }
  }

  /** A run only adds to the log it started from. */
  lemma {:induction false} LogShift(r: Run, todo: seq<Pr>, rec: Recorder, earlier: seq<Event>)
    ensures AfterPrs(r.(log := earlier + r.log), todo, rec)
            == AfterPrs(r, todo, rec).(log := earlier + AfterPrs(r, todo, rec).log)
    decreases |todo|
  {
    if todo != [] {
      var pr := todo[0];
      var events := AllEvents(pr, Prior(r.file, pr));
      assert (earlier + r.log) + events == earlier + (r.log + events);
      LogShift(AfterPr(r, pr, rec), todo[1..], rec, earlier);
    }
  }

  lemma Regroup(a: seq<Event>, b: seq<Event>, c: seq<Event>)
    ensures (a + b) + c == a + (b + c)
  {
  }

  lemma FileOkGrows(file: StateFile, log: seq<Event>, more: seq<Event>, prs: seq<Pr>, rec: Recorder)
    requires FileOk(file, log, prs, rec)
    ensures FileOk(file, log + more, prs, rec)
  {
    forall i | 0 <= i < |prs| ensures EntryOk(file, log + more, prs[i], rec) {
      assert EntryOk(file, log, prs[i], rec);
    }
  }

  lemma CrashKeeps(left: Remains, prs: seq<Pr>, rec: Recorder, crash: Crash)
    requires SameRemote(prs) && crash.at <= |prs| && FileOk(left.file, left.log, prs, rec)
    ensures var next := CrashedRun(left.file, prs, rec, crash);
            FileOk(next.file, left.log + next.log, prs, rec)
  {
    var done := prs[..crash.at];
    var r := AfterPrs(Run(left.file, ZERO, []), done, rec);
    var tail := Cut(r.file, prs, crash);
    LogShift(Run(left.file, ZERO, []), done, rec, left.log);
    assert left.log + [] == left.log;
    AfterPrsTotals(Run(left.file, ZERO, left.log), done, prs, rec);
    FileOkGrows(r.file, left.log + r.log, tail, prs, rec);
    Regroup(left.log, r.log, tail);
  }

  lemma {:induction false} CrashesKeep(left: Remains, prs: seq<Pr>, rec: Recorder, crashes: seq<Crash>)
    requires SameRemote(prs) && (forall c <- crashes :: c.at <= |prs|) && FileOk(left.file, left.log, prs, rec)
    ensures var end := AfterCrashes(left, prs, rec, crashes);
            FileOk(end.file, end.log, prs, rec)
    decreases |crashes|
  {
    if crashes != [] {
      assert crashes[0] in crashes;
      CrashKeeps(left, prs, rec, crashes[0]);
      var next := CrashedRun(left.file, prs, rec, crashes[0]);
      CrashesKeep(Remains(next.file, left.log + next.log), prs, rec, crashes[1..]);
    }
  }

  /** After any number of crashes anywhere, the run that finishes reports the totals of one
      uninterrupted run, and every event of every PR has reached the recorder at least once. */
  lemma FinalTotalsAndCoverage(prs: seq<Pr>, rec: Recorder, crashes: seq<Crash>)
    requires SameRemote(prs) && forall c <- crashes :: c.at <= |prs|
    ensures var left := AfterCrashes(Remains(map[], []), prs, rec, crashes);
            var last := FullRun(left.file, prs, rec);
            && last.totals == FullRun(map[], prs, rec).totals == TotalOf(prs, rec)
            && forall pr <- prs :: forall e <- AllEvents(pr, FRESH) :: e in left.log + last.log
  {
    var left := AfterCrashes(Remains(map[], []), prs, rec, crashes);
    CrashesKeep(Remains(map[], []), prs, rec, crashes);
    AfterPrsTotals(Run(map[], ZERO, []), prs, prs, rec);
    LogShift(Run(left.file, ZERO, []), prs, rec, left.log);
    assert left.log + [] == left.log;
    AfterPrsTotals(Run(left.file, ZERO, left.log), prs, prs, rec);
    var last := FullRun(left.file, prs, rec);
    forall pr | pr in prs ensures forall e <- AllEvents(pr, FRESH) :: e in left.log + last.log {
      var k :| 0 <= k < |prs| && prs[k] == pr;
      assert EntryOk(last.file, left.log + last.log, prs[k], rec);
    }
  }

  // ----- exactly what is handed over -----

  predicate DistinctPrs(prs: seq<Pr>) {
    forall i, j | 0 <= i < j < |prs| :: prs[i].number != prs[j].number
  }

  /** The state file once the first `m` PRs are finished. */
  function FileUpTo(prs: seq<Pr>, m: nat, rec: Recorder): StateFile
    requires m <= |prs|
  {
    if m == 0 then map[] else FileUpTo(prs, m - 1, rec)[prs[m - 1].number := Entry(map[], prs[m - 1], rec)]
  }

  /** The events of the PRs from position `a` up to `b`, each walked once from its start. */
  function EventsBetween(prs: seq<Pr>, a: nat, b: nat): seq<Event>
    requires b <= |prs|
    decreases b - a
  {
    if a >= b then [] else AllEvents(prs[a], FRESH) + EventsBetween(prs, a + 1, b)
  }

  /** What a crash loses: events that were handed over and of which the state file knows nothing. */
  function Lost(prs: seq<Pr>, crash: Crash): seq<Event>
    requires crash.at <= |prs|
  {
    if crash.at == |prs| then []
    else
      var events := AllEvents(prs[crash.at], FRESH);
      events[..Min(crash.events, |events|)]
  }

  predicate InRange(prs: seq<Pr>, crashes: seq<Crash>) {
    forall c <- crashes :: c.at <= |prs|
  }

  /** The whole log of runs that start with the first `m` PRs finished, crash one after the other, and finish. */
  function Handed(prs: seq<Pr>, m: nat, crashes: seq<Crash>): seq<Event>
    requires m <= |prs| && InRange(prs, crashes)
    decreases |crashes|
  {
    if crashes == [] then EventsBetween(prs, m, |prs|)
    else
      assert crashes[0] in crashes;
      if crashes[0].at < m then Handed(prs, m, crashes[1..])
      else EventsBetween(prs, m, crashes[0].at) + Lost(prs, crashes[0]) + Handed(prs, crashes[0].at, crashes[1..])
  }

  /** What is handed over again: the losses of every crash that got further than the ones before it. */
  function Repeated(prs: seq<Pr>, m: nat, crashes: seq<Crash>): seq<Event>
    requires InRange(prs, crashes)
    decreases |crashes|
  {
    if crashes == [] then []
    else
      assert crashes[0] in crashes;
      if crashes[0].at < m then Repeated(prs, m, crashes[1..])
      else Lost(prs, crashes[0]) + Repeated(prs, crashes[0].at, crashes[1..])
  }

  lemma {:induction false} UpToHolds(prs: seq<Pr>, m: nat, rec: Recorder, i: nat)
    requires DistinctPrs(prs) && m <= |prs| && i < |prs|
    ensures prs[i].number in FileUpTo(prs, m, rec) <==> i < m
    ensures i < m ==> FileUpTo(prs, m, rec)[prs[i].number] == Entry(map[], prs[i], rec)
  {
    if m > 0 {
      UpToHolds(prs, m - 1, rec, i);
    }
  }

  /** One PR in its turn: passed over when it is among the finished ones, walked from its start otherwise. */
  lemma AfterPrUpTo(r: Run, prs: seq<Pr>, m: nat, i: nat, rec: Recorder)
    requires DistinctPrs(prs) && m <= |prs| && i < |prs| && i <= m && r.file == FileUpTo(prs, m, rec)
    ensures var r' := AfterPr(r, prs[i], rec);
      if i < m then r'.file == r.file && r'.log == r.log
      else r'.file == FileUpTo(prs, m + 1, rec) && r'.log == r.log + AllEvents(prs[i], FRESH)
  {
    UpToHolds(prs, m, rec, i);
  }

  lemma AfterPrsStep(r: Run, prs: seq<Pr>, i: nat, b: nat, rec: Recorder)
    requires i < b <= |prs|
    ensures AfterPrs(r, prs[i..b], rec) == AfterPrs(AfterPr(r, prs[i], rec), prs[i + 1..b], rec)
  {
    assert prs[i..b][0] == prs[i] && prs[i..b][1..] == prs[i + 1..b];
  }

  lemma {:induction false} FinishedSkipped(r: Run, prs: seq<Pr>, m: nat, i: nat, b: nat, rec: Recorder)
    requires DistinctPrs(prs) && i <= b <= m <= |prs| && r.file == FileUpTo(prs, m, rec)
    ensures AfterPrs(r, prs[i..b], rec).file == r.file && AfterPrs(r, prs[i..b], rec).log == r.log
    decreases b - i
  {
    if i < b {
      AfterPrsStep(r, prs, i, b, rec);
      AfterPrUpTo(r, prs, m, i, rec);
      FinishedSkipped(AfterPr(r, prs[i], rec), prs, m, i + 1, b, rec);
    }
  }

  lemma {:induction false} RestWalked(r: Run, prs: seq<Pr>, m: nat, b: nat, rec: Recorder)
    requires DistinctPrs(prs) && m <= b <= |prs| && r.file == FileUpTo(prs, m, rec)
    ensures AfterPrs(r, prs[m..b], rec).file == FileUpTo(prs, b, rec)
    ensures AfterPrs(r, prs[m..b], rec).log == r.log + EventsBetween(prs, m, b)
    decreases b - m
  {
    if m < b {
      AfterPrsStep(r, prs, m, b, rec);
      AfterPrUpTo(r, prs, m, m, rec);
      RestWalked(AfterPr(r, prs[m], rec), prs, m + 1, b, rec);
      Regroup(r.log, AllEvents(prs[m], FRESH), EventsBetween(prs, m + 1, b));
    }
  }

  lemma {:induction false} AfterPrsSplit(r: Run, a: seq<Pr>, b: seq<Pr>, rec: Recorder)
    ensures AfterPrs(r, a + b, rec) == AfterPrs(AfterPrs(r, a, rec), b, rec)
    decreases |a|
  {
    if a == [] {
      assert a + b == b;
    } else {
      assert (a + b)[1..] == a[1..] + b;
      AfterPrsSplit(AfterPr(r, a[0], rec), a[1..], b, rec);
    }
  }

  /** The first `b` PRs of the listing, walked with the first `m` PRs finished. */
  lemma StretchWalked(r: Run, prs: seq<Pr>, m: nat, b: nat, rec: Recorder)
    requires DistinctPrs(prs) && b <= |prs| && m <= |prs| && r.file == FileUpTo(prs, m, rec)
    ensures AfterPrs(r, prs[..b], rec).file == FileUpTo(prs, Max(m, b), rec)
    ensures AfterPrs(r, prs[..b], rec).log == r.log + EventsBetween(prs, m, b)
  {
    if b <= m {
      assert prs[..b] == prs[0..b];
      FinishedSkipped(r, prs, m, 0, b, rec);
    } else {
      assert prs[..b] == prs[0..m] + prs[m..b];
      FinishedSkipped(r, prs, m, 0, m, rec);
      AfterPrsSplit(r, prs[0..m], prs[m..b], rec);
      RestWalked(AfterPrs(r, prs[0..m], rec), prs, m, b, rec);
    }
  }

  lemma CutIsLost(prs: seq<Pr>, m: nat, crash: Crash, rec: Recorder)
    requires DistinctPrs(prs) && m <= |prs| && crash.at <= |prs|
    ensures Cut(FileUpTo(prs, Max(m, crash.at), rec), prs, crash) == if crash.at < m then [] else Lost(prs, crash)
  {
    if crash.at < |prs| { UpToHolds(prs, Max(m, crash.at), rec, crash.at); }
  }

  lemma CrashedUpTo(prs: seq<Pr>, m: nat, crash: Crash, rec: Recorder)
    requires DistinctPrs(prs) && m <= |prs| && crash.at <= |prs|
    ensures var next := CrashedRun(FileUpTo(prs, m, rec), prs, rec, crash);
      next.file == FileUpTo(prs, Max(m, crash.at), rec) && next.log == NewlyHanded(prs, m, crash)
  {
    var start := Run(FileUpTo(prs, m, rec), ZERO, []);
    StretchWalked(start, prs, m, crash.at, rec);
    CutIsLost(prs, m, crash, rec);
    assert [] + EventsBetween(prs, m, crash.at) == EventsBetween(prs, m, crash.at);
  }

  /** What one run hands over that starts with the first `m` PRs finished and dies. */
  function NewlyHanded(prs: seq<Pr>, m: nat, crash: Crash): seq<Event>
    requires m <= |prs| && crash.at <= |prs|
  {
    EventsBetween(prs, m, crash.at) + if crash.at < m then [] else Lost(prs, crash)
  }

  lemma HandedStep(prs: seq<Pr>, m: nat, crashes: seq<Crash>)
    requires m <= |prs| && InRange(prs, crashes) && crashes != []
    ensures crashes[0].at <= |prs| && InRange(prs, crashes[1..])
    ensures Handed(prs, m, crashes) == NewlyHanded(prs, m, crashes[0]) + Handed(prs, Max(m, crashes[0].at), crashes[1..])
  {
    assert crashes[0] in crashes;
  }

  lemma LogOfLast(left: Remains, prs: seq<Pr>, m: nat, rec: Recorder)
    requires DistinctPrs(prs) && m <= |prs| && left.file == FileUpTo(prs, m, rec)
    ensures FullRun(left.file, prs, rec).log == EventsBetween(prs, m, |prs|)
  {
    assert prs[..|prs|] == prs;
    StretchWalked(Run(left.file, ZERO, []), prs, m, |prs|, rec);
    assert [] + EventsBetween(prs, m, |prs|) == EventsBetween(prs, m, |prs|);
  }

  lemma {:induction false} LogFrom(left: Remains, prs: seq<Pr>, m: nat, crashes: seq<Crash>, rec: Recorder)
    requires DistinctPrs(prs) && m <= |prs| && InRange(prs, crashes) && left.file == FileUpTo(prs, m, rec)
    ensures var end := AfterCrashes(left, prs, rec, crashes);
      end.log + FullRun(end.file, prs, rec).log == left.log + Handed(prs, m, crashes)
    decreases |crashes|
  {
    if crashes == [] {
      LogOfLast(left, prs, m, rec);
    } else {
      HandedStep(prs, m, crashes);
      CrashedUpTo(prs, m, crashes[0], rec);
      var next := CrashedRun(left.file, prs, rec, crashes[0]);
      var after := Remains(next.file, left.log + next.log);
      LogFrom(after, prs, Max(m, crashes[0].at), crashes[1..], rec);
      Regroup(left.log, next.log, Handed(prs, Max(m, crashes[0].at), crashes[1..]));
    }
  }

  /** The log of any crashes and the run that finishes, in the order of handing over. */
  lemma LogExactly(prs: seq<Pr>, crashes: seq<Crash>, rec: Recorder)
    requires DistinctPrs(prs) && InRange(prs, crashes)
    ensures var left := AfterCrashes(Remains(map[], []), prs, rec, crashes);
      left.log + FullRun(left.file, prs, rec).log == Handed(prs, 0, crashes)
  {
    LogFrom(Remains(map[], []), prs, 0, crashes, rec);
  }

  lemma {:induction false} BetweenSplits(prs: seq<Pr>, a: nat, b: nat, c: nat)
    requires a <= b <= c <= |prs|
    ensures EventsBetween(prs, a, c) == EventsBetween(prs, a, b) + EventsBetween(prs, b, c)
    decreases b - a
  {
    if a < b {
      BetweenSplits(prs, a + 1, b, c);
      Regroup(AllEvents(prs[a], FRESH), EventsBetween(prs, a + 1, b), EventsBetween(prs, b, c));
    }
  }

  /** Every event is handed over once, and once more for each crash that lost it. */
  lemma {:induction false} HandedOnceAndLost(prs: seq<Pr>, m: nat, crashes: seq<Crash>)
    requires m <= |prs| && InRange(prs, crashes)
    ensures multiset(Handed(prs, m, crashes)) ==
      multiset(EventsBetween(prs, m, |prs|)) + multiset(Repeated(prs, m, crashes))
    decreases |crashes|
  {
    if crashes != [] {
      var c, rest := crashes[0], crashes[1..];
      assert c in crashes;
      if c.at < m {
        HandedOnceAndLost(prs, m, rest);
      } else {
        HandedOnceAndLost(prs, c.at, rest);
        BetweenSplits(prs, m, c.at, |prs|);
      }
    }
  }

  // ----- when nothing is handed over twice -----

  predicate DistinctIds(pr: Pr) {
    && (forall i, j | 0 <= i < j < |pr.comments| :: pr.comments[i].id != pr.comments[j].id)
    && forall i | 0 <= i < |pr.comments| :: DistinctReactions(pr.comments[i])
  }

  predicate DistinctReactions(c: Comment) {
    forall i, j | 0 <= i < j < |c.reactions| :: c.reactions[i].id != c.reactions[j].id
  }

  predicate NoRepeats(events: seq<Event>) {
    forall i, j | 0 <= i < j < |events| :: events[i] != events[j]
  }

  predicate Apart(a: seq<Event>, b: seq<Event>) {
    forall e <- a :: e !in b
  }

  lemma NoRepeatsConcat(a: seq<Event>, b: seq<Event>)
    requires NoRepeats(a) && NoRepeats(b) && Apart(a, b)
    ensures NoRepeats(a + b)
  {
    forall i, j | 0 <= i < j < |a + b| ensures (a + b)[i] != (a + b)[j] {
      if i < |a| <= j { assert a[i] in a && b[j - |a|] in b; }
    }
  }

  lemma {:induction false} ReactionsOnce(pr: Pr, c: Comment, n: nat)
    requires c.fingerprint.Some? && n <= |c.reactions| && DistinctReactions(c)
    ensures NoRepeats(ReactionEvents(pr, FRESH, c, n))
    ensures forall e <- ReactionEvents(pr, FRESH, c, n) ::
      e.comment == c.id && exists k | 0 <= k < n :: c.reactions[k].id == e.reaction
  {
    if n > 0 {
      var before, r := ReactionEvents(pr, FRESH, c, n - 1), c.reactions[n - 1];
      ReactionsOnce(pr, c, n - 1);
      if Taken(FRESH, c, r) {
        NoRepeatsConcat(before, [EventOf(pr, c, r)]);
      }
    }
  }

  lemma CommentOnce(pr: Pr, c: Comment)
    requires DistinctReactions(c)
    ensures NoRepeats(CommentEvents(pr, FRESH, c)) && forall e <- CommentEvents(pr, FRESH, c) :: e.comment == c.id
  {
    if c.fingerprint.Some? { ReactionsOnce(pr, c, |c.reactions|); }
  }

  lemma {:induction false} CommentsOnce(pr: Pr, n: nat)
    requires n <= |pr.comments| && DistinctIds(pr)
    ensures NoRepeats(PrEvents(pr, FRESH, n))
    ensures forall e <- PrEvents(pr, FRESH, n) :: exists k | 0 <= k < n :: pr.comments[k].id == e.comment
  {
    if n > 0 {
      var before, last := PrEvents(pr, FRESH, n - 1), CommentEvents(pr, FRESH, pr.comments[n - 1]);
      CommentsOnce(pr, n - 1);
      CommentOnce(pr, pr.comments[n - 1]);
      NoRepeatsConcat(before, last);
    }
  }

  predicate AllDistinct(prs: seq<Pr>) {
    DistinctPrs(prs) && forall i | 0 <= i < |prs| :: DistinctIds(prs[i])
  }

  lemma {:induction false} BetweenOnce(prs: seq<Pr>, a: nat)
    requires AllDistinct(prs)
    ensures NoRepeats(EventsBetween(prs, a, |prs|))
    ensures forall e <- EventsBetween(prs, a, |prs|) :: exists k | a <= k < |prs| :: prs[k].number == e.pr
    decreases |prs| - a
  {
    if a < |prs| {
      var first, rest := AllEvents(prs[a], FRESH), EventsBetween(prs, a + 1, |prs|);
      assert DistinctIds(prs[a]);
      CommentsOnce(prs[a], |prs[a].comments|);
      EventsOfPr(prs[a], FRESH, |prs[a].comments|);
      BetweenOnce(prs, a + 1);
      NoRepeatsConcat(first, rest);
    }
  }

  /** A crash repeats nothing: its PR was finished before, or none of its events had been handed over. */
  predicate Harmless(prs: seq<Pr>, m: nat, crash: Crash)
    requires crash.at <= |prs|
  {
    crash.at < m || crash.at == |prs| || Min(crash.events, |AllEvents(prs[crash.at], FRESH)|) == 0
  }

  /** The same for each crash in turn, `m` being how far the runs before it got. */
  predicate AllHarmless(prs: seq<Pr>, m: nat, crashes: seq<Crash>)
    requires InRange(prs, crashes)
    decreases |crashes|
  {
    crashes == [] ||
    (assert crashes[0] in crashes; Harmless(prs, m, crashes[0]) && AllHarmless(prs, Max(m, crashes[0].at), crashes[1..]))
  }

  lemma {:induction false} RepeatedExactly(prs: seq<Pr>, m: nat, crashes: seq<Crash>)
    requires m <= |prs| && InRange(prs, crashes)
    ensures Repeated(prs, m, crashes) == [] <==> AllHarmless(prs, m, crashes)
    ensures forall e <- Repeated(prs, m, crashes) :: e in EventsBetween(prs, m, |prs|)
    decreases |crashes|
  {
    if crashes != [] {
      var c := crashes[0];
      assert c in crashes;
      RepeatedExactly(prs, Max(m, c.at), crashes[1..]);
      if c.at >= m {
        BetweenSplits(prs, m, c.at, |prs|);
      }
    }
  }

  lemma OnceIsCounted(events: seq<Event>)
    ensures NoRepeats(events) <==> forall e <- events :: multiset(events)[e] <= 1
  {
    if !NoRepeats(events) {
      var i, j :| 0 <= i < j < |events| && events[i] == events[j];
      TwiceCounted(events, i, j);
    } else {
      forall e | e in events ensures multiset(events)[e] <= 1 { OnceCounted(events, e); }
    }
  }

  lemma TwiceCounted(events: seq<Event>, i: nat, j: nat)
    requires i < j < |events| && events[i] == events[j]
    ensures multiset(events)[events[i]] >= 2
  {
    assert events == events[..j] + ([events[j]] + events[j + 1..]);
    assert events[i] in events[..j];
  }

  lemma {:induction false} OnceCounted(events: seq<Event>, e: Event)
    requires NoRepeats(events)
    ensures multiset(events)[e] <= 1
  {
    if events != [] {
      var n := |events| - 1;
      assert events == events[..n] + [events[n]];
      OnceCounted(events[..n], e);
      if e == events[n] { assert e !in events[..n]; }
    }
  }

  /** With distinct PRs, comments and reactions: no event is handed over twice exactly when every crash is harmless. */
  lemma HandedOnceExactly(prs: seq<Pr>, crashes: seq<Crash>, rec: Recorder)
    requires AllDistinct(prs) && InRange(prs, crashes)
    ensures var left := AfterCrashes(Remains(map[], []), prs, rec, crashes);
      NoRepeats(left.log + FullRun(left.file, prs, rec).log) <==> AllHarmless(prs, 0, crashes)
  {
    var log, once, again := Handed(prs, 0, crashes), EventsBetween(prs, 0, |prs|), Repeated(prs, 0, crashes);
    LogExactly(prs, crashes, rec);
    HandedOnceAndLost(prs, 0, crashes);
    RepeatedExactly(prs, 0, crashes);
    BetweenOnce(prs, 0);
    OnceIsCounted(log);
    if again == [] {
      forall e | e in log ensures multiset(log)[e] <= 1 { OnceCounted(once, e); }
    } else {
      assert again[0] in again && again[0] in once;
      assert multiset(log)[again[0]] >= 2;
    }
  }

  /** One PR with one reaction, and a run that dies right after handing it over: the next run hands it over again. */
  lemma InterruptedPrWalkedAgain(rec: Recorder, fp: string)
    ensures var r := Reaction(7, Some(ThumbsDown));
      var pr := Pr(1, None, [Comment(5, true, Some(fp), [r])]);
      var e := Event(1, 5, 7, fp, ThumbsDown);
      var left := AfterCrashes(Remains(map[], []), [pr], rec, [Crash(0, 1)]);
      left.log + FullRun(left.file, [pr], rec).log == [e, e]
  {
    var r := Reaction(7, Some(ThumbsDown));
    var c := Comment(5, true, Some(fp), [r]);
    var pr := Pr(1, None, [c]);
    var e := Event(1, 5, 7, fp, ThumbsDown);
    OneEvent(pr, c, r);
    LogExactly([pr], [Crash(0, 1)], rec);
    assert EventsBetween([pr], 0, 1) == [e] by { assert EventsBetween([pr], 1, 1) == []; }
    assert Lost([pr], Crash(0, 1)) == [e];
    assert [Crash(0, 1)][1..] == [];
    assert Handed([pr], 0, []) == [e];
    assert Handed([pr], 0, [Crash(0, 1)]) == [] + [e] + [e];
  }

  lemma OneEvent(pr: Pr, c: Comment, r: Reaction)
    requires pr.comments == [c] && c.reactions == [r] && c.isBot && c.fingerprint.Some? && r.kind.Some?
    ensures AllEvents(pr, FRESH) == [EventOf(pr, c, r)]
  {
    assert ReactionEvents(pr, FRESH, c, 0) == [];
    assert ReactionEvents(pr, FRESH, c, 1) == [EventOf(pr, c, r)];
    assert PrEvents(pr, FRESH, 0) == [];
    assert CommentEvents(pr, FRESH, c) == [EventOf(pr, c, r)];
  }

  // ----- completed PRs are left alone -----

  lemma {:induction false} ReactionEventsOfPr(pr: Pr, prior: PrState, c: Comment, n: nat)
    requires c.fingerprint.Some? && n <= |c.reactions|
    ensures forall e <- ReactionEvents(pr, prior, c, n) :: e.pr == pr.number
  {
    if n > 0 { ReactionEventsOfPr(pr, prior, c, n - 1); }
  }

  lemma {:induction false} EventsOfPr(pr: Pr, prior: PrState, n: nat)
    requires n <= |pr.comments|
    ensures forall e <- PrEvents(pr, prior, n) :: e.pr == pr.number
  {
    if n > 0 {
      EventsOfPr(pr, prior, n - 1);
      var c := pr.comments[n - 1];
      if c.fingerprint.Some? { ReactionEventsOfPr(pr, prior, c, |c.reactions|); }
    }
  }

  /** No run hands over an event of a PR that the state file marks as completed. */
  lemma {:induction false} CompletedNotWalkedAgain(r: Run, todo: seq<Pr>, rec: Recorder, n: int)
    requires n in r.file && r.file[n].completed && forall e <- r.log :: e.pr != n
    ensures var r' := AfterPrs(r, todo, rec);
            n in r'.file && r'.file[n] == r.file[n] && forall e <- r'.log :: e.pr != n
    decreases |todo|
  {
    if todo != [] {
      var pr := todo[0];
      EventsOfPr(pr, Prior(r.file, pr), |pr.comments|);
      CompletedNotWalkedAgain(AfterPr(r, pr, rec), todo[1..], rec, n);
    }
  }

  /** Nor does a run that dies. */
  lemma CompletedNotWalkedInCrash(file: StateFile, prs: seq<Pr>, rec: Recorder, crash: Crash, n: int)
    requires crash.at <= |prs| && n in file && file[n].completed
    ensures var next := CrashedRun(file, prs, rec, crash);
            n in next.file && next.file[n] == file[n] && forall e <- next.log :: e.pr != n
  {
    var r := AfterPrs(Run(file, ZERO, []), prs[..crash.at], rec);
    CompletedNotWalkedAgain(Run(file, ZERO, []), prs[..crash.at], rec, n);
    if crash.at < |prs| { EventsOfPr(prs[crash.at], Prior(r.file, prs[crash.at]), |prs[crash.at].comments|); }
  }

  // ----- what a walk covers and how it counts -----

  lemma {:induction false} ReactionCovered(pr: Pr, c: Comment, n: nat, k: nat)
    requires c.fingerprint.Some? && k < n <= |c.reactions| && c.reactions[k].kind.Some?
    ensures EventOf(pr, c, c.reactions[k]) in ReactionEvents(pr, FRESH, c, n)
  {
    if k < n - 1 { ReactionCovered(pr, c, n - 1, k); }
  }

  /** A first walk hands over every mapped reaction on every resolvable bot comment. */
  lemma {:induction false} FirstWalkCoversAll(pr: Pr, n: nat, i: nat, k: nat)
    requires i < n <= |pr.comments| && k < |pr.comments[i].reactions|
    requires pr.comments[i].isBot && pr.comments[i].fingerprint.Some? && pr.comments[i].reactions[k].kind.Some?
    ensures EventOf(pr, pr.comments[i], pr.comments[i].reactions[k]) in PrEvents(pr, FRESH, n)
  {
    if i < n - 1 {
      FirstWalkCoversAll(pr, n - 1, i, k);
    } else {
      ReactionCovered(pr, pr.comments[i], |pr.comments[i].reactions|, k);
    }
  }

  /** The comments of any PR from position `a` on whose fingerprint cannot be resolved. */
  function UnresolvedFrom(prs: seq<Pr>, a: nat): nat
    requires a <= |prs|
    decreases |prs| - a
  {
    if a == |prs| then 0 else |Unresolved(prs[a], FRESH, |prs[a].comments|)| + UnresolvedFrom(prs, a + 1)
  }

  lemma {:induction false} TotalsAdd(prs: seq<Pr>, rec: Recorder, a: nat)
    requires a <= |prs|
    ensures Adds(ZERO, TotalOf(prs[a..], rec), EventsBetween(prs, a, |prs|), UnresolvedFrom(prs, a), rec)
    decreases |prs| - a
  {
    if a < |prs| {
      var first, rest := WholeWalk(prs[a], FRESH, rec).totals, TotalOf(prs[a + 1..], rec);
      assert prs[a..][1..] == prs[a + 1..];
      WalkAdds(prs[a], FRESH, |prs[a].comments|, rec);
      TotalsAdd(prs, rec, a + 1);
      AddsOnto(ZERO, first, AddTotals(first, rest), AllEvents(prs[a], FRESH), EventsBetween(prs, a + 1, |prs|),
        |Unresolved(prs[a], FRESH, |prs[a].comments|)|, UnresolvedFrom(prs, a + 1), rec);
    }
  }

  lemma {:induction false} ManySplits(events: seq<Event>, rec: Recorder)
    ensures Many(events, rec, false) + Many(events, rec, true) == |events|
  {
    if events != [] { ManySplits(events[..|events| - 1], rec); }
  }

  /** After any crashes the totals that are reported balance. They count every event once although some were handed over
      more often, as recorded or skipped by the recorder's answer, and every comment that cannot be resolved. */
  lemma FinalTotalsBalance(prs: seq<Pr>, rec: Recorder, crashes: seq<Crash>)
    requires SameRemote(prs) && InRange(prs, crashes)
    ensures var left := AfterCrashes(Remains(map[], []), prs, rec, crashes);
      var totals := FullRun(left.file, prs, rec).totals;
      Adds(ZERO, totals, EventsBetween(prs, 0, |prs|), UnresolvedFrom(prs, 0), rec) &&
      totals.processed == totals.recorded + totals.skipped
  {
    FinalTotalsAndCoverage(prs, rec, crashes);
    assert prs[0..] == prs;
    TotalsAdd(prs, rec, 0);
    ManySplits(EventsBetween(prs, 0, |prs|), rec);
  }
}
