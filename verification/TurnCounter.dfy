/** The conversation turn counter with concurrent calls on one thread: a call reads the stored count,
    later upserts it, and then answers, posts the limit note or stays silent by the count it had read. */
module TurnCounter {
  import opened Optional

  /** `window` holds the calls between their read step and their upsert step, with the count read;
      `answering` counts the calls past the turn gate that have not ended yet, `noting` those that are
      about to post the limit note, and `lost` the notes whose post failed. */
  datatype Thread = Thread(stored: nat, window: map<nat, nat>, upserts: nat,
    passed: nat, answering: nat, replies: nat, noting: nat, notes: nat, lost: nat)

  datatype Event =
    | Read(id: nat)
    | Upsert(id: nat)
    | Rollback(id: nat)
    | Reply
    | GiveUp
    | PostNote
    | NoteFails

  const FRESH := Thread(0, map[], 0, 0, 0, 0, 0, 0, 0)

  /** An event that can happen while at most `c` calls are in their window. */
  predicate Enabled(t: Thread, e: Event, c: nat) {
    match e
    case Read(id) => id !in t.window && |t.window| < c
    case Upsert(id) => id in t.window
    case Rollback(id) => id in t.window
    case Reply => t.answering > 0
    case GiveUp => t.answering > 0
    case PostNote => t.noting > 0
    case NoteFails => t.noting > 0
  }

  function Close(window: map<nat, nat>, id: nat): map<nat, nat> {
    window - {id}
  }

  function Step(t: Thread, e: Event, max: nat, c: nat): Thread
    requires Enabled(t, e, c)
  {
    match e
    case Read(id) => t.(window := t.window[id := t.stored])
    case Upsert(id) =>
      var after := t.window[id] + 1;
      var counted := t.(stored := t.stored + 1, upserts := t.upserts + 1, window := Close(t.window, id));
      if after > max then
        if after == max + 1 then counted.(noting := t.noting + 1) else counted
      else counted.(passed := t.passed + 1, answering := t.answering + 1)
    case Rollback(id) => t.(window := Close(t.window, id))
    case Reply => t.(answering := t.answering - 1, replies := t.replies + 1)
    case GiveUp => t.(answering := t.answering - 1)
    case PostNote => t.(noting := t.noting - 1, notes := t.notes + 1)
    case NoteFails => t.(noting := t.noting - 1, lost := t.lost + 1)
  }

  predicate ValidRun(t: Thread, events: seq<Event>, max: nat, c: nat)
    decreases |events|
  {
    events == [] || (Enabled(t, events[0], c) && ValidRun(Step(t, events[0], max, c), events[1..], max, c))
  }

  function Run(t: Thread, events: seq<Event>, max: nat, c: nat): Thread
    requires ValidRun(t, events, max, c)
    decreases |events|
  {
    if events == [] then t else Run(Step(t, events[0], max, c), events[1..], max, c)
  }

  // ----- the invariant -----

  /** Calls in their window that will pass the gate. */
  function Waiting(window: map<nat, nat>, max: nat): set<nat> {
    set id | id in window && window[id] < max
  }

  function Bound(max: nat, c: nat): nat {
    if max == 0 || c == 0 then 0 else max + c - 1
  }

  ghost predicate Inv(t: Thread, max: nat, c: nat) {
    && t.stored == t.upserts
    && |t.window| <= c
    && (forall id | id in t.window :: t.window[id] <= t.stored)
    && t.passed + |Waiting(t.window, max)| <= Bound(max, c)
    && (t.stored < max ==> t.passed == t.stored)
    && t.replies + t.answering <= t.passed
  }

  lemma WaitingIsPart(window: map<nat, nat>, max: nat)
    ensures |Waiting(window, max)| <= |window|
  {
    var ids := window.Keys;
    assert Waiting(window, max) <= ids;
    SubsetSize(Waiting(window, max), ids);
  }

  lemma {:induction false} SubsetSize(a: set<nat>, b: set<nat>)
    requires a <= b
    ensures |a| <= |b|
    decreases |a|
  {
    if x :| x in a { SubsetSize(a - {x}, b - {x}); }
  }

  lemma ReadKeeps(t: Thread, id: nat, max: nat, c: nat)
    requires Inv(t, max, c) && Enabled(t, Read(id), c)
    ensures Inv(Step(t, Read(id), max, c), max, c)
  {
    OpenCounts(t.window, id, t.stored, max);
    WaitingIsPart(t.window, max);
  }

  lemma OpenCounts(window: map<nat, nat>, id: nat, seen: nat, max: nat)
    requires id !in window
    ensures |window[id := seen]| == |window| + 1
    ensures |Waiting(window[id := seen], max)| == |Waiting(window, max)| + if seen < max then 1 else 0
  {
    var window' := window[id := seen];
    assert window'.Keys == window.Keys + {id} && |window'.Keys| == |window'|;
    if seen < max {
      assert Waiting(window', max) == Waiting(window, max) + {id};
    } else {
      assert Waiting(window', max) == Waiting(window, max);
    }
  }

  lemma CloseKeeps(t: Thread, id: nat, max: nat)
    requires id in t.window
    ensures |Close(t.window, id)| == |t.window| - 1
    ensures |Waiting(Close(t.window, id), max)| == |Waiting(t.window, max)| - if t.window[id] < max then 1 else 0
  {
    assert Close(t.window, id).Keys == t.window.Keys - {id};
    assert Waiting(Close(t.window, id), max) == Waiting(t.window, max) - {id};
  }

  lemma StepKeeps(t: Thread, e: Event, max: nat, c: nat)
    requires Inv(t, max, c) && Enabled(t, e, c)
    ensures Inv(Step(t, e, max, c), max, c)
  {
    match e {
      case Read(id) => ReadKeeps(t, id, max, c);
      case Upsert(id) => CloseKeeps(t, id, max);
      case Rollback(id) => CloseKeeps(t, id, max);
      case _ =>
    }
  }

  lemma {:induction false} RunKeeps(t: Thread, events: seq<Event>, max: nat, c: nat)
    requires Inv(t, max, c) && ValidRun(t, events, max, c)
    ensures Inv(Run(t, events, max, c), max, c)
    decreases |events|
  {
    if events != [] {
      StepKeeps(t, events[0], max, c);
      RunKeeps(Step(t, events[0], max, c), events[1..], max, c);
    }
  }

  /** In every run with at most `c` overlapping calls the stored count is the number of completed
      upserts, and at most max + c - 1 calls are answered. */
  lemma RepliesBounded(events: seq<Event>, max: nat, c: nat)
    requires ValidRun(FRESH, events, max, c)
    ensures var t := Run(FRESH, events, max, c);
            t.stored == t.upserts && t.replies <= t.passed <= Bound(max, c)
  {
    assert Waiting(map[], max) == {};
    RunKeeps(FRESH, events, max, c);
  }

  // ----- runs put together -----

  lemma {:induction false} RunConcat(t: Thread, a: seq<Event>, b: seq<Event>, max: nat, c: nat)
    requires ValidRun(t, a, max, c) && ValidRun(Run(t, a, max, c), b, max, c)
    ensures ValidRun(t, a + b, max, c) && Run(t, a + b, max, c) == Run(Run(t, a, max, c), b, max, c)
    decreases |a|
  {
    if a == [] {
      assert a + b == b;
    } else {
      assert (a + b)[0] == a[0] && (a + b)[1..] == a[1..] + b;
      RunConcat(Step(t, a[0], max, c), a[1..], b, max, c);
    }
  }

  lemma OneStep(t: Thread, e: Event, max: nat, c: nat)
    requires Enabled(t, e, c)
    ensures ValidRun(t, [e], max, c) && Run(t, [e], max, c) == Step(t, e, max, c)
  {
    assert [e][1..] == [];
    assert ValidRun(Step(t, e, max, c), [], max, c);
  }

  /** How a call ends that was counted at `seen` with nobody else in its window; `noted` says whether posting works. */
  function Ending(seen: nat, max: nat, noted: bool): seq<Event> {
    if seen < max then [Reply] else if seen == max then [if noted then PostNote else NoteFails] else []
  }

  /** One call from start to end. */
  function SerialCall(t: Thread, max: nat, noted: bool): seq<Event> {
    [Read(0)] + [Upsert(0)] + Ending(t.stored, max, noted)
  }

  function AfterSerialCall(t: Thread, max: nat, noted: bool): Thread {
    var counted := t.(stored := t.stored + 1, upserts := t.upserts + 1);
    if t.stored < max then counted.(passed := t.passed + 1, replies := t.replies + 1)
    else if t.stored > max then counted
    else if noted then counted.(notes := t.notes + 1)
    else counted.(lost := t.lost + 1)
  }

  lemma CountedRun(t: Thread, max: nat, c: nat)
    requires c >= 1 && t.window == map[]
    ensures ValidRun(t, [Read(0)] + [Upsert(0)], max, c)
    ensures Run(t, [Read(0)] + [Upsert(0)], max, c) == Step(t.(window := map[0 := t.stored]), Upsert(0), max, c).(window := map[])
  {
    var read := Step(t, Read(0), max, c);
    assert read == t.(window := map[0 := t.stored]) && Close(read.window, 0) == map[];
    OneStep(t, Read(0), max, c);
    OneStep(read, Upsert(0), max, c);
    RunConcat(t, [Read(0)], [Upsert(0)], max, c);
  }

  lemma SerialCallRuns(t: Thread, max: nat, noted: bool, c: nat)
    requires c >= 1 && t.window == map[] && t.answering == t.noting == 0
    ensures ValidRun(t, SerialCall(t, max, noted), max, c)
    ensures Run(t, SerialCall(t, max, noted), max, c) == AfterSerialCall(t, max, noted)
  {
    var counting, ending := [Read(0)] + [Upsert(0)], Ending(t.stored, max, noted);
    CountedRun(t, max, c);
    var counted := Run(t, counting, max, c);
    if t.stored <= max { OneStep(counted, ending[0], max, c); }
    RunConcat(t, counting, ending, max, c);
  }

  function SerialCalls(t: Thread, n: nat, max: nat, noted: bool): seq<Event>
    decreases n
  {
    if n == 0 then [] else SerialCall(t, max, noted) + SerialCalls(AfterSerialCall(t, max, noted), n - 1, max, noted)
  }

  /** The thread after `n` calls, one after the other. */
  function SerialThread(n: nat, max: nat, noted: bool): Thread {
    var past := if n > max then 1 else 0;
    Thread(n, map[], n, Min(n, max), 0, Min(n, max), 0, if noted then past else 0, if noted then 0 else past)
  }

  lemma SerialNext(from: nat, max: nat, noted: bool)
    ensures AfterSerialCall(SerialThread(from, max, noted), max, noted) == SerialThread(from + 1, max, noted)
  {
  }

  lemma {:induction false} SerialRun(from: nat, n: nat, max: nat, noted: bool, c: nat)
    requires c >= 1
    ensures var t := SerialThread(from, max, noted);
            ValidRun(t, SerialCalls(t, n, max, noted), max, c) &&
            Run(t, SerialCalls(t, n, max, noted), max, c) == SerialThread(from + n, max, noted)
    decreases n
  {
    if n > 0 {
      var t, next := SerialThread(from, max, noted), SerialThread(from + 1, max, noted);
      SerialCallRuns(t, max, noted, c);
      SerialNext(from, max, noted);
      SerialRun(from + 1, n - 1, max, noted, c);
      RunConcat(t, SerialCall(t, max, noted), SerialCalls(next, n - 1, max, noted), max, c);
    }
  }

  /** Of n serial calls exactly min(n, max) pass the gate and are answered, and one limit note is
      posted if and only if n exceeds the maximum and its post is accepted. */
  lemma SerialOutcome(n: nat, max: nat, noted: bool)
    ensures var events := SerialCalls(FRESH, n, max, noted);
            && ValidRun(FRESH, events, max, 1)
            && Run(FRESH, events, max, 1).replies == Min(n, max)
            && Run(FRESH, events, max, 1).notes == if noted && n > max then 1 else 0
  {
    assert FRESH == SerialThread(0, max, noted);
    SerialRun(0, n, max, noted, 1);
  }

  // ----- the bound is reached -----

  /** Calls `0 .. n` have read the count `seen`. */
  function Burst(n: nat, seen: nat): (window: map<nat, nat>)
    ensures forall id: nat :: (id in window <==> id < n) && (id in window ==> window[id] == seen)
  {
    if n == 0 then map[] else Burst(n - 1, seen)[n - 1 := seen]
  }

  function Reads(n: nat): seq<Event> {
    if n == 0 then [] else Reads(n - 1) + [Read(n - 1)]
  }

  lemma BurstSize(n: nat, seen: nat)
    ensures |Burst(n, seen)| == n
  {
    if n > 0 {
      BurstSize(n - 1, seen);
      assert Burst(n, seen).Keys == Burst(n - 1, seen).Keys + {n - 1};
    }
  }

  lemma OneMoreRead(t: Thread, n: nat, max: nat, c: nat)
    requires 0 < n <= c
    ensures var t' := t.(window := Burst(n - 1, t.stored));
            ValidRun(t', [Read(n - 1)], max, c) && Run(t', [Read(n - 1)], max, c) == t.(window := Burst(n, t.stored))
  {
    var t' := t.(window := Burst(n - 1, t.stored));
    BurstSize(n - 1, t.stored);
    OneStep(t', Read(n - 1), max, c);
    assert t'.window[n - 1 := t.stored] == Burst(n, t.stored);
  }

  lemma {:induction false} ReadsRun(t: Thread, n: nat, max: nat, c: nat)
    requires t.window == map[] && n <= c
    ensures ValidRun(t, Reads(n), max, c) && Run(t, Reads(n), max, c) == t.(window := Burst(n, t.stored))
    decreases n
  {
    if n == 0 {
      assert Burst(0, t.stored) == map[];
    } else {
      ReadsRun(t, n - 1, max, c);
      OneMoreRead(t, n, max, c);
      RunConcat(t, Reads(n - 1), [Read(n - 1)], max, c);
    }
  }

  /** The burst's calls end one after the other, the last one first. */
  function Answers(n: nat): seq<Event> {
    if n == 0 then [] else OneAnswer(n - 1) + Answers(n - 1)
  }

  function OneAnswer(id: nat): seq<Event> {
    [Upsert(id)] + [Reply]
  }

  function Answered(t: Thread, n: nat, window: map<nat, nat>): Thread {
    t.(stored := t.stored + n, upserts := t.upserts + n, passed := t.passed + n, replies := t.replies + n, window := window)
  }

  lemma AnswerRuns(t: Thread, next: Thread, n: nat, seen: nat, rest: seq<Event>, max: nat, c: nat)
    requires n > 0 && t.window == Burst(n, seen) && seen < max && t.answering == 0
    requires next == Answered(t, 1, Burst(n - 1, seen)) && ValidRun(next, rest, max, c)
    ensures ValidRun(t, OneAnswer(n - 1) + rest, max, c)
    ensures Run(t, OneAnswer(n - 1) + rest, max, c) == Run(next, rest, max, c)
  {
    assert Close(t.window, n - 1) == Burst(n - 1, seen);
    var counted := Step(t, Upsert(n - 1), max, c);
    OneStep(t, Upsert(n - 1), max, c);
    OneStep(counted, Reply, max, c);
    RunConcat(t, [Upsert(n - 1)], [Reply], max, c);
    RunConcat(t, OneAnswer(n - 1), rest, max, c);
  }

  lemma {:induction false} AnswersRun(t: Thread, n: nat, seen: nat, max: nat, c: nat)
    requires t.window == Burst(n, seen) && seen < max && t.answering == 0
    ensures ValidRun(t, Answers(n), max, c)
    ensures Run(t, Answers(n), max, c) == Answered(t, n, map[])
    decreases n
  {
    if n > 0 {
      var next := Answered(t, 1, Burst(n - 1, seen));
      AnswersRun(next, n - 1, seen, max, c);
      AnswerRuns(t, next, n, seen, Answers(n - 1), max, c);
    }
  }

  lemma BurstRun(t: Thread, n: nat, max: nat, c: nat)
    requires t.window == map[] && t.answering == 0 && t.stored < max && n <= c
    ensures var events := Reads(n) + Answers(n);
            ValidRun(t, events, max, c) && Run(t, events, max, c).replies == t.replies + n
  {
    ReadsRun(t, n, max, c);
    AnswersRun(t.(window := Burst(n, t.stored)), n, t.stored, max, c);
    RunConcat(t, Reads(n), Answers(n), max, c);
  }

  /** The bound on replies is the best possible: for every maximum and every degree of overlap some
      run reaches it. */
  lemma BoundReached(max: nat, c: nat) returns (events: seq<Event>)
    requires max >= 1 && c >= 1
    ensures ValidRun(FRESH, events, max, c) && Run(FRESH, events, max, c).replies == Bound(max, c)
  {
    var below := SerialCalls(FRESH, max - 1, max, true);
    assert FRESH == SerialThread(0, max, true);
    SerialRun(0, max - 1, max, true, c);
    BurstRun(SerialThread(max - 1, max, true), c, max, c);
    events := below + (Reads(c) + Answers(c));
    RunConcat(FRESH, below, Reads(c) + Answers(c), max, c);
  }

  // ----- the limit note -----

  /** No call is about to post the note any more. */
  predicate Settled(t: Thread) { t.noting == 0 }

  predicate NoteMatches(t: Thread, max: nat) {
    t.notes == if t.upserts > max then 1 else 0
  }

  /** Runs that have settled, with or without posts of the note that fail. */
  predicate Finished(events: seq<Event>, max: nat, c: nat, faults: bool) {
    ValidRun(FRESH, events, max, c) && Settled(Run(FRESH, events, max, c)) && (faults || NoteFails !in events)
  }

  /** Every such run has one note past the maximum and none before. */
  ghost predicate AlwaysOneNote(max: nat, c: nat, faults: bool) {
    forall events: seq<Event> | Finished(events, max, c, faults) :: NoteMatches(Run(FRESH, events, max, c), max)
  }

  /** Without overlap a call's read is never out of date, and one call is the first past the maximum. */
  ghost predicate SerialInv(t: Thread, max: nat) {
    && t.stored == t.upserts && |t.window| <= 1
    && (forall id | id in t.window :: t.window[id] == t.stored)
    && t.notes + t.noting + t.lost == if t.upserts > max then 1 else 0
  }

  lemma AloneInWindow(window: map<nat, nat>, id: nat)
    requires id in window && |window| <= 1
    ensures Close(window, id) == map[]
  {
    var rest := window.Keys - {id};
    assert |rest| == |window.Keys| - 1;
  }

  lemma SerialStepKeeps(t: Thread, e: Event, max: nat)
    requires SerialInv(t, max) && Enabled(t, e, 1)
    ensures SerialInv(Step(t, e, max, 1), max)
    ensures Step(t, e, max, 1).lost == t.lost + if e == NoteFails then 1 else 0
  {
    var t' := Step(t, e, max, 1);
    match e {
      case Read(id) => assert t'.window == map[id := t.stored] by { assert t.window == map[]; }
      case Upsert(id) => AloneInWindow(t.window, id);
      case Rollback(id) => AloneInWindow(t.window, id);
      case _ =>
    }
  }

  lemma {:induction false} SerialKeepsNote(t: Thread, events: seq<Event>, max: nat)
    requires SerialInv(t, max) && ValidRun(t, events, max, 1)
    ensures SerialInv(Run(t, events, max, 1), max)
    ensures Run(t, events, max, 1).lost >= t.lost
    ensures Run(t, events, max, 1).lost > t.lost <==> NoteFails in events
    decreases |events|
  {
    if events != [] {
      SerialStepKeeps(t, events[0], max);
      SerialKeepsNote(Step(t, events[0], max, 1), events[1..], max);
    }
  }

  /** When calls never overlap: at most one note in every run, and in a settled run the note is there as promised exactly
      when no post of it failed; a lost note is never made up for. */
  lemma SerialNoteExactly(events: seq<Event>, max: nat, c: nat)
    requires c <= 1 && ValidRun(FRESH, events, max, c)
    ensures var t := Run(FRESH, events, max, c);
      && t.notes <= 1 && (t.notes == 1 ==> t.upserts > max)
      && (Settled(t) ==> (NoteMatches(t, max) <==> NoteFails !in events))
  {
    WiderWindow(FRESH, events, max, c);
    SerialKeepsNote(FRESH, events, max);
  }

  lemma PairRun(t: Thread, max: nat, c: nat)
    requires t.window == map[] && c >= 2 && t.noting == 0
    requires t.stored + 1 == max || (max == 0 && t.stored == 0)
    ensures var events := Reads(2) + [Upsert(1), Upsert(0)];
            && ValidRun(t, events, max, c)
            && Run(t, events, max, c).upserts == t.upserts + 2
            && Run(t, events, max, c).notes == t.notes
            && Run(t, events, max, c).noting == if max == 0 then 2 else 0
  {
    ReadsRun(t, 2, max, c);
    var open := t.(window := Burst(2, t.stored));
    var first := Step(open, Upsert(1), max, c);
    OneStep(open, Upsert(1), max, c);
    OneStep(first, Upsert(0), max, c);
    RunConcat(open, [Upsert(1)], [Upsert(0)], max, c);
    assert [Upsert(1)] + [Upsert(0)] == [Upsert(1), Upsert(0)];
    RunConcat(t, Reads(2), [Upsert(1), Upsert(0)], max, c);
  }

  /** Two overlapping calls after `seen` serial ones. */
  lemma PairAfterSerial(seen: nat, max: nat, c: nat) returns (events: seq<Event>)
    requires c >= 2 && (seen + 1 == max || (max == 0 && seen == 0))
    ensures ValidRun(FRESH, events, max, c) && NoteFails !in events
    ensures var t := Run(FRESH, events, max, c);
      t.upserts == seen + 2 && t.notes == 0 && t.noting == if max == 0 then 2 else 0
  {
    var below := SerialCalls(FRESH, seen, max, true);
    assert FRESH == SerialThread(0, max, true);
    SerialRun(0, seen, max, true, c);
    SerialNoFailure(FRESH, seen, max);
    PairRun(SerialThread(seen, max, true), max, c);
    ReadsNoFailure(2);
    events := below + (Reads(2) + [Upsert(1), Upsert(0)]);
    RunConcat(FRESH, below, Reads(2) + [Upsert(1), Upsert(0)], max, c);
  }

  lemma {:induction false} SerialNoFailure(t: Thread, n: nat, max: nat)
    ensures NoteFails !in SerialCalls(t, n, max, true)
    decreases n
  {
    if n > 0 { SerialNoFailure(AfterSerialCall(t, max, true), n - 1, max); }
  }

  lemma {:induction false} ReadsNoFailure(n: nat)
    ensures NoteFails !in Reads(n)
  {
    if n > 0 { ReadsNoFailure(n - 1); }
  }

  lemma BothPost(t: Thread, max: nat, c: nat)
    requires t.noting == 2
    ensures ValidRun(t, [PostNote, PostNote], max, c)
    ensures Run(t, [PostNote, PostNote], max, c) == t.(noting := 0, notes := t.notes + 2)
  {
    var once := Step(t, PostNote, max, c);
    OneStep(t, PostNote, max, c);
    OneStep(once, PostNote, max, c);
    assert [PostNote] + [PostNote] == [PostNote, PostNote];
    RunConcat(t, [PostNote], [PostNote], max, c);
  }

  /** Two overlapping calls that read the count just below the limit step over the note, and two
      that read a limit of zero both post it. */
  lemma OverlapBreaksNote(max: nat, c: nat) returns (events: seq<Event>)
    requires c >= 2
    ensures Finished(events, max, c, false) && !NoteMatches(Run(FRESH, events, max, c), max)
  {
    events := PairAfterSerial(if max == 0 then 0 else max - 1, max, c);
    if max == 0 {
      BothPost(Run(FRESH, events, max, c), max, c);
      RunConcat(FRESH, events, [PostNote, PostNote], max, c);
      events := events + [PostNote, PostNote];
    }
  }

  /** One failed post in a serial run: the note stays out however many calls follow. */
  lemma FailedNoteIsLost(n: nat, max: nat, c: nat)
    requires n > max && c >= 1
    ensures var events := SerialCalls(FRESH, n, max, false);
      Finished(events, max, c, true) && Run(FRESH, events, max, c).upserts == n && Run(FRESH, events, max, c).notes == 0
  {
    assert FRESH == SerialThread(0, max, false);
    SerialRun(0, n, max, false, c);
  }

  /** The limit note is posted once and only once in every run exactly when calls never overlap and no post of it fails. */
  lemma OneNoteExactly(max: nat, c: nat, faults: bool)
    ensures AlwaysOneNote(max, c, faults) <==> c == 0 || (c == 1 && !faults)
  {
    if c >= 2 {
      var events := OverlapBreaksNote(max, c);
      assert Finished(events, max, c, faults);
    } else if c == 1 && faults {
      FailedNoteIsLost(max + 1, max, c);
      assert Finished(SerialCalls(FRESH, max + 1, max, false), max, c, true);
    } else {
      forall events: seq<Event> | Finished(events, max, c, faults)
        ensures NoteMatches(Run(FRESH, events, max, c), max)
      {
        if c == 0 { NothingWithoutCalls(events, max); } else { SerialNoteExactly(events, max, c); }
      }
    }
  }

  lemma NothingWithoutCalls(events: seq<Event>, max: nat)
    requires ValidRun(FRESH, events, max, 0)
    ensures events == []
  {
  }

  lemma {:induction false} WiderWindow(t: Thread, events: seq<Event>, max: nat, c: nat)
    requires c <= 1 && ValidRun(t, events, max, c)
    ensures ValidRun(t, events, max, 1) && Run(t, events, max, 1) == Run(t, events, max, c)
    decreases |events|
  {
    if events != [] { WiderWindow(Step(t, events[0], max, c), events[1..], max, c); }
  }
}
