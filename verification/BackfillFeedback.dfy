/** What the backfill's repeated events do to the suppression rules. */
module BackfillFeedback {
  import opened Optional
  import opened Backfill
  import opened BackfillRuns
  import Feedback
  import Redaction

  /** How the backfill fills in an event of the recorder: the repository, the text of the fact, the reason of a rule. */
  datatype Filling = Filling(key: Feedback.RepoKey, text: Event -> string, reason: string, at: int)

  function KindOf(k: Kind): Feedback.Kind {
    match k case ThumbsUp => Feedback.ThumbsUp case ThumbsDown => Feedback.ThumbsDown
  }

  function WriteOf(e: Event, f: Filling): Feedback.Op {
    Feedback.Write(f.at, Feedback.Event(f.key, e.fingerprint, KindOf(e.kind), f.text(e)), f.reason, false)
  }

  /** The writes of a log of handed-over events; the recorder drops some of them. */
  function Writes(log: seq<Event>, rec: Recorder, f: Filling): seq<Feedback.Op> {
    if log == [] then []
    else (if rec(log[0]) then [] else [WriteOf(log[0], f)]) + Writes(log[1..], rec, f)
  }

  function Down(e: Event, rec: Recorder, fp: string): nat {
    if !rec(e) && e.kind == ThumbsDown && e.fingerprint == fp then 1 else 0
  }

  /** The recorded rejections of a fingerprint in a log. */
  function Downs(log: seq<Event>, rec: Recorder, fp: string): nat {
    if log == [] then 0 else Down(log[0], rec, fp) + Downs(log[1..], rec, fp)
  }

  lemma {:induction false} WritesReject(log: seq<Event>, rec: Recorder, f: Filling, fp: string)
    ensures Feedback.RejectingEvents(Writes(log, rec, f), f.key, fp) == Downs(log, rec, fp)
  {
    if log != [] {
      WritesReject(log[1..], rec, f, fp);
      var rest := Writes(log[1..], rec, f);
      if rec(log[0]) {
        assert Writes(log, rec, f) == rest;
      } else {
        assert ([WriteOf(log[0], f)] + rest)[1..] == rest;
      }
    }
  }

  lemma {:induction false} DownsConcat(a: seq<Event>, b: seq<Event>, rec: Recorder, fp: string)
    ensures Downs(a + b, rec, fp) == Downs(a, rec, fp) + Downs(b, rec, fp)
  {
    if a == [] {
      assert a + b == b;
    } else {
      DownsConcat(a[1..], b, rec, fp);
      assert (a + b)[1..] == a[1..] + b;
    }
  }

  /** One event taken out of a log. */
  lemma TakenOut(log: seq<Event>, k: nat, rec: Recorder, fp: string) returns (rest: seq<Event>)
    requires k < |log|
    ensures multiset(rest) == multiset(log) - multiset{log[k]}
    ensures Downs(log, rec, fp) == Down(log[k], rec, fp) + Downs(rest, rec, fp)
  {
    var front, tail := log[..k], [log[k]] + log[k + 1..];
    rest := front + log[k + 1..];
    assert log == front + tail;
    DownsConcat(front, log[k + 1..], rec, fp);
    DownsConcat(front, tail, rec, fp);
    assert tail[1..] == log[k + 1..];
  }

  /** The order of a log does not matter for the count. */
  lemma {:induction false} DownsOfMultiset(a: seq<Event>, b: seq<Event>, rec: Recorder, fp: string)
    requires multiset(a) == multiset(b)
    ensures Downs(a, rec, fp) == Downs(b, rec, fp)
    decreases |a|
  {
    if a == [] {
      assert |b| == |multiset(b)| == 0;
    } else {
      assert a[0] in multiset(a);
      var k :| 0 <= k < |b| && b[k] == a[0];
      var a' := TakenOut(a, 0, rec, fp);
      var b' := TakenOut(b, k, rec, fp);
      assert |a'| == |multiset(a')| < |multiset(a)| == |a|;
      DownsOfMultiset(a', b', rec, fp);
    }
  }

  function WholeLog(prs: seq<Pr>, rec: Recorder, crashes: seq<Crash>): seq<Event>
    requires InRange(prs, crashes)
  {
    var left := AfterCrashes(Remains(map[], []), prs, rec, crashes);
    left.log + FullRun(left.file, prs, rec).log
  }

  /** Over any crashes and the run that finishes, the recorder counts every rejection once, and once more for each crash
      that lost it. */
  lemma RepeatedRejectionsCount(prs: seq<Pr>, rec: Recorder, crashes: seq<Crash>, f: Filling, fp: string)
    requires DistinctPrs(prs) && InRange(prs, crashes)
    ensures Feedback.RejectingEvents(Writes(WholeLog(prs, rec, crashes), rec, f), f.key, fp) ==
      Downs(EventsBetween(prs, 0, |prs|), rec, fp) + Downs(Repeated(prs, 0, crashes), rec, fp)
  {
    var once, again := EventsBetween(prs, 0, |prs|), Repeated(prs, 0, crashes);
    LogExactly(prs, crashes, rec);
    HandedOnceAndLost(prs, 0, crashes);
    WritesReject(Handed(prs, 0, crashes), rec, f, fp);
    DownsOfMultiset(Handed(prs, 0, crashes), once + again, rec, fp);
    DownsConcat(once, again, rec, fp);
  }

  /** With a threshold of two, one reaction and one crash mute a fingerprint. */
  lemma OneReactionMutes(scan: Redaction.Scan, rec: Recorder, f: Filling, fp: string)
    requires Feedback.IsHex(fp) && forall e :: !rec(e)
    ensures var r := Reaction(7, Some(ThumbsDown));
      var pr := Pr(1, None, [Comment(5, true, Some(fp), [r])]);
      var ops := Writes(WholeLog([pr], rec, [Crash(0, 1)]), rec, f);
      fp in Feedback.Suppressed(Feedback.Run(Feedback.EMPTY, scan, 2, ops).rows, f.key, f.at)
  {
    InterruptedPrWalkedAgain(rec, fp);
    var e := Event(1, 5, 7, fp, ThumbsDown);
    var w := WriteOf(e, f);
    assert [e, e][1..] == [e] && [e][1..] == [];
    assert Writes([e], rec, f) == [w] + Writes([], rec, f) == [w];
    assert Writes([e, e], rec, f) == [w] + [w] == [w, w];
    TwoWritesMute(scan, w, f, fp);
  }

  lemma TwoWritesMute(scan: Redaction.Scan, w: Feedback.Op, f: Filling, fp: string)
    requires Feedback.IsHex(fp) && w.Write? && !w.fault && w.at == f.at
    requires w.event.key == f.key && w.event.fingerprint == fp && w.event.kind == Feedback.ThumbsDown
    ensures fp in Feedback.Suppressed(Feedback.Run(Feedback.EMPTY, scan, 2, [w, w]).rows, f.key, f.at)
  {
    var ops := [w, w];
    assert ops[1..] == [w] && [w][1..] == [];
    assert Feedback.RejectingEvents([w], f.key, fp) == 1;
    assert Feedback.InOrder([w], f.at, f.at);
    Feedback.MutedExactlyWhenRejected(scan, 2, ops, f.key, fp, f.at, f.at);
  }
}
