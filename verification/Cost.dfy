/** The cost decision and the spending it allows over a run. */
module Cost {

  const FALLBACK_RATIO := 0.8
  const ABORT_RATIO := 1.0
  const KILL_RATIO := 1.5

  datatype AbortReason = CostExceeded | DailyCap

  datatype Decision =
    | Proceed
    | Fallback
    | Abort(reason: AbortReason, runningUsd: real, capUsd: real)
    | Kill(runningUsd: real, capUsd: real)

  datatype Input = Input(running: real, estimate: real, perPrCap: real, daily: real, dailyCap: real)

  function DecideCostAction(input: Input): Decision {
    var projected := input.running + input.estimate;
    if input.dailyCap > 0.0 && input.daily >= input.dailyCap then Abort(DailyCap, input.daily, input.dailyCap)
    else if input.perPrCap <= 0.0 then Proceed
    else if input.running > input.perPrCap * KILL_RATIO then Kill(input.running, input.perPrCap)
    else if projected > input.perPrCap * ABORT_RATIO then Abort(CostExceeded, projected, input.perPrCap)
    else if projected > input.perPrCap * FALLBACK_RATIO then Fallback
    else Proceed
  }

  predicate Allows(d: Decision) {
    d.Proceed? || d.Fallback?
  }

  function Severity(d: Decision): nat {
    match d
    case Proceed => 0
    case Fallback => 1
    case Abort(_, _, _) => 2
    case Kill(_, _) => 3
  }

  /** More spent, or a larger estimate, never softens the decision. */
  lemma SeverityMonotone(a: Input, b: Input)
    requires a.perPrCap == b.perPrCap && a.daily == b.daily && a.dailyCap == b.dailyCap
    requires a.running <= b.running && a.estimate <= b.estimate
    ensures Severity(DecideCostAction(a)) <= Severity(DecideCostAction(b))
  {
  }

  /** A growing daily total softens the decision in exactly one case: it reaches the daily cap while
      the running total is already past the kill line, and a kill becomes an abort. */
  lemma DailySoftensExactly(a: Input, daily: real)
    requires a.daily <= daily
    ensures Severity(DecideCostAction(a.(daily := daily))) < Severity(DecideCostAction(a)) <==>
            && a.dailyCap > 0.0 && a.daily < a.dailyCap <= daily
            && a.perPrCap > 0.0 && a.running > a.perPrCap * KILL_RATIO
  {
  }

  /** With an estimate that is not negative: a call is allowed exactly within the cap and below the daily one, it falls
      back exactly in the last fifth, and the kill switch adds no refusal, it only names one. */
  lemma AllowedExactly(a: Input)
    requires a.estimate >= 0.0
    ensures var d, capped := DecideCostAction(a), a.perPrCap > 0.0;
      var dailyHit, amount := a.dailyCap > 0.0 && a.daily >= a.dailyCap, a.running + a.estimate;
      && (Allows(d) <==> !dailyHit && (capped ==> amount <= a.perPrCap))
      && (d.Fallback? <==> !dailyHit && capped && 4.0 * a.perPrCap < 5.0 * amount <= 5.0 * a.perPrCap)
      && (d.Kill? <==> !dailyHit && capped && 2.0 * a.running > 3.0 * a.perPrCap)
      && (d.Abort? && d.reason.DailyCap? <==> dailyHit)
  {
  }

  // ----- spending over a run -----

  /** One guarded call: what was estimated and what it cost if it was made. */
  datatype Call = Call(estimate: real, cost: real, daily: real, dailyCap: real)

  function InputFor(running: real, cap: real, c: Call): Input {
    Input(running, c.estimate, cap, c.daily, c.dailyCap)
  }

  function AfterCall(running: real, cap: real, c: Call): real {
    if Allows(DecideCostAction(InputFor(running, cap, c))) then running + c.cost else running
  }

  function Spent(running: real, cap: real, calls: seq<Call>): real
    decreases |calls|
  {
    if calls == [] then running else Spent(AfterCall(running, cap, calls[0]), cap, calls[1..])
  }

  predicate EstimatesHold(calls: seq<Call>, delta: real) {
    forall i | 0 <= i < |calls| :: calls[i].cost <= calls[i].estimate + delta
  }

  /** With costs within `delta` of their estimates, spending never passes the cap by more than
      `delta`. */
  lemma {:induction false} SpendingBounded(running: real, cap: real, delta: real, calls: seq<Call>)
    requires cap > 0.0 && delta >= 0.0 && running <= cap + delta && EstimatesHold(calls, delta)
    ensures Spent(running, cap, calls) <= cap + delta
    decreases |calls|
  {
    if calls != [] {
      assert calls[0].cost <= calls[0].estimate + delta;
      SpendingBounded(AfterCall(running, cap, calls[0]), cap, delta, calls[1..]);
    }
  }

  ghost predicate NeverKills(cap: real, delta: real) {
    forall calls: seq<Call>, next: Call | EstimatesHold(calls, delta) ::
      !DecideCostAction(InputFor(Spent(0.0, cap, calls), cap, next)).Kill?
  }

  /** The kill switch is out of reach exactly when estimates are good to half the cap. */
  lemma KillUnreachableExactly(cap: real, delta: real)
    requires cap > 0.0 && delta >= 0.0
    ensures NeverKills(cap, delta) <==> delta <= cap / 2.0
  {
    if delta <= cap / 2.0 {
      forall calls: seq<Call>, next: Call | EstimatesHold(calls, delta)
        ensures !DecideCostAction(InputFor(Spent(0.0, cap, calls), cap, next)).Kill?
      {
        SpendingBounded(0.0, cap, delta, calls);
      }
    } else {
      var big, next := Call(cap, cap + delta, 0.0, 0.0), Call(0.0, 0.0, 0.0, 0.0);
      assert EstimatesHold([big], delta);
      assert AfterCall(0.0, cap, big) == cap + delta;
      assert [big][1..] == [];
      assert Spent(0.0, cap, [big]) == Spent(cap + delta, cap, []);
      assert DecideCostAction(InputFor(Spent(0.0, cap, [big]), cap, next)).Kill?;
    }
  }
}
