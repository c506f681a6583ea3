/** Recording human feedback and learning suppression rules from it, up to the findings a later
    review drops. */
module Feedback {
  import opened Optional
  import opened Strings
  import Redaction

  datatype FactType = AcceptedPattern | RejectedFinding | ArchDecision | SuppressionRule
  datatype Kind = ThumbsUp | ThumbsDown | Dismissed

  datatype RepoKey = RepoKey(installationId: int, repo: string)

  /** Times are in milliseconds. */
  datatype Row = Row(id: nat, key: RepoKey, factType: FactType, factText: string, expiresAt: int)
  datatype Event = Event(key: RepoKey, fingerprint: string, kind: Kind, factText: string)

  datatype Store = Store(rows: seq<Row>, nextId: nat)

  const EMPTY := Store([], 1)

  /** A row lives for 180 days. */
  const TTL := 180 * 24 * 60 * 60 * 1000

  // ----- fingerprints in row texts -----

  predicate IsHexDigit(c: char) {
    '0' <= c <= '9' || 'a' <= c <= 'f'
  }

  predicate IsHex(s: string) {
    s != "" && forall c <- s :: IsHexDigit(c)
  }

  function FpPrefix(fp: string): string {
    "[fp:" + fp + "]"
  }

  function HexRun(s: string): (h: string)
    ensures h <= s && forall c <- h :: IsHexDigit(c)
    ensures |h| < |s| ==> !IsHexDigit(s[|h|])
  {
    if s != "" && IsHexDigit(s[0]) then [s[0]] + HexRun(s[1..]) else ""
  }

  /** The fingerprint the reader takes from a row: hex digits in a leading `[fp:…]`. */
  function ExtractFingerprint(text: string): Option<string> {
    if "[fp:" <= text then
      var h := HexRun(text[4..]);
      if h != "" && |h| + 4 < |text| && text[|h| + 4] == ']' then Some(h) else None
    else None
  }

  /** Counting by text prefix is counting by extracted fingerprint. */
  lemma PrefixIsExtraction(fp: string, text: string)
    requires IsHex(fp)
    ensures FpPrefix(fp) <= text <==> ExtractFingerprint(text) == Some(fp)
  {
    PrefixParts(fp, text);
    if "[fp:" <= text {
      var rest := text[4..];
      if fp + "]" <= rest { HexRunStops(fp, rest); }
      if ExtractFingerprint(text) == Some(fp) { assert rest[..|fp| + 1] == fp + "]"; }
    }
  }

  lemma PrefixParts(fp: string, text: string)
    ensures FpPrefix(fp) <= text <==> "[fp:" <= text && fp + "]" <= text[4..]
  {
    var prefix := FpPrefix(fp);
    assert prefix == "[fp:" + (fp + "]");
    if "[fp:" <= text { assert text == "[fp:" + text[4..]; }
    if prefix <= text { assert prefix[..4] == "[fp:" && text[4..][..|fp| + 1] == prefix[4..]; }
  }

  lemma {:induction false} HexRunStops(fp: string, s: string)
    requires (forall c <- fp :: IsHexDigit(c)) && fp + "]" <= s
    ensures HexRun(s) == fp
  {
    if fp == "" {
      assert s[0] == ("" + "]")[0];
    } else {
      assert s[0] == (fp + "]")[0] == fp[0];
      assert fp + "]" == [fp[0]] + (fp[1..] + "]");
      assert fp[1..] + "]" <= s[1..];
      HexRunStops(fp[1..], s[1..]);
    }
  }

  // ----- counting -----

  predicate Names(r: Row, key: RepoKey, t: FactType, fp: string) {
    r.key == key && r.factType == t && FpPrefix(fp) <= r.factText
  }

  predicate Live(r: Row, now: int) { r.expiresAt > now }

  /** Live rows of a kind whose text begins with the fingerprint's prefix. */
  function CountByPrefix(rows: seq<Row>, key: RepoKey, t: FactType, fp: string, now: int): nat {
    if rows == [] then 0
    else
      CountByPrefix(rows[..|rows| - 1], key, t, fp, now)
      + if Names(rows[|rows| - 1], key, t, fp) && Live(rows[|rows| - 1], now) then 1 else 0
  }

  /** Live rows of a kind whose extracted fingerprint is `fp`. */
  function CountByExtraction(rows: seq<Row>, key: RepoKey, t: FactType, fp: string, now: int): nat {
    if rows == [] then 0
    else
      var r := rows[|rows| - 1];
      CountByExtraction(rows[..|rows| - 1], key, t, fp, now)
      + if r.key == key && r.factType == t && ExtractFingerprint(r.factText) == Some(fp) && Live(r, now) then 1 else 0
  }

  lemma {:induction false} CountsAgree(rows: seq<Row>, key: RepoKey, t: FactType, fp: string, now: int)
    requires IsHex(fp)
    ensures CountByPrefix(rows, key, t, fp, now) == CountByExtraction(rows, key, t, fp, now)
  {
    if rows != [] {
      CountsAgree(rows[..|rows| - 1], key, t, fp, now);
      PrefixIsExtraction(fp, rows[|rows| - 1].factText);
    }
  }

  lemma CountSnoc(rows: seq<Row>, r: Row, key: RepoKey, t: FactType, fp: string, now: int)
    ensures CountByPrefix(rows + [r], key, t, fp, now) ==
      CountByPrefix(rows, key, t, fp, now) + if Names(r, key, t, fp) && Live(r, now) then 1 else 0
  {
    assert (rows + [r])[..|rows|] == rows;
  }

  lemma {:induction false} CountZero(rows: seq<Row>, key: RepoKey, t: FactType, fp: string, now: int)
    ensures CountByPrefix(rows, key, t, fp, now) > 0 <==>
      exists i :: 0 <= i < |rows| && Names(rows[i], key, t, fp) && Live(rows[i], now)
  {
    if rows != [] {
      var front := rows[..|rows| - 1];
      CountZero(front, key, t, fp, now);
      if i :| 0 <= i < |front| && Names(front[i], key, t, fp) && Live(front[i], now) { assert Names(rows[i], key, t, fp); }
      if i :| 0 <= i < |rows| && Names(rows[i], key, t, fp) && Live(rows[i], now) {
        if i < |front| { assert Names(front[i], key, t, fp); }
      }
    }
  }

  /** Time only takes rows away. */
  lemma {:induction false} CountFades(rows: seq<Row>, key: RepoKey, t: FactType, fp: string, now: int, later: int)
    requires now <= later
    ensures CountByPrefix(rows, key, t, fp, later) <= CountByPrefix(rows, key, t, fp, now)
    ensures AllLive(rows, later) ==> CountByPrefix(rows, key, t, fp, later) == CountByPrefix(rows, key, t, fp, now)
  {
    if rows != [] {
      CountFades(rows[..|rows| - 1], key, t, fp, now, later);
      assert AllLive(rows, later) ==> AllLive(rows[..|rows| - 1], later) && Live(rows[|rows| - 1], later);
    }
  }

  /** A row counts when it is the repository's, of the kind, begins with the fingerprint in its brackets and has not
      expired. */
  predicate Counts(r: Row, key: RepoKey, t: FactType, fp: string, now: int) {
    r.key == key && r.factType == t && "[fp:" + fp + "]" <= r.factText && r.expiresAt > now
  }

  ghost function CountedAt(rows: seq<Row>, key: RepoKey, t: FactType, fp: string, now: int): set<nat> {
    set i: nat | i < |rows| && Counts(rows[i], key, t, fp, now)
  }

  lemma CountedNext(rows: seq<Row>, n: nat, key: RepoKey, t: FactType, fp: string, now: int)
    requires |rows| == n + 1
    ensures CountedAt(rows, key, t, fp, now) ==
            CountedAt(rows[..n], key, t, fp, now) + (if Counts(rows[n], key, t, fp, now) then {n} else {})
  {
  }

  lemma {:induction false} CountIsMany(rows: seq<Row>, key: RepoKey, t: FactType, fp: string, now: int)
    ensures CountByPrefix(rows, key, t, fp, now) == |CountedAt(rows, key, t, fp, now)|
  {
    if rows != [] {
      var n := |rows| - 1;
      var before := CountedAt(rows[..n], key, t, fp, now);
      CountIsMany(rows[..n], key, t, fp, now);
      CountedNext(rows, n, key, t, fp, now);
      assert Counts(rows[n], key, t, fp, now) <==> Names(rows[n], key, t, fp) && Live(rows[n], now);
    } else {
      assert CountedAt(rows, key, t, fp, now) == {};
    }
  }

  predicate AllLive(rows: seq<Row>, now: int) {
    forall r <- rows :: Live(r, now)
  }

  // ----- one record -----

  function ToFactType(k: Kind): FactType {
    if k == ThumbsUp then AcceptedPattern else RejectedFinding
  }

  function RowText(scan: Redaction.Scan, e: Event): string {
    FpPrefix(e.fingerprint) + " " + Redaction.Redacted(e.factText, scan(e.factText))
  }

  function Insert(s: Store, key: RepoKey, t: FactType, text: string, now: int): Store {
    Store(s.rows + [Row(s.nextId, key, t, text, now + TTL)], s.nextId + 1)
  }

  /** The threshold check after a stored rejection; a fault anywhere in it leaves the store as it is. */
  function Checked(s: Store, e: Event, threshold: nat, reason: string, fault: bool, now: int): Store {
    if fault || CountByPrefix(s.rows, e.key, RejectedFinding, e.fingerprint, now) < threshold then s
    else if CountByPrefix(s.rows, e.key, SuppressionRule, e.fingerprint, now) > 0 then s
    else Insert(s, e.key, SuppressionRule, FpPrefix(e.fingerprint) + " " + reason, now)
  }

  function Recorded(s: Store, scan: Redaction.Scan, e: Event, threshold: Option<nat>, reason: string, fault: bool, now: int): Store {
    var stored := Insert(s, e.key, ToFactType(e.kind), RowText(scan, e), now);
    if ToFactType(e.kind) == RejectedFinding && threshold.Some? then Checked(stored, e, threshold.value, reason, fault, now)
    else stored
  }

  /** The row that an event leaves: whose it is, what kind of fact, for how long, and a text that names the fingerprint and
      then has a clean copy of the event's own. */
  ghost predicate RowOf(r: Row, e: Event, scan: Redaction.Scan, at: int) {
    var n := |e.fingerprint| + 6;
    && r.key == e.key && r.expiresAt == at + 15552000000
    && r.factType == (match e.kind case ThumbsUp => AcceptedPattern case ThumbsDown => RejectedFinding case Dismissed => RejectedFinding)
    && |r.factText| >= n && r.factText[..n] == "[fp:" + e.fingerprint + "] "
    && Redaction.CleanCopy(r.factText[n..], e.factText, scan(e.factText))
  }

  /** The row of a rule for the event's fingerprint. */
  predicate RuleRowOf(r: Row, e: Event, reason: string, at: int) {
    && r.key == e.key && r.expiresAt == at + 15552000000 && r.factType == SuppressionRule
    && r.factText == "[fp:" + e.fingerprint + "] " + reason
  }

  /** The event's own row makes it enough rejections, and there is no rule yet. */
  predicate NewRule(rows: seq<Row>, e: Event, threshold: Option<nat>, fault: bool, now: int) {
    && e.kind != ThumbsUp && threshold.Some? && !fault
    && CountByPrefix(rows, e.key, RejectedFinding, e.fingerprint, now) >= threshold.value
    && CountByPrefix(rows, e.key, SuppressionRule, e.fingerprint, now) == 0
  }

  /** What a record adds: the event's row and possibly a rule's, and nothing else changes. */
  ghost predicate Adds(before: Store, after: Store, scan: Redaction.Scan, e: Event, threshold: Option<nat>, reason: string,
      fault: bool, now: int)
  {
    var n := |before.rows|;
    && |after.rows| > n && after.rows[..n] == before.rows
    && after.rows[n].id == before.nextId && RowOf(after.rows[n], e, scan, now)
    && if NewRule(after.rows[..n + 1], e, threshold, fault, now)
       then |after.rows| == n + 2 && after.rows[n + 1].id == before.nextId + 1 && RuleRowOf(after.rows[n + 1], e, reason, now)
       else |after.rows| == n + 1
  }

  lemma RecordedAdds(s: Store, scan: Redaction.Scan, e: Event, threshold: Option<nat>, reason: string, fault: bool, now: int)
    ensures Adds(s, Recorded(s, scan, e, threshold, reason, fault, now), scan, e, threshold, reason, fault, now)
  {
    var n, after := |s.rows|, Recorded(s, scan, e, threshold, reason, fault, now);
    var stored := Insert(s, e.key, ToFactType(e.kind), RowText(scan, e), now);
    StoredIsRow(s, scan, e, now);
    assert stored.rows[..n] == s.rows && after.rows[..n + 1] == stored.rows;
    assert after.rows[..n] == after.rows[..n + 1][..n];
    RuleText(e, reason);
  }

  lemma RuleText(e: Event, reason: string)
    ensures FpPrefix(e.fingerprint) + " " + reason == "[fp:" + e.fingerprint + "] " + reason
  {
    assert "]" + " " == "] ";
  }

  lemma StoredIsRow(s: Store, scan: Redaction.Scan, e: Event, now: int)
    ensures RowOf(Row(s.nextId, e.key, ToFactType(e.kind), RowText(scan, e), now + TTL), e, scan, now)
  {
    var text, copy := RowText(scan, e), Redaction.Redacted(e.factText, scan(e.factText));
    Redaction.RedactedIsClean(e.factText, scan(e.factText));
    RuleText(e, copy);
    var prefix := "[fp:" + e.fingerprint + "] ";
    assert text == prefix + copy && |prefix| == |e.fingerprint| + 6;
    assert text[|prefix|..] == copy;
  }

  /** The rule that a delete names: the id alone is not enough. */
  predicate IsRule(r: Row, id: nat, key: RepoKey) {
    r.id == id && r.key == key && r.factType == SuppressionRule
  }

  function RemoveRule(rows: seq<Row>, id: nat, key: RepoKey): seq<Row> {
    if rows == [] then []
    else
      var r := rows[|rows| - 1];
      if IsRule(r, id, key) then RemoveRule(rows[..|rows| - 1], id, key)
      else RemoveRule(rows[..|rows| - 1], id, key) + [r]
  }

  /** The periodic cleanup. */
  function PruneExpired(rows: seq<Row>, now: int): seq<Row> {
    if rows == [] then []
    else
      var r := rows[|rows| - 1];
      if r.expiresAt < now then PruneExpired(rows[..|rows| - 1], now) else PruneExpired(rows[..|rows| - 1], now) + [r]
  }

  /** A cleanup keeps every copy of a row until the moment it expires has passed, and no longer. */
  lemma {:induction false} PrunedMultiplicity(rows: seq<Row>, now: int, r: Row)
    ensures multiset(PruneExpired(rows, now))[r] == if r.expiresAt >= now then multiset(rows)[r] else 0
  {
    if rows != [] {
      var n := |rows| - 1;
      assert rows == rows[..n] + [rows[n]];
      PrunedMultiplicity(rows[..n], now, r);
    }
  }

  lemma {:induction false} RemovedMultiplicity(rows: seq<Row>, id: nat, key: RepoKey, r: Row)
    ensures multiset(RemoveRule(rows, id, key))[r] == if IsRule(r, id, key) then 0 else multiset(rows)[r]
    ensures |RemoveRule(rows, id, key)| <= |rows|
    ensures |RemoveRule(rows, id, key)| < |rows| <==> exists x :: x in rows && IsRule(x, id, key)
  {
    if rows != [] {
      var n := |rows| - 1;
      assert rows == rows[..n] + [rows[n]];
      RemovedMultiplicity(rows[..n], id, key, r);
    }
  }

  class ReviewHistory {
    var rows: seq<Row>
    var nextId: nat

    function Current(): Store
      reads this
    {
      Store(rows, nextId)
    }

    constructor ()
      ensures Current() == EMPTY
    {
      rows, nextId := [], 1;
    }

    method Write(key: RepoKey, t: FactType, text: string, now: int)
      modifies this
      ensures Current() == Insert(old(Current()), key, t, text, now)
    {
      rows := rows + [Row(nextId, key, t, text, now + TTL)];
      nextId := nextId + 1;
    }

    method CountRejectionsByFingerprint(key: RepoKey, fp: string, now: int) returns (n: nat)
      ensures n == CountByPrefix(rows, key, RejectedFinding, fp, now)
      ensures n == |CountedAt(rows, key, RejectedFinding, fp, now)|
    {
      CountIsMany(rows, key, RejectedFinding, fp, now);
      n := 0;
      var i := 0;
      while i < |rows|
        invariant 0 <= i <= |rows|
        invariant n == CountByPrefix(rows[..i], key, RejectedFinding, fp, now)
      {
        assert rows[..i + 1][..i] == rows[..i];
        if Names(rows[i], key, RejectedFinding, fp) && Live(rows[i], now) { n := n + 1; }
        i := i + 1;
      }
      assert rows[..|rows|] == rows;
    }

    /** Takes the named rule out, as often as it occurs, and leaves every other row as it is and where it is. */
    method DeleteSuppressionRule(id: nat, key: RepoKey) returns (found: bool)
      modifies this`rows
      ensures forall r: Row ::
        multiset(rows)[r] == (if r.id == id && r.key == key && r.factType == SuppressionRule then 0 else multiset(old(rows))[r])
      ensures found <==> exists r :: r in old(rows) && IsRule(r, id, key)
      ensures rows == RemoveRule(old(rows), id, key)
    {
      var kept: seq<Row> := [];
      for i := 0 to |rows|
        invariant kept == RemoveRule(rows[..i], id, key) && rows == old(rows)
      {
        assert rows[..i + 1][..i] == rows[..i];
        if !IsRule(rows[i], id, key) { kept := kept + [rows[i]]; }
      }
      assert rows[..|rows|] == rows;
      forall r: Row
        ensures multiset(kept)[r] == if IsRule(r, id, key) then 0 else multiset(rows)[r]
        ensures |kept| < |rows| <==> exists x :: x in rows && IsRule(x, id, key)
      {
        RemovedMultiplicity(rows, id, key, r);
      }
      RemovedMultiplicity(rows, id, key, Row(0, key, SuppressionRule, "", 0));
      found := |kept| < |rows|;
      rows := kept;
    }
  }

  /** How a record ends; an error of the store leaves the call. */
  datatype Answer = Stored | Dropped | Threw

  /** One job's writer over the shared store; `max` is none for the unlimited sentinel. */
  class FeedbackWriter {
    const history: ReviewHistory
    const max: Option<nat>
    const threshold: Option<nat>
    const scan: Redaction.Scan
    var count: nat

    constructor (history: ReviewHistory, max: Option<nat>, threshold: Option<nat>, scan: Redaction.Scan)
      ensures this.history == history && this.max == max && this.threshold == threshold && this.scan == scan && count == 0
    {
      this.history, this.max, this.threshold, this.scan, count := history, max, threshold, scan, 0;
    }

    /** A writer never records more events than its cap. */
    predicate WithinCap()
      reads this
    {
      max.Some? ==> count <= max.value
    }

    /** `stores` says whether the store takes the event's row, `fault` whether something fails after that. */
    method Record(e: Event, reason: string, stores: bool, fault: bool, now: int) returns (answer: Answer)
      requires WithinCap()
      modifies this, history
      ensures WithinCap()
      ensures answer == Dropped <==> max.Some? && old(count) == max.value
      ensures answer != Dropped ==> (answer == Stored <==> stores)
      ensures count == if answer == Dropped then old(count) else old(count) + 1
      ensures answer != Stored ==> history.Current() == old(history.Current())
      ensures answer == Stored ==> Adds(old(history.Current()), history.Current(), scan, e, threshold, reason, fault, now)
      ensures answer == Stored ==> history.Current() == Recorded(old(history.Current()), scan, e, threshold, reason, fault, now)
    {
      if max.Some? && count >= max.value { return Dropped; }
      count := count + 1;
      var factType := ToFactType(e.kind);
      var findings := scan(e.factText);
      var redacted := e.factText;
      if |findings| > 0 { redacted := Redaction.ApplyRedactions(e.factText, findings); }
      if !stores { return Threw; }
      RecordedAdds(history.Current(), scan, e, threshold, reason, fault, now);
      history.Write(e.key, factType, FpPrefix(e.fingerprint) + " " + redacted, now);
      if factType == RejectedFinding && threshold.Some? && !fault {
        var n := history.CountRejectionsByFingerprint(e.key, e.fingerprint, now);
        if n >= threshold.value {
          CountZero(history.rows, e.key, SuppressionRule, e.fingerprint, now);
          if !(exists i | 0 <= i < |history.rows| ::
              Names(history.rows[i], e.key, SuppressionRule, e.fingerprint) && Live(history.rows[i], now)) {
            history.Write(e.key, SuppressionRule, FpPrefix(e.fingerprint) + " " + reason, now);
          }
        }
      }
      return Stored;
    }
  }

  // ----- whole runs -----

  /** A recorded event, a removed rule or a cleanup, each at its time. */
  datatype Op =
    | Write(at: int, event: Event, reason: string, fault: bool)
    | Remove(at: int, id: nat, key: RepoKey)
    | Clean(at: int)

  function Apply(s: Store, scan: Redaction.Scan, threshold: nat, op: Op): Store {
    match op
    case Write(at, e, reason, fault) => Recorded(s, scan, e, Some(threshold), reason, fault, at)
    case Remove(_, id, key) => s.(rows := RemoveRule(s.rows, id, key))
    case Clean(at) => s.(rows := PruneExpired(s.rows, at))
  }

  function Run(s: Store, scan: Redaction.Scan, threshold: nat, ops: seq<Op>): Store
    decreases |ops|
  {
    if ops == [] then s else Run(Apply(s, scan, threshold, ops[0]), scan, threshold, ops[1..])
  }

  /** The row of one of the written events. */
  ghost predicate FromEvent(r: Row, ops: seq<Op>, scan: Redaction.Scan) {
    exists i :: 0 <= i < |ops| && ops[i].Write? && RowOf(r, ops[i].event, scan, ops[i].at)
  }

  lemma {:induction false} RemovedAreRows(rows: seq<Row>, id: nat, key: RepoKey)
    ensures forall r :: r in RemoveRule(rows, id, key) ==> r in rows
  {
    if rows != [] { RemovedAreRows(rows[..|rows| - 1], id, key); }
  }

  lemma {:induction false} PrunedAreRows(rows: seq<Row>, now: int)
    ensures forall r :: r in PruneExpired(rows, now) ==> r in rows
  {
    if rows != [] { PrunedAreRows(rows[..|rows| - 1], now); }
  }

  lemma ApplyRows(s: Store, scan: Redaction.Scan, threshold: nat, op: Op, r: Row)
    requires r in Apply(s, scan, threshold, op).rows && r.factType != SuppressionRule
    ensures r in s.rows || (op.Write? && RowOf(r, op.event, scan, op.at))
  {
    match op
    case Write(at, e, reason, fault) =>
      RecordedAdds(s, scan, e, Some(threshold), reason, fault, at);
      var rows, n := Apply(s, scan, threshold, op).rows, |s.rows|;
      var i :| 0 <= i < |rows| && rows[i] == r;
      if i < n { assert rows[..n][i] == r; }
    case Remove(_, id, key) => RemovedAreRows(s.rows, id, key);
    case Clean(at) => PrunedAreRows(s.rows, at);
  }

  /** Whatever happens, every stored row that is not a rule is the row of an event, with a clean copy of its text. */
  lemma {:induction false} RowsAreEvents(s: Store, scan: Redaction.Scan, threshold: nat, ops: seq<Op>, r: Row)
    requires r in Run(s, scan, threshold, ops).rows && r.factType != SuppressionRule
    ensures r in s.rows || FromEvent(r, ops, scan)
    decreases |ops|
  {
    if ops != [] {
      var next := Apply(s, scan, threshold, ops[0]);
      RowsAreEvents(next, scan, threshold, ops[1..], r);
      if FromEvent(r, ops[1..], scan) {
        var i :| 0 <= i < |ops[1..]| && ops[1..][i].Write? && RowOf(r, ops[1..][i].event, scan, ops[1..][i].at);
        assert ops[i + 1] == ops[1..][i];
      } else {
        ApplyRows(s, scan, threshold, ops[0], r);
      }
    }
  }

  /** The history never holds a text that the scanner always reports and no token can complete: every row that is not a rule
      names a fingerprint and then a text without it. */
  lemma HistoryHoldsNoSecret(scan: Redaction.Scan, threshold: nat, ops: seq<Op>, r: Row, x: string) returns (fp: string, t: string)
    requires Redaction.Reported(scan, x) && Redaction.AlwaysRedactable(scan) && Redaction.NeverCompleted(scan, x)
    requires r in Run(EMPTY, scan, threshold, ops).rows && r.factType != SuppressionRule
    ensures r.factText == "[fp:" + fp + "] " + t && !Occurs(x, t)
  {
    RowsAreEvents(EMPTY, scan, threshold, ops, r);
    var i :| 0 <= i < |ops| && ops[i].Write? && RowOf(r, ops[i].event, scan, ops[i].at);
    fp := ops[i].event.fingerprint;
    t := RowHolds(r, ops[i].event, scan, ops[i].at, x);
  }

  lemma RowHolds(r: Row, e: Event, scan: Redaction.Scan, at: int, x: string) returns (t: string)
    requires Redaction.Reported(scan, x) && Redaction.AlwaysRedactable(scan) && Redaction.NeverCompleted(scan, x)
    requires RowOf(r, e, scan, at)
    ensures r.factText == "[fp:" + e.fingerprint + "] " + t && !Occurs(x, t)
  {
    var n := |e.fingerprint| + 6;
    t := r.factText[n..];
    assert r.factText == r.factText[..n] + t;
    Redaction.ReportedLeavesCopy(scan, x, t, e.factText);
  }

  predicate HexEvents(ops: seq<Op>) {
    forall i | 0 <= i < |ops| :: ops[i].Write? ==> IsHex(ops[i].event.fingerprint)
  }

  /** No faults, no removals and no cleanup. */
  predicate Undisturbed(ops: seq<Op>) {
    forall i | 0 <= i < |ops| :: ops[i].Write? && !ops[i].fault
  }

  /** Time does not run backwards, from `start` to `now`. */
  predicate InOrder(ops: seq<Op>, start: int, now: int)
    decreases |ops|
  {
    if ops == [] then start <= now else start <= ops[0].at && InOrder(ops[1..], ops[0].at, now)
  }

  function Rejections(s: Store, key: RepoKey, fp: string, now: int): nat {
    CountByPrefix(s.rows, key, RejectedFinding, fp, now)
  }

  function Rules(s: Store, key: RepoKey, fp: string, now: int): nat {
    CountByPrefix(s.rows, key, SuppressionRule, fp, now)
  }

  predicate Rejects(e: Event, key: RepoKey, fp: string) {
    e.key == key && e.fingerprint == fp && e.kind != ThumbsUp
  }

  function RejectingEvents(ops: seq<Op>, key: RepoKey, fp: string): nat {
    if ops == [] then 0
    else Rejecting(ops[0], key, fp) + RejectingEvents(ops[1..], key, fp)
  }

  function Rejecting(op: Op, key: RepoKey, fp: string): nat {
    if op.Write? && Rejects(op.event, key, fp) then 1 else 0
  }

  /** A text written for one hex fingerprint never begins with another one's prefix. */
  lemma OwnPrefixOnly(fp: string, tail: string, other: string)
    requires IsHex(fp) && IsHex(other)
    ensures FpPrefix(other) <= FpPrefix(fp) + " " + tail <==> other == fp
  {
    var text := FpPrefix(fp) + " " + tail;
    PrefixIsExtraction(fp, text);
    PrefixIsExtraction(other, text);
    assert FpPrefix(fp) <= text;
  }

  lemma StoredCounts(s: Store, e: Event, tail: string, at: int, key: RepoKey, fp: string, now: int)
    requires IsHex(e.fingerprint) && IsHex(fp)
    ensures var s' := Insert(s, e.key, ToFactType(e.kind), FpPrefix(e.fingerprint) + " " + tail, at);
            && Rejections(s', key, fp, now) == Rejections(s, key, fp, now) + (if Rejects(e, key, fp) && at + TTL > now then 1 else 0)
            && Rules(s', key, fp, now) == Rules(s, key, fp, now)
  {
    OwnPrefixOnly(e.fingerprint, tail, fp);
    Snocs(s.rows, Row(s.nextId, e.key, ToFactType(e.kind), FpPrefix(e.fingerprint) + " " + tail, at + TTL), key, fp, now);
  }

  lemma RuleCounts(s: Store, e: Event, tail: string, at: int, key: RepoKey, fp: string, now: int)
    requires IsHex(e.fingerprint) && IsHex(fp)
    ensures var s' := Insert(s, e.key, SuppressionRule, FpPrefix(e.fingerprint) + " " + tail, at);
            && Rejections(s', key, fp, now) == Rejections(s, key, fp, now)
            && Rules(s', key, fp, now) == Rules(s, key, fp, now)
                 + if e.key == key && e.fingerprint == fp && at + TTL > now then 1 else 0
  {
    OwnPrefixOnly(e.fingerprint, tail, fp);
    Snocs(s.rows, Row(s.nextId, e.key, SuppressionRule, FpPrefix(e.fingerprint) + " " + tail, at + TTL), key, fp, now);
  }

  lemma CheckedCounts(s: Store, e: Event, threshold: nat, reason: string, fault: bool, at: int, key: RepoKey, fp: string, now: int)
    requires IsHex(e.fingerprint) && IsHex(fp)
    ensures var s' := Checked(s, e, threshold, reason, fault, at);
            && Rejections(s', key, fp, now) == Rejections(s, key, fp, now)
            && Rules(s', key, fp, now) == Rules(s, key, fp, now)
                 + if e.key == key && e.fingerprint == fp && !fault && Rejections(s, key, fp, at) >= threshold
                      && Rules(s, key, fp, at) == 0 && at + TTL > now then 1 else 0
  {
    RuleCounts(s, e, reason, at, key, fp, now);
  }

  /** What a record does, at its time or later, to the two counts of any hex fingerprint. */
  lemma RecordCounts(s: Store, scan: Redaction.Scan, op: Op, threshold: nat, key: RepoKey, fp: string, now: int)
    requires op.Write? && IsHex(op.event.fingerprint) && IsHex(fp)
    ensures var s', at := Apply(s, scan, threshold, op), op.at;
            var hit := Rejects(op.event, key, fp);
            && Rejections(s', key, fp, now) == Rejections(s, key, fp, now) + (if hit && at + TTL > now then 1 else 0)
            && Rules(s', key, fp, now) == Rules(s, key, fp, now)
                 + if hit && !op.fault && Rejections(s, key, fp, at) + 1 >= threshold && Rules(s, key, fp, at) == 0
                      && at + TTL > now then 1 else 0
  {
    var e, at := op.event, op.at;
    var tail := Redaction.Redacted(e.factText, scan(e.factText));
    var stored := Insert(s, e.key, ToFactType(e.kind), FpPrefix(e.fingerprint) + " " + tail, at);
    StoredCounts(s, e, tail, at, key, fp, now);
    StoredCounts(s, e, tail, at, key, fp, at);
    CheckedCounts(stored, e, threshold, op.reason, op.fault, at, key, fp, now);
  }

  lemma Snocs(rows: seq<Row>, r: Row, key: RepoKey, fp: string, now: int)
    ensures CountByPrefix(rows + [r], key, RejectedFinding, fp, now) ==
      CountByPrefix(rows, key, RejectedFinding, fp, now) + if Names(r, key, RejectedFinding, fp) && Live(r, now) then 1 else 0
    ensures CountByPrefix(rows + [r], key, SuppressionRule, fp, now) ==
      CountByPrefix(rows, key, SuppressionRule, fp, now) + if Names(r, key, SuppressionRule, fp) && Live(r, now) then 1 else 0
  {
    CountSnoc(rows, r, key, RejectedFinding, fp, now);
    CountSnoc(rows, r, key, SuppressionRule, fp, now);
  }

  lemma {:induction false} RemoveCounts(rows: seq<Row>, id: nat, key: RepoKey, k: RepoKey, fp: string, now: int)
    ensures CountByPrefix(RemoveRule(rows, id, key), k, RejectedFinding, fp, now) == CountByPrefix(rows, k, RejectedFinding, fp, now)
    ensures CountByPrefix(RemoveRule(rows, id, key), k, SuppressionRule, fp, now) <= CountByPrefix(rows, k, SuppressionRule, fp, now)
  {
    if rows != [] {
      var front, r := rows[..|rows| - 1], rows[|rows| - 1];
      RemoveCounts(front, id, key, k, fp, now);
      Snocs(RemoveRule(front, id, key), r, k, fp, now);
    }
  }

  /** A cleanup at its time, or before, takes no live row. */
  lemma {:induction false} CleanCounts(rows: seq<Row>, at: int, k: RepoKey, t: FactType, fp: string, now: int)
    requires at <= now
    ensures CountByPrefix(PruneExpired(rows, at), k, t, fp, now) == CountByPrefix(rows, k, t, fp, now)
  {
    if rows != [] {
      var front, r := rows[..|rows| - 1], rows[|rows| - 1];
      CleanCounts(front, at, k, t, fp, now);
      CountSnoc(PruneExpired(front, at), r, k, t, fp, now);
    }
  }

  /** At time `t`: at most one live rule, and only when enough rejections were seen. */
  predicate RuleSound(s: Store, threshold: nat, key: RepoKey, fp: string, t: int, seen: nat) {
    Rules(s, key, fp, t) <= 1 && (Rules(s, key, fp, t) > 0 ==> seen >= threshold) && Rejections(s, key, fp, t) <= seen
  }

  lemma SoundLater(s: Store, threshold: nat, key: RepoKey, fp: string, t: int, seen: nat, later: int)
    requires RuleSound(s, threshold, key, fp, t, seen) && t <= later
    ensures RuleSound(s, threshold, key, fp, later, seen)
  {
    CountFades(s.rows, key, SuppressionRule, fp, t, later);
    CountFades(s.rows, key, RejectedFinding, fp, t, later);
  }

  lemma SoundStep(s: Store, scan: Redaction.Scan, threshold: nat, op: Op, key: RepoKey, fp: string, seen: nat)
    requires IsHex(fp) && (op.Write? ==> IsHex(op.event.fingerprint)) && RuleSound(s, threshold, key, fp, op.at, seen)
    ensures RuleSound(Apply(s, scan, threshold, op), threshold, key, fp, op.at, seen + Rejecting(op, key, fp))
  {
    match op {
      case Write(at, _, _, _) => RecordCounts(s, scan, op, threshold, key, fp, at);
      case Remove(at, id, k) => RemoveCounts(s.rows, id, k, key, fp, at);
      case Clean(at) =>
        CleanCounts(s.rows, at, key, SuppressionRule, fp, at);
        CleanCounts(s.rows, at, key, RejectedFinding, fp, at);
    }
  }

  lemma {:induction false} RunSound(s: Store, scan: Redaction.Scan, threshold: nat, ops: seq<Op>, key: RepoKey, fp: string,
      start: int, now: int, seen: nat)
    requires HexEvents(ops) && IsHex(fp) && InOrder(ops, start, now) && RuleSound(s, threshold, key, fp, start, seen)
    ensures RuleSound(Run(s, scan, threshold, ops), threshold, key, fp, now, seen + RejectingEvents(ops, key, fp))
    decreases |ops|
  {
    if ops == [] {
      SoundLater(s, threshold, key, fp, start, seen, now);
    } else {
      var op := ops[0];
      SoundLater(s, threshold, key, fp, start, seen, op.at);
      SoundStep(s, scan, threshold, op, key, fp, seen);
      RunSound(Apply(s, scan, threshold, op), scan, threshold, ops[1..], key, fp, op.at, now, seen + Rejecting(op, key, fp));
    }
  }

  /** In every run, with faults, removals, expiry and cleanups anywhere, a hex fingerprint has at most one live rule at any
      time, and one only if the run rejected it often enough. */
  lemma RulesAlwaysSound(scan: Redaction.Scan, threshold: nat, ops: seq<Op>, key: RepoKey, fp: string, start: int, now: int)
    requires HexEvents(ops) && IsHex(fp) && InOrder(ops, start, now)
    ensures var s := Run(EMPTY, scan, threshold, ops);
      Rules(s, key, fp, now) <= 1 && (Rules(s, key, fp, now) > 0 ==> RejectingEvents(ops, key, fp) >= threshold)
  {
    RunSound(EMPTY, scan, threshold, ops, key, fp, start, now, 0);
  }

  /** Everything written so far is still live at `now`, and a rule is there exactly past the threshold. */
  predicate RuleExact(s: Store, threshold: nat, key: RepoKey, fp: string, now: int, seen: nat) {
    AllLive(s.rows, now) && Rejections(s, key, fp, now) == seen && Rules(s, key, fp, now) == if seen >= threshold then 1 else 0
  }

  lemma ExactStep(s: Store, scan: Redaction.Scan, threshold: nat, op: Op, key: RepoKey, fp: string, now: int, seen: nat)
    requires op.Write? && !op.fault && IsHex(op.event.fingerprint) && IsHex(fp) && op.at <= now < op.at + TTL
    requires RuleExact(s, threshold, key, fp, now, seen)
    ensures RuleExact(Apply(s, scan, threshold, op), threshold, key, fp, now,
      seen + Rejecting(op, key, fp))
  {
    var s' := Apply(s, scan, threshold, op);
    RecordCounts(s, scan, op, threshold, key, fp, now);
    ApplyLive(s, scan, threshold, op, now);
    CountFades(s.rows, key, SuppressionRule, fp, op.at, now);
    CountFades(s'.rows, key, RejectedFinding, fp, op.at, now);
  }

  /** What a write adds is live for as long as a row lives. */
  lemma ApplyLive(s: Store, scan: Redaction.Scan, threshold: nat, op: Op, now: int)
    requires op.Write? && now < op.at + TTL && AllLive(s.rows, now)
    ensures AllLive(Apply(s, scan, threshold, op).rows, now)
  {
  }

  lemma {:induction false} RunExact(s: Store, scan: Redaction.Scan, threshold: nat, ops: seq<Op>, key: RepoKey, fp: string,
      start: int, now: int, seen: nat)
    requires HexEvents(ops) && Undisturbed(ops) && IsHex(fp) && InOrder(ops, start, now) && now < start + TTL
    requires RuleExact(s, threshold, key, fp, now, seen)
    ensures RuleExact(Run(s, scan, threshold, ops), threshold, key, fp, now, seen + RejectingEvents(ops, key, fp))
    decreases |ops|
  {
    if ops != [] {
      var op := ops[0];
      OrderBounds(ops, start, now);
      ExactStep(s, scan, threshold, op, key, fp, now, seen);
      RunExact(Apply(s, scan, threshold, op), scan, threshold, ops[1..], key, fp, op.at, now,
        seen + Rejecting(op, key, fp));
    }
  }

  lemma {:induction false} OrderBounds(ops: seq<Op>, start: int, now: int)
    requires InOrder(ops, start, now)
    ensures start <= now && (ops != [] ==> ops[0].at <= now)
    decreases |ops|
  {
    if ops != [] { OrderBounds(ops[1..], ops[0].at, now); }
  }

  // ----- what a later review drops -----

  /** The fingerprints of the live rules of a repository, as the review loads them. */
  function Suppressed(rows: seq<Row>, key: RepoKey, now: int): set<string> {
    set i | 0 <= i < |rows| && rows[i].key == key && rows[i].factType == SuppressionRule && Live(rows[i], now)
            && ExtractFingerprint(rows[i].factText).Some? :: ExtractFingerprint(rows[i].factText).value
  }

  lemma SuppressedIsRules(s: Store, key: RepoKey, fp: string, now: int)
    requires IsHex(fp)
    ensures fp in Suppressed(s.rows, key, now) <==> Rules(s, key, fp, now) > 0
  {
    CountZero(s.rows, key, SuppressionRule, fp, now);
    if i :| 0 <= i < |s.rows| && Names(s.rows[i], key, SuppressionRule, fp) && Live(s.rows[i], now) {
      PrefixIsExtraction(fp, s.rows[i].factText);
    }
    if fp in Suppressed(s.rows, key, now) {
      var i :| 0 <= i < |s.rows| && s.rows[i].key == key && s.rows[i].factType == SuppressionRule && Live(s.rows[i], now)
               && ExtractFingerprint(s.rows[i].factText) == Some(fp);
      PrefixIsExtraction(fp, s.rows[i].factText);
      assert Names(s.rows[i], key, SuppressionRule, fp);
    }
  }

  /** What a review loads as muted at any time was rejected often enough, in every run. */
  lemma MutedWasRejected(scan: Redaction.Scan, threshold: nat, ops: seq<Op>, key: RepoKey, fp: string, start: int, now: int)
    requires HexEvents(ops) && IsHex(fp) && InOrder(ops, start, now)
    ensures fp in Suppressed(Run(EMPTY, scan, threshold, ops).rows, key, now) ==> RejectingEvents(ops, key, fp) >= threshold
  {
    RulesAlwaysSound(scan, threshold, ops, key, fp, start, now);
    SuppressedIsRules(Run(EMPTY, scan, threshold, ops), key, fp, now);
  }

  /** After an undisturbed run of less than 180 days a review mutes a fingerprint exactly when it was rejected at least
      `threshold` times in that repository. */
  lemma MutedExactlyWhenRejected(scan: Redaction.Scan, threshold: nat, ops: seq<Op>, key: RepoKey, fp: string,
      start: int, now: int)
    requires threshold >= 1 && HexEvents(ops) && Undisturbed(ops) && IsHex(fp)
    requires InOrder(ops, start, now) && now < start + TTL
    ensures fp in Suppressed(Run(EMPTY, scan, threshold, ops).rows, key, now) <==> RejectingEvents(ops, key, fp) >= threshold
  {
    RunExact(EMPTY, scan, threshold, ops, key, fp, start, now, 0);
    SuppressedIsRules(Run(EMPTY, scan, threshold, ops), key, fp, now);
  }
}
