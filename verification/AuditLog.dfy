/** The audit table over its whole life: appends, prunes, and what the surviving rows still prove. */
module AuditLog {
  import opened Optional
  import opened AuditChain

  datatype AuditEvent = AuditEvent(ts: Option<int>, installationId: Option<int>, prId: Option<string>, event: string,
    model: Option<string>, inputTokens: Option<int>, outputTokens: Option<int>)

  datatype Row = Row(id: nat, link: Link)

  /** `rows` is the table in id order; `history` is every row ever inserted. */
  datatype State = State(rows: seq<Row>, history: seq<Row>, nextId: nat)

  datatype Op = Append(event: AuditEvent, now: int) | Prune(before: int)

  const EMPTY := State([], [], 1)

  function Links(rows: seq<Row>): (ls: seq<Link>)
    ensures |ls| == |rows| && forall i | 0 <= i < |rows| :: ls[i] == rows[i].link
  {
    if rows == [] then [] else Links(rows[..|rows| - 1]) + [rows[|rows| - 1].link]
  }

  function TsOf(r: Row): int {
    r.link.payload.ts
  }

  // ----- append -----

  function LastHash(rows: seq<Row>): Hash {
    if rows == [] then GENESIS else rows[|rows| - 1].link.hash
  }

  function ToPayload(e: AuditEvent, now: int): Payload {
    Payload(if e.ts.Some? then e.ts.value else now, e.installationId, e.prId, e.event, e.model, e.inputTokens, e.outputTokens)
  }

  /** The payload carries the event field by field, with the clock's time when the event brings none. */
  predicate Describes(p: Payload, e: AuditEvent, now: int) {
    (match e.ts case Some(ts) => p.ts == ts case None => p.ts == now) &&
    p.installationId == e.installationId && p.prId == e.prId && p.event == e.event &&
    p.model == e.model && p.inputTokens == e.inputTokens && p.outputTokens == e.outputTokens
  }

  function NewLink(h: HashFn, prev: Hash, e: AuditEvent, now: int): Link {
    var payload := ToPayload(e, now);
    Link(Some(prev), h(prev, payload), payload)
  }

  function Appended(h: HashFn, s: State, e: AuditEvent, now: int): State {
    var row := Row(s.nextId, NewLink(h, LastHash(s.rows), e, now));
    State(s.rows + [row], s.history + [row], s.nextId + 1)
  }

  // ----- prune -----

  predicate OldAt(rows: seq<Row>, before: int, i: nat)
    requires i < |rows|
  {
    TsOf(rows[i]) < before
  }

  predicate AnchorAt(rows: seq<Row>, before: int, n: nat) {
    n < |rows| && OldAt(rows, before, n) && forall i | n < i < |rows| :: !OldAt(rows, before, i)
  }

  predicate NoneOld(rows: seq<Row>, before: int) {
    forall i | 0 <= i < |rows| :: !OldAt(rows, before, i)
  }

  /** The position of the anchor, the last row by id older than `before`. */
  function Anchor(rows: seq<Row>, before: int): (n: Option<nat>)
    ensures match n case None => NoneOld(rows, before) case Some(k) => AnchorAt(rows, before, k)
  {
    if rows == [] then None
    else
      var last := |rows| - 1;
      if OldAt(rows, before, last) then Some(last)
      else
        match Anchor(rows[..last], before)
        case None =>
          assert forall i | 0 <= i < last :: OldAt(rows, before, i) == OldAt(rows[..last], before, i);
          None
        case Some(k) =>
          assert forall i | 0 <= i < last :: OldAt(rows, before, i) == OldAt(rows[..last], before, i);
          Some(k)
  }

  /** Of `rows` the first is from before the cutoff, and no other. */
  predicate FirstAloneOld(rows: seq<Row>, before: int) {
    rows != [] && rows[0].link.payload.ts < before && forall i | 0 < i < |rows| :: rows[i].link.payload.ts >= before
  }

  /** `left` is `rows` without the first `deleted`: all of it when no row is from before the cutoff, and otherwise
      from the last such row on. */
  predicate Prunes(rows: seq<Row>, left: seq<Row>, deleted: nat, before: int) {
    deleted <= |rows| && left == rows[deleted..] &&
    if forall i | 0 <= i < |rows| :: rows[i].link.payload.ts >= before then deleted == 0 else FirstAloneOld(left, before)
  }

  /** What is dropped in front of the anchor, told row by row. */
  lemma PrunedLeaves(rows: seq<Row>, before: int)
    ensures Prunes(rows, rows[PrunedCount(rows, before)..], PrunedCount(rows, before), before)
  {
    match Anchor(rows, before) {
      case None =>
        forall i | 0 <= i < |rows| ensures rows[i].link.payload.ts >= before { assert !OldAt(rows, before, i); }
        assert rows[0..] == rows;
      case Some(k) =>
        assert OldAt(rows, before, k);
        var kept := rows[k..];
        forall i | 0 < i < |kept| ensures kept[i].link.payload.ts >= before { assert !OldAt(rows, before, k + i); }
    }
  }

  /** The number of rows in front of the anchor; none without one. */
  function PrunedCount(rows: seq<Row>, before: int): (n: nat)
    ensures n <= |rows| && (rows != [] ==> n < |rows|)
  {
    match Anchor(rows, before) case None => 0 case Some(k) => k
  }

  function Pruned(s: State, before: int): State {
    s.(rows := s.rows[PrunedCount(s.rows, before)..])
  }

  function Step(h: HashFn, s: State, op: Op): State {
    match op
    case Append(e, now) => Appended(h, s, e, now)
    case Prune(before) => Pruned(s, before)
  }

  function Run(h: HashFn, s: State, ops: seq<Op>): State
    decreases |ops|
  {
    if ops == [] then s else Run(h, Step(h, s, ops[0]), ops[1..])
  }

  // ----- the invariant of every run -----

  predicate IsSuffix(rows: seq<Row>, history: seq<Row>) {
    |rows| <= |history| && rows == history[|history| - |rows|..]
  }

  predicate IdOrder(rows: seq<Row>, i: nat, j: nat)
    requires i < j < |rows|
  {
    rows[i].id < rows[j].id
  }

  predicate IdsIncrease(rows: seq<Row>, nextId: nat) {
    && (rows != [] ==> rows[|rows| - 1].id < nextId)
    && forall i, j | 0 <= i < j < |rows| :: IdOrder(rows, i, j)
  }

  function HashBefore(rows: seq<Row>, i: nat): Hash
    requires i <= |rows|
  {
    if i == 0 then GENESIS else rows[i - 1].link.hash
  }

  /** A row hashes its payload over the hash of the row before it, and stores that hash. */
  predicate RowOk(h: HashFn, rows: seq<Row>, i: nat)
    requires i < |rows|
  {
    var link := rows[i].link;
    link.prevHash == Some(HashBefore(rows, i)) && link.hash == h(HashBefore(rows, i), link.payload)
  }

  ghost predicate Inv(h: HashFn, s: State) {
    && IsSuffix(s.rows, s.history)
    && (s.history != [] ==> s.rows != [])
    && IdsIncrease(s.history, s.nextId)
    && forall i | 0 <= i < |s.history| :: RowOk(h, s.history, i)
  }

  lemma AppendKeeps(h: HashFn, s: State, e: AuditEvent, now: int)
    requires Inv(h, s)
    ensures Inv(h, Appended(h, s, e, now))
  {
    var s' := Appended(h, s, e, now);
    assert LastHash(s.rows) == LastHash(s.history);
    forall i | 0 <= i < |s'.history| ensures RowOk(h, s'.history, i) {
      if i < |s.history| { assert RowOk(h, s.history, i); }
    }
    forall i, j | 0 <= i < j < |s'.history| ensures IdOrder(s'.history, i, j) {
      if j < |s.history| {
        assert IdOrder(s.history, i, j);
      } else if i < j - 1 {
        assert IdOrder(s.history, i, j - 1);
      }
    }
    SuffixGrows(s.rows, s.history, s'.rows[|s.rows|]);
  }

  lemma SuffixGrows(rows: seq<Row>, history: seq<Row>, row: Row)
    requires IsSuffix(rows, history)
    ensures IsSuffix(rows + [row], history + [row])
  {
    var n := |history| - |rows|;
    assert (history + [row])[n..] == history[n..] + [row];
  }

  lemma PruneKeeps(h: HashFn, s: State, before: int)
    requires Inv(h, s)
    ensures Inv(h, Pruned(s, before))
  {
    SuffixDrops(s.rows, s.history, PrunedCount(s.rows, before));
  }

  lemma SuffixDrops(rows: seq<Row>, history: seq<Row>, n: nat)
    requires IsSuffix(rows, history) && n <= |rows|
    ensures IsSuffix(rows[n..], history)
  {
    assert rows[n..] == history[|history| - |rows| + n..];
  }

  lemma {:induction false} RunKeeps(h: HashFn, s: State, ops: seq<Op>)
    requires Inv(h, s)
    ensures Inv(h, Run(h, s, ops))
    decreases |ops|
  {
    if ops != [] {
      match ops[0] {
        case Append(e, now) => AppendKeeps(h, s, e, now);
        case Prune(before) => PruneKeeps(h, s, before);
      }
      RunKeeps(h, Step(h, s, ops[0]), ops[1..]);
    }
  }

  /** After any run of appends and prunes, with timestamps in any order, the surviving rows are a
      suffix of everything ever appended, pass the segment check, and stay linked to the next row. */
  lemma EveryRun(h: HashFn, ops: seq<Op>, e: AuditEvent, now: int)
    ensures var s := Run(h, EMPTY, ops);
            && IsSuffix(s.rows, s.history)
            && SegmentOk(h, Links(s.rows))
            && SegmentOk(h, Links(Appended(h, s, e, now).rows))
            && (s.history != [] ==> s.rows != [] && s.rows[|s.rows| - 1] == s.history[|s.history| - 1])
  {
    RunKeeps(h, EMPTY, ops);
    var s := Run(h, EMPTY, ops);
    SuffixSegmentOk(h, s);
    AppendKeeps(h, s, e, now);
    SuffixSegmentOk(h, Appended(h, s, e, now));
  }

  lemma SuffixSegmentOk(h: HashFn, s: State)
    requires Inv(h, s)
    ensures SegmentOk(h, Links(s.rows))
  {
    var ls, n := Links(s.rows), |s.history| - |s.rows|;
    forall i | 0 <= i < |ls| ensures HoldsAt(h, SegmentStart(ls), ls, i) {
      assert s.rows[i] == s.history[n + i] && RowOk(h, s.history, n + i);
      if i > 0 { assert s.rows[i - 1] == s.history[n + i - 1]; }
    }
  }

  lemma HistoryVerifies(h: HashFn, s: State)
    requires Inv(h, s)
    ensures Chained(h, GENESIS, Links(s.history)) && ColumnsLinked(Links(s.history))
  {
    var all := Links(s.history);
    forall i | 0 <= i < |all|
      ensures HoldsAt(h, GENESIS, all, i) && all[i].prevHash == Some(PrevOf(GENESIS, all, i))
    {
      assert RowOk(h, s.history, i);
    }
  }

  /** The full check from genesis passes on the surviving rows exactly when nothing was ever deleted. */
  lemma FullCheckExactly(h: HashFn, ops: seq<Op>)
    requires CollisionFree(h) && NeverGenesis(h)
    ensures var s := Run(h, EMPTY, ops);
            Chained(h, GENESIS, Links(s.rows)) <==> s.rows == s.history
  {
    RunKeeps(h, EMPTY, ops);
    var s := Run(h, EMPTY, ops);
    HistoryVerifies(h, s);
    var n := |s.history| - |s.rows|;
    if n == 0 {
      assert s.history[0..] == s.history;
    } else {
      HeadNotGenesis(h, s);
    }
  }

  lemma HeadNotGenesis(h: HashFn, s: State)
    requires CollisionFree(h) && NeverGenesis(h) && Inv(h, s) && |s.rows| < |s.history|
    ensures !Chained(h, GENESIS, Links(s.rows))
  {
    var n := |s.history| - |s.rows|;
    var head := s.history[n].link;
    assert s.rows[0] == s.history[n];
    assert RowOk(h, s.history, n) && RowOk(h, s.history, n - 1);
    if HoldsAt(h, GENESIS, Links(s.rows), 0) {
      assert Collide(h, GENESIS, head.payload, s.history[n - 1].link.hash, head.payload);
      assert false;
    }
  }

  // ----- pruning -----

  /** Pruning again with the same cutoff deletes nothing. */
  lemma PruneIdempotent(s: State, before: int)
    ensures PrunedCount(Pruned(s, before).rows, before) == 0
    ensures Pruned(Pruned(s, before), before) == Pruned(s, before)
  {
    var n := PrunedCount(s.rows, before);
    var rows := s.rows[n..];
    forall i | 0 <= i < |rows| ensures OldAt(rows, before, i) == OldAt(s.rows, before, n + i) {
    }
    assert rows[0..] == rows;
  }

  /** An older row comes after a row at or past the cutoff. */
  predicate Crosses(rows: seq<Row>, before: int, i: nat, j: nat)
    requires i < j < |rows|
  {
    !OldAt(rows, before, i) && OldAt(rows, before, j)
  }

  predicate CutoffRespected(rows: seq<Row>, before: int) {
    forall i, j | 0 <= i < j < |rows| :: !Crosses(rows, before, i, j)
  }

  predicate DeletesOnlyOld(rows: seq<Row>, before: int) {
    forall i | 0 <= i < PrunedCount(rows, before) :: OldAt(rows, before, i)
  }

  /** A prune deletes only rows older than the cutoff exactly when no older row comes after a row at
      or past the cutoff. */
  lemma PruneDeletesOnlyOldExactly(rows: seq<Row>, before: int)
    ensures DeletesOnlyOld(rows, before) <==> CutoffRespected(rows, before)
  {
    var n := PrunedCount(rows, before);
    if CutoffRespected(rows, before) {
      forall i | 0 <= i < n ensures OldAt(rows, before, i) {
        assert !Crosses(rows, before, i, n);
      }
    }
  }

  /** With timestamps in id order, rows at or past the cutoff always survive. */
  lemma MonotonePruneIsSafe(rows: seq<Row>, before: int)
    requires forall i, j | 0 <= i < j < |rows| :: TsOf(rows[i]) <= TsOf(rows[j])
    ensures DeletesOnlyOld(rows, before)
  {
    PruneDeletesOnlyOldExactly(rows, before);
  }

  /** Two appends with caller-supplied timestamps and one prune: the row that goes is the one past the cutoff. */
  lemma PruneCanLoseNewerRow(h: HashFn, newer: AuditEvent, older: AuditEvent, now: int)
    requires newer.ts == Some(10) && older.ts == Some(5)
    ensures var s := Run(h, EMPTY, [Append(newer, now), Append(older, now), Prune(7)]);
      |s.history| == 2 && TsOf(s.history[0]) >= 7 && s.rows == s.history[1..]
  {
    var one := Appended(h, EMPTY, newer, now);
    var two := Appended(h, one, older, now);
    assert OldAt(two.rows, 7, 1);
    assert Anchor(two.rows, 7) == Some(1);
    RunThree(h, EMPTY, Append(newer, now), Append(older, now), Prune(7));
  }

  lemma RunThree(h: HashFn, s: State, a: Op, b: Op, c: Op)
    ensures Run(h, s, [a, b, c]) == Step(h, Step(h, Step(h, s, a), b), c)
  {
    var s1 := Step(h, s, a);
    var s2 := Step(h, s1, b);
    assert [a, b, c][1..] == [b, c] && [b, c][1..] == [c] && [c][1..] == [];
    assert Run(h, s2, [c]) == Run(h, Step(h, s2, c), []);
    assert Run(h, s1, [b, c]) == Run(h, s2, [c]);
    assert Run(h, s, [a, b, c]) == Run(h, s1, [b, c]);
  }

  // ----- the checks of one installation, after any run -----

  function Shifted(idx: seq<nat>, n: nat): (r: seq<nat>)
    ensures |r| == |idx| && forall k :: 0 <= k < |idx| ==> r[k] == idx[k] + n
  {
    seq(|idx|, k requires 0 <= k < |idx| => idx[k] + n)
  }

  lemma ShiftedContiguous(idx: seq<nat>, n: nat)
    ensures Contiguous(Shifted(idx, n)) <==> Contiguous(idx)
  {
  }

  lemma ShiftedIncreasing(idx: seq<nat>, m: nat, n: nat)
    requires Increasing(idx, m)
    ensures Increasing(Shifted(idx, n), m + n)
  {
  }

  lemma {:induction false} SliceOfSuffix(rows: seq<Link>, all: seq<Link>, n: nat, idx: seq<nat>)
    requires |rows| + n == |all| && forall k :: 0 <= k < |rows| ==> rows[k] == all[k + n]
    requires Increasing(idx, |rows|) && Increasing(Shifted(idx, n), |all|)
    ensures Slice(rows, idx) == Slice(all, Shifted(idx, n))
  {
    var a, b := Slice(rows, idx), Slice(all, Shifted(idx, n));
    forall k | 0 <= k < |idx| ensures a[k] == b[k] {
      assert b[k] == all[Shifted(idx, n)[k]];
    }
  }

  lemma SuffixChecks(h: HashFn, all: seq<Link>, n: nat, idx: seq<nat>, slice: seq<Link>)
    requires CollisionFree(h) && NeverGenesis(h) && Chained(h, GENESIS, all) && ColumnsLinked(all)
    requires Increasing(Shifted(idx, n), |all|) && slice == Slice(all, Shifted(idx, n))
    ensures SegmentOk(h, slice) <==> Contiguous(idx)
    ensures Chained(h, GENESIS, slice) <==> idx == [] || (Contiguous(idx) && idx[0] + n == 0)
  {
    SegmentSliceExactly(h, all, Shifted(idx, n));
    FullSliceExactly(h, all, Shifted(idx, n));
    ShiftedContiguous(idx, n);
  }

  lemma SuffixLinks(rows: seq<Row>, history: seq<Row>)
    requires IsSuffix(rows, history)
    ensures var n := |history| - |rows|; forall k :: 0 <= k < |rows| ==> Links(rows)[k] == Links(history)[k + n]
    ensures rows == history <==> |rows| == |history|
  {
    if |rows| == |history| { assert history[0..] == history; }
  }

  /** The rows of a query on the end of a verifying log, given by their positions there. */
  lemma QueriedSuffix(h: HashFn, rows: seq<Link>, all: seq<Link>, n: nat, id: int, idx: seq<nat>)
    requires CollisionFree(h) && NeverGenesis(h) && Chained(h, GENESIS, all) && ColumnsLinked(all)
    requires |rows| + n == |all| && forall k :: 0 <= k < |rows| ==> rows[k] == all[k + n]
    requires idx == Positions(rows, id, 0)
    ensures SegmentOk(h, OfInstallation(rows, id)) <==> Contiguous(idx)
    ensures Chained(h, GENESIS, OfInstallation(rows, id)) <==> idx == [] || (Contiguous(idx) && idx[0] + n == 0)
  {
    QueryIsSlice(rows, id, 0);
    assert rows[0..] == rows;
    ShiftedIncreasing(idx, |rows|, n);
    SliceOfSuffix(rows, all, n, idx);
    SuffixChecks(h, all, n, idx, OfInstallation(rows, id));
  }

  lemma QueriedChecks(h: HashFn, s: State, id: int, idx: seq<nat>)
    requires CollisionFree(h) && NeverGenesis(h) && Inv(h, s) && idx == Positions(Links(s.rows), id, 0)
    ensures SegmentOk(h, OfInstallation(Links(s.rows), id)) <==> Contiguous(idx)
    ensures Chained(h, GENESIS, OfInstallation(Links(s.rows), id)) <==>
      idx == [] || (Contiguous(idx) && idx[0] == 0 && s.rows == s.history)
  {
    var n := |s.history| - |s.rows|;
    HistoryVerifies(h, s);
    SuffixLinks(s.rows, s.history);
    QueriedSuffix(h, Links(s.rows), Links(s.history), n, id, idx);
  }

  /** On the table that any appends and prunes leave: an installation's rows pass the segment check exactly when they stand
      next to each other, and the full check exactly when moreover they begin a log of which nothing was deleted. */
  lemma InstallationChecksAfterRun(h: HashFn, ops: seq<Op>, id: int)
    requires CollisionFree(h) && NeverGenesis(h)
    ensures var s := Run(h, EMPTY, ops);
      var idx := Positions(Links(s.rows), id, 0);
      && (SegmentOk(h, OfInstallation(Links(s.rows), id)) <==> Contiguous(idx))
      && (Chained(h, GENESIS, OfInstallation(Links(s.rows), id)) <==>
            idx == [] || (Contiguous(idx) && idx[0] == 0 && s.rows == s.history))
  {
    var s := Run(h, EMPTY, ops);
    RunKeeps(h, EMPTY, ops);
    QueriedChecks(h, s, id, Positions(Links(s.rows), id, 0));
  }

  // ----- the table -----

  /** `DELETE … WHERE id < bound`. */
  function DeleteBelow(rows: seq<Row>, bound: nat): seq<Row> {
    if rows == [] then []
    else if rows[0].id < bound then DeleteBelow(rows[1..], bound)
    else [rows[0]] + DeleteBelow(rows[1..], bound)
  }

  /** On rows in id order, deleting below a row's id leaves that row and everything after it. */
  lemma {:induction false} DeleteBelowIsSuffix(rows: seq<Row>, i: nat, n: nat)
    requires i <= |rows| && n < |rows| && forall a, b | 0 <= a < b < |rows| :: IdOrder(rows, a, b)
    ensures DeleteBelow(rows[i..], rows[n].id) == if i <= n then rows[n..] else rows[i..]
    decreases |rows| - i
  {
    if i < |rows| {
      DeleteBelowIsSuffix(rows, i + 1, n);
      assert rows[i..][1..] == rows[i + 1..];
      if i < n { assert IdOrder(rows, i, n); }
      if n < i { assert IdOrder(rows, n, i); }
    }
  }

  lemma RowIdsIncrease(s: State)
    requires IsSuffix(s.rows, s.history) && IdsIncrease(s.history, s.nextId)
    ensures forall i, j | 0 <= i < j < |s.rows| :: IdOrder(s.rows, i, j)
  {
    var n := |s.history| - |s.rows|;
    forall i, j | 0 <= i < j < |s.rows| ensures IdOrder(s.rows, i, j) {
      assert s.rows[i] == s.history[n + i] && s.rows[j] == s.history[n + j];
      assert IdOrder(s.history, n + i, n + j);
    }
  }

  class AuditTable {
    const hash: HashFn
    var rows: seq<Row>
    var nextId: nat
    ghost var history: seq<Row>

    ghost function Current(): State
      reads this
    {
      State(rows, history, nextId)
    }

    ghost predicate Valid()
      reads this
    {
      Inv(hash, Current())
    }

    constructor (h: HashFn)
      ensures Valid() && Current() == EMPTY && hash == h
    {
      hash := h;
      rows, history, nextId := [], [], 1;
    }

    /** One append transaction: the last row by id supplies the previous hash. */
    method Append(e: AuditEvent, now: int) returns (link: Link)
      requires Valid()
      modifies this
      ensures Valid() && Current() == Appended(hash, old(Current()), e, now)
      ensures link == NewLink(hash, LastHash(old(rows)), e, now)
      ensures rows == old(rows) + [Row(old(nextId), link)]
      ensures if old(rows) == [] then link.prevHash == Some(GENESIS) else link.prevHash == Some(old(rows[|rows| - 1].link.hash))
      ensures link.hash == hash(link.prevHash.value, link.payload) && Describes(link.payload, e, now)
    {
      AppendKeeps(hash, Current(), e, now);
      var prev := if |rows| > 0 then rows[|rows| - 1].link.hash else GENESIS;
      link := NewLink(hash, prev, e, now);
      var row := Row(nextId, link);
      rows := rows + [row];
      history := history + [row];
      nextId := nextId + 1;
    }

    /** One prune transaction: choose the anchor, then delete every row with a smaller id. */
    method PruneAuditLog(before: int) returns (deleted: nat, anchor: Option<Row>)
      requires Valid()
      modifies this
      ensures Valid() && Current() == Pruned(old(Current()), before)
      ensures deleted == PrunedCount(old(rows), before)
      ensures if NoneOld(old(rows), before) then anchor == None
              else rows != [] && anchor == Some(rows[0]) && TsOf(rows[0]) < before
      ensures Prunes(old(rows), rows, deleted, before)
    {
      PruneKeeps(hash, Current(), before);
      PruneOutcome(Current(), before);
      PrunedLeaves(rows, before);
      if Anchor(rows, before).None? {
        deleted, anchor := 0, None;
      } else {
        var row := rows[Anchor(rows, before).value];
        var kept := DeleteBelow(rows, row.id);
        deleted, anchor := |rows| - |kept|, Some(row);
        rows := kept;
      }
    }
  }

  lemma PruneOutcome(s: State, before: int)
    requires IsSuffix(s.rows, s.history) && IdsIncrease(s.history, s.nextId)
    ensures match Anchor(s.rows, before)
            case None => Pruned(s, before) == s
            case Some(n) =>
              && n < |s.rows| && DeleteBelow(s.rows, s.rows[n].id) == Pruned(s, before).rows == s.rows[n..]
              && !NoneOld(s.rows, before)
  {
    assert s.rows[0..] == s.rows;
    match Anchor(s.rows, before) {
      case None =>
      case Some(n) =>
        RowIdsIncrease(s);
        DeleteBelowIsSuffix(s.rows, 0, n);
    }
  }
}
