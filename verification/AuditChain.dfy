/** The audit log's hash chain: the two verifiers, and what a verifying chain implies. */
module AuditChain {
  import opened Optional

  type Hash = string

  /** The fields that are hashed, with absent values already made null. */
  datatype Payload = Payload(ts: int, installationId: Option<int>, prId: Option<string>, event: string,
    model: Option<string>, inputTokens: Option<int>, outputTokens: Option<int>)

  /** SHA-256 over the previous hash and the canonical payload, left uninterpreted. */
  type HashFn = (Hash, Payload) -> Hash

  datatype Link = Link(prevHash: Option<Hash>, hash: Hash, payload: Payload)
  datatype ChainBreak = ChainBreak(index: nat, expected: Hash, actual: Hash, row: Link)

  const HASH_LENGTH := 64
  const GENESIS: Hash := Repeat('0', HASH_LENGTH)

  function Repeat(c: char, n: nat): string {
    seq(n, _ => c)
  }

  // ----- the cryptographic hypotheses, always explicit -----

  predicate Collide(h: HashFn, p1: Hash, x1: Payload, p2: Hash, x2: Payload) {
    h(p1, x1) == h(p2, x2)
  }

  ghost predicate CollisionFree(h: HashFn) {
    forall p1, x1, p2, x2 :: Collide(h, p1, x1, p2, x2) ==> p1 == p2 && x1 == x2
  }

  ghost predicate NeverGenesis(h: HashFn) {
    forall p, x :: h(p, x) != GENESIS
  }

  // ----- verification -----

  function PrevOf(start: Hash, rows: seq<Link>, i: nat): Hash
    requires i <= |rows|
  {
    if i == 0 then start else rows[i - 1].hash
  }

  predicate HoldsAt(h: HashFn, start: Hash, rows: seq<Link>, i: nat)
    requires i < |rows|
  {
    rows[i].hash == h(PrevOf(start, rows, i), rows[i].payload)
  }

  predicate Chained(h: HashFn, start: Hash, rows: seq<Link>) {
    forall i | 0 <= i < |rows| :: HoldsAt(h, start, rows, i)
  }

  /** The breaks among the first `n` rows, in order. */
  function Breaks(h: HashFn, start: Hash, rows: seq<Link>, n: nat): seq<ChainBreak>
    requires n <= |rows|
  {
    if n == 0 then []
    else if HoldsAt(h, start, rows, n - 1) then Breaks(h, start, rows, n - 1)
    else Breaks(h, start, rows, n - 1)
         + [ChainBreak(n - 1, h(PrevOf(start, rows, n - 1), rows[n - 1].payload), rows[n - 1].hash, rows[n - 1])]
  }

  /** The row at `i` does not store the hash of its payload over the hash stored just before it, or over `start`. */
  predicate Fails(h: HashFn, start: Hash, rows: seq<Link>, i: nat) {
    i < |rows| && rows[i].hash != h(if i == 0 then start else rows[i - 1].hash, rows[i].payload)
  }

  /** A break names a failing row, the hash it should have and the hash it stores. */
  predicate Tells(h: HashFn, start: Hash, rows: seq<Link>, b: ChainBreak) {
    Fails(h, start, rows, b.index) && b.row == rows[b.index] && b.actual == rows[b.index].hash &&
    b.expected == h(if b.index == 0 then start else rows[b.index - 1].hash, rows[b.index].payload)
  }

  predicate BreakFor(breaks: seq<ChainBreak>, i: nat) {
    exists k | 0 <= k < |breaks| :: breaks[k].index == i
  }

  predicate InOrder(breaks: seq<ChainBreak>) {
    forall j, k | 0 <= j < k < |breaks| :: breaks[j].index < breaks[k].index
  }

  /** One break for each failing row, in the order of the rows. */
  predicate TellsAll(h: HashFn, start: Hash, rows: seq<Link>, breaks: seq<ChainBreak>, n: nat) {
    (forall k | 0 <= k < |breaks| :: breaks[k].index < n && Tells(h, start, rows, breaks[k])) &&
    (forall i | 0 <= i < n && Fails(h, start, rows, i) :: BreakFor(breaks, i)) && InOrder(breaks)
  }

  lemma NextBreak(h: HashFn, start: Hash, rows: seq<Link>, breaks: seq<ChainBreak>, n: nat, b: ChainBreak)
    requires TellsAll(h, start, rows, breaks, n) && b.index == n && Tells(h, start, rows, b)
    ensures TellsAll(h, start, rows, breaks + [b], n + 1)
  {
    var all := breaks + [b];
    assert all[|breaks|] == b;
    forall i | 0 <= i < n && Fails(h, start, rows, i) ensures BreakFor(all, i) {
      var k :| 0 <= k < |breaks| && breaks[k].index == i;
      assert all[k].index == i;
    }
  }

  lemma NextSound(h: HashFn, start: Hash, rows: seq<Link>, breaks: seq<ChainBreak>, n: nat)
    requires TellsAll(h, start, rows, breaks, n) && !Fails(h, start, rows, n)
    ensures TellsAll(h, start, rows, breaks, n + 1)
  {
  }

  lemma FailsExactly(h: HashFn, start: Hash, rows: seq<Link>, i: nat)
    requires i < |rows|
    ensures Fails(h, start, rows, i) <==> !HoldsAt(h, start, rows, i)
  {
  }

  lemma {:induction false} BreaksAreFailures(h: HashFn, start: Hash, rows: seq<Link>, n: nat)
    requires n <= |rows|
    ensures TellsAll(h, start, rows, Breaks(h, start, rows, n), n)
  {
    if n > 0 {
      var before, i := Breaks(h, start, rows, n - 1), n - 1;
      BreaksAreFailures(h, start, rows, i);
      FailsExactly(h, start, rows, i);
      if HoldsAt(h, start, rows, i) {
        NextSound(h, start, rows, before, i);
      } else {
        NextBreak(h, start, rows, before, i, ChainBreak(i, h(PrevOf(start, rows, i), rows[i].payload), rows[i].hash, rows[i]));
      }
    }
  }

  lemma NoBreakExactly(h: HashFn, start: Hash, rows: seq<Link>)
    ensures Breaks(h, start, rows, |rows|) == [] <==> Chained(h, start, rows)
  {
    var breaks := Breaks(h, start, rows, |rows|);
    BreaksAreFailures(h, start, rows, |rows|);
    forall i: nat | i < |rows| ensures Fails(h, start, rows, i) <==> !HoldsAt(h, start, rows, i) {
      FailsExactly(h, start, rows, i);
    }
    if breaks == [] {
      forall i | 0 <= i < |rows| ensures HoldsAt(h, start, rows, i) {
        assert !BreakFor(breaks, i);
      }
    } else {
      assert Tells(h, start, rows, breaks[0]);
    }
  }

  /** The walk both verifiers share; a break is reported and the walk goes on from the stored hash. */
  method VerifyFrom(h: HashFn, start: Hash, rows: seq<Link>) returns (ok: bool, breaks: seq<ChainBreak>)
    ensures breaks == Breaks(h, start, rows, |rows|) && TellsAll(h, start, rows, breaks, |rows|)
    ensures ok <==> Chained(h, start, rows)
    ensures ok <==> breaks == []
  {
    breaks := [];
    var prev := start;
    var index := 0;
    while index < |rows|
      invariant 0 <= index <= |rows|
      invariant prev == PrevOf(start, rows, index)
      invariant breaks == Breaks(h, start, rows, index)
    {
      var row := rows[index];
      var expected := h(prev, row.payload);
      if row.hash != expected {
        breaks := breaks + [ChainBreak(index, expected, row.hash, row)];
      }
      prev := row.hash;
      index := index + 1;
    }
    ok := |breaks| == 0;
    BreaksAreFailures(h, start, rows, |rows|);
    NoBreakExactly(h, start, rows);
  }

  method VerifyAuditChain(h: HashFn, rows: seq<Link>) returns (ok: bool, breaks: seq<ChainBreak>)
    ensures breaks == Breaks(h, GENESIS, rows, |rows|) && TellsAll(h, GENESIS, rows, breaks, |rows|)
    ensures ok <==> breaks == []
    ensures ok <==> Chained(h, GENESIS, rows)
  {
    ok, breaks := VerifyFrom(h, GENESIS, rows);
  }

  /** A segment is checked from the previous hash its first row declares. */
  function SegmentStart(rows: seq<Link>): Hash {
    if rows != [] && rows[0].prevHash.Some? then rows[0].prevHash.value else GENESIS
  }

  predicate SegmentOk(h: HashFn, rows: seq<Link>) {
    Chained(h, SegmentStart(rows), rows)
  }

  method VerifyAuditChainSegment(h: HashFn, rows: seq<Link>) returns (ok: bool, breaks: seq<ChainBreak>)
    ensures breaks == Breaks(h, SegmentStart(rows), rows, |rows|)
    ensures TellsAll(h, SegmentStart(rows), rows, breaks, |rows|) && (ok <==> breaks == [])
    ensures ok <==> SegmentOk(h, rows)
  {
    if |rows| == 0 { return true, []; }
    ok, breaks := VerifyFrom(h, SegmentStart(rows), rows);
  }

  // ----- what a verifying chain implies -----

  /** Rows that verify with the same hash have the same predecessor hash and the same payload. */
  lemma SameHashSameRow(h: HashFn, s1: Hash, a: seq<Link>, i: nat, s2: Hash, b: seq<Link>, j: nat)
    requires CollisionFree(h) && i < |a| && j < |b|
    requires HoldsAt(h, s1, a, i) && HoldsAt(h, s2, b, j) && a[i].hash == b[j].hash
    ensures PrevOf(s1, a, i) == PrevOf(s2, b, j) && a[i].payload == b[j].payload
  {
    assert Collide(h, PrevOf(s1, a, i), a[i].payload, PrevOf(s2, b, j), b[j].payload);
  }

  /** No hash occurs twice in a verifying chain. */
  lemma {:induction false} HashesDistinct(h: HashFn, rows: seq<Link>, i: nat, j: nat)
    requires CollisionFree(h) && NeverGenesis(h) && Chained(h, GENESIS, rows)
    requires i < j < |rows|
    ensures rows[i].hash != rows[j].hash
    decreases i
  {
    assert HoldsAt(h, GENESIS, rows, i) && HoldsAt(h, GENESIS, rows, j) && HoldsAt(h, GENESIS, rows, j - 1);
    if rows[i].hash == rows[j].hash {
      SameHashSameRow(h, GENESIS, rows, i, GENESIS, rows, j);
      if i > 0 { HashesDistinct(h, rows, i - 1, j - 1); }
      assert false;
    }
  }

  /** A chain of one row and a longer one cannot end in the same hash. */
  lemma SameEndSameStart(h: HashFn, a: seq<Link>, b: seq<Link>)
    requires CollisionFree(h) && NeverGenesis(h)
    requires Chained(h, GENESIS, a) && Chained(h, GENESIS, b)
    requires a != [] && b != [] && a[|a| - 1].hash == b[|b| - 1].hash
    ensures |a| == 1 <==> |b| == 1
    ensures a[|a| - 1].payload == b[|b| - 1].payload
    ensures |a| > 1 ==> |b| > 1 && a[|a| - 2].hash == b[|b| - 2].hash
  {
    var m, n := |a| - 1, |b| - 1;
    SameHashSameRow(h, GENESIS, a, m, GENESIS, b, n);
    if m > 0 { assert HoldsAt(h, GENESIS, a, m - 1); }
    if n > 0 { assert HoldsAt(h, GENESIS, b, n - 1); }
  }

  predicate SameFields(a: seq<Link>, b: seq<Link>) {
    |a| == |b| && forall i | 0 <= i < |a| :: a[i].payload == b[i].payload && a[i].hash == b[i].hash
  }

  /** Two chains that verify from genesis and end in the same hash agree on every hashed field. */
  lemma {:induction false} SameEndSameChain(h: HashFn, a: seq<Link>, b: seq<Link>)
    requires CollisionFree(h) && NeverGenesis(h)
    requires Chained(h, GENESIS, a) && Chained(h, GENESIS, b)
    requires a != [] && b != [] && a[|a| - 1].hash == b[|b| - 1].hash
    ensures SameFields(a, b)
    decreases |a|
  {
    SameEndSameStart(h, a, b);
    if |a| > 1 {
      var m, n := |a| - 1, |b| - 1;
      PrefixChained(h, a, m);
      PrefixChained(h, b, n);
      SameEndSameChain(h, a[..m], b[..n]);
      SameFieldsExtend(a, b);
    }
  }

  lemma SameFieldsExtend(a: seq<Link>, b: seq<Link>)
    requires a != [] && b != [] && SameFields(a[..|a| - 1], b[..|b| - 1])
    requires a[|a| - 1].payload == b[|b| - 1].payload && a[|a| - 1].hash == b[|b| - 1].hash
    ensures SameFields(a, b)
  {
    var m := |a| - 1;
    forall i | 0 <= i < m ensures a[i].payload == b[i].payload && a[i].hash == b[i].hash {
      assert a[..m][i] == a[i] && b[..m][i] == b[i];
    }
  }

  lemma PrefixChained(h: HashFn, rows: seq<Link>, n: nat)
    requires Chained(h, GENESIS, rows) && n <= |rows|
    ensures Chained(h, GENESIS, rows[..n])
  {
    forall i | 0 <= i < n ensures HoldsAt(h, GENESIS, rows[..n], i) {
      assert HoldsAt(h, GENESIS, rows, i);
    }
  }

  /** Editing any hashed field of any row while keeping the last hash is always reported. */
  lemma TamperingDetected(h: HashFn, a: seq<Link>, b: seq<Link>, i: nat)
    requires CollisionFree(h) && NeverGenesis(h) && Chained(h, GENESIS, a)
    requires a != [] && |b| == |a| && b[|b| - 1].hash == a[|a| - 1].hash
    requires i < |a| && b[i].payload != a[i].payload
    ensures Breaks(h, GENESIS, b, |b|) != []
  {
    NoBreakExactly(h, GENESIS, b);
    if Breaks(h, GENESIS, b, |b|) == [] {
      SameEndSameChain(h, a, b);
      assert false;
    }
  }

  // ----- slices of a chain -----

  predicate Increasing(idx: seq<nat>, n: nat) {
    (forall k | 0 <= k < |idx| :: idx[k] < n) && forall j, k | 0 <= j < k < |idx| :: idx[j] < idx[k]
  }

  predicate Contiguous(idx: seq<nat>) {
    forall k | 0 <= k < |idx| :: idx[k] == idx[0] + k
  }

  predicate Adjacent(idx: seq<nat>, k: nat)
    requires 0 < k < |idx|
  {
    idx[k] == idx[k - 1] + 1
  }

  lemma {:induction false} AdjacentIsContiguous(idx: seq<nat>, n: nat)
    requires n < |idx|
    ensures (forall k | 0 < k <= n :: Adjacent(idx, k)) <==> forall k | 0 <= k <= n :: idx[k] == idx[0] + k
  {
    if n > 0 {
      AdjacentIsContiguous(idx, n - 1);
      if forall k | 0 < k <= n :: Adjacent(idx, k) { assert Adjacent(idx, n); }
    }
  }

  function Slice(rows: seq<Link>, idx: seq<nat>): (s: seq<Link>)
    requires Increasing(idx, |rows|)
    ensures |s| == |idx| && forall k | 0 <= k < |idx| :: s[k] == rows[idx[k]]
  {
    if idx == [] then [] else Slice(rows, idx[..|idx| - 1]) + [rows[idx[|idx| - 1]]]
  }

  /** Every row stores the hash of the row before it. */
  predicate ColumnsLinked(rows: seq<Link>) {
    forall i | 0 <= i < |rows| :: rows[i].prevHash == Some(PrevOf(GENESIS, rows, i))
  }

  /** Inside a slice, a row verifies exactly when its predecessor in the slice is its predecessor in
      the chain. */
  lemma SliceStep(h: HashFn, rows: seq<Link>, idx: seq<nat>, start: Hash, k: nat)
    requires CollisionFree(h) && NeverGenesis(h) && Chained(h, GENESIS, rows)
    requires Increasing(idx, |rows|) && 0 < k < |idx|
    ensures HoldsAt(h, start, Slice(rows, idx), k) <==> Adjacent(idx, k)
  {
    assert Slice(rows, idx)[k - 1] == rows[idx[k - 1]];
    RowFollows(h, rows, idx[k - 1], idx[k]);
  }

  /** Among earlier rows, only the direct predecessor's hash explains a row's hash. */
  lemma RowFollows(h: HashFn, rows: seq<Link>, i: nat, j: nat)
    requires CollisionFree(h) && NeverGenesis(h) && Chained(h, GENESIS, rows)
    requires i < j < |rows|
    ensures rows[j].hash == h(rows[i].hash, rows[j].payload) <==> j == i + 1
  {
    assert HoldsAt(h, GENESIS, rows, j);
    if rows[j].hash == h(rows[i].hash, rows[j].payload) {
      assert Collide(h, rows[i].hash, rows[j].payload, rows[j - 1].hash, rows[j].payload);
      if i < j - 1 { HashesDistinct(h, rows, i, j - 1); }
    }
  }

  /** A slice passes the segment check exactly when its rows stand next to each other in the log. */
  lemma SegmentSliceExactly(h: HashFn, rows: seq<Link>, idx: seq<nat>)
    requires CollisionFree(h) && NeverGenesis(h) && Chained(h, GENESIS, rows) && ColumnsLinked(rows)
    requires Increasing(idx, |rows|)
    ensures SegmentOk(h, Slice(rows, idx)) <==> Contiguous(idx)
  {
    var s := Slice(rows, idx);
    var start := SegmentStart(s);
    forall k | 0 < k < |idx| ensures HoldsAt(h, start, s, k) <==> Adjacent(idx, k) {
      SliceStep(h, rows, idx, start, k);
    }
    if idx != [] {
      assert HoldsAt(h, GENESIS, rows, idx[0]);
      AdjacentIsContiguous(idx, |idx| - 1);
    }
  }

  /** A slice passes the full check exactly when it is the beginning of the log. */
  lemma FullSliceExactly(h: HashFn, rows: seq<Link>, idx: seq<nat>)
    requires CollisionFree(h) && NeverGenesis(h) && Chained(h, GENESIS, rows)
    requires Increasing(idx, |rows|)
    ensures Chained(h, GENESIS, Slice(rows, idx)) <==> Contiguous(idx) && (idx != [] ==> idx[0] == 0)
  {
    var s := Slice(rows, idx);
    forall k | 0 < k < |idx| ensures HoldsAt(h, GENESIS, s, k) <==> Adjacent(idx, k) {
      SliceStep(h, rows, idx, GENESIS, k);
    }
    if idx != [] {
      GenesisRow(h, rows, idx);
      AdjacentIsContiguous(idx, |idx| - 1);
    }
  }

  lemma GenesisRow(h: HashFn, rows: seq<Link>, idx: seq<nat>)
    requires CollisionFree(h) && NeverGenesis(h) && Chained(h, GENESIS, rows)
    requires Increasing(idx, |rows|) && idx != []
    ensures HoldsAt(h, GENESIS, Slice(rows, idx), 0) <==> idx[0] == 0
  {
    var i, s := idx[0], Slice(rows, idx);
    assert HoldsAt(h, GENESIS, rows, i);
    if HoldsAt(h, GENESIS, s, 0) && i > 0 {
      assert HoldsAt(h, GENESIS, rows, i - 1);
      SameHashSameRow(h, GENESIS, s, 0, GENESIS, rows, i);
    }
  }

  // ----- the per-installation queries -----

  function OfInstallation(rows: seq<Link>, id: int): seq<Link> {
    if rows == [] then []
    else if rows[0].payload.installationId == Some(id) then [rows[0]] + OfInstallation(rows[1..], id)
    else OfInstallation(rows[1..], id)
  }

  /** The positions of an installation's rows, from position `n` on. */
  function Positions(rows: seq<Link>, id: int, n: nat): (idx: seq<nat>)
    requires n <= |rows|
    ensures Increasing(idx, |rows|) && forall k | 0 <= k < |idx| :: n <= idx[k]
    decreases |rows| - n
  {
    if n == |rows| then []
    else if rows[n].payload.installationId == Some(id) then [n] + Positions(rows, id, n + 1)
    else Positions(rows, id, n + 1)
  }

  lemma {:induction false} QueryIsSlice(rows: seq<Link>, id: int, n: nat)
    requires n <= |rows|
    ensures OfInstallation(rows[n..], id) == Slice(rows, Positions(rows, id, n))
    decreases |rows| - n
  {
    if n < |rows| {
      QueryIsSlice(rows, id, n + 1);
      assert rows[n..][1..] == rows[n + 1..];
      var idx := Positions(rows, id, n + 1);
    }
  }

  /** For one installation's rows, the segment check passes exactly when no other row stands between
      them, and the full check exactly when they are also the first rows of the log. */
  lemma InstallationChecksExactly(h: HashFn, rows: seq<Link>, id: int)
    requires CollisionFree(h) && NeverGenesis(h) && Chained(h, GENESIS, rows) && ColumnsLinked(rows)
    ensures var idx := Positions(rows, id, 0);
            && (SegmentOk(h, OfInstallation(rows, id)) <==> Contiguous(idx))
            && (Chained(h, GENESIS, OfInstallation(rows, id)) <==> Contiguous(idx) && (idx != [] ==> idx[0] == 0))
  {
    QueryIsSlice(rows, id, 0);
    assert rows[0..] == rows;
    SegmentSliceExactly(h, rows, Positions(rows, id, 0));
    FullSliceExactly(h, rows, Positions(rows, id, 0));
  }
}
