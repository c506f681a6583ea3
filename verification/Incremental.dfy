/** Deciding between a full and an incremental review over a commit graph, with a git that can fail. */
module Incremental {
  import opened Optional

  type Sha = string

  /** A commit's parents. */
  type Graph = Sha -> set<Sha>

  // ----- ancestry -----

  /** `path` leads from a commit to an ancestor, one parent at a time. */
  predicate IsPath(g: Graph, path: seq<Sha>) {
    path != [] && forall i | 0 <= i < |path| - 1 :: path[i + 1] in g(path[i])
  }

  predicate Joins(g: Graph, path: seq<Sha>, a: Sha, b: Sha) {
    IsPath(g, path) && path[0] == b && path[|path| - 1] == a
  }

  /** `a` is `b` or an ancestor of `b`. */
  ghost predicate Ancestor(g: Graph, a: Sha, b: Sha) {
    exists path :: Joins(g, path, a, b)
  }

  lemma AncestorReflexive(g: Graph, a: Sha)
    ensures Ancestor(g, a, a)
  {
    assert Joins(g, [a], a, a);
  }

  lemma AncestorTransitive(g: Graph, a: Sha, b: Sha, c: Sha)
    requires Ancestor(g, a, b) && Ancestor(g, b, c)
    ensures Ancestor(g, a, c)
  {
    var p :| Joins(g, p, a, b);
    var q :| Joins(g, q, b, c);
    var r := q + p[1..];
    forall i | 0 <= i < |r| - 1 ensures r[i + 1] in g(r[i]) {
      if i < |q| - 1 {
        assert r[i] == q[i] && r[i + 1] == q[i + 1];
      } else {
        assert r[i] == p[i - |q| + 1] && r[i + 1] == p[i - |q| + 2];
      }
    }
    assert Joins(g, r, a, c);
  }

  ghost predicate CommonAncestor(g: Graph, m: Sha, a: Sha, b: Sha) {
    Ancestor(g, m, a) && Ancestor(g, m, b)
  }

  /** A common ancestor that no other common ancestor descends from, as `git merge-base` prints. */
  ghost predicate BestCommonAncestor(g: Graph, m: Sha, a: Sha, b: Sha) {
    CommonAncestor(g, m, a, b) && forall n | CommonAncestor(g, n, a, b) && Ancestor(g, m, n) :: n == m
  }

  /** A merge base of `a` and `b` is `a` exactly when `a` is reachable from `b`. */
  lemma MergeBaseTestsReachability(g: Graph, m: Sha, a: Sha, b: Sha)
    requires BestCommonAncestor(g, m, a, b)
    ensures m == a <==> Ancestor(g, a, b)
  {
    AncestorReflexive(g, a);
    if Ancestor(g, a, b) { assert CommonAncestor(g, a, a, b); }
  }

  // ----- one merge-base query -----

  datatype Failure = Auth | Transient | Permanent
  datatype Reply = Printed(sha: Sha) | Failed(kind: Failure)

  /** What git answers to a query and, if it comes to that, to its retry. */
  datatype Replies = Replies(first: Reply, second: Reply)

  datatype Reported = Reported(kind: Failure, retried: bool)
  datatype Answer = Answer(sha: Option<Sha>, calls: nat, reports: seq<Reported>)

  function MergeBase(r: Replies): Answer {
    match r.first
    case Printed(sha) => Answer(Some(sha), 1, [])
    case Failed(Transient) =>
      (match r.second
       case Printed(sha) => Answer(Some(sha), 2, [])
       case Failed(kind) => Answer(None, 2, [Reported(kind, true)]))
    case Failed(kind) => Answer(None, 1, [Reported(kind, false)])
  }

  /** A query is asked once more exactly after a transient failure; it has an answer when git printed one either time,
      and otherwise reports the last failure and whether there was a retry. */
  lemma QueryExactly(r: Replies)
    ensures MergeBase(r).calls == (if r.first == Failed(Transient) then 2 else 1)
    ensures var last := if MergeBase(r).calls == 2 then r.second else r.first;
      match last
      case Printed(sha) => MergeBase(r).sha == Some(sha) && MergeBase(r).reports == []
      case Failed(kind) => MergeBase(r).sha == None && MergeBase(r).reports == [Reported(kind, MergeBase(r).calls == 2)]
    ensures FinallyFails(r) <==> MergeBase(r).sha.None?
  {
  }

  // ----- the decision -----

  datatype ReviewState = ReviewState(lastReviewedSha: Sha, baseSha: Sha)
  datatype Strategy = Full | Since(sha: Sha)
  datatype Decision = Decision(strategy: Strategy, calls: nat, reports: seq<Reported>)

  /** Git's answers to the three queries of one decision. */
  datatype Git = Git(previous: Replies, current: Replies, reach: Replies)

  function ComputeDiffStrategy(prev: Option<ReviewState>, baseSha: Sha, headSha: Sha, git: Git): Decision {
    if prev.None? then Decision(Full, 0, [])
    else if prev.value.lastReviewedSha == "" || prev.value.baseSha == "" then Decision(Full, 0, [])
    else
      var prevMb, currMb := MergeBase(git.previous), MergeBase(git.current);
      var calls, reports := prevMb.calls + currMb.calls, prevMb.reports + currMb.reports;
      if prevMb.sha.None? || prevMb.sha.value == "" || currMb.sha.None? || currMb.sha.value == "" then Decision(Full, calls, reports)
      else if prevMb.sha.value != currMb.sha.value then Decision(Full, calls, reports)
      else
        var reachable := MergeBase(git.reach);
        if reachable.sha != Some(prev.value.lastReviewedSha) then Decision(Full, calls + reachable.calls, reports + reachable.reports)
        else Decision(Since(prev.value.lastReviewedSha), calls + reachable.calls, reports + reachable.reports)
  }

  /** Whatever git prints is right; when it fails nothing is known. */
  ghost predicate Honest(g: Graph, r: Reply, a: Sha, b: Sha) {
    r.Printed? ==> r.sha != "" && BestCommonAncestor(g, r.sha, a, b)
  }

  ghost predicate HonestQuery(g: Graph, r: Replies, a: Sha, b: Sha) {
    Honest(g, r.first, a, b) && Honest(g, r.second, a, b)
  }

  ghost predicate HonestGit(g: Graph, git: Git, prev: ReviewState, baseSha: Sha, headSha: Sha) {
    && HonestQuery(g, git.previous, prev.baseSha, prev.lastReviewedSha)
    && HonestQuery(g, git.current, baseSha, headSha)
    && HonestQuery(g, git.reach, prev.lastReviewedSha, headSha)
  }

  /** The query has no answer even after a retry. */
  predicate FinallyFails(r: Replies) {
    r.first.Failed? && (r.first.kind != Transient || r.second.Failed?)
  }

  /** The previous base and head and the current ones have a merge base in common. */
  ghost predicate SharedMergeBase(g: Graph, prev: ReviewState, baseSha: Sha, headSha: Sha) {
    exists m :: BestCommonAncestor(g, m, prev.baseSha, prev.lastReviewedSha) && BestCommonAncestor(g, m, baseSha, headSha)
  }

  /** On every graph and under every pattern of failures, an incremental review starts at the
      previously reviewed head, that head is still part of the current branch, and the merge base
      has not moved. */
  lemma IncrementalIsSafe(g: Graph, prev: Option<ReviewState>, baseSha: Sha, headSha: Sha, git: Git)
    requires prev.Some? ==> HonestGit(g, git, prev.value, baseSha, headSha)
    ensures var s := ComputeDiffStrategy(prev, baseSha, headSha, git).strategy;
            s.Since? ==>
              && prev.Some? && s.sha == prev.value.lastReviewedSha
              && Ancestor(g, s.sha, headSha)
              && SharedMergeBase(g, prev.value, baseSha, headSha)
  {
    if ComputeDiffStrategy(prev, baseSha, headSha, git).strategy.Since? {
      var p := prev.value;
      MergeBaseTestsReachability(g, MergeBase(git.reach).sha.value, p.lastReviewedSha, headSha);
      var m := MergeBase(git.previous).sha.value;
      assert BestCommonAncestor(g, m, p.baseSha, p.lastReviewedSha) && BestCommonAncestor(g, m, baseSha, headSha);
    }
  }

  /** When no query finally fails, the review is incremental exactly when the two printed merge bases
      agree and the previous head is still reachable. */
  lemma IncrementalExactly(g: Graph, prev: ReviewState, baseSha: Sha, headSha: Sha, git: Git)
    requires prev.lastReviewedSha != "" && prev.baseSha != ""
    requires HonestGit(g, git, prev, baseSha, headSha)
    requires !FinallyFails(git.previous) && !FinallyFails(git.current) && !FinallyFails(git.reach)
    ensures ComputeDiffStrategy(Some(prev), baseSha, headSha, git).strategy == Since(prev.lastReviewedSha) <==>
            MergeBase(git.previous).sha == MergeBase(git.current).sha && Ancestor(g, prev.lastReviewedSha, headSha)
  {
    MergeBaseTestsReachability(g, MergeBase(git.reach).sha.value, prev.lastReviewedSha, headSha);
  }

  ghost predicate UniqueMergeBase(g: Graph, a: Sha, b: Sha) {
    forall m, n | BestCommonAncestor(g, m, a, b) && BestCommonAncestor(g, n, a, b) :: m == n
  }

  /** With unique merge bases the decision is a property of the graph alone, whatever order git's
      retries and answers come in. */
  lemma DecidedByGraph(g: Graph, prev: ReviewState, baseSha: Sha, headSha: Sha, git: Git)
    requires prev.lastReviewedSha != "" && prev.baseSha != ""
    requires HonestGit(g, git, prev, baseSha, headSha)
    requires !FinallyFails(git.previous) && !FinallyFails(git.current) && !FinallyFails(git.reach)
    requires UniqueMergeBase(g, prev.baseSha, prev.lastReviewedSha) && UniqueMergeBase(g, baseSha, headSha)
    ensures ComputeDiffStrategy(Some(prev), baseSha, headSha, git).strategy.Since? <==>
            SharedMergeBase(g, prev, baseSha, headSha) && Ancestor(g, prev.lastReviewedSha, headSha)
  {
    IncrementalExactly(g, prev, baseSha, headSha, git);
    IncrementalIsSafe(g, Some(prev), baseSha, headSha, git);
    var p, c := MergeBase(git.previous).sha.value, MergeBase(git.current).sha.value;
    assert BestCommonAncestor(g, p, prev.baseSha, prev.lastReviewedSha) && BestCommonAncestor(g, c, baseSha, headSha);
    if SharedMergeBase(g, prev, baseSha, headSha) {
      var m :| BestCommonAncestor(g, m, prev.baseSha, prev.lastReviewedSha) && BestCommonAncestor(g, m, baseSha, headSha);
      assert m == p && m == c;
    }
  }

  /** The previous head was rewritten away: the review is full, whatever git answers. */
  lemma RewrittenHeadReviewsInFull(g: Graph, prev: ReviewState, baseSha: Sha, headSha: Sha, git: Git)
    requires HonestGit(g, git, prev, baseSha, headSha) && !Ancestor(g, prev.lastReviewedSha, headSha)
    ensures ComputeDiffStrategy(Some(prev), baseSha, headSha, git).strategy == Full
  {
    IncrementalIsSafe(g, Some(prev), baseSha, headSha, git);
  }

  /** At most six git calls are made, at most two for each query, every final failure among the
      queries asked is reported once, and a failed query never leads to an incremental review. */
  lemma CallsAndReports(prev: Option<ReviewState>, baseSha: Sha, headSha: Sha, git: Git)
    ensures var d := ComputeDiffStrategy(prev, baseSha, headSha, git);
            && d.calls <= 6
            && |d.reports| <= 3
            && (d.reports != [] ==> d.strategy == Full)
            && (prev.Some? && prev.value.lastReviewedSha != "" && prev.value.baseSha != "" ==>
                  d.calls >= 2 && |d.reports| >= (if FinallyFails(git.previous) then 1 else 0) + if FinallyFails(git.current) then 1 else 0)
  {
  }

  // ----- a series of reviews -----

  /** Review `k` of a series went ahead incrementally from the head that review `k - 1` had left. */
  predicate StepIncremental(heads: seq<Sha>, bases: seq<Sha>, gits: seq<Git>, k: nat)
    requires 0 < k < |heads| && |bases| == |gits| == |heads|
  {
    ComputeDiffStrategy(Some(ReviewState(heads[k - 1], bases[k - 1])), bases[k], heads[k], gits[k]).strategy.Since?
  }

  /** As long as every review was incremental, each reviewed head is reachable from every later one: the pieces that were
      looked at join up, and no commit in between was rewritten away. */
  lemma {:induction false} SeriesReachesBack(g: Graph, heads: seq<Sha>, bases: seq<Sha>, gits: seq<Git>, i: nat, j: nat)
    requires |bases| == |gits| == |heads| && i <= j < |heads|
    requires forall k | 0 < k < |heads| ::
      HonestGit(g, gits[k], ReviewState(heads[k - 1], bases[k - 1]), bases[k], heads[k]) && StepIncremental(heads, bases, gits, k)
    ensures Ancestor(g, heads[i], heads[j])
    decreases j - i
  {
    if i == j {
      AncestorReflexive(g, heads[i]);
    } else {
      SeriesReachesBack(g, heads, bases, gits, i, j - 1);
      assert StepIncremental(heads, bases, gits, j);
      IncrementalIsSafe(g, Some(ReviewState(heads[j - 1], bases[j - 1])), bases[j], heads[j], gits[j]);
      AncestorTransitive(g, heads[i], heads[j - 1], heads[j]);
    }
  }
}
