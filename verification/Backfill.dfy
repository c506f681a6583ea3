/** The resumable backfill of reactions: paging, the per-PR walk with its resume boundary, the state
    file, and runs that crash and start again. */
module Backfill {
  import opened Optional

  datatype Kind = ThumbsUp | ThumbsDown

  /** A reaction with its mapped kind; none for contents that are not ingested. */
  datatype Reaction = Reaction(id: nat, kind: Option<Kind>)

  /** A review comment: whether it counts as the bot's, and the fingerprint resolved from it. */
  datatype Comment = Comment(id: nat, isBot: bool, fingerprint: Option<string>, reactions: seq<Reaction>)

  datatype Pr = Pr(number: int, updatedAt: Option<int>, comments: seq<Comment>)

  /** One feedback event handed to the recorder. */
  datatype Event = Event(pr: int, comment: nat, reaction: nat, fingerprint: string, kind: Kind)

  datatype Totals = Totals(processed: nat, recorded: nat, unresolved: nat, skipped: nat)
  datatype PrState = PrState(lastCommentId: int, lastReactionId: int, totals: Totals, completed: bool)

  const ZERO := Totals(0, 0, 0, 0)
  const FRESH := PrState(0, 0, ZERO, false)
  const PAGE_SIZE: nat := 100

  function AddTotals(a: Totals, b: Totals): Totals {
    Totals(a.processed + b.processed, a.recorded + b.recorded, a.unresolved + b.unresolved, a.skipped + b.skipped)
  }

  // ----- paging -----

  /** One listing request: page `n`, counted from 1. A page that is not full ends the listing. */
  method ListPage<T>(items: seq<T>, n: nat) returns (page: seq<T>)
    requires n >= 1 && (n - 1) * PAGE_SIZE <= |items|
    ensures var from := (n - 1) * 100;
            && from + |page| <= |items| && |page| <= 100
            && (forall i | 0 <= i < |page| :: page[i] == items[from + i])
            && (|page| < 100 ==> from + |page| == |items|)
  {
    var from, to := (n - 1) * PAGE_SIZE, Min(n * PAGE_SIZE, |items|);
    page := items[from..to];
  }

  lemma NextPage(n: nat)
    requires n >= 1
    ensures (n - 1) * PAGE_SIZE + PAGE_SIZE == n * PAGE_SIZE
  {
  }

  // ----- one PR -----

  /** The reaction is skipped because a prior walk of this very comment got past it. */
  predicate Resumed(prior: PrState, c: Comment, r: Reaction) {
    c.id == prior.lastCommentId && prior.lastReactionId > 0 && r.id <= prior.lastReactionId
  }

  /** One more reaction was processed, and recorded or dropped. */
  function CountReaction(s: PrState, id: int, dropped: bool): PrState {
    s.(lastReactionId := id,
       totals := s.totals.(processed := s.totals.processed + 1,
                           recorded := s.totals.recorded + (if dropped then 0 else 1),
                           skipped := s.totals.skipped + (if dropped then 1 else 0)))
  }

  /** Whether a reaction is handed to the recorder. */
  predicate Taken(prior: PrState, c: Comment, r: Reaction) {
    !Resumed(prior, c, r) && r.kind.Some?
  }

  function EventOf(pr: Pr, c: Comment, r: Reaction): Event
    requires c.fingerprint.Some? && r.kind.Some?
  {
    Event(pr.number, c.id, r.id, c.fingerprint.value, r.kind.value)
  }

  /** The events of a comment's first `n` reactions. */
  function ReactionEvents(pr: Pr, prior: PrState, c: Comment, n: nat): seq<Event>
    requires c.fingerprint.Some? && n <= |c.reactions|
  {
    if n == 0 then []
    else if Taken(prior, c, c.reactions[n - 1]) then ReactionEvents(pr, prior, c, n - 1) + [EventOf(pr, c, c.reactions[n - 1])]
    else ReactionEvents(pr, prior, c, n - 1)
  }

  /** The recorder's answer to an event: whether the event was dropped. */
  type Recorder = Event -> bool

  function TakeReactions(pr: Pr, s: PrState, prior: PrState, c: Comment, n: nat, rec: Recorder): PrState
    requires c.fingerprint.Some? && n <= |c.reactions|
  {
    if n == 0 then s
    else
      var before, r := TakeReactions(pr, s, prior, c, n - 1, rec), c.reactions[n - 1];
      if Taken(prior, c, r) then CountReaction(before, r.id, rec(EventOf(pr, c, r))) else before
  }

  predicate Walked(prior: PrState, c: Comment) {
    c.isBot && c.id >= prior.lastCommentId
  }

  function CommentEvents(pr: Pr, prior: PrState, c: Comment): seq<Event> {
    if Walked(prior, c) && c.fingerprint.Some? then ReactionEvents(pr, prior, c, |c.reactions|) else []
  }

  function TakeComment(pr: Pr, s: PrState, prior: PrState, c: Comment, rec: Recorder): PrState {
    if !Walked(prior, c) then s
    else if c.fingerprint.None? then s.(totals := s.totals.(unresolved := s.totals.unresolved + 1))
    else TakeReactions(pr, s, prior, c, |c.reactions|, rec).(lastCommentId := c.id)
  }

  /** The events of a PR's first `n` comments. */
  function PrEvents(pr: Pr, prior: PrState, n: nat): seq<Event>
    requires n <= |pr.comments|
  {
    if n == 0 then [] else PrEvents(pr, prior, n - 1) + CommentEvents(pr, prior, pr.comments[n - 1])
  }

  function WalkPr(pr: Pr, prior: PrState, n: nat, rec: Recorder): PrState
    requires n <= |pr.comments|
  {
    if n == 0 then prior
    else TakeComment(pr, WalkPr(pr, prior, n - 1, rec), prior, pr.comments[n - 1], rec)
  }

  function AllEvents(pr: Pr, prior: PrState): seq<Event> {
    PrEvents(pr, prior, |pr.comments|)
  }

  function WholeWalk(pr: Pr, prior: PrState, rec: Recorder): PrState {
    WalkPr(pr, prior, |pr.comments|, rec)
  }

  // ----- what a walk hands over and counts, reaction by reaction -----

  /** A comment that the walk looks at: the bot's own, from the last one of a prior walk on. */
  predicate LookedAt(pr: Pr, prior: PrState, i: nat) {
    i < |pr.comments| && pr.comments[i].isBot && pr.comments[i].id >= prior.lastCommentId
  }

  /** One of those whose fingerprint is known. */
  predicate Resolvable(pr: Pr, prior: PrState, i: nat) {
    LookedAt(pr, prior, i) && pr.comments[i].fingerprint.Some?
  }

  /** Where a reaction stands: the number of its comment and its own. */
  datatype Place = Place(comment: nat, reaction: nat)

  /** A mapped reaction to a resolvable comment, unless the prior walk ended in that comment at or after it. */
  predicate HandedOver(pr: Pr, prior: PrState, p: Place) {
    Resolvable(pr, prior, p.comment) && p.reaction < |pr.comments[p.comment].reactions| &&
    var c := pr.comments[p.comment];
    var r := c.reactions[p.reaction];
    r.kind.Some? && !(c.id == prior.lastCommentId && 0 < prior.lastReactionId && r.id <= prior.lastReactionId)
  }

  predicate Earlier(a: Place, b: Place) {
    a.comment < b.comment || (a.comment == b.comment && a.reaction < b.reaction)
  }

  /** The event of the reaction at a place. */
  predicate IsEventAt(pr: Pr, e: Event, p: Place)
    requires p.comment < |pr.comments| && p.reaction < |pr.comments[p.comment].reactions|
  {
    var c := pr.comments[p.comment];
    var r := c.reactions[p.reaction];
    e.pr == pr.number && e.comment == c.id && e.reaction == r.id && Some(e.fingerprint) == c.fingerprint && Some(e.kind) == r.kind
  }

  /** The events are those of the handed-over reactions at `ps`, in the order of the listing. */
  predicate EventsAt(pr: Pr, prior: PrState, events: seq<Event>, ps: seq<Place>) {
    && |ps| == |events|
    && (forall j | 0 <= j < |ps| :: HandedOver(pr, prior, ps[j]) && IsEventAt(pr, events[j], ps[j]))
    && forall i, j | 0 <= i < j < |ps| :: Earlier(ps[i], ps[j])
  }

  lemma {:induction false} ReactionPlaces(pr: Pr, prior: PrState, i: nat, n: nat) returns (ps: seq<Place>)
    requires Resolvable(pr, prior, i) && n <= |pr.comments[i].reactions|
    ensures EventsAt(pr, prior, ReactionEvents(pr, prior, pr.comments[i], n), ps)
    ensures forall p <- ps :: p.comment == i && p.reaction < n
    ensures forall k: nat | k < n && HandedOver(pr, prior, Place(i, k)) :: Place(i, k) in ps
  {
    if n == 0 {
      ps := [];
    } else {
      ps := ReactionPlaces(pr, prior, i, n - 1);
      if Taken(prior, pr.comments[i], pr.comments[i].reactions[n - 1]) { ps := ps + [Place(i, n - 1)]; }
    }
  }

  /** A walk hands over exactly the reactions it should, each once and in the order of the listing. */
  lemma {:induction false} WalkPlaces(pr: Pr, prior: PrState, n: nat) returns (ps: seq<Place>)
    requires n <= |pr.comments|
    ensures EventsAt(pr, prior, PrEvents(pr, prior, n), ps)
    ensures forall p <- ps :: p.comment < n
    ensures forall p: Place | p.comment < n && HandedOver(pr, prior, p) :: p in ps
  {
    if n == 0 {
      ps := [];
    } else {
      ps := WalkPlaces(pr, prior, n - 1);
      if Resolvable(pr, prior, n - 1) {
        var more := ReactionPlaces(pr, prior, n - 1, |pr.comments[n - 1].reactions|);
        PlacesJoin(pr, prior, PrEvents(pr, prior, n - 1), ps, CommentEvents(pr, prior, pr.comments[n - 1]), more, n - 1);
        ps := ps + more;
      }
    }
  }

  lemma PlacesJoin(pr: Pr, prior: PrState, a: seq<Event>, ps: seq<Place>, b: seq<Event>, qs: seq<Place>, n: nat)
    requires EventsAt(pr, prior, a, ps) && EventsAt(pr, prior, b, qs)
    requires (forall p <- ps :: p.comment < n) && forall q <- qs :: q.comment == n
    ensures EventsAt(pr, prior, a + b, ps + qs)
  {
    var all := ps + qs;
    forall i, j | 0 <= i < j < |all| ensures Earlier(all[i], all[j]) {
      if i < |ps| <= j { assert ps[i] in ps && qs[j - |ps|] in qs; }
    }
  }

  /** How many events the recorder dropped, or how many it did not. */
  function Many(events: seq<Event>, rec: Recorder, dropped: bool): nat {
    if events == [] then 0
    else Many(events[..|events| - 1], rec, dropped) + if rec(events[|events| - 1]) == dropped then 1 else 0
  }

  lemma {:induction false} ManyConcat(a: seq<Event>, b: seq<Event>, rec: Recorder, dropped: bool)
    ensures Many(a + b, rec, dropped) == Many(a, rec, dropped) + Many(b, rec, dropped)
  {
    if b == [] {
      assert a + b == a;
    } else {
      ManyConcat(a, b[..|b| - 1], rec, dropped);
      assert (a + b)[..|a + b| - 1] == a + b[..|b| - 1];
    }
  }

  /** The numbers of the comments whose fingerprint the walk cannot resolve. */
  function Unresolved(pr: Pr, prior: PrState, n: nat): set<nat> {
    set i | 0 <= i < n && LookedAt(pr, prior, i) && pr.comments[i].fingerprint.None?
  }

  /** The totals after the events of a walk, on top of those before it. */
  predicate Adds(before: Totals, after: Totals, events: seq<Event>, unresolved: nat, rec: Recorder) {
    && after.processed == before.processed + |events|
    && after.recorded == before.recorded + Many(events, rec, false)
    && after.skipped == before.skipped + Many(events, rec, true)
    && after.unresolved == before.unresolved + unresolved
  }

  /** Where a walk ends: its last event's reaction, and its last resolvable comment. */
  ghost predicate EndsAt(pr: Pr, prior: PrState, n: nat, s: PrState)
    requires n <= |pr.comments|
  {
    EndsInReaction(PrEvents(pr, prior, n), prior, s) && EndsInComment(pr, prior, n, s)
  }

  predicate EndsInReaction(events: seq<Event>, prior: PrState, s: PrState) {
    s.lastReactionId == if events == [] then prior.lastReactionId else events[|events| - 1].reaction
  }

  ghost predicate EndsInComment(pr: Pr, prior: PrState, n: nat, s: PrState)
    requires n <= |pr.comments|
  {
    (s.lastCommentId == prior.lastCommentId && forall i: nat | i < n :: !Resolvable(pr, prior, i)) ||
    exists i: nat :: LastResolvable(pr, prior, i, n) && s.lastCommentId == pr.comments[i].id
  }

  predicate LastResolvable(pr: Pr, prior: PrState, i: nat, n: nat) {
    i < n && Resolvable(pr, prior, i) && forall j: nat | i < j < n :: !Resolvable(pr, prior, j)
  }

  lemma {:induction false} ReactionsAdd(pr: Pr, s: PrState, prior: PrState, c: Comment, n: nat, rec: Recorder)
    requires c.fingerprint.Some? && n <= |c.reactions|
    ensures var s', events := TakeReactions(pr, s, prior, c, n, rec), ReactionEvents(pr, prior, c, n);
      && Adds(s.totals, s'.totals, events, 0, rec) && s'.completed == s.completed && s'.lastCommentId == s.lastCommentId
      && s'.lastReactionId == if events == [] then s.lastReactionId else events[|events| - 1].reaction
  {
    if n > 0 {
      ReactionsAdd(pr, s, prior, c, n - 1, rec);
      var before, r := ReactionEvents(pr, prior, c, n - 1), c.reactions[n - 1];
      if Taken(prior, c, r) { assert (before + [EventOf(pr, c, r)])[..|before|] == before; }
    }
  }

  lemma UnresolvedNext(pr: Pr, prior: PrState, n: nat)
    requires n < |pr.comments|
    ensures |Unresolved(pr, prior, n + 1)| ==
      |Unresolved(pr, prior, n)| + if LookedAt(pr, prior, n) && pr.comments[n].fingerprint.None? then 1 else 0
  {
    var now := Unresolved(pr, prior, n);
    if LookedAt(pr, prior, n) && pr.comments[n].fingerprint.None? {
      assert Unresolved(pr, prior, n + 1) == now + {n};
    } else {
      assert Unresolved(pr, prior, n + 1) == now;
    }
  }

  lemma CommentAdds(pr: Pr, s: PrState, prior: PrState, n: nat, rec: Recorder)
    requires n < |pr.comments|
    ensures var c := pr.comments[n];
      var s', events := TakeComment(pr, s, prior, c, rec), CommentEvents(pr, prior, c);
      && Adds(s.totals, s'.totals, events, if LookedAt(pr, prior, n) && c.fingerprint.None? then 1 else 0, rec)
      && s'.completed == s.completed
      && s'.lastReactionId == (if events == [] then s.lastReactionId else events[|events| - 1].reaction)
      && s'.lastCommentId == if Resolvable(pr, prior, n) then c.id else s.lastCommentId
  {
    var c := pr.comments[n];
    if Resolvable(pr, prior, n) { ReactionsAdd(pr, s, prior, c, |c.reactions|, rec); }
  }

  /** A walk counts every event as recorded or skipped by the recorder's answer, and every comment it cannot resolve. */
  lemma {:induction false} WalkAdds(pr: Pr, prior: PrState, n: nat, rec: Recorder)
    requires n <= |pr.comments|
    ensures Adds(prior.totals, WalkPr(pr, prior, n, rec).totals, PrEvents(pr, prior, n), |Unresolved(pr, prior, n)|, rec)
  {
    if n > 0 {
      var c, before := pr.comments[n - 1], WalkPr(pr, prior, n - 1, rec);
      WalkAdds(pr, prior, n - 1, rec);
      CommentAdds(pr, before, prior, n - 1, rec);
      UnresolvedNext(pr, prior, n - 1);
      AddsOnto(prior.totals, before.totals, TakeComment(pr, before, prior, c, rec).totals, PrEvents(pr, prior, n - 1),
        CommentEvents(pr, prior, c), |Unresolved(pr, prior, n - 1)|,
        if LookedAt(pr, prior, n - 1) && c.fingerprint.None? then 1 else 0, rec);
    } else {
      NothingAdded(pr, prior, rec);
    }
  }

  lemma NothingAdded(pr: Pr, prior: PrState, rec: Recorder)
    ensures Adds(prior.totals, prior.totals, PrEvents(pr, prior, 0), |Unresolved(pr, prior, 0)|, rec)
  {
    assert Unresolved(pr, prior, 0) == {};
  }

  lemma CommentEnds(pr: Pr, s: PrState, prior: PrState, n: nat, rec: Recorder)
    requires n < |pr.comments|
    ensures var c := pr.comments[n];
      var s', events := TakeComment(pr, s, prior, c, rec), CommentEvents(pr, prior, c);
      && s'.completed == s.completed
      && EndsInReaction(events, s, s')
      && s'.lastCommentId == if Resolvable(pr, prior, n) then c.id else s.lastCommentId
  {
    CommentAdds(pr, s, prior, n, rec);
  }

  lemma ReactionNext(earlier: seq<Event>, events: seq<Event>, prior: PrState, before: PrState, after: PrState)
    requires EndsInReaction(earlier, prior, before) && EndsInReaction(events, before, after)
    ensures EndsInReaction(earlier + events, prior, after)
  {
    if events == [] { assert earlier + events == earlier; }
  }

  lemma {:induction false} WalkEndsInReaction(pr: Pr, prior: PrState, n: nat, rec: Recorder)
    requires n <= |pr.comments|
    ensures EndsInReaction(PrEvents(pr, prior, n), prior, WalkPr(pr, prior, n, rec))
    ensures WalkPr(pr, prior, n, rec).completed == prior.completed
  {
    if n > 0 {
      var before, c := WalkPr(pr, prior, n - 1, rec), pr.comments[n - 1];
      WalkEndsInReaction(pr, prior, n - 1, rec);
      CommentEnds(pr, before, prior, n - 1, rec);
      ReactionNext(PrEvents(pr, prior, n - 1), CommentEvents(pr, prior, c), prior, before, TakeComment(pr, before, prior, c, rec));
    }
  }

  lemma CommentNext(pr: Pr, prior: PrState, n: nat, before: PrState, after: PrState)
    requires n < |pr.comments| && EndsInComment(pr, prior, n, before)
    requires after.lastCommentId == if Resolvable(pr, prior, n) then pr.comments[n].id else before.lastCommentId
    ensures EndsInComment(pr, prior, n + 1, after)
  {
    if Resolvable(pr, prior, n) {
      assert LastResolvable(pr, prior, n, n + 1);
    } else if i: nat :| LastResolvable(pr, prior, i, n) && before.lastCommentId == pr.comments[i].id {
      assert LastResolvable(pr, prior, i, n + 1);
    }
  }

  lemma {:induction false} WalkEndsInComment(pr: Pr, prior: PrState, n: nat, rec: Recorder)
    requires n <= |pr.comments|
    ensures EndsInComment(pr, prior, n, WalkPr(pr, prior, n, rec))
  {
    if n > 0 {
      var before := WalkPr(pr, prior, n - 1, rec);
      WalkEndsInComment(pr, prior, n - 1, rec);
      CommentEnds(pr, before, prior, n - 1, rec);
      CommentNext(pr, prior, n - 1, before, TakeComment(pr, before, prior, pr.comments[n - 1], rec));
    }
  }

  /** The boundary a walk leaves for a later one to resume at. */
  lemma WalkEnds(pr: Pr, prior: PrState, n: nat, rec: Recorder)
    requires n <= |pr.comments|
    ensures WalkPr(pr, prior, n, rec).completed == prior.completed && EndsAt(pr, prior, n, WalkPr(pr, prior, n, rec))
  {
    WalkEndsInReaction(pr, prior, n, rec);
    WalkEndsInComment(pr, prior, n, rec);
  }

  lemma AddsOnto(p: Totals, q: Totals, r: Totals, a: seq<Event>, b: seq<Event>, u: nat, v: nat, rec: Recorder)
    requires Adds(p, q, a, u, rec) && Adds(q, r, b, v, rec)
    ensures Adds(p, r, a + b, u + v, rec)
  {
    ManyConcat(a, b, rec, false);
    ManyConcat(a, b, rec, true);
  }

  // ----- the walk as the code runs it -----

  /** The log and the counters once a PR's first `n` comments are done. */
  predicate WalkedSoFar(pr: Pr, prior: PrState, n: nat, earlier: seq<Event>, log: seq<Event>, s: PrState, rec: Recorder)
    requires n <= |pr.comments|
  {
    log == earlier + PrEvents(pr, prior, n) && s == WalkPr(pr, prior, n, rec)
  }

  lemma NothingWalked(pr: Pr, prior: PrState, log: seq<Event>, rec: Recorder)
    ensures WalkedSoFar(pr, prior, 0, log, log, prior, rec)
  {
    assert log + PrEvents(pr, prior, 0) == log;
  }

  lemma AllWalked(pr: Pr, prior: PrState, earlier: seq<Event>, log: seq<Event>, s: PrState, rec: Recorder)
    requires WalkedSoFar(pr, prior, |pr.comments|, earlier, log, s, rec)
    ensures log == earlier + AllEvents(pr, prior) && s == WholeWalk(pr, prior, rec)
    ensures Adds(prior.totals, s.totals, AllEvents(pr, prior), |Unresolved(pr, prior, |pr.comments|)|, rec)
  {
    WalkAdds(pr, prior, |pr.comments|, rec);
  }

  lemma PrEventsNext(pr: Pr, prior: PrState, n: nat, earlier: seq<Event>)
    requires n < |pr.comments|
    ensures (earlier + PrEvents(pr, prior, n)) + CommentEvents(pr, prior, pr.comments[n]) == earlier + PrEvents(pr, prior, n + 1)
  {
  }

  class Job {
    const rec: Recorder
    /** Every event handed to the recorder, in order. */
    var log: seq<Event>

    constructor (rec: Recorder)
      ensures log == [] && this.rec == rec
    {
      this.rec, log := rec, [];
    }

    /** The reaction pages of one comment. */
    method WalkReactions(pr: Pr, prior: PrState, c: Comment, start: PrState) returns (s: PrState)
      requires c.fingerprint.Some?
      modifies this
      ensures log == old(log) + ReactionEvents(pr, prior, c, |c.reactions|)
      ensures s == TakeReactions(pr, start, prior, c, |c.reactions|, rec)
      ensures Adds(start.totals, s.totals, ReactionEvents(pr, prior, c, |c.reactions|), 0, rec)
    {
      ReactionsAdd(pr, start, prior, c, |c.reactions|, rec);
      s := start;
      var reactionPage := 1;
      ghost var n := 0;
      while true
        invariant reactionPage >= 1 && n == (reactionPage - 1) * PAGE_SIZE <= |c.reactions|
        invariant log == old(log) + ReactionEvents(pr, prior, c, n)
        invariant s == TakeReactions(pr, start, prior, c, n, rec)
        decreases |c.reactions| - n
      {
        var page := ListPage(c.reactions, reactionPage);
        if |page| == 0 { break; }
        ghost var from := n;
        var i := 0;
        while i < |page|
          invariant 0 <= i <= |page| && n == from + i
          invariant log == old(log) + ReactionEvents(pr, prior, c, n)
          invariant s == TakeReactions(pr, start, prior, c, n, rec)
        {
          var r := page[i];
          i := i + 1;
          n := n + 1;
          if Resumed(prior, c, r) { continue; }
          if r.kind.None? { continue; }
          var e := EventOf(pr, c, r);
          log := log + [e];
          s := CountReaction(s, r.id, rec(e));
        }
        if |page| < PAGE_SIZE { break; }
        reactionPage := reactionPage + 1;
      }
    }

    /** The body of the comment loop. */
    method ProcessComment(pr: Pr, prior: PrState, c: Comment, start: PrState) returns (s: PrState)
      modifies this
      ensures log == old(log) + CommentEvents(pr, prior, c)
      ensures s == TakeComment(pr, start, prior, c, rec)
    {
      s := start;
      if !c.isBot { return; }
      if c.id < prior.lastCommentId { return; }
      if c.fingerprint.None? {
        s := s.(totals := s.totals.(unresolved := s.totals.unresolved + 1));
        return;
      }
      s := WalkReactions(pr, prior, c, s);
      s := s.(lastCommentId := c.id);
    }

    /** The same, counted as the PR's comment number `n`. */
    method NextComment(pr: Pr, prior: PrState, c: Comment, start: PrState, ghost n: nat, ghost earlier: seq<Event>) returns (s: PrState)
      requires n < |pr.comments| && c == pr.comments[n]
      requires WalkedSoFar(pr, prior, n, earlier, log, start, rec)
      modifies this
      ensures WalkedSoFar(pr, prior, n + 1, earlier, log, s, rec)
    {
      PrEventsNext(pr, prior, n, earlier);
      s := ProcessComment(pr, prior, c, start);
    }

    /** The comments of one page, the first of them the PR's comment number `from`. */
    method WalkPage(pr: Pr, prior: PrState, page: seq<Comment>, start: PrState, ghost from: nat, ghost earlier: seq<Event>)
      returns (s: PrState)
      requires from + |page| <= |pr.comments| && forall i | 0 <= i < |page| :: page[i] == pr.comments[from + i]
      requires WalkedSoFar(pr, prior, from, earlier, log, start, rec)
      modifies this
      ensures WalkedSoFar(pr, prior, from + |page|, earlier, log, s, rec)
    {
      s := start;
      var i := 0;
      while i < |page|
        invariant 0 <= i <= |page|
        invariant WalkedSoFar(pr, prior, from + i, earlier, log, s, rec)
      {
        s := NextComment(pr, prior, page[i], s, from + i, earlier);
        i := i + 1;
      }
    }

    /** The comment pages of one PR. */
    method ProcessPr(pr: Pr, prior: PrState) returns (s: PrState)
      modifies this
      ensures log == old(log) + AllEvents(pr, prior)
      ensures s == WholeWalk(pr, prior, rec)
      ensures Adds(prior.totals, s.totals, AllEvents(pr, prior), |Unresolved(pr, prior, |pr.comments|)|, rec)
    {
      s := prior;
      var commentPage := 1;
      ghost var n, earlier := 0, log;
      NothingWalked(pr, prior, log, rec);
      while true
        invariant commentPage >= 1 && n == (commentPage - 1) * PAGE_SIZE <= |pr.comments|
        invariant WalkedSoFar(pr, prior, n, earlier, log, s, rec)
        decreases |pr.comments| - n
      {
        var page := ListPage(pr.comments, commentPage);
        if |page| == 0 {
          assert n == |pr.comments|;
          break;
        }
        s := WalkPage(pr, prior, page, s, n, earlier);
        n := n + |page|;
        if |page| < PAGE_SIZE {
          assert n == |pr.comments|;
          break;
        }
        NextPage(commentPage);
        commentPage := commentPage + 1;
      }
      assert n == |pr.comments|;
      AllWalked(pr, prior, earlier, log, s, rec);
    }
  }
}
