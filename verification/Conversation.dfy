/** Answering a mention in a review thread: turn limit, cost check, model call, ledger, reply, and what is left behind when
    one of them fails. */
module Conversation {
  import opened Optional
  import opened Whitespace
  import opened Cost
  import opened TurnCounter

  datatype ThreadKey = ThreadKey(installationId: int, repo: string, prNumber: int, rootCommentId: string)

  datatype Totals = Totals(running: real, daily: real)
  datatype Output = Output(summary: string, costUsd: real)

  /** The reader of the totals: not wired, failing, or answering. */
  datatype Reading = NotWired | ReadFails | Read(totals: Totals)

  datatype Ledger = NoLedger | LedgerFails | LedgerWorks

  /** What the outside world answers during one call: whether the platform can reply at all, whether the turn's
      transaction commits, the cost reader, the model, the ledger, and whether a post is accepted. */
  datatype World = World(conversationReply: bool, commits: bool, totals: Reading, model: Option<Output>, ledger: Ledger,
    posts: bool)

  datatype Place = AtTurn | AtTotals | AtModel | AtLedger | AtPost

  /** An error leaves the call where it happened. */
  datatype Outcome = Replied(body: string) | TurnLimitReached | CostExceeded | Unsupported | Threw(at: Place)

  datatype Post = LimitNote(key: ThreadKey, limit: nat) | Answer(key: ThreadKey, body: string)

  /** Everything one call can change. */
  datatype Desk = Desk(turns: map<ThreadKey, nat>, posts: seq<Post>, costs: seq<real>)

  function Turns(turns: map<ThreadKey, nat>, key: ThreadKey): nat {
    if key in turns then turns[key] else 0
  }

  /** The cost check, when it is done at all: how it ends the call. */
  function CostStops(cap: real, totals: Reading): Option<Outcome> {
    if cap <= 0.0 || totals.NotWired? then None
    else if totals.ReadFails? then Some(Threw(AtTotals))
    else
      var d := DecideCostAction(Input(totals.totals.running, 0.0, cap, totals.totals.daily, 0.0));
      if d.Abort? || d.Kill? then Some(Outcome.CostExceeded) else None
  }

  /** The call as one function of the state before it. */
  function Handled(d: Desk, key: ThreadKey, max: nat, cap: real, w: World): (Desk, Outcome) {
    if !w.conversationReply then (d, Unsupported)
    else if !w.commits then (d, Threw(AtTurn))
    else
      var after := Turns(d.turns, key) + 1;
      var counted := d.(turns := d.turns[key := after]);
      if after > max + 1 then (counted, TurnLimitReached)
      else if after == max + 1 then
        if w.posts then (counted.(posts := d.posts + [LimitNote(key, max)]), TurnLimitReached) else (counted, Threw(AtPost))
      else if CostStops(cap, w.totals).Some? then (counted, CostStops(cap, w.totals).value)
      else Answering(counted, key, w)
  }

  /** From the model call on. */
  function Answering(d: Desk, key: ThreadKey, w: World): (Desk, Outcome) {
    if w.model.None? then (d, Threw(AtModel))
    else if w.ledger.LedgerFails? then (d, Threw(AtLedger))
    else
      var out := w.model.value;
      var paid := if w.ledger.LedgerWorks? then d.(costs := d.costs + [out.costUsd]) else d;
      if w.posts then (paid.(posts := d.posts + [Answer(key, Trim(out.summary))]), Replied(Trim(out.summary)))
      else (paid, Threw(AtPost))
  }

  /** The check lets a call through: no cap, no reader, or no more spent so far than the cap. */
  predicate WithinCap(cap: real, totals: Reading) {
    cap <= 0.0 || totals.NotWired? || (totals.Read? && totals.totals.running <= cap)
  }

  /** The check in numbers. */
  lemma CostInNumbers(cap: real, totals: Reading)
    ensures CostStops(cap, totals).None? <==> cap <= 0.0 || totals.NotWired? || (totals.Read? && totals.totals.running <= cap)
    ensures CostStops(cap, totals) == Some(Outcome.CostExceeded) <==> cap > 0.0 && totals.Read? && totals.totals.running > cap
    ensures CostStops(cap, totals) == Some(Threw(AtTotals)) <==> cap > 0.0 && totals.ReadFails?
  {
  }

  /** The call adds a turn. */
  predicate Counts(w: World) { w.conversationReply && w.commits }

  /** The model is reached and answers, and the ledger takes the cost if there is one. */
  predicate Generates(n: nat, max: nat, cap: real, w: World) {
    Counts(w) && n < max && WithinCap(cap, w.totals) && w.model.Some? && !w.ledger.LedgerFails?
  }

  /** How a call ends whose thread had `n` turns before: the first of the steps, in their order, that ends it. */
  predicate EndsAs(outcome: Outcome, n: nat, max: nat, cap: real, w: World) {
    match outcome
    case Unsupported => !w.conversationReply
    case TurnLimitReached => w.conversationReply && w.commits && (n > max || (n == max && w.posts))
    case CostExceeded => w.conversationReply && w.commits && n < max && cap > 0.0 && w.totals.Read? && w.totals.totals.running > cap
    case Replied(body) => Generates(n, max, cap, w) && w.posts && body == Trim(w.model.value.summary)
    case Threw(AtTurn) => w.conversationReply && !w.commits
    case Threw(AtTotals) => w.conversationReply && w.commits && n < max && cap > 0.0 && w.totals.ReadFails?
    case Threw(AtModel) => w.conversationReply && w.commits && n < max && WithinCap(cap, w.totals) && w.model.None?
    case Threw(AtLedger) =>
      w.conversationReply && w.commits && n < max && WithinCap(cap, w.totals) && w.model.Some? && w.ledger.LedgerFails?
    case Threw(AtPost) => !w.posts && ((w.conversationReply && w.commits && n == max) || Generates(n, max, cap, w))
  }

  /** What one counted call posts: the limit note at exactly the maximum and an answer at most below it, both only when
      posts are accepted, and otherwise nothing. */
  predicate PostsOne(before: seq<Post>, after: seq<Post>, key: ThreadKey, n: nat, max: nat, posts: bool) {
    || ((n != max || !posts) && after == before)
    || (posts && n == max && after == before + [LimitNote(key, max)])
    || (posts && n < max && |after| == |before| + 1 && after == before + [after[|before|]] &&
        after[|before|].Answer? && after[|before|].key == key)
  }

  class ConversationDesk {
    var turns: map<ThreadKey, nat>
    var posts: seq<Post>
    var costs: seq<real>

    function Current(): Desk
      reads this
    {
      Desk(turns, posts, costs)
    }

    constructor ()
      ensures Current() == Desk(map[], [], [])
    {
      turns, posts, costs := map[], [], [];
    }

    /** Reads the count, then inserts 1 or adds 1; the returned counts come from the read. */
    method IncrementConversationTurn(key: ThreadKey) returns (before: nat, after: nat)
      modifies this`turns
      ensures before == Turns(old(turns), key) && after == before + 1
      ensures turns == old(turns)[key := after]
    {
      before := if key in turns then turns[key] else 0;
      turns := turns[key := if key in turns then turns[key] + 1 else 1];
      after := before + 1;
    }

    method HandleConversationReply(key: ThreadKey, max: nat, cap: real, w: World) returns (outcome: Outcome)
      modifies this
      ensures (Current(), outcome) == Handled(old(Current()), key, max, cap, w)
      ensures EndsAs(outcome, Turns(old(turns), key), max, cap, w)
      ensures outcome == Outcome.CostExceeded <==>
        w.conversationReply && w.commits && Turns(old(turns), key) < max && cap > 0.0 && w.totals.Read? &&
        w.totals.totals.running > cap
      ensures outcome.Replied? ==>
        cap <= 0.0 || w.totals.NotWired? || (w.totals.Read? && w.totals.totals.running <= cap)
      ensures turns == if w.conversationReply && w.commits then old(turns)[key := Turns(old(turns), key) + 1] else old(turns)
      ensures posts == match outcome
        case Replied(body) => old(posts) + [Answer(key, body)]
        case TurnLimitReached => if Turns(old(turns), key) == max then old(posts) + [LimitNote(key, max)] else old(posts)
        case _ => old(posts)
      ensures costs == if w.ledger.LedgerWorks? && Generates(Turns(old(turns), key), max, cap, w)
        then old(costs) + [w.model.value.costUsd] else old(costs)
    {
      CostInNumbers(cap, w.totals);
      if !w.conversationReply { return Unsupported; }
      if !w.commits { return Threw(AtTurn); }
      var before, after := IncrementConversationTurn(key);
      if after > max {
        if after == max + 1 {
          if !w.posts { return Threw(AtPost); }
          posts := posts + [LimitNote(key, max)];
        }
        return TurnLimitReached;
      }
      if cap > 0.0 && !w.totals.NotWired? {
        if w.totals.ReadFails? { return Threw(AtTotals); }
        var totals := w.totals.totals;
        var decision := DecideCostAction(Input(totals.running, 0.0, cap, totals.daily, 0.0));
        if decision.Abort? || decision.Kill? { return Outcome.CostExceeded; }
      }
      if w.model.None? { return Threw(AtModel); }
      var output := w.model.value;
      if !w.ledger.NoLedger? {
        if w.ledger.LedgerFails? { return Threw(AtLedger); }
        costs := costs + [output.costUsd];
      }
      var replyBody := Trim(output.summary);
      if !w.posts { return Threw(AtPost); }
      posts := posts + [Answer(key, replyBody)];
      return Replied(replyBody);
    }
  }

  // ----- serial runs over any number of threads -----

  datatype Request = Request(key: ThreadKey, cap: real, world: World)

  function After(d: Desk, r: Request, max: nat): Desk {
    Handled(d, r.key, max, r.cap, r.world).0
  }

  function Serve(d: Desk, rs: seq<Request>, max: nat): Desk
    decreases |rs|
  {
    if rs == [] then d
    else Serve(After(d, rs[0], max), rs[1..], max)
  }

  function CallsOn(rs: seq<Request>, key: ThreadKey): nat {
    if rs == [] then 0
    else (if rs[0].key == key && Counts(rs[0].world) then 1 else 0) + CallsOn(rs[1..], key)
  }

  function AnswersOn(posts: seq<Post>, key: ThreadKey): nat {
    if posts == [] then 0
    else AnswersOn(posts[..|posts| - 1], key) + if posts[|posts| - 1].Answer? && posts[|posts| - 1].key == key then 1 else 0
  }

  function NotesOn(posts: seq<Post>, key: ThreadKey): nat {
    if posts == [] then 0
    else NotesOn(posts[..|posts| - 1], key) + if posts[|posts| - 1].LimitNote? && posts[|posts| - 1].key == key then 1 else 0
  }

  lemma PostCounts(posts: seq<Post>, p: Post, key: ThreadKey)
    ensures AnswersOn(posts + [p], key) == AnswersOn(posts, key) + if p.Answer? && p.key == key then 1 else 0
    ensures NotesOn(posts + [p], key) == NotesOn(posts, key) + if p.LimitNote? && p.key == key then 1 else 0
  {
    assert (posts + [p])[..|posts|] == posts;
  }

  /** The note of the thread that this call fails to post. */
  function NoteLost(d: Desk, r: Request, key: ThreadKey, max: nat): nat {
    if r.key == key && Counts(r.world) && !r.world.posts && Turns(d.turns, key) == max then 1 else 0
  }

  function NotesLost(d: Desk, rs: seq<Request>, key: ThreadKey, max: nat): nat
    decreases |rs|
  {
    if rs == [] then 0
    else NoteLost(d, rs[0], key, max) + NotesLost(After(d, rs[0], max), rs[1..], key, max)
  }

  /** `lost` is the number of the thread's notes whose post failed so far. */
  predicate ThreadInv(d: Desk, key: ThreadKey, max: nat, lost: nat) {
    && AnswersOn(d.posts, key) <= Min(Turns(d.turns, key), max)
    && NotesOn(d.posts, key) + lost == if Turns(d.turns, key) > max then 1 else 0
  }

  lemma HandledPosts(d: Desk, r: Request, max: nat)
    requires Counts(r.world)
    ensures var d', n := After(d, r, max), Turns(d.turns, r.key);
            d'.turns == d.turns[r.key := n + 1] && PostsOne(d.posts, d'.posts, r.key, n, max, r.world.posts)
  {
  }

  lemma PostsOneKeeps(before: seq<Post>, after: seq<Post>, on: ThreadKey, n: nat, key: ThreadKey, max: nat, posts: bool)
    requires PostsOne(before, after, on, n, max, posts)
    ensures AnswersOn(after, key) <= AnswersOn(before, key) + if on == key && n < max then 1 else 0
    ensures NotesOn(after, key) == NotesOn(before, key) + if on == key && n == max && posts then 1 else 0
  {
    if after != before {
      PostCounts(before, after[|before|], key);
    }
  }

  lemma HandledKeeps(d: Desk, r: Request, key: ThreadKey, max: nat, lost: nat)
    requires ThreadInv(d, key, max, lost)
    ensures var d' := After(d, r, max);
            && ThreadInv(d', key, max, lost + NoteLost(d, r, key, max))
            && Turns(d'.turns, key) == Turns(d.turns, key) + if r.key == key && Counts(r.world) then 1 else 0
  {
    if Counts(r.world) {
      var d' := After(d, r, max);
      HandledPosts(d, r, max);
      PostsOneKeeps(d.posts, d'.posts, r.key, Turns(d.turns, r.key), key, max, r.world.posts);
    }
  }

  /** Over every serial run of requests on any threads, whatever fails: a thread's stored count is the number of its
      counted calls, at most `max` of them are answered, and past the maximum its limit note is there exactly unless the
      one post of it failed. Threads do not disturb each other. */
  lemma {:induction false} ServeKeeps(d: Desk, rs: seq<Request>, key: ThreadKey, max: nat, lost: nat)
    requires ThreadInv(d, key, max, lost)
    ensures ThreadInv(Serve(d, rs, max), key, max, lost + NotesLost(d, rs, key, max))
    ensures Turns(Serve(d, rs, max).turns, key) == Turns(d.turns, key) + CallsOn(rs, key)
    decreases |rs|
  {
    if rs != [] {
      HandledKeeps(d, rs[0], key, max, lost);
      ServeKeeps(After(d, rs[0], max), rs[1..], key, max, lost + NoteLost(d, rs[0], key, max));
    }
  }

  /** Nothing outside stops the call. */
  predicate Answerable(r: Request) {
    r.world.conversationReply && r.world.commits && r.world.posts && r.world.model.Some? && !r.world.ledger.LedgerFails? &&
    WithinCap(r.cap, r.world.totals)
  }

  predicate AllAnswerable(rs: seq<Request>) {
    rs == [] || (Answerable(rs[0]) && AllAnswerable(rs[1..]))
  }

  /** What an unhindered call posts. */
  function Posted(r: Request, n: nat, max: nat): seq<Post>
    requires Answerable(r)
  {
    if n < max then [Answer(r.key, Trim(r.world.model.value.summary))] else if n == max then [LimitNote(r.key, max)] else []
  }

  lemma AnswerableHandled(d: Desk, r: Request, max: nat)
    requires Answerable(r)
    ensures var d', n := After(d, r, max), Turns(d.turns, r.key);
            d'.turns == d.turns[r.key := n + 1] && d'.posts == d.posts + Posted(r, n, max)
  {
    CostInNumbers(r.cap, r.world.totals);
    assert Turns(d.turns, r.key) > max ==> d.posts + [] == d.posts;
  }

  lemma HandledAnswers(d: Desk, r: Request, key: ThreadKey, max: nat)
    requires Answerable(r)
    ensures var d', n := After(d, r, max), Turns(d.turns, key);
            && Turns(d'.turns, key) == n + (if r.key == key then 1 else 0)
            && AnswersOn(d'.posts, key) == AnswersOn(d.posts, key) + if r.key == key && n < max then 1 else 0
  {
    var posted := Posted(r, Turns(d.turns, r.key), max);
    AnswerableHandled(d, r, max);
    if posted == [] { assert d.posts + posted == d.posts; } else { PostCounts(d.posts, posted[0], key); }
  }

  /** Exactly the calls within the maximum were answered. */
  predicate AllAnswered(d: Desk, key: ThreadKey, max: nat) {
    AnswersOn(d.posts, key) == Min(Turns(d.turns, key), max)
  }

  lemma AnswersKept(d: Desk, r: Request, key: ThreadKey, max: nat)
    requires Answerable(r) && AllAnswered(d, key, max)
    ensures AllAnswered(After(d, r, max), key, max)
  {
    HandledAnswers(d, r, key, max);
  }

  lemma {:induction false} AllStayAnswered(d: Desk, rs: seq<Request>, key: ThreadKey, max: nat)
    requires AllAnswerable(rs) && AllAnswered(d, key, max)
    ensures AllAnswered(Serve(d, rs, max), key, max)
    decreases |rs|
  {
    if rs != [] {
      AnswersKept(d, rs[0], key, max);
      AllStayAnswered(After(d, rs[0], max), rs[1..], key, max);
    }
  }

  lemma TurnsAfter(d: Desk, r: Request, key: ThreadKey, max: nat)
    ensures Turns(After(d, r, max).turns, key) == Turns(d.turns, key) + if r.key == key && Counts(r.world) then 1 else 0
  {
    if Counts(r.world) { HandledPosts(d, r, max); }
  }

  lemma {:induction false} TurnsCount(d: Desk, rs: seq<Request>, key: ThreadKey, max: nat)
    ensures Turns(Serve(d, rs, max).turns, key) == Turns(d.turns, key) + CallsOn(rs, key)
    decreases |rs|
  {
    if rs != [] {
      TurnsAfter(d, rs[0], key, max);
      TurnsCount(After(d, rs[0], max), rs[1..], key, max);
    }
  }

  /** When nothing outside stops a call, exactly min(n, max) are answered. */
  lemma AnswerableAnswers(d: Desk, rs: seq<Request>, key: ThreadKey, max: nat)
    requires AllAnswerable(rs) && AllAnswered(d, key, max)
    ensures AnswersOn(Serve(d, rs, max).posts, key) == Min(Turns(d.turns, key) + CallsOn(rs, key), max)
  {
    AllStayAnswered(d, rs, key, max);
    TurnsCount(d, rs, key, max);
  }

  const EMPTY := Desk(map[], [], [])

  /** From the start: every thread has as many turns as counted calls and no more answers than the maximum, and when
      nothing outside stops a call exactly min(calls, max). */
  lemma FromTheStart(rs: seq<Request>, key: ThreadKey, max: nat)
    ensures var d := Serve(EMPTY, rs, max);
      && Turns(d.turns, key) == CallsOn(rs, key)
      && AnswersOn(d.posts, key) <= Min(CallsOn(rs, key), max)
      && (AllAnswerable(rs) ==> AnswersOn(d.posts, key) == Min(CallsOn(rs, key), max))
      && NotesOn(d.posts, key) + NotesLost(EMPTY, rs, key, max) == if CallsOn(rs, key) > max then 1 else 0
  {
    ServeKeeps(EMPTY, rs, key, max, 0);
    if AllAnswerable(rs) { AnswerableAnswers(EMPTY, rs, key, max); }
  }
}
