/** The gates between the deduplicated findings of a review and what is posted. */
module Publish {
  import opened Optional
  import Strings
  import Redaction
  import Feedback

  datatype Severity = Info | Minor | Major | Critical
  datatype Confidence = Low | Medium | High
  datatype Category = Bug | Security | Performance | Maintainability | Style | Docs | Test
  datatype Threshold = OnCritical | OnMajor | Never
  datatype ReviewEvent = CommentOnly | RequestChanges

  datatype Comment = Comment(body: string, fingerprint: string, severity: Severity, category: Option<Category>,
    confidence: Option<Confidence>)

  datatype Entry = Entry(enabled: bool, minSeverity: Severity)

  type Ruleset = map<Category, Entry>

  /** What the operator configured; an absent ruleset is an empty one. */
  datatype Policy = Policy(minConfidence: Confidence, ruleset: Ruleset, suppressed: set<string>, changesOn: Threshold)

  function SeverityRank(s: Severity): nat {
    match s case Critical => 3 case Major => 2 case Minor => 1 case Info => 0
  }

  function ConfidenceRank(c: Confidence): nat {
    match c case High => 2 case Medium => 1 case Low => 0
  }

  // ----- the gates -----

  /** A comment that names no confidence counts as a sure one. */
  predicate MeetsConfidence(confidence: Option<Confidence>, floor: Confidence) {
    ConfidenceRank(if confidence.Some? then confidence.value else High) >= ConfidenceRank(floor)
  }

  /** A comment that names no category is held to the rule for bugs; a category with no rule passes. */
  predicate MeetsRuleset(c: Comment, ruleset: Ruleset) {
    var category := if c.category.Some? then c.category.value else Bug;
    category in ruleset ==>
      ruleset[category].enabled && SeverityRank(c.severity) >= SeverityRank(ruleset[category].minSeverity)
  }

  predicate Admits(policy: Policy, c: Comment) {
    MeetsConfidence(c.confidence, policy.minConfidence) && MeetsRuleset(c, policy.ruleset) &&
    c.fingerprint !in policy.suppressed
  }

  /** The elements that pass a test, in order. */
  function Keep(xs: seq<Comment>, test: Comment -> bool): (kept: seq<Comment>)
    ensures |kept| <= |xs|
    ensures forall x :: x in kept <==> x in xs && test(x)
  {
    if xs == [] then []
    else
      var init := Keep(xs[..|xs| - 1], test);
      assert xs == xs[..|xs| - 1] + [xs[|xs| - 1]];
      if test(xs[|xs| - 1]) then init + [xs[|xs| - 1]] else init
  }

  lemma KeepNext(xs: seq<Comment>, i: nat, test: Comment -> bool)
    requires i < |xs|
    ensures Keep(xs[..i + 1], test) ==
      if test(xs[i]) then Keep(xs[..i], test) + [xs[i]] else Keep(xs[..i], test)
  {
    assert xs[..i + 1][..i] == xs[..i];
  }

  method ApplyRulesetFilter(comments: seq<Comment>, ruleset: Ruleset) returns (kept: seq<Comment>, dropped: nat)
    ensures kept == Keep(comments, (c: Comment) => MeetsRuleset(c, ruleset))
    ensures dropped == |comments| - |kept|
  {
    var test := (c: Comment) => MeetsRuleset(c, ruleset);
    if ruleset == map[] {
      AllPass(comments, test);
      return comments, 0;
    }
    kept, dropped := [], 0;
    for i := 0 to |comments|
      invariant kept == Keep(comments[..i], test)
      invariant dropped == i - |kept|
    {
      KeepNext(comments, i, test);
      var comment := comments[i];
      var category := if comment.category.Some? then comment.category.value else Bug;
      if category !in ruleset {
        kept := kept + [comment];
        continue;
      }
      var entry := ruleset[category];
      if !entry.enabled {
        dropped := dropped + 1;
        continue;
      }
      if SeverityRank(comment.severity) < SeverityRank(entry.minSeverity) {
        dropped := dropped + 1;
        continue;
      }
      kept := kept + [comment];
    }
    assert comments[..|comments|] == comments;
  }

  method FilterSuppressed(comments: seq<Comment>, suppressed: set<string>) returns (kept: seq<Comment>, dropped: nat)
    ensures kept == Keep(comments, (c: Comment) => c.fingerprint !in suppressed)
    ensures dropped == |comments| - |kept|
  {
    var test := (c: Comment) => c.fingerprint !in suppressed;
    if suppressed == {} {
      AllPass(comments, test);
      return comments, 0;
    }
    kept, dropped := [], 0;
    for i := 0 to |comments|
      invariant kept == Keep(comments[..i], test)
      invariant dropped == i - |kept|
    {
      KeepNext(comments, i, test);
      if comments[i].fingerprint in suppressed {
        dropped := dropped + 1;
      } else {
        kept := kept + [comments[i]];
      }
    }
    assert comments[..|comments|] == comments;
  }

  lemma {:induction false} AllPass(xs: seq<Comment>, test: Comment -> bool)
    requires forall x :: x in xs ==> test(x)
    ensures Keep(xs, test) == xs
  {
    if xs != [] {
      AllPass(xs[..|xs| - 1], test);
    }
  }

  /** Two gates one after the other are one gate asking both questions, so their order does not matter. */
  lemma {:induction false} KeepTwice(xs: seq<Comment>, first: Comment -> bool, second: Comment -> bool, both: Comment -> bool)
    requires forall x :: x in xs ==> (both(x) <==> first(x) && second(x))
    ensures Keep(Keep(xs, first), second) == Keep(xs, both)
  {
    if xs != [] {
      var n := |xs| - 1;
      KeepTwice(xs[..n], first, second, both);
      if first(xs[n]) { KeepSnoc(Keep(xs[..n], first), xs[n], second); }
    }
  }

  lemma KeepSnoc(xs: seq<Comment>, x: Comment, test: Comment -> bool)
    ensures Keep(xs + [x], test) == if test(x) then Keep(xs, test) + [x] else Keep(xs, test)
  {
    assert (xs + [x])[..|xs|] == xs;
  }

  // ----- redaction and the event -----

  function RedactBody(c: Comment, findings: seq<Redaction.Finding>): Comment {
    c.(body := Redaction.Redacted(c.body, findings))
  }

  function RedactBodies(comments: seq<Comment>, findings: seq<Redaction.Finding>): (r: seq<Comment>)
    ensures |r| == |comments|
    ensures forall i :: 0 <= i < |r| ==> r[i] == RedactBody(comments[i], findings)
  {
    seq(|comments|, i requires 0 <= i < |comments| => RedactBody(comments[i], findings))
  }

  method RedactAll(comments: seq<Comment>, findings: seq<Redaction.Finding>) returns (r: seq<Comment>)
    ensures r == RedactBodies(comments, findings)
  {
    r := [];
    for i := 0 to |comments|
      invariant |r| == i && forall k :: 0 <= k < i ==> r[k] == RedactBody(comments[k], findings)
    {
      var body := Redaction.ApplyRedactions(comments[i].body, findings);
      r := r + [comments[i].(body := body)];
    }
  }

  /** A comment severe enough to block the merge. */
  predicate Blocking(c: Comment, threshold: Threshold) {
    match threshold
    case Never => false
    case OnMajor => c.severity.Critical? || c.severity.Major?
    case OnCritical => c.severity.Critical?
  }

  method ComputeReviewEvent(comments: seq<Comment>, threshold: Threshold) returns (event: ReviewEvent)
    ensures event == RequestChanges <==> exists i :: 0 <= i < |comments| && Blocking(comments[i], threshold)
  {
    if threshold == Never {
      return CommentOnly;
    }
    var floor := SeverityRank(if threshold == OnCritical then Critical else Major);
    for i := 0 to |comments|
      invariant forall k :: 0 <= k < i ==> !Blocking(comments[k], threshold)
    {
      if SeverityRank(comments[i].severity) >= floor {
        assert Blocking(comments[i], threshold);
        return RequestChanges;
      }
    }
    return CommentOnly;
  }

  // ----- the whole step -----

  function Bodies(comments: seq<Comment>): (r: seq<string>)
    ensures |r| == |comments|
  {
    seq(|comments|, i requires 0 <= i < |comments| => comments[i].body)
  }

  function ScannedText(summary: string, comments: seq<Comment>): string {
    Strings.Join([summary] + Bodies(comments), "\n\n")
  }

  predicate MustAbort(findings: seq<Redaction.Finding>) {
    |findings| > Redaction.ABORT_THRESHOLD_FINDINGS || exists i :: 0 <= i < |findings| && "high" in findings[i].tags
  }

  function Confident(policy: Policy, comments: seq<Comment>): seq<Comment> {
    Keep(comments, (c: Comment) => MeetsConfidence(c.confidence, policy.minConfidence))
  }

  function Ruled(policy: Policy, comments: seq<Comment>): seq<Comment> {
    Keep(Confident(policy, comments), (c: Comment) => MeetsRuleset(c, policy.ruleset))
  }

  function Admitted(policy: Policy, comments: seq<Comment>): seq<Comment> {
    Keep(comments, (c: Comment) => Admits(policy, c))
  }

  function Findings(policy: Policy, summary: string, comments: seq<Comment>, scan: Redaction.Scan): seq<Redaction.Finding> {
    scan(ScannedText(summary, Admitted(policy, comments)))
  }

  datatype Result =
    | LeakAborted(count: nat)
    | Posted(summary: string, comments: seq<Comment>, event: ReviewEvent, droppedByRuleset: nat, droppedBySuppression: nat)

  /** From the findings that deduplication kept to the posted review. */
  method PublishReview(policy: Policy, summary: string, comments: seq<Comment>, scan: Redaction.Scan) returns (r: Result)
    ensures r.Posted? && Redaction.AlwaysRedactable(scan) ==> HidesReported(policy, summary, comments, scan, r.summary, r.comments)
    ensures r.LeakAborted? <==> MustAbort(Findings(policy, summary, comments, scan))
    ensures r.Posted? ==> r.summary == Redaction.Redacted(summary, Findings(policy, summary, comments, scan))
    ensures r.Posted? ==>
      r.comments == RedactBodies(Admitted(policy, comments), Findings(policy, summary, comments, scan))
    ensures r.LeakAborted? ==> r.count == |Findings(policy, summary, comments, scan)|
    ensures r.Posted? ==> r.droppedByRuleset == |Confident(policy, comments)| - |Ruled(policy, comments)|
    ensures r.Posted? ==> r.droppedBySuppression == |Ruled(policy, comments)| - |r.comments|
    ensures r.Posted? ==> (r.event == RequestChanges <==>
      exists c :: c in Admitted(policy, comments) && Blocking(c, policy.changesOn))
  {
    var confident := Confident(policy, comments);
    var ruled, byRuleset := ApplyRulesetFilter(confident, policy.ruleset);
    var kept, bySuppression := FilterSuppressed(ruled, policy.suppressed);
    GatesCompose(policy, comments);
    var findings := scan(ScannedText(summary, kept));
    var verdict := Redaction.ShouldAbortReview(findings);
    if verdict.abort {
      return LeakAborted(|findings|);
    }
    var text, posted := summary, kept;
    if findings == [] {
      NothingRedacted(kept);
    } else {
      text := Redaction.ApplyRedactions(summary, findings);
      posted := RedactAll(kept, findings);
    }
    var event := ComputeReviewEvent(posted, policy.changesOn);
    BlockingKept(kept, posted, findings, policy.changesOn);
    if Redaction.AlwaysRedactable(scan) { AllReportedGone(policy, summary, comments, scan); }
    return Posted(text, posted, event, byRuleset, bySuppression);
  }

  // ----- who is admitted, told case by case -----

  predicate SureEnough(confidence: Option<Confidence>, floor: Confidence) {
    match floor
    case Low => true
    case Medium => confidence.None? || confidence.value.Medium? || confidence.value.High?
    case High => confidence.None? || confidence.value.High?
  }

  predicate SevereEnough(severity: Severity, floor: Severity) {
    match floor
    case Info => true
    case Minor => !severity.Info?
    case Major => severity.Major? || severity.Critical?
    case Critical => severity.Critical?
  }

  /** The ruleset says nothing of the category `k`, or it is enabled and the comment severe enough for it. */
  predicate RuleAllows(c: Comment, ruleset: Ruleset, k: Category) {
    k !in ruleset || (ruleset[k].enabled && SevereEnough(c.severity, ruleset[k].minSeverity))
  }

  /** What is published: the comments sure enough, allowed by the rule of their category (of bugs, when they name
      none) and not muted. */
  lemma {:induction false} AdmittedExactly(policy: Policy, comments: seq<Comment>, c: Comment)
    ensures c in Admitted(policy, comments) <==>
      (c in comments && SureEnough(c.confidence, policy.minConfidence) && c.fingerprint !in policy.suppressed &&
       match c.category case Some(k) => RuleAllows(c, policy.ruleset, k) case None => RuleAllows(c, policy.ruleset, Bug))
  {
    assert MeetsConfidence(c.confidence, policy.minConfidence) <==> SureEnough(c.confidence, policy.minConfidence);
    forall s: Severity, floor: Severity ensures SeverityRank(s) >= SeverityRank(floor) <==> SevereEnough(s, floor) {
    }
  }

  lemma GatesCompose(policy: Policy, comments: seq<Comment>)
    ensures var ruled := Keep(Confident(policy, comments), (c: Comment) => MeetsRuleset(c, policy.ruleset));
      Keep(ruled, (c: Comment) => c.fingerprint !in policy.suppressed) == Admitted(policy, comments)
  {
    var sure := (c: Comment) => MeetsConfidence(c.confidence, policy.minConfidence);
    var allowed := (c: Comment) => MeetsRuleset(c, policy.ruleset);
    var both := (c: Comment) => MeetsConfidence(c.confidence, policy.minConfidence) && MeetsRuleset(c, policy.ruleset);
    KeepTwice(comments, sure, allowed, both);
    KeepTwice(comments, both, (c: Comment) => c.fingerprint !in policy.suppressed, (c: Comment) => Admits(policy, c));
  }

  lemma NothingRedacted(comments: seq<Comment>)
    ensures RedactBodies(comments, []) == comments
  {
  }

  lemma BlockingKept(kept: seq<Comment>, posted: seq<Comment>, findings: seq<Redaction.Finding>, threshold: Threshold)
    requires posted == RedactBodies(kept, findings)
    ensures (exists i :: 0 <= i < |posted| && Blocking(posted[i], threshold)) <==>
      (exists c :: c in kept && Blocking(c, threshold))
  {
    forall i | 0 <= i < |kept| ensures Blocking(posted[i], threshold) <==> Blocking(kept[i], threshold) {
    }
    if c :| c in kept && Blocking(c, threshold) {
      var i :| 0 <= i < |kept| && kept[i] == c;
      assert Blocking(posted[i], threshold);
    }
  }

  // ----- what the reader of the pull request can rely on -----

  /** No secret that the scan of the outgoing text found is posted, in the summary or in any comment. */
  lemma NothingFoundIsPosted(policy: Policy, summary: string, comments: seq<Comment>, scan: Redaction.Scan)
    requires var findings := Findings(policy, summary, comments, scan);
      Redaction.Redactable(findings) || (Redaction.AllEdgeSafe(findings) && Redaction.SafeOnSecrets(findings))
    ensures var findings := Findings(policy, summary, comments, scan);
      var posted := RedactBodies(Admitted(policy, comments), findings);
      Hides(Redaction.Redacted(summary, findings), findings) &&
      forall i :: 0 <= i < |posted| ==> Hides(posted[i].body, findings)
  {
    var findings := Findings(policy, summary, comments, scan);
    var kept := Admitted(policy, comments);
    forall text: string ensures Redaction.SafeOn(text, findings) {
      if Redaction.Redactable(findings) {
        Redaction.RedactableIsSafe(text, findings);
      } else {
        Redaction.SafeForAllExactly(findings);
      }
    }
    assert Redaction.SafeOn(summary, findings);
    forall i | 0 <= i < |kept| ensures Hides(RedactBodies(kept, findings)[i].body, findings) {
      assert Redaction.SafeOn(kept[i].body, findings);
    }
  }

  /** The text stands in the summary or in a comment that passes every gate. */
  ghost predicate Outgoing(x: string, policy: Policy, summary: string, comments: seq<Comment>) {
    Strings.Occurs(x, summary) || exists c :: c in comments && Admits(policy, c) && Strings.Occurs(x, c.body)
  }

  ghost predicate NowhereIn(x: string, summary: string, comments: seq<Comment>) {
    !Strings.Occurs(x, summary) && forall i :: 0 <= i < |comments| ==> !Strings.Occurs(x, comments[i].body)
  }

  /** What the scanner always reports is nowhere in the post, if it was in what goes out or no token can complete it. */
  ghost predicate HidesReported(policy: Policy, summary: string, comments: seq<Comment>, scan: Redaction.Scan, text: string,
      posted: seq<Comment>)
  {
    forall x | Redaction.Reported(scan, x) && (Outgoing(x, policy, summary, comments) || Redaction.NeverCompleted(scan, x)) ::
      NowhereIn(x, text, posted)
  }

  lemma AllReportedGone(policy: Policy, summary: string, comments: seq<Comment>, scan: Redaction.Scan)
    requires Redaction.AlwaysRedactable(scan)
    ensures var findings := Findings(policy, summary, comments, scan);
      HidesReported(policy, summary, comments, scan, Redaction.Redacted(summary, findings),
        RedactBodies(Admitted(policy, comments), findings))
  {
    forall x | Redaction.Reported(scan, x) && (Outgoing(x, policy, summary, comments) || Redaction.NeverCompleted(scan, x))
      ensures var findings := Findings(policy, summary, comments, scan);
        NowhereIn(x, Redaction.Redacted(summary, findings), RedactBodies(Admitted(policy, comments), findings))
    {
      ReportedIsGone(policy, summary, comments, scan, x);
    }
  }

  /** What goes out is scanned, all of it. */
  lemma OutgoingIsScanned(policy: Policy, summary: string, comments: seq<Comment>, x: string)
    requires Outgoing(x, policy, summary, comments)
    ensures Strings.Occurs(x, ScannedText(summary, Admitted(policy, comments)))
  {
    var kept := Admitted(policy, comments);
    var parts := [summary] + Bodies(kept);
    if Strings.Occurs(x, summary) {
      Strings.JoinHasParts(parts, 0, "\n\n");
      Strings.OccursThrough(x, summary, ScannedText(summary, kept));
    } else {
      var c :| c in comments && Admits(policy, c) && Strings.Occurs(x, c.body);
      var k :| 0 <= k < |kept| && kept[k] == c;
      Strings.JoinHasParts(parts, k + 1, "\n\n");
      Strings.OccursThrough(x, c.body, ScannedText(summary, kept));
    }
  }

  /** A text that the scanner always reports is gone from the post when it was in what goes out, and also when no token
      can complete it. */
  lemma ReportedIsGone(policy: Policy, summary: string, comments: seq<Comment>, scan: Redaction.Scan, x: string)
    requires Redaction.Reported(scan, x) && Redaction.AlwaysRedactable(scan)
    ensures Outgoing(x, policy, summary, comments) || Redaction.NeverCompleted(scan, x) ==>
      var findings := Findings(policy, summary, comments, scan);
      NowhereIn(x, Redaction.Redacted(summary, findings), RedactBodies(Admitted(policy, comments), findings))
  {
    var findings, kept := Findings(policy, summary, comments, scan), Admitted(policy, comments);
    var text := ScannedText(summary, kept);
    if Outgoing(x, policy, summary, comments) {
      OutgoingIsScanned(policy, summary, comments, x);
      assert Redaction.Finds(scan(text), x);
      Redaction.FoundIsGone(summary, findings, x);
      forall i | 0 <= i < |kept| ensures !Strings.Occurs(x, Redaction.Redacted(kept[i].body, findings)) {
        Redaction.FoundIsGone(kept[i].body, findings, x);
      }
    } else if Redaction.NeverCompleted(scan, x) {
      assert forall i | 0 <= i < |findings| :: Redaction.Apart(x, Redaction.TokenFor(scan(text)[i]));
      Redaction.StaysGone(x, summary, findings);
      forall i | 0 <= i < |kept| ensures !Strings.Occurs(x, Redaction.Redacted(kept[i].body, findings)) {
        assert kept[i] in kept;
        Redaction.StaysGone(x, kept[i].body, findings);
      }
    }
  }

  // ----- the second condition is needed -----

  function Contains(x: string, t: string): bool {
    x <= t || (t != "" && Contains(x, t[1..]))
  }

  lemma {:induction false} ContainsIsOccurs(x: string, t: string)
    ensures Contains(x, t) <==> Strings.Occurs(x, t)
    decreases |t|
  {
    assert t[0..] == t;
    if x <= t {
      assert Strings.At(x, t, 0);
    } else if t != "" {
      ContainsIsOccurs(x, t[1..]);
      if Strings.Occurs(x, t) { Redaction.OccursLater(t, x); }
      if Strings.Occurs(x, t[1..]) { Strings.OccursInSuffix(x, t, 1); }
    }
  }

  /** A scanner with two rules, each for one text. */
  function TwoRules(f: Redaction.Finding, g: Redaction.Finding): Redaction.Scan {
    t => (if Contains(f.secret, t) then [f] else []) + (if Contains(g.secret, t) then [g] else [])
  }

  lemma TwoRulesFind(f: Redaction.Finding, g: Redaction.Finding, t: string)
    ensures TwoRules(f, g)(t) ==
      (if Strings.Occurs(f.secret, t) then [f] else []) + (if Strings.Occurs(g.secret, t) then [g] else [])
  {
    ContainsIsOccurs(f.secret, t);
    ContainsIsOccurs(g.secret, t);
  }

  lemma TwoRulesRedactable(f: Redaction.Finding, g: Redaction.Finding)
    requires g.secret != "" && Redaction.AloneSafe(f) && Redaction.AloneSafe(g) && Redaction.ApartFrom(Redaction.TokenFor(g), f)
    ensures Redaction.Reported(TwoRules(f, g), g.secret) && Redaction.AlwaysRedactable(TwoRules(f, g))
  {
    var scan := TwoRules(f, g);
    forall t: string ensures Redaction.Redactable(scan(t)) && (Strings.Occurs(g.secret, t) ==> Redaction.Finds(scan(t), g.secret)) {
      TwoRulesFind(f, g, t);
      if Strings.Occurs(g.secret, t) { assert scan(t)[|scan(t)| - 1] == g; }
    }
  }

  /** A scanner whose findings can always be redacted, and a text it always reports: the text is nowhere in what goes out
      and yet in the post, because the token of another finding completes it. */
  lemma TokenCanComplete(policy: Policy)
    ensures var f, g := Redaction.Finding("r", "q", []), Redaction.Finding("k", "r]b", []);
      var scan := TwoRules(f, g);
      && Redaction.Reported(scan, "r]b") && Redaction.AlwaysRedactable(scan) && !Outgoing("r]b", policy, "qb", [])
      && Strings.Occurs("r]b", Redaction.Redacted("qb", Findings(policy, "qb", [], scan)))
  {
    var f, g := Redaction.Finding("r", "q", []), Redaction.Finding("k", "r]b", []);
    ExampleIsRedactable(f, g);
    TwoRulesRedactable(f, g);
    assert !Strings.Occurs("r]b", "qb") by { forall i: nat ensures !Strings.At("r]b", "qb", i) { } }
    assert Strings.Occurs("q", "qb") by { assert "qb"[0..] == "qb" && Strings.At("q", "qb", 0); }
    TwoRulesFind(f, g, "qb");
    assert Bodies([]) == [] && ["qb"] + [] == ["qb"];
    assert Findings(policy, "qb", [], TwoRules(f, g)) == [f];
    ExampleRedacted(f);
  }

  lemma ExampleRedacted(f: Redaction.Finding)
    requires f == Redaction.Finding("r", "q", [])
    ensures Strings.Occurs("r]b", Redaction.Redacted("qb", [f]))
  {
    var token := Redaction.TokenFor(f);
    assert "q" + "b" == "qb" && [f][1..] == [];
    Strings.ReplaceHit("b", "q", token);
    AbsentLetter("q", 'q', "b");
    Redaction.NothingToReplace("b", "q", token);
    assert Redaction.Redacted("qb", [f]) == Redaction.Redacted(token + "b", []) == token + "b";
    assert (token + "b")[|token| - 2..] == "r]b";
    assert Strings.At("r]b", token + "b", |token| - 2);
  }

  lemma ExampleIsRedactable(f: Redaction.Finding, g: Redaction.Finding)
    requires f == Redaction.Finding("r", "q", []) && g == Redaction.Finding("k", "r]b", [])
    ensures Redaction.AloneSafe(f) && Redaction.AloneSafe(g) && Redaction.ApartFrom(Redaction.TokenFor(g), f)
  {
    var s, t := Redaction.TokenFor(f), Redaction.TokenFor(g);
    Redaction.TokenShape(f);
    Redaction.TokenShape(g);
    assert 'q' !in s && 'q' !in t && 'b' !in t;
    AbsentLetter("q", 'q', s);
    AbsentLetter("q", 'q', t);
    AbsentLetter("r]b", 'b', t);
    Redaction.EdgeSafeIsApart("q", s);
    Redaction.EdgeSafeIsApart("q", t);
    Redaction.ApartIsAlone("q", s);
    ExampleApart(t);
    Redaction.ApartIsAlone("r]b", t);
  }

  lemma AbsentLetter(x: string, c: char, t: string)
    requires c in x && c !in t
    ensures !Strings.Occurs(x, t)
  {
    var k :| 0 <= k < |x| && x[k] == c;
    forall i: nat ensures !Strings.At(x, t, i) {
      if i <= |t| && |x| <= |t| - i { assert t[i..][k] == t[i + k]; }
    }
  }

  lemma ExampleApart(t: string)
    requires t == "[REDACTED:" + "k" + "]" && !Strings.Occurs("r]b", t)
    ensures Redaction.Apart("r]b", t)
  {
    forall i: nat ensures !Strings.At(t, "r]b", i) { }
    forall k: nat | 0 < k < 3 ensures !Redaction.EndsWith(t, "r]b", k) && !Redaction.BeginsWith(t, "r]b", k) {
      assert "r]b"[..k][0] == 'r' && "r]b"[k..][0] == "r]b"[k];
    }
  }

  ghost predicate Hides(text: string, findings: seq<Redaction.Finding>) {
    Redaction.NoneBefore(findings, |findings|, text)
  }

  /** The stricter policy lets through no comment that the other does not. */
  predicate Stricter(strict: Policy, loose: Policy) {
    ConfidenceRank(loose.minConfidence) <= ConfidenceRank(strict.minConfidence) &&
    loose.suppressed <= strict.suppressed &&
    forall k :: k in loose.ruleset ==> k in strict.ruleset && (strict.ruleset[k].enabled ==>
      loose.ruleset[k].enabled &&
      SeverityRank(loose.ruleset[k].minSeverity) <= SeverityRank(strict.ruleset[k].minSeverity))
  }

  /** Tightening any knob only removes comments: what is left is what filtering the looser outcome again leaves. */
  lemma StricterOnlyRemoves(strict: Policy, loose: Policy, comments: seq<Comment>)
    requires Stricter(strict, loose)
    ensures Admitted(strict, comments) == Admitted(strict, Admitted(loose, comments))
    ensures forall c :: c in Admitted(strict, comments) ==> c in Admitted(loose, comments)
  {
    var tests := ((c: Comment) => Admits(loose, c), (c: Comment) => Admits(strict, c));
    KeepTwice(comments, tests.0, tests.1, tests.1);
  }

  /** From the reactions to the next review: with the rules that an undisturbed run of feedback leaves, a comment that
      deduplication kept and that meets the floors is posted exactly when it was rejected fewer times than the threshold. */
  lemma PostedExactlyUnlessRejected(policy: Policy, comments: seq<Comment>, c: Comment, scan: Redaction.Scan,
      threshold: nat, ops: seq<Feedback.Op>, key: Feedback.RepoKey, start: int, now: int)
    requires threshold >= 1 && Feedback.HexEvents(ops) && Feedback.Undisturbed(ops) && Feedback.IsHex(c.fingerprint)
    requires Feedback.InOrder(ops, start, now) && now < start + Feedback.TTL
    requires policy.suppressed == Feedback.Suppressed(Feedback.Run(Feedback.EMPTY, scan, threshold, ops).rows, key, now)
    requires c in comments && MeetsConfidence(c.confidence, policy.minConfidence) && MeetsRuleset(c, policy.ruleset)
    ensures c in Admitted(policy, comments) <==> Feedback.RejectingEvents(ops, key, c.fingerprint) < threshold
  {
    Feedback.MutedExactlyWhenRejected(scan, threshold, ops, key, c.fingerprint, start, now);
  }
}
