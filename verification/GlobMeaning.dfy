/** The set of paths a glob stands for, defined on the pattern itself, and the proof that the
    compiled regular expression matches exactly those paths. */
module GlobMeaning {
  import opened Strings
  import opened Glob
  import opened GlobClash
  import opened GlobRegex

  /** A path prefix that `**` may cover; JavaScript's `.` stops at line terminators. */
  predicate Crossable(u: string, lines: bool) {
    lines || OneLine(u)
  }

  /** Whole segments: nothing, or text that ends with a slash. */
  predicate WholeSegments(u: string) {
    u == "" || u[|u| - 1] == '/'
  }

  /** The paths a token list stands for. With `lines` set, a double star covers any text, as
      documented; without it, it does not cover line terminators, as compiled. */
  ghost predicate Denotes(ts: seq<Token>, s: string, lines: bool)
    decreases |ts|
  {
    if ts == [] then s == ""
    else
      match ts[0]
      case Lit(c) => s != "" && s[0] == c && Denotes(ts[1..], s[1..], lines)
      case Star => exists k | 0 <= k <= |s| :: '/' !in s[..k] && Denotes(ts[1..], s[k..], lines)
      case DoubleStar => exists k | 0 <= k <= |s| :: Crossable(s[..k], lines) && Denotes(ts[1..], s[k..], lines)
      case DoubleDir => exists k | 0 <= k <= |s| ::
        WholeSegments(s[..k]) && Crossable(s[..k], lines) && Denotes(ts[1..], s[k..], lines)
  }

  // ----- what the building blocks match -----

  lemma {:induction false} ManyDot(s: string)
    ensures Matches(ANY_RE, s) <==> OneLine(s)
    decreases |s|
  {
    if s != "" {
      forall k | 0 < k <= |s| {
        ManyDot(s[k..]);
      }
      if OneLine(s) {
        assert Matches(Dot, s[..1]) && Matches(ANY_RE, s[1..]);
      }
      if Matches(ANY_RE, s) {
        var k :| 0 < k <= |s| && Matches(Dot, s[..k]) && Matches(ANY_RE, s[k..]);
        assert s == s[..k] + s[k..];
      }
    }
  }

  lemma {:induction false} ManyNotSlash(s: string)
    ensures Matches(STAR_RE, s) <==> '/' !in s
    decreases |s|
  {
    if s != "" {
      forall k | 0 < k <= |s| {
        ManyNotSlash(s[k..]);
      }
      if '/' !in s {
        assert Matches(NotSlash, s[..1]) && Matches(STAR_RE, s[1..]);
      }
      if Matches(STAR_RE, s) {
        var k :| 0 < k <= |s| && Matches(NotSlash, s[..k]) && Matches(STAR_RE, s[k..]);
        assert s == s[..k] + s[k..];
      }
    }
  }

  lemma CatChr(c: char, r: Re, s: string)
    ensures Matches(Cat(Chr(c), r), s) <==> s != "" && s[0] == c && Matches(r, s[1..])
  {
    if s != "" && s[0] == c && Matches(r, s[1..]) {
      assert Matches(Chr(c), s[..1]);
    }
  }

  lemma DirSegments(s: string)
    ensures Matches(DIR_RE, s) <==> WholeSegments(s) && OneLine(s)
  {
    if s != "" {
      if WholeSegments(s) && OneLine(s) { DirBody(s); }
      if Matches(DIR_RE.body, s) { DirBodyEnds(s); }
    }
  }

  lemma DirBody(s: string)
    requires s != "" && s[|s| - 1] == '/' && OneLine(s)
    ensures Matches(DIR_RE.body, s)
  {
    var k := |s| - 1;
    ManyDot(s[..k]);
    CatChr('/', Eps, s[k..]);
  }

  lemma DirBodyEnds(s: string)
    requires Matches(DIR_RE.body, s)
    ensures s != "" && s[|s| - 1] == '/' && OneLine(s)
  {
    var k :| 0 <= k <= |s| && Matches(ANY_RE, s[..k]) && Matches(Cat(Chr('/'), Eps), s[k..]);
    ManyDot(s[..k]);
    CatChr('/', Eps, s[k..]);
    assert s == s[..k] + ['/'];
  }

  // ----- what the code reads -----

  /** What a wildcard can cover, as compiled. */
  predicate Covers(t: Token, u: string) {
    match t
    case Lit(c) => u == [c]
    case Star => '/' !in u
    case DoubleStar => OneLine(u)
    case DoubleDir => WholeSegments(u) && OneLine(u)
  }

  /** The paths a token list with question marks stands for, as compiled: a literal with a mark behind it is optional, a
      mark behind a wildcard changes nothing. */
  ghost predicate Reads(ts: seq<Token>, s: string)
    decreases |ts|
  {
    if ts == [] then s == ""
    else
      (Quantified(ts) && Reads(AfterTerm(ts), s)) ||
      exists k | 0 <= k <= |s| :: Covers(ts[0], s[..k]) && Reads(AfterTerm(ts), s[k..])
  }

  lemma TokenCovers(t: Token, u: string)
    ensures Matches(TokenRe(t), u) <==> Covers(t, u)
  {
    match t {
      case Lit(c) =>
      case Star => ManyNotSlash(u);
      case DoubleStar => ManyDot(u);
      case DoubleDir => DirSegments(u);
    }
  }

  /** The parsed regular expression matches exactly what the tokens are read as. */
  lemma {:induction false} ReReads(ts: seq<Token>, s: string)
    requires TokensRe(ts).Regex?
    ensures Matches(TokensRe(ts).re, s) <==> Reads(ts, s)
    decreases |ts|
  {
    if ts != [] {
      var rest := AfterTerm(ts);
      var more := TokensRe(rest).re;
      assert TokensRe(ts).re == Cat(TermRe(ts), more);
      forall k | 0 <= k <= |s| ensures Matches(more, s[k..]) <==> Reads(rest, s[k..]) {
        ReReads(rest, s[k..]);
      }
      TermReads(ts, more, s);
    }
  }

  lemma TermReads(ts: seq<Token>, more: Re, s: string)
    requires ts != []
    requires forall k | 0 <= k <= |s| :: Matches(more, s[k..]) <==> Reads(AfterTerm(ts), s[k..])
    ensures Matches(Cat(TermRe(ts), more), s) <==> Reads(ts, s)
  {
    var re := TokenRe(ts[0]);
    forall k | 0 <= k <= |s| ensures Matches(re, s[..k]) <==> Covers(ts[0], s[..k]) {
      TokenCovers(ts[0], s[..k]);
    }
    assert s[..0] == "" && s[0..] == s;
    if Quantified(ts) {
      forall k | 0 <= k <= |s| ensures Matches(Opt(re), s[..k]) <==> k == 0 || Matches(re, s[..k]) {
      }
      assert Matches(Opt(re), s[..0]);
    }
  }

  lemma {:induction false} ReadsAsDenoted(ts: seq<Token>, s: string)
    requires Lit('?') !in ts
    ensures Reads(ts, s) <==> Denotes(ts, s, false)
    decreases |ts|
  {
    if ts != [] {
      assert |ts| > 1 ==> ts[1] in ts;
      assert AfterTerm(ts) == ts[1..];
      forall k | 0 <= k <= |s| ensures Reads(ts[1..], s[k..]) <==> Denotes(ts[1..], s[k..], false) {
        ReadsAsDenoted(ts[1..], s[k..]);
      }
      if ts[0].Lit? && s != "" && s[0] == ts[0].c { assert s[..1] == [ts[0].c]; }
    }
  }

  lemma {:induction false} MarkFreeFits(ts: seq<Token>, room: nat)
    requires Lit('?') !in ts
    ensures MarksFit(ts, room)
    decreases |ts|
  {
    if ts != [] {
      MarkFreeFits(ts[1..], if ts[0].Lit? then 2 else 1);
    }
  }

  lemma {:induction false} LitsFromSource(c: char, p: string)
    requires c !in p && c != '*' && c != '/'
    ensures Lit(c) !in Tokens(p)
    decreases |p|
  {
    if p != "" { LitsFromSource(c, AfterToken(p)); }
  }

  /** Every pattern and every path: what the compiled pattern matches is what its emitted tokens are read as. */
  lemma GlobMatchesExactly(p: string, s: string)
    requires GlobToRegExp(p).Regex?
    ensures Matches(GlobToRegExp(p).re, s) <==> Reads(Emitted(Tokens(p)), s)
  {
    CompileIsTokens(p);
    ReReads(Emitted(Tokens(p)), s);
  }

  lemma MarkFreeCompiles(p: string)
    requires p != "" && '\0' !in p && '?' !in p
    ensures Lit('?') !in Emitted(Tokens(p)) && GlobToRegExp(p).Regex?
  {
    LitsFromSource('?', p);
    assert ['?'][0] == '?';
    EmittedKeeps('?', Tokens(p));
    MarkFreeFits(Emitted(Tokens(p)), 0);
    CompileIsTokens(p);
    CompilesExactly(Emitted(Tokens(p)));
  }

  /** The compiled core glob matches exactly the paths its pattern denotes. */
  lemma GlobMatchesItsMeaning(p: string, s: string)
    requires p != "" && '\0' !in p && ClashFree(p) && '?' !in p
    ensures GlobToRegExp(p).Regex?
    ensures Matches(GlobToRegExp(p).re, s) <==> Denotes(Tokens(p), s, false)
    ensures OneLine(s) ==> (Matches(GlobToRegExp(p).re, s) <==> Denotes(Tokens(p), s, true))
  {
    MarkFreeCompiles(p);
    GlobMatchesExactly(p, s);
    EmittedExactly(Tokens(p));
    ReadsAsDenoted(Tokens(p), s);
    if OneLine(s) { OneLineSame(Tokens(p), s); }
  }

  lemma {:induction false} OneLineSame(ts: seq<Token>, s: string)
    requires OneLine(s)
    ensures Denotes(ts, s, true) <==> Denotes(ts, s, false)
    decreases |ts|
  {
    if ts != [] {
      forall k | 0 <= k <= |s|
        ensures OneLine(s[..k])
        ensures Denotes(ts[1..], s[k..], true) <==> Denotes(ts[1..], s[k..], false)
      {
        assert s == s[..k] + s[k..];
        OneLineSame(ts[1..], s[k..]);
      }
    }
  }

  // ----- the literals of a pattern -----

  /** The literals of a token list without question marks: every wildcard taken as empty. */
  function Skeleton(ts: seq<Token>): string {
    if ts == [] then ""
    else if ts[0].Lit? && ts[0].c != '?' then [ts[0].c] + Skeleton(ts[1..])
    else Skeleton(ts[1..])
  }

  lemma SkeletonAfterMark(ts: seq<Token>)
    ensures Skeleton(AfterMark(ts)) == Skeleton(ts)
  {
  }

  lemma {:induction false} SkeletonMatches(ts: seq<Token>)
    requires TokensRe(ts).Regex?
    ensures Matches(TokensRe(ts).re, Skeleton(ts))
    decreases |ts|
  {
    if ts != [] {
      var rest := AfterTerm(ts);
      SkeletonMatches(rest);
      var u := if ts[0].Lit? then [ts[0].c] else "";
      assert Skeleton(ts) == u + Skeleton(rest) by {
        SkeletonAfterMark(ts[1..]);
        if Quantified(ts) {
          assert ts[1..][1..] == ts[2..];
          SkeletonAfterMark(ts[2..]);
        }
      }
      assert Matches(TermRe(ts), u);
      var s := Skeleton(ts);
      assert s[..|u|] == u && s[|u|..] == Skeleton(rest);
    }
  }

  lemma {:induction false} SkeletonHasOnlyLits(c: char, ts: seq<Token>)
    requires Lit(c) !in ts || c == '?'
    ensures c !in Skeleton(ts)
  {
    if ts != [] { SkeletonHasOnlyLits(c, ts[1..]); }
  }

  /** Every path a token list stands for has its literals in it. */
  lemma {:induction false} DenotedHasLits(c: char, ts: seq<Token>, s: string, lines: bool)
    requires Lit(c) in ts && Denotes(ts, s, lines)
    ensures c in s
    decreases |ts|
  {
    if Lit(c) in ts[1..] {
      var k :| 0 <= k <= |s| && Denotes(ts[1..], s[k..], lines);
      DenotedHasLits(c, ts[1..], s[k..], lines);
    }
  }

  lemma {:induction false} ShortestDenoted(ts: seq<Token>, lines: bool)
    ensures Denotes(ts, Shortest(ts), lines)
  {
    if ts != [] {
      ShortestDenoted(ts[1..], lines);
      var s := Shortest(ts);
      if ts[0].Lit? { assert s[1..] == Shortest(ts[1..]); } else { assert s[0..] == s == Shortest(ts[1..]); }
    }
  }

  /** No other denoted path is as short. */
  lemma {:induction false} ShortestIsLeast(ts: seq<Token>, s: string, lines: bool)
    requires Denotes(ts, s, lines)
    ensures |Shortest(ts)| <= |s| && (|Shortest(ts)| == |s| ==> Shortest(ts) == s)
    decreases |ts|
  {
    if ts != [] {
      var k := FirstCovers(ts, s, lines);
      ShortestIsLeast(ts[1..], s[k..], lines);
      if ts[0].Lit? { assert s == [ts[0].c] + s[1..]; }
      if k == 0 { assert s[0..] == s; }
    }
  }

  /** How much of a path the first token covers. */
  lemma FirstCovers(ts: seq<Token>, s: string, lines: bool) returns (k: nat)
    requires ts != [] && Denotes(ts, s, lines)
    ensures k <= |s| && Denotes(ts[1..], s[k..], lines) && (ts[0].Lit? ==> k == 1 && s[0] == ts[0].c)
  {
    if ts[0].Lit? {
      k := 1;
    } else {
      k :| 0 <= k <= |s| && Denotes(ts[1..], s[k..], lines);
    }
  }

  lemma {:induction false} ShortestHasOnlyLits(c: char, ts: seq<Token>)
    requires Lit(c) !in ts
    ensures c !in Shortest(ts)
  {
    if ts != [] { ShortestHasOnlyLits(c, ts[1..]); }
  }

  lemma {:induction false} MarkIsToken(p: string)
    requires '?' in p
    ensures Lit('?') in Tokens(p)
    decreases |p|
  {
    if p[0] != '?' {
      MarkIsToken(AfterToken(p));
      assert Tokens(p)[1..] == Tokens(AfterToken(p));
    }
  }

  /** The literals of a one-line pattern, and those of what the code emits for it, are one-line paths. */
  lemma OneLineLiterals(p: string)
    requires OneLine(p)
    ensures var es := Emitted(Tokens(p)); OneLine(Shortest(Tokens(p))) && OneLine(Shortest(es)) && OneLine(Skeleton(es))
  {
    forall c: char | IsLineTerminator(c)
      ensures c !in Shortest(Tokens(p)) && c !in Shortest(Emitted(Tokens(p))) && c !in Skeleton(Emitted(Tokens(p)))
    {
      assert [c][0] == c && c !in p;
      LitsFromSource(c, p);
      EmittedKeeps(c, Tokens(p));
      ShortestHasOnlyLits(c, Tokens(p));
      ShortestHasOnlyLits(c, Emitted(Tokens(p)));
      SkeletonHasOnlyLits(c, Emitted(Tokens(p)));
    }
  }

  // ----- when a pattern matches what it says -----

  /** The code accepts the pattern and reads its tokens as they are. */
  predicate Plainly(p: string) {
    p != "" && '\0' !in p && '?' !in p && ClashFree(p)
  }

  /** The compiled pattern and the pattern's own reading agree on a path. */
  ghost predicate AgreeOn(p: string, s: string, lines: bool) {
    GlobToRegExp(p).Regex? && (Matches(GlobToRegExp(p).re, s) <==> Denotes(Tokens(p), s, lines))
  }

  /** The pattern matches exactly what it is documented to match. */
  ghost predicate MatchesItsMeaning(p: string) {
    forall s :: AgreeOn(p, s, true)
  }

  /** The same for paths without line terminators. */
  ghost predicate MatchesOnLines(p: string) {
    forall s | OneLine(s) :: AgreeOn(p, s, true)
  }

  /** The same on all paths, but with double stars that stop at line terminators. */
  ghost predicate MatchesWithinLines(p: string) {
    forall s :: AgreeOn(p, s, false)
  }

  /** A question mark is never the literal that the documentation makes of it, and a false marker leaves other literals
      than the pattern's: on one of these three paths the two readings part. */
  lemma ReadingsPart(p: string, lines: bool)
    requires !Plainly(p)
    ensures var ts, es := Tokens(p), Emitted(Tokens(p));
      !AgreeOn(p, Shortest(ts), lines) || !AgreeOn(p, Shortest(es), lines) || !AgreeOn(p, Skeleton(es), lines)
  {
    if GlobToRegExp(p).Regex? {
      if '?' in p { MarkParts(p, lines); } else { ClashParts(p, lines); }
    }
  }

  lemma MarkParts(p: string, lines: bool)
    requires GlobToRegExp(p).Regex? && '?' in p
    ensures !AgreeOn(p, Skeleton(Emitted(Tokens(p))), lines)
  {
    var ts, es := Tokens(p), Emitted(Tokens(p));
    CompileIsTokens(p);
    MarkIsToken(p);
    SkeletonMatches(es);
    SkeletonHasOnlyLits('?', es);
    if Denotes(ts, Skeleton(es), lines) { DenotedHasLits('?', ts, Skeleton(es), lines); }
  }

  lemma ClashParts(p: string, lines: bool)
    requires GlobToRegExp(p).Regex? && '?' !in p && MarkersClash(Tokens(p))
    ensures !AgreeOn(p, Shortest(Tokens(p)), lines) || !AgreeOn(p, Shortest(Emitted(Tokens(p))), lines)
  {
    var ts, es := Tokens(p), Emitted(Tokens(p));
    LiteralsExactly(ts);
    ShortestDenoted(ts, lines);
    ShortestDenoted(es, false);
    EmittedMatches(p, Shortest(ts));
    EmittedMatches(p, Shortest(es));
    if Denotes(ts, Shortest(es), lines) && Denotes(es, Shortest(ts), false) {
      ShortestIsLeast(ts, Shortest(es), lines);
      ShortestIsLeast(es, Shortest(ts), false);
    }
  }

  lemma EmittedMatches(p: string, s: string)
    requires GlobToRegExp(p).Regex? && '?' !in p
    ensures Matches(GlobToRegExp(p).re, s) <==> Denotes(Emitted(Tokens(p)), s, false)
  {
    GlobMatchesExactly(p, s);
    LitsFromSource('?', p);
    assert ['?'][0] == '?';
    EmittedKeeps('?', Tokens(p));
    ReadsAsDenoted(Emitted(Tokens(p)), s);
  }

  lemma PlainAgrees(p: string, s: string)
    requires Plainly(p)
    ensures AgreeOn(p, s, false) && (OneLine(s) ==> AgreeOn(p, s, true))
  {
    GlobMatchesItsMeaning(p, s);
  }

  /** Up to the line terminators: every pattern matches what it says exactly when the code accepts it, it has no question
      mark and it spells no false marker. */
  lemma MeaningWithinLinesExactly(p: string)
    ensures MatchesWithinLines(p) <==> Plainly(p)
  {
    if Plainly(p) {
      forall s: string ensures AgreeOn(p, s, false) { PlainAgrees(p, s); }
    } else {
      ReadingsPart(p, false);
    }
  }

  /** The same for the documented meaning, of one-line patterns on one-line paths. */
  lemma MeaningOnLinesExactly(p: string)
    requires OneLine(p)
    ensures MatchesOnLines(p) <==> Plainly(p)
  {
    if Plainly(p) {
      forall s: string | OneLine(s) ensures AgreeOn(p, s, true) { PlainAgrees(p, s); }
    } else {
      ReadingsPart(p, true);
      OneLineLiterals(p);
    }
  }

  // ----- what a double star leaves out -----

  /** How often a line feed stands directly before a slash. */
  function Pairs(s: string): nat {
    if |s| < 2 then 0 else (if s[0] == '\n' && s[1] == '/' then 1 else 0) + Pairs(s[1..])
  }

  lemma {:induction false} PairsConcat(u: string, v: string)
    ensures Pairs(u) + Pairs(v) <= Pairs(u + v) <= Pairs(u) + Pairs(v) + 1
  {
    if u == "" {
      assert u + v == v;
    } else {
      PairsConcat(u[1..], v);
      assert (u + v)[1..] == u[1..] + v;
      if |u| == 1 { assert u[1..] + v == v; } else { assert (u + v)[1] == u[1]; }
    }
  }

  lemma {:induction false} NoPairs(u: string)
    requires '/' !in u || '\n' !in u
    ensures Pairs(u) == 0
  {
    if |u| >= 2 { NoPairs(u[1..]); }
  }

  /** As compiled, a token covers no such pair by itself. */
  lemma {:induction false} FewPairs(ts: seq<Token>, s: string)
    requires Denotes(ts, s, false)
    ensures Pairs(s) <= |ts|
    decreases |ts|
  {
    if ts != [] {
      var k :| 0 <= k <= |s| && Denotes(ts[1..], s[k..], false) && ('/' !in s[..k] || '\n' !in s[..k]);
      FewPairs(ts[1..], s[k..]);
      NoPairs(s[..k]);
      PairsConcat(s[..k], s[k..]);
      assert s == s[..k] + s[k..];
    }
  }

  function Block(n: nat): string {
    if n == 0 then "" else ['\n', '/'] + Block(n - 1)
  }

  lemma {:induction false} BlockPairs(n: nat)
    ensures Pairs(Block(n)) >= n && WholeSegments(Block(n))
  {
    if n > 0 {
      BlockPairs(n - 1);
      assert ['\n', '/'][1..] == ['/'];
      PairsConcat(['\n', '/'], Block(n - 1));
    }
  }

  /** A path of the documented reading that has a given block where the first double star is. */
  lemma {:induction false} Padded(ts: seq<Token>, block: string) returns (s: string)
    requires (DoubleStar in ts || DoubleDir in ts) && WholeSegments(block)
    ensures Denotes(ts, s, true) && Pairs(s) >= Pairs(block)
  {
    if ts[0].DoubleStar? || ts[0].DoubleDir? {
      var v := Shortest(ts[1..]);
      ShortestDenoted(ts[1..], true);
      PairsConcat(block, v);
      s := block + v;
      assert s[..|block|] == block && s[|block|..] == v;
    } else {
      var r := Padded(ts[1..], block);
      var u := if ts[0].Lit? then [ts[0].c] else "";
      PairsConcat(u, r);
      s := u + r;
      assert s[|u|..] == r && s[..|u|] == u;
    }
  }

  lemma {:induction false} DoubleStarOccurs(p: string)
    ensures Occurs("**", p) <==> DoubleStar in Tokens(p) || DoubleDir in Tokens(p)
    decreases |p|
  {
    if p == "" {
      forall i: nat ensures !At("**", p, i) { }
    } else {
      DoubleStarOccurs(AfterToken(p));
      DoubleStarStep(p);
    }
  }

  lemma DoubleStarStep(p: string)
    requires p != ""
    ensures var t, q := FirstToken(p), AfterToken(p);
      && (t.DoubleStar? || t.DoubleDir? || Occurs("**", q) ==> Occurs("**", p))
      && (Occurs("**", p) ==> t.DoubleStar? || t.DoubleDir? || Occurs("**", q))
  {
    var t, q := FirstToken(p), AfterToken(p);
    assert p[0..] == p && q[0..] == q;
    var n := |p| - |q|;
    assert q == p[n..];
    if Occurs("**", q) { OccursInSuffix("**", p, n); }
    if t.DoubleStar? || t.DoubleDir? {
      assert At("**", p, 0);
    } else if i: nat :| At("**", p, i) {
      if i == 0 {
        assert At("**", q, 0);
      } else {
        assert p[i..] == q[i - 1..] && At("**", q, i - 1);
      }
    }
  }

  /** A double star of the code stops at line terminators, and no other wildcard makes up for it. */
  lemma DoubleStarMissesLines(p: string)
    requires Plainly(p) && Occurs("**", p)
    ensures !MatchesItsMeaning(p)
  {
    var ts := Tokens(p);
    var block := Block(|ts| + 1);
    DoubleStarOccurs(p);
    BlockPairs(|ts| + 1);
    var s := Padded(ts, block);
    if Denotes(ts, s, false) { FewPairs(ts, s); }
    PlainAgrees(p, s);
    assert !AgreeOn(p, s, true);
  }

  /** Every pattern matches exactly its documented meaning, on all paths, exactly when the code accepts it, it has no
      question mark, spells no false marker and has no double star. */
  lemma MeaningExactly(p: string)
    ensures MatchesItsMeaning(p) <==> Plainly(p) && !Occurs("**", p)
  {
    if !Plainly(p) {
      ReadingsPart(p, true);
    } else if Occurs("**", p) {
      DoubleStarMissesLines(p);
    } else {
      DoubleStarOccurs(p);
      forall s: string ensures AgreeOn(p, s, true) {
        PlainAgrees(p, s);
        NoDoubleSame(Tokens(p), s);
      }
    }
  }

  lemma {:induction false} NoDoubleSame(ts: seq<Token>, s: string)
    requires DoubleStar !in ts && DoubleDir !in ts
    ensures Denotes(ts, s, true) <==> Denotes(ts, s, false)
    decreases |ts|
  {
    if ts != [] {
      forall k | 0 <= k <= |s| ensures Denotes(ts[1..], s[k..], true) <==> Denotes(ts[1..], s[k..], false) {
        NoDoubleSame(ts[1..], s[k..]);
      }
    }
  }

  // ----- a pattern that means something else than it says -----

  lemma {:induction false} LettersThenStars(w: string)
    requires forall k :: 0 <= k < |w| ==> 'A' <= w[k] <= 'Z'
    ensures LitsThenSign(w, Tokens(w + "**"), true)
    decreases |w|
  {
    var p := w + "**";
    if w == "" {
      assert p == "**" && p[1..] == "*";
      assert FirstToken(p) == DoubleStar;
    } else {
      assert p[1..] == w[1..] + "**" && p[0] == w[0];
      assert FirstToken(p) == Lit(w[0]) && AfterToken(p) == p[1..];
      LettersThenStars(w[1..]);
    }
  }

  lemma LettersOnly(w: string, p: string)
    requires p == "**" + (w + "**") && forall k :: 0 <= k < |w| ==> 'A' <= w[k] <= 'Z'
    ensures forall k :: 0 <= k < |p| ==> p[k] == '*' || 'A' <= p[k] <= 'Z'
  {
  }

  lemma StarsAround(w: string, p: string)
    requires w != "" && p == "**" + (w + "**") && forall k :: 0 <= k < |w| ==> 'A' <= w[k] <= 'Z'
    ensures Tokens(p) != [] && Tokens(p)[0] == DoubleStar && LitsThenSign(w, Tokens(p)[1..], true)
  {
    var q := w + "**";
    LettersThenStars(w);
    assert p[2] == q[0] == w[0] && p[2..] == q;
    TwoStarsFirst(p);
  }

  lemma TwoStarsFirst(p: string)
    requires |p| >= 3 && p[0] == p[1] == '*' && p[2] != '/' && p[2] != '*'
    ensures FirstToken(p) == DoubleStar && AfterToken(p) == p[2..]
  {
    assert p[1..][1] == p[2];
  }

  lemma LiteralName() returns (w: string)
    ensures w == "GLOBDOUBLEDIR" && w != "" && forall k :: 0 <= k < |w| ==> 'A' <= w[k] <= 'Z'
  {
    w := "GLOBDOUBLEDIR";
  }

  /** Two double stars around the marker's own name. */
  lemma StarsAroundName(p: string)
    requires p == "**" + ("GLOBDOUBLEDIR" + "**")
    ensures '§' !in p && MarkersClash(Tokens(p)) && !MatchesItsMeaning(p) && !MatchesOnLines(p)
  {
    var w := LiteralName();
    StarsAround(w, p);
    LettersOnly(w, p);
    MeaningExactly(p);
    MeaningOnLinesExactly(p);
  }

  // ----- laws of the denotation -----

  function Slashes(s: string): nat {
    if s == "" then 0 else (if s[0] == '/' then 1 else 0) + Slashes(s[1..])
  }

  lemma {:induction false} SlashesSplit(u: string, v: string)
    ensures Slashes(u + v) == Slashes(u) + Slashes(v)
  {
    if u == "" {
      assert u + v == v;
    } else {
      SlashesSplit(u[1..], v);
      assert (u + v)[1..] == u[1..] + v;
    }
  }

  lemma {:induction false} NoSlashes(s: string)
    ensures Slashes(s) == 0 <==> '/' !in s
  {
    if s != "" { NoSlashes(s[1..]); }
  }

  /** A single star never crosses a slash: without double stars a pattern only reaches paths of its
      own depth. */
  lemma {:induction false} SingleStarKeepsDepth(ts: seq<Token>, s: string, lines: bool)
    requires forall t <- ts :: t.Lit? || t.Star?
    requires Denotes(ts, s, lines)
    ensures Slashes(s) == Slashes(Source(ts))
  {
    if ts != [] {
      var q := Source(ts[1..]);
      assert (TokenSource(ts[0]) + q)[1..] == q;
      if ts[0].Star? {
        var k :| 0 <= k <= |s| && '/' !in s[..k] && Denotes(ts[1..], s[k..], lines);
        SingleStarKeepsDepth(ts[1..], s[k..], lines);
        NoSlashes(s[..k]);
        SlashesSplit(s[..k], s[k..]);
        assert s == s[..k] + s[k..];
      } else {
        SingleStarKeepsDepth(ts[1..], s[1..], lines);
      }
    }
  }

  ghost predicate OneSegmentMore(ts: seq<Token>, s: string) {
    exists k | 0 <= k < |s| :: '/' !in s[..k] && s[k] == '/' && Denotes(ts, s[k + 1..], true)
  }

  /** A double star before a slash is zero segments, or one whole segment and the same again. */
  lemma DoubleDirUnfolds(ts: seq<Token>, s: string)
    requires ts != [] && ts[0].DoubleDir?
    ensures Denotes(ts, s, true) <==> Denotes(ts[1..], s, true) || OneSegmentMore(ts, s)
  {
    if Denotes(ts, s, true) { PeelSegment(ts, s); }
    if Denotes(ts[1..], s, true) {
      assert s[0..] == s;
      DirIntro(ts, s, 0);
    }
    if OneSegmentMore(ts, s) {
      var k :| 0 <= k < |s| && '/' !in s[..k] && s[k] == '/' && Denotes(ts, s[k + 1..], true);
      AddSegment(ts, s, k);
    }
  }

  lemma AddSegment(ts: seq<Token>, s: string, k: nat)
    requires ts != [] && ts[0].DoubleDir? && k < |s| && s[k] == '/' && Denotes(ts, s[k + 1..], true)
    ensures Denotes(ts, s, true)
  {
    var n := DirWitness(ts, s[k + 1..]);
    var m := k + 1 + n;
    assert s[k + 1..][n..] == s[m..];
    assert WholeSegments(s[..m]) by { if n > 0 { assert s[k + 1..][..n][n - 1] == s[..m][m - 1]; } }
    DirIntro(ts, s, m);
  }

  lemma PeelSegment(ts: seq<Token>, s: string)
    requires ts != [] && ts[0].DoubleDir? && Denotes(ts, s, true)
    ensures Denotes(ts[1..], s, true) || OneSegmentMore(ts, s)
  {
    var n := DirWitness(ts, s);
    if n == 0 {
      assert s[0..] == s;
    } else {
      assert s[n - 1] == s[..n][n - 1] == '/';
      var k := FirstSlash(s, n - 1);
      SegmentsAfter(s, n, k);
      DirIntro(ts, s[k + 1..], n - k - 1);
    }
  }

  lemma SegmentsAfter(s: string, n: nat, k: nat)
    requires k < n <= |s| && WholeSegments(s[..n])
    ensures s[k + 1..][n - k - 1..] == s[n..] && WholeSegments(s[k + 1..][..n - k - 1])
  {
    if k + 1 < n { assert s[k + 1..][..n - k - 1][n - k - 2] == s[..n][n - 1]; }
  }

  lemma DirIntro(ts: seq<Token>, t: string, n: nat)
    requires ts != [] && ts[0].DoubleDir? && n <= |t|
    requires WholeSegments(t[..n]) && Denotes(ts[1..], t[n..], true)
    ensures Denotes(ts, t, true)
  {
  }

  lemma DirWitness(ts: seq<Token>, t: string) returns (n: nat)
    requires ts != [] && ts[0].DoubleDir? && Denotes(ts, t, true)
    ensures n <= |t| && WholeSegments(t[..n]) && Denotes(ts[1..], t[n..], true)
  {
    n :| 0 <= n <= |t| && WholeSegments(t[..n]) && Denotes(ts[1..], t[n..], true);
  }

  lemma {:induction false} FirstSlash(s: string, n: nat) returns (k: nat)
    requires n < |s| && s[n] == '/'
    ensures k <= n && s[k] == '/' && '/' !in s[..k]
    decreases n
  {
    if j :| 0 <= j < n && s[j] == '/' {
      k := FirstSlash(s, j);
    } else {
      k := n;
    }
  }
}
