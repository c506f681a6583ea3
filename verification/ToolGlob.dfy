/** The tool dispatcher's own glob compiler, compared with the core one. */
module ToolGlob {
  import opened Strings
  import opened Glob
  import opened GlobRegex
  import opened GlobClash
  import opened GlobMeaning

  const TOOL_MARKER := "§§"

  /** The three replacements of the tool dispatcher. */
  function PatternPasses(p: string): string {
    var s1 := ReplaceAll(Escape(p), "**", TOOL_MARKER);
    var s2 := ReplaceAll(s1, "*", "[^/]*");
    ReplaceAll(s2, TOOL_MARKER, ".*")
  }

  function PatternToRegExp(p: string): Compiled {
    CompileText(PatternPasses(p))
  }

  /** Every run of stars is read in pairs from the left. */
  function ToolTokens(p: string): seq<Token> {
    if p == "" then []
    else if "**" <= p then [DoubleStar] + ToolTokens(p[2..])
    else if p[0] == '*' then [Star] + ToolTokens(p[1..])
    else [Lit(p[0])] + ToolTokens(p[1..])
  }

  predicate ToolLexed(ts: seq<Token>) {
    ts == [] ||
    (ToolLexed(ts[1..]) &&
     match ts[0]
     case Lit(c) => c != '*'
     case Star => |ts| > 1 ==> ts[1].Lit?
     case DoubleStar => true
     case DoubleDir => false)
  }

  function ToolStaged(t: Token, k: nat): string {
    match t
    case Lit(c) => EscapeChar(c)
    case Star => if k < 2 then "*" else "[^/]*"
    case DoubleStar => if k < 1 then "**" else TOOL_MARKER
    case DoubleDir => "**/"
  }

  function ToolRender(ts: seq<Token>, k: nat): string {
    if ts == [] then "" else ToolStaged(ts[0], k) + ToolRender(ts[1..], k)
  }

  lemma {:induction false} ToolTokensLexed(p: string)
    ensures ToolLexed(ToolTokens(p)) && Source(ToolTokens(p)) == p
    decreases |p|
  {
    if p == "" {
    } else if "**" <= p {
      ToolTokensLexed(p[2..]);
      assert p == "**" + p[2..];
    } else {
      ToolTokensLexed(p[1..]);
      assert p == [p[0]] + p[1..];
      if p[0] == '*' && |p| > 1 { assert p[..2] == ['*', p[1]]; }
    }
  }

  lemma {:induction false} ToolEscapeRenders(ts: seq<Token>)
    requires ToolLexed(ts)
    ensures Escape(Source(ts)) == ToolRender(ts, 0)
  {
    if ts != [] {
      var q := Source(ts[1..]);
      ToolEscapeRenders(ts[1..]);
      if ts[0].Lit? {
        assert ([ts[0].c] + q)[1..] == q;
      } else {
        StarsPlain(ts[0]);
        EscapeStep(TokenSource(ts[0]), q);
      }
    }
  }

  lemma {:induction false} PassPairs(ts: seq<Token>)
    requires ToolLexed(ts)
    ensures ReplaceAll(ToolRender(ts, 0), "**", TOOL_MARKER) == ToolRender(ts, 1)
  {
    if ts != [] {
      var r := ToolRender(ts[1..], 0);
      PassPairs(ts[1..]);
      match ts[0] {
        case Lit(c) => ReplaceSkip(EscapeChar(c), r, "**", TOOL_MARKER);
        case Star =>
          NotPrefix("**", ['*'] + r, 1);
          ReplaceMiss('*', r, "**", TOOL_MARKER);
        case DoubleStar => ReplaceHit(r, "**", TOOL_MARKER);
      }
    }
  }

  lemma {:induction false} PassSingles(ts: seq<Token>)
    requires ToolLexed(ts)
    ensures ReplaceAll(ToolRender(ts, 1), "*", "[^/]*") == ToolRender(ts, 2)
  {
    if ts != [] {
      var r := ToolRender(ts[1..], 1);
      PassSingles(ts[1..]);
      match ts[0] {
        case Lit(c) => ReplaceSkip(EscapeChar(c), r, "*", "[^/]*");
        case Star => ReplaceHit(r, "*", "[^/]*");
        case DoubleStar => ReplaceSkip(TOOL_MARKER, r, "*", "[^/]*");
      }
    }
  }

  /** The tokens with every pair of stars spelled as two signs. */
  function ToolSpelled(ts: seq<Token>): seq<Token> {
    if ts == [] then []
    else if ts[0].DoubleStar? then Lits(TOOL_MARKER) + ToolSpelled(ts[1..])
    else [ts[0]] + ToolSpelled(ts[1..])
  }

  /** The tokens whose regular expression the dispatcher emits. */
  function ToolEmitted(ts: seq<Token>): seq<Token> {
    Recognised(ToolSpelled(ts), TOOL_MARKER, DoubleStar)
  }

  /** Two signs next to each other that no pair of stars wrote. */
  predicate ToolClash(ts: seq<Token>) {
    |ts| > 1 && (SignBeforeSign(ts) || ToolClash(ts[1..]))
  }

  predicate SignBeforeSign(ts: seq<Token>) {
    |ts| > 1 && ts[0] == Lit('§') && (ts[1] == Lit('§') || ts[1].DoubleStar?)
  }

  lemma ToolMarkerLits()
    ensures Lits(TOOL_MARKER) == [Lit('§'), Lit('§')] && MarkerText(TOOL_MARKER)
  {
  }

  lemma {:induction false} ToolSpelledText(ts: seq<Token>)
    requires ToolLexed(ts)
    ensures RegexText(ToolSpelled(ts)) == ToolRender(ts, 2)
  {
    if ts != [] {
      ToolSpelledText(ts[1..]);
      ToolMarkerLits();
      if ts[0].DoubleStar? {
        LitsText(TOOL_MARKER, ToolSpelled(ts[1..]));
      } else {
        assert ([ts[0]] + ToolSpelled(ts[1..]))[1..] == ToolSpelled(ts[1..]);
      }
    }
  }

  lemma {:induction false} ToolSpelledKeeps(c: char, ts: seq<Token>)
    requires c != '§' && Lit(c) !in ts
    ensures Lit(c) !in ToolSpelled(ts)
  {
    if ts != [] {
      ToolSpelledKeeps(c, ts[1..]);
      ToolMarkerLits();
    }
  }

  lemma ToolEmittedKeeps(c: char, ts: seq<Token>)
    requires c != '§' && Lit(c) !in ts
    ensures Lit(c) !in ToolEmitted(ts)
  {
    ToolSpelledKeeps(c, ts);
    RecognisedKeeps(c, ToolSpelled(ts), TOOL_MARKER, DoubleStar);
  }

  lemma {:induction false} ToolLexedIsPlain(ts: seq<Token>)
    requires ToolLexed(ts)
    ensures Plain(ts)
  {
    if ts != [] { ToolLexedIsPlain(ts[1..]); }
  }

  /** Every pattern compiles to the expression of its emitted tokens. */
  lemma ToolCompileIsTokens(p: string)
    ensures PatternToRegExp(p) == TokensRe(ToolEmitted(ToolTokens(p)))
  {
    var ts := ToolTokens(p);
    ToolTokensLexed(p);
    ToolEscapeRenders(ts);
    PassPairs(ts);
    PassSingles(ts);
    ToolSpelledText(ts);
    ToolMarkerLits();
    ReplaceIsRecognise(ToolSpelled(ts), TOOL_MARKER, DoubleStar);
    ToolLexedIsPlain(ts);
    ToolEmittedKeeps('*', ts);
    TextParses(ToolEmitted(ts));
  }

  lemma ToolEmittedStep(ts: seq<Token>)
    requires ts != []
    ensures if SignBeforeSign(ts) then ToolEmitted(ts) != [] && ToolEmitted(ts)[0] != ts[0]
      else ToolEmitted(ts) == [ts[0]] + ToolEmitted(ts[1..])
  {
    var rest := ToolSpelled(ts[1..]);
    ToolMarkerLits();
    if ts[0].DoubleStar? {
      RecogniseHit(rest, TOOL_MARKER, DoubleStar);
    } else if ts[0] == Lit('§') {
      var all := [ts[0]] + rest;
      assert |ts| > 1 ==> rest[0] == if ts[1].DoubleStar? then Lit('§') else ts[1];
      if |all| > 1 && all[1] == Lit('§') {
        assert all[..2] == Lits(TOOL_MARKER);
      } else {
        NotLits(TOOL_MARKER, all, 1);
        RecogniseMiss(ts[0], rest, TOOL_MARKER, DoubleStar);
      }
    } else {
      RecogniseSkip([ts[0]], rest, TOOL_MARKER, DoubleStar);
    }
  }

  /** The dispatcher emits the pattern's own tokens exactly when no literal sign stands before another sign. */
  lemma {:induction false} ToolEmittedExactly(ts: seq<Token>)
    ensures ToolEmitted(ts) == ts <==> !ToolClash(ts)
  {
    if ts != [] {
      ToolEmittedExactly(ts[1..]);
      ToolEmittedStep(ts);
      if !SignBeforeSign(ts) { SameTail(ts, ToolEmitted(ts), ToolEmitted(ts[1..])); }
    }
  }

  lemma {:induction false} NoSignNoClash(ts: seq<Token>)
    requires Lit('§') !in ts
    ensures !ToolClash(ts)
  {
    if ts != [] { NoSignNoClash(ts[1..]); }
  }

  /** Patterns that mention neither the sign nor the marker name are clear of both compilers' markers. */
  lemma OrdinaryPatternsAreClear(p: string)
    requires '§' !in p && !Occurs("GLOBDOUBLEDIR", p)
    ensures ClashFree(p) && !ToolClash(ToolTokens(p))
  {
    NameFreeIsClashFree(p);
    ToolLitsFromSource('§', p);
    NoSignNoClash(ToolTokens(p));
  }

  lemma {:induction false} ToolLitsFromSource(c: char, p: string)
    requires c !in p
    ensures Lit(c) !in ToolTokens(p)
    decreases |p|
  {
    if p == "" {
    } else if "**" <= p {
      ToolLitsFromSource(c, p[2..]);
    } else {
      ToolLitsFromSource(c, p[1..]);
    }
  }

  /** Every pattern and every path: what the dispatcher's pattern matches is what its emitted tokens are read as. */
  lemma ToolMatchesExactly(p: string, s: string)
    requires PatternToRegExp(p).Regex?
    ensures Matches(PatternToRegExp(p).re, s) <==> Reads(ToolEmitted(ToolTokens(p)), s)
  {
    ToolCompileIsTokens(p);
    ReReads(ToolEmitted(ToolTokens(p)), s);
  }

  /** The tool's compiled pattern matches exactly what its tokens denote. */
  lemma ToolMatchesItsMeaning(p: string, s: string)
    requires !ToolClash(ToolTokens(p)) && '?' !in p
    ensures PatternToRegExp(p).Regex?
    ensures Matches(PatternToRegExp(p).re, s) <==> Denotes(ToolTokens(p), s, false)
  {
    ToolCompileIsTokens(p);
    ToolEmittedExactly(ToolTokens(p));
    ToolLitsFromSource('?', p);
    ReadsAsDenoted(ToolTokens(p), s);
    MarkFreeFits(ToolTokens(p), 0);
    CompilesExactly(ToolTokens(p));
    ToolMatchesExactly(p, s);
  }

  // ----- the two readings compared -----

  lemma {:induction false} ToolTokensStep(p: string)
    requires p != ""
    ensures var q := AfterToken(p);
            match FirstToken(p)
            case DoubleDir => ToolTokens(p) == [DoubleStar, Lit('/')] + ToolTokens(q)
            case DoubleStar => ToolTokens(p) == [DoubleStar] + ToolTokens(q)
            case Star => if "**" <= p then "**/" <= q && ToolTokens(p) == [DoubleStar, Star, Lit('/')] + ToolTokens(AfterToken(q))
                         else ToolTokens(p) == [Star] + ToolTokens(q)
            case Lit(c) => ToolTokens(p) == [Lit(c)] + ToolTokens(q)
  {
    var q := AfterToken(p);
    match FirstToken(p) {
      case DoubleDir =>
        assert p[2..] == ['/'] + q && p[2..][1..] == q;
        assert ToolTokens(p[2..]) == [Lit('/')] + ToolTokens(q);
      case Star =>
        assert p[1..] == q;
        if "**" <= p { TripleStar(p); }
      case _ =>
    }
  }

  lemma TripleStar(p: string)
    requires "**" <= p && "**/" <= p[1..]
    ensures ToolTokens(p) == [DoubleStar, Star, Lit('/')] + ToolTokens(AfterToken(p[1..]))
  {
    var u := p[2..];
    assert u[0] == '*' && u[1] == '/' && !("**" <= u);
    assert u[1..] == p[1..][2..];
    var v := u[1..];
    assert v[0] == '/' && v[1..] == AfterToken(p[1..]);
    assert ToolTokens(v) == [Lit('/')] + ToolTokens(v[1..]);
    assert ToolTokens(u) == [Star] + ToolTokens(v);
  }

  lemma SlashThen(ts: seq<Token>, s: string, k: nat)
    requires ts != [] && ts[0] == Lit('/') && k <= |s| && Denotes(ts, s[k..], true)
    ensures k < |s| && s[k] == '/' && Denotes(ts[1..], s[k + 1..], true)
  {
    assert s[k..][1..] == s[k + 1..];
  }

  /** Whatever the tool's reading of a pattern reaches, the core reading reaches too. */
  lemma {:induction false} ToolWithinCore(p: string, s: string)
    requires Denotes(ToolTokens(p), s, true)
    ensures Denotes(Tokens(p), s, true)
    decreases |p|
  {
    if p != "" {
      var ts, tt, q := Tokens(p), ToolTokens(p), AfterToken(p);
      assert ts[1..] == Tokens(q);
      ToolTokensStep(p);
      match FirstToken(p) {
        case Lit(c) =>
          assert tt[1..] == ToolTokens(q);
          ToolWithinCore(q, s[1..]);
        case DoubleStar =>
          assert tt[1..] == ToolTokens(q);
          var k :| 0 <= k <= |s| && Denotes(tt[1..], s[k..], true);
          ToolWithinCore(q, s[k..]);
        case DoubleDir =>
          var k := WildcardEnd(tt, s, true);
          SlashThen(tt[1..], s, k);
          assert tt[1..][1..] == ToolTokens(q);
          ToolWithinCore(q, s[k + 1..]);
          DirIntro(ts, s, k + 1);
        case Star =>
          if "**" <= p {
            TripleStarWithinCore(p, s);
          } else {
            assert tt[1..] == ToolTokens(q);
            var k :| 0 <= k <= |s| && '/' !in s[..k] && Denotes(tt[1..], s[k..], true);
            ToolWithinCore(q, s[k..]);
          }
      }
    }
  }

  /** Where a wildcard hands over to the rest of the tokens. */
  lemma WildcardEnd(ts: seq<Token>, s: string, lines: bool) returns (k: nat)
    requires ts != [] && !ts[0].Lit? && Denotes(ts, s, lines)
    ensures k <= |s| && Denotes(ts[1..], s[k..], lines)
  {
    k :| 0 <= k <= |s| && Denotes(ts[1..], s[k..], lines);
  }

  lemma TripleStarEnd(tt: seq<Token>, s: string) returns (m: nat)
    requires |tt| >= 3 && tt[..3] == [DoubleStar, Star, Lit('/')] && Denotes(tt, s, true)
    ensures m < |s| && s[m] == '/' && Denotes(tt[3..], s[m + 1..], true)
  {
    var k := WildcardEnd(tt, s, true);
    assert tt[1..][0] == tt[..3][1] && tt[2..][0] == tt[..3][2];
    var j := WildcardEnd(tt[1..], s[k..], true);
    assert tt[1..][1..] == tt[2..] && tt[2..][1..] == tt[3..];
    assert s[k..][j..] == s[k + j..];
    m := k + j;
    SlashThen(tt[2..], s, m);
  }

  lemma {:induction false} TripleStarWithinCore(p: string, s: string)
    requires "**" <= p && "**/" <= p[1..] && Denotes(ToolTokens(p), s, true)
    ensures Denotes(Tokens(p), s, true)
    decreases |p|, 0
  {
    var q, tt := p[1..], ToolTokens(p);
    TripleStar(p);
    var m := TripleStarEnd(tt, s);
    var r := AfterToken(q);
    assert tt[3..] == ToolTokens(r);
    ToolWithinCore(r, s[m + 1..]);
    DirIntro(Tokens(q), s, m + 1);
    assert p[..3] == "***" && FirstToken(p) == Star && AfterToken(p) == q;
    StarIntro(Tokens(p), s);
  }

  lemma StarIntro(ts: seq<Token>, s: string)
    requires ts != [] && ts[0].Star? && Denotes(ts[1..], s, true)
    ensures Denotes(ts, s, true)
  {
    assert s[0..] == s && '/' !in s[..0];
  }

  /** On one-line paths, whatever the tool's regular expression matches, the core one matches. */
  lemma ToolMatchIsCoreMatch(p: string, s: string)
    requires p != "" && '\0' !in p && '?' !in p && ClashFree(p) && !ToolClash(ToolTokens(p)) && OneLine(s)
    requires PatternToRegExp(p).Regex? && Matches(PatternToRegExp(p).re, s)
    ensures GlobToRegExp(p).Regex? && Matches(GlobToRegExp(p).re, s)
  {
    ToolMatchesItsMeaning(p, s);
    OneLineSame(ToolTokens(p), s);
    ToolWithinCore(p, s);
    GlobMatchesItsMeaning(p, s);
  }

  // ----- exactly when the two compilers agree -----

  lemma SlashesFrom(s: string, k: nat)
    requires k <= |s|
    ensures Slashes(s) == Slashes(s[..k]) + Slashes(s[k..])
  {
    SlashesSplit(s[..k], s[k..]);
    assert s == s[..k] + s[k..];
  }

  /** A reading without `DoubleDir` keeps every slash of the pattern. */
  lemma {:induction false} SlashesKept(ts: seq<Token>, s: string)
    requires Denotes(ts, s, false) && DoubleDir !in ts
    ensures Slashes(s) >= Slashes(Source(ts))
    decreases |ts|
  {
    if ts != [] {
      SlashesSplit(TokenSource(ts[0]), Source(ts[1..]));
      if ts[0].Lit? {
        SlashesKept(ts[1..], s[1..]);
        SlashesFrom(s, 1);
        assert s[..1] == TokenSource(ts[0]);
      } else {
        var k := WildcardEnd(ts, s, false);
        SlashesKept(ts[1..], s[k..]);
        SlashesFrom(s, k);
        StarSlashes(ts[0]);
      }
    }
  }

  lemma StarSlashes(t: Token)
    requires !t.Lit? && !t.DoubleDir?
    ensures Slashes(TokenSource(t)) == 0
  {
    NoSlashes(TokenSource(t));
  }

  lemma {:induction false} ShortestDropsSlashes(ts: seq<Token>)
    ensures Slashes(Shortest(ts)) <= Slashes(Source(ts))
    ensures DoubleDir in ts ==> Slashes(Shortest(ts)) < Slashes(Source(ts))
  {
    if ts != [] {
      ShortestDropsSlashes(ts[1..]);
      var u := if ts[0].Lit? then [ts[0].c] else "";
      SlashesSplit(u, Shortest(ts[1..]));
      SlashesSplit(TokenSource(ts[0]), Source(ts[1..]));
      if ts[0].DoubleDir? { NoSlashes("**/"); }
    }
  }

  lemma {:induction false} DirTokenOccurs(p: string)
    ensures DoubleDir in Tokens(p) <==> Occurs("**/", p)
    ensures DoubleDir !in Tokens(p) ==> ToolTokens(p) == Tokens(p)
    decreases |p|
  {
    if p != "" {
      var q := AfterToken(p);
      DirTokenOccurs(q);
      assert Tokens(p)[1..] == Tokens(q);
      ToolTokensStep(p);
      OccursStep(p);
    }
  }

  lemma OccursStep(p: string)
    requires p != ""
    ensures Occurs("**/", p) <==> FirstToken(p).DoubleDir? || Occurs("**/", AfterToken(p))
  {
    var q := AfterToken(p);
    var n := |p| - |q|;
    assert q == p[n..];
    if Occurs("**/", q) { OccursInSuffix("**/", p, n); }
    if FirstToken(p).DoubleDir? { assert p[0..] == p && At("**/", p, 0); }
    if i: nat :| At("**/", p, i) {
      assert p[i..][..3] == "**/";
      if i >= n {
        AtShift("**/", p[..n], q, i - n);
        assert p == p[..n] + q;
      } else if i == 0 {
        assert p[0..] == p;
      }
    }
  }

  ghost predicate CompilersAgree(p: string) {
    && GlobToRegExp(p).Regex? && PatternToRegExp(p).Regex?
    && forall s :: Matches(GlobToRegExp(p).re, s) <==> Matches(PatternToRegExp(p).re, s)
  }

  /** The two compilers accept the same paths exactly when no pair of stars stands before a slash. */
  lemma CompilersAgreeExactly(p: string)
    requires p != "" && '\0' !in p && '?' !in p && ClashFree(p) && !ToolClash(ToolTokens(p))
    ensures CompilersAgree(p) <==> !Occurs("**/", p)
  {
    DirTokenOccurs(p);
    var s := Shortest(Tokens(p));
    if !Occurs("**/", p) {
      forall u
        ensures GlobToRegExp(p).Regex? && PatternToRegExp(p).Regex?
        ensures Matches(GlobToRegExp(p).re, u) <==> Matches(PatternToRegExp(p).re, u)
      {
        GlobMatchesItsMeaning(p, u);
        ToolMatchesItsMeaning(p, u);
      }
    }
    GlobMatchesItsMeaning(p, s);
    ToolMatchesItsMeaning(p, s);
    if Occurs("**/", p) {
      ShortestDenoted(Tokens(p), false);
      ShortestDropsSlashes(Tokens(p));
      TokensLexed(p);
      ToolTokensLexed(p);
      NoDirInToolTokens(p);
      if Denotes(ToolTokens(p), s, false) { SlashesKept(ToolTokens(p), s); }
    }
  }

  lemma {:induction false} NoDirInToolTokens(p: string)
    ensures DoubleDir !in ToolTokens(p)
    decreases |p|
  {
    if p != "" { NoDirInToolTokens(if "**" <= p then p[2..] else p[1..]); }
  }
}
