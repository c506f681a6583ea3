/** The core glob compiler: five successive textual replacements through marker text, shown equal
    to a one-pass tokenizer. */
module Glob {
  import opened Strings

  datatype Token = Lit(c: char) | Star | DoubleStar | DoubleDir

  const DIR_MARKER := "§GLOBDOUBLEDIR§"
  const ANY_MARKER := "§GLOBDOUBLE§"

  predicate IsMeta(c: char) {
    c in ".+^${}()|[]\\"
  }

  function EscapeChar(c: char): string {
    if IsMeta(c) then ['\\', c] else [c]
  }

  function Escape(p: string): string {
    if p == "" then "" else EscapeChar(p[0]) + Escape(p[1..])
  }

  /** The regular-expression source, as the code builds it. */
  function TranslatePasses(p: string): string {
    var s0 := Escape(p);
    var s1 := ReplaceAll(s0, "**/", DIR_MARKER);
    var s2 := ReplaceAll(s1, "**", ANY_MARKER);
    var s3 := ReplaceAll(s2, "*", "[^/]*");
    ExpandMarkers(s3)
  }

  function ExpandMarkers(s: string): string {
    ReplaceAll(ReplaceAll(s, DIR_MARKER, "(?:.*/)?"), ANY_MARKER, ".*")
  }

  // ----- the one-pass reading of a pattern -----

  /** A run of stars is read in pairs from the left, except that the last two stars of a run that
      stands before `/` belong to that slash. */
  function FirstToken(p: string): (t: Token)
    requires p != ""
    ensures TokenSource(t) <= p
  {
    if "**/" <= p then DoubleDir
    else if "**" <= p && !("**/" <= p[1..]) then DoubleStar
    else if p[0] == '*' then Star
    else Lit(p[0])
  }

  function AfterToken(p: string): (q: string)
    requires p != ""
    ensures |q| < |p| && p == TokenSource(FirstToken(p)) + q
  {
    p[|TokenSource(FirstToken(p))|..]
  }

  function Tokens(p: string): seq<Token>
    decreases |p|
  {
    if p == "" then [] else [FirstToken(p)] + Tokens(AfterToken(p))
  }

  function TokenSource(t: Token): string {
    match t
    case Lit(c) => [c]
    case Star => "*"
    case DoubleStar => "**"
    case DoubleDir => "**/"
  }

  function TokenText(t: Token): string {
    match t
    case Lit(c) => EscapeChar(c)
    case Star => "[^/]*"
    case DoubleStar => ".*"
    case DoubleDir => "(?:.*/)?"
  }

  function RegexText(ts: seq<Token>): string {
    if ts == [] then "" else TokenText(ts[0]) + RegexText(ts[1..])
  }

  /** The pattern a token list was read from. */
  function Source(ts: seq<Token>): string {
    if ts == [] then "" else TokenSource(ts[0]) + Source(ts[1..])
  }

  /** How a token looks after the first `k` replacements, for `k` up to three. */
  function Staged(t: Token, k: nat): string {
    match t
    case Lit(c) => EscapeChar(c)
    case Star => if k < 3 then "*" else "[^/]*"
    case DoubleStar => if k < 2 then "**" else ANY_MARKER
    case DoubleDir => if k < 1 then "**/" else DIR_MARKER
  }

  function Render(ts: seq<Token>, k: nat): string {
    if ts == [] then "" else Staged(ts[0], k) + Render(ts[1..], k)
  }

  /** The token lists the tokenizer can produce. */
  predicate Lexed(ts: seq<Token>) {
    ts == [] ||
    (Lexed(ts[1..]) &&
     match ts[0]
     case Lit(c) => c != '*'
     case Star => |ts| > 1 ==> !ts[1].Star? && !ts[1].DoubleStar?
     case DoubleStar =>
       && (|ts| > 1 ==> ts[1] != Lit('/'))
       && (|ts| > 2 ==> !(ts[1] == Star && ts[2] == Lit('/')))
     case DoubleDir => true)
  }

  // ----- what the last two replacements do, on tokens -----

  /** A text as literal tokens. */
  function Lits(s: string): (ts: seq<Token>)
    ensures |ts| == |s| && forall k :: 0 <= k < |s| ==> ts[k] == Lit(s[k])
  {
    seq(|s|, i requires 0 <= i < |s| => Lit(s[i]))
  }

  /** The tokens with markers spelled out, those of `**` with its slash only when `dirs` is set. */
  function Spelled(ts: seq<Token>, dirs: bool): seq<Token> {
    if ts == [] then []
    else if ts[0].DoubleStar? then Lits(ANY_MARKER) + Spelled(ts[1..], dirs)
    else if ts[0].DoubleDir? && dirs then Lits(DIR_MARKER) + Spelled(ts[1..], dirs)
    else [ts[0]] + Spelled(ts[1..], dirs)
  }

  /** The literal tokens of `w`, wherever they stand, become the token `t`; from left to right. */
  function Recognised(ts: seq<Token>, w: string, t: Token): seq<Token>
    requires w != ""
    decreases |ts|
  {
    if ts == [] then []
    else if Lits(w) <= ts then [t] + Recognised(ts[|w|..], w, t)
    else [ts[0]] + Recognised(ts[1..], w, t)
  }

  function AfterDirs(ts: seq<Token>): seq<Token> {
    Recognised(Spelled(ts, true), DIR_MARKER, DoubleDir)
  }

  /** The tokens whose regular expression the code emits. */
  function Emitted(ts: seq<Token>): seq<Token> {
    Recognised(AfterDirs(ts), ANY_MARKER, DoubleStar)
  }

  /** The literals `w`, then the marker sign: a literal one, or the first character of a spelled marker. */
  predicate LitsThenSign(w: string, ts: seq<Token>, dirs: bool)
    decreases |w|
  {
    ts != [] &&
    if w == "" then ts[0] == Lit('§') || ts[0].DoubleStar? || (ts[0].DoubleDir? && dirs)
    else ts[0] == Lit(w[0]) && LitsThenSign(w[1..], ts[1..], dirs)
  }

  /** A marker of `**` with its slash that no such token wrote: it begins with a literal sign or with the closing sign of
      another marker. */
  predicate DirClash(ts: seq<Token>) {
    ts != [] && (ts[0] == Lit('§') || ts[0].DoubleStar?) && LitsThenSign("GLOBDOUBLEDIR", ts[1..], true)
  }

  /** A marker of `**` that no such token wrote. */
  predicate AnyClash(ts: seq<Token>) {
    ts != [] && ts[0] == Lit('§') && LitsThenSign("GLOBDOUBLE", ts[1..], false)
  }

  predicate MarkersClash(ts: seq<Token>) {
    ts != [] && (DirClash(ts) || AnyClash(ts) || MarkersClash(ts[1..]))
  }

  predicate ClashFree(p: string) { !MarkersClash(Tokens(p)) }

  lemma {:induction false} TokensLexed(p: string)
    ensures Lexed(Tokens(p)) && Source(Tokens(p)) == p
    decreases |p|
  {
    if p != "" {
      var q := AfterToken(p);
      TokensLexed(q);
      assert Tokens(p)[1..] == Tokens(q);
      AfterStars(p);
      if q != "" {
        assert Tokens(q)[0] == FirstToken(q);
        assert Tokens(q)[1..] == Tokens(AfterToken(q));
      }
    }
  }

  /** What can follow a token made of stars. */
  lemma AfterStars(p: string)
    requires p != ""
    ensures var q := AfterToken(p);
            && (FirstToken(p).Star? && q != "" && q[0] == '*' ==> FirstToken(q).DoubleDir?)
            && (FirstToken(p).DoubleStar? && q != "" ==> q[0] != '/')
            && (FirstToken(p).DoubleStar? && |q| > 1 && q[0] == '*' ==> q[1] != '/')
  {
    var q := AfterToken(p);
    match FirstToken(p) {
      case Star =>
        assert p[1..] == q;
        if q != "" { assert p[..2] == ['*', q[0]]; }
      case DoubleStar =>
        if q != "" { assert p[..3] == ['*', '*', q[0]]; }
        if |q| > 1 { assert p[1..][..3] == ['*', q[0], q[1]]; }
      case _ =>
    }
  }

  lemma {:induction false} EscapeStep(u: string, v: string)
    requires forall c <- u :: !IsMeta(c)
    ensures Escape(u + v) == u + Escape(v)
  {
    if u == "" {
      assert u + v == v;
    } else {
      assert u + v == [u[0]] + (u[1..] + v);
      EscapeStep(u[1..], v);
    }
  }

  lemma {:induction false} EscapeRenders(ts: seq<Token>)
    ensures Escape(Source(ts)) == Render(ts, 0)
  {
    if ts != [] {
      var q := Source(ts[1..]);
      EscapeRenders(ts[1..]);
      if ts[0].Lit? {
        assert ([ts[0].c] + q)[1..] == q;
      } else {
        StarsPlain(ts[0]);
        EscapeStep(TokenSource(ts[0]), q);
      }
    }
  }

  lemma StarsPlain(t: Token)
    requires !t.Lit?
    ensures forall c <- TokenSource(t) :: !IsMeta(c)
  {
  }

  // ----- one lemma for each replacement -----

  lemma NotPrefix(w: string, s: string, i: nat)
    requires i < |w| && (i >= |s| || s[i] != w[i])
    ensures !(w <= s)
  {
  }

  lemma RenderHead(ts: seq<Token>, k: nat)
    requires ts != []
    ensures Staged(ts[0], k) != "" && Render(ts, k) != ""
    ensures Render(ts, k)[0] == Staged(ts[0], k)[0]
  {
  }

  lemma {:induction false} PassDoubleDir(ts: seq<Token>)
    requires Lexed(ts)
    ensures ReplaceAll(Render(ts, 0), "**/", DIR_MARKER) == Render(ts, 1)
  {
    if ts != [] {
      var r := Render(ts[1..], 0);
      PassDoubleDir(ts[1..]);
      match ts[0] {
        case Lit(c) => ReplaceSkip(EscapeChar(c), r, "**/", DIR_MARKER);
        case Star =>
          StarsBeforeSlash(ts);
          ReplaceMiss('*', r, "**/", DIR_MARKER);
        case DoubleStar =>
          StarsBeforeSlash(ts);
          ReplaceMissTwice('*', r, "**/", DIR_MARKER);
        case DoubleDir => ReplaceHit(r, "**/", DIR_MARKER);
      }
    }
  }

  lemma ReplaceMissTwice(c: char, r: string, pat: string, rep: string)
    requires pat != "" && !(pat <= [c] + r) && !(pat <= [c] + ([c] + r))
    ensures ReplaceAll([c, c] + r, pat, rep) == [c, c] + ReplaceAll(r, pat, rep)
  {
    assert [c, c] + r == [c] + ([c] + r);
    ReplaceMiss(c, [c] + r, pat, rep);
    ReplaceMiss(c, r, pat, rep);
  }

  lemma StarsBeforeSlash(ts: seq<Token>)
    requires Lexed(ts) && ts != [] && (ts[0] == Star || ts[0] == DoubleStar)
    ensures !("**/" <= ['*'] + Render(ts[1..], 0))
    ensures ts[0] == DoubleStar ==> !("**/" <= ['*'] + (['*'] + Render(ts[1..], 0)))
  {
    var r := Render(ts[1..], 0);
    if |ts| > 1 {
      RenderHead(ts[1..], 0);
      if ts[1] == Star {
        assert r == "*" + Render(ts[2..], 0) by { assert ts[1..][1..] == ts[2..]; }
        if |ts| > 2 { RenderHead(ts[2..], 0); }
      }
      NotPrefix("**/", ['*'] + r, if r[0] == '*' then 2 else 1);
      if ts[0] == DoubleStar { NotPrefix("**/", ['*'] + (['*'] + r), 2); }
    } else {
      NotPrefix("**/", ['*'] + r, 1);
      NotPrefix("**/", ['*'] + (['*'] + r), 2);
    }
  }

  lemma {:induction false} PassDoubleStar(ts: seq<Token>)
    requires Lexed(ts)
    ensures ReplaceAll(Render(ts, 1), "**", ANY_MARKER) == Render(ts, 2)
  {
    if ts != [] {
      var r := Render(ts[1..], 1);
      PassDoubleStar(ts[1..]);
      match ts[0] {
        case Lit(c) => ReplaceSkip(EscapeChar(c), r, "**", ANY_MARKER);
        case Star =>
          if |ts| > 1 { RenderHead(ts[1..], 1); }
          NotPrefix("**", ['*'] + r, 1);
          ReplaceMiss('*', r, "**", ANY_MARKER);
        case DoubleStar => ReplaceHit(r, "**", ANY_MARKER);
        case DoubleDir => ReplaceSkip(DIR_MARKER, r, "**", ANY_MARKER);
      }
    }
  }

  lemma {:induction false} PassStar(ts: seq<Token>)
    requires Lexed(ts)
    ensures ReplaceAll(Render(ts, 2), "*", "[^/]*") == Render(ts, 3)
  {
    if ts != [] {
      var r := Render(ts[1..], 2);
      PassStar(ts[1..]);
      match ts[0] {
        case Lit(c) => ReplaceSkip(EscapeChar(c), r, "*", "[^/]*");
        case Star => ReplaceHit(r, "*", "[^/]*");
        case DoubleStar => ReplaceSkip(ANY_MARKER, r, "*", "[^/]*");
        case DoubleDir => ReplaceSkip(DIR_MARKER, r, "*", "[^/]*");
      }
    }
  }

  // ----- the last two replacements -----

  /** Marker text: no character of it is escaped or belongs to a wildcard's expression. */
  predicate MarkerText(w: string) {
    w != "" && w[0] == '§' && MarkerChars(w)
  }

  lemma MarkersAreMarkerText()
    ensures MarkerText(DIR_MARKER) && MarkerText(ANY_MARKER)
  {
  }

  predicate MarkerChars(w: string) {
    forall k :: 0 <= k < |w| ==> w[k] == '§' || 'A' <= w[k] <= 'Z'
  }

  lemma TextHeadIs(c: char, ts: seq<Token>)
    requires MarkerChars([c]) && ts != []
    ensures TokenText(ts[0]) != "" && (ts[0] == Lit(c) <==> RegexText(ts)[0] == c)
    ensures ts[0] == Lit(c) ==> RegexText(ts) == [c] + RegexText(ts[1..])
  {
    assert [c][0] == c;
  }

  /** The emitted text starts with a marker exactly where its letters stand as literal tokens. */
  lemma {:induction false} MarkerAtTokens(w: string, ts: seq<Token>)
    requires MarkerChars(w)
    ensures w <= RegexText(ts) <==> Lits(w) <= ts
    ensures Lits(w) <= ts ==> RegexText(ts) == w + RegexText(ts[|w|..])
    decreases |w|
  {
    if w == "" {
      assert ts[0..] == ts;
    } else if ts != [] {
      TextHeadIs(w[0], ts);
      LitsPrefixCons(w, ts);
      if ts[0] == Lit(w[0]) {
        MarkerAtTokens(w[1..], ts[1..]);
        ConsPrefix(w[0], w[1..], RegexText(ts[1..]));
        assert w == [w[0]] + w[1..];
        if Lits(w) <= ts { TailText(w, ts); }
      } else {
        NotPrefix(w, RegexText(ts), 0);
      }
    }
  }

  lemma ConsPrefix(c: char, v: string, rest: string)
    ensures [c] + v <= [c] + rest <==> v <= rest
  {
    PrefixUnder([c], v, rest);
  }

  lemma TailText(w: string, ts: seq<Token>)
    requires w != "" && |w| <= |ts| && RegexText(ts) == [w[0]] + RegexText(ts[1..])
    requires RegexText(ts[1..]) == w[1..] + RegexText(ts[1..][|w| - 1..])
    ensures RegexText(ts) == w + RegexText(ts[|w|..])
  {
    assert ts[1..][|w| - 1..] == ts[|w|..];
    Regroup([w[0]], w[1..], RegexText(ts[|w|..]));
    assert w == [w[0]] + w[1..];
  }

  lemma Regroup(a: string, b: string, c: string)
    ensures a + (b + c) == (a + b) + c
  {
  }

  lemma LitsPrefixCons(w: string, ts: seq<Token>)
    requires w != "" && ts != []
    ensures Lits(w) <= ts <==> ts[0] == Lit(w[0]) && Lits(w[1..]) <= ts[1..]
  {
    var n := |w|;
    assert Lits(w) == [Lit(w[0])] + Lits(w[1..]);
    if Lits(w) <= ts { assert ts[1..][..n - 1] == ts[..n][1..]; }
    if ts[0] == Lit(w[0]) && Lits(w[1..]) <= ts[1..] { assert ts[..n] == [ts[0]] + ts[1..][..n - 1]; }
  }

  lemma PrefixUnder(u: string, v: string, s: string)
    ensures u + v <= u + s <==> v <= s
  {
    assert (u + s)[|u|..] == s && (u + v)[|u|..] == v;
    if v <= s { assert (u + s)[..|u + v|] == u + s[..|v|]; }
    if u + v <= u + s { assert s[..|v|] == (u + s)[..|u + v|][|u|..]; }
  }

  /** Replacing a marker in the text is recognising it in the tokens. */
  lemma {:induction false} ReplaceIsRecognise(ts: seq<Token>, w: string, t: Token)
    requires MarkerText(w)
    ensures ReplaceAll(RegexText(ts), w, TokenText(t)) == RegexText(Recognised(ts, w, t))
    decreases |ts|
  {
    if ts != [] {
      MarkerAtTokens(w, ts);
      if Lits(w) <= ts {
        ReplaceIsRecognise(ts[|w|..], w, t);
        ReplaceHit(RegexText(ts[|w|..]), w, TokenText(t));
      } else {
        var rest := RegexText(ts[1..]);
        ReplaceIsRecognise(ts[1..], w, t);
        MissToken(ts[0], rest, w, TokenText(t));
      }
    }
  }

  lemma MissToken(first: Token, rest: string, w: string, rep: string)
    requires MarkerText(w) && !(w <= TokenText(first) + rest)
    ensures ReplaceAll(TokenText(first) + rest, w, rep) == TokenText(first) + ReplaceAll(rest, w, rep)
  {
    if first == Lit('§') {
      ReplaceMiss('§', rest, w, rep);
    } else {
      ReplaceSkip(TokenText(first), rest, w, rep);
    }
  }

  lemma {:induction false} LitsText(w: string, ts: seq<Token>)
    requires MarkerChars(w)
    ensures RegexText(Lits(w) + ts) == w + RegexText(ts)
  {
    MarkerAtTokens(w, Lits(w) + ts);
    assert (Lits(w) + ts)[|w|..] == ts;
  }

  lemma {:induction false} SpelledText(ts: seq<Token>)
    ensures RegexText(Spelled(ts, true)) == Render(ts, 3)
  {
    MarkersAreMarkerText();
    if ts != [] {
      SpelledText(ts[1..]);
      var rest := Spelled(ts[1..], true);
      match ts[0] {
        case DoubleStar => LitsText(ANY_MARKER, rest);
        case DoubleDir => LitsText(DIR_MARKER, rest);
        case _ => assert ([ts[0]] + rest)[1..] == rest;
      }
    }
  }

  /** For every pattern: what the five replacements write, read as tokens. */
  lemma PassesEmit(p: string)
    ensures TranslatePasses(p) == RegexText(Emitted(Tokens(p)))
  {
    var ts := Tokens(p);
    PassesUpToStar(p);
    SpelledText(ts);
    MarkersAreMarkerText();
    ReplaceIsRecognise(Spelled(ts, true), DIR_MARKER, DoubleDir);
    ReplaceIsRecognise(AfterDirs(ts), ANY_MARKER, DoubleStar);
  }

  lemma PassesUpToStar(p: string)
    ensures TranslatePasses(p) == ExpandMarkers(Render(Tokens(p), 3))
  {
    var ts := Tokens(p);
    TokensLexed(p);
    EscapeRenders(ts);
    PassDoubleDir(ts);
    PassDoubleStar(ts);
    PassStar(ts);
  }

  // ----- exactly when the emitted tokens are the pattern's own -----

  lemma {:induction false} SpelledSign(w: string, ts: seq<Token>, dirs: bool)
    requires forall k :: 0 <= k < |w| ==> 'A' <= w[k] <= 'Z'
    ensures Lits(w + "§") <= Spelled(ts, dirs) <==> LitsThenSign(w, ts, dirs)
    decreases |w|
  {
    var s := Spelled(ts, dirs);
    if ts != [] {
      assert (w + "§")[0] == if w == "" then '§' else w[0];
      LitsPrefixCons(w + "§", s);
      if w == "" {
        assert ("" + "§")[1..] == "" && Lits("") <= s[1..];
      } else if ts[0] == Lit(w[0]) {
        SpelledSign(w[1..], ts[1..], dirs);
        assert (w + "§")[1..] == w[1..] + "§" && s[1..] == Spelled(ts[1..], dirs);
      }
    }
  }

  lemma RecogniseHit(xs: seq<Token>, w: string, t: Token)
    requires w != ""
    ensures Recognised(Lits(w) + xs, w, t) == [t] + Recognised(xs, w, t)
  {
    assert (Lits(w) + xs)[|w|..] == xs;
  }

  lemma RecogniseMiss(x: Token, xs: seq<Token>, w: string, t: Token)
    requires w != "" && !(Lits(w) <= [x] + xs)
    ensures Recognised([x] + xs, w, t) == [x] + Recognised(xs, w, t)
  {
    assert ([x] + xs)[1..] == xs;
  }

  lemma {:induction false} RecogniseSkip(u: seq<Token>, xs: seq<Token>, w: string, t: Token)
    requires w != "" && Lit(w[0]) !in u
    ensures Recognised(u + xs, w, t) == u + Recognised(xs, w, t)
  {
    if u == [] {
      assert u + xs == xs;
    } else {
      assert u + xs == [u[0]] + (u[1..] + xs);
      assert Lits(w)[0] == Lit(w[0]) && ([u[0]] + (u[1..] + xs))[0] == u[0];
      RecogniseMiss(u[0], u[1..] + xs, w, t);
      RecogniseSkip(u[1..], xs, w, t);
    }
  }

  /** The first recognition pass, token by token. */
  lemma DirsStep(ts: seq<Token>)
    requires ts != [] && !DirClash(ts)
    ensures AfterDirs(ts) == (if ts[0].DoubleStar? then Lits(ANY_MARKER) else [ts[0]]) + AfterDirs(ts[1..])
  {
    var s := Spelled(ts[1..], true);
    MarkerLits();
    match ts[0] {
      case DoubleDir => RecogniseHit(s, DIR_MARKER, DoubleDir);
      case DoubleStar =>
        SignThenName(s, ts[1..]);
        SkipAnyMarker(s);
      case Star => RecogniseSkip([Star], s, DIR_MARKER, DoubleDir);
      case Lit(c) =>
        if c == '§' {
          SignThenName(s, ts[1..]);
          RecogniseMiss(Lit('§'), s, DIR_MARKER, DoubleDir);
        } else {
          RecogniseSkip([Lit(c)], s, DIR_MARKER, DoubleDir);
        }
    }
  }

  lemma MarkerLits()
    ensures DIR_MARKER == "§" + ("GLOBDOUBLEDIR" + "§")
    ensures ANY_MARKER == "§" + ("GLOBDOUBLE" + "§")
    ensures Lits(DIR_MARKER)[0] == Lit('§') && Lits(ANY_MARKER)[0] == Lit('§')
  {
  }

  lemma SignThenName(s: seq<Token>, ts: seq<Token>)
    requires s == Spelled(ts, true)
    ensures Lits(DIR_MARKER) <= [Lit('§')] + s <==> LitsThenSign("GLOBDOUBLEDIR", ts, true)
  {
    MarkerLits();
    SpelledSign("GLOBDOUBLEDIR", ts, true);
    LitsPrefixCons(DIR_MARKER, [Lit('§')] + s);
    assert DIR_MARKER[1..] == "GLOBDOUBLEDIR" + "§" && ([Lit('§')] + s)[1..] == s;
  }

  /** The name between the two signs of a spelled marker. */
  lemma AnyMarkerParts() returns (name: seq<Token>)
    ensures Lits(ANY_MARKER) == [Lit('§')] + name + [Lit('§')] && |name| == 10 && Lit('§') !in name
  {
    name := Lits(ANY_MARKER)[1..11];
    assert ANY_MARKER[0] == '§' && ANY_MARKER[11] == '§' && |ANY_MARKER| == 12;
    assert forall k :: 1 <= k < 11 ==> ANY_MARKER[k] != '§';
    assert Lits(ANY_MARKER) == [Lits(ANY_MARKER)[0]] + name + [Lits(ANY_MARKER)[11]];
  }

  lemma NotLits(w: string, xs: seq<Token>, i: nat)
    requires i < |w| && (i >= |xs| || xs[i] != Lit(w[i]))
    ensures !(Lits(w) <= xs)
  {
  }

  /** A sign and a name without signs are passed over where no marker begins. */
  lemma SignAndName(name: seq<Token>, tail: seq<Token>, w: string, t: Token)
    requires w != "" && w[0] == '§' && Lit('§') !in name
    requires |name| + 1 < |w| && tail != [] && tail[0] != Lit(w[|name| + 1])
    ensures Recognised([Lit('§')] + name + tail, w, t) == [Lit('§')] + name + Recognised(tail, w, t)
  {
    var all := [Lit('§')] + (name + tail);
    assert all[|name| + 1] == tail[0];
    NotLits(w, all, |name| + 1);
    RecogniseMiss(Lit('§'), name + tail, w, t);
    RecogniseSkip(name, tail, w, t);
    Regrouped([Lit('§')], name, tail);
    Regrouped([Lit('§')], name, Recognised(tail, w, t));
  }

  lemma Regrouped(a: seq<Token>, b: seq<Token>, c: seq<Token>)
    ensures a + (b + c) == a + b + c
  {
  }

  lemma DirMarkerFacts()
    ensures |DIR_MARKER| == 15 && DIR_MARKER[0] == '§' && DIR_MARKER[11] == 'D'
  {
  }

  lemma AnyMarkerFacts()
    ensures |ANY_MARKER| == 12 && ANY_MARKER[0] == '§' && ANY_MARKER[11] == '§'
  {
  }

  lemma SkipMarker(any: seq<Token>, name: seq<Token>, s: seq<Token>, w: string, t: Token)
    requires any == [Lit('§')] + name + [Lit('§')] && Lit('§') !in name
    requires |name| + 1 < |w| && w[0] == '§' && w[|name| + 1] != '§' && !(Lits(w) <= [Lit('§')] + s)
    ensures Recognised(any + s, w, t) == any + Recognised(s, w, t)
  {
    SignAndName(name, [Lit('§')] + s, w, t);
    RecogniseMiss(Lit('§'), s, w, t);
    Regrouped([Lit('§')] + name, [Lit('§')], s);
    Regrouped([Lit('§')] + name, [Lit('§')], Recognised(s, w, t));
  }

  lemma SkipAnyMarker(s: seq<Token>)
    requires !(Lits(DIR_MARKER) <= [Lit('§')] + s)
    ensures Recognised(Lits(ANY_MARKER) + s, DIR_MARKER, DoubleDir) == Lits(ANY_MARKER) + Recognised(s, DIR_MARKER, DoubleDir)
  {
    var name := AnyMarkerParts();
    DirMarkerFacts();
    SkipMarker(Lits(ANY_MARKER), name, s, DIR_MARKER, DoubleDir);
  }

  /** Where a false marker of a slash begins, the emitted tokens part from the pattern's. */
  lemma DirClashParts(ts: seq<Token>)
    requires DirClash(ts)
    ensures Emitted(ts) != [] && Emitted(ts)[0] != ts[0]
    ensures ts[0].DoubleStar? ==> Emitted(ts)[0] == Lit('§')
  {
    var s := Spelled(ts[1..], true);
    var tail := [Lit('§')] + s;
    SignThenName(s, ts[1..]);
    var rest := Recognised(tail[|DIR_MARKER|..], DIR_MARKER, DoubleDir);
    RecogniseHere(tail, DIR_MARKER, DoubleDir);
    if ts[0].DoubleStar? {
      CutMarker(s, rest);
    } else {
      assert Spelled(ts, true) == tail;
      SkipDoubleDir(rest);
    }
  }

  lemma RecogniseHere(xs: seq<Token>, w: string, t: Token)
    requires w != "" && Lits(w) <= xs
    ensures Recognised(xs, w, t) == [t] + Recognised(xs[|w|..], w, t)
  {
  }

  lemma SkipDoubleDir(rest: seq<Token>)
    ensures Recognised([DoubleDir] + rest, ANY_MARKER, DoubleStar) == [DoubleDir] + Recognised(rest, ANY_MARKER, DoubleStar)
  {
    MarkerLits();
    RecogniseSkip([DoubleDir], rest, ANY_MARKER, DoubleStar);
  }

  /** The closing sign of a spelled marker went into a false one: its opening sign stays a literal. */
  lemma CutMarker(s: seq<Token>, rest: seq<Token>)
    requires Recognised([Lit('§')] + s, DIR_MARKER, DoubleDir) == [DoubleDir] + rest
    ensures var xs := Recognised(Recognised(Lits(ANY_MARKER) + s, DIR_MARKER, DoubleDir), ANY_MARKER, DoubleStar);
      xs != [] && xs[0] == Lit('§')
  {
    var name := AnyMarkerParts();
    DirMarkerFacts();
    AnyMarkerFacts();
    Regrouped([Lit('§')] + name, [Lit('§')], s);
    SignAndName(name, [Lit('§')] + s, DIR_MARKER, DoubleDir);
    SignAndName(name, [DoubleDir] + rest, ANY_MARKER, DoubleStar);
  }

  /** Without a false marker here, one token is emitted as it is, or a literal sign as the start of a false `**`. */
  lemma EmittedStep(ts: seq<Token>)
    requires ts != [] && !DirClash(ts)
    ensures if ts[0] == Lit('§') && Lits(ANY_MARKER) <= [ts[0]] + AfterDirs(ts[1..]) then Emitted(ts) != [] && Emitted(ts)[0] == DoubleStar
      else Emitted(ts) == [ts[0]] + Emitted(ts[1..])
  {
    var rest := AfterDirs(ts[1..]);
    DirsStep(ts);
    MarkerLits();
    if ts[0].DoubleStar? {
      RecogniseHit(rest, ANY_MARKER, DoubleStar);
    } else if ts[0] == Lit('§') {
      if !(Lits(ANY_MARKER) <= [ts[0]] + rest) {
        RecogniseMiss(ts[0], rest, ANY_MARKER, DoubleStar);
      }
    } else {
      RecogniseSkip([ts[0]], rest, ANY_MARKER, DoubleStar);
    }
  }

  lemma {:induction false} DirsAreRead(ts: seq<Token>)
    requires !MarkersClash(ts)
    ensures AfterDirs(ts) == Spelled(ts, false)
  {
    if ts != [] {
      DirsStep(ts);
      DirsAreRead(ts[1..]);
    }
  }

  lemma AnyAfterDirs(ts: seq<Token>)
    requires ts != [] && ts[0] == Lit('§') && !MarkersClash(ts[1..])
    ensures Lits(ANY_MARKER) <= [ts[0]] + AfterDirs(ts[1..]) <==> AnyClash(ts)
  {
    var s := Spelled(ts[1..], false);
    DirsAreRead(ts[1..]);
    MarkerLits();
    SpelledSign("GLOBDOUBLE", ts[1..], false);
    LitsPrefixCons(ANY_MARKER, [Lit('§')] + s);
    assert ANY_MARKER[1..] == "GLOBDOUBLE" + "§" && ([Lit('§')] + s)[1..] == s;
  }

  lemma SameTail(ts: seq<Token>, all: seq<Token>, rest: seq<Token>)
    requires ts != [] && all == [ts[0]] + rest
    ensures all == ts <==> rest == ts[1..]
  {
    assert all[1..] == rest && ts == [ts[0]] + ts[1..];
  }

  lemma OneEmitted(ts: seq<Token>)
    requires ts != [] && !DirClash(ts) && (Emitted(ts[1..]) == ts[1..] <==> !MarkersClash(ts[1..]))
    ensures Emitted(ts) == ts <==> !AnyClash(ts) && !MarkersClash(ts[1..])
  {
    EmittedStep(ts);
    if ts[0] == Lit('§') && !MarkersClash(ts[1..]) { AnyAfterDirs(ts); }
    if Emitted(ts) == [ts[0]] + Emitted(ts[1..]) { SameTail(ts, Emitted(ts), Emitted(ts[1..])); }
  }

  /** The emitted tokens are the pattern's own exactly when no false marker is spelled. */
  lemma {:induction false} EmittedExactly(ts: seq<Token>)
    ensures Emitted(ts) == ts <==> !MarkersClash(ts)
  {
    if ts != [] {
      EmittedExactly(ts[1..]);
      if DirClash(ts) { DirClashParts(ts); } else { OneEmitted(ts); }
    }
  }

  /** The regular expression determines the tokens. */
  lemma {:induction false} TextDetermines(a: seq<Token>, b: seq<Token>)
    requires RegexText(a) == RegexText(b)
    ensures a == b
    decreases |a|
  {
    if a != [] && b != [] {
      SameHead(a, b);
      var n := |TokenText(a[0])|;
      assert RegexText(a)[n..] == RegexText(a[1..]) && RegexText(b)[n..] == RegexText(b[1..]);
      TextDetermines(a[1..], b[1..]);
      assert a == [a[0]] + a[1..] && b == [b[0]] + b[1..];
    }
  }

  lemma SameHead(a: seq<Token>, b: seq<Token>)
    requires a != [] && b != [] && RegexText(a) == RegexText(b)
    ensures a[0] == b[0]
  {
    var s, u, v := RegexText(a), TokenText(a[0]), TokenText(b[0]);
    assert s[0] == u[0] == v[0];
    if |u| > 1 && |v| > 1 { assert s[1] == u[1] == v[1]; }
    TwoCharacters(a[0], b[0]);
  }

  /** The first two characters tell the tokens' texts apart. */
  lemma TwoCharacters(a: Token, b: Token)
    ensures var u, v := TokenText(a), TokenText(b);
      u != "" && v != "" && (a == b || u[0] != v[0] || (|u| > 1 && |v| > 1 && u[1] != v[1]))
  {
  }

  /** For every pattern: the passes write the text of the one-pass tokenizer exactly when no false marker is spelled. */
  lemma PassesAgreeExactly(p: string)
    ensures TranslatePasses(p) == RegexText(Tokens(p)) <==> ClashFree(p)
  {
    PassesEmit(p);
    EmittedExactly(Tokens(p));
    if TranslatePasses(p) == RegexText(Tokens(p)) { TextDetermines(Emitted(Tokens(p)), Tokens(p)); }
  }

  /** Without a literal sign, a clash leaves one behind in the emitted tokens. */
  lemma {:induction false} ClashLeavesSign(ts: seq<Token>)
    requires Lit('§') !in ts && MarkersClash(ts)
    ensures Lit('§') in Emitted(ts)
  {
    if DirClash(ts) {
      DirClashParts(ts);
    } else {
      EmittedStep(ts);
      ClashLeavesSign(ts[1..]);
    }
  }

  lemma {:induction false} SignFreeTokens(p: string)
    requires '§' !in p
    ensures Lit('§') !in Tokens(p)
    decreases |p|
  {
    if p != "" { SignFreeTokens(AfterToken(p)); }
  }

  /** A pattern that mentions neither the sign nor the marker name cannot clash. */
  lemma {:induction false} NameFreeIsClashFree(p: string)
    requires '§' !in p && !Occurs("GLOBDOUBLEDIR", p)
    ensures ClashFree(p)
  {
    TokensLexed(p);
    SignFreeTokens(p);
    NoNameNoClash(Tokens(p));
  }

  lemma {:induction false} NoNameNoClash(ts: seq<Token>)
    requires Lit('§') !in ts && !Occurs("GLOBDOUBLEDIR", Source(ts))
    ensures !MarkersClash(ts)
  {
    if ts != [] {
      var p, q := Source(ts), Source(ts[1..]);
      var n := |p| - |q|;
      assert q == p[n..];
      if LitsThenSign("GLOBDOUBLEDIR", ts[1..], true) {
        LitsInSource("GLOBDOUBLEDIR", ts[1..]);
        assert q[0..] == q && At("GLOBDOUBLEDIR", q, 0);
        OccursInSuffix("GLOBDOUBLEDIR", p, n);
      }
      if Occurs("GLOBDOUBLEDIR", q) { OccursInSuffix("GLOBDOUBLEDIR", p, n); }
      NoNameNoClash(ts[1..]);
    }
  }

  lemma {:induction false} LitsInSource(w: string, ts: seq<Token>)
    requires LitsThenSign(w, ts, true)
    ensures w <= Source(ts)
    decreases |w|
  {
    if w != "" {
      LitsInSource(w[1..], ts[1..]);
      assert w == [w[0]] + w[1..];
      assert Source(ts) == [w[0]] + Source(ts[1..]);
    }
  }
}
