/** Reading the compiled text back as a regular expression, and what it matches. */
module GlobRegex {
  import opened Strings
  import opened Glob

  datatype Re =
    | Eps
    | Chr(c: char)
    | NotSlash
    | Dot
    | Cat(l: Re, r: Re)
    | Many(body: Re)
    | Opt(body: Re)

  datatype Parsed = Fail | Ok(re: Re, rest: string)

  // ----- a reader for the regular-expression syntax the compilers emit -----

  /** The syntax characters of ECMA-262, section 22.2.1: only these can be escaped here, and none stands for itself. */
  predicate IsSyntax(c: char) {
    c in "^$\\.*+?()[]{}|"
  }

  function ParseAtom(s: string): (p: Parsed)
    ensures p.Ok? ==> |p.rest| < |s|
    decreases |s|, 0
  {
    if s == "" then Fail
    else if s[0] == '\\' then (if |s| > 1 && IsSyntax(s[1]) then Ok(Chr(s[1]), s[2..]) else Fail)
    else if "[^/]" <= s then Ok(NotSlash, s[4..])
    else if "(?:" <= s then
      (match ParseSeq(s[3..])
       case Fail => Fail
       case Ok(re, rest) => if rest != "" then Ok(re, rest[1..]) else Fail)
    else if s[0] == '.' then Ok(Dot, s[1..])
    else if IsSyntax(s[0]) then Fail
    else Ok(Chr(s[0]), s[1..])
  }

  /** An atom with its quantifier; a `?` after a quantifier only makes it lazy. */
  function ParseTerm(s: string): (p: Parsed)
    ensures p.Ok? ==> |p.rest| < |s|
    decreases |s|, 1
  {
    match ParseAtom(s)
    case Fail => Fail
    case Ok(re, rest) =>
      if rest != "" && rest[0] == '*' then Ok(Many(re), DropLazy(rest[1..]))
      else if rest != "" && rest[0] == '?' then Ok(Opt(re), DropLazy(rest[1..]))
      else Ok(re, rest)
  }

  function DropLazy(s: string): string {
    if s != "" && s[0] == '?' then s[1..] else s
  }

  /** Terms up to the end of the text or an unescaped closing parenthesis. */
  function ParseSeq(s: string): (p: Parsed)
    ensures p.Ok? ==> |p.rest| <= |s| && (p.rest == "" || p.rest[0] == ')')
    decreases |s|, 2
  {
    if s == "" || s[0] == ')' then Ok(Eps, s)
    else
      match ParseTerm(s)
      case Fail => Fail
      case Ok(re, rest) =>
        match ParseSeq(rest)
        case Fail => Fail
        case Ok(more, rest') => Ok(Cat(re, more), rest')
  }

  // ----- matching -----

  predicate IsLineTerminator(c: char) {
    c == '\n' || c == '\r' || c == '\U{2028}' || c == '\U{2029}'
  }

  predicate OneLine(s: string) {
    forall c <- s :: !IsLineTerminator(c)
  }

  /** The language of a regular expression, anchored at both ends. */
  ghost predicate Matches(r: Re, s: string)
    decreases r, |s|
  {
    match r
    case Eps => s == ""
    case Chr(c) => s == [c]
    case NotSlash => |s| == 1 && s[0] != '/'
    case Dot => |s| == 1 && !IsLineTerminator(s[0])
    case Cat(a, b) => exists k | 0 <= k <= |s| :: Matches(a, s[..k]) && Matches(b, s[k..])
    case Many(a) => s == "" || exists k | 0 < k <= |s| :: Matches(a, s[..k]) && Matches(r, s[k..])
    case Opt(a) => s == "" || Matches(a, s)
  }

  // ----- the compiler -----

  datatype GlobError = EmptyPattern | NulByte | BadRegex
  datatype Compiled = Regex(re: Re) | Error(error: GlobError)

  function CompileText(text: string): Compiled {
    match ParseSeq(text)
    case Ok(re, "") => Regex(re)
    case _ => Error(BadRegex)
  }

  function GlobToRegExp(pattern: string): Compiled {
    if pattern == "" then Error(EmptyPattern)
    else if '\0' in pattern then Error(NulByte)
    else CompileText(TranslatePasses(pattern))
  }

  predicate IsValidGlob(pattern: string) {
    GlobToRegExp(pattern).Regex?
  }

  // ----- what the emitted text parses to -----

  const ANY_RE := Many(Dot)
  const STAR_RE := Many(NotSlash)
  const DIR_RE := Opt(Cat(Many(Dot), Cat(Chr('/'), Eps)))

  /** One token's regular expression. */
  function TokenRe(t: Token): Re {
    match t
    case Lit(c) => Chr(c)
    case Star => STAR_RE
    case DoubleStar => ANY_RE
    case DoubleDir => DIR_RE
  }

  /** No star is left as a literal. */
  predicate Plain(ts: seq<Token>) {
    Lit('*') !in ts
  }

  predicate Marked(ts: seq<Token>) {
    ts != [] && ts[0] == Lit('?')
  }

  function AfterMark(ts: seq<Token>): (r: seq<Token>)
    ensures |r| <= |ts|
  {
    if Marked(ts) then ts[1..] else ts
  }

  /** The parse of a token list: an unescaped `?` quantifies a literal, makes a wildcard lazy, and is
      a syntax error anywhere else. */
  function TokensRe(ts: seq<Token>): Compiled
    decreases |ts|
  {
    if ts == [] then Regex(Eps)
    else if Marked(ts) then Error(BadRegex)
    else
      match TokensRe(AfterTerm(ts))
      case Error(e) => Error(e)
      case Regex(more) => Regex(Cat(TermRe(ts), more))
  }

  /** A literal followed by `?` is optional. */
  predicate Quantified(ts: seq<Token>)
    requires ts != []
  {
    ts[0].Lit? && Marked(ts[1..])
  }

  function TermRe(ts: seq<Token>): Re
    requires ts != []
  {
    if Quantified(ts) then Opt(TokenRe(ts[0])) else TokenRe(ts[0])
  }

  function AfterTerm(ts: seq<Token>): (rest: seq<Token>)
    requires ts != []
    ensures |rest| < |ts|
  {
    if Quantified(ts) then AfterMark(ts[2..]) else if ts[0].Lit? then ts[1..] else AfterMark(ts[1..])
  }

  lemma TextHead(ts: seq<Token>)
    requires Plain(ts) && ts != []
    ensures RegexText(ts) != "" && RegexText(ts)[0] == TokenText(ts[0])[0]
    ensures RegexText(ts)[0] == '?' <==> Marked(ts)
    ensures RegexText(ts)[0] != '*' && RegexText(ts)[0] != ')'
  {
  }

  lemma LazyText(ts: seq<Token>)
    requires Plain(ts)
    ensures DropLazy(RegexText(ts)) == RegexText(AfterMark(ts)) && Plain(AfterMark(ts))
  {
    if ts != [] { TextHead(ts); }
  }

  lemma StarAtoms(v: string)
    ensures ParseAtom("[^/]*" + v) == Ok(NotSlash, "*" + v)
    ensures ParseAtom(".*" + v) == Ok(Dot, "*" + v)
  {
    var s, t := "[^/]*" + v, ".*" + v;
    assert s[4..] == "*" + v;
    assert t[1..] == "*" + v;
    NotPrefix("[^/]", t, 0);
    NotPrefix("(?:", t, 0);
  }

  /** The code escapes what the reader takes for syntax, its own wildcards and the question mark apart. */
  lemma EscapedIsSyntax(c: char)
    ensures IsMeta(c) <==> IsSyntax(c) && c != '*' && c != '?'
  {
  }

  lemma LitAtom(c: char, v: string)
    requires c != '*' && c != '?'
    ensures ParseAtom(EscapeChar(c) + v) == Ok(Chr(c), v)
  {
    var s := EscapeChar(c) + v;
    EscapedIsSyntax(c);
    if IsMeta(c) {
      assert s[0] == '\\' && s[1] == c && s[2..] == v;
    } else {
      assert s[0] == c && s[1..] == v;
      NotPrefix("[^/]", s, 0);
      NotPrefix("(?:", s, 0);
    }
  }

  lemma GroupAtom(v: string)
    ensures ParseAtom("(?:.*/)?" + v) == Ok(DIR_RE.body, "?" + v)
  {
    var s := "(?:.*/)?" + v;
    NotPrefix("[^/]", s, 0);
    var close := ")?" + v;
    GroupBody(close);
    assert s[3..] == ".*/" + close;
    assert close[1..] == "?" + v;
  }

  lemma GroupBody(close: string)
    requires close != "" && close[0] == ')'
    ensures ParseSeq(".*/" + close) == Ok(DIR_RE.body, close)
  {
    var inner, slash := ".*/" + close, "/" + close;
    StarAtoms(slash);
    assert inner == ".*" + slash;
    assert ("*" + slash)[1..] == slash;
    assert ParseTerm(inner) == Ok(Many(Dot), slash);
    SlashTail(close);
  }

  lemma SlashTail(close: string)
    requires close != "" && close[0] == ')'
    ensures ParseSeq("/" + close) == Ok(Cat(Chr('/'), Eps), close)
  {
    LitAtom('/', close);
    assert "/" + close == EscapeChar('/') + close;
    assert ParseTerm("/" + close) == Ok(Chr('/'), close);
    assert ParseSeq(close) == Ok(Eps, close);
  }

  lemma TermText(ts: seq<Token>)
    requires Plain(ts) && ts != [] && !Marked(ts)
    ensures Plain(AfterTerm(ts))
    ensures ParseTerm(RegexText(ts)) == Ok(TermRe(ts), RegexText(AfterTerm(ts)))
  {
    var v := RegexText(ts[1..]);
    if ts[0].Lit? {
      LitTerm(ts);
    } else {
      if ts[0].DoubleDir? { GroupAtom(v); } else { StarAtoms(v); }
      LazyText(ts[1..]);
      assert ("*" + v)[1..] == v && ("?" + v)[1..] == v;
    }
  }

  lemma LitTerm(ts: seq<Token>)
    requires Plain(ts) && ts != [] && !Marked(ts) && ts[0].Lit?
    ensures Plain(AfterTerm(ts))
    ensures ParseTerm(RegexText(ts)) == Ok(TermRe(ts), RegexText(AfterTerm(ts)))
  {
    var v := RegexText(ts[1..]);
    LitAtom(ts[0].c, v);
    if |ts| > 1 { TextHead(ts[1..]); }
    if Quantified(ts) {
      assert ts[1..][1..] == ts[2..];
      assert v == "?" + RegexText(ts[2..]);
      assert v[1..] == RegexText(ts[2..]);
      LazyText(ts[2..]);
    }
  }

  /** The emitted text, read as a regular expression. */
  lemma {:induction false} TextParses(ts: seq<Token>)
    requires Plain(ts)
    ensures CompileText(RegexText(ts)) == TokensRe(ts)
    ensures ParseSeq(RegexText(ts)).Ok? ==> ParseSeq(RegexText(ts)).rest == ""
    decreases |ts|
  {
    if ts != [] {
      TextHead(ts);
      if Marked(ts) {
        NotPrefix("[^/]", RegexText(ts), 0);
        NotPrefix("(?:", RegexText(ts), 0);
        assert ParseTerm(RegexText(ts)) == Fail;
      } else {
        TermText(ts);
        TextParses(AfterTerm(ts));
      }
    }
  }

  lemma {:induction false} LexedIsPlain(ts: seq<Token>)
    requires Lexed(ts)
    ensures Plain(ts)
  {
    if ts != [] { LexedIsPlain(ts[1..]); }
  }

  lemma {:induction false} RecognisedKeeps(c: char, ts: seq<Token>, w: string, t: Token)
    requires w != "" && !t.Lit? && Lit(c) !in ts
    ensures Lit(c) !in Recognised(ts, w, t)
    decreases |ts|
  {
    if ts != [] {
      if Lits(w) <= ts { RecognisedKeeps(c, ts[|w|..], w, t); }
      RecognisedKeeps(c, ts[1..], w, t);
    }
  }

  lemma {:induction false} SpelledKeeps(c: char, ts: seq<Token>)
    requires !MarkerChars([c]) && Lit(c) !in ts
    ensures Lit(c) !in Spelled(ts, true)
  {
    if ts != [] {
      SpelledKeeps(c, ts[1..]);
      MarkersAreMarkerText();
      assert [c][0] == c;
    }
  }

  /** Translating brings in no literal but the characters of the markers. */
  lemma EmittedKeeps(c: char, ts: seq<Token>)
    requires !MarkerChars([c]) && Lit(c) !in ts
    ensures Lit(c) !in Emitted(ts)
  {
    SpelledKeeps(c, ts);
    RecognisedKeeps(c, Spelled(ts, true), DIR_MARKER, DoubleDir);
    RecognisedKeeps(c, AfterDirs(ts), ANY_MARKER, DoubleStar);
  }

  /** Every pattern compiles to the expression of its emitted tokens, or is refused. */
  lemma CompileIsTokens(p: string)
    ensures GlobToRegExp(p) ==
      if p == "" then Error(EmptyPattern)
      else if '\0' in p then Error(NulByte)
      else TokensRe(Emitted(Tokens(p)))
  {
    PassesEmit(p);
    TokensLexed(p);
    LexedIsPlain(Tokens(p));
    assert ['*'][0] == '*';
    EmittedKeeps('*', Tokens(p));
    TextParses(Emitted(Tokens(p)));
  }

  // ----- which patterns compile -----

  /** At most two question marks follow a literal and at most one a wildcard; none stands at the start. */
  predicate MarksFit(ts: seq<Token>, room: nat) {
    ts == [] ||
    if ts[0] == Lit('?') then room > 0 && MarksFit(ts[1..], room - 1)
    else MarksFit(ts[1..], if ts[0].Lit? then 2 else 1)
  }

  lemma FitAfterMark(ts: seq<Token>, room: nat)
    ensures MarksFit(ts, room + 1) <==> MarksFit(AfterMark(ts), room)
    ensures !Marked(ts) ==> (MarksFit(ts, room) <==> MarksFit(ts, 0))
  {
  }

  lemma {:induction false} CompilesExactly(ts: seq<Token>)
    ensures TokensRe(ts).Regex? <==> MarksFit(ts, 0)
    decreases |ts|
  {
    if ts != [] && !Marked(ts) {
      var rest := ts[1..];
      CompilesExactly(AfterTerm(ts));
      FitAfterMark(rest, 0);
      FitAfterMark(rest, 1);
      if Quantified(ts) {
        assert rest[1..] == ts[2..];
        FitAfterMark(ts[2..], 0);
      } else {
        FitAfterMark(rest, 2);
      }
    }
  }

  /** A pattern is accepted at load time exactly when it is not empty, has no NUL and its question marks fit. */
  lemma IsValidGlobExactly(p: string)
    ensures IsValidGlob(p) <==> p != "" && '\0' !in p && MarksFit(Emitted(Tokens(p)), 0)
  {
    CompileIsTokens(p);
    CompilesExactly(Emitted(Tokens(p)));
  }
}
