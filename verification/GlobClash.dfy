/** False markers of the core glob compiler: the emitted tokens in one pass, and the proof that a false marker always
    changes the literals of the pattern. */
module GlobClash {
  import opened Glob

  const SIGN := Lit('§')
  const DIR_NAME := "GLOBDOUBLEDIR"
  const ANY_NAME := "GLOBDOUBLE"

  // ----- the emitted tokens in one pass -----

  /** Where a marker's name stands before a sign that the first recognition leaves alone. */
  predicate NameThenSign(w: string, ts: seq<Token>)
    decreases |w|
  {
    ts != [] &&
    if w == "" then (ts[0] == SIGN && !DirClash(ts)) || ts[0].DoubleStar?
    else ts[0] == Lit(w[0]) && NameThenSign(w[1..], ts[1..])
  }

  predicate AnyRecognised(ts: seq<Token>) {
    ts != [] && ts[0] == SIGN && NameThenSign(ANY_NAME, ts[1..])
  }

  /** What is left of the token whose opening sign closed a false marker, with the tokens behind it. */
  function CutOpen(x: Token): seq<Token> {
    match x
    case DoubleStar => Lits(ANY_NAME)
    case DoubleDir => Lits(DIR_NAME)
    case _ => []
  }

  /** The tokens still to be read behind a false marker that was closed by the token `x`. */
  function Behind(x: Token, rest: seq<Token>): seq<Token> {
    if x.Lit? then rest else [SIGN] + rest
  }

  /** What a false marker leaves of the token it begins in. */
  function Opening(t: Token): seq<Token> {
    if t.DoubleStar? then [SIGN] + Lits(ANY_NAME) else []
  }

  lemma {:induction false} SignAt(w: string, ts: seq<Token>, dirs: bool)
    requires LitsThenSign(w, ts, dirs)
    ensures |w| < |ts| && ts[..|w|] == Lits(w)
    ensures ts[|w|] == SIGN || ts[|w|].DoubleStar? || (ts[|w|].DoubleDir? && dirs)
    decreases |w|
  {
    if w != "" { SignAt(w[1..], ts[1..], dirs); }
  }

  lemma {:induction false} NameIsBeforeSign(w: string, ts: seq<Token>)
    requires NameThenSign(w, ts)
    ensures LitsThenSign(w, ts, false) && |w| < |ts| && ts[..|w|] == Lits(w)
    ensures (ts[|w|] == SIGN && !DirClash(ts[|w|..])) || ts[|w|].DoubleStar?
    decreases |w|
  {
    if w != "" {
      NameIsBeforeSign(w[1..], ts[1..]);
      assert ts[1..][|w| - 1..] == ts[|w|..];
    } else {
      assert ts[0..] == ts;
    }
  }

  /** The emitted tokens, read off the pattern's own in one pass. */
  function OnePass(ts: seq<Token>): seq<Token>
    decreases |ts|
  {
    if ts == [] then []
    else if DirClash(ts) then
      SignAt(DIR_NAME, ts[1..], true);
      var x, rest := ts[1 + |DIR_NAME|], ts[2 + |DIR_NAME|..];
      Opening(ts[0]) + [DoubleDir] + CutOpen(x) + OnePass(Behind(x, rest))
    else if AnyRecognised(ts) then
      NameIsBeforeSign(ANY_NAME, ts[1..]);
      var x, rest := ts[1 + |ANY_NAME|], ts[2 + |ANY_NAME|..];
      [DoubleStar] + CutOpen(x) + OnePass(Behind(x, rest))
    else [ts[0]] + OnePass(ts[1..])
  }

  // ----- it is what the two recognitions give -----

  lemma Names()
    ensures DIR_MARKER == "§" + DIR_NAME + "§" && ANY_MARKER == "§" + ANY_NAME + "§"
    ensures |DIR_NAME| == 13 && |ANY_NAME| == 10
    ensures forall k :: 0 <= k < |DIR_NAME| ==> 'A' <= DIR_NAME[k] <= 'Z'
    ensures forall k :: 0 <= k < |ANY_NAME| ==> 'A' <= ANY_NAME[k] <= 'Z'
  {
  }

  lemma MarkerParts()
    ensures Lits(DIR_MARKER) == [SIGN] + Lits(DIR_NAME) + [SIGN]
    ensures Lits(ANY_MARKER) == [SIGN] + Lits(ANY_NAME) + [SIGN]
    ensures SIGN !in Lits(DIR_NAME) && SIGN !in Lits(ANY_NAME)
  {
    Names();
    LitsConcat("§" + DIR_NAME, "§");
    LitsConcat("§", DIR_NAME);
    LitsConcat("§" + ANY_NAME, "§");
    LitsConcat("§", ANY_NAME);
    assert Lits("§") == [SIGN];
  }

  lemma LitsConcat(u: string, v: string)
    ensures Lits(u + v) == Lits(u) + Lits(v)
  {
  }

  lemma SpelledCons(t: Token, rest: seq<Token>)
    ensures Spelled([t] + rest, true) ==
      (if t.DoubleStar? then Lits(ANY_MARKER) else if t.DoubleDir? then Lits(DIR_MARKER) else [t]) + Spelled(rest, true)
  {
    assert ([t] + rest)[1..] == rest;
  }

  lemma {:induction false} SpelledLits(w: string, rest: seq<Token>)
    ensures Spelled(Lits(w) + rest, true) == Lits(w) + Spelled(rest, true)
  {
    if w == "" {
      assert Lits(w) + rest == rest;
    } else {
      SpelledLits(w[1..], rest);
      LitsCons(w, rest);
      LitsCons(w, Spelled(rest, true));
      SpelledCons(Lit(w[0]), Lits(w[1..]) + rest);
    }
  }

  lemma LitsCons(w: string, rest: seq<Token>)
    requires w != ""
    ensures Lits(w) + rest == [Lit(w[0])] + (Lits(w[1..]) + rest)
  {
  }

  /** The spelled form of a token that can close a false marker: a sign, and what is behind it. */
  lemma SpelledSignFirst(x: Token, rest: seq<Token>)
    requires x == SIGN || x.DoubleStar? || x.DoubleDir?
    ensures Spelled([x] + rest, true) == [SIGN] + (CutOpen(x) + Spelled(Behind(x, rest), true))
  {
    MarkerParts();
    SpelledCons(x, rest);
    SpelledCons(SIGN, rest);
    Between(CutOpen(x), Spelled(rest, true));
  }

  lemma Between(name: seq<Token>, s: seq<Token>)
    ensures [SIGN] + name + [SIGN] + s == [SIGN] + (name + ([SIGN] + s))
    ensures [] + s == s
  {
  }

  lemma NameUntouched(x: Token, tail: seq<Token>, w: string, t: Token)
    requires w != "" && w[0] == '§'
    ensures Recognised(CutOpen(x) + tail, w, t) == CutOpen(x) + Recognised(tail, w, t)
  {
    MarkerParts();
    RecogniseSkip(CutOpen(x), tail, w, t);
  }

  lemma MarkerStarts()
    ensures DIR_MARKER != "" && DIR_MARKER[0] == '§' && ANY_MARKER != "" && ANY_MARKER[0] == '§'
    ensures |DIR_MARKER| == 15 && DIR_MARKER[11] == 'D' && |ANY_MARKER| == 12 && ANY_MARKER[11] == '§'
  {
    DirMarkerFacts();
    AnyMarkerFacts();
  }

  /** A false marker of a slash, in the first recognition. */
  lemma DirsOfName(x: Token, rest: seq<Token>)
    requires x == SIGN || x.DoubleStar? || x.DoubleDir?
    ensures Recognised([SIGN] + Spelled(Lits(DIR_NAME) + ([x] + rest), true), DIR_MARKER, DoubleDir) ==
      [DoubleDir] + (CutOpen(x) + AfterDirs(Behind(x, rest)))
  {
    var s := CutOpen(x) + Spelled(Behind(x, rest), true);
    SpelledName(x, rest);
    MarkerStarts();
    RecogniseHit(s, DIR_MARKER, DoubleDir);
    NameUntouched(x, Spelled(Behind(x, rest), true), DIR_MARKER, DoubleDir);
  }

  lemma SpelledName(x: Token, rest: seq<Token>)
    requires x == SIGN || x.DoubleStar? || x.DoubleDir?
    ensures [SIGN] + Spelled(Lits(DIR_NAME) + ([x] + rest), true) == Lits(DIR_MARKER) + (CutOpen(x) + Spelled(Behind(x, rest), true))
  {
    SpelledLits(DIR_NAME, [x] + rest);
    SpelledSignFirst(x, rest);
    MarkerParts();
    Between(Lits(DIR_NAME), CutOpen(x) + Spelled(Behind(x, rest), true));
  }

  /** The opening sign and the name of a double star's marker pass both recognitions when something else than a sign is
      left of its closing one. */
  lemma OpeningStays(s: seq<Token>, tail: seq<Token>)
    requires Recognised([SIGN] + s, DIR_MARKER, DoubleDir) == [DoubleDir] + tail
    ensures Recognised(Lits(ANY_MARKER) + s, DIR_MARKER, DoubleDir) == Opening(DoubleStar) + ([DoubleDir] + tail)
    ensures Recognised(Opening(DoubleStar) + ([DoubleDir] + tail), ANY_MARKER, DoubleStar) ==
      Opening(DoubleStar) + Recognised([DoubleDir] + tail, ANY_MARKER, DoubleStar)
  {
    var name := Lits(ANY_NAME);
    MarkerParts();
    MarkerStarts();
    Names();
    Regrouped([SIGN] + name, [SIGN], s);
    SignAndName(name, [SIGN] + s, DIR_MARKER, DoubleDir);
    SignAndName(name, [DoubleDir] + tail, ANY_MARKER, DoubleStar);
  }

  lemma DirPass(t: Token, x: Token, rest: seq<Token>)
    requires t == SIGN || t.DoubleStar?
    requires x == SIGN || x.DoubleStar? || x.DoubleDir?
    ensures Emitted([t] + (Lits(DIR_NAME) + ([x] + rest))) == Opening(t) + [DoubleDir] + CutOpen(x) + Emitted(Behind(x, rest))
  {
    var body, tail := Lits(DIR_NAME) + ([x] + rest), CutOpen(x) + AfterDirs(Behind(x, rest));
    DirsOfName(x, rest);
    FalseDir(t, body, x, rest);
    MarkerStarts();
    SkipDoubleDir(tail);
    NameUntouched(x, AfterDirs(Behind(x, rest)), ANY_MARKER, DoubleStar);
    if t.DoubleStar? { OpeningStays(Spelled(body, true), tail); }
    Grouped(Opening(t), CutOpen(x), Emitted(Behind(x, rest)));
  }

  lemma Grouped(a: seq<Token>, b: seq<Token>, c: seq<Token>)
    ensures a + ([DoubleDir] + (b + c)) == a + [DoubleDir] + b + c
    ensures [DoubleStar] + (b + c) == [DoubleStar] + b + c
    ensures [] + ([DoubleDir] + (b + c)) == [DoubleDir] + (b + c)
  {
  }

  /** What the first recognition makes of a token that can close a false `**` marker. */
  lemma DirsOfSign(x: Token, rest: seq<Token>)
    requires (x == SIGN && !DirClash([x] + rest)) || x.DoubleStar?
    ensures AfterDirs([x] + rest) == [SIGN] + (CutOpen(x) + AfterDirs(Behind(x, rest)))
  {
    MarkerParts();
    MarkerStarts();
    assert ([x] + rest)[1..] == rest;
    if x == SIGN {
      DirsStep([x] + rest);
      assert [] + AfterDirs(rest) == AfterDirs(rest);
    } else {
      var name, s := Lits(ANY_NAME), Spelled(rest, true);
      SpelledCons(x, rest);
      SpelledCons(SIGN, rest);
      Names();
      Regrouped([SIGN] + name, [SIGN], s);
      SignAndName(name, [SIGN] + s, DIR_MARKER, DoubleDir);
      Regrouped([SIGN], name, AfterDirs([SIGN] + rest));
    }
  }

  lemma {:induction false} DirsOfLetters(w: string, rest: seq<Token>)
    requires '§' !in w
    ensures AfterDirs(Lits(w) + rest) == Lits(w) + AfterDirs(rest)
  {
    MarkerStarts();
    SpelledLits(w, rest);
    RecogniseSkip(Lits(w), Spelled(rest, true), DIR_MARKER, DoubleDir);
  }

  lemma AnyPass(x: Token, rest: seq<Token>)
    requires (x == SIGN && !DirClash([x] + rest)) || x.DoubleStar?
    requires !DirClash([SIGN] + (Lits(ANY_NAME) + ([x] + rest)))
    ensures Emitted([SIGN] + (Lits(ANY_NAME) + ([x] + rest))) == [DoubleStar] + CutOpen(x) + Emitted(Behind(x, rest))
  {
    var tail := CutOpen(x) + AfterDirs(Behind(x, rest));
    DirsBeforeAny(x, rest);
    MarkerStarts();
    RecogniseHit(tail, ANY_MARKER, DoubleStar);
    NameUntouched(x, AfterDirs(Behind(x, rest)), ANY_MARKER, DoubleStar);
    Grouped([], CutOpen(x), Emitted(Behind(x, rest)));
  }

  lemma DirsBeforeAny(x: Token, rest: seq<Token>)
    requires (x == SIGN && !DirClash([x] + rest)) || x.DoubleStar?
    requires !DirClash([SIGN] + (Lits(ANY_NAME) + ([x] + rest)))
    ensures AfterDirs([SIGN] + (Lits(ANY_NAME) + ([x] + rest))) == Lits(ANY_MARKER) + (CutOpen(x) + AfterDirs(Behind(x, rest)))
  {
    var name, tail := Lits(ANY_NAME), CutOpen(x) + AfterDirs(Behind(x, rest));
    AnyNameLetters();
    FirstSignStays(name + ([x] + rest));
    DirsOfLetters(ANY_NAME, [x] + rest);
    DirsOfSign(x, rest);
    MarkerParts();
    Between(name, tail);
  }

  lemma AnyNameLetters()
    ensures '§' !in ANY_NAME && ANY_NAME != ""
  {
    Names();
  }

  lemma FirstSignStays(body: seq<Token>)
    requires !DirClash([SIGN] + body)
    ensures AfterDirs([SIGN] + body) == [SIGN] + AfterDirs(body)
  {
    assert ([SIGN] + body)[1..] == body;
    DirsStep([SIGN] + body);
  }

  lemma LettersTail(w: string)
    requires w != "" && forall k :: 0 <= k < |w| ==> 'A' <= w[k] <= 'Z'
    ensures forall k :: 0 <= k < |w[1..]| ==> 'A' <= w[1..][k] <= 'Z'
    ensures (w + "§")[0] == w[0] && (w + "§")[1..] == w[1..] + "§"
  {
  }

  /** The first recognition never turns anything into a letter. */
  lemma DirsHead(ts: seq<Token>)
    ensures ts == [] ==> AfterDirs(ts) == []
    ensures ts != [] && ts[0].Lit? && ts[0].c != '§' ==> AfterDirs(ts) == [ts[0]] + AfterDirs(ts[1..])
    ensures ts != [] && !(ts[0].Lit? && ts[0].c != '§') ==>
      AfterDirs(ts) != [] && (AfterDirs(ts)[0] == SIGN || !AfterDirs(ts)[0].Lit?)
    ensures ts != [] ==> (AfterDirs(ts)[0] == SIGN <==> (ts[0] == SIGN && !DirClash(ts)) || ts[0].DoubleStar?)
  {
    if ts != [] {
      if DirClash(ts) {
        DirsHeadClash(ts);
      } else {
        MarkerLits();
        DirsStep(ts);
      }
    }
  }

  lemma DirsHeadClash(ts: seq<Token>)
    requires DirClash(ts)
    ensures AfterDirs(ts) != [] && AfterDirs(ts)[0] == if ts[0].DoubleStar? then SIGN else DoubleDir
  {
    SignAt(DIR_NAME, ts[1..], true);
    var x, rest := ts[1 + |DIR_NAME|], ts[2 + |DIR_NAME|..];
    ClashShape(ts, x, rest);
    FalseDir(ts[0], ts[1..], x, rest);
  }

  lemma FalseDir(t: Token, body: seq<Token>, x: Token, rest: seq<Token>)
    requires t == SIGN || t.DoubleStar?
    requires x == SIGN || x.DoubleStar? || x.DoubleDir?
    requires body == Lits(DIR_NAME) + ([x] + rest)
    ensures AfterDirs([t] + body) == Opening(t) + ([DoubleDir] + (CutOpen(x) + AfterDirs(Behind(x, rest))))
  {
    var tail := CutOpen(x) + AfterDirs(Behind(x, rest));
    SpelledCons(t, body);
    DirsOfName(x, rest);
    if t.DoubleStar? { OpeningStays(Spelled(body, true), tail); }
    Grouped([], CutOpen(x), AfterDirs(Behind(x, rest)));
  }

  lemma ClashShape(ts: seq<Token>, x: Token, rest: seq<Token>)
    requires DirClash(ts) && 2 + |DIR_NAME| <= |ts| && x == ts[1 + |DIR_NAME|] && rest == ts[2 + |DIR_NAME|..]
    ensures ts[0] == SIGN || ts[0].DoubleStar?
    ensures x == SIGN || x.DoubleStar? || x.DoubleDir?
    ensures ts == [ts[0]] + (Lits(DIR_NAME) + ([x] + rest)) && ts[1..] == Lits(DIR_NAME) + ([x] + rest)
  {
    SignAt(DIR_NAME, ts[1..], true);
    Parts(ts, Lits(DIR_NAME), x, rest);
  }

  lemma Parts(ts: seq<Token>, name: seq<Token>, x: Token, rest: seq<Token>)
    requires 1 + |name| < |ts| && ts[1..][..|name|] == name && x == ts[1 + |name|] && rest == ts[2 + |name|..]
    ensures ts[1..] == name + ([x] + rest) && ts == [ts[0]] + (name + ([x] + rest))
  {
    assert ts[1..][|name|..] == [x] + rest;
  }

  lemma {:induction false} RecognisedName(w: string, ts: seq<Token>)
    requires forall k :: 0 <= k < |w| ==> 'A' <= w[k] <= 'Z'
    ensures Lits(w + "§") <= AfterDirs(ts) <==> NameThenSign(w, ts)
    decreases |w|
  {
    var s := AfterDirs(ts);
    DirsHead(ts);
    if ts != [] {
      LitsPrefixCons(w + "§", s);
      if w == "" {
        assert ("" + "§")[0] == '§' && ("" + "§")[1..] == "" && Lits("") <= s[1..];
      } else {
        LettersTail(w);
        if ts[0] == Lit(w[0]) {
          RecognisedName(w[1..], ts[1..]);
          assert s[1..] == AfterDirs(ts[1..]);
        }
      }
    }
  }

  lemma NoAnyHere(ts: seq<Token>)
    requires ts != [] && ts[0] == SIGN
    ensures Lits(ANY_MARKER) <= [ts[0]] + AfterDirs(ts[1..]) <==> AnyRecognised(ts)
  {
    var s := AfterDirs(ts[1..]);
    Names();
    MarkerLits();
    RecognisedName(ANY_NAME, ts[1..]);
    LitsPrefixCons(ANY_MARKER, [SIGN] + s);
    assert ANY_MARKER[1..] == ANY_NAME + "§" && ([SIGN] + s)[1..] == s;
  }

  lemma AnyShape(ts: seq<Token>, x: Token, rest: seq<Token>)
    requires AnyRecognised(ts) && 2 + |ANY_NAME| <= |ts| && x == ts[1 + |ANY_NAME|] && rest == ts[2 + |ANY_NAME|..]
    ensures (x == SIGN && !DirClash([x] + rest)) || x.DoubleStar?
    ensures ts == [SIGN] + (Lits(ANY_NAME) + ([x] + rest))
  {
    NameIsBeforeSign(ANY_NAME, ts[1..]);
    assert ts[1..][|ANY_NAME|..] == [x] + rest;
    Parts(ts, Lits(ANY_NAME), x, rest);
  }

  /** The two recognitions give what the one pass gives. */
  lemma {:induction false} EmittedIsOnePass(ts: seq<Token>)
    ensures Emitted(ts) == OnePass(ts)
    decreases |ts|
  {
    if ts == [] {
    } else if DirClash(ts) {
      SignAt(DIR_NAME, ts[1..], true);
      var x, rest := ts[1 + |DIR_NAME|], ts[2 + |DIR_NAME|..];
      ClashShape(ts, x, rest);
      DirPass(ts[0], x, rest);
      EmittedIsOnePass(Behind(x, rest));
    } else if AnyRecognised(ts) {
      NameIsBeforeSign(ANY_NAME, ts[1..]);
      var x, rest := ts[1 + |ANY_NAME|], ts[2 + |ANY_NAME|..];
      AnyShape(ts, x, rest);
      AnyPass(x, rest);
      EmittedIsOnePass(Behind(x, rest));
    } else {
      EmittedStep(ts);
      if ts[0] == SIGN { NoAnyHere(ts); }
      EmittedIsOnePass(ts[1..]);
    }
  }

  // ----- the literals that are left -----

  /** The shortest path a token list stands for: its literals. */
  function Shortest(ts: seq<Token>): string {
    if ts == [] then "" else (if ts[0].Lit? then [ts[0].c] else "") + Shortest(ts[1..])
  }

  /** How many letters `I` the literals have; of the two names only that of a slash's marker has one. */
  function Is(ts: seq<Token>): nat {
    if ts == [] then 0 else (if ts[0] == Lit('I') then 1 else 0) + Is(ts[1..])
  }

  /** The literal signs before the first `I`. */
  function Signs(ts: seq<Token>): nat {
    if ts == [] || ts[0] == Lit('I') then 0 else (if ts[0] == SIGN then 1 else 0) + Signs(ts[1..])
  }

  lemma {:induction false} CountsConcat(u: seq<Token>, v: seq<Token>)
    ensures Is(u + v) == Is(u) + Is(v)
    ensures Signs(u + v) == Signs(u) + if Is(u) == 0 then Signs(v) else 0
  {
    if u == [] {
      assert u + v == v;
    } else {
      CountsConcat(u[1..], v);
      assert (u + v)[1..] == u[1..] + v;
    }
  }

  /** Only literals count, so the shortest path decides the counts. */
  lemma {:induction false} CountsOfShortest(ts: seq<Token>)
    ensures Is(ts) == Is(Lits(Shortest(ts))) && Signs(ts) == Signs(Lits(Shortest(ts)))
  {
    if ts != [] {
      CountsOfShortest(ts[1..]);
      var s := Shortest(ts);
      if ts[0].Lit? {
        assert s[0] == ts[0].c && s[1..] == Shortest(ts[1..]);
        assert Lits(s)[1..] == Lits(s[1..]);
      } else {
        assert s == Shortest(ts[1..]);
      }
    }
  }

  lemma {:induction false} NoCounts(ts: seq<Token>)
    requires Lit('I') !in ts && SIGN !in ts
    ensures Is(ts) == 0 && Signs(ts) == 0
  {
    if ts != [] { NoCounts(ts[1..]); }
  }

  lemma OneI(u: seq<Token>, v: seq<Token>)
    requires Lit('I') !in u + v && SIGN !in u + v
    ensures Is(u + ([Lit('I')] + v)) == 1 && Signs(u + ([Lit('I')] + v)) == 0
  {
    NoCounts(u);
    NoCounts(v);
    assert ([Lit('I')] + v)[1..] == v;
    CountsConcat(u, [Lit('I')] + v);
  }

  lemma NameCounts()
    ensures Is(Lits(DIR_NAME)) == 1 && Signs(Lits(DIR_NAME)) == 0
    ensures Is(Lits(ANY_NAME)) == 0 && Signs(Lits(ANY_NAME)) == 0
  {
    var d := Lits(DIR_NAME);
    assert |d| == 13 && d[11] == Lit('I');
    assert forall k :: 0 <= k < 13 && k != 11 ==> d[k] != Lit('I') && d[k] != SIGN;
    assert d == d[..11] + ([d[11]] + d[12..]);
    OneI(d[..11], d[12..]);
    MarkerParts();
    assert forall k :: 0 <= k < |ANY_NAME| ==> ANY_NAME[k] != 'I';
    NoCounts(Lits(ANY_NAME));
  }

  // ----- the two kinds of false markers, taken apart -----

  lemma DirCase(ts: seq<Token>) returns (x: Token, rest: seq<Token>)
    requires DirClash(ts)
    ensures ts[0] == SIGN || ts[0].DoubleStar?
    ensures x == SIGN || x.DoubleStar? || x.DoubleDir?
    ensures ts == [ts[0]] + (Lits(DIR_NAME) + ([x] + rest)) && |Behind(x, rest)| < |ts|
    ensures OnePass(ts) == Opening(ts[0]) + [DoubleDir] + CutOpen(x) + OnePass(Behind(x, rest))
  {
    SignAt(DIR_NAME, ts[1..], true);
    x, rest := ts[1 + |DIR_NAME|], ts[2 + |DIR_NAME|..];
    ClashShape(ts, x, rest);
  }

  lemma AnyCase(ts: seq<Token>) returns (x: Token, rest: seq<Token>)
    requires !DirClash(ts) && AnyRecognised(ts)
    ensures x == SIGN || x.DoubleStar?
    ensures ts == [SIGN] + (Lits(ANY_NAME) + ([x] + rest)) && |Behind(x, rest)| < |ts|
    ensures OnePass(ts) == [DoubleStar] + CutOpen(x) + OnePass(Behind(x, rest))
  {
    NameIsBeforeSign(ANY_NAME, ts[1..]);
    x, rest := ts[1 + |ANY_NAME|], ts[2 + |ANY_NAME|..];
    AnyShape(ts, x, rest);
  }

  lemma BehindCounts(x: Token, rest: seq<Token>)
    requires x == SIGN || !x.Lit?
    ensures Is([x] + rest) == Is(Behind(x, rest)) == Is(rest)
    ensures Signs(Behind(x, rest)) == Signs(rest) + (if x.Lit? then 0 else 1)
    ensures Signs([x] + rest) == Signs(rest) + if x.Lit? then 1 else 0
  {
    assert ([x] + rest)[1..] == rest && ([SIGN] + rest)[1..] == rest;
  }

  lemma OneCounts(t: Token)
    requires t == SIGN || !t.Lit?
    ensures Is([t]) == 0 && Signs([t]) == if t.Lit? then 1 else 0
  {
    BehindCounts(t, []);
    assert [t] + [] == [t];
  }

  lemma DirCounts(t: Token, x: Token, rest: seq<Token>, more: seq<Token>)
    requires (t == SIGN || t.DoubleStar?) && (x == SIGN || x.DoubleStar? || x.DoubleDir?)
    ensures var ts := [t] + (Lits(DIR_NAME) + ([x] + rest));
      Is(ts) == 1 + Is(rest) && Signs(ts) == if t.Lit? then 1 else 0
    ensures var es := Opening(t) + [DoubleDir] + CutOpen(x) + more;
      Is(es) == Is(more) + (if x.DoubleDir? then 1 else 0) && (x.DoubleDir? ==> Signs(es) == if t.Lit? then 0 else 1)
  {
    NameCounts();
    OneCounts(t);
    OneCounts(SIGN);
    OneCounts(DoubleDir);
    BehindCounts(x, rest);
    CountsConcat(Lits(DIR_NAME), [x] + rest);
    CountsConcat([t], Lits(DIR_NAME) + ([x] + rest));
    CountsConcat([SIGN], Lits(ANY_NAME));
    CountsConcat(Opening(t), [DoubleDir]);
    CountsConcat(Opening(t) + [DoubleDir], CutOpen(x));
    CountsConcat(Opening(t) + [DoubleDir] + CutOpen(x), more);
  }

  lemma AnyCounts(x: Token, rest: seq<Token>, more: seq<Token>)
    requires x == SIGN || x.DoubleStar?
    ensures var ts := [SIGN] + (Lits(ANY_NAME) + ([x] + rest));
      Is(ts) == Is(rest) && Signs(ts) == 1 + Signs(rest) + if x.Lit? then 1 else 0
    ensures var es := [DoubleStar] + CutOpen(x) + more;
      Is(es) == Is(more) && Signs(es) == Signs(more)
  {
    NameCounts();
    OneCounts(SIGN);
    OneCounts(DoubleStar);
    BehindCounts(x, rest);
    CountsConcat(Lits(ANY_NAME), [x] + rest);
    CountsConcat([SIGN], Lits(ANY_NAME) + ([x] + rest));
    CountsConcat([DoubleStar], CutOpen(x));
    CountsConcat([DoubleStar] + CutOpen(x), more);
  }

  /** The emission never adds an `I`. */
  lemma {:induction false} NoMoreIs(ts: seq<Token>)
    ensures Is(OnePass(ts)) <= Is(ts)
    decreases |ts|
  {
    if ts == [] {
    } else if DirClash(ts) {
      var x, rest := DirCase(ts);
      DirCounts(ts[0], x, rest, OnePass(Behind(x, rest)));
      BehindCounts(x, rest);
      NoMoreIs(Behind(x, rest));
    } else if AnyRecognised(ts) {
      var x, rest := AnyCase(ts);
      AnyCounts(x, rest, OnePass(Behind(x, rest)));
      BehindCounts(x, rest);
      NoMoreIs(Behind(x, rest));
    } else {
      NoMoreIs(ts[1..]);
      HeadCounts(ts[0], ts[1..], OnePass(ts[1..]));
    }
  }

  lemma HeadCounts(t: Token, a: seq<Token>, b: seq<Token>)
    ensures Is([t] + a) - Is(a) == Is([t] + b) - Is(b)
    ensures t != Lit('I') ==> Signs([t] + a) - Signs(a) == Signs([t] + b) - Signs(b)
    ensures t == Lit('I') ==> Signs([t] + a) == Signs([t] + b) == 0
  {
    CountsConcat([t], a);
    CountsConcat([t], b);
    assert [t][1..] == [];
  }

  /** When no `I` goes missing, the emission puts at most one more sign before the first one. */
  lemma {:induction false} OneMoreSign(ts: seq<Token>)
    requires Is(OnePass(ts)) == Is(ts)
    ensures Signs(OnePass(ts)) <= Signs(ts) + 1
    decreases |ts|
  {
    if ts == [] {
    } else if DirClash(ts) {
      var x, rest := DirCase(ts);
      DirCounts(ts[0], x, rest, OnePass(Behind(x, rest)));
      BehindCounts(x, rest);
      NoMoreIs(Behind(x, rest));
    } else if AnyRecognised(ts) {
      var x, rest := AnyCase(ts);
      AnyCounts(x, rest, OnePass(Behind(x, rest)));
      BehindCounts(x, rest);
      OneMoreSign(Behind(x, rest));
    } else {
      HeadCounts(ts[0], ts[1..], OnePass(ts[1..]));
      OneMoreSign(ts[1..]);
    }
  }

  lemma WildThenName(w: Token, name: string, more: seq<Token>)
    requires !w.Lit? && name != ""
    ensures var s := Shortest([w] + Lits(name) + more); s != "" && s[0] == name[0]
  {
    var ts := [w] + Lits(name) + more;
    assert ts[1] == Lit(name[0]) && ts[1..][0] == ts[1];
  }

  lemma NameFirst()
    ensures DIR_NAME != "" && DIR_NAME[0] == 'G' && ANY_NAME != "" && ANY_NAME[0] == 'G'
  {
  }

  lemma DirDiffers(t: Token, rest: seq<Token>, more: seq<Token>)
    requires t == SIGN || t.DoubleStar?
    ensures Shortest([t] + (Lits(DIR_NAME) + ([DoubleDir] + rest))) != Shortest(Opening(t) + [DoubleDir] + Lits(DIR_NAME) + more)
  {
    var name, behind := Lits(DIR_NAME), [DoubleDir] + rest;
    NameFirst();
    assert [t] + (name + behind) == [t] + name + behind;
    if t.DoubleStar? {
      WildThenName(t, DIR_NAME, behind);
      assert (Opening(t) + [DoubleDir] + name + more)[0] == SIGN;
    } else {
      assert [] + [DoubleDir] == [DoubleDir];
      WildThenName(DoubleDir, DIR_NAME, more);
    }
  }

  /** A false marker changes the literals. */
  lemma {:induction false} ShortestDecides(ts: seq<Token>)
    requires Shortest(OnePass(ts)) == Shortest(ts)
    ensures OnePass(ts) == ts
    decreases |ts|
  {
    CountsOfShortest(ts);
    CountsOfShortest(OnePass(ts));
    if ts == [] {
    } else if DirClash(ts) {
      DirChanges(ts);
    } else if AnyRecognised(ts) {
      AnyChanges(ts);
    } else {
      assert ([ts[0]] + OnePass(ts[1..]))[1..] == OnePass(ts[1..]);
      var n := if ts[0].Lit? then 1 else 0;
      assert Shortest(ts)[n..] == Shortest(ts[1..]) && Shortest(OnePass(ts))[n..] == Shortest(OnePass(ts[1..]));
      ShortestDecides(ts[1..]);
    }
  }

  lemma DirChanges(ts: seq<Token>)
    requires DirClash(ts)
    ensures Is(OnePass(ts)) != Is(ts) || Shortest(OnePass(ts)) != Shortest(ts)
  {
    var x, rest := DirCase(ts);
    var more := OnePass(Behind(x, rest));
    DirCounts(ts[0], x, rest, more);
    BehindCounts(x, rest);
    NoMoreIs(Behind(x, rest));
    if x.DoubleDir? { DirDiffers(ts[0], rest, more); }
  }

  lemma AnyChanges(ts: seq<Token>)
    requires !DirClash(ts) && AnyRecognised(ts)
    ensures Is(OnePass(ts)) != Is(ts) || Signs(OnePass(ts)) != Signs(ts) || Shortest(OnePass(ts)) != Shortest(ts)
  {
    var x, rest := AnyCase(ts);
    var more := OnePass(Behind(x, rest));
    AnyCounts(x, rest, more);
    BehindCounts(x, rest);
    if x == SIGN {
      if Is(more) == Is(rest) { OneMoreSign(rest); }
    } else {
      NameFirst();
      WildThenName(DoubleStar, ANY_NAME, more);
    }
  }

  /** The shortest path of the emitted tokens is that of the pattern's exactly when no false marker is spelled. */
  lemma LiteralsExactly(ts: seq<Token>)
    ensures Shortest(Emitted(ts)) == Shortest(ts) <==> !MarkersClash(ts)
  {
    EmittedIsOnePass(ts);
    EmittedExactly(ts);
    if Shortest(Emitted(ts)) == Shortest(ts) { ShortestDecides(ts); }
  }
}
