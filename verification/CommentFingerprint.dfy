/** The hidden `<!-- fingerprint:... -->` marker that travels with each posted comment. */
module CommentFingerprint {
  import opened Optional
  import opened Whitespace

  // ----- characters -----

  function LowerChar(c: char): char {
    if 'A' <= c <= 'Z' then (c as int + 32) as char else c
  }

  function Lower(s: string): (r: string)
    ensures |r| == |s| && forall k :: 0 <= k < |s| ==> r[k] == LowerChar(s[k])
  {
    if s == "" then "" else [LowerChar(s[0])] + Lower(s[1..])
  }

  predicate Hex(c: char) { '0' <= c <= '9' || 'a' <= LowerChar(c) <= 'f' }

  predicate IsFingerprint(s: string) { 8 <= |s| <= 16 && HexIn(s, 0, |s|) }

  // ----- what the pattern matches -----

  const OPEN := "<!--"
  const KEY := "fingerprint:"
  const CLOSE := "-->"

  predicate HexIn(s: string, i: int, j: int) {
    0 <= i <= j <= |s| && forall k :: i <= k < j ==> Hex(s[k])
  }

  /** The literal, letter case aside. */
  predicate LiteralAt(s: string, i: int, literal: string) {
    0 <= i && i + |literal| <= |s| && forall k :: 0 <= k < |literal| ==> LowerChar(s[i + k]) == literal[k]
  }

  /** Where one match puts the key, the captured digits, the end of the digits and the closing. */
  datatype Cut = Cut(key: nat, from: nat, to: nat, close: nat)

  predicate MatchesAt(s: string, i: nat, c: Cut) {
    LiteralAt(s, i, OPEN) && WhiteIn(s, i + |OPEN|, c.key) &&
    LiteralAt(s, c.key, KEY) && c.from == c.key + |KEY| &&
    HexIn(s, c.from, c.to) && 8 <= c.to - c.from <= 16 &&
    WhiteIn(s, c.to, c.close) && LiteralAt(s, c.close, CLOSE)
  }

  ghost predicate NoMatchAt(s: string, i: nat) {
    forall c: Cut :: !MatchesAt(s, i, c)
  }

  ghost predicate LeftmostMatch(s: string, i: nat, c: Cut) {
    MatchesAt(s, i, c) && forall j: nat :: j < i ==> NoMatchAt(s, j)
  }

  // ----- one left-to-right scan -----

  function HexEnd(s: string, i: nat): (j: nat)
    requires i <= |s|
    ensures HexIn(s, i, j) && (j < |s| ==> !Hex(s[j]))
    decreases |s| - i
  {
    if i < |s| && Hex(s[i]) then HexEnd(s, i + 1) else i
  }

  /** A match that begins at `i`. */
  function ParseAt(s: string, i: nat): (r: Option<Cut>)
    ensures r.Some? ==> MatchesAt(s, i, r.value)
  {
    if !LiteralAt(s, i, OPEN) then None
    else
      var key := WhiteEnd(s, i + |OPEN|);
      if !LiteralAt(s, key, KEY) then None
      else
        var from := key + |KEY|;
        var to := HexEnd(s, from);
        var close := WhiteEnd(s, to);
        if 8 <= to - from <= 16 && LiteralAt(s, close, CLOSE) then Some(Cut(key, from, to, close)) else None
  }

  /** What a match attempt gives at each place of the text, the end included. */
  function Attempts(s: string): (r: seq<Option<Cut>>)
    ensures |r| == |s| + 1 && forall i :: 0 <= i <= |s| ==> r[i] == ParseAt(s, i)
  {
    seq(|s| + 1, i requires 0 <= i <= |s| => ParseAt(s, i))
  }

  function FirstSome<T>(xs: seq<Option<T>>, i: nat): Option<T>
    requires i <= |xs|
    decreases |xs| - i
  {
    if i == |xs| then None else if xs[i].Some? then xs[i] else FirstSome(xs, i + 1)
  }

  function Digits(s: string, c: Cut): string
    requires c.from <= c.to <= |s|
  {
    Lower(s[c.from..c.to])
  }

  function ExtractFingerprintFromComment(body: string): Option<string> {
    var first := FirstSome(Attempts(body), 0);
    if first.Some? then
      FirstSomeIsOne(Attempts(body), 0);
      Some(Digits(body, first.value))
    else None
  }

  lemma {:induction false} FirstSomeIsOne<T>(xs: seq<Option<T>>, i: nat)
    requires i <= |xs| && FirstSome(xs, i).Some?
    ensures exists k :: i <= k < |xs| && FirstSome(xs, i) == xs[k]
    decreases |xs| - i
  {
    if xs[i].None? {
      FirstSomeIsOne(xs, i + 1);
    }
  }

  lemma {:induction false} FirstSomeIs<T>(xs: seq<Option<T>>, i: nat, k: nat)
    requires i <= k < |xs| && xs[k].Some? && forall j :: i <= j < k ==> xs[j].None?
    ensures FirstSome(xs, i) == xs[k]
    decreases k - i
  {
    if i < k {
      FirstSomeIs(xs, i + 1, k);
    }
  }

  lemma {:induction false} FirstSomeNone<T>(xs: seq<Option<T>>, i: nat)
    requires i <= |xs|
    ensures FirstSome(xs, i).None? <==> forall j :: i <= j < |xs| ==> xs[j].None?
    decreases |xs| - i
  {
    if i < |xs| {
      FirstSomeNone(xs, i + 1);
    }
  }

  // ----- the scan finds exactly the match -----

  lemma {:induction false} WhiteEndIs(s: string, i: nat, j: nat)
    requires WhiteIn(s, i, j) && j < |s| && !White(s[j])
    ensures WhiteEnd(s, i) == j
    decreases j - i
  {
    if i < j {
      WhiteEndIs(s, i + 1, j);
    }
  }

  lemma {:induction false} HexEndIs(s: string, i: nat, j: nat)
    requires HexIn(s, i, j) && j < |s| && !Hex(s[j])
    ensures HexEnd(s, i) == j
    decreases j - i
  {
    if i < j {
      HexEndIs(s, i + 1, j);
    }
  }

  lemma LiteralStarts(s: string, i: nat, literal: string)
    requires LiteralAt(s, i, literal) && literal != ""
    ensures LowerChar(s[i]) == literal[0]
  {
    assert s[i + 0] == s[i];
  }

  /** The pattern matches at a place in one way at most, and the scan finds it. */
  lemma ParseExactly(s: string, i: nat, c: Cut)
    ensures ParseAt(s, i) == Some(c) <==> MatchesAt(s, i, c)
  {
    if MatchesAt(s, i, c) { MatchIsFound(s, i, c); }
  }

  lemma MatchIsFound(s: string, i: nat, c: Cut)
    requires MatchesAt(s, i, c)
    ensures ParseAt(s, i) == Some(c)
  {
    LiteralStarts(s, c.key, KEY);
    WhiteEndIs(s, i + |OPEN|, c.key);
    LiteralStarts(s, c.close, CLOSE);
    assert !Hex(s[c.to]);
    HexEndIs(s, c.from, c.to);
    WhiteEndIs(s, c.to, c.close);
  }

  lemma NoMatchIsNone(s: string, i: nat)
    requires i <= |s|
    ensures ParseAt(s, i).None? <==> NoMatchAt(s, i)
  {
    if ParseAt(s, i).None? {
      forall c: Cut ensures !MatchesAt(s, i, c) { ParseExactly(s, i, c); }
    }
  }

  lemma NoMatchBeyond(s: string, i: nat)
    requires |s| < i
    ensures NoMatchAt(s, i)
  {
  }

  /** The reader returns the digits of the leftmost match in lower case, and nothing exactly when no place matches. */
  lemma ExtractExactly(body: string)
    ensures ExtractFingerprintFromComment(body).None? <==> forall i: nat :: NoMatchAt(body, i)
    ensures forall i: nat, c: Cut :: LeftmostMatch(body, i, c) ==>
      c.from <= c.to <= |body| && ExtractFingerprintFromComment(body) == Some(Lower(body[c.from..c.to]))
  {
    var xs := Attempts(body);
    FirstSomeNone(xs, 0);
    forall i: nat ensures i <= |body| ==> (xs[i].None? <==> NoMatchAt(body, i))
      ensures |body| < i ==> NoMatchAt(body, i)
    {
      if i <= |body| { NoMatchIsNone(body, i); } else { NoMatchBeyond(body, i); }
    }
    forall i: nat, c: Cut | LeftmostMatch(body, i, c)
      ensures c.from <= c.to <= |body| && ExtractFingerprintFromComment(body) == Some(Lower(body[c.from..c.to]))
    {
      LeftmostIsRead(body, i, c);
    }
  }

  lemma LeftmostIsRead(body: string, i: nat, c: Cut)
    requires LeftmostMatch(body, i, c)
    ensures c.from <= c.to <= |body| && ExtractFingerprintFromComment(body) == Some(Digits(body, c))
  {
    ParseExactly(body, i, c);
    forall j | 0 <= j < i ensures Attempts(body)[j].None? {
      assert NoMatchAt(body, j);
      NoMatchIsNone(body, j);
    }
    FirstSomeIs(Attempts(body), 0, i);
  }

  // ----- appending -----

  predicate EndsWith(s: string, t: string) { |t| <= |s| && s[|s| - |t|..] == t }

  const NEWLINE := "\n"

  function Marker(fp: string): string { OPEN + " " + KEY + fp + " " + CLOSE }

  function Separator(body: string): string {
    if EndsWith(body, NEWLINE) then "" else NEWLINE + NEWLINE
  }

  function AppendFingerprintMarker(body: string, fp: string): string {
    if EndsWith(TrimEnd(body), Marker(fp)) then body else body + Separator(body) + Marker(fp)
  }

  // ----- reading back -----

  predicate MarkerAt(s: string, n: nat, fp: string) {
    n + |Marker(fp)| <= |s| && s[n..n + |Marker(fp)|] == Marker(fp)
  }

  function MarkerCut(n: nat, fp: string): Cut {
    Cut(n + 5, n + 17, n + 17 + |fp|, n + 18 + |fp|)
  }

  lemma Piece(s: string, n: nat, m: string, a: nat, b: nat)
    requires n + |m| <= |s| && s[n..n + |m|] == m && a <= b <= |m|
    ensures s[n + a..n + b] == m[a..b]
  {
    forall k | a <= k < b ensures s[n + k] == m[k] {
      assert s[n..n + |m|][k] == s[n + k];
    }
    assert |s[n + a..n + b]| == |m[a..b]|;
    forall k | 0 <= k < b - a ensures s[n + a..n + b][k] == m[a..b][k] {
      assert s[n + (a + k)] == m[a + k];
    }
  }

  lemma MarkerPieces(s: string, n: nat, fp: string)
    requires MarkerAt(s, n, fp)
    ensures s[n..n + 4] == OPEN && s[n + 4] == ' ' && s[n + 5..n + 17] == KEY
    ensures s[n + 17..n + 17 + |fp|] == fp && s[n + 17 + |fp|] == ' '
    ensures s[n + 18 + |fp|..n + 21 + |fp|] == CLOSE
  {
    var m := Marker(fp);
    Piece(s, n, m, 0, 4);
    Piece(s, n, m, 4, 5);
    Piece(s, n, m, 5, 17);
    Piece(s, n, m, 17, 17 + |fp|);
    Piece(s, n, m, 17 + |fp|, 18 + |fp|);
    Piece(s, n, m, 18 + |fp|, 21 + |fp|);
    MarkerText(fp);
    assert s[n + 4] == s[n + 4..n + 5][0] && s[n + 17 + |fp|] == s[n + 17 + |fp|..n + 18 + |fp|][0];
  }

  lemma MarkerText(fp: string)
    ensures var m := Marker(fp);
      m[0] == '<' && |m| == 21 + |fp| && m[0..4] == OPEN && m[4..5] == " " && m[5..17] == KEY && m[17..17 + |fp|] == fp &&
      m[17 + |fp|..18 + |fp|] == " " && m[18 + |fp|..21 + |fp|] == CLOSE
  {
  }

  lemma LiteralIs(s: string, i: nat, literal: string)
    requires i + |literal| <= |s| && s[i..i + |literal|] == literal
    requires forall k :: 0 <= k < |literal| ==> LowerChar(literal[k]) == literal[k]
    ensures LiteralAt(s, i, literal)
  {
    forall k | 0 <= k < |literal| ensures LowerChar(s[i + k]) == literal[k] {
      assert s[i + k] == s[i..i + |literal|][k];
    }
  }

  lemma MarkerMatches(s: string, n: nat, fp: string)
    requires IsFingerprint(fp) && MarkerAt(s, n, fp)
    ensures MatchesAt(s, n, MarkerCut(n, fp))
  {
    MarkerPieces(s, n, fp);
    LiteralIs(s, n, OPEN);
    LiteralIs(s, n + 5, KEY);
    LiteralIs(s, n + 18 + |fp|, CLOSE);
    assert forall k :: n + 17 <= k < n + 17 + |fp| ==> s[k] == fp[k - (n + 17)];
  }

  lemma MarkerDigits(s: string, n: nat, fp: string)
    requires MarkerAt(s, n, fp)
    ensures Digits(s, MarkerCut(n, fp)) == Lower(fp)
  {
    MarkerPieces(s, n, fp);
  }

  /** The bracket that opens a match appears nowhere else in it. */
  lemma OneBracket(s: string, i: nat, c: Cut, k: nat)
    requires MatchesAt(s, i, c) && i < k < c.close + |CLOSE|
    ensures s[k] != '<'
  {
    if k < i + |OPEN| {
      assert s[k] == s[i + (k - i)];
      assert LowerChar(s[k]) == OPEN[k - i];
    } else if c.key <= k < c.from {
      assert s[k] == s[c.key + (k - c.key)];
      assert LowerChar(s[k]) == KEY[k - c.key];
    } else if c.close <= k {
      assert s[k] == s[c.close + (k - c.close)];
      assert LowerChar(s[k]) == CLOSE[k - c.close];
    }
  }

  lemma EndsWithBracket(s: string, i: nat, c: Cut)
    requires MatchesAt(s, i, c)
    ensures s[i] == '<' && s[c.close + 2] == '>'
  {
    LiteralStarts(s, i, OPEN);
    assert LowerChar(s[c.close + 2]) == CLOSE[2];
  }

  /** `u` is `s`, then only newlines up to `n`, then an opening bracket. */
  predicate Joined(s: string, u: string, n: nat) {
    |s| <= n < |u| && s == u[..|s|] && u[n] == '<' && forall k :: |s| <= k < n ==> u[k] == '\n'
  }

  /** A match that begins in the body ends in the body: none reaches across the join into the appended marker. */
  lemma NoMatchStraddles(s: string, u: string, n: nat, i: nat, c: Cut)
    requires Joined(s, u, n) && i < n && MatchesAt(u, i, c)
    ensures c.close + |CLOSE| <= |s|
  {
    EndsWithBracket(u, i, c);
    if n < c.close + |CLOSE| {
      OneBracket(u, i, c, n);
    }
  }

  lemma LiteralCarries(s: string, u: string, i: int, literal: string)
    requires |s| <= |u| && s == u[..|s|] && i + |literal| <= |s|
    ensures LiteralAt(s, i, literal) <==> LiteralAt(u, i, literal)
  {
    if 0 <= i {
      assert forall k :: i <= k < i + |literal| ==> s[k] == u[k];
    }
  }

  lemma MatchCarries(s: string, u: string, i: nat, c: Cut)
    requires |s| <= |u| && s == u[..|s|] && c.close + |CLOSE| <= |s| && i + |OPEN| <= |s| && c.key + |KEY| <= |s|
    requires c.to <= |s|
    ensures MatchesAt(s, i, c) <==> MatchesAt(u, i, c)
  {
    LiteralCarries(s, u, i, OPEN);
    LiteralCarries(s, u, c.key, KEY);
    LiteralCarries(s, u, c.close, CLOSE);
    assert forall k :: 0 <= k < |s| ==> s[k] == u[k];
  }

  lemma ParseBeforeJoin(s: string, u: string, n: nat, i: nat)
    requires Joined(s, u, n) && i < n
    ensures ParseAt(u, i) == ParseAt(s, i)
  {
    if ParseAt(u, i).Some? {
      var c := ParseAt(u, i).value;
      NoMatchStraddles(s, u, n, i, c);
      MatchCarries(s, u, i, c);
      ParseExactly(s, i, c);
    } else if ParseAt(s, i).Some? {
      var c := ParseAt(s, i).value;
      MatchCarries(s, u, i, c);
      ParseExactly(u, i, c);
    }
  }

  /** The scan of the joined text, seen as attempts: those of the body, nothing on the newlines, then the marker. */
  lemma {:induction false} FirstOfJoined<T>(xs: seq<Option<T>>, ys: seq<Option<T>>, n: nat)
    requires |xs| <= n + 1 && n < |ys| && ys[n].Some?
    requires forall i :: 0 <= i < n ==> ys[i] == if i < |xs| then xs[i] else None
    requires xs != [] && xs[|xs| - 1].None?
    ensures FirstSome(ys, 0) == if FirstSome(xs, 0).Some? then FirstSome(xs, 0) else ys[n]
  {
    FirstSomeNone(xs, 0);
    if k :| 0 <= k < |xs| && xs[k].Some? && forall j :: 0 <= j < k ==> xs[j].None? {
      FirstSomeIs(xs, 0, k);
      FirstSomeIs(ys, 0, k);
    } else {
      NoneIfNoFirst(xs, |xs|);
      FirstSomeIs(ys, 0, n);
    }
  }

  lemma {:induction false} NoneIfNoFirst<T>(xs: seq<Option<T>>, n: nat)
    requires n <= |xs|
    requires !exists k :: 0 <= k < |xs| && xs[k].Some? && forall j :: 0 <= j < k ==> xs[j].None?
    ensures forall j :: 0 <= j < n ==> xs[j].None?
  {
    if n > 0 {
      NoneIfNoFirst(xs, n - 1);
    }
  }

  lemma AttemptsOfJoined(s: string, u: string, n: nat)
    requires Joined(s, u, n)
    ensures forall i :: 0 <= i < n ==> Attempts(u)[i] == if i <= |s| then Attempts(s)[i] else None
  {
    forall i | 0 <= i < n ensures Attempts(u)[i] == if i <= |s| then Attempts(s)[i] else None {
      ParseBeforeJoin(s, u, n, i);
      if i > |s| { NoMatchBeyond(s, i); }
    }
  }

  lemma SameDigits(s: string, u: string, c: Cut)
    requires |s| <= |u| && s == u[..|s|] && c.from <= c.to <= |s|
    ensures Digits(s, c) == Digits(u, c)
  {
    assert s[c.from..c.to] == u[c.from..c.to];
  }

  lemma JoinedReads(s: string, u: string, n: nat, c: Cut, digits: string)
    requires Joined(s, u, n) && MatchesAt(u, n, c) && Digits(u, c) == digits
    ensures ExtractFingerprintFromComment(u) ==
      if ExtractFingerprintFromComment(s).Some? then ExtractFingerprintFromComment(s) else Some(digits)
  {
    ParseExactly(u, n, c);
    AttemptsOfJoined(s, u, n);
    FirstOfJoined(Attempts(s), Attempts(u), n);
    var first := FirstSome(Attempts(s), 0);
    if first.Some? {
      FirstSomeIsOne(Attempts(s), 0);
      SameDigits(s, u, first.value);
    }
  }

  /** Every body and every fingerprint: the body's own first marker, or the appended one in lower case. */
  lemma ReadBackAppended(body: string, fp: string)
    requires IsFingerprint(fp)
    ensures ExtractFingerprintFromComment(AppendFingerprintMarker(body, fp)) ==
      if ExtractFingerprintFromComment(body).Some? then ExtractFingerprintFromComment(body)
      else Some(Lower(fp))
  {
    if EndsWith(TrimEnd(body), Marker(fp)) {
      EndedAlready(body, fp);
    } else {
      AppendedReads(body, Separator(body), fp);
    }
  }

  lemma MarkedReads(s: string, u: string, n: nat, fp: string)
    requires IsFingerprint(fp) && Joined(s, u, n) && MarkerAt(u, n, fp)
    ensures ExtractFingerprintFromComment(u) ==
      if ExtractFingerprintFromComment(s).Some? then ExtractFingerprintFromComment(s) else Some(Lower(fp))
  {
    MarkerMatches(u, n, fp);
    MarkerDigits(u, n, fp);
    JoinedReads(s, u, n, MarkerCut(n, fp), Lower(fp));
  }

  lemma AppendedReads(body: string, sep: string, fp: string)
    requires IsFingerprint(fp) && forall k :: 0 <= k < |sep| ==> sep[k] == '\n'
    ensures ExtractFingerprintFromComment(body + sep + Marker(fp)) ==
      if ExtractFingerprintFromComment(body).Some? then ExtractFingerprintFromComment(body)
      else Some(Lower(fp))
  {
    MarkerText(fp);
    AppendedJoins(body, sep, Marker(fp));
    MarkedReads(body, body + sep + Marker(fp), |body| + |sep|, fp);
  }

  lemma AppendedJoins(body: string, sep: string, m: string)
    requires m != "" && m[0] == '<' && forall k :: 0 <= k < |sep| ==> sep[k] == '\n'
    ensures Joined(body, body + sep + m, |body| + |sep|)
    ensures (body + sep + m)[|body| + |sep|..|body| + |sep| + |m|] == m
  {
  }

  lemma EndedAlready(body: string, fp: string)
    requires IsFingerprint(fp) && EndsWith(TrimEnd(body), Marker(fp))
    ensures ExtractFingerprintFromComment(body).Some?
  {
    var n := |TrimEnd(body)| - |Marker(fp)|;
    assert body[n..n + |Marker(fp)|] == TrimEnd(body)[n..];
    MarkerMatches(body, n, fp);
    ParseExactly(body, n, MarkerCut(n, fp));
    FirstSomeNone(Attempts(body), 0);
    assert Attempts(body)[n].Some?;
  }

  lemma LowerReflectsHex(s: string)
    ensures IsFingerprint(Lower(s)) <==> IsFingerprint(s)
  {
    assert forall k :: 0 <= k < |s| ==> (Hex(Lower(s)[k]) <==> Hex(s[k]));
  }

  lemma ExtractedIsFingerprint(body: string)
    ensures ExtractFingerprintFromComment(body).Some? ==>
      IsFingerprint(ExtractFingerprintFromComment(body).value)
  {
    var first := FirstSome(Attempts(body), 0);
    if first.Some? {
      FirstSomeIsOne(Attempts(body), 0);
      var digits := body[first.value.from..first.value.to];
      assert IsFingerprint(digits);
      LowerReflectsHex(digits);
    }
  }

  predicate HexDigit(c: char) {
    '0' <= c <= '9' || 'a' <= c <= 'f' || 'A' <= c <= 'F'
  }

  lemma HexIsDigit(c: char)
    ensures Hex(c) <==> HexDigit(c)
  {
  }

  lemma FingerprintIsDigits(fp: string)
    ensures IsFingerprint(fp) <==> 8 <= |fp| <= 16 && forall k | 0 <= k < |fp| :: HexDigit(fp[k])
  {
    forall k | 0 <= k < |fp| ensures Hex(fp[k]) <==> HexDigit(fp[k]) { HexIsDigit(fp[k]); }
  }

  /** For any text at all given as the fingerprint: a body without a marker gives it back exactly when it is 8 to 16 hex digits. */
  lemma RoundTripExactly(body: string, fp: string)
    requires ExtractFingerprintFromComment(body).None?
    ensures ExtractFingerprintFromComment(AppendFingerprintMarker(body, fp)) == Some(Lower(fp)) <==> IsFingerprint(fp)
    ensures IsFingerprint(fp) <==> 8 <= |fp| <= 16 && forall k | 0 <= k < |fp| :: HexDigit(fp[k])
  {
    FingerprintIsDigits(fp);
    if IsFingerprint(fp) {
      ReadBackAppended(body, fp);
    } else {
      ExtractedIsFingerprint(AppendFingerprintMarker(body, fp));
      LowerReflectsHex(fp);
    }
  }

  /** A second append of the same marker changes nothing, whatever the body and the fingerprint. */
  lemma AppendTwice(body: string, fp: string)
    ensures AppendFingerprintMarker(AppendFingerprintMarker(body, fp), fp) == AppendFingerprintMarker(body, fp)
  {
    var once := AppendFingerprintMarker(body, fp);
    if !EndsWith(TrimEnd(body), Marker(fp)) {
      assert once[|once| - 1] == Marker(fp)[|Marker(fp)| - 1] == '>';
      assert TrimEnd(once) == once;
      assert once[|once| - |Marker(fp)|..] == Marker(fp);
    }
  }

  lemma MarkerWritten(fp: string)
    ensures Marker(fp) == "<!-- fingerprint:" + fp + " -->"
  {
    assert OPEN + " " + KEY == "<!-- fingerprint:" && " " + CLOSE == " -->";
    assert Marker(fp) == (OPEN + " " + KEY) + fp + (" " + CLOSE);
  }

  /** `r` is `body` and possibly more, it ends in the marker, and a new marker stands on a line of its own. */
  predicate Marked(body: string, r: string, marker: string) {
    body <= r && EndsWith(TrimEnd(r), marker) &&
    (r != body ==> EndsWith(r, marker) && EndsWith(r[..|r| - |marker|], "\n"))
  }

  /** Appending keeps the whole body and leaves it marked. */
  lemma AppendKeepsBody(body: string, fp: string)
    ensures Marked(body, AppendFingerprintMarker(body, fp), "<!-- fingerprint:" + fp + " -->")
  {
    MarkerWritten(fp);
    AppendMarks(body, fp);
  }

  lemma AppendMarks(body: string, fp: string)
    ensures Marked(body, AppendFingerprintMarker(body, fp), Marker(fp))
  {
    if !EndsWith(TrimEnd(body), Marker(fp)) {
      var m := Marker(fp);
      SeparatorEndsLine(body);
      assert m[|m| - 1] == '>';
      OnItsOwnLine(body, Separator(body), m);
    }
  }

  lemma SeparatorEndsLine(body: string)
    ensures EndsWith(body + Separator(body), NEWLINE)
  {
    if EndsWith(body, NEWLINE) {
      assert body + "" == body;
    } else {
      assert body + Separator(body) == (body + NEWLINE) + NEWLINE;
    }
  }

  lemma OnItsOwnLine(body: string, sep: string, m: string)
    requires m != "" && !White(m[|m| - 1]) && EndsWith(body + sep, NEWLINE)
    ensures Marked(body, body + sep + m, m)
  {
    var before := body + sep;
    var r := before + m;
    assert r[|r| - |m|..] == m && r[..|r| - |m|] == before;
    assert r[|r| - 1] == m[|m| - 1] && TrimEnd(r) == r;
    assert body <= r;
  }

  /** The first fingerprint put on a comment stays the one that is read, however many others follow. */
  lemma {:induction false} FirstFingerprintStays(body: string, fp: string, later: seq<string>)
    requires IsFingerprint(fp) && forall k :: 0 <= k < |later| ==> IsFingerprint(later[k])
    ensures ExtractFingerprintFromComment(AppendAll(AppendFingerprintMarker(body, fp), later)) ==
      ExtractFingerprintFromComment(AppendFingerprintMarker(body, fp))
    decreases |later|
  {
    ReadBackAppended(body, fp);
    if later != [] {
      var n := |later| - 1;
      FirstFingerprintStays(body, fp, later[..n]);
      ReadBackAppended(AppendAll(AppendFingerprintMarker(body, fp), later[..n]), later[n]);
    }
  }

  function AppendAll(body: string, fps: seq<string>): string {
    if fps == [] then body
    else AppendFingerprintMarker(AppendAll(body, fps[..|fps| - 1]), fps[|fps| - 1])
  }
}
