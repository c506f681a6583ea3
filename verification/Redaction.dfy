/** Redacting found secrets from a text, one after the other. */
module Redaction {
  import opened Strings

  datatype Finding = Finding(ruleId: string, secret: string, tags: seq<string>)

  /** The secret scanner: what it finds in a text. */
  type Scan = string -> seq<Finding>

  function TokenFor(f: Finding): string {
    "[REDACTED:" + f.ruleId + "]"
  }

  function RedactOne(text: string, f: Finding): string {
    if f.secret == "" then text else ReplaceAll(text, f.secret, TokenFor(f))
  }

  function Redacted(text: string, findings: seq<Finding>): string
    decreases |findings|
  {
    if findings == [] then text else Redacted(RedactOne(text, findings[0]), findings[1..])
  }

  method ApplyRedactions(text: string, findings: seq<Finding>) returns (out: string)
    ensures out == Redacted(text, findings)
  {
    out := text;
    var i := 0;
    assert findings[0..] == findings;
    while i < |findings|
      invariant 0 <= i <= |findings|
      invariant Redacted(out, findings[i..]) == Redacted(text, findings)
    {
      var f := findings[i];
      assert findings[i..][1..] == findings[i + 1..];
      i := i + 1;
      if f.secret == "" { continue; }
      SplitJoinReplaces(out, f.secret, TokenFor(f));
      out := Join(Split(out, f.secret), TokenFor(f));
    }
  }

  // ----- occurrences -----

  /** The first `k` characters of `t` end `u` and the others begin `v`. */
  predicate Straddles(t: string, u: string, v: string, k: nat) {
    0 < k < |t| && k <= |u| && |t| - k <= |v| && t[..k] == u[|u| - k..] && t[k..] == v[..|t| - k]
  }

  /** An occurrence in a concatenation lies in the left part, in the right part, or across the seam. */
  lemma OccursInConcat(t: string, u: string, v: string)
    requires t != "" && Occurs(t, u + v)
    ensures Occurs(t, u) || Occurs(t, v) || exists k: nat :: Straddles(t, u, v, k)
  {
    var s := u + v;
    var i: nat :| At(t, s, i);
    assert t == s[i..i + |t|];
    if i + |t| <= |u| {
      assert t == u[i..i + |t|];
      assert At(t, u, i);
    } else if i >= |u| {
      AtShift(t, u, v, i - |u|);
    } else {
      assert Straddles(t, u, v, |u| - i);
    }
  }

  predicate NotLater(c: char, t: string) {
    forall k | 0 < k < |t| :: t[k] != c
  }

  predicate NotEarlier(c: char, t: string) {
    forall k | 0 <= k < |t| - 1 :: t[k] != c
  }

  /** No opening bracket after the first character and no closing one before the last: such a text cannot lie
      across the edge of a token. */
  predicate EdgeSafe(t: string) {
    NotLater('[', t) && NotEarlier(']', t)
  }

  predicate IsToken(token: string) {
    token != "" && token[0] == '[' && token[|token| - 1] == ']'
  }

  lemma TokenShape(f: Finding)
    ensures IsToken(TokenFor(f))
  {
    assert TokenFor(f)[|TokenFor(f)| - 1] == ']';
  }

  /** The first `k` characters of `t` end `token`. */
  predicate EndsWith(token: string, t: string, k: nat) {
    k <= |t| && k <= |token| && t[..k] == token[|token| - k..]
  }

  /** The characters of `t` from the `k`-th on begin `token`. */
  predicate BeginsWith(token: string, t: string, k: nat) {
    k <= |t| && t[k..] <= token
  }

  /** Neither text contains the other, and `t` does not reach over an end of the token. */
  ghost predicate Apart(t: string, token: string) {
    !Occurs(t, token) && !Occurs(token, t) &&
    forall k: nat | 0 < k < |t| :: !EndsWith(token, t, k) && !BeginsWith(token, t, k)
  }

  lemma NotOverStart(t: string, u: string, token: string, k: nat)
    requires Apart(t, token)
    ensures !Straddles(t, u, token, k)
  {
    if Straddles(t, u, token, k) { assert BeginsWith(token, t, k); }
  }

  lemma NotOverEnd(t: string, u: string, token: string, v: string, k: nat)
    requires Apart(t, token)
    ensures !Straddles(t, u + token, v, k)
  {
    if Straddles(t, u + token, v, k) {
      if k <= |token| {
        assert (u + token)[|u + token| - k..] == token[|token| - k..];
        assert EndsWith(token, t, k);
      } else {
        TokenInside(t, u, token, k);
      }
    }
  }

  lemma TokenInside(t: string, u: string, token: string, k: nat)
    requires |token| <= k <= |t| && k <= |u + token| && t[..k] == (u + token)[|u + token| - k..]
    ensures Occurs(token, t)
  {
    var i := k - |token|;
    forall j | 0 <= j < |token| ensures t[i..][j] == token[j] {
      assert t[..k][i + j] == (u + token)[|u + token| - k..][i + j];
    }
    assert At(token, t, i);
  }

  /** A text apart from a token occurs around it only beside it. */
  lemma AroundToken(t: string, u: string, token: string, v: string)
    requires t != "" && Apart(t, token)
    ensures Occurs(t, u + token + v) <==> Occurs(t, u) || Occurs(t, v)
  {
    if Occurs(t, u + token + v) {
      OccursInConcat(t, u + token, v);
      if Occurs(t, u + token) {
        OccursInConcat(t, u, token);
        forall k: nat ensures !Straddles(t, u, token, k) { NotOverStart(t, u, token, k); }
      }
      forall k: nat ensures !Straddles(t, u + token, v, k) { NotOverEnd(t, u, token, v, k); }
    }
    if Occurs(t, u) {
      OccursInPrefix(t, u, token + v);
      assert u + (token + v) == u + token + v;
    }
    if i: nat :| At(t, v, i) { AtShift(t, u + token, v, i); }
  }

  lemma EdgeCharacters(t: string, token: string, k: nat)
    requires 0 < k < |t| && token != ""
    ensures EndsWith(token, t, k) ==> t[k - 1] == token[|token| - 1]
    ensures BeginsWith(token, t, k) ==> t[k] == token[0]
  {
    if EndsWith(token, t, k) { assert t[..k][k - 1] == t[k - 1]; }
    if BeginsWith(token, t, k) { assert t[k..][0] == t[k]; }
  }

  lemma EdgeSafeIsApart(t: string, token: string)
    requires t != "" && EdgeSafe(t) && IsToken(token) && !Occurs(t, token)
    ensures Apart(t, token)
  {
    forall k: nat | 0 < k < |t| ensures !EndsWith(token, t, k) && !BeginsWith(token, t, k) {
      EdgeCharacters(t, token, k);
    }
    forall i: nat ensures !At(token, t, i) {
      if At(token, t, i) { NoTokenInside(t, token, i); }
    }
  }

  lemma NoTokenInside(t: string, token: string, i: nat)
    requires EdgeSafe(t) && IsToken(token) && At(token, t, i)
    ensures Occurs(t, token)
  {
    assert t[i..][0] == '[' && t[i..][|token| - 1] == ']';
    assert i == 0 && t[0..] == t && token[0..] == token;
    assert At(t, token, 0);
  }

  lemma HitText(pre: string, s: string, secret: string, token: string)
    requires secret != "" && secret <= s
    ensures pre + ReplaceAll(s, secret, token) == pre + token + ReplaceAll(s[|secret|..], secret, token)
  {
  }

  lemma MissText(pre: string, s: string, secret: string, token: string)
    requires secret != "" && |s| >= |secret| && !(secret <= s)
    ensures pre + ReplaceAll(s, secret, token) == (pre + [s[0]]) + ReplaceAll(s[1..], secret, token)
    ensures pre + s == (pre + [s[0]]) + s[1..]
  {
  }

  lemma AbsentFromParts(t: string, pre: string, s: string, n: nat)
    requires !Occurs(t, pre + s) && n <= |s|
    ensures !Occurs(t, pre) && !Occurs(t, s[n..])
  {
    if Occurs(t, pre) { OccursInPrefix(t, pre, s); }
    if Occurs(t, s[n..]) {
      assert (pre + s)[|pre| + n..] == s[n..];
      OccursInSuffix(t, pre + s, |pre| + n);
    }
  }

  /** Text before the first match, followed by the rest: no new occurrence of a text that is
      apart from the token can appear. */
  lemma {:induction false} ReplaceCreatesNothing(t: string, pre: string, s: string, secret: string, token: string)
    requires t != "" && Apart(t, token) && secret != ""
    requires !Occurs(t, pre + s)
    ensures !Occurs(t, pre + ReplaceAll(s, secret, token))
    decreases |s|, 0
  {
    if |s| >= |secret| {
      if secret <= s {
        var rest := s[|secret|..];
        AbsentFromParts(t, pre, s, |secret|);
        CreatesNothing(t, rest, secret, token);
        AroundToken(t, pre, token, ReplaceAll(rest, secret, token));
        HitText(pre, s, secret, token);
      } else {
        MissText(pre, s, secret, token);
        ReplaceCreatesNothing(t, pre + [s[0]], s[1..], secret, token);
      }
    }
  }

  lemma {:induction false} CreatesNothing(t: string, text: string, secret: string, token: string)
    requires t != "" && Apart(t, token) && secret != ""
    requires !Occurs(t, text)
    ensures !Occurs(t, ReplaceAll(text, secret, token))
    decreases |text|, 1
  {
    assert "" + text == text;
    ReplaceCreatesNothing(t, "", text, secret, token);
    assert "" + ReplaceAll(text, secret, token) == ReplaceAll(text, secret, token);
  }

  /** No match of the secret begins inside `pre`, when `pre` is followed by `s`. */
  ghost predicate NoMatchBefore(pre: string, s: string, secret: string) {
    forall i: nat | i < |pre| :: !At(secret, pre + s, i)
  }

  lemma PrefixGrows(pre: string, s: string, secret: string)
    requires s != "" && NoMatchBefore(pre, s, secret) && !(secret <= s)
    ensures NoMatchBefore(pre + [s[0]], s[1..], secret)
  {
    assert pre + s == (pre + [s[0]]) + s[1..];
    assert (pre + s)[|pre|..] == s;
  }

  /** From its `k`-th character on, `t` agrees with the token as far as both go. */
  predicate Meets(token: string, t: string, k: nat) {
    k <= |t| && (t[k..] <= token || token <= t[k..])
  }

  /** What a secret and its own token have to be like: the token does not contain the secret, the secret does not begin
      with an end of the token, and where the secret could run into the token, its own beginning put before it already
      has an earlier match, so that the token is never written there. */
  ghost predicate Alone(t: string, token: string) {
    !Occurs(t, token) &&
    (forall k: nat | 0 < k < |t| :: !EndsWith(token, t, k)) &&
    forall k: nat | k < |t| && Meets(token, t, k) :: !NoMatchBefore(t[..k], t, t)
  }

  /** An occurrence that begins in the left part of a text ends there or runs over. */
  lemma BeginsLeft(t: string, u: string, v: string, i: nat)
    requires i < |u| && At(t, u + v, i)
    ensures |t| <= |u| - i ==> At(t, u, i)
    ensures |u| - i < |t| ==> EndsWith(u, t, |u| - i) && t[|u| - i..] <= v && t[..|u| - i] == u[i..]
  {
    assert (u + v)[i..] == u[i..] + v;
    if |t| > |u| - i { assert t[..|u| - i] == u[i..]; }
  }

  lemma StillAt(t: string, u: string, v: string, i: nat)
    requires At(t, u, i)
    ensures At(t, u + v, i)
  {
    assert (u + v)[i..] == u[i..] + v;
  }

  /** An occurrence that begins before the token betrays an earlier match in the text that was replaced. */
  lemma NotFromBefore(t: string, pre: string, token: string, r: string, rest: string, i: nat)
    requires Alone(t, token) && NoMatchBefore(pre, t + rest, t) && i < |pre|
    ensures !At(t, pre + (token + r), i)
  {
    if At(t, pre + (token + r), i) {
      BeginsLeft(t, pre, token + r, i);
      if |t| <= |pre| - i {
        StillAt(t, pre, t + rest, i);
      } else {
        assert Meets(token, t, |pre| - i);
        MatchInside(t, pre, rest, i);
      }
    }
  }

  /** A match in the secret's beginning followed by the secret is a match in the text around it. */
  lemma MatchInside(t: string, pre: string, rest: string, i: nat)
    requires i < |pre| && NoMatchBefore(pre, t + rest, t)
    ensures NoMatchBefore(pre[i..], t, t)
  {
    forall j: nat | j < |pre[i..]| ensures !At(t, pre[i..] + t, j) {
      assert (pre + (t + rest))[i + j..] == (pre[i..] + t)[j..] + rest;
      assert !At(t, pre + (t + rest), i + j);
    }
  }

  lemma NotFromInside(t: string, token: string, r: string, j: nat)
    requires Alone(t, token) && j < |token|
    ensures !At(t, token + r, j)
  {
    if At(t, token + r, j) {
      BeginsLeft(t, token, r, j);
    }
  }

  lemma GoneAround(t: string, pre: string, token: string, r: string, rest: string)
    requires Alone(t, token) && NoMatchBefore(pre, t + rest, t) && !Occurs(t, r)
    ensures !Occurs(t, pre + token + r)
  {
    var out := pre + (token + r);
    assert out == pre + token + r;
    forall i: nat ensures !At(t, out, i) {
      if i < |pre| {
        NotFromBefore(t, pre, token, r, rest, i);
      } else {
        AtShift(t, pre, token + r, i - |pre|);
        if i - |pre| < |token| {
          NotFromInside(t, token, r, i - |pre|);
        } else {
          AtShift(t, token, r, i - |pre| - |token|);
        }
      }
    }
  }

  /** Replacing a secret removes it. */
  lemma {:induction false} ReplaceRemoves(pre: string, s: string, secret: string, token: string)
    requires secret != "" && Alone(secret, token)
    requires NoMatchBefore(pre, s, secret)
    ensures !Occurs(secret, pre + ReplaceAll(s, secret, token))
    decreases |s|, 0
  {
    if |s| < |secret| {
      ShortTail(pre, s, secret);
    } else if secret <= s {
      var rest := s[|secret|..];
      RemovedFrom(rest, secret, token);
      assert s == secret + rest;
      GoneAround(secret, pre, token, ReplaceAll(rest, secret, token), rest);
      HitText(pre, s, secret, token);
    } else {
      PrefixGrows(pre, s, secret);
      ReplaceRemoves(pre + [s[0]], s[1..], secret, token);
      MissText(pre, s, secret, token);
    }
  }

  lemma {:induction false} RemovedFrom(text: string, secret: string, token: string)
    requires secret != "" && Alone(secret, token)
    ensures !Occurs(secret, ReplaceAll(text, secret, token))
    decreases |text|, 1
  {
    ReplaceRemoves("", text, secret, token);
    assert "" + ReplaceAll(text, secret, token) == ReplaceAll(text, secret, token);
  }

  /** The first match, with the text before and after it. */
  lemma {:induction false} ReplaceFrom(pre: string, secret: string, v: string, token: string)
    requires secret != "" && NoMatchBefore(pre, secret + v, secret)
    ensures ReplaceAll(pre + (secret + v), secret, token) == pre + (token + ReplaceAll(v, secret, token))
  {
    var s := pre + (secret + v);
    if pre == "" {
      assert s == secret + v;
      ReplaceHit(v, secret, token);
    } else {
      var tail := pre[1..] + (secret + v);
      assert s == [pre[0]] + tail && s[0..] == s && !At(secret, s, 0);
      forall i: nat | i < |pre[1..]| ensures !At(secret, tail, i) {
        assert s[i + 1..] == tail[i..] && !At(secret, s, i + 1);
      }
      ReplaceMiss(pre[0], tail, secret, token);
      ReplaceFrom(pre[1..], secret, v, token);
    }
  }

  lemma ShortStays(z: string, secret: string, token: string)
    requires secret != "" && |z| < |secret|
    ensures ReplaceAll(z, secret, token) == z
  {
  }

  lemma EarlierOnly(x: string, t: string, z: string)
    requires NoMatchBefore(x, t, t)
    ensures NoMatchBefore(x, t + z, t)
  {
    forall i: nat | i < |x| ensures !At(t, x + (t + z), i) {
      assert (x + (t + z))[i..] == (x + t)[i..] + z;
      assert !At(t, x + t, i);
    }
  }

  /** Where the condition fails there is a text that the secret survives. */
  lemma NotAloneFails(t: string, token: string) returns (text: string)
    requires t != "" && token != "" && !Alone(t, token)
    ensures Occurs(t, ReplaceAll(text, t, token))
  {
    if Occurs(t, token) {
      text := TokenWritten(t, token, "", "");
      assert "" + (token + "") == token;
    } else if k: nat :| 0 < k < |t| && EndsWith(token, t, k) {
      text := TokenWritten(t, token, "", t[k..]);
      CompletedAfter(t, token, k);
    } else {
      var k: nat :| k < |t| && Meets(token, t, k) && NoMatchBefore(t[..k], t, t);
      var z := if t[k..] <= token then "" else t[k..][|token|..];
      text := TokenWritten(t, token, t[..k], z);
      CompletedBefore(t, token, k, z);
    }
  }

  lemma CompletedAfter(t: string, token: string, k: nat)
    requires 0 < k < |t| && EndsWith(token, t, k)
    ensures Occurs(t, "" + (token + t[k..]))
  {
    var out := token + t[k..];
    assert "" + out == out && out[|token| - k..] == t;
    assert At(t, out, |token| - k);
  }

  lemma CompletedBefore(t: string, token: string, k: nat, z: string)
    requires k < |t| && t[k..] <= token + z
    ensures Occurs(t, t[..k] + (token + z))
  {
    var out := t[..k] + (token + z);
    assert t == t[..k] + t[k..] && out[0..] == out;
    assert At(t, out, 0);
  }

  lemma TokenWritten(t: string, token: string, x: string, z: string) returns (text: string)
    requires t != "" && |z| < |t| && NoMatchBefore(x, t, t)
    ensures ReplaceAll(text, t, token) == x + (token + z)
  {
    text := x + (t + z);
    EarlierOnly(x, t, z);
    ReplaceFrom(x, t, z, token);
    ShortStays(z, t, token);
  }

  lemma MeetsHow(t: string, token: string, k: nat)
    requires t != "" && token != "" && k < |t| && Meets(token, t, k)
    ensures Occurs(token, t) || Occurs(t, token) || (k > 0 && BeginsWith(token, t, k))
  {
    if token <= t[k..] {
      assert At(token, t, k);
    } else if k == 0 {
      assert t[0..] == t && token[0..] == token;
      assert At(t, token, 0);
    }
  }

  lemma ApartIsAlone(t: string, token: string)
    requires t != "" && token != "" && Apart(t, token)
    ensures Alone(t, token)
  {
    forall k: nat | k < |t| ensures !Meets(token, t, k) {
      if Meets(token, t, k) { MeetsHow(t, token, k); }
    }
  }

  lemma ShortTail(pre: string, s: string, secret: string)
    requires |s| < |secret| && NoMatchBefore(pre, s, secret)
    ensures !Occurs(secret, pre + s)
  {
    forall i: nat ensures !At(secret, pre + s, i) {
      if i < |pre| { assert !At(secret, pre + s, i); }
    }
  }

  // ----- the whole list -----

  /** The token does not contain the secret; empty secrets are skipped by the code. */
  ghost predicate TokenHides(token: string, f: Finding) {
    f.secret != "" ==> !Occurs(f.secret, token)
  }

  ghost predicate ApartFrom(token: string, f: Finding) {
    f.secret != "" ==> Apart(f.secret, token)
  }

  ghost predicate AloneSafe(f: Finding) {
    f.secret != "" ==> Alone(f.secret, TokenFor(f))
  }

  /** What a caller can check beforehand: every secret is safe with its own token and apart from those of later findings. */
  ghost predicate Redactable(findings: seq<Finding>) {
    (forall i | 0 <= i < |findings| :: AloneSafe(findings[i])) &&
    forall i, j | 0 <= i < j < |findings| :: ApartFrom(TokenFor(findings[j]), findings[i])
  }

  /** A text that is gone stays gone through every later replacement. */
  lemma {:induction false} StaysGone(t: string, text: string, findings: seq<Finding>)
    requires t != "" && !Occurs(t, text)
    requires forall j | 0 <= j < |findings| :: Apart(t, TokenFor(findings[j]))
    ensures !Occurs(t, Redacted(text, findings))
    decreases |findings|
  {
    if findings != [] {
      var f := findings[0];
      if f.secret != "" {
        CreatesNothing(t, text, f.secret, TokenFor(f));
      }
      StaysGone(t, RedactOne(text, f), findings[1..]);
    }
  }

  /** After redaction none of the found secrets occurs anywhere in the text. */
  lemma {:induction false} NoSecretSurvives(text: string, findings: seq<Finding>, i: nat)
    requires Redactable(findings) && i < |findings| && findings[i].secret != ""
    ensures !Occurs(findings[i].secret, Redacted(text, findings))
    decreases |findings|
  {
    var f := findings[0];
    RedactableTail(findings);
    if i == 0 {
      var token := TokenFor(f);
      assert AloneSafe(f);
      RemovedFrom(text, f.secret, token);
      forall j | 0 <= j < |findings[1..]| ensures Apart(f.secret, TokenFor(findings[1..][j])) {
        assert ApartFrom(TokenFor(findings[j + 1]), findings[0]);
      }
      StaysGone(f.secret, RedactOne(text, f), findings[1..]);
    } else {
      NoSecretSurvives(RedactOne(text, f), findings[1..], i - 1);
    }
  }

  lemma RedactableTail(findings: seq<Finding>)
    requires Redactable(findings) && findings != []
    ensures Redactable(findings[1..])
  {
    var rest := findings[1..];
    forall i | 0 <= i < |rest| ensures AloneSafe(rest[i]) { assert AloneSafe(findings[i + 1]); }
    forall i, j | 0 <= i < j < |rest| ensures ApartFrom(TokenFor(rest[j]), rest[i]) {
      assert ApartFrom(TokenFor(findings[j + 1]), findings[i + 1]);
    }
  }

  lemma {:induction false} NothingToReplace(text: string, secret: string, token: string)
    requires secret != "" && !Occurs(secret, text)
    ensures ReplaceAll(text, secret, token) == text
    decreases |text|
  {
    if |text| >= |secret| {
      assert text[0..] == text && !At(secret, text, 0);
      if Occurs(secret, text[1..]) { OccursInSuffix(secret, text, 1); }
      NothingToReplace(text[1..], secret, token);
    }
  }

  lemma {:induction false} CleanTextUnchanged(text: string, findings: seq<Finding>)
    requires forall i | 0 <= i < |findings| :: findings[i].secret != "" ==> !Occurs(findings[i].secret, text)
    ensures Redacted(text, findings) == text
  {
    if findings != [] {
      if findings[0].secret != "" { NothingToReplace(text, findings[0].secret, TokenFor(findings[0])); }
      CleanTextUnchanged(text, findings[1..]);
    }
  }

  // ----- the hypotheses are needed -----

  /** When the secret cannot lie across the edge of a token, that is to say when the token does not contain it. */
  lemma EdgeSafeAlone(f: Finding)
    requires f.secret != "" && EdgeSafe(f.secret)
    ensures Alone(f.secret, TokenFor(f)) <==> !Occurs(f.secret, TokenFor(f))
  {
    TokenShape(f);
    if !Occurs(f.secret, TokenFor(f)) {
      EdgeSafeIsApart(f.secret, TokenFor(f));
      ApartIsAlone(f.secret, TokenFor(f));
    }
  }

  /** A secret with a bracket can come back: removing a later secret puts a token's closing bracket
      in front of the text that followed. */
  lemma BracketSecretCanReturn()
    ensures var findings := [Finding("r", "]b", []), Finding("r", "a", [])];
            !Occurs("]b", "ab") && Occurs("]b", Redacted("ab", findings))
  {
    var first, second := Finding("r", "]b", []), Finding("r", "a", []);
    var findings := [first, second];
    forall i: nat ensures !At("]b", "ab", i) {
      if i < 1 { assert "ab"[i..][0] == 'a'; }
    }
    NothingToReplace("ab", "]b", TokenFor(first));
    ReplaceHit("b", "a", TokenFor(second));
    assert "a" + "b" == "ab";
    assert ReplaceAll("b", "a", TokenFor(second)) == "b" by { assert "b"[1..] == ""; }
    assert findings[1..] == [second] && [second][1..] == [];
    var out := TokenFor(second) + "b";
    assert Redacted("ab", findings) == out by {
      assert Redacted("ab", [second]) == Redacted(out, []);
    }
    var n := |TokenFor(second)| - 1;
    assert out[n..] == "]b";
    assert At("]b", out, n);
  }

  // ----- exactly when redaction is safe -----

  /** A token, possibly with redactions inside it: still fenced off by its outer brackets. */
  predicate Fenced(block: string) {
    |block| >= 2 && block[0] == '[' && block[|block| - 1] == ']'
  }

  /** A pattern that cannot lie across the seam is replaced on each side separately. */
  lemma {:induction false} ReplaceAcross(x: string, y: string, pat: string, rep: string)
    requires pat != "" && (x == "" || y == "" || NotLater(y[0], pat) || NotEarlier(x[|x| - 1], pat))
    ensures ReplaceAll(x + y, pat, rep) == ReplaceAll(x, pat, rep) + ReplaceAll(y, pat, rep)
    decreases |x|
  {
    if x == "" {
      assert x + y == y;
    } else if y == "" {
      assert x + y == x;
    } else if pat <= x {
      ReplaceAcross(x[|pat|..], y, pat, rep);
      AcrossHit(x, y, pat, rep);
    } else {
      NoHitAtSeam(x, y, pat);
      ReplaceAcross(x[1..], y, pat, rep);
      AcrossMiss(x, y, pat, rep);
    }
  }

  lemma AcrossHit(x: string, y: string, pat: string, rep: string)
    requires pat != "" && pat <= x
    requires ReplaceAll(x[|pat|..] + y, pat, rep) == ReplaceAll(x[|pat|..], pat, rep) + ReplaceAll(y, pat, rep)
    ensures ReplaceAll(x + y, pat, rep) == ReplaceAll(x, pat, rep) + ReplaceAll(y, pat, rep)
  {
    var rest := x[|pat|..];
    assert x + y == pat + (rest + y) && x == pat + rest;
    ReplaceHit(rest + y, pat, rep);
    ReplaceHit(rest, pat, rep);
  }

  lemma AcrossMiss(x: string, y: string, pat: string, rep: string)
    requires pat != "" && x != "" && !(pat <= x) && !(pat <= x + y)
    requires ReplaceAll(x[1..] + y, pat, rep) == ReplaceAll(x[1..], pat, rep) + ReplaceAll(y, pat, rep)
    ensures ReplaceAll(x + y, pat, rep) == ReplaceAll(x, pat, rep) + ReplaceAll(y, pat, rep)
  {
    assert x + y == [x[0]] + (x[1..] + y) && x == [x[0]] + x[1..];
    ReplaceMiss(x[0], x[1..] + y, pat, rep);
    ReplaceMiss(x[0], x[1..], pat, rep);
  }

  lemma NoHitAtSeam(x: string, y: string, pat: string)
    requires x != "" && y != "" && (NotLater(y[0], pat) || NotEarlier(x[|x| - 1], pat)) && !(pat <= x)
    ensures !(pat <= x + y)
  {
    assert (x + y)[|x|] == y[0] && (x + y)[|x| - 1] == x[|x| - 1];
    assert |pat| <= |x| ==> (x + y)[..|pat|] == x[..|pat|];
  }

  lemma RedactOneFenced(u: string, block: string, v: string, f: Finding)
    requires Fenced(block) && (f.secret != "" ==> EdgeSafe(f.secret))
    ensures RedactOne(u + block + v, f) == RedactOne(u, f) + RedactOne(block, f) + RedactOne(v, f)
    ensures Fenced(RedactOne(block, f))
  {
    if f.secret != "" {
      var token := TokenFor(f);
      TokenShape(f);
      ReplaceAcross(u + block, v, f.secret, token);
      ReplaceAcross(u, block, f.secret, token);
      FenceKept(block, f.secret, token);
    }
  }

  /** Whatever is replaced by tokens, a closing bracket stays at the end. */
  lemma {:induction false} EndStays(s: string, secret: string, token: string)
    requires secret != "" && IsToken(token) && s != "" && s[|s| - 1] == ']'
    ensures var r := ReplaceAll(s, secret, token); r != "" && r[|r| - 1] == ']'
    decreases |s|
  {
    if |s| >= |secret| {
      var n := if secret <= s then |secret| else 1;
      if n < |s| { EndStays(s[n..], secret, token); }
    }
  }

  lemma FenceKept(block: string, secret: string, token: string)
    requires Fenced(block) && secret != "" && IsToken(token)
    ensures Fenced(ReplaceAll(block, secret, token))
  {
    EndStays(block, secret, token);
  }

  /** Text, a fenced block and more text are redacted independently of each other. */
  lemma {:induction false} RedactedFenced(u: string, block: string, v: string, findings: seq<Finding>)
    requires Fenced(block) && AllEdgeSafe(findings)
    ensures Redacted(u + block + v, findings) == Redacted(u, findings) + Redacted(block, findings) + Redacted(v, findings)
    ensures Fenced(Redacted(block, findings))
    decreases |findings|
  {
    if findings != [] {
      var f := findings[0];
      RedactOneFenced(u, block, v, f);
      RedactedFenced(RedactOne(u, f), RedactOne(block, f), RedactOne(v, f), findings[1..]);
    }
  }

  predicate AllEdgeSafe(findings: seq<Finding>) {
    forall i :: 0 <= i < |findings| ==> findings[i].secret != "" ==> EdgeSafe(findings[i].secret)
  }

  lemma AbsentAroundFence(t: string, u: string, block: string, v: string)
    requires t != "" && EdgeSafe(t) && Fenced(block)
    requires !Occurs(t, u) && !Occurs(t, block) && !Occurs(t, v)
    ensures !Occurs(t, u + block + v)
  {
    EdgeSafeIsApart(t, block);
    AroundToken(t, u, block, v);
  }

  lemma OccursLater(text: string, secret: string)
    requires Occurs(secret, text) && !(secret <= text)
    ensures text != "" && Occurs(secret, text[1..])
  {
    var i: nat :| At(secret, text, i);
    assert text[0..] == text;
    assert text[1..][i - 1..] == text[i..];
    assert At(secret, text[1..], i - 1);
  }

  predicate Surrounds(text: string, secret: string, u: string, v: string) {
    text == u + secret + v
  }

  /** One more character in front of the first match. */
  lemma MatchOneLater(text: string, secret: string, token: string, u: string, v: string, rest: string)
    requires secret != "" && text != "" && !(secret <= text)
    requires Surrounds(text[1..], secret, u, v) && !Occurs(secret, u)
    requires ReplaceAll(text[1..], secret, token) == u + token + rest
    ensures Surrounds(text, secret, [text[0]] + u, v) && !Occurs(secret, [text[0]] + u)
    ensures ReplaceAll(text, secret, token) == ([text[0]] + u) + token + rest
  {
    NotOneEarlier(text, u, secret, v);
    assert text == [text[0]] + text[1..];
    ReplaceMiss(text[0], text[1..], secret, token);
    Regroup([text[0]], u, token, rest);
  }

  lemma MatchHere(text: string, secret: string, token: string, v: string)
    requires secret != "" && secret <= text && v == text[|secret|..]
    ensures Surrounds(text, secret, "", v) && !Occurs(secret, "")
    ensures ReplaceAll(text, secret, token) == "" + token + ReplaceAll(v, secret, token)
  {
    NotInEmpty(secret);
    assert "" + secret == secret && "" + token == token;
  }

  /** The first match of a secret, and what is before and after it. */
  lemma {:induction false} FirstMatch(text: string, secret: string, token: string) returns (u: string, v: string)
    requires secret != "" && Occurs(secret, text)
    ensures Surrounds(text, secret, u, v) && !Occurs(secret, u)
    ensures ReplaceAll(text, secret, token) == u + token + ReplaceAll(v, secret, token)
    decreases |text|
  {
    if secret <= text {
      u, v := "", text[|secret|..];
      MatchHere(text, secret, token, v);
    } else {
      OccursLater(text, secret);
      u, v := FirstMatch(text[1..], secret, token);
      MatchOneLater(text, secret, token, u, v, ReplaceAll(v, secret, token));
      u := [text[0]] + u;
    }
  }

  lemma Regroup(a: string, b: string, c: string, d: string)
    ensures a + (b + c + d) == (a + b) + c + d
  {
  }

  lemma NotInEmpty(secret: string)
    requires secret != ""
    ensures !Occurs(secret, "")
  {
    forall i: nat ensures !At(secret, "", i) { }
  }

  lemma NotOneEarlier(text: string, u: string, secret: string, v: string)
    requires secret != "" && text != "" && Surrounds(text[1..], secret, u, v)
    requires !(secret <= text) && !Occurs(secret, u)
    ensures !Occurs(secret, [text[0]] + u)
    ensures Surrounds(text, secret, [text[0]] + u, v)
  {
    var w := [text[0]] + u;
    forall i: nat ensures !At(secret, w, i) {
      if i == 0 {
        assert w[0..] == w && text == w + (secret + v);
      } else if i <= |w| {
        assert w[i..] == u[i - 1..];
        assert !At(secret, u, i - 1);
      }
    }
  }

  /** The text holds none of the first `n` secrets. */
  ghost predicate NoneBefore(findings: seq<Finding>, n: nat, text: string) {
    forall i :: 0 <= i < n && i < |findings| ==> TokenHides(text, findings[i])
  }

  /** Findings that a text does not contain can be left out from the front. */
  lemma {:induction false} SkipAbsent(text: string, findings: seq<Finding>, n: nat)
    requires n <= |findings| && NoneBefore(findings, n, text)
    ensures Redacted(text, findings) == Redacted(text, findings[n..])
    decreases n
  {
    if n == 0 {
      assert findings[0..] == findings;
    } else {
      SkipAbsent(text, findings, n - 1);
      assert findings[n - 1..][1..] == findings[n..] && TokenHides(text, findings[n - 1]);
      if findings[n - 1].secret != "" { NothingToReplace(text, findings[n - 1].secret, TokenFor(findings[n - 1])); }
    }
  }

  /** Nothing found survives the redaction of this one text. */
  ghost predicate SafeOn(text: string, findings: seq<Finding>) {
    NoneBefore(findings, |findings|, Redacted(text, findings))
  }

  /** What can be checked before the call: redacting each found secret by itself leaves no found secret. */
  ghost predicate SafeOnSecrets(findings: seq<Finding>) {
    forall j :: 0 <= j < |findings| ==> findings[j].secret != "" ==> SafeOn(findings[j].secret, findings)
  }

  lemma NoneInPart(findings: seq<Finding>, n: nat, u: string, part: string, v: string)
    requires NoneBefore(findings, n, u + part + v)
    ensures NoneBefore(findings, n, part)
  {
    forall i | 0 <= i < n && i < |findings| ensures TokenHides(part, findings[i]) {
      assert TokenHides(u + part + v, findings[i]);
      if findings[i].secret != "" && Occurs(findings[i].secret, part) {
        OccursInPrefix(findings[i].secret, part, v);
        assert (u + part + v)[|u|..] == part + v;
        OccursInSuffix(findings[i].secret, u + part + v, |u|);
      }
    }
  }

  /** The redaction of a found secret is what becomes of its token, when nothing earlier is part of the secret. */
  lemma SecretBecomesToken(findings: seq<Finding>, n: nat)
    requires n < |findings| && findings[n].secret != "" && NoneBefore(findings, n, findings[n].secret)
    ensures Redacted(findings[n].secret, findings) == Redacted(TokenFor(findings[n]), findings[n + 1..])
  {
    var f := findings[n];
    SkipAbsent(f.secret, findings, n);
    assert findings[n..][1..] == findings[n + 1..];
    ReplaceHit("", f.secret, TokenFor(f));
    assert f.secret + "" == f.secret && TokenFor(f) + "" == TokenFor(f) && ReplaceAll("", f.secret, TokenFor(f)) == "";
  }

  /** From finding `n` on, a text that holds none of the earlier secrets ends up without secret `i`. */
  lemma {:induction false} SafeFrom(findings: seq<Finding>, n: nat, text: string, i: nat)
    requires AllEdgeSafe(findings) && SafeOnSecrets(findings)
    requires n <= |findings| && NoneBefore(findings, n, text)
    requires i < |findings| && findings[i].secret != ""
    ensures !Occurs(findings[i].secret, Redacted(text, findings[n..]))
    decreases |findings| - n, |text|
  {
    if n == |findings| {
      assert TokenHides(text, findings[i]);
    } else if TokenHides(text, findings[n]) {
      OneSkipped(findings, n, text);
      SafeFrom(findings, n + 1, text, i);
    } else {
      var u, v := FirstMatch(text, findings[n].secret, TokenFor(findings[n]));
      SafeToken(findings, n, text, u, v, i);
      SafeRests(findings, n, text, u, v);
      SafeFrom(findings, n + 1, u, i);
      SafeFrom(findings, n, v, i);
      SafeJoined(findings, n, text, u, v, i);
    }
  }

  lemma OneSkipped(findings: seq<Finding>, n: nat, text: string)
    requires n < |findings| && TokenHides(text, findings[n]) && NoneBefore(findings, n, text)
    ensures Redacted(text, findings[n..]) == Redacted(text, findings[n + 1..])
    ensures NoneBefore(findings, n + 1, text)
  {
    assert findings[n..][1..] == findings[n + 1..];
    if findings[n].secret != "" { NothingToReplace(text, findings[n].secret, TokenFor(findings[n])); }
  }

  lemma SafeToken(findings: seq<Finding>, n: nat, text: string, u: string, v: string, i: nat)
    requires SafeOnSecrets(findings) && n < |findings| && i < |findings| && findings[i].secret != ""
    requires findings[n].secret != "" && NoneBefore(findings, n, text) && Surrounds(text, findings[n].secret, u, v)
    ensures !Occurs(findings[i].secret, Redacted(TokenFor(findings[n]), findings[n + 1..]))
  {
    var f := findings[n];
    NoneInPart(findings, n, u, f.secret, v);
    SecretBecomesToken(findings, n);
    assert SafeOn(f.secret, findings) && TokenHides(Redacted(f.secret, findings), findings[i]);
  }

  lemma SafeRests(findings: seq<Finding>, n: nat, text: string, u: string, v: string)
    requires n < |findings| && NoneBefore(findings, n, text) && Surrounds(text, findings[n].secret, u, v)
    requires findings[n].secret != "" && !Occurs(findings[n].secret, u)
    ensures NoneBefore(findings, n + 1, u) && NoneBefore(findings, n, v) && |v| < |text|
  {
    var secret := findings[n].secret;
    assert "" + u + (secret + v) == text && (u + secret) + v + "" == text;
    NoneInPart(findings, n, "", u, secret + v);
    NoneInPart(findings, n, u + secret, v, "");
  }

  lemma SafeJoined(findings: seq<Finding>, n: nat, text: string, u: string, v: string, i: nat)
    requires AllEdgeSafe(findings) && n < |findings| && i < |findings| && findings[i].secret != ""
    requires findings[n].secret != ""
    requires RedactOne(text, findings[n]) == u + TokenFor(findings[n]) + RedactOne(v, findings[n])
    requires !Occurs(findings[i].secret, Redacted(u, findings[n + 1..]))
    requires !Occurs(findings[i].secret, Redacted(TokenFor(findings[n]), findings[n + 1..]))
    requires !Occurs(findings[i].secret, Redacted(v, findings[n..]))
    ensures !Occurs(findings[i].secret, Redacted(text, findings[n..]))
  {
    var f, later := findings[n], findings[n + 1..];
    assert findings[n..][1..] == later;
    TokenShape(f);
    RedactedFenced(u, TokenFor(f), RedactOne(v, f), later);
    AbsentAroundFence(findings[i].secret, Redacted(u, later), Redacted(TokenFor(f), later), Redacted(RedactOne(v, f), later));
  }

  /** Two findings whose secrets occur in neither token, the first one's also not in the second. */
  lemma TwoAbsentAreSafe(first: Finding, second: Finding)
    requires first.secret != "" && second.secret != "" && !Occurs(first.secret, second.secret)
    requires TokenFor(first) == TokenFor(second)
    requires !Occurs(first.secret, TokenFor(first)) && !Occurs(second.secret, TokenFor(first))
    ensures SafeOnSecrets([first, second])
  {
    var findings, token := [first, second], TokenFor(first);
    assert findings[1..] == [second] && [second][1..] == [];
    SecretRedacted(first);
    NothingToReplace(token, second.secret, token);
    assert Redacted(first.secret, findings) == Redacted(token, [second]) == Redacted(token, []) == token;
    NothingToReplace(second.secret, first.secret, token);
    SecretRedacted(second);
    assert Redacted(second.secret, findings) == Redacted(second.secret, [second]) == Redacted(token, []) == token;
  }

  lemma SecretRedacted(f: Finding)
    requires f.secret != ""
    ensures RedactOne(f.secret, f) == TokenFor(f)
  {
    ReplaceHit("", f.secret, TokenFor(f));
    assert f.secret + "" == f.secret && TokenFor(f) + "" == TokenFor(f) && ReplaceAll("", f.secret, TokenFor(f)) == "";
  }

  lemma AbsentFromExample(token: string)
    requires token == "[REDACTED:" + "r" + "]"
    ensures !Occurs("a", token) && !Occurs("]b", token)
  {
    forall i: nat ensures !At("a", token, i) && !At("]b", token, i) {
      if i < |token| { assert token[i..][0] == token[i]; }
    }
  }

  /** A list outside of that condition, on which being safe on each secret is not enough: `BracketSecretCanReturn`. */
  lemma BracketListIsSafeOnSecrets()
    ensures SafeOnSecrets([Finding("r", "]b", []), Finding("r", "a", [])])
  {
    AbsentFromExample("[REDACTED:" + "r" + "]");
    assert !Occurs("]b", "a") by {
      forall i: nat ensures !At("]b", "a", i) { }
    }
    TwoAbsentAreSafe(Finding("r", "]b", []), Finding("r", "a", []));
  }

  /** Secrets that cannot lie across the edge of a token: redaction is safe for every text exactly when it is safe for each secret by itself. */
  lemma SafeForAllExactly(findings: seq<Finding>)
    requires AllEdgeSafe(findings)
    ensures (forall text :: SafeOn(text, findings)) <==> SafeOnSecrets(findings)
  {
    if SafeOnSecrets(findings) {
      forall text: string ensures SafeOn(text, findings) {
        forall i | 0 <= i < |findings| ensures TokenHides(Redacted(text, findings), findings[i]) {
          if findings[i].secret != "" {
            assert findings[0..] == findings;
            SafeFrom(findings, 0, text, i);
          }
        }
      }
    }
  }

  lemma OneRedacted(text: string, f: Finding)
    requires f.secret != ""
    ensures SafeOn(text, [f]) <==> !Occurs(f.secret, ReplaceAll(text, f.secret, TokenFor(f)))
  {
    assert [f][1..] == [] && Redacted(text, [f]) == Redacted(RedactOne(text, f), []) == RedactOne(text, f);
    assert SafeOn(text, [f]) <==> TokenHides(Redacted(text, [f]), [f][0]);
  }

  /** For one finding, any secret: redaction is safe for every text exactly when the secret is safe with its token. */
  lemma OneFindingExactly(f: Finding)
    requires f.secret != ""
    ensures (forall text :: SafeOn(text, [f])) <==> Alone(f.secret, TokenFor(f))
  {
    TokenShape(f);
    if Alone(f.secret, TokenFor(f)) {
      forall text: string ensures SafeOn(text, [f]) {
        RemovedFrom(text, f.secret, TokenFor(f));
        OneRedacted(text, f);
      }
    } else {
      var text := NotAloneFails(f.secret, TokenFor(f));
      OneRedacted(text, f);
    }
  }

  /** The condition a caller can read off the list is enough, for any secrets. */
  lemma RedactableIsSafe(text: string, findings: seq<Finding>)
    requires Redactable(findings)
    ensures SafeOn(text, findings)
  {
    forall i | 0 <= i < |findings| ensures TokenHides(Redacted(text, findings), findings[i]) {
      if findings[i].secret != "" { NoSecretSurvives(text, findings, i); }
    }
  }

  /** For a list: wherever the token of finding `j` is really written and left as it is, a secret that it completes is in
      the result. */
  lemma WrittenTokenFails(findings: seq<Finding>, j: nat, x: string, z: string, i: nat)
    requires j < |findings| && findings[j].secret != "" && NoneBefore(findings, j, x + (findings[j].secret + z))
    requires NoMatchBefore(x, findings[j].secret + z, findings[j].secret) && !Occurs(findings[j].secret, z)
    requires NoneBefore(findings[j + 1..], |findings| - j - 1, x + (TokenFor(findings[j]) + z))
    requires i < |findings| && findings[i].secret != "" && Occurs(findings[i].secret, x + (TokenFor(findings[j]) + z))
    ensures !SafeOn(x + (findings[j].secret + z), findings)
  {
    var f, later := findings[j], findings[j + 1..];
    var text, out := x + (f.secret + z), x + (TokenFor(f) + z);
    SkipAbsent(text, findings, j);
    assert findings[j..][1..] == later;
    ReplaceFrom(x, f.secret, z, TokenFor(f));
    NothingToReplace(z, f.secret, TokenFor(f));
    forall m | 0 <= m < |later| && later[m].secret != "" ensures !Occurs(later[m].secret, out) {
      assert TokenHides(out, later[m]);
    }
    CleanTextUnchanged(out, later);
    assert Redacted(text, findings) == out && !TokenHides(out, findings[i]);
  }

  /** Redacting twice with the same findings is redacting once, wherever the first pass was safe. */
  lemma RedactionIdempotent(text: string, findings: seq<Finding>)
    requires SafeOn(text, findings)
    ensures Redacted(Redacted(text, findings), findings) == Redacted(text, findings)
  {
    forall i | 0 <= i < |findings| && findings[i].secret != ""
      ensures !Occurs(findings[i].secret, Redacted(text, findings))
    {
      assert TokenHides(Redacted(text, findings), findings[i]);
    }
    CleanTextUnchanged(Redacted(text, findings), findings);
  }

  // ----- scanners -----

  /** The scanner finds the text wherever it stands. */
  ghost predicate Reported(scan: Scan, x: string) {
    x != "" && forall t :: Occurs(x, t) ==> Finds(scan(t), x)
  }

  predicate Finds(findings: seq<Finding>, x: string) {
    exists i :: 0 <= i < |findings| && findings[i].secret == x
  }

  ghost predicate AlwaysRedactable(scan: Scan) {
    forall t: string :: Redactable(scan(t))
  }

  /** No token that the scanner's findings give can be part of the text, or the text part of it, or one reach into the other. */
  ghost predicate NeverCompleted(scan: Scan, x: string) {
    forall t: string, i | 0 <= i < |scan(t)| :: Apart(x, TokenFor(scan(t)[i]))
  }

  lemma FoundIsGone(text: string, findings: seq<Finding>, x: string)
    requires x != "" && Finds(findings, x) && Redactable(findings)
    ensures !Occurs(x, Redacted(text, findings))
  {
    var i :| 0 <= i < |findings| && findings[i].secret == x;
    NoSecretSurvives(text, findings, i);
  }

  /** What is kept of a text: its redaction, which is the text itself when nothing was found, and in which no found secret
      is left when they can be redacted. */
  ghost predicate CleanCopy(copy: string, text: string, findings: seq<Finding>) {
    && copy == Redacted(text, findings)
    && (findings == [] ==> copy == text)
    && (Redactable(findings) ==> forall i :: 0 <= i < |findings| && findings[i].secret != "" ==> !Occurs(findings[i].secret, copy))
  }

  lemma RedactedIsClean(text: string, findings: seq<Finding>)
    ensures CleanCopy(Redacted(text, findings), text, findings)
  {
    if Redactable(findings) {
      forall i | 0 <= i < |findings| && findings[i].secret != "" ensures !Occurs(findings[i].secret, Redacted(text, findings)) {
        NoSecretSurvives(text, findings, i);
      }
    }
  }

  /** Nothing that the scanner always reports is left in a clean copy of a text that has it, nor in any other when no token
      can complete it. */
  lemma ReportedLeavesCopy(scan: Scan, x: string, copy: string, text: string)
    requires Reported(scan, x) && AlwaysRedactable(scan) && CleanCopy(copy, text, scan(text))
    requires Occurs(x, text) || NeverCompleted(scan, x)
    ensures !Occurs(x, copy)
  {
    if Occurs(x, text) {
      FoundIsGone(text, scan(text), x);
    } else {
      assert forall i | 0 <= i < |scan(text)| :: Apart(x, TokenFor(scan(text)[i]));
      StaysGone(x, text, scan(text));
    }
  }

  // ----- the abort decision -----

  const ABORT_THRESHOLD_FINDINGS := 3

  datatype Verdict = Verdict(abort: bool, reason: AbortReason)
  datatype AbortReason = NoReason | TooMany(count: nat) | HighConfidence(ruleId: string)

  predicate FirstHigh(findings: seq<Finding>, i: nat)
    requires i < |findings|
  {
    "high" in findings[i].tags && forall k :: 0 <= k < i ==> "high" !in findings[k].tags
  }

  method ShouldAbortReview(findings: seq<Finding>) returns (v: Verdict)
    ensures v.abort <==> |findings| > 3 || exists i :: 0 <= i < |findings| && "high" in findings[i].tags
    ensures match v.reason
            case NoReason => !v.abort
            case TooMany(count) => v.abort && |findings| > 3 && count == |findings|
            case HighConfidence(ruleId) =>
              v.abort && |findings| <= 3 && exists i :: 0 <= i < |findings| && FirstHigh(findings, i) && ruleId == findings[i].ruleId
  {
    if |findings| > ABORT_THRESHOLD_FINDINGS { return Verdict(true, TooMany(|findings|)); }
    var i := 0;
    while i < |findings|
      invariant 0 <= i <= |findings|
      invariant forall k | 0 <= k < i :: "high" !in findings[k].tags
    {
      if "high" in findings[i].tags {
        assert FirstHigh(findings, i);
        return Verdict(true, HighConfidence(findings[i].ruleId));
      }
      i := i + 1;
    }
    return Verdict(false, NoReason);
  }
}
