/** The JavaScript string primitives the modelled code leans on: `split`, `join` and a global
    `replace` of a literal text, all scanning left to right without overlap. */
module Strings {

  function ReplaceAll(s: string, pat: string, rep: string): string
    requires pat != ""
    decreases |s|
  {
    if |s| < |pat| then s
    else if pat <= s then rep + ReplaceAll(s[|pat|..], pat, rep)
    else [s[0]] + ReplaceAll(s[1..], pat, rep)
  }

  function Split(s: string, sep: string): (parts: seq<string>)
    requires sep != ""
    ensures |parts| >= 1
    decreases |s|
  {
    if |s| < |sep| then [s]
    else if sep <= s then [""] + Split(s[|sep|..], sep)
    else
      var rest := Split(s[1..], sep);
      [[s[0]] + rest[0]] + rest[1..]
  }

  function Join(parts: seq<string>, sep: string): string {
    if parts == [] then ""
    else if |parts| == 1 then parts[0]
    else parts[0] + sep + Join(parts[1..], sep)
  }

  predicate At(t: string, s: string, i: nat) {
    i <= |s| && t <= s[i..]
  }

  ghost predicate Occurs(t: string, s: string) {
    exists i: nat :: At(t, s, i)
  }

  lemma AtShift(t: string, u: string, s: string, i: nat)
    ensures At(t, u + s, |u| + i) <==> At(t, s, i)
  {
    if i <= |s| { assert (u + s)[|u| + i..] == s[i..]; }
  }

  lemma OccursInSuffix(t: string, s: string, n: nat)
    requires n <= |s| && Occurs(t, s[n..])
    ensures Occurs(t, s)
  {
    var i: nat :| At(t, s[n..], i);
    AtShift(t, s[..n], s[n..], i);
    assert s == s[..n] + s[n..];
  }

  lemma OccursInPrefix(t: string, u: string, v: string)
    requires Occurs(t, u)
    ensures Occurs(t, u + v)
  {
    var i: nat :| At(t, u, i);
    assert (u + v)[i..] == u[i..] + v;
    assert At(t, u + v, i);
  }

  // ----- stepping lemmas for ReplaceAll -----

  lemma ReplaceHit(v: string, pat: string, rep: string)
    requires pat != ""
    ensures ReplaceAll(pat + v, pat, rep) == rep + ReplaceAll(v, pat, rep)
  {
    assert (pat + v)[|pat|..] == v;
  }

  lemma ReplaceMiss(c: char, v: string, pat: string, rep: string)
    requires pat != "" && !(pat <= [c] + v)
    ensures ReplaceAll([c] + v, pat, rep) == [c] + ReplaceAll(v, pat, rep)
  {
    assert ([c] + v)[1..] == v;
  }

  /** Text in which the pattern cannot start is copied through unchanged. */
  lemma {:induction false} ReplaceSkip(u: string, v: string, pat: string, rep: string)
    requires pat != "" && pat[0] !in u
    ensures ReplaceAll(u + v, pat, rep) == u + ReplaceAll(v, pat, rep)
  {
    if u == "" {
      assert u + v == v;
    } else {
      assert u + v == [u[0]] + (u[1..] + v);
      ReplaceMiss(u[0], u[1..] + v, pat, rep);
      ReplaceSkip(u[1..], v, pat, rep);
    }
  }

  // ----- split and join -----

  lemma {:induction false} JoinCons(head: string, tail: seq<string>, sep: string)
    requires tail != []
    ensures Join([head] + tail, sep) == head + sep + Join(tail, sep)
  {
    assert ([head] + tail)[1..] == tail;
  }

  lemma {:induction false} JoinPrepend(c: char, parts: seq<string>, sep: string)
    requires parts != []
    ensures Join([[c] + parts[0]] + parts[1..], sep) == [c] + Join(parts, sep)
  {
    if |parts| == 1 {
      assert [[c] + parts[0]] + parts[1..] == [[c] + parts[0]];
    } else {
      JoinCons([c] + parts[0], parts[1..], sep);
    }
  }

  /** `s.split(a).join(b)` is the global replacement of `a` by `b`. */
  lemma {:induction false} SplitJoinReplaces(s: string, a: string, b: string)
    requires a != ""
    ensures Join(Split(s, a), b) == ReplaceAll(s, a, b)
    decreases |s|
  {
    if |s| < |a| {
    } else if a <= s {
      SplitJoinReplaces(s[|a|..], a, b);
      JoinAtHit(s, a, b);
    } else {
      SplitJoinReplaces(s[1..], a, b);
      JoinAtMiss(s, a, b);
    }
  }

  lemma JoinAtHit(s: string, a: string, b: string)
    requires a != "" && a <= s
    ensures Join(Split(s, a), b) == b + Join(Split(s[|a|..], a), b)
  {
    JoinCons("", Split(s[|a|..], a), b);
    assert "" + b == b;
  }

  lemma JoinAtMiss(s: string, a: string, b: string)
    requires a != "" && |a| <= |s| && !(a <= s)
    ensures Join(Split(s, a), b) == [s[0]] + Join(Split(s[1..], a), b)
  {
    SplitMiss(s, a);
    JoinPrepend(s[0], Split(s[1..], a), b);
  }

  lemma SplitMiss(s: string, a: string)
    requires a != "" && |a| <= |s| && !(a <= s)
    ensures var rest := Split(s[1..], a); Split(s, a) == [[s[0]] + rest[0]] + rest[1..]
  {
  }

  lemma {:induction false} ReplaceSelf(s: string, a: string)
    requires a != ""
    ensures ReplaceAll(s, a, a) == s
    decreases |s|
  {
    if |s| < |a| {
    } else if a <= s {
      ReplaceSelf(s[|a|..], a);
      assert s == a + s[|a|..];
    } else {
      ReplaceSelf(s[1..], a);
    }
  }

  // ----- lines -----

  const NEWLINE := "\n"

  predicate LinesOf(lines: seq<string>) {
    lines != [] && forall k | 0 <= k < |lines| :: '\n' !in lines[k]
  }

  lemma {:induction false} SplitLines(s: string)
    ensures LinesOf(Split(s, NEWLINE))
    ensures Join(Split(s, NEWLINE), NEWLINE) == s
  {
    SplitJoinReplaces(s, NEWLINE, NEWLINE);
    ReplaceSelf(s, NEWLINE);
    SplitHasNoNewline(s);
  }

  lemma {:induction false} SplitHasNoNewline(s: string)
    ensures LinesOf(Split(s, NEWLINE))
  {
    if |s| >= 1 {
      SplitHasNoNewline(s[1..]);
      if !(NEWLINE <= s) {
        assert s[..1] == [s[0]];
      }
    }
  }

  lemma {:induction false} SplitOneLine(u: string)
    requires '\n' !in u
    ensures Split(u, NEWLINE) == [u]
  {
    if u != "" {
      SplitOneLine(u[1..]);
      assert u == [u[0]] + u[1..];
    }
  }

  lemma {:induction false} SplitFirstLine(u: string, v: string)
    requires '\n' !in u
    ensures Split(u + NEWLINE + v, NEWLINE) == [u] + Split(v, NEWLINE)
  {
    var s := u + NEWLINE + v;
    if u == "" {
      assert s == NEWLINE + v && s[1..] == v;
    } else {
      assert s[1..] == u[1..] + NEWLINE + v;
      SplitFirstLine(u[1..], v);
      assert s[0] == u[0] && !(NEWLINE <= s);
      assert u == [u[0]] + u[1..];
    }
  }

  /** Joining lines and splitting the text again gives the lines back. */
  lemma {:induction false} SplitOfJoin(lines: seq<string>)
    requires LinesOf(lines)
    ensures Split(Join(lines, NEWLINE), NEWLINE) == lines
  {
    if |lines| == 1 {
      SplitOneLine(lines[0]);
    } else {
      SplitFirstLine(lines[0], Join(lines[1..], NEWLINE));
      SplitOfJoin(lines[1..]);
      assert lines == [lines[0]] + lines[1..];
    }
  }

  lemma OccursThrough(x: string, y: string, z: string)
    requires Occurs(x, y) && Occurs(y, z)
    ensures Occurs(x, z)
  {
    var j: nat :| At(y, z, j);
    assert z[j..] == y + z[j..][|y|..];
    OccursInPrefix(x, y, z[j..][|y|..]);
    OccursInSuffix(x, z, j);
  }

  /** Every part of a joined text stands in it. */
  lemma {:induction false} JoinHasParts(parts: seq<string>, i: nat, sep: string)
    requires i < |parts|
    ensures Occurs(parts[i], Join(parts, sep))
  {
    var text := Join(parts, sep);
    if i == 0 {
      assert parts[0] <= text && text[0..] == text;
      assert At(parts[0], text, 0);
    } else {
      var n := |parts[0] + sep|;
      JoinHasParts(parts[1..], i - 1, sep);
      assert text[n..] == Join(parts[1..], sep);
      OccursInSuffix(parts[i], text, n);
    }
  }

  lemma {:induction false} JoinAppend(a: seq<string>, b: seq<string>, sep: string)
    requires a != [] && b != []
    ensures Join(a + b, sep) == Join(a, sep) + sep + Join(b, sep)
  {
    if |a| == 1 {
      assert a == [a[0]];
      JoinCons(a[0], b, sep);
    } else {
      JoinAppend(a[1..], b, sep);
      assert a + b == [a[0]] + (a[1..] + b);
      JoinCons(a[0], a[1..] + b, sep);
    }
  }
}
