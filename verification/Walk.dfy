/** The workspace walk behind the `glob` tool: which files it lists under a deny list. */
module Walk {
  import Strings

  datatype Entry = File(name: string) | Dir(name: string, children: seq<Entry>) | Other(name: string)

  type PathTest = string -> bool

  /** A file's path with the paths of its ancestors and itself, outermost first. */
  datatype Located = Located(path: string, chain: seq<string>)

  function RelPath(dir: string, name: string): string {
    if dir == "" then name else dir + "/" + name
  }

  predicate Denied(deny: seq<PathTest>, rel: string) {
    exists i | 0 <= i < |deny| :: deny[i](rel)
  }

  /** The built-in patterns first, the operator's appended; nothing is ever removed. */
  function EffectiveDeny(builtIn: seq<PathTest>, extra: seq<PathTest>): seq<PathTest> {
    builtIn + extra
  }

  // ----- every file of the tree, before any pattern is consulted -----

  function AllFiles(entries: seq<Entry>, dir: string, chain: seq<string>): seq<Located> {
    if entries == [] then []
    else FilesOf(entries[0], dir, chain) + AllFiles(entries[1..], dir, chain)
  }

  function FilesOf(e: Entry, dir: string, chain: seq<string>): seq<Located> {
    var rel := RelPath(dir, e.name);
    match e
    case File(_) => [Located(rel, chain + [rel])]
    case Dir(_, children) => AllFiles(children, rel, chain + [rel])
    case Other(_) => []
  }

  predicate Allowed(l: Located, matcher: PathTest, deny: seq<PathTest>) {
    matcher(l.path) && Open(l.chain, deny)
  }

  function Listing(ls: seq<Located>, matcher: PathTest, deny: seq<PathTest>): seq<string> {
    if ls == [] then []
    else if Allowed(ls[0], matcher, deny) then [ls[0].path] + Listing(ls[1..], matcher, deny)
    else Listing(ls[1..], matcher, deny)
  }

  lemma {:induction false} ListingConcat(a: seq<Located>, b: seq<Located>, matcher: PathTest, deny: seq<PathTest>)
    ensures Listing(a + b, matcher, deny) == Listing(a, matcher, deny) + Listing(b, matcher, deny)
  {
    if a == [] {
      assert a + b == b;
    } else {
      ListingConcat(a[1..], b, matcher, deny);
      assert (a + b)[1..] == a[1..] + b;
      FirstListed([a[0].path], Listing(a[1..], matcher, deny), Listing(b, matcher, deny));
    }
  }

  lemma FirstListed(first: seq<string>, p: seq<string>, q: seq<string>)
    ensures first + (p + q) == (first + p) + q
  {
  }

  predicate Open(chain: seq<string>, deny: seq<PathTest>) {
    forall i | 0 <= i < |chain| :: !Denied(deny, chain[i])
  }

  lemma {:induction false} ListingStep(entries: seq<Entry>, dir: string, chain: seq<string>, matcher: PathTest, deny: seq<PathTest>)
    requires entries != []
    ensures Listing(AllFiles(entries, dir, chain), matcher, deny)
            == Listing(FilesOf(entries[0], dir, chain), matcher, deny)
               + Listing(AllFiles(entries[1..], dir, chain), matcher, deny)
  {
    ListingConcat(FilesOf(entries[0], dir, chain), AllFiles(entries[1..], dir, chain), matcher, deny);
  }

  /** What is still to be listed from position `i` on. */
  ghost function Remaining(entries: seq<Entry>, i: nat, dir: string, chain: seq<string>, matcher: PathTest, deny: seq<PathTest>): seq<string>
    requires i <= |entries|
  {
    Listing(AllFiles(entries[i..], dir, chain), matcher, deny)
  }

  /** Below a denied directory nothing is listed. */
  lemma {:induction false} DeniedBelow(entries: seq<Entry>, dir: string, chain: seq<string>, matcher: PathTest, deny: seq<PathTest>)
    requires !Open(chain, deny)
    ensures Listing(AllFiles(entries, dir, chain), matcher, deny) == []
  {
    if entries != [] {
      var rel := RelPath(dir, entries[0].name);
      ListingStep(entries, dir, chain, matcher, deny);
      DeniedBelow(entries[1..], dir, chain, matcher, deny);
      StaysDenied(chain, rel, deny);
      match entries[0] {
        case Dir(_, children) => DeniedBelow(children, rel, chain + [rel], matcher, deny);
        case _ =>
      }
    }
  }

  lemma StaysDenied(chain: seq<string>, rel: string, deny: seq<PathTest>)
    ensures Open(chain + [rel], deny) <==> Open(chain, deny) && !Denied(deny, rel)
  {
    var longer := chain + [rel];
    assert longer[|chain|] == rel;
    assert forall i | 0 <= i < |chain| :: longer[i] == chain[i];
  }

  lemma Regroup(a: seq<string>, b: seq<string>, c: seq<string>)
    ensures (a + b) + c == a + (b + c)
  {
  }

  class Walker {
    var out: seq<string>

    constructor ()
      ensures out == []
    {
      out := [];
    }

    /** Walks one directory; `chain` only names the directories already entered. */
    method Visit(entries: seq<Entry>, dir: string, matcher: PathTest, deny: seq<PathTest>, ghost chain: seq<string>)
      requires Open(chain, deny)
      modifies this
      ensures out == old(out) + Listing(AllFiles(entries, dir, chain), matcher, deny)
      decreases entries
    {
      var i := 0;
      ghost var all := old(out) + Listing(AllFiles(entries, dir, chain), matcher, deny);
      assert entries[0..] == entries;
      while i < |entries|
        invariant 0 <= i <= |entries|
        invariant all == out + Remaining(entries, i, dir, chain, matcher, deny)
      {
        ListingStep(entries[i..], dir, chain, matcher, deny);
        assert entries[i..][1..] == entries[i + 1..];
        ghost var before, here := out, Listing(FilesOf(entries[i], dir, chain), matcher, deny);
        VisitEntry(entries[i], dir, matcher, deny, chain);
        i := i + 1;
        Regroup(before, here, Remaining(entries, i, dir, chain, matcher, deny));
      }
    }

    method VisitEntry(e: Entry, dir: string, matcher: PathTest, deny: seq<PathTest>, ghost chain: seq<string>)
      requires Open(chain, deny)
      modifies this
      ensures out == old(out) + Listing(FilesOf(e, dir, chain), matcher, deny)
      decreases e
    {
      var rel := RelPath(dir, e.name);
      StaysDenied(chain, rel, deny);
      if exists d | 0 <= d < |deny| :: deny[d](rel) {
        if e.Dir? { DeniedBelow(e.children, rel, chain + [rel], matcher, deny); }
      } else if e.Dir? {
        Visit(e.children, rel, matcher, deny, chain + [rel]);
      } else if e.File? && matcher(rel) {
        out := out + [rel];
      }
    }
  }

  /** The glob tool lists, in walk order, exactly the matching files of the tree none of whose
      ancestors, nor the file itself, is denied. */
  method WalkAndMatch(entries: seq<Entry>, matcher: PathTest, deny: seq<PathTest>) returns (out: seq<string>)
    ensures out == Listing(AllFiles(entries, "", []), matcher, deny)
    ensures (forall e | e in entries :: e.name != "") ==>
      forall p :: p in out <==> exists names :: Shows(entries, names, p, matcher, deny)
  {
    if forall e | e in entries :: e.name != "" {
      forall p ensures p in Listing(AllFiles(entries, "", []), matcher, deny)
                       <==> exists names :: Shows(entries, names, p, matcher, deny) {
        ListedExactly(entries, matcher, deny, p);
      }
    }
    var w := new Walker();
    w.Visit(entries, "", matcher, deny, []);
    out := w.out;
  }

  lemma {:induction false} ListingMembers(ls: seq<Located>, matcher: PathTest, deny: seq<PathTest>, p: string)
    ensures p in Listing(ls, matcher, deny) <==> exists l :: l in ls && l.path == p && Allowed(l, matcher, deny)
  {
    if ls != [] {
      ListingMembers(ls[1..], matcher, deny, p);
      assert forall l :: l in ls <==> l == ls[0] || l in ls[1..];
    }
  }

  // ----- which paths are listed, told by names -----

  /** Following `names` down from `entries`, through a directory for each but the last, ends at a file. */
  predicate FileUnder(entries: seq<Entry>, names: seq<string>)
    decreases |names|, 1
  {
    exists k | 0 <= k < |entries| :: FileAt(entries[k], names)
  }

  predicate FileAt(e: Entry, names: seq<string>)
    decreases |names|, 0
  {
    names != [] && e.name == names[0] &&
    if |names| == 1 then e.File? else e.Dir? && FileUnder(e.children, names[1..])
  }

  function PathOf(names: seq<string>): string {
    Strings.Join(names, "/")
  }

  function ChainOf(names: seq<string>): (chain: seq<string>)
    ensures |chain| == |names|
  {
    if names == [] then [] else ChainOf(names[..|names| - 1]) + [PathOf(names)]
  }

  lemma {:induction false} ChainAt(names: seq<string>, k: nat)
    requires k < |names|
    ensures ChainOf(names)[k] == PathOf(names[..k + 1])
  {
    if k == |names| - 1 {
      assert names[..k + 1] == names;
    } else {
      var front := names[..|names| - 1];
      ChainAt(front, k);
      assert front[..k + 1] == names[..k + 1];
    }
  }

  /** `l` is the file that `names` lead to from the directory reached by `top`. */
  predicate Below(entries: seq<Entry>, top: seq<string>, l: Located, names: seq<string>) {
    FileUnder(entries, names) && l == Located(PathOf(top + names), ChainOf(top + names))
  }

  predicate BelowEntry(e: Entry, top: seq<string>, l: Located, names: seq<string>) {
    FileAt(e, names) && l == Located(PathOf(top + names), ChainOf(top + names))
  }

  /** The path of a directory is not empty, and what stands directly below the root has a name. */
  predicate Named(entries: seq<Entry>, top: seq<string>) {
    if top == [] then forall e | e in entries :: e.name != "" else PathOf(top) != ""
  }

  lemma NextName(top: seq<string>, name: string)
    requires if top == [] then name != "" else PathOf(top) != ""
    ensures PathOf(top + [name]) == RelPath(PathOf(top), name) != ""
    ensures ChainOf(top + [name]) == ChainOf(top) + [PathOf(top + [name])]
  {
    if top == [] {
      assert top + [name] == [name];
    } else {
      Strings.JoinAppend(top, [name], "/");
    }
    assert (top + [name])[..|top|] == top;
  }

  lemma {:induction false} FilesBelow(entries: seq<Entry>, top: seq<string>, l: Located)
    requires Named(entries, top)
    ensures l in AllFiles(entries, PathOf(top), ChainOf(top)) <==> exists names :: Below(entries, top, l, names)
    decreases entries
  {
    if entries != [] {
      EntryFiles(entries[0], top, l);
      FilesBelow(entries[1..], top, l);
      forall names ensures Below(entries, top, l, names) <==>
          BelowEntry(entries[0], top, l, names) || Below(entries[1..], top, l, names) {
        FirstOrLater(entries, names);
      }
    }
  }

  lemma FirstOrLater(entries: seq<Entry>, names: seq<string>)
    requires entries != []
    ensures FileUnder(entries, names) <==> FileAt(entries[0], names) || FileUnder(entries[1..], names)
  {
    if FileUnder(entries, names) {
      var k :| 0 <= k < |entries| && FileAt(entries[k], names);
      if k > 0 { assert entries[1..][k - 1] == entries[k]; }
    }
    if FileUnder(entries[1..], names) {
      var k :| 0 <= k < |entries[1..]| && FileAt(entries[1..][k], names);
      assert entries[k + 1] == entries[1..][k];
    }
  }

  lemma {:induction false} EntryFiles(e: Entry, top: seq<string>, l: Located)
    requires if top == [] then e.name != "" else PathOf(top) != ""
    ensures l in FilesOf(e, PathOf(top), ChainOf(top)) <==> exists names :: BelowEntry(e, top, l, names)
    decreases e
  {
    var here := top + [e.name];
    NextName(top, e.name);
    match e {
      case File(_) =>
        forall names | FileAt(e, names) ensures names == [e.name] { assert names == [names[0]]; }
        assert FileAt(e, [e.name]);
        assert BelowEntry(e, top, l, [e.name]) <==> l in FilesOf(e, PathOf(top), ChainOf(top));
      case Dir(_, children) =>
        FilesBelow(children, here, l);
        forall names | FileAt(e, names) ensures BelowEntry(e, top, l, names) <==> Below(children, here, l, names[1..]) {
          assert here + names[1..] == top + names;
        }
        forall rest | Below(children, here, l, rest) ensures BelowEntry(e, top, l, [e.name] + rest) {
          assert ([e.name] + rest)[1..] == rest && here + rest == top + ([e.name] + rest);
          var k :| 0 <= k < |children| && FileAt(children[k], rest);
        }
      case Other(_) =>
    }
  }

  /** The names lead to a file whose path is `p`, the names joined by slashes; it matches, and no deny pattern
      takes the path of one of the first names. */
  predicate Shows(entries: seq<Entry>, names: seq<string>, p: string, matcher: PathTest, deny: seq<PathTest>) {
    FileUnder(entries, names) && p == Strings.Join(names, "/") && matcher(p) &&
    forall k, d | 0 < k <= |names| && 0 <= d < |deny| :: !deny[d](Strings.Join(names[..k], "/"))
  }

  lemma ShownIsAllowed(names: seq<string>, matcher: PathTest, deny: seq<PathTest>)
    ensures Allowed(Located(PathOf(names), ChainOf(names)), matcher, deny)
      <==> (matcher(PathOf(names)) &&
            forall k, d | 0 < k <= |names| && 0 <= d < |deny| :: !deny[d](Strings.Join(names[..k], "/")))
  {
    forall k | 0 <= k < |names| ensures ChainOf(names)[k] == PathOf(names[..k + 1]) { ChainAt(names, k); }
    if Open(ChainOf(names), deny) {
      forall k, d | 0 < k <= |names| && 0 <= d < |deny| ensures !deny[d](Strings.Join(names[..k], "/")) {
        assert !Denied(deny, ChainOf(names)[k - 1]);
      }
    }
  }

  /** A path is listed exactly when names lead to it that show it. */
  lemma ListedExactly(entries: seq<Entry>, matcher: PathTest, deny: seq<PathTest>, p: string)
    requires forall e | e in entries :: e.name != ""
    ensures p in Listing(AllFiles(entries, "", []), matcher, deny)
      <==> (exists names :: Shows(entries, names, p, matcher, deny))
  {
    var ls := AllFiles(entries, PathOf([]), ChainOf([]));
    ListingMembers(ls, matcher, deny, p);
    if l :| l in ls && l.path == p && Allowed(l, matcher, deny) {
      FilesBelow(entries, [], l);
      var names :| Below(entries, [], l, names);
      assert [] + names == names;
      ShownIsAllowed(names, matcher, deny);
      assert Shows(entries, names, p, matcher, deny);
    }
    if names :| Shows(entries, names, p, matcher, deny) {
      var l := Located(PathOf(names), ChainOf(names));
      assert [] + names == names;
      FilesBelow(entries, [], l);
      assert Below(entries, [], l, names);
      ShownIsAllowed(names, matcher, deny);
    }
  }

  /** Operator patterns extend the deny list and never relax it: what is still listed under the
      union is what was listed under the built-in patterns and is untouched by the operator's. */
  lemma {:induction false} DenyOnlyShrinks(ls: seq<Located>, matcher: PathTest, builtIn: seq<PathTest>, extra: seq<PathTest>, p: string)
    ensures p in Listing(ls, matcher, EffectiveDeny(builtIn, extra)) ==>
              p in Listing(ls, matcher, builtIn) && p in Listing(ls, matcher, extra)
    ensures |Listing(ls, matcher, EffectiveDeny(builtIn, extra))| <= |Listing(ls, matcher, builtIn)|
  {
    if ls != [] {
      DenyOnlyShrinks(ls[1..], matcher, builtIn, extra, p);
      forall rel: string ensures Denied(EffectiveDeny(builtIn, extra), rel) <==> Denied(builtIn, rel) || Denied(extra, rel) {
        DeniedUnion(builtIn, extra, rel);
      }
    }
  }

  lemma DeniedUnion(a: seq<PathTest>, b: seq<PathTest>, rel: string)
    ensures Denied(EffectiveDeny(a, b), rel) <==> Denied(a, rel) || Denied(b, rel)
  {
    var ab := EffectiveDeny(a, b);
    if i :| 0 <= i < |a| && a[i](rel) { assert ab[i](rel); }
    if i :| 0 <= i < |b| && b[i](rel) { assert ab[|a| + i](rel); }
    if i :| 0 <= i < |ab| && ab[i](rel) {
      if i < |a| { assert a[i](rel); } else { assert b[i - |a|](rel); }
    }
  }
}
