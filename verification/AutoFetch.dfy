/** Fetching companion files for the changed files of a review, under three caps. */
module AutoFetch {
  import opened Optional

  datatype Kind = Test | TypeDecl | Sibling
  datatype Candidate = Candidate(path: string, kind: Kind)
  datatype Options = Options(tests: bool, types: bool, siblings: bool)

  /** One path instruction with auto-fetch switched on, its pattern compiled. */
  datatype Instruction = Instruction(matches: string -> bool, options: Options)

  /** A changed path taken apart by the path library and the three name tests. */
  datatype PathParts = PathParts(dir: string, base: string, ext: string, isTest: bool, isTypeDecl: bool, isScript: bool)

  /** The workspace as the tools see it; `read` is none for a refused or missing file. */
  datatype Workspace = Workspace(parts: string -> PathParts, join: seq<string> -> string, read: string -> Option<string>)

  datatype Budget = Budget(maxFiles: int, maxBytesPerFile: nat, maxTotalBytes: int)

  datatype Fetched = Fetched(path: string, content: string, kind: Kind, origin: string)
  datatype Outcome = Outcome(files: seq<Fetched>, totalBytes: nat, hitBudgetLimit: bool)

  // ----- candidates -----

  function Candidates(ws: Workspace, changed: string, o: Options): seq<Candidate> {
    var p := ws.parts(changed);
    (if o.tests && !p.isTest then
       [Candidate(ws.join([p.dir, p.base + ".test" + p.ext]), Test),
        Candidate(ws.join([p.dir, p.base + ".spec" + p.ext]), Test),
        Candidate(ws.join([p.dir, "__tests__", p.base + ".test" + p.ext]), Test)]
     else [])
    + (if o.types && !p.isTypeDecl && p.isScript then [Candidate(ws.join([p.dir, p.base + ".d.ts"]), TypeDecl)] else [])
    + (if o.siblings then [Candidate(ws.join([p.dir, "index" + p.ext]), Sibling)] else [])
  }

  /** Which companions of a changed file are wanted, kind by kind. */
  predicate Wanted(ws: Workspace, changed: string, o: Options, c: Candidate) {
    var p := ws.parts(changed);
    match c.kind
    case Test =>
      o.tests && !p.isTest &&
      (c.path == ws.join([p.dir, p.base + ".test" + p.ext]) || c.path == ws.join([p.dir, p.base + ".spec" + p.ext]) ||
       c.path == ws.join([p.dir, "__tests__", p.base + ".test" + p.ext]))
    case TypeDecl => o.types && !p.isTypeDecl && p.isScript && c.path == ws.join([p.dir, p.base + ".d.ts"])
    case Sibling => o.siblings && c.path == ws.join([p.dir, "index" + p.ext])
  }

  /** Exactly the wanted companions, in the order of their kinds, no kind more often than it has forms. */
  method CandidatesFor(ws: Workspace, changed: string, o: Options) returns (out: seq<Candidate>)
    ensures forall c :: c in out <==> Wanted(ws, changed, o, c)
    ensures forall i, j :: 0 <= i < j < |out| ==> Rank(out[i].kind) <= Rank(out[j].kind)
    ensures |out| <= 5
    ensures out == Candidates(ws, changed, o)
  {
    out := [];
    var p := ws.parts(changed);
    if o.tests && !p.isTest {
      out := out + [Candidate(ws.join([p.dir, p.base + ".test" + p.ext]), Test)];
      out := out + [Candidate(ws.join([p.dir, p.base + ".spec" + p.ext]), Test)];
      out := out + [Candidate(ws.join([p.dir, "__tests__", p.base + ".test" + p.ext]), Test)];
    }
    if o.types && !p.isTypeDecl && p.isScript {
      out := out + [Candidate(ws.join([p.dir, p.base + ".d.ts"]), TypeDecl)];
    }
    if o.siblings {
      out := out + [Candidate(ws.join([p.dir, "index" + p.ext]), Sibling)];
    }
  }

  function Rank(k: Kind): nat {
    match k case Test => 0 case TypeDecl => 1 case Sibling => 2
  }

  /** Tests come before type declarations and those before siblings, so a cut list loses the weakest first. */
  lemma SignalFirst(ws: Workspace, changed: string, o: Options)
    ensures var cs := Candidates(ws, changed, o);
      |cs| <= 5 && (forall i, j :: 0 <= i < j < |cs| ==> Rank(cs[i].kind) <= Rank(cs[j].kind)) &&
      (forall i, j :: 0 <= i < j < |cs| && cs[j].kind.Test? ==> cs[i].kind.Test?) &&
      (forall i, j :: 0 <= i < j < |cs| && cs[i].kind.Sibling? ==> cs[j].kind.Sibling?)
    ensures ws.parts(changed).isTest ==> forall c :: c in Candidates(ws, changed, o) ==> c.kind != Test
    ensures ws.parts(changed).isTypeDecl ==> forall c :: c in Candidates(ws, changed, o) ==> c.kind != TypeDecl
  {
  }

  /** The siblings are announced without the changed file itself; an index file is offered to itself all the same. */
  lemma OwnSiblingExactly(ws: Workspace, changed: string, o: Options)
    requires var p := ws.parts(changed); ws.join([p.dir, p.base + p.ext]) == changed
    requires var p := ws.parts(changed); ws.join([p.dir, "index" + p.ext]) == changed ==> p.base + p.ext == "index" + p.ext
    ensures Candidate(changed, Sibling) in Candidates(ws, changed, o) <==> o.siblings && ws.parts(changed).base == "index"
  {
    var p := ws.parts(changed);
    if p.base + p.ext == "index" + p.ext {
      assert p.base == (p.base + p.ext)[..|p.base|] && |p.base| == |"index"|;
      assert "index" == ("index" + p.ext)[..|"index"|];
    }
    var sibling := Candidate(ws.join([p.dir, "index" + p.ext]), Sibling);
    if o.siblings {
      assert Candidates(ws, changed, o)[|Candidates(ws, changed, o)| - 1] == sibling;
    }
  }

  // ----- reading -----

  function Decimal(n: nat): string {
    if n < 10 then ['0' + n as char] else Decimal(n / 10) + ['0' + (n % 10) as char]
  }

  /** The number that a run of digits stands for. */
  function NumberOf(digits: string): int {
    if digits == "" then 0
    else 10 * NumberOf(digits[..|digits| - 1]) + (digits[|digits| - 1] as int - '0' as int)
  }

  predicate IsNumeral(digits: string, n: nat) {
    digits != "" && (forall c <- digits :: '0' <= c <= '9') && NumberOf(digits) == n && (digits[0] == '0' ==> n == 0)
  }

  lemma {:induction false} DecimalReads(n: nat)
    ensures IsNumeral(Decimal(n), n)
  {
    if n >= 10 {
      DecimalReads(n / 10);
      var front := Decimal(n / 10);
      assert Decimal(n)[..|front|] == front;
    } else {
      assert Decimal(n)[..0] == "";
    }
  }

  /** On a line of its own, in brackets, that the text was cut and at how many characters. */
  ghost predicate NoteOf(note: string, maxBytes: nat) {
    exists digits :: IsNumeral(digits, maxBytes) && note == "\n[...truncated at " + digits + " chars]"
  }

  function TruncationNote(maxBytes: nat): string {
    "\n[...truncated at " + Decimal(maxBytes) + " chars]"
  }

  function TryReadFile(ws: Workspace, path: string, maxBytes: nat): Option<string> {
    match ws.read(path)
    case None => None
    case Some(content) =>
      if |content| > maxBytes then Some(content[..maxBytes] + TruncationNote(maxBytes)) else Some(content)
  }

  // ----- the loop, on the flat list of candidates -----

  datatype Item = Item(candidate: Candidate, origin: string)

  /** The candidates from position `k` on, followed by `later`. */
  function Tagged(cs: seq<Candidate>, k: nat, origin: string, later: seq<Item>): seq<Item>
    requires k <= |cs|
    decreases |cs| - k
  {
    if k == |cs| then later else [Item(cs[k], origin)] + Tagged(cs, k + 1, origin, later)
  }

  /** The candidates of the first instruction that matches, followed by `later`. */
  function FirstMatch(ws: Workspace, compiled: seq<Instruction>, j: nat, changed: string, later: seq<Item>): seq<Item>
    requires j <= |compiled|
    decreases |compiled| - j
  {
    if j == |compiled| then later
    else if compiled[j].matches(changed) then Tagged(Candidates(ws, changed, compiled[j].options), 0, changed, later)
    else FirstMatch(ws, compiled, j + 1, changed, later)
  }

  function AllItems(ws: Workspace, compiled: seq<Instruction>, changedPaths: seq<string>, i: nat): seq<Item>
    requires i <= |changedPaths|
    decreases |changedPaths| - i
  {
    if i == |changedPaths| then []
    else FirstMatch(ws, compiled, 0, changedPaths[i], AllItems(ws, compiled, changedPaths, i + 1))
  }

  /** The files still fetched from `items`, after `count` files and `total` bytes. */
  function Fetch(ws: Workspace, items: seq<Item>, seen: set<string>, count: nat, total: nat, b: Budget): Outcome {
    if items == [] then Outcome([], total, false)
    else
      var c, rest := items[0].candidate, items[1..];
      if c.path in seen then Fetch(ws, rest, seen, count, total, b)
      else if count >= b.maxFiles || total >= b.maxTotalBytes then Outcome([], total, true)
      else
        match TryReadFile(ws, c.path, b.maxBytesPerFile)
        case None => Fetch(ws, rest, seen + {c.path}, count, total, b)
        case Some(content) =>
          var trimmed := content[..Min(|content|, b.maxTotalBytes - total)];
          var file := Fetched(c.path, trimmed, c.kind, items[0].origin);
          if |trimmed| < |content| then Outcome([file], total + |trimmed|, true)
          else
            var more := Fetch(ws, rest, seen + {c.path}, count + 1, total + |trimmed|, b);
            Outcome([file] + more.files, more.totalBytes, more.hitBudgetLimit)
  }

  /** The same run, carrying the files fetched so far. */
  function FetchOnto(ws: Workspace, items: seq<Item>, seen: set<string>, files: seq<Fetched>, total: nat, b: Budget): Outcome {
    if items == [] then Outcome(files, total, false)
    else
      var c, rest := items[0].candidate, items[1..];
      if c.path in seen then FetchOnto(ws, rest, seen, files, total, b)
      else if |files| >= b.maxFiles || total >= b.maxTotalBytes then Outcome(files, total, true)
      else
        match TryReadFile(ws, c.path, b.maxBytesPerFile)
        case None => FetchOnto(ws, rest, seen + {c.path}, files, total, b)
        case Some(content) =>
          var trimmed := content[..Min(|content|, b.maxTotalBytes - total)];
          var files' := files + [Fetched(c.path, trimmed, c.kind, items[0].origin)];
          if |trimmed| < |content| then Outcome(files', total + |trimmed|, true)
          else FetchOnto(ws, rest, seen + {c.path}, files', total + |trimmed|, b)
  }

  lemma {:induction false} FetchOntoAppends(ws: Workspace, items: seq<Item>, seen: set<string>, files: seq<Fetched>, total: nat, b: Budget)
    ensures var o := Fetch(ws, items, seen, |files|, total, b);
            FetchOnto(ws, items, seen, files, total, b) == o.(files := files + o.files)
    decreases |items|
  {
    if items == [] {
      assert files + [] == files;
    } else {
      var c, rest := items[0].candidate, items[1..];
      if c.path in seen {
        FetchOntoAppends(ws, rest, seen, files, total, b);
      } else if |files| >= b.maxFiles || total >= b.maxTotalBytes {
        assert files + [] == files;
      } else {
        match TryReadFile(ws, c.path, b.maxBytesPerFile) {
          case None => FetchOntoAppends(ws, rest, seen + {c.path}, files, total, b);
          case Some(content) =>
            var file := Fetched(c.path, content[..Min(|content|, b.maxTotalBytes - total)], c.kind, items[0].origin);
            var more := Fetch(ws, rest, seen + {c.path}, |files| + 1, total + |file.content|, b);
            FetchOntoAppends(ws, rest, seen + {c.path}, files + [file], total + |file.content|, b);
            assert files + ([file] + more.files) == (files + [file]) + more.files;
        }
      }
    }
  }

  // ----- what a collection promises, without the flat list -----

  /** The instruction that decides for a changed file: the first that matches it. */
  predicate Decides(compiled: seq<Instruction>, k: nat, changed: string) {
    k < |compiled| && compiled[k].matches(changed) && forall m | 0 <= m < k :: !compiled[m].matches(changed)
  }

  /** A companion wanted for a changed file by the instruction that decides for it. */
  predicate WantedFor(ws: Workspace, compiled: seq<Instruction>, c: Candidate, changed: string) {
    exists k | 0 <= k < |compiled| :: Decides(compiled, k, changed) && Wanted(ws, changed, compiled[k].options, c)
  }

  /** What reading a path gives: the whole file, or as much as the cap allows and a note. */
  predicate Reading(ws: Workspace, path: string, maxBytes: nat, content: string) {
    ws.read(path).Some? &&
    var file := ws.read(path).value;
    if |file| <= maxBytes then content == file
    else |content| > maxBytes && content[..maxBytes] == file[..maxBytes] && content[maxBytes..] == TruncationNote(maxBytes)
  }

  /** Every file is a wanted companion of a changed file and holds what reading it gives, the last one possibly cut. */
  ghost predicate Sound(ws: Workspace, changedPaths: seq<string>, compiled: seq<Instruction>, b: Budget, files: seq<Fetched>, hitBudget: bool) {
    forall j | 0 <= j < |files| :: SoundAt(ws, changedPaths, compiled, b, files, hitBudget, j)
  }

  ghost predicate SoundAt(ws: Workspace, changedPaths: seq<string>, compiled: seq<Instruction>, b: Budget, files: seq<Fetched>,
      hitBudget: bool, j: nat)
    requires j < |files|
  {
    var f := files[j];
    && f.origin in changedPaths
    && WantedFor(ws, compiled, Candidate(f.path, f.kind), f.origin)
    && exists content :: Reading(ws, f.path, b.maxBytesPerFile, content) && f.content <= content &&
         (j < |files| - 1 || !hitBudget ==> f.content == content)
  }

  /** When no cap was hit, every wanted companion that can be read is there. */
  ghost predicate Complete(ws: Workspace, changedPaths: seq<string>, compiled: seq<Instruction>, files: seq<Fetched>) {
    forall i | 0 <= i < |changedPaths| :: AllThere(ws, compiled, changedPaths[i], files)
  }

  ghost predicate AllThere(ws: Workspace, compiled: seq<Instruction>, changed: string, files: seq<Fetched>) {
    forall c | WantedFor(ws, compiled, c, changed) && ws.read(c.path).Some? :: c.path in PathsOf(files)
  }

  /** The files follow the changed paths in their order, and for one of them the kinds in theirs. */
  predicate Follows(changedPaths: seq<string>, files: seq<Fetched>, at: seq<nat>) {
    && |at| == |files|
    && (forall j | 0 <= j < |files| :: at[j] < |changedPaths| && files[j].origin == changedPaths[at[j]])
    && forall i, j | 0 <= i < j < |files| :: at[i] < at[j] || (at[i] == at[j] && Rank(files[i].kind) <= Rank(files[j].kind))
  }

  /** The same for the flat list of candidates. */
  predicate ItemsFollow(changedPaths: seq<string>, items: seq<Item>, at: seq<nat>) {
    && |at| == |items|
    && (forall j | 0 <= j < |items| :: at[j] < |changedPaths| && items[j].origin == changedPaths[at[j]])
    && forall i, j | 0 <= i < j < |items| ::
         at[i] < at[j] || (at[i] == at[j] && Rank(items[i].candidate.kind) <= Rank(items[j].candidate.kind))
  }

  /** The candidates of one changed file as items. */
  function Own(cs: seq<Candidate>, origin: string): (items: seq<Item>)
    ensures |items| == |cs| && forall j | 0 <= j < |cs| :: items[j] == Item(cs[j], origin)
  {
    seq(|cs|, j requires 0 <= j < |cs| => Item(cs[j], origin))
  }

  lemma {:induction false} TaggedIsOwn(cs: seq<Candidate>, k: nat, origin: string, later: seq<Item>)
    requires k <= |cs|
    ensures Tagged(cs, k, origin, later) == Own(cs, origin)[k..] + later
    decreases |cs| - k
  {
    if k < |cs| {
      TaggedIsOwn(cs, k + 1, origin, later);
      assert Own(cs, origin)[k..] == [Item(cs[k], origin)] + Own(cs, origin)[k + 1..];
    }
  }

  /** The number of the deciding instruction, or that of all when none matches. */
  function Deciding(compiled: seq<Instruction>, j: nat, changed: string): (k: nat)
    requires j <= |compiled| && forall m | 0 <= m < j :: !compiled[m].matches(changed)
    ensures k <= |compiled| && (k < |compiled| ==> Decides(compiled, k, changed))
    ensures k == |compiled| ==> forall m | 0 <= m < |compiled| :: !compiled[m].matches(changed)
    decreases |compiled| - j
  {
    if j == |compiled| || compiled[j].matches(changed) then j else Deciding(compiled, j + 1, changed)
  }

  lemma {:induction false} FirstMatchIs(ws: Workspace, compiled: seq<Instruction>, j: nat, changed: string, later: seq<Item>)
    requires j <= |compiled| && forall m | 0 <= m < j :: !compiled[m].matches(changed)
    ensures var k := Deciding(compiled, j, changed);
      FirstMatch(ws, compiled, j, changed, later) ==
      if k == |compiled| then later else Tagged(Candidates(ws, changed, compiled[k].options), 0, changed, later)
    decreases |compiled| - j
  {
    if j < |compiled| && !compiled[j].matches(changed) { FirstMatchIs(ws, compiled, j + 1, changed, later); }
  }

  /** The items of one changed file: its wanted companions, in the order of their kinds. */
  predicate FileItems(ws: Workspace, compiled: seq<Instruction>, changed: string, own: seq<Item>) {
    && (forall j | 0 <= j < |own| :: own[j].origin == changed && WantedFor(ws, compiled, own[j].candidate, changed))
    && forall i, j | 0 <= i < j < |own| :: Rank(own[i].candidate.kind) <= Rank(own[j].candidate.kind)
  }

  /** Every wanted companion of a changed file is among the items. */
  ghost predicate ItemsHave(ws: Workspace, compiled: seq<Instruction>, changed: string, items: seq<Item>) {
    forall c | WantedFor(ws, compiled, c, changed) :: Has(items, c)
  }

  predicate Has(items: seq<Item>, c: Candidate) {
    exists j | 0 <= j < |items| :: items[j].candidate == c
  }

  lemma OwnItems(ws: Workspace, compiled: seq<Instruction>, k: nat, changed: string, cs: seq<Candidate>)
    requires Decides(compiled, k, changed) && cs == Candidates(ws, changed, compiled[k].options)
    ensures FileItems(ws, compiled, changed, Own(cs, changed)) && ItemsHave(ws, compiled, changed, Own(cs, changed))
  {
    var own := Own(cs, changed);
    CandidatesWanted(ws, changed, compiled[k].options);
    SignalFirst(ws, changed, compiled[k].options);
    forall j | 0 <= j < |own| ensures WantedFor(ws, compiled, own[j].candidate, changed) {
      assert cs[j] in cs;
    }
    forall c | WantedFor(ws, compiled, c, changed) ensures Has(own, c) {
      OneDecides(ws, compiled, k, c, changed);
      var j :| 0 <= j < |cs| && cs[j] == c;
      assert own[j].candidate == c;
    }
  }

  /** The candidates of one changed file in front of the later ones. */
  lemma OneFile(ws: Workspace, compiled: seq<Instruction>, changed: string, later: seq<Item>) returns (own: seq<Item>)
    ensures FirstMatch(ws, compiled, 0, changed, later) == own + later
    ensures FileItems(ws, compiled, changed, own) && ItemsHave(ws, compiled, changed, own)
  {
    var k := Deciding(compiled, 0, changed);
    FirstMatchIs(ws, compiled, 0, changed, later);
    if k == |compiled| {
      own := [];
      assert own + later == later;
    } else {
      var cs := Candidates(ws, changed, compiled[k].options);
      own := Own(cs, changed);
      TaggedIsOwn(cs, 0, changed, later);
      assert own[0..] == own;
      OwnItems(ws, compiled, k, changed, cs);
    }
  }

  lemma OneDecides(ws: Workspace, compiled: seq<Instruction>, k: nat, c: Candidate, changed: string)
    requires Decides(compiled, k, changed) && WantedFor(ws, compiled, c, changed)
    ensures Wanted(ws, changed, compiled[k].options, c)
  {
    var m :| 0 <= m < |compiled| && Decides(compiled, m, changed) && Wanted(ws, changed, compiled[m].options, c);
    assert m == k;
  }

  lemma CandidatesWanted(ws: Workspace, changed: string, o: Options)
    ensures forall c :: c in Candidates(ws, changed, o) <==> Wanted(ws, changed, o, c)
  {
  }

  predicate ItemsWanted(ws: Workspace, compiled: seq<Instruction>, items: seq<Item>) {
    forall j | 0 <= j < |items| :: WantedFor(ws, compiled, items[j].candidate, items[j].origin)
  }

  /** `at` tells for each item which changed file it is for, none of them before file `i`. */
  predicate Places(changedPaths: seq<string>, i: nat, items: seq<Item>, at: seq<nat>) {
    ItemsFollow(changedPaths, items, at) && forall a <- at :: i <= a
  }

  lemma FollowJoin(ws: Workspace, compiled: seq<Instruction>, changedPaths: seq<string>, i: nat, own: seq<Item>, later: seq<Item>, rest: seq<nat>)
    requires i < |changedPaths| && FileItems(ws, compiled, changedPaths[i], own)
    requires Places(changedPaths, i + 1, later, rest)
    ensures Places(changedPaths, i, own + later, seq(|own|, _ => i) + rest)
  {
    var items, at := own + later, seq(|own|, _ => i) + rest;
    forall p, q | 0 <= p < q < |items|
      ensures at[p] < at[q] || (at[p] == at[q] && Rank(items[p].candidate.kind) <= Rank(items[q].candidate.kind))
    {
      if p < |own| <= q { assert rest[q - |own|] in rest; }
    }
  }

  lemma HaveMore(ws: Workspace, compiled: seq<Instruction>, changed: string, a: seq<Item>, b: seq<Item>)
    requires ItemsHave(ws, compiled, changed, a) || ItemsHave(ws, compiled, changed, b)
    ensures ItemsHave(ws, compiled, changed, a + b)
  {
    forall c | WantedFor(ws, compiled, c, changed) ensures Has(a + b, c) {
      if ItemsHave(ws, compiled, changed, a) {
        var j :| 0 <= j < |a| && a[j].candidate == c;
        assert (a + b)[j].candidate == c;
      } else {
        var j :| 0 <= j < |b| && b[j].candidate == c;
        assert (a + b)[|a| + j].candidate == c;
      }
    }
  }

  ghost predicate ItemsHaveFrom(ws: Workspace, compiled: seq<Instruction>, changedPaths: seq<string>, i: nat, items: seq<Item>) {
    forall m | i <= m < |changedPaths| :: ItemsHave(ws, compiled, changedPaths[m], items)
  }

  /** The flat list: wanted companions only, in order, and all of them. */
  lemma {:induction false} ItemsExactly(ws: Workspace, compiled: seq<Instruction>, changedPaths: seq<string>, i: nat) returns (at: seq<nat>)
    requires i <= |changedPaths|
    ensures Places(changedPaths, i, AllItems(ws, compiled, changedPaths, i), at)
    ensures ItemsWanted(ws, compiled, AllItems(ws, compiled, changedPaths, i))
    ensures ItemsHaveFrom(ws, compiled, changedPaths, i, AllItems(ws, compiled, changedPaths, i))
    decreases |changedPaths| - i
  {
    if i == |changedPaths| {
      at := [];
    } else {
      var later := AllItems(ws, compiled, changedPaths, i + 1);
      var rest := ItemsExactly(ws, compiled, changedPaths, i + 1);
      var own := OneFile(ws, compiled, changedPaths[i], later);
      FollowJoin(ws, compiled, changedPaths, i, own, later, rest);
      at := seq(|own|, _ => i) + rest;
      WantedJoin(ws, compiled, changedPaths[i], own, later);
      AllHave(ws, compiled, changedPaths, i, own, later);
    }
  }

  lemma WantedJoin(ws: Workspace, compiled: seq<Instruction>, changed: string, own: seq<Item>, later: seq<Item>)
    requires FileItems(ws, compiled, changed, own) && ItemsWanted(ws, compiled, later)
    ensures ItemsWanted(ws, compiled, own + later)
  {
  }

  lemma AllHave(ws: Workspace, compiled: seq<Instruction>, changedPaths: seq<string>, i: nat, own: seq<Item>, later: seq<Item>)
    requires i < |changedPaths| && ItemsHave(ws, compiled, changedPaths[i], own)
    requires ItemsHaveFrom(ws, compiled, changedPaths, i + 1, later)
    ensures ItemsHaveFrom(ws, compiled, changedPaths, i, own + later)
  {
    forall m | i <= m < |changedPaths| ensures ItemsHave(ws, compiled, changedPaths[m], own + later) {
      HaveMore(ws, compiled, changedPaths[m], own, later);
    }
  }

  /** Where the fetched files stand in the list: in its order, each holding what was read. */
  predicate FromItems(ws: Workspace, items: seq<Item>, b: Budget, files: seq<Fetched>, hitBudget: bool, ks: seq<nat>) {
    && |ks| == |files|
    && (forall i, j | 0 <= i < j < |ks| :: ks[i] < ks[j])
    && forall j | 0 <= j < |ks| :: ks[j] < |items| && FromItem(ws, items[ks[j]], b, files[j], j < |files| - 1 || !hitBudget)
  }

  predicate FromItem(ws: Workspace, item: Item, b: Budget, f: Fetched, whole: bool) {
    && f.path == item.candidate.path && f.kind == item.candidate.kind && f.origin == item.origin
    && ws.read(f.path).Some?
    && var content := TryReadFile(ws, f.path, b.maxBytesPerFile).value;
       f.content <= content && (whole ==> f.content == content)
  }

  lemma SkipItem(ws: Workspace, items: seq<Item>, b: Budget, files: seq<Fetched>, hitBudget: bool, ms: seq<nat>)
    requires items != [] && FromItems(ws, items[1..], b, files, hitBudget, ms)
    ensures FromItems(ws, items, b, files, hitBudget, OneFurther(ms))
  {
  }

  lemma TakeItem(ws: Workspace, items: seq<Item>, b: Budget, f: Fetched, files: seq<Fetched>, hitBudget: bool, ms: seq<nat>)
    requires items != [] && FromItem(ws, items[0], b, f, true) && FromItems(ws, items[1..], b, files, hitBudget, ms)
    ensures FromItems(ws, items, b, [f] + files, hitBudget, [0] + OneFurther(ms))
  {
    var all, ks := [f] + files, [0] + OneFurther(ms);
    forall j | 0 <= j < |ks|
      ensures ks[j] < |items| && FromItem(ws, items[ks[j]], b, all[j], j < |all| - 1 || !hitBudget)
    {
      if j > 0 { assert ks[j] == ms[j - 1] + 1 && items[ks[j]] == items[1..][ms[j - 1]] && all[j] == files[j - 1]; }
    }
  }

  lemma {:induction false} FetchedFrom(ws: Workspace, items: seq<Item>, seen: set<string>, count: nat, total: nat, b: Budget) returns (ks: seq<nat>)
    ensures var o := Fetch(ws, items, seen, count, total, b); FromItems(ws, items, b, o.files, o.hitBudgetLimit, ks)
    decreases |items|
  {
    ks := [];
    if items != [] {
      var c, rest := items[0].candidate, items[1..];
      if c.path in seen {
        var o := Fetch(ws, rest, seen, count, total, b);
        var ms := FetchedFrom(ws, rest, seen, count, total, b);
        SkipItem(ws, items, b, o.files, o.hitBudgetLimit, ms);
        ks := OneFurther(ms);
      } else if !(count >= b.maxFiles || total >= b.maxTotalBytes) {
        match TryReadFile(ws, c.path, b.maxBytesPerFile) {
          case None =>
            var o := Fetch(ws, rest, seen + {c.path}, count, total, b);
            var ms := FetchedFrom(ws, rest, seen + {c.path}, count, total, b);
            SkipItem(ws, items, b, o.files, o.hitBudgetLimit, ms);
            ks := OneFurther(ms);
          case Some(content) =>
            var trimmed := content[..Min(|content|, b.maxTotalBytes - total)];
            var f := Fetched(c.path, trimmed, c.kind, items[0].origin);
            if |trimmed| < |content| {
              ks := [0];
            } else {
              var o := Fetch(ws, rest, seen + {c.path}, count + 1, total + |trimmed|, b);
              var ms := FetchedFrom(ws, rest, seen + {c.path}, count + 1, total + |trimmed|, b);
              TakeItem(ws, items, b, f, o.files, o.hitBudgetLimit, ms);
              ks := [0] + OneFurther(ms);
            }
        }
      }
    }
  }

  function OneFurther(ms: seq<nat>): (ks: seq<nat>)
    ensures |ks| == |ms| && forall j | 0 <= j < |ms| :: ks[j] == ms[j] + 1
  {
    seq(|ms|, j requires 0 <= j < |ms| => ms[j] + 1)
  }

  lemma {:induction false} FetchedAll(ws: Workspace, items: seq<Item>, seen: set<string>, count: nat, total: nat, b: Budget)
    ensures var o := Fetch(ws, items, seen, count, total, b);
      !o.hitBudgetLimit ==> forall j | 0 <= j < |items| ::
        ws.read(items[j].candidate.path).Some? ==> items[j].candidate.path in seen + PathsOf(o.files)
    decreases |items|
  {
    if items != [] {
      var o := Fetch(ws, items, seen, count, total, b);
      var c, rest := items[0].candidate, items[1..];
      assert forall j | 0 < j < |items| :: items[j] == rest[j - 1];
      if c.path in seen {
        FetchedAll(ws, rest, seen, count, total, b);
      } else if !(count >= b.maxFiles || total >= b.maxTotalBytes) {
        match TryReadFile(ws, c.path, b.maxBytesPerFile) {
          case None => FetchedAll(ws, rest, seen + {c.path}, count, total, b);
          case Some(content) =>
            FetchedAll(ws, rest, seen + {c.path}, count + 1, total + |content|, b);
            PathsOfCons(o.files);
        }
      }
    }
  }

  lemma WholeReading(ws: Workspace, path: string, maxBytes: nat)
    requires ws.read(path).Some?
    ensures Reading(ws, path, maxBytes, TryReadFile(ws, path, maxBytes).value)
  {
    var content := TryReadFile(ws, path, maxBytes).value;
    if |ws.read(path).value| > maxBytes {
      assert content == ws.read(path).value[..maxBytes] + TruncationNote(maxBytes);
      assert TruncationNote(maxBytes) != "";
    }
  }

  /** What is collected: wanted companions as read, in order, and all of them unless a cap was hit. */
  ghost predicate Collected(ws: Workspace, changedPaths: seq<string>, compiled: seq<Instruction>, b: Budget, files: seq<Fetched>,
      hitBudget: bool)
  {
    && Sound(ws, changedPaths, compiled, b, files, hitBudget)
    && (exists at :: Follows(changedPaths, files, at))
    && (!hitBudget ==> Complete(ws, changedPaths, compiled, files))
  }

  /** The files of a collection: wanted, as read, in order, and all of them unless a cap was hit. */
  lemma CollectedExactly(ws: Workspace, changedPaths: seq<string>, compiled: seq<Instruction>, b: Budget)
    ensures var o := Fetch(ws, AllItems(ws, compiled, changedPaths, 0), {}, 0, 0, b);
      Collected(ws, changedPaths, compiled, b, o.files, o.hitBudgetLimit)
  {
    var items := AllItems(ws, compiled, changedPaths, 0);
    var o := Fetch(ws, items, {}, 0, 0, b);
    var places := ItemsExactly(ws, compiled, changedPaths, 0);
    var ks := FetchedFrom(ws, items, {}, 0, 0, b);
    var at := seq(|ks|, j requires 0 <= j < |ks| => places[ks[j]]);
    assert Follows(changedPaths, o.files, at);
    forall j | 0 <= j < |o.files| ensures SoundAt(ws, changedPaths, compiled, b, o.files, o.hitBudgetLimit, j) {
      var f, item := o.files[j], items[ks[j]];
      assert FromItem(ws, item, b, f, j < |o.files| - 1 || !o.hitBudgetLimit);
      assert item.candidate == Candidate(f.path, f.kind);
      WholeReading(ws, f.path, b.maxBytesPerFile);
    }
    FetchedAll(ws, items, {}, 0, 0, b);
    if !o.hitBudgetLimit {
      forall i | 0 <= i < |changedPaths| ensures AllThere(ws, compiled, changedPaths[i], o.files) {
        assert ItemsHave(ws, compiled, changedPaths[i], items);
      }
    }
  }

  lemma CollectedIs(ws: Workspace, changedPaths: seq<string>, compiled: seq<Instruction>, b: Budget, o: Outcome)
    requires o == Fetch(ws, AllItems(ws, compiled, changedPaths, 0), {}, 0, 0, b)
    ensures Collected(ws, changedPaths, compiled, b, o.files, o.hitBudgetLimit)
  {
    CollectedExactly(ws, changedPaths, compiled, b);
  }

  /** The body of the innermost loop: one candidate, with `rest` still to come. */
  method TryCandidate(ws: Workspace, cand: Candidate, changed: string, seen: set<string>, files: seq<Fetched>, totalBytes: nat,
      b: Budget, ghost rest: seq<Item>)
    returns (seen': set<string>, files': seq<Fetched>, totalBytes': nat, hitBudget: bool)
    ensures FetchOnto(ws, [Item(cand, changed)] + rest, seen, files, totalBytes, b)
            == if hitBudget then Outcome(files', totalBytes', true) else FetchOnto(ws, rest, seen', files', totalBytes', b)
  {
    seen', files', totalBytes', hitBudget := seen, files, totalBytes, false;
    assert ([Item(cand, changed)] + rest)[1..] == rest;
    if cand.path in seen { return; }
    if |files| >= b.maxFiles {
      hitBudget := true;
      return;
    }
    if totalBytes >= b.maxTotalBytes {
      hitBudget := true;
      return;
    }
    var content := TryReadFile(ws, cand.path, b.maxBytesPerFile);
    seen' := seen + {cand.path};
    if content.None? { return; }
    var remaining := b.maxTotalBytes - totalBytes;
    var trimmed := if |content.value| > remaining then content.value[..remaining] else content.value;
    assert trimmed == content.value[..Min(|content.value|, remaining)];
    files' := files + [Fetched(cand.path, trimmed, cand.kind, changed)];
    totalBytes' := totalBytes + |trimmed|;
    if |trimmed| < |content.value| { hitBudget := true; }
  }

  method CollectAutoFetchContext(ws: Workspace, changedPaths: seq<string>, compiled: seq<Instruction>, b: Budget)
    returns (files: seq<Fetched>, totalBytes: nat, hitBudget: bool)
    ensures Collected(ws, changedPaths, compiled, b, files, hitBudget)
    ensures DistinctPaths(files) && totalBytes == TotalLength(files)
    ensures b.maxFiles >= 0 ==> |files| <= b.maxFiles
    ensures b.maxTotalBytes >= 0 ==> totalBytes <= b.maxTotalBytes
    ensures hitBudget ==> |files| >= b.maxFiles || totalBytes >= b.maxTotalBytes
    ensures Outcome(files, totalBytes, hitBudget) == Fetch(ws, AllItems(ws, compiled, changedPaths, 0), {}, 0, 0, b)
  {
    var seen: set<string> := {};
    files, totalBytes, hitBudget := [], 0, false;
    ghost var all := FetchOnto(ws, AllItems(ws, compiled, changedPaths, 0), {}, [], 0, b);
    FetchOntoAppends(ws, AllItems(ws, compiled, changedPaths, 0), {}, [], 0, b);
    var i := 0;
    label outer: while i < |changedPaths|
      invariant 0 <= i <= |changedPaths| && !hitBudget
      invariant all == FetchOnto(ws, AllItems(ws, compiled, changedPaths, i), seen, files, totalBytes, b)
    {
      var changed := changedPaths[i];
      ghost var later := AllItems(ws, compiled, changedPaths, i + 1);
      var j := 0;
      while j < |compiled|
        invariant 0 <= j <= |compiled| && !hitBudget
        invariant all == FetchOnto(ws, FirstMatch(ws, compiled, j, changed, later), seen, files, totalBytes, b)
      {
        if !compiled[j].matches(changed) {
          j := j + 1;
          continue;
        }
        var candidates := CandidatesFor(ws, changed, compiled[j].options);
        var k := 0;
        while k < |candidates|
          invariant 0 <= k <= |candidates| && !hitBudget
          invariant all == FetchOnto(ws, Tagged(candidates, k, changed, later), seen, files, totalBytes, b)
        {
          seen, files, totalBytes, hitBudget :=
            TryCandidate(ws, candidates[k], changed, seen, files, totalBytes, b, Tagged(candidates, k + 1, changed, later));
          if hitBudget { break outer; }
          k := k + 1;
        }
        break;
      }
      i := i + 1;
    }
    assert all == Outcome(files, totalBytes, hitBudget);
    CollectedIs(ws, changedPaths, compiled, b, all);
    CollectionContract(ws, changedPaths, compiled, b);
  }

  // ----- what a run returns -----

  /** The same run without the caps on files and on total bytes. */
  function FetchAll(ws: Workspace, items: seq<Item>, seen: set<string>, maxBytesPerFile: nat): seq<Fetched> {
    if items == [] then []
    else
      var c, rest := items[0].candidate, items[1..];
      if c.path in seen then FetchAll(ws, rest, seen, maxBytesPerFile)
      else
        match TryReadFile(ws, c.path, maxBytesPerFile)
        case None => FetchAll(ws, rest, seen + {c.path}, maxBytesPerFile)
        case Some(content) =>
          [Fetched(c.path, content, c.kind, items[0].origin)] + FetchAll(ws, rest, seen + {c.path}, maxBytesPerFile)
  }

  /** `a` is the beginning of `b`, except that its last content may be cut. */
  predicate CutPrefix(a: seq<Fetched>, b: seq<Fetched>) {
    a == [] ||
    (&& b != []
     && a[0].content <= b[0].content && a[0] == b[0].(content := a[0].content)
     && (|a| > 1 ==> a[0].content == b[0].content)
     && CutPrefix(a[1..], b[1..]))
  }

  /** A budgeted run returns the beginning of the unbudgeted run's list with at most its last content
      cut, and all of it when no cap was hit. */
  lemma {:induction false} BudgetedIsCutPrefix(ws: Workspace, items: seq<Item>, seen: set<string>, count: nat, total: nat, b: Budget)
    ensures var o, all := Fetch(ws, items, seen, count, total, b), FetchAll(ws, items, seen, b.maxBytesPerFile);
            CutPrefix(o.files, all) && (!o.hitBudgetLimit ==> o.files == all)
    decreases |items|
  {
    if items != [] {
      var c, rest := items[0].candidate, items[1..];
      if c.path in seen {
        BudgetedIsCutPrefix(ws, rest, seen, count, total, b);
      } else if !(count >= b.maxFiles || total >= b.maxTotalBytes) {
        match TryReadFile(ws, c.path, b.maxBytesPerFile) {
          case None => BudgetedIsCutPrefix(ws, rest, seen + {c.path}, count, total, b);
          case Some(content) =>
            BudgetedIsCutPrefix(ws, rest, seen + {c.path}, count + 1, total + |content|, b);
            assert |content| <= b.maxTotalBytes - total ==> content[..Min(|content|, b.maxTotalBytes - total)] == content;
        }
      }
    }
  }

  function TotalLength(files: seq<Fetched>): nat {
    if files == [] then 0 else |files[0].content| + TotalLength(files[1..])
  }

  /** The caps: never more than `maxFiles` files, the byte count is the sum of the contents, and it
      stays within the total cap. */
  lemma {:induction false} CapsHold(ws: Workspace, items: seq<Item>, seen: set<string>, count: nat, total: nat, b: Budget)
    ensures var o := Fetch(ws, items, seen, count, total, b);
            && o.totalBytes == total + TotalLength(o.files)
            && (o.files != [] ==> count + |o.files| <= b.maxFiles && o.totalBytes <= b.maxTotalBytes)
    decreases |items|
  {
    if items != [] {
      var c, rest := items[0].candidate, items[1..];
      if c.path in seen {
        CapsHold(ws, rest, seen, count, total, b);
      } else if !(count >= b.maxFiles || total >= b.maxTotalBytes) {
        match TryReadFile(ws, c.path, b.maxBytesPerFile) {
          case None => CapsHold(ws, rest, seen + {c.path}, count, total, b);
          case Some(content) => CapsHold(ws, rest, seen + {c.path}, count + 1, total + |content|, b);
        }
      }
    }
  }

  /** A run only reports a cap that it reached. */
  lemma {:induction false} HitMeansCap(ws: Workspace, items: seq<Item>, seen: set<string>, count: nat, total: nat, b: Budget)
    ensures var o := Fetch(ws, items, seen, count, total, b);
      o.hitBudgetLimit ==> count + |o.files| >= b.maxFiles || o.totalBytes >= b.maxTotalBytes
    decreases |items|
  {
    if items != [] {
      var c, rest := items[0].candidate, items[1..];
      if c.path in seen {
        HitMeansCap(ws, rest, seen, count, total, b);
      } else if !(count >= b.maxFiles || total >= b.maxTotalBytes) {
        match TryReadFile(ws, c.path, b.maxBytesPerFile) {
          case None => HitMeansCap(ws, rest, seen + {c.path}, count, total, b);
          case Some(content) => HitMeansCap(ws, rest, seen + {c.path}, count + 1, total + |content|, b);
        }
      }
    }
  }

  function PathsOf(files: seq<Fetched>): set<string> {
    set k | 0 <= k < |files| :: files[k].path
  }

  predicate DistinctPaths(files: seq<Fetched>) {
    files == [] || (files[0].path !in PathsOf(files[1..]) && DistinctPaths(files[1..]))
  }

  /** No path is fetched twice, nor one that was tried before. */
  lemma {:induction false} PathsDistinct(ws: Workspace, items: seq<Item>, seen: set<string>, count: nat, total: nat, b: Budget)
    ensures var files := Fetch(ws, items, seen, count, total, b).files;
            DistinctPaths(files) && PathsOf(files) !! seen
    decreases |items|
  {
    if items != [] {
      var c, rest := items[0].candidate, items[1..];
      if c.path in seen {
        PathsDistinct(ws, rest, seen, count, total, b);
      } else if !(count >= b.maxFiles || total >= b.maxTotalBytes) {
        match TryReadFile(ws, c.path, b.maxBytesPerFile) {
          case None => PathsDistinct(ws, rest, seen + {c.path}, count, total, b);
          case Some(content) =>
            PathsDistinct(ws, rest, seen + {c.path}, count + 1, total + |content|, b);
            var files := Fetch(ws, items, seen, count, total, b).files;
            PathsOfCons(files);
        }
      }
    }
  }

  lemma PathsOfCons(files: seq<Fetched>)
    requires files != []
    ensures PathsOf(files) == {files[0].path} + PathsOf(files[1..])
  {
    forall p ensures p in PathsOf(files) <==> p in {files[0].path} + PathsOf(files[1..]) {
      if p in PathsOf(files[1..]) {
        var k :| 0 <= k < |files[1..]| && files[1..][k].path == p;
        assert files[k + 1].path == p;
      }
      if p in PathsOf(files) {
        var k :| 0 <= k < |files| && files[k].path == p;
        if k > 0 { assert files[1..][k - 1].path == p; }
      }
    }
  }

  /** The whole contract of one collection. */
  lemma CollectionContract(ws: Workspace, changedPaths: seq<string>, compiled: seq<Instruction>, b: Budget)
    ensures var items := AllItems(ws, compiled, changedPaths, 0);
            var o, all := Fetch(ws, items, {}, 0, 0, b), FetchAll(ws, items, {}, b.maxBytesPerFile);
            && CutPrefix(o.files, all) && (!o.hitBudgetLimit ==> o.files == all)
            && DistinctPaths(o.files)
            && o.totalBytes == TotalLength(o.files)
            && (b.maxFiles >= 0 ==> |o.files| <= b.maxFiles)
            && (b.maxTotalBytes >= 0 ==> o.totalBytes <= b.maxTotalBytes)
            && (o.hitBudgetLimit ==> |o.files| >= b.maxFiles || o.totalBytes >= b.maxTotalBytes)
  {
    var items := AllItems(ws, compiled, changedPaths, 0);
    BudgetedIsCutPrefix(ws, items, {}, 0, 0, b);
    CapsHold(ws, items, {}, 0, 0, b);
    PathsDistinct(ws, items, {}, 0, 0, b);
    HitMeansCap(ws, items, {}, 0, 0, b);
  }

  // ----- the per-file cap -----

  /** A file's content is at most the per-file cap exactly when the file itself is: a longer file is
      cut to the cap and then gets the note on top. */
  lemma PerFileCapExactly(ws: Workspace, path: string, maxBytes: nat)
    requires ws.read(path).Some?
    ensures var content := TryReadFile(ws, path, maxBytes).value;
            && (|content| <= maxBytes <==> |ws.read(path).value| <= maxBytes)
            && |content| <= maxBytes + |TruncationNote(maxBytes)|
            && content[..Min(|content|, maxBytes)] <= ws.read(path).value
            && (|ws.read(path).value| > maxBytes ==> NoteOf(content[maxBytes..], maxBytes))
  {
    DecimalReads(maxBytes);
    assert ws.read(path).Some? && |ws.read(path).value| > maxBytes ==>
      TryReadFile(ws, path, maxBytes).value[maxBytes..] == TruncationNote(maxBytes);
  }
}
