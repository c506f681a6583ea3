/** Path filters, the diff-line count and the two size caps over a parsed payload. */
module DiffFilter {
  import opened Strings
  import opened GlobRegex
  import opened DiffText

  // ----- filtering -----

  datatype Matchers = Matchers(regexes: seq<Re>) | Invalid(error: GlobError)

  /** Compiles the filters in order; the first malformed one is the error that is thrown. */
  function CompileAll(filters: seq<string>): Matchers {
    if filters == [] then Matchers([])
    else
      match GlobToRegExp(filters[0])
      case Error(e) => Invalid(e)
      case Regex(re) =>
        match CompileAll(filters[1..])
        case Invalid(e) => Invalid(e)
        case Matchers(rest) => Matchers([re] + rest)
  }

  ghost predicate Excluded(regexes: seq<Re>, path: string) {
    exists i | 0 <= i < |regexes| :: Matches(regexes[i], path)
  }

  ghost function Keep(files: seq<DiffFile>, regexes: seq<Re>): seq<DiffFile> {
    if files == [] then []
    else if Excluded(regexes, files[0].path) then Keep(files[1..], regexes)
    else [files[0]] + Keep(files[1..], regexes)
  }

  ghost function Drop(files: seq<DiffFile>, regexes: seq<Re>): seq<DiffFile> {
    if files == [] then []
    else if Excluded(regexes, files[0].path) then [files[0]] + Drop(files[1..], regexes)
    else Drop(files[1..], regexes)
  }

  /** `changed` is false when the code hands back the very object it was given. */
  datatype Filtered = Filtered(parsed: ParsedDiff, changed: bool) | Throws(error: GlobError)

  ghost function ApplyPathFilters(parsed: ParsedDiff, filters: seq<string>): Filtered {
    if filters == [] then Filtered(parsed, false)
    else
      match CompileAll(filters)
      case Invalid(e) => Throws(e)
      case Matchers(regexes) =>
        var kept := Keep(parsed.files, regexes);
        if |kept| == |parsed.files| then Filtered(parsed, false)
        else Filtered(ParsedDiff(parsed.preamble, kept), true)
  }

  lemma {:induction false} KeepDropSizes(files: seq<DiffFile>, regexes: seq<Re>)
    ensures |Keep(files, regexes)| + |Drop(files, regexes)| == |files|
    ensures Drop(files, regexes) == [] ==> Keep(files, regexes) == files
  {
    if files != [] { KeepDropSizes(files[1..], regexes); }
  }

  /** Every parsed path is kept or dropped, as often as it occurs. */
  lemma {:induction false} KeepDropPaths(files: seq<DiffFile>, regexes: seq<Re>)
    ensures multiset(Paths(Keep(files, regexes))) + multiset(Paths(Drop(files, regexes))) == multiset(Paths(files))
  {
    if files != [] {
      var f, kept, dropped := files[0], Keep(files[1..], regexes), Drop(files[1..], regexes);
      KeepDropPaths(files[1..], regexes);
      if Excluded(regexes, f.path) {
        assert ([f] + dropped)[1..] == dropped;
      } else {
        assert ([f] + kept)[1..] == kept;
      }
    }
  }

  function Paths(files: seq<DiffFile>): seq<string> {
    if files == [] then [] else [files[0].path] + Paths(files[1..])
  }

  /** Filter `k` is the first malformed one. */
  predicate FirstMalformed(filters: seq<string>, k: nat, e: GlobError) {
    k < |filters| && GlobToRegExp(filters[k]) == Error(e) && forall i :: 0 <= i < k ==> GlobToRegExp(filters[i]).Regex?
  }

  lemma {:induction false} CompileFails(filters: seq<string>) returns (k: nat)
    requires CompileAll(filters).Invalid?
    ensures FirstMalformed(filters, k, CompileAll(filters).error)
  {
    if GlobToRegExp(filters[0]).Error? {
      k := 0;
    } else {
      k := CompileFails(filters[1..]);
      k := k + 1;
    }
  }

  /** In every case the result is the files no filter matches, under the same preamble, or the error of the first
      malformed filter. */
  lemma FilterKeeps(parsed: ParsedDiff, filters: seq<string>)
    ensures match CompileAll(filters)
      case Matchers(regexes) =>
        ApplyPathFilters(parsed, filters) ==
        Filtered(parsed.(files := Keep(parsed.files, regexes)), Drop(parsed.files, regexes) != [])
      case Invalid(e) => ApplyPathFilters(parsed, filters) == Throws(e) && exists k :: FirstMalformed(filters, k, e)
  {
    match CompileAll(filters) {
      case Matchers(regexes) =>
        KeepDropSizes(parsed.files, regexes);
        if filters == [] { KeepNothingExcluded(parsed.files); }
      case Invalid(_) =>
        var _ := CompileFails(filters);
    }
  }

  lemma {:induction false} KeepNothingExcluded(files: seq<DiffFile>)
    ensures Keep(files, []) == files && Drop(files, []) == []
  {
    if files != [] { KeepNothingExcluded(files[1..]); }
  }

  lemma {:induction false} CompileConcat(f: seq<string>, g: seq<string>)
    ensures CompileAll(f + g) ==
            match CompileAll(f)
            case Invalid(e) => Invalid(e)
            case Matchers(rf) => (match CompileAll(g)
                                  case Invalid(e) => Invalid(e)
                                  case Matchers(rg) => Matchers(rf + rg))
  {
    if f == [] {
      assert f + g == g;
      match CompileAll(g) {
        case Invalid(_) =>
        case Matchers(rg) => assert [] + rg == rg;
      }
    } else {
      assert (f + g)[1..] == f[1..] + g;
      CompileConcat(f[1..], g);
      match GlobToRegExp(f[0]) {
        case Error(_) =>
        case Regex(re) => CompileConsConcat(re, f[1..], g);
      }
    }
  }

  lemma CompileConsConcat(re: Re, f: seq<string>, g: seq<string>)
    ensures CompileAll(f).Matchers? && CompileAll(g).Matchers? ==>
              ([re] + CompileAll(f).regexes) + CompileAll(g).regexes == [re] + (CompileAll(f).regexes + CompileAll(g).regexes)
  {
  }

  lemma {:induction false} KeepTwice(files: seq<DiffFile>, rf: seq<Re>, rg: seq<Re>)
    ensures Keep(Keep(files, rf), rg) == Keep(files, rf + rg)
  {
    if files != [] {
      KeepTwice(files[1..], rf, rg);
      ExcludedConcat(rf, rg, files[0].path);
      if !Excluded(rf, files[0].path) {
        assert Keep(files, rf)[1..] == Keep(files[1..], rf);
      }
    }
  }

  lemma ExcludedConcat(rf: seq<Re>, rg: seq<Re>, path: string)
    ensures Excluded(rf + rg, path) <==> Excluded(rf, path) || Excluded(rg, path)
  {
    var all := rf + rg;
    if i :| 0 <= i < |rf| && Matches(rf[i], path) { assert all[i] == rf[i]; }
    if i :| 0 <= i < |rg| && Matches(rg[i], path) { assert all[|rf| + i] == rg[i]; }
    if i :| 0 <= i < |all| && Matches(all[i], path) {
      if i < |rf| { assert all[i] == rf[i]; } else { assert all[i] == rg[i - |rf|]; }
    }
  }

  /** Filtering by one list and then another is filtering by both, errors included. */
  lemma FilterComposes(parsed: ParsedDiff, f: seq<string>, g: seq<string>)
    ensures match ApplyPathFilters(parsed, f)
            case Throws(e) => ApplyPathFilters(parsed, f + g) == Throws(e)
            case Filtered(once, _) =>
              match ApplyPathFilters(once, g)
              case Throws(e) => ApplyPathFilters(parsed, f + g) == Throws(e)
              case Filtered(twice, _) =>
                ApplyPathFilters(parsed, f + g).Filtered? && ApplyPathFilters(parsed, f + g).parsed == twice
  {
    CompileConcat(f, g);
    if CompileAll(f).Matchers? {
      var rf := CompileAll(f).regexes;
      FilterKeeps(parsed, f);
      var once := parsed.(files := Keep(parsed.files, rf));
      if CompileAll(g).Matchers? {
        FilterKeeps(once, g);
        FilterKeeps(parsed, f + g);
        KeepTwice(parsed.files, rf, CompileAll(g).regexes);
      } else {
        assert g != [];
      }
    }
  }

  lemma {:induction false} KeepWellFormed(files: seq<DiffFile>, regexes: seq<Re>)
    requires forall k | 0 <= k < |files| :: WellFormedFile(files[k])
    ensures forall k | 0 <= k < |Keep(files, regexes)| :: WellFormedFile(Keep(files, regexes)[k])
  {
    if files != [] { KeepWellFormed(files[1..], regexes); }
  }

  /** The filtered payload, printed, parses back to exactly the kept files. */
  lemma FilteredTextParsesBack(diff: string, filters: seq<string>)
    requires ApplyPathFilters(Parse(diff), filters).Filtered?
    ensures var kept := ApplyPathFilters(Parse(diff), filters).parsed;
            Parse(Reassembled(kept)) == kept
  {
    var parsed := Parse(diff);
    ParseWellFormed(diff);
    if filters != [] { KeepWellFormed(parsed.files, CompileAll(filters).regexes); }
    ParseOfReassembled(ApplyPathFilters(parsed, filters).parsed);
  }

  // ----- counting diff lines -----

  /** An added or removed line that is not a file decoration. */
  predicate IsDiffLine(line: string) {
    line != "" && (line[0] == '+' || line[0] == '-') && !("+++ " <= line) && !("--- " <= line)
  }

  function DiffLinesIn(lines: seq<string>): nat {
    if lines == [] then 0 else (if IsDiffLine(lines[0]) then 1 else 0) + DiffLinesIn(lines[1..])
  }

  function DiffLines(files: seq<DiffFile>): nat {
    if files == [] then 0 else DiffLinesIn(TextLines(files[0].body)) + DiffLines(files[1..])
  }

  lemma NextFile(files: seq<DiffFile>, i: nat)
    requires i < |files|
    ensures DiffLines(files[i..]) == DiffLinesIn(TextLines(files[i].body)) + DiffLines(files[i + 1..])
  {
    assert files[i..][1..] == files[i + 1..];
  }

  lemma NextLine(lines: seq<string>, j: nat)
    requires j < |lines|
    ensures DiffLinesIn(lines[j..]) == (if IsDiffLine(lines[j]) then 1 else 0) + DiffLinesIn(lines[j + 1..])
  {
    assert lines[j..][1..] == lines[j + 1..];
  }

  /** A line that adds or removes text, told by how it starts; four characters make it the name of a file instead. */
  predicate Changes(line: string) {
    ("+" <= line && !("+++ " <= line)) || ("-" <= line && !("--- " <= line))
  }

  /** The positions from `m` on of the lines that change something. */
  ghost function ChangesFrom(lines: seq<string>, m: nat): set<nat> {
    set j: nat | m <= j < |lines| && Changes(lines[j])
  }

  lemma ChangesExactly(line: string)
    ensures IsDiffLine(line) <==> Changes(line)
  {
    if line != "" { assert line[..1] == [line[0]]; }
  }

  lemma {:induction false} CountsChanges(lines: seq<string>, m: nat)
    requires m <= |lines|
    ensures DiffLinesIn(lines[m..]) == |ChangesFrom(lines, m)|
    decreases |lines| - m
  {
    if m < |lines| {
      CountsChanges(lines, m + 1);
      NextLine(lines, m);
      ChangesExactly(lines[m]);
      var rest := ChangesFrom(lines, m + 1);
      assert ChangesFrom(lines, m) == if Changes(lines[m]) then rest + {m} else rest;
    } else {
      assert ChangesFrom(lines, m) == {};
    }
  }

  /** Every changing line of the files from `n` on, as the file's position and the line's. */
  ghost function ChangesIn(files: seq<DiffFile>, n: nat): set<(nat, nat)> {
    set k: nat, j: nat | n <= k < |files| && j in ChangesFrom(Split(files[k].body, NEWLINE), 0) :: (k, j)
  }

  ghost function Paired(k: nat, js: set<nat>): (pairs: set<(nat, nat)>) {
    set j | j in js :: (k, j)
  }

  lemma {:induction false} AsMany(k: nat, js: set<nat>)
    ensures |Paired(k, js)| == |js|
  {
    if js != {} {
      var j :| j in js;
      AsMany(k, js - {j});
      assert Paired(k, js) == Paired(k, js - {j}) + {(k, j)};
    } else {
      assert Paired(k, js) == {};
    }
  }

  lemma {:induction false} CountsAllChanges(files: seq<DiffFile>, n: nat)
    requires n <= |files|
    ensures DiffLines(files[n..]) == |ChangesIn(files, n)|
    decreases |files| - n
  {
    if n < |files| {
      CountsAllChanges(files, n + 1);
      NextFile(files, n);
      CountsInBody(files[n].body);
      AsMany(n, ChangesFrom(Split(files[n].body, NEWLINE), 0));
      ChangesOfFile(files, n);
    } else {
      assert ChangesIn(files, n) == {};
    }
  }

  lemma CountsInBody(body: string)
    ensures DiffLinesIn(TextLines(body)) == |ChangesFrom(Split(body, NEWLINE), 0)|
  {
    var lines := Split(body, NEWLINE);
    CountsChanges(lines, 0);
    assert lines[0..] == lines;
  }

  lemma ChangesOfFile(files: seq<DiffFile>, n: nat)
    requires n < |files|
    ensures var here := Paired(n, ChangesFrom(Split(files[n].body, NEWLINE), 0));
      ChangesIn(files, n) == ChangesIn(files, n + 1) + here && ChangesIn(files, n + 1) !! here
  {
  }

  method CountDiffLines(parsed: ParsedDiff) returns (total: nat)
    ensures total == DiffLines(parsed.files)
    ensures total == |ChangesIn(parsed.files, 0)|
  {
    CountsAllChanges(parsed.files, 0);
    total := 0;
    var i := 0;
    assert parsed.files[0..] == parsed.files;
    while i < |parsed.files|
      invariant 0 <= i <= |parsed.files|
      invariant total + DiffLines(parsed.files[i..]) == DiffLines(parsed.files)
    {
      NextFile(parsed.files, i);
      var body := parsed.files[i].body;
      if |body| != 0 {
        var lines := Split(body, NEWLINE);
        ghost var before := total;
        var j := 0;
        assert lines[0..] == lines;
        while j < |lines|
          invariant 0 <= j <= |lines|
          invariant total + DiffLinesIn(lines[j..]) == before + DiffLinesIn(lines)
        {
          NextLine(lines, j);
          if IsDiffLine(lines[j]) { total := total + 1; }
          j := j + 1;
        }
        assert lines[|lines|..] == [] && total == before + DiffLinesIn(lines);
      }
      i := i + 1;
    }
  }

  lemma {:induction false} DiffLinesAddUp(files: seq<DiffFile>, regexes: seq<Re>)
    ensures DiffLines(files) == DiffLines(Keep(files, regexes)) + DiffLines(Drop(files, regexes))
  {
    if files != [] {
      DiffLinesAddUp(files[1..], regexes);
      var f, kept, dropped := files[0], Keep(files[1..], regexes), Drop(files[1..], regexes);
      if Excluded(regexes, f.path) {
        assert ([f] + dropped)[1..] == dropped;
      } else {
        assert ([f] + kept)[1..] == kept;
      }
    }
  }

  // ----- the exclusion report -----

  datatype Reason = PathFilter | MaxFilesCap | MaxDiffLinesCap
  datatype ExcludedFile = ExcludedFile(path: string, reason: Reason)

  predicate NamedIn(files: seq<DiffFile>, path: string) {
    exists k | 0 <= k < |files| :: files[k].path == path
  }

  /** Parsed files whose path no kept file has. */
  function Unnamed(files: seq<DiffFile>, kept: seq<DiffFile>): seq<DiffFile> {
    if files == [] then []
    else if NamedIn(kept, files[0].path) then Unnamed(files[1..], kept)
    else [files[0]] + Unnamed(files[1..], kept)
  }

  lemma {:induction false} KeptPaths(files: seq<DiffFile>, regexes: seq<Re>, path: string)
    ensures NamedIn(Keep(files, regexes), path) <==> NamedIn(files, path) && !Excluded(regexes, path)
  {
    if files != [] {
      KeptPaths(files[1..], regexes, path);
      NamedCons(files[0], files[1..], path);
      assert [files[0]] + files[1..] == files;
      NamedCons(files[0], Keep(files[1..], regexes), path);
    }
  }

  lemma NamedCons(f: DiffFile, rest: seq<DiffFile>, path: string)
    ensures NamedIn([f] + rest, path) <==> f.path == path || NamedIn(rest, path)
  {
    var all := [f] + rest;
    assert all[0] == f;
    if k :| 0 <= k < |rest| && rest[k].path == path { assert all[k + 1] == rest[k]; }
    if k :| 0 < k < |all| && all[k].path == path { assert all[k] == rest[k - 1]; }
  }

  /** The report, which compares paths, names exactly the files the filters removed. */
  lemma {:induction false} ReportIsDropped(files: seq<DiffFile>, n: nat, regexes: seq<Re>)
    requires n <= |files|
    ensures Unnamed(files[n..], Keep(files, regexes)) == Drop(files[n..], regexes)
    decreases |files| - n
  {
    if n < |files| {
      assert files[n..][1..] == files[n + 1..];
      ReportIsDropped(files, n + 1, regexes);
      KeptPaths(files, regexes, files[n].path);
    }
  }

  // ----- the gate before the model is called -----

  datatype Plan =
    | Proceed(text: string, changedPaths: seq<string>, report: seq<ExcludedFile>)
    | CapSkip(report: seq<ExcludedFile>)
    | Malformed(error: GlobError)

  function Report(files: seq<DiffFile>, reason: Reason): seq<ExcludedFile> {
    if files == [] then [] else [ExcludedFile(files[0].path, reason)] + Report(files[1..], reason)
  }

  function ReportPaths(report: seq<ExcludedFile>): seq<string> {
    if report == [] then [] else [report[0].path] + ReportPaths(report[1..])
  }

  ghost function PlanReview(diff: string, changedPaths: seq<string>, filters: seq<string>, maxFiles: int, maxDiffLines: int): Plan {
    var parsed := Parse(diff);
    match ApplyPathFilters(parsed, filters)
    case Throws(e) => Malformed(e)
    case Filtered(filtered, changed) =>
      var byFilter := if changed then Report(Unnamed(parsed.files, filtered.files), PathFilter) else [];
      if |filtered.files| > maxFiles then CapSkip(byFilter + Report(filtered.files, MaxFilesCap))
      else if DiffLines(filtered.files) > maxDiffLines then CapSkip(byFilter + Report(filtered.files, MaxDiffLinesCap))
      else Proceed(if changed then Reassembled(filtered) else diff,
                   if changed then Paths(filtered.files) else changedPaths,
                   byFilter)
  }

  lemma {:induction false} ReportPathsConcat(a: seq<ExcludedFile>, b: seq<ExcludedFile>)
    ensures ReportPaths(a + b) == ReportPaths(a) + ReportPaths(b)
  {
    if a == [] {
      assert a + b == b;
    } else {
      ReportPathsConcat(a[1..], b);
      assert (a + b)[1..] == a[1..] + b;
      FirstPath(a[0].path, ReportPaths(a[1..]), ReportPaths(b));
    }
  }

  lemma FirstPath(path: string, p: seq<string>, q: seq<string>)
    ensures [path] + (p + q) == ([path] + p) + q
  {
  }

  /** The paths that a report lists under one reason. */
  function ReportedAs(report: seq<ExcludedFile>, reason: Reason): seq<string> {
    if report == [] then []
    else if report[0].reason == reason then [report[0].path] + ReportedAs(report[1..], reason)
    else ReportedAs(report[1..], reason)
  }

  lemma {:induction false} ReportedConcat(a: seq<ExcludedFile>, b: seq<ExcludedFile>, reason: Reason)
    ensures ReportedAs(a + b, reason) == ReportedAs(a, reason) + ReportedAs(b, reason)
  {
    if a == [] {
      assert a + b == b;
    } else {
      assert (a + b)[1..] == a[1..] + b;
      ReportedConcat(a[1..], b, reason);
    }
  }

  lemma {:induction false} ReportReasons(files: seq<DiffFile>, reason: Reason, other: Reason)
    ensures ReportedAs(Report(files, reason), other) == if reason == other then Paths(files) else []
    ensures |Report(files, reason)| == |files|
  {
    if files != [] {
      assert Report(files, reason)[1..] == Report(files[1..], reason);
      ReportReasons(files[1..], reason, other);
    }
  }

  lemma {:induction false} ReportKeepsPaths(files: seq<DiffFile>, reason: Reason)
    ensures ReportPaths(Report(files, reason)) == Paths(files)
  {
    if files != [] {
      ReportKeepsPaths(files[1..], reason);
      assert Report(files, reason)[1..] == Report(files[1..], reason);
    }
  }

  /** The plan, told by which files the filters keep and drop. */
  function GatePlan(diff: string, changedPaths: seq<string>, kept: ParsedDiff, dropped: seq<DiffFile>, maxFiles: int, maxDiffLines: int): Plan {
    if |kept.files| > maxFiles then CapSkip(Report(dropped, PathFilter) + Report(kept.files, MaxFilesCap))
    else if DiffLines(kept.files) > maxDiffLines then CapSkip(Report(dropped, PathFilter) + Report(kept.files, MaxDiffLinesCap))
    else if dropped == [] then Proceed(diff, changedPaths, [])
    else Proceed(Reassembled(kept), Paths(kept.files), Report(dropped, PathFilter))
  }

  lemma PlanIsGatePlan(diff: string, changedPaths: seq<string>, filters: seq<string>, maxFiles: int, maxDiffLines: int)
    requires CompileAll(filters).Matchers?
    ensures var parsed, regexes := Parse(diff), CompileAll(filters).regexes;
            PlanReview(diff, changedPaths, filters, maxFiles, maxDiffLines)
            == GatePlan(diff, changedPaths, parsed.(files := Keep(parsed.files, regexes)), Drop(parsed.files, regexes), maxFiles, maxDiffLines)
  {
    var parsed, regexes := Parse(diff), CompileAll(filters).regexes;
    var dropped := Drop(parsed.files, regexes);
    FilterKeeps(parsed, filters);
    ReportIsDropped(parsed.files, 0, regexes);
    assert parsed.files[0..] == parsed.files;
    if dropped != [] { ReportNonEmpty(dropped, PathFilter); }
  }

  lemma ReportNonEmpty(files: seq<DiffFile>, reason: Reason)
    requires files != []
    ensures Report(files, reason) != []
  {
  }

  /** The dropped files are listed as filtered, the kept ones as victims of the cap, and nothing else is. */
  predicate CapReport(report: seq<ExcludedFile>, cap: Reason, kept: seq<DiffFile>, dropped: seq<DiffFile>) {
    ReportedAs(report, PathFilter) == Paths(dropped) && ReportedAs(report, cap) == Paths(kept) &&
    |report| == |kept| + |dropped|
  }

  /** A skip names the cap that was exceeded, the file cap first. */
  predicate SkipAccounts(report: seq<ExcludedFile>, kept: seq<DiffFile>, dropped: seq<DiffFile>, maxFiles: int, maxDiffLines: int) {
    if |kept| > maxFiles then CapReport(report, MaxFilesCap, kept, dropped)
    else DiffLines(kept) > maxDiffLines && CapReport(report, MaxDiffLinesCap, kept, dropped)
  }

  /** A review goes ahead within both caps, on exactly the kept files, and reports exactly the dropped ones. */
  predicate ReviewAccounts(text: string, paths: seq<string>, report: seq<ExcludedFile>, diff: string,
      changedPaths: seq<string>, kept: seq<DiffFile>, dropped: seq<DiffFile>)
  {
    Parse(text).files == kept && ReportedAs(report, PathFilter) == Paths(dropped) && |report| == |dropped| &&
    if dropped == [] then text == diff && paths == changedPaths else paths == Paths(kept)
  }

  /** What a plan owes for the files that the filters keep and drop. */
  predicate AccountsFor(plan: Plan, diff: string, changedPaths: seq<string>, kept: seq<DiffFile>, dropped: seq<DiffFile>,
      maxFiles: int, maxDiffLines: int)
  {
    match plan
    case Malformed(_) => false
    case CapSkip(report) => SkipAccounts(report, kept, dropped, maxFiles, maxDiffLines)
    case Proceed(text, paths, report) =>
      |kept| <= maxFiles && DiffLines(kept) <= maxDiffLines &&
      ReviewAccounts(text, paths, report, diff, changedPaths, kept, dropped)
  }

  /** Every parsed path is in the reviewed payload or in the report, as often as it occurs. */
  predicate NothingLost(plan: Plan, diff: string) {
    var all := multiset(Paths(Parse(diff).files));
    match plan
    case Malformed(_) => false
    case CapSkip(report) => multiset(ReportPaths(report)) == all
    case Proceed(text, _, report) => multiset(Paths(Parse(text).files)) + multiset(ReportPaths(report)) == all
  }

  /** Nothing in the payload goes unaccounted for: under a cap the report names every file once with its reason, and
      otherwise the files the model sees and the files in the report are together all of them. */
  lemma PlanAccountsForEveryFile(diff: string, changedPaths: seq<string>, filters: seq<string>, maxFiles: int, maxDiffLines: int)
    ensures var plan, files := PlanReview(diff, changedPaths, filters, maxFiles, maxDiffLines), Parse(diff).files;
      match CompileAll(filters)
      case Invalid(e) => plan == Malformed(e)
      case Matchers(regexes) =>
        AccountsFor(plan, diff, changedPaths, Keep(files, regexes), Drop(files, regexes), maxFiles, maxDiffLines) &&
        NothingLost(plan, diff)
  {
    FilterKeeps(Parse(diff), filters);
    if CompileAll(filters).Matchers? {
      var parsed, regexes := Parse(diff), CompileAll(filters).regexes;
      PlanIsGatePlan(diff, changedPaths, filters, maxFiles, maxDiffLines);
      KeepDropSizes(parsed.files, regexes);
      KeepDropPaths(parsed.files, regexes);
      FilteredTextParsesBack(diff, filters);
      var kept, dropped := parsed.(files := Keep(parsed.files, regexes)), Drop(parsed.files, regexes);
      GateAccounts(diff, changedPaths, kept, dropped, maxFiles, maxDiffLines);
      GateLosesNothing(diff, changedPaths, kept, dropped, maxFiles, maxDiffLines);
    }
  }

  lemma GateAccounts(diff: string, changedPaths: seq<string>, kept: ParsedDiff, dropped: seq<DiffFile>, maxFiles: int, maxDiffLines: int)
    requires Parse(Reassembled(kept)) == kept && (dropped == [] ==> kept == Parse(diff))
    ensures AccountsFor(GatePlan(diff, changedPaths, kept, dropped, maxFiles, maxDiffLines), diff, changedPaths,
      kept.files, dropped, maxFiles, maxDiffLines)
  {
    if |kept.files| > maxFiles {
      CapAccounts(kept.files, dropped, MaxFilesCap);
    } else if DiffLines(kept.files) > maxDiffLines {
      CapAccounts(kept.files, dropped, MaxDiffLinesCap);
    } else {
      ReviewIsAccounted(diff, changedPaths, kept, dropped);
      ReviewReports(dropped);
    }
  }

  lemma GateLosesNothing(diff: string, changedPaths: seq<string>, kept: ParsedDiff, dropped: seq<DiffFile>, maxFiles: int, maxDiffLines: int)
    requires Parse(Reassembled(kept)) == kept && (dropped == [] ==> kept == Parse(diff))
    requires multiset(Paths(kept.files)) + multiset(Paths(dropped)) == multiset(Paths(Parse(diff).files))
    ensures NothingLost(GatePlan(diff, changedPaths, kept, dropped, maxFiles, maxDiffLines), diff)
  {
    var plan := GatePlan(diff, changedPaths, kept, dropped, maxFiles, maxDiffLines);
    if |kept.files| > maxFiles {
      assert plan == CapSkip(Report(dropped, PathFilter) + Report(kept.files, MaxFilesCap));
      CapLosesNothing(diff, kept, dropped, MaxFilesCap);
    } else if DiffLines(kept.files) > maxDiffLines {
      assert plan == CapSkip(Report(dropped, PathFilter) + Report(kept.files, MaxDiffLinesCap));
      CapLosesNothing(diff, kept, dropped, MaxDiffLinesCap);
    } else {
      ReviewLosesNothing(diff, changedPaths, kept, dropped);
    }
  }

  lemma CapLosesNothing(diff: string, kept: ParsedDiff, dropped: seq<DiffFile>, cap: Reason)
    requires multiset(Paths(kept.files)) + multiset(Paths(dropped)) == multiset(Paths(Parse(diff).files))
    ensures NothingLost(CapSkip(Report(dropped, PathFilter) + Report(kept.files, cap)), diff)
  {
    FullReport(kept.files, dropped, cap);
  }

  lemma ReviewLosesNothing(diff: string, changedPaths: seq<string>, kept: ParsedDiff, dropped: seq<DiffFile>)
    requires Parse(Reassembled(kept)) == kept && (dropped == [] ==> kept == Parse(diff))
    requires multiset(Paths(kept.files)) + multiset(Paths(dropped)) == multiset(Paths(Parse(diff).files))
    ensures NothingLost(if dropped == [] then Proceed(diff, changedPaths, [])
      else Proceed(Reassembled(kept), Paths(kept.files), Report(dropped, PathFilter)), diff)
  {
    ReviewReports(dropped);
  }

  lemma ReviewIsAccounted(diff: string, changedPaths: seq<string>, kept: ParsedDiff, dropped: seq<DiffFile>)
    requires Parse(Reassembled(kept)) == kept && (dropped == [] ==> kept == Parse(diff))
    ensures ReviewAccounts(if dropped == [] then diff else Reassembled(kept),
      if dropped == [] then changedPaths else Paths(kept.files), Report(dropped, PathFilter), diff, changedPaths,
      kept.files, dropped)
  {
    ReviewReports(dropped);
  }

  lemma ReviewReports(dropped: seq<DiffFile>)
    ensures var report := Report(dropped, PathFilter);
      ReportedAs(report, PathFilter) == Paths(dropped) == ReportPaths(report) && |report| == |dropped|
    ensures dropped == [] ==> Report(dropped, PathFilter) == []
  {
    ReportReasons(dropped, PathFilter, PathFilter);
    ReportKeepsPaths(dropped, PathFilter);
  }

  lemma CapAccounts(kept: seq<DiffFile>, dropped: seq<DiffFile>, cap: Reason)
    requires cap != PathFilter
    ensures CapReport(Report(dropped, PathFilter) + Report(kept, cap), cap, kept, dropped)
  {
    var a, b := Report(dropped, PathFilter), Report(kept, cap);
    ReportedConcat(a, b, PathFilter);
    ReportedConcat(a, b, cap);
    ReportReasons(dropped, PathFilter, PathFilter);
    ReportReasons(dropped, PathFilter, cap);
    ReportReasons(kept, cap, PathFilter);
    ReportReasons(kept, cap, cap);
  }

  lemma FullReport(kept: seq<DiffFile>, dropped: seq<DiffFile>, reason: Reason)
    ensures multiset(ReportPaths(Report(dropped, PathFilter) + Report(kept, reason)))
            == multiset(Paths(kept)) + multiset(Paths(dropped))
  {
    ReportKeepsPaths(dropped, PathFilter);
    ReportKeepsPaths(kept, reason);
    ReportPathsConcat(Report(dropped, PathFilter), Report(kept, reason));
  }
}
