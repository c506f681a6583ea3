/** Splitting a review payload into files and putting it together again. */
module DiffText {
  import opened Optional
  import opened Strings
  import opened GlobRegex

  datatype DiffFile = DiffFile(path: string, body: string)
  datatype ParsedDiff = ParsedDiff(preamble: string, files: seq<DiffFile>)

  /** A header line as it stood in the text, its path, and the lines up to the next header. */
  datatype Section = Section(header: string, path: string, lines: seq<string>)
  datatype Grouped = Grouped(pre: seq<string>, sections: seq<Section>)

  const HEADER := "--- "

  predicate ValidPath(p: string) {
    p != "" && OneLine(p)
  }

  predicate EndsInCr(s: string) {
    s != "" && s[|s| - 1] == '\r'
  }

  /** The path a header line carries; one trailing CR is ignored, and the path may not contain a
      line terminator. */
  function HeaderPath(line: string): Option<string> {
    var normalized := if EndsInCr(line) then line[..|line| - 1] else line;
    if HEADER <= normalized && ValidPath(normalized[4..]) then Some(normalized[4..]) else None
  }

  predicate IsHeader(line: string) {
    HeaderPath(line).Some?
  }

  /** A header is three dashes, a blank and a path on one line, whether or not a CR follows it. */
  lemma HeaderExactly(line: string, p: string)
    ensures HeaderPath(line) == Some(p) <==>
      (p != "" && OneLine(p) && (line == "--- " + p || line == "--- " + p + "\r"))
  {
    var cut := if EndsInCr(line) then line[..|line| - 1] else line;
    if HeaderPath(line) == Some(p) {
      assert cut == HEADER + p;
      if EndsInCr(line) { assert line == cut + "\r"; }
    }
    if p != "" && OneLine(p) {
      assert (HEADER + p)[4..] == p && p[|p| - 1] in p && !IsLineTerminator(p[|p| - 1]);
      if line == "--- " + p {
        assert line[|line| - 1] == p[|p| - 1];
      } else if line == "--- " + p + "\r" {
        assert line[..|line| - 1] == HEADER + p;
      }
    }
  }

  predicate NoHeaders(lines: seq<string>) {
    forall k | 0 <= k < |lines| :: !IsHeader(lines[k])
  }

  /** The lines before the first header, and each header with its lines. */
  function Group(lines: seq<string>): Grouped {
    if lines == [] then Grouped([], [])
    else
      var g := Group(lines[1..]);
      match HeaderPath(lines[0])
      case Some(p) => Grouped([], [Section(lines[0], p, g.pre)] + g.sections)
      case None => Grouped([lines[0]] + g.pre, g.sections)
  }

  function ToFiles(sections: seq<Section>): seq<DiffFile> {
    if sections == [] then []
    else [DiffFile(sections[0].path, Join(sections[0].lines, NEWLINE))] + ToFiles(sections[1..])
  }

  function Assemble(g: Grouped): ParsedDiff {
    ParsedDiff(Join(g.pre, NEWLINE), ToFiles(g.sections))
  }

  function Parse(diff: string): ParsedDiff {
    if diff == "" then ParsedDiff("", []) else Assemble(Group(Split(diff, NEWLINE)))
  }

  function Part(f: DiffFile): string {
    if f.body != "" then HEADER + f.path + NEWLINE + f.body else HEADER + f.path
  }

  function Parts(files: seq<DiffFile>): seq<string> {
    if files == [] then [] else [Part(files[0])] + Parts(files[1..])
  }

  function Reassembled(parsed: ParsedDiff): string {
    Join((if parsed.preamble != "" then [parsed.preamble] else []) + Parts(parsed.files), NEWLINE)
  }

  // ----- the parser's loop -----

  /** Sections collected so far, continued by the grouping of the lines still to come. */
  function Continue(pre: seq<string>, done: seq<Section>, g: Grouped): Grouped {
    if done == [] then Grouped(pre + g.pre, g.sections)
    else
      var last := done[|done| - 1];
      Grouped(pre, done[..|done| - 1] + [last.(lines := last.lines + g.pre)] + g.sections)
  }

  /** The sections with `line` added to the last one's lines. */
  function AddLine(done: seq<Section>, line: string): seq<Section>
    requires done != []
  {
    var last := done[|done| - 1];
    done[..|done| - 1] + [last.(lines := last.lines + [line])]
  }

  lemma ContinueHeader(pre: seq<string>, done: seq<Section>, header: string, p: string, g: Grouped)
    ensures Continue(pre, done, Grouped([], [Section(header, p, g.pre)] + g.sections))
            == Continue(pre, done + [Section(header, p, [])], g)
  {
    var newest, filled := Section(header, p, []), Section(header, p, g.pre);
    ContinueOpened(pre, done, newest, g);
    assert [] + g.pre == g.pre;
    assert newest.(lines := newest.lines + g.pre) == filled;
    ContinueClosed(pre, done, [filled] + g.sections);
    assert done + ([filled] + g.sections) == done + [filled] + g.sections;
  }

  lemma ContinueOpened(pre: seq<string>, done: seq<Section>, s: Section, g: Grouped)
    ensures Continue(pre, done + [s], g) == Grouped(pre, done + [s.(lines := s.lines + g.pre)] + g.sections)
  {
    assert (done + [s])[..|done|] == done;
  }

  lemma ContinueClosed(pre: seq<string>, done: seq<Section>, more: seq<Section>)
    ensures Continue(pre, done, Grouped([], more)) == Grouped(pre, done + more)
  {
    if done == [] {
      assert pre + [] == pre && [] + more == more;
    } else {
      var last := done[|done| - 1];
      assert last.lines + [] == last.lines;
      assert done[..|done| - 1] + [last] == done;
    }
  }

  lemma ContinueLine(pre: seq<string>, done: seq<Section>, line: string, g: Grouped)
    ensures var g' := g.(pre := [line] + g.pre);
            if done == [] then Continue(pre, done, g') == Continue(pre + [line], done, g)
            else Continue(pre, done, g') == Continue(pre, AddLine(done, line), g)
  {
    if done == [] {
      assert pre + ([line] + g.pre) == (pre + [line]) + g.pre;
    } else {
      var last := done[|done| - 1];
      assert last.lines + ([line] + g.pre) == (last.lines + [line]) + g.pre;
    }
  }

  method ParseDiffByFile(diff: string) returns (parsed: ParsedDiff)
    ensures parsed == Parse(diff)
  {
    if diff == "" { return ParsedDiff("", []); }
    var lines := Split(diff, NEWLINE);
    var preambleLines: seq<string>, sections: seq<Section> := [], [];
    var i := 0;
    assert lines[0..] == lines;
    while i < |lines|
      invariant 0 <= i <= |lines|
      invariant Continue(preambleLines, sections, Group(lines[i..])) == Group(lines)
    {
      var line := lines[i];
      ghost var g := Group(lines[i + 1..]);
      assert lines[i..][1..] == lines[i + 1..];
      match HeaderPath(line) {
        case Some(p) =>
          ContinueHeader(preambleLines, sections, line, p, g);
          sections := sections + [Section(line, p, [])];
        case None =>
          ContinueLine(preambleLines, sections, line, g);
          if sections == [] {
            preambleLines := preambleLines + [line];
          } else {
            sections := AddLine(sections, line);
          }
      }
      i := i + 1;
    }
    ContinueClosed(preambleLines, sections, []);
    assert sections + [] == sections;
    var files := CollectFiles(sections);
    parsed := ParsedDiff(Join(preambleLines, NEWLINE), files);
  }

  method CollectFiles(sections: seq<Section>) returns (files: seq<DiffFile>)
    ensures files == ToFiles(sections)
  {
    files := [];
    var i := |sections|;
    while i > 0
      invariant 0 <= i <= |sections|
      invariant files == ToFiles(sections[i..])
    {
      i := i - 1;
      assert sections[i..][1..] == sections[i + 1..];
      files := [DiffFile(sections[i].path, Join(sections[i].lines, NEWLINE))] + files;
    }
    assert sections[0..] == sections;
  }

  method ReassembleDiff(parsed: ParsedDiff) returns (text: string)
    ensures text == Reassembled(parsed)
  {
    var parts := [];
    if parsed.preamble != "" { parts := [parsed.preamble]; }
    ghost var all := parts + Parts(parsed.files);
    assert parsed.files[0..] == parsed.files;
    var i := 0;
    while i < |parsed.files|
      invariant 0 <= i <= |parsed.files|
      invariant parts + Parts(parsed.files[i..]) == all
    {
      assert parsed.files[i..][1..] == parsed.files[i + 1..];
      parts := parts + [Part(parsed.files[i])];
      i := i + 1;
    }
    assert parts == all;
    text := Join(parts, NEWLINE);
  }

  // ----- the lines behind a parsed payload -----

  /** The lines of a text that is written only when it is not empty. */
  function TextLines(t: string): seq<string> {
    if t == "" then [] else Split(t, NEWLINE)
  }

  function FileLines(files: seq<DiffFile>): seq<string> {
    if files == [] then []
    else [HEADER + files[0].path] + TextLines(files[0].body) + FileLines(files[1..])
  }

  function CanonicalLines(parsed: ParsedDiff): seq<string> {
    TextLines(parsed.preamble) + FileLines(parsed.files)
  }

  predicate WellFormedFile(f: DiffFile) {
    ValidPath(f.path) && NoHeaders(TextLines(f.body))
  }

  predicate WellFormed(parsed: ParsedDiff) {
    NoHeaders(TextLines(parsed.preamble)) && forall k | 0 <= k < |parsed.files| :: WellFormedFile(parsed.files[k])
  }

  lemma {:induction false} PartsAreLines(files: seq<DiffFile>)
    ensures Join(Parts(files), NEWLINE) == Join(FileLines(files), NEWLINE)
    ensures Parts(files) == [] <==> FileLines(files) == []
  {
    if files != [] {
      var f := files[0];
      var head, tail := [HEADER + f.path] + TextLines(f.body), FileLines(files[1..]);
      PartsAreLines(files[1..]);
      PartIsLines(f);
      if tail == [] {
        assert Parts(files[1..]) == [];
        assert head + tail == head;
      } else {
        JoinAppend(head, tail, NEWLINE);
        JoinCons(Part(f), Parts(files[1..]), NEWLINE);
      }
    }
  }

  lemma PartIsLines(f: DiffFile)
    ensures Part(f) == Join([HEADER + f.path] + TextLines(f.body), NEWLINE)
  {
    if f.body == "" {
      assert [HEADER + f.path] + [] == [HEADER + f.path];
    } else {
      SplitLines(f.body);
      JoinCons(HEADER + f.path, Split(f.body, NEWLINE), NEWLINE);
    }
  }

  lemma ReassembledLines(parsed: ParsedDiff)
    ensures Reassembled(parsed) == Join(CanonicalLines(parsed), NEWLINE)
  {
    var files := parsed.files;
    PartsAreLines(files);
    if parsed.preamble == "" {
      assert [] + Parts(files) == Parts(files);
      assert [] + FileLines(files) == FileLines(files);
    } else {
      SplitLines(parsed.preamble);
      if FileLines(files) == [] {
        assert [parsed.preamble] + [] == [parsed.preamble];
        assert TextLines(parsed.preamble) + [] == TextLines(parsed.preamble);
      } else {
        JoinCons(parsed.preamble, Parts(files), NEWLINE);
        JoinAppend(TextLines(parsed.preamble), FileLines(files), NEWLINE);
      }
    }
  }

  // ----- grouping -----

  lemma {:induction false} GroupPlain(lines: seq<string>, rest: seq<string>)
    requires NoHeaders(lines)
    ensures Group(lines + rest) == Group(rest).(pre := lines + Group(rest).pre)
  {
    if lines == [] {
      assert [] + rest == rest;
    } else {
      GroupPlain(lines[1..], rest);
      assert (lines + rest)[1..] == lines[1..] + rest;
    }
  }

  lemma GroupHeaded(h: string, p: string, body: seq<string>, rest: seq<string>)
    requires HeaderPath(h) == Some(p) && NoHeaders(body) && Group(rest).pre == []
    ensures Group([h] + body + rest) == Grouped([], [Section(h, p, body)] + Group(rest).sections)
  {
    GroupPlain(body, rest);
    assert body + [] == body;
    assert [h] + body + rest == [h] + (body + rest);
    assert ([h] + (body + rest))[1..] == body + rest;
  }

  lemma HeaderOf(p: string)
    requires ValidPath(p)
    ensures HeaderPath(HEADER + p) == Some(p)
  {
    var line := HEADER + p;
    assert line[|line| - 1] == p[|p| - 1] && !IsLineTerminator(p[|p| - 1]);
    assert line[4..] == p;
  }

  function CanonicalSections(files: seq<DiffFile>): seq<Section> {
    if files == [] then []
    else [Section(HEADER + files[0].path, files[0].path, TextLines(files[0].body))] + CanonicalSections(files[1..])
  }

  lemma {:induction false} GroupFileLines(files: seq<DiffFile>)
    requires forall k | 0 <= k < |files| :: WellFormedFile(files[k])
    ensures Group(FileLines(files)) == Grouped([], CanonicalSections(files))
    ensures ToFiles(CanonicalSections(files)) == files
  {
    if files != [] {
      var f := files[0];
      GroupFileLines(files[1..]);
      HeaderOf(f.path);
      GroupHeaded(HEADER + f.path, f.path, TextLines(f.body), FileLines(files[1..]));
      JoinTextLines(f.body);
      assert CanonicalSections(files)[1..] == CanonicalSections(files[1..]);
    }
  }

  lemma JoinTextLines(t: string)
    ensures Join(TextLines(t), NEWLINE) == t
  {
    if t != "" { SplitLines(t); }
  }

  lemma {:induction false} FileLinesAreLines(files: seq<DiffFile>)
    requires forall k | 0 <= k < |files| :: '\n' !in files[k].path
    ensures forall k | 0 <= k < |FileLines(files)| :: '\n' !in FileLines(files)[k]
  {
    if files != [] {
      FileLinesAreLines(files[1..]);
      SplitLines(files[0].body);
    }
  }

  /** Printing a well-formed parsed payload and parsing the text gives it back. */
  lemma ParseOfReassembled(parsed: ParsedDiff)
    requires WellFormed(parsed)
    ensures Parse(Reassembled(parsed)) == parsed
  {
    var lines := CanonicalLines(parsed);
    ReassembledLines(parsed);
    JoinTextLines(parsed.preamble);
    GroupFileLines(parsed.files);
    GroupPlain(TextLines(parsed.preamble), FileLines(parsed.files));
    assert TextLines(parsed.preamble) + [] == TextLines(parsed.preamble);
    assert Assemble(Group(lines)) == parsed;
    FileLinesAreLines(parsed.files);
    SplitLines(parsed.preamble);
    if lines != [] {
      SplitOfJoin(lines);
      if Reassembled(parsed) == "" {
        SplitOneLine("");
        assert lines == [""];
        NoEmptyCanonical(parsed);
      }
    }
  }

  lemma NoEmptyCanonical(parsed: ParsedDiff)
    ensures CanonicalLines(parsed) != [""]
  {
    if parsed.preamble != "" {
      var t := TextLines(parsed.preamble);
      SplitLines(parsed.preamble);
      assert t[0] == (t + FileLines(parsed.files))[0];
      assert |t| == 1 ==> t == [t[0]];
    } else if parsed.files != [] {
      assert CanonicalLines(parsed)[0] == HEADER + parsed.files[0].path;
    }
  }

  // ----- what the parser produces -----

  predicate GoodSection(s: Section) {
    HeaderPath(s.header) == Some(s.path) && LinesOnly(s.lines) && NoHeaders(s.lines)
  }

  predicate LinesOnly(lines: seq<string>) {
    forall k | 0 <= k < |lines| :: '\n' !in lines[k]
  }

  lemma {:induction false} GroupIsGood(lines: seq<string>)
    requires LinesOnly(lines)
    ensures var g := Group(lines);
            LinesOnly(g.pre) && NoHeaders(g.pre) && forall k | 0 <= k < |g.sections| :: GoodSection(g.sections[k])
  {
    if lines != [] { GroupIsGood(lines[1..]); }
  }

  lemma TextLinesOfJoin(lines: seq<string>)
    requires LinesOnly(lines)
    ensures TextLines(Join(lines, NEWLINE)) == if lines == [""] then [] else lines
  {
    if lines != [] {
      SplitOfJoin(lines);
      if Join(lines, NEWLINE) == "" { SplitOneLine(""); }
    }
  }

  lemma {:induction false} ToFilesWellFormed(sections: seq<Section>)
    requires forall k | 0 <= k < |sections| :: GoodSection(sections[k])
    ensures |ToFiles(sections)| == |sections|
    ensures forall k | 0 <= k < |sections| :: WellFormedFile(ToFiles(sections)[k])
  {
    if sections != [] {
      ToFilesWellFormed(sections[1..]);
      TextLinesOfJoin(sections[0].lines);
    }
  }

  lemma ParseWellFormed(diff: string)
    ensures WellFormed(Parse(diff))
  {
    if diff != "" {
      SplitLines(diff);
      var g := Group(Split(diff, NEWLINE));
      GroupIsGood(Split(diff, NEWLINE));
      TextLinesOfJoin(g.pre);
      ToFilesWellFormed(g.sections);
    }
  }

  /** Parsing, printing and parsing again changes nothing, for every text. */
  lemma ParseReassembleParse(diff: string)
    ensures Parse(Reassembled(Parse(diff))) == Parse(diff)
  {
    ParseWellFormed(diff);
    ParseOfReassembled(Parse(diff));
  }

  // ----- exactly which texts survive -----

  predicate LosslessSection(s: Section) {
    !EndsInCr(s.header) && s.lines != [""]
  }

  /** No header line ends in CR, no file has exactly one empty line, and the text before a first
      file is not exactly one empty line. */
  predicate Lossless(diff: string) {
    var g := Group(Split(diff, NEWLINE));
    && AllLossless(g.sections)
    && (g.pre == [""] ==> g.sections == [])
  }

  function Weight(lines: seq<string>): nat {
    if lines == [] then 0 else |lines[0]| + 1 + Weight(lines[1..])
  }

  lemma {:induction false} WeightConcat(a: seq<string>, b: seq<string>)
    ensures Weight(a + b) == Weight(a) + Weight(b)
  {
    if a == [] {
      assert a + b == b;
    } else {
      WeightConcat(a[1..], b);
      assert (a + b)[1..] == a[1..] + b;
    }
  }

  lemma {:induction false} JoinWeight(lines: seq<string>)
    requires lines != []
    ensures |Join(lines, NEWLINE)| + 1 == Weight(lines)
  {
    if |lines| > 1 { JoinWeight(lines[1..]); }
  }

  function SectionLines(sections: seq<Section>): seq<string> {
    if sections == [] then []
    else [sections[0].header] + sections[0].lines + SectionLines(sections[1..])
  }

  lemma {:induction false} GroupKeepsLines(lines: seq<string>)
    ensures lines == Group(lines).pre + SectionLines(Group(lines).sections)
  {
    if lines != [] { GroupKeepsLines(lines[1..]); }
  }

  function TidyLines(lines: seq<string>): seq<string> {
    if lines == [""] then [] else lines
  }

  /** The lines a section is printed as. */
  function PrintedLines(s: Section): seq<string> {
    [HEADER + s.path] + TidyLines(s.lines)
  }

  lemma SectionWeight(s: Section)
    requires GoodSection(s)
    ensures Weight(PrintedLines(s)) <= Weight([s.header] + s.lines)
    ensures Weight(PrintedLines(s)) == Weight([s.header] + s.lines) <==> LosslessSection(s)
    ensures LosslessSection(s) ==> PrintedLines(s) == [s.header] + s.lines
  {
    HeaderLength(s);
    assert PrintedLines(s)[1..] == TidyLines(s.lines);
    assert ([s.header] + s.lines)[1..] == s.lines;
  }

  predicate AllLossless(sections: seq<Section>) {
    forall k | 0 <= k < |sections| :: LosslessSection(sections[k])
  }

  lemma {:induction false} SectionsWeight(sections: seq<Section>)
    requires forall k | 0 <= k < |sections| :: GoodSection(sections[k])
    ensures var kept := FileLines(ToFiles(sections));
            && Weight(kept) <= Weight(SectionLines(sections))
            && (Weight(kept) == Weight(SectionLines(sections)) <==> AllLossless(sections))
            && (AllLossless(sections) ==> kept == SectionLines(sections))
  {
    if sections != [] {
      var s, rest := sections[0], sections[1..];
      SectionsWeight(rest);
      SectionWeight(s);
      TextLinesOfJoin(s.lines);
      assert ToFiles(sections)[1..] == ToFiles(rest);
      assert FileLines(ToFiles(sections)) == PrintedLines(s) + FileLines(ToFiles(rest));
      WeightConcat(PrintedLines(s), FileLines(ToFiles(rest)));
      WeightConcat([s.header] + s.lines, SectionLines(rest));
      LosslessStep(sections);
    }
  }

  lemma LosslessStep(sections: seq<Section>)
    requires sections != []
    ensures AllLossless(sections) <==> LosslessSection(sections[0]) && AllLossless(sections[1..])
  {
    assert forall k | 0 < k < |sections| :: sections[k] == sections[1..][k - 1];
  }

  lemma HeaderLength(s: Section)
    requires GoodSection(s)
    ensures |s.header| == |HEADER + s.path| + if EndsInCr(s.header) then 1 else 0
    ensures !EndsInCr(s.header) ==> s.header == HEADER + s.path
  {
    var n := if EndsInCr(s.header) then s.header[..|s.header| - 1] else s.header;
    assert n == HEADER + n[4..];
  }

  /** Printing a parsed text gives the text back exactly when it has none of the lossy shapes. */
  lemma RoundTripExactly(diff: string)
    ensures Reassembled(Parse(diff)) == diff <==> Lossless(diff)
  {
    var lines := Split(diff, NEWLINE);
    var g := Group(lines);
    SplitLines(diff);
    GroupIsGood(lines);
    GroupKeepsLines(lines);
    if diff == "" {
      EmptyIsLossless();
    } else {
      var kept := CanonicalLines(Parse(diff));
      ReassembledLines(Parse(diff));
      TextLinesOfJoin(g.pre);
      SectionsWeight(g.sections);
      assert kept == TidyLines(g.pre) + FileLines(ToFiles(g.sections));
      WeightConcat(TidyLines(g.pre), FileLines(ToFiles(g.sections)));
      WeightConcat(g.pre, SectionLines(g.sections));
      JoinWeight(lines);
      if Lossless(diff) {
        assert kept == lines;
      }
      if Reassembled(Parse(diff)) == diff {
        assert kept != [];
        JoinWeight(kept);
      }
    }
  }

  lemma EmptyIsLossless()
    ensures Lossless("")
  {
    SplitOneLine("");
    assert HeaderPath("") == None;
    assert Group([""]) == Grouped([""], []);
  }

  // ----- the payload the entry points build -----

  function PayloadParts(files: seq<DiffFile>): seq<string> {
    if files == [] then [] else [HEADER + files[0].path + NEWLINE + files[0].body] + PayloadParts(files[1..])
  }

  function Payload(files: seq<DiffFile>): string {
    Join(PayloadParts(files), NEWLINE)
  }

  function PayloadLines(files: seq<DiffFile>): seq<string> {
    if files == [] then []
    else [HEADER + files[0].path] + Split(files[0].body, NEWLINE) + PayloadLines(files[1..])
  }

  lemma {:induction false} PayloadIsLines(files: seq<DiffFile>)
    ensures Payload(files) == Join(PayloadLines(files), NEWLINE)
    ensures PayloadParts(files) == [] <==> PayloadLines(files) == []
  {
    if files != [] {
      var f := files[0];
      var body := Split(f.body, NEWLINE);
      var head, tail := [HEADER + f.path] + body, PayloadLines(files[1..]);
      PayloadIsLines(files[1..]);
      SplitLines(f.body);
      JoinCons(HEADER + f.path, body, NEWLINE);
      if tail == [] {
        assert PayloadParts(files[1..]) == [];
        assert head + tail == head;
      } else {
        JoinAppend(head, tail, NEWLINE);
        JoinCons(HEADER + f.path + NEWLINE + f.body, PayloadParts(files[1..]), NEWLINE);
      }
    }
  }

  lemma {:induction false} PayloadLinesOnly(files: seq<DiffFile>)
    requires forall k | 0 <= k < |files| :: WellFormedFile(files[k])
    ensures LinesOnly(PayloadLines(files))
  {
    if files != [] {
      PayloadLinesOnly(files[1..]);
      SplitLines(files[0].body);
    }
  }

  lemma {:induction false} GroupPayload(files: seq<DiffFile>)
    requires forall k | 0 <= k < |files| :: WellFormedFile(files[k])
    ensures Group(PayloadLines(files)).pre == [] && ToFiles(Group(PayloadLines(files)).sections) == files
  {
    if files != [] {
      var f := files[0];
      var body := Split(f.body, NEWLINE);
      GroupPayload(files[1..]);
      SplitLines(f.body);
      assert NoHeaders(body) by { if f.body == "" { SplitOneLine(""); } }
      HeaderOf(f.path);
      GroupHeaded(HEADER + f.path, f.path, body, PayloadLines(files[1..]));
    }
  }

  /** The payload parses back to the very files it was built from exactly when every path is a
      valid one-line path and no patch line looks like a header. */
  lemma PayloadRecoveredExactly(files: seq<DiffFile>)
    ensures Parse(Payload(files)) == ParsedDiff("", files) <==> forall k | 0 <= k < |files| :: WellFormedFile(files[k])
  {
    ParseWellFormed(Payload(files));
    if forall k | 0 <= k < |files| :: WellFormedFile(files[k]) {
      PayloadIsLines(files);
      if files != [] {
        GroupPayload(files);
        PayloadLinesOnly(files);
        SplitOfJoin(PayloadLines(files));
        JoinWeight(PayloadLines(files));
      }
    }
  }
}
