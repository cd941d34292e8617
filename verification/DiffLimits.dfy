/** Where the diff reader does not meet its purpose, with the exact condition. */
module DiffLimits {
  import opened Text
  import opened UnifiedDiff
  import opened DiffAnyInput
  import opened DiffTrim
  import opened DiffLookup
  import opened DiffNames
  import opened DiffRoundTrip

  /** A patch git printed with bare paths is read as one section exactly when the paths
      are told apart; otherwise its hunks land in a second section. */
  lemma OneSectionIffPathsTold(p: Patch, u: string -> string)
    requires p.git && WellFormed(p, u) && BothBare(p) && p.hunks != [] && AllPlain(PatchLines(p))
    ensures var told := PathsTold(p.oldPath, p.newPath, p.gone);
            && (Sections(Print([p]), u) == Label([Expected(p)], map[]) <==> told)
            && (!told ==> |Sections(Print([p]), u)| >= 2)
  {
    hide Scan, Label, PatchLines, LinesOf, GitReads, Expected, WellFormed, Unlines, PathsTold, BothBare;
    OneDiff(p);
    if PathsTold(p.oldPath, p.newPath, p.gone) {
      ToldIsPrintable(p, u);
      RoundTrip([p], u);
    } else {
      LinesOfUnlines(PatchLines(p));
      TwoSections(p, u);
    }
  }

  lemma ToldIsPrintable(p: Patch, u: string -> string)
    requires WellFormed(p, u) && BothBare(p) && PathsTold(p.oldPath, p.newPath, p.gone)
    ensures PrintableAll([p], u)
  {
    hide WellFormed, BothBare, PathsTold, NamesApart;
  }

  lemma OneDiff(p: Patch)
    ensures DiffLines([p]) == PatchLines(p) && ExpectedAll([p]) == [Expected(p)]
  {
    hide PatchLines, Expected;
    assert DiffLines([p]) == PatchLines(p) + DiffLines([]) == PatchLines(p);
    assert ExpectedAll([p]) == [Expected(p)];
  }

  lemma TwoSections(p: Patch, u: string -> string)
    requires p.git && WellFormed(p, u) && BothBare(p) && p.hunks != []
    requires !PathsTold(p.oldPath, p.newPath, p.gone)
    ensures |Scan(Start, PatchLines(p), u).files| >= 2
  {
    OtherFileRead(p, u);
    hide Scan, GitPath, GitLine, OldLine, NewLine, HunkLines, HeaderPath, PathsTold, BothBare;
    var rest := HunkLines(p.hunks) + p.gap;
    var r := ReadGitLines(Start, p, NameLines(p) + rest, u);
    NamesRead(p, u);
    NameLinesLead(p);
    OpensSecond(r, p, rest, u);
  }

  lemma OtherFileRead(p: Patch, u: string -> string)
    requires BothBare(p) && !PathsTold(p.oldPath, p.newPath, p.gone)
    ensures var path := GitPath(GitLine(p), u); path != "" && path != FileOf(p)
  {
    hide GitPath, GitName, PathsTold;
    GitLineNames(p, u);
    ReadsIffPathsTold(p.oldPath, p.newPath, p.gone, u);
  }

  lemma OpensSecond(r: Reader, p: Patch, rest: seq<string>, u: string -> string)
    requires p.hunks != [] && p.git
    requires var path := GitPath(GitLine(p), u); path != "" && path != FileOf(p)
    requires OpenAt(r, [], GitSection(p, GitPath(GitLine(p), u)))
    requires |OldLine(p)| >= 4 && |NewLine(p)| >= 4 && FileOf(p) != ""
    requires MINUS <= OldLine(p) && !(GIT <= OldLine(p)) && PLUS <= NewLine(p)
    requires HeaderPath(NewLine(p), u) == if p.gone then "" else p.newPath
    requires p.gone ==> HeaderPath(OldLine(p), u) == p.oldPath
    ensures |Scan(r, NameLines(p) + rest, u).files| >= 2
  {
    hide GitPath, GitLine, OldLine, NewLine, HunkLines, HeaderPath;
    var lines := NameLines(p) + rest;
    assert lines[0] == OldLine(p) && lines[1] == NewLine(p);
    var to := StepPair(r, OldLine(p), NewLine(p), u);
    assert Step(r, lines, u) == Move(to, 2);
    assert |to.files| == 2;
    ScanLeavesEarlier(to, lines[2..], u);
  }

  /** Any changed file renamed from `x b/y` to `z`: the reader takes `y b/z` for its name, and
      the hunks land in a section of their own. */
  lemma RenameIsSplitInTwo(p: Patch, u: string -> string)
    requires p.git && WellFormed(p, u) && p.hunks != [] && AllPlain(PatchLines(p))
    requires p.oldPath == "x b/y" && p.newPath == "z" && p.oldForm == p.newForm == Bare && !p.gone
    ensures |Sections(Print([p]), u)| >= 2
  {
    BlankThenSide(p.oldPath, p.newPath);
    hide PatchLines, PathsTold, Sections, Print, WellFormed, Label, Expected;
    OneSectionIffPathsTold(p, u);
  }

  lemma BlankThenSide(a: string, b: string)
    requires a == "x b/y" && b == "z"
    ensures NoQuote(a) && NoQuote(b) && !PathsTold(a, b, false)
  {
    hide OneNameTwice;
    assert a[1..] == " b/y";
    assert SecondIn(a, 1);
  }

  /** A patch of one hunk that adds one line. */
  lemma OneInsertPatch(p: Patch, text: string)
    requires |p.hunks| == 1 && p.hunks[0].edits == [Insert(text)] && '\n' !in text
    requires p.oldForm == p.newForm == Bare && '\n' !in p.oldPath && '\n' !in p.newPath
    requires '\n' !in p.oldStamp && '\n' !in p.newStamp
    requires '\n' !in p.hunks[0].heading && AllPlain(p.extra) && p.gap == []
    ensures PatchLines(p) == GitLines(p) + [OldLine(p), NewLine(p), HunkLine(p.hunks[0]), "+" + text]
    ensures AllPlain(PatchLines(p))
  {
    PlainLines(p);
    OneInsert(p.hunks[0], text);
    hide HunkLine, GitLine, OldLine, NewLine, HunkLines;
    assert p.hunks == [p.hunks[0]];
    assert HunkLines(p.hunks) + p.gap == HunkLines(p.hunks);
  }

  lemma OneInsert(h: Hunk, text: string)
    requires h.edits == [Insert(text)] && '\n' !in text
    ensures HunkLines([h]) == [HunkLine(h), "+" + text]
  {
    OneHunk(h);
    hide HunkLine, HunkLines;
    assert EditLines(h.edits) == [EditLine(h.edits[0])] + [];
  }

  lemma PlainLines(p: Patch)
    requires p.oldForm == p.newForm == Bare && '\n' !in p.oldPath && '\n' !in p.newPath
    requires '\n' !in p.oldStamp && '\n' !in p.newStamp
    requires p.hunks != [] && '\n' !in p.hunks[0].heading
    ensures '\n' !in GitLine(p) && '\n' !in OldLine(p) && '\n' !in NewLine(p) && '\n' !in HunkLine(p.hunks[0])
  {
    hide Decimal, OldSide, NewSide;
  }

  /** A file whose old path alone is longer than what is sent of it: the cut keeps nothing
      that can be read, and a quote is looked up in lines that were never sent. */
  lemma LongPathIsLookedUpWhole(p: Patch, text: string, u: string -> string)
    requires !p.git && WellFormed(p, u) && p.oldForm == p.newForm == Bare
    requires !p.created && !p.gone && |p.oldPath| >= FILE_CHARS
    requires |p.hunks| == 1 && p.hunks[0].edits == [Insert(text)] && '\n' !in text
    requires '\n' !in p.hunks[0].heading && p.extra == [] && p.gap == [] && '\\' !in p.newPath
    ensures |Sections(Print([p]), u)| == 1
    ensures var f := Sections(Print([p]), u)[0];
            var t := TrimOf(f, u);
            && f.bad == Fine && f.added == [Row(p.hunks[0].newStart, text)]
            && |TextOf(f)| > FILE_CHARS && !HeaderSurvives(f) && t.seen == f
            && '\n' !in t.sent
  {
    hide Sections, Print, Expected, OldLine, HeaderSurvives, TrimOf, TextOf, WellFormed;
    LongHeader(p);
    LongPathReads(p, text, u);
    LongFirstLine(Print([p]), Expected(p), u);
  }

  lemma LongPathReads(p: Patch, text: string, u: string -> string)
    requires !p.git && WellFormed(p, u) && p.oldForm == p.newForm == Bare && !p.created && !p.gone
    requires |p.hunks| == 1 && p.hunks[0].edits == [Insert(text)] && '\n' !in text
    requires '\n' !in p.hunks[0].heading && p.extra == [] && p.gap == [] && '\\' !in p.newPath
    ensures Sections(Print([p]), u) == [Expected(p)]
    ensures var f := Expected(p);
            f.bad == Fine && f.added == [Row(p.hunks[0].newStart, text)] && |f.lines| > 1 && f.lines[0] == OldLine(p) && '\n' !in OldLine(p)
  {
    OneInsertPatch(p, text);
    OneRow(p, text);
    hide PatchLines, HunkLine, OldLine, NewLine, Carried, PlainStamp, AllKept, AllInserted, AllDeleted;
    OneDiff(p);
    RoundTrip([p], u);
    DistinctNamesStay([Expected(p)], map[]);
    assert PatchLines(p)[0] == OldLine(p);
  }

  /** A section whose first line alone is longer than what is sent of it. */
  lemma LongFirstLine(diff: string, f: Section, u: string -> string)
    requires Sections(diff, u) == [f] && |f.lines| > 1
    requires |f.lines[0]| > FILE_CHARS && !(GIT <= f.lines[0]) && '\n' !in f.lines[0]
    ensures |TextOf(f)| > FILE_CHARS && !HeaderSurvives(f) && TrimOf(f, u).seen == f && '\n' !in TrimOf(f, u).sent
  {
    hide Sections, Scan, SaysLess, RowsAreLines;
    SectionLines(diff, 0, u);
    JoinOne(f.lines);
    BreakAt(f.lines, 1);
    LookedUpInWhatWasSent(diff, 0, u);
    var j := CutIsLines(f.lines, FILE_CHARS);
  }

  lemma LongHeader(p: Patch)
    requires |p.oldPath| >= FILE_CHARS && p.oldForm == Bare && !p.created
    ensures |OldLine(p)| > FILE_CHARS && !(GIT <= OldLine(p))
  {
    NameLinesLead(p);
  }

  lemma OneRow(p: Patch, text: string)
    requires |p.hunks| == 1 && p.hunks[0].edits == [Insert(text)]
    ensures AllInserted(p.hunks) == [Row(p.hunks[0].newStart, text)]
  {
    OneHunk(p.hunks[0]);
    assert p.hunks == [p.hunks[0]];
  }
}
