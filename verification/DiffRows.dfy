/** Exactly which lines of a section are its rows, on any text, when it is not marked bad;
    and that a line that belongs nowhere has it marked. */
module DiffRows {
  import opened Text
  import opened UnifiedDiff
  import opened DiffAnyInput
  import opened Wrappers

  // ---- what the lines say ------------------------------------------------

  predicate IsHead(line: string) {
    ReadHunkHead(line).Some?
  }

  predicate HasHead(lines: seq<string>) {
    exists k :: 0 <= k < |lines| && IsHead(lines[k])
  }

  predicate Leads(line: string, c: char) {
    line != "" && line[0] == c
  }

  /** What the lines after the first hunk header say that begin with `c`. */
  function Marked(lines: seq<string>, c: char): seq<string> {
    if lines == [] then []
    else
      var less, last := lines[..|lines| - 1], lines[|lines| - 1];
      Marked(less, c) + if HasHead(less) && Leads(last, c) then [Tail(last)] else []
  }

  function Texts(rows: seq<Row>): (texts: seq<string>)
    ensures |texts| == |rows| && forall k :: 0 <= k < |rows| ==> texts[k] == rows[k].text
  {
    seq(|rows|, k requires 0 <= k < |rows| => rows[k].text)
  }

  /** The texts that are not blank. */
  function Solid(texts: seq<string>): seq<string> {
    if texts == [] then []
    else
      var less, last := texts[..|texts| - 1], texts[|texts| - 1];
      Solid(less) + if IsBlank(last) then [] else [last]
  }

  /** A line that may stand after a hunk header. */
  predicate Belongs(line: string) {
    IsBlank(line) || IsHead(line) || Leads(line, '\\') || Leads(line, '+') || Leads(line, '-') || Leads(line, ' ')
  }

  ghost predicate AllBelong(lines: seq<string>) {
    forall k :: 0 <= k < |lines| && HasHead(lines[..k]) ==> Belongs(lines[k])
  }

  /** The rows are the lines after the first hunk header, each kind in order and complete; only
      of blank lines some may be rows and others not. */
  ghost predicate RowsExact(f: Section) {
    && Texts(f.added) == Marked(f.lines, '+')
    && f.removed == Marked(f.lines, '-')
    && Solid(Texts(f.context)) == Solid(Marked(f.lines, ' '))
    && AllBelong(f.lines)
  }

  // ---- one line more -----------------------------------------------------

  lemma HasHeadMore(lines: seq<string>, line: string)
    ensures HasHead(lines + [line]) <==> HasHead(lines) || IsHead(line)
  {
    hide IsHead;
    var more := lines + [line];
    if HasHead(lines) {
      var k :| 0 <= k < |lines| && IsHead(lines[k]);
      assert IsHead(more[k]);
    }
    if IsHead(line) {
      assert IsHead(more[|lines|]);
    }
  }

  lemma MarkedMore(lines: seq<string>, line: string, c: char)
    ensures Marked(lines + [line], c) == Marked(lines, c) + if HasHead(lines) && Leads(line, c) then [Tail(line)] else []
  {
    hide HasHead;
    assert (lines + [line])[..|lines|] == lines;
  }

  lemma SolidMore(texts: seq<string>, text: string)
    ensures Solid(texts + [text]) == Solid(texts) + if IsBlank(text) then [] else [text]
  {
    hide IsBlank;
    assert (texts + [text])[..|texts|] == texts;
  }

  lemma TextsMore(rows: seq<Row>, row: Row)
    ensures Texts(rows + [row]) == Texts(rows) + [row.text]
  {
  }

  lemma BelongMore(lines: seq<string>, line: string)
    requires AllBelong(lines) && (HasHead(lines) ==> Belongs(line))
    ensures AllBelong(lines + [line])
  {
    hide HasHead, Belongs;
    var more := lines + [line];
    forall k | 0 <= k < |more| && HasHead(more[..k]) ensures Belongs(more[k]) {
      assert more[..k] == if k < |lines| then lines[..k] else lines;
    }
  }

  lemma LeadsIs(line: string)
    ensures ("+" <= line <==> Leads(line, '+')) && ("-" <= line <==> Leads(line, '-'))
    ensures (" " <= line <==> Leads(line, ' ')) && ("\\" <= line <==> Leads(line, '\\'))
  {
  }

  lemma BlankTail(line: string)
    requires Leads(line, ' ')
    ensures IsBlank(Tail(line)) <==> IsBlank(line)
  {
    var t := Tail(line);
    if IsBlank(line) {
      forall k | 0 <= k < |t| ensures IsSpace(t[k]) {
        assert IsSpace(line[k + 1]);
      }
    } else {
      var k :| 0 <= k < |line| && !IsSpace(line[k]);
      assert t[k - 1] == line[k];
    }
  }

  lemma MarkIsNoBlank(line: string)
    requires Leads(line, '+') || Leads(line, '-') || Leads(line, '\\') || Leads(line, '@')
    ensures !IsBlank(line)
  {
    assert !IsSpace(line[0]);
  }

  lemma HeadLead(line: string)
    ensures IsHead(line) ==> Leads(line, '@')
  {
    if !Leads(line, '@') {
      RowIsNoHeader(line);
    }
  }

  // ---- the reader keeps it -----------------------------------------------

  /** What is kept of a section as it grows. */
  ghost predicate Exact(f: Section) {
    f.bad == Fine ==> RowsExact(f) && (f.hunks > 0 <==> HasHead(f.lines))
  }

  ghost predicate Kept(r: Reader) {
    && (forall k :: 0 <= k < |r.files| ==> Exact(r.files[k]))
    && (r.InHunk() ==> r.files != [] && (r.Cur().bad == Fine ==> r.Cur().hunks > 0))
  }

  /** `f` with one line more and what it adds. */
  lemma LineMore(f: Section, g: Section, line: string)
    requires f.bad == Fine && g.bad == Fine && Exact(f) && g.lines == f.lines + [line]
    requires g.hunks == f.hunks + if IsHead(line) then 1 else 0
    requires f.hunks > 0 ==> Belongs(line)
    requires Texts(g.added) == Texts(f.added) + if f.hunks > 0 && Leads(line, '+') then [Tail(line)] else []
    requires g.removed == f.removed + if f.hunks > 0 && Leads(line, '-') then [Tail(line)] else []
    requires Solid(Texts(g.context))
             == Solid(Texts(f.context)) + if f.hunks > 0 && Leads(line, ' ') && !IsBlank(Tail(line)) then [Tail(line)] else []
    ensures Exact(g)
  {
    hide IsHead, HasHead, Marked, Solid, Belongs, AllBelong, Leads;
    HasHeadMore(f.lines, line);
    MarkedMore(f.lines, line, '+');
    MarkedMore(f.lines, line, '-');
    MarkedMore(f.lines, line, ' ');
    SolidMore(Marked(f.lines, ' '), Tail(line));
    BelongMore(f.lines, line);
    assert Marked(f.lines, ' ') + [] == Marked(f.lines, ' ');
    assert Solid(Marked(f.lines, ' ')) + [] == Solid(Marked(f.lines, ' '));
  }

  /** Nothing added to the rows of one kind. */
  lemma NothingMore(f: Section)
    ensures Texts(f.added) + [] == Texts(f.added) && f.removed + [] == f.removed
    ensures Solid(Texts(f.context)) + [] == Solid(Texts(f.context))
  {
  }

  /** What a row of a hunk adds; a line that is none leaves the section bad. */
  lemma RowAdds(r: Reader, line: string)
    requires r.Valid() && r.InHunk() && StepInHunk(r, line).to.Cur().bad == Fine
    ensures var f, g := r.Cur(), StepInHunk(r, line).to.Cur();
            && f.bad == Fine && g.lines == f.lines + [line] && g.hunks == f.hunks
            && (line == "" || Leads(line, '+') || Leads(line, '-') || Leads(line, ' ') || Leads(line, '\\'))
            && g.added == f.added + (if Leads(line, '+') then [Row(r.newNo, Tail(line))] else [])
            && g.removed == f.removed + (if Leads(line, '-') then [Tail(line)] else [])
            && g.context == f.context + if Leads(line, ' ') || line == "" then [Row(r.newNo, Tail(line))] else []
  {
    LeadsIs(line);
    var f := r.Cur();
    assert f.added + [] == f.added && f.removed + [] == f.removed && f.context + [] == f.context;
  }

  lemma RowInHunk(r: Reader, line: string)
    requires r.Valid() && r.InHunk() && Kept(r)
    ensures var g := StepInHunk(r, line).to.Cur();
            Exact(g) && (g.bad == Fine ==> g.hunks > 0)
  {
    hide IsHead, HasHead, RowsExact, IsBlank, StepInHunk, Leads, Solid;
    HunkStepShape(r, line);
    var f, g := r.Cur(), StepInHunk(r, line).to.Cur();
    if g.bad == Fine {
      RowAdds(r, line);
      NothingMore(f);
      LeadIsOne(line);
      HeadLead(line);
      TextsMore(f.added, Row(r.newNo, Tail(line)));
      TextsMore(f.context, Row(r.newNo, Tail(line)));
      SolidMore(Texts(f.context), Tail(line));
      NothingIsBlank();
      assert f.added + [] == f.added && f.context + [] == f.context;
      LineMore(f, g, line);
    }
  }

  lemma LeadIsOne(line: string)
    ensures line == "" ==> Tail(line) == ""
    ensures forall c, d :: c != d ==> !(Leads(line, c) && Leads(line, d))
    ensures forall c :: Leads(line, c) ==> line != ""
  {
  }

  lemma NothingIsBlank()
    ensures IsBlank("")
  {
  }

  lemma PlainLine(r: Reader, line: string)
    requires r.files != [] && !r.InHunk() && Exact(r.Cur())
    ensures var to := StepPlainLine(r, line);
            Exact(to.Cur()) && (to.InHunk() && to.Cur().bad == Fine ==> to.Cur().hunks > 0)
  {
    hide HasHead, RowsExact, IsBlank, ReadHunkHead, Solid, Leads, Belongs;
    var f, g := r.Cur(), StepPlainLine(r, line).Cur();
    if g.bad == Fine {
      NothingMore(f);
      LeadsIs(line);
      HeadLead(line);
      PlainBelongs(f, line);
      PlainAdds(line);
      LineMore(f, g, line);
    }
  }

  /** A line outside a hunk that leaves its section good has nothing of a row. */
  lemma PlainAdds(line: string)
    ensures IsBlank(line) || IsHead(line) || Leads(line, '\\')
            ==> !Leads(line, '+') && !Leads(line, '-') && (Leads(line, ' ') ==> IsBlank(Tail(line)))
  {
    HeadLead(line);
    if Leads(line, ' ') {
      BlankTail(line);
    }
    if Leads(line, '+') || Leads(line, '-') {
      MarkIsNoBlank(line);
    }
  }

  lemma PlainBelongs(f: Section, line: string)
    requires ReadHunkHead(line).Some? || f.hunks == 0 || IsBlank(line) || Leads(line, '\\')
    ensures f.hunks > 0 ==> Belongs(line)
  {
  }

  lemma PairLines(f: Section, g: Section, minus: string, plus: string)
    requires Exact(f) && f.hunks == 0 && Leads(minus, '-') && Leads(plus, '+')
    requires g == f.(lines := f.lines + [minus, plus], named := g.named, file := g.file, deleted := g.deleted)
    ensures Exact(g)
  {
    hide HasHead, RowsExact, IsBlank, IsHead, Solid;
    if f.bad == Fine {
      HeadLead(minus);
      HeadLead(plus);
      NothingMore(f);
      var h := f.(lines := f.lines + [minus]);
      LineMore(f, h, minus);
      assert g.lines == h.lines + [plus];
      LineMore(h, g, plus);
    }
  }

  lemma NewExact(name: string, git: bool)
    ensures Exact(NewSection(name, git))
  {
  }

  lemma Pair(r: Reader, minus: string, plus: string, u: string -> string)
    requires |minus| >= 4 && |plus| >= 4 && minus[0] == '-' && plus[0] == '+' && Kept(r)
    ensures Exact(StepPair(r, minus, plus, u).Cur())
  {
    hide HeaderPath, Exact;
    NewExact("", false);
    var to := StepPair(r, minus, plus, u);
    var f := if |to.files| == |r.files| then r.Cur() else NewSection("", false);
    PairLines(f, to.Cur(), minus, plus);
  }

  lemma GitBegins(line: string, name: string)
    requires line != "" && line[0] != '@'
    ensures Exact(NewSection(name, true).(lines := [line]))
  {
    hide RowsExact, HasHead, IsHead, Solid;
    var f := NewSection(name, true);
    NewExact(name, true);
    HeadLead(line);
    NothingMore(f);
    assert [] + [line] == [line];
    LineMore(f, f.(lines := [line]), line);
  }

  /** All sections but the last are as they were. */
  lemma KeptStep(r: Reader, to: Reader, more: seq<string>)
    requires Kept(r) && (SameSection(r, to, more) || BegunSection(r, to, more)) && Exact(to.Cur())
    requires to.InHunk() && to.Cur().bad == Fine ==> to.Cur().hunks > 0
    ensures Kept(to)
  {
    hide Exact;
    forall k | 0 <= k < |to.files| ensures Exact(to.files[k]) {
      if k < |to.files| - 1 {
        assert to.files[k] == to.files[..|to.files| - 1][k];
        assert r.files[k] == if SameSection(r, to, more) then r.files[..|r.files| - 1][k] else to.files[..|r.files|][k];
      }
    }
  }

  lemma StepKeepsRows(r: Reader, lines: seq<string>, u: string -> string)
    requires r.Valid() && lines != [] && Kept(r)
    ensures Kept(Step(r, lines, u).to)
  {
    hide StepInHunk, StepPlainLine, StepPair, GitPath, Exact, SameSection, BegunSection;
    StepShape(r, lines, u);
    var m := Step(r, lines, u);
    if r.InHunk() {
      RowInHunk(r, lines[0]);
      KeptStep(r, m.to, lines[..m.used]);
    } else if GIT <= lines[0] {
      GitBegins(lines[0], GitPath(lines[0], u));
      KeptStep(r, m.to, lines[..m.used]);
    } else if IsPair(lines) {
      PairOutside(r, lines[0], lines[1], u);
      Pair(r, lines[0], lines[1], u);
      KeptStep(r, m.to, lines[..m.used]);
    } else if r.files != [] {
      PlainLine(r, lines[0]);
      KeptStep(r, m.to, lines[..m.used]);
    }
  }

  lemma PairOutside(r: Reader, minus: string, plus: string, u: string -> string)
    requires |minus| >= 4 && |plus| >= 4 && !r.InHunk()
    ensures !StepPair(r, minus, plus, u).InHunk()
  {
    hide HeaderPath;
  }

  lemma {:induction false} ScanKeepsRows(r: Reader, lines: seq<string>, u: string -> string)
    requires r.Valid() && Kept(r)
    ensures Kept(Scan(r, lines, u))
    decreases 2 * |lines| + if r.InHunk() then 1 else 0
  {
    hide Step, Kept;
    if lines != [] {
      StepKeepsRows(r, lines, u);
      var m := Step(r, lines, u);
      ScanKeepsRows(m.to, lines[m.used..], u);
    }
  }

  lemma StartKept()
    ensures Kept(Start)
  {
  }

  /** On any text: a section that is not marked bad has for rows exactly its lines after the first
      hunk header, of each kind all of them in their order, and no line that belongs nowhere. */
  lemma GoodSectionsAreTheirLines(diff: string, u: string -> string, k: nat)
    requires k < |Sections(diff, u)| && Sections(diff, u)[k].bad == Fine
    ensures RowsExact(Sections(diff, u)[k])
  {
    hide Scan, Label, LinesOf, RowsExact;
    StartKept();
    var end := Scan(Start, LinesOf(diff), u);
    ScanKeepsRows(Start, LinesOf(diff), u);
    LabelOnlyNames(Close(end), map[]);
    var f, g := Sections(diff, u)[k], Close(end)[k];
    assert OnlyNamed(g, f);
    assert Exact(end.files[k]);
    NamedAlike(end.files[k], f);
  }

  lemma NamedAlike(f: Section, g: Section)
    requires RowsExact(f) && g.lines == f.lines && g.added == f.added && g.context == f.context && g.removed == f.removed
    ensures RowsExact(g)
  {
  }

  // ---- and so many -------------------------------------------------------

  /** A line that is neither blank nor a hunk header nor a note of a missing line end. */
  predicate Material(line: string) {
    !IsBlank(line) && !IsHead(line) && !Leads(line, '\\')
  }

  function Materials(lines: seq<string>): nat {
    if lines == [] then 0
    else
      var less, last := lines[..|lines| - 1], lines[|lines| - 1];
      Materials(less) + if HasHead(less) && Material(last) then 1 else 0
  }

  lemma MaterialsMore(lines: seq<string>, line: string)
    ensures Materials(lines + [line]) == Materials(lines) + if HasHead(lines) && Material(line) then 1 else 0
  {
    hide HasHead, Material;
    assert (lines + [line])[..|lines|] == lines;
  }

  lemma NothingMarked()
    ensures Materials([]) == 0 && Marked([], '+') == Marked([], '-') == Marked([], ' ') == [] && Solid([]) == []
  {
  }

  lemma BelongLess(less: seq<string>, last: string)
    requires AllBelong(less + [last])
    ensures AllBelong(less) && (HasHead(less) ==> Belongs(last))
  {
    hide HasHead, Belongs;
    var lines := less + [last];
    assert lines[..|less|] == less && lines[|less|] == last;
    assert forall k :: 0 <= k < |less| ==> lines[..k] == less[..k] && lines[k] == less[k];
  }

  lemma {:induction false} MaterialsAreMarked(lines: seq<string>)
    requires AllBelong(lines)
    ensures Materials(lines) == |Marked(lines, '+')| + |Marked(lines, '-')| + |Solid(Marked(lines, ' '))|
  {
    hide *;
    if lines == [] {
      NothingMarked();
    } else {
      var less, last := lines[..|lines| - 1], lines[|lines| - 1];
      assert lines == less + [last];
      BelongLess(less, last);
      MaterialsAreMarked(less);
      MaterialsMore(less, last);
      MarkedMore(less, last, '+');
      MarkedMore(less, last, '-');
      MarkedMore(less, last, ' ');
      SolidMore(Marked(less, ' '), Tail(last));
      LeadIsOne(last);
      assert Marked(less, ' ') + [] == Marked(less, ' ');
      if HasHead(less) {
        OneKind(last);
      }
    }
  }

  lemma OneKind(line: string)
    requires Belongs(line)
    ensures Material(line) <==> Leads(line, '+') || Leads(line, '-') || (Leads(line, ' ') && !IsBlank(Tail(line)))
  {
    PlainAdds(line);
    if Leads(line, ' ') {
      BlankTail(line);
    }
  }

  lemma {:induction false} SolidFewer(texts: seq<string>)
    ensures |Solid(texts)| <= |texts|
  {
    if texts != [] {
      SolidFewer(texts[..|texts| - 1]);
    }
  }

  /** So a good section has no more such lines after its first hunk header than it has rows. */
  lemma NoLineTooMany(diff: string, u: string -> string, k: nat)
    requires k < |Sections(diff, u)| && Sections(diff, u)[k].bad == Fine
    ensures var f := Sections(diff, u)[k];
            Materials(f.lines) <= |f.added| + |f.context| + |f.removed|
  {
    hide Sections, Marked, Solid, Materials;
    GoodSectionsAreTheirLines(diff, u, k);
    var f := Sections(diff, u)[k];
    MaterialsAreMarked(f.lines);
    SolidFewer(Texts(f.context));
  }

  // ---- a section with no name --------------------------------------------

  /** A section for which no name was read is marked bad under a name that says so. */
  lemma NamelessIsBad(files: seq<Section>, seen: Tally, k: nat)
    requires k < |files| && files[k].file == ""
    ensures Label(files, seen)[k].bad == NoName && NAMELESS <= Label(files, seen)[k].file
    decreases |files|
  {
    hide Label, Decimal;
    LabelOne(files[0], files[1..], seen);
    assert files == [files[0]] + files[1..];
    if k > 0 {
      NamelessIsBad(files[1..], seen[Named(files[0]).file := Count(seen, Named(files[0]).file) + 1], k - 1);
    }
  }
}
