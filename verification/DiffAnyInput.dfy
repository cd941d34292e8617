/** What the diff reader keeps on ANY text: no line is lost or doubled, a
    section that is not marked bad adds up, and a section read by itself says
    what it said inside the whole diff. */
module DiffAnyInput {
  import opened Text
  import opened UnifiedDiff
  import opened Wrappers

  // ---- every line lands in exactly one section ---------------------------

  function AllLines(files: seq<Section>): seq<string> {
    if files == [] then [] else AllLines(files[..|files| - 1]) + files[|files| - 1].lines
  }

  /** Where the first section begins. */
  function FirstHeader(lines: seq<string>): (k: nat)
    ensures k <= |lines|
  {
    if lines == [] || GIT <= lines[0] || IsPair(lines) then 0 else 1 + FirstHeader(lines[1..])
  }

  /** The open section took `more` lines, and the sections before it are as they were. */
  ghost predicate SameSection(r: Reader, to: Reader, more: seq<string>) {
    && r.files != [] && |to.files| == |r.files|
    && to.files[..|r.files| - 1] == r.files[..|r.files| - 1]
    && to.Cur().lines == r.Cur().lines + more
  }

  /** A section was begun with `more` lines. */
  ghost predicate BegunSection(r: Reader, to: Reader, more: seq<string>) {
    && |to.files| == |r.files| + 1
    && to.files[..|r.files|] == r.files
    && to.Cur().lines == more
  }

  lemma HunkStepShape(r: Reader, line: string)
    requires r.Valid() && r.InHunk()
    ensures var m := StepInHunk(r, line);
            SameSection(r, m.to, if m.used == 1 then [line] else [])
  {
  }

  lemma PlainStepShape(r: Reader, line: string)
    requires r.files != []
    ensures SameSection(r, StepPlainLine(r, line), [line])
  {
    hide ReadHunkHead, IsBlank;
  }

  lemma PairStepShape(r: Reader, minus: string, plus: string, u: string -> string)
    requires |minus| >= 4 && |plus| >= 4
    ensures var s := StepPair(r, minus, plus, u);
            SameSection(r, s, [minus, plus]) || BegunSection(r, s, [minus, plus])
  {
    hide HeaderPath;
  }

  /** One step leaves noise before the first header, or gives the open section
      the lines it used, or begins a section with them. */
  lemma StepShape(r: Reader, lines: seq<string>, u: string -> string)
    requires r.Valid() && lines != []
    ensures var m := Step(r, lines, u);
            || (m == Move(r, 1) && r.files == [] && !(GIT <= lines[0]) && !IsPair(lines))
            || (m.to.files != [] && (r.files != [] || GIT <= lines[0] || IsPair(lines))
                && (SameSection(r, m.to, lines[..m.used]) || BegunSection(r, m.to, lines[..m.used])))
  {
    hide StepInHunk, StepPlainLine, StepPair, GitPath;
    assert lines[..1] == [lines[0]];
    if r.InHunk() {
      HunkStepShape(r, lines[0]);
    } else if !(GIT <= lines[0]) {
      if IsPair(lines) {
        PairStepShape(r, lines[0], lines[1], u);
        assert lines[..2] == [lines[0], lines[1]];
      } else if r.files != [] {
        PlainStepShape(r, lines[0]);
      }
    }
  }

  lemma StepKeepsLines(r: Reader, to: Reader, more: seq<string>)
    requires SameSection(r, to, more) || BegunSection(r, to, more)
    ensures AllLines(to.files) == AllLines(r.files) + more
  {
    var before := to.files[..|to.files| - 1];
    if SameSection(r, to, more) {
      assert AllLines(to.files) == AllLines(before) + (r.Cur().lines + more);
    } else {
      assert before == r.files;
    }
  }

  lemma {:induction false} ScanKeepsLines(r: Reader, lines: seq<string>, u: string -> string)
    requires r.Valid()
    ensures AllLines(Scan(r, lines, u).files)
            == AllLines(r.files) + (if r.files == [] then lines[FirstHeader(lines)..] else lines)
    decreases 2 * |lines| + if r.InHunk() then 1 else 0
  {
    hide Step, AllLines;
    if lines != [] {
      var m := Step(r, lines, u);
      StepShape(r, lines, u);
      ScanKeepsLines(m.to, lines[m.used..], u);
      if m.to.files == [] {
        assert lines[1..][FirstHeader(lines[1..])..] == lines[FirstHeader(lines)..];
      } else {
        StepKeepsLines(r, m.to, lines[..m.used]);
        assert lines == lines[..m.used] + lines[m.used..];
      }
    }
  }

  ghost predicate SameLines(a: seq<Section>, b: seq<Section>) {
    |a| == |b| && forall k :: 0 <= k < |a| ==> a[k].lines == b[k].lines
  }

  lemma {:induction false} SameLinesSameText(a: seq<Section>, b: seq<Section>)
    requires SameLines(a, b)
    ensures AllLines(a) == AllLines(b)
  {
    if a != [] {
      SameLinesSameText(a[..|a| - 1], b[..|b| - 1]);
    }
  }

  /** What the naming pass may change of a section. */
  ghost predicate OnlyNamed(f: Section, g: Section) {
    && g == f.(file := g.file, bad := g.bad)
    && (g.bad == Fine ==> f.bad == Fine)
    && (f.file != "" ==> g.bad == f.bad)
  }

  lemma OnlyNamedOne(f: Section, k: nat)
    ensures OnlyNamed(f, Number(Named(f), k))
  {
    hide Decimal, Slashes;
  }

  lemma {:induction false} LabelOnlyNames(files: seq<Section>, seen: Tally)
    ensures forall k :: 0 <= k < |files| ==> OnlyNamed(files[k], Label(files, seen)[k])
  {
    hide Named, Number, OnlyNamed, Label;
    if files != [] {
      var f := Named(files[0]);
      var more := seen[f.file := Count(seen, f.file) + 1];
      LabelOnlyNames(files[1..], more);
      var out := Label(files, seen);
      LabelOne(files[0], files[1..], seen);
      assert files == [files[0]] + files[1..];
      OnlyNamedOne(files[0], more[f.file]);
      forall k | 1 <= k < |files| ensures OnlyNamed(files[k], out[k]) {
        assert out[k] == Label(files[1..], more)[k - 1] && files[k] == files[1..][k - 1];
      }
    }
  }

  lemma NamingKeepsLines(r: Reader)
    requires r.Valid()
    ensures AllLines(Label(Close(r), map[])) == AllLines(r.files)
  {
    LabelOnlyNames(Close(r), map[]);
    hide AllLines, Label;
    SameLinesSameText(Label(Close(r), map[]), Close(r));
    SameLinesSameText(Close(r), r.files);
  }

  /** Every line from the first header on is in exactly one section, in order. */
  lemma EveryLineOnce(diff: string, u: string -> string)
    ensures var lines := LinesOf(diff);
            AllLines(Sections(diff, u)) == lines[FirstHeader(lines)..]
  {
    var lines := LinesOf(diff);
    hide Scan, Label, FirstHeader, LinesOf, Close;
    ScanKeepsLines(Start, lines, u);
    NamingKeepsLines(Scan(Start, lines, u));
  }

  // ---- a section that is not bad adds up ---------------------------------

  /** How many old lines the hunk headers among `lines` declare. */
  function DeclaredOld(lines: seq<string>): nat {
    if lines == [] then 0
    else DeclaredOld(lines[..|lines| - 1])
         + match ReadHunkHead(lines[|lines| - 1]) case Some(h) => h.oldCount case None => 0
  }

  function DeclaredNew(lines: seq<string>): nat {
    if lines == [] then 0
    else DeclaredNew(lines[..|lines| - 1])
         + match ReadHunkHead(lines[|lines| - 1]) case Some(h) => h.newCount case None => 0
  }

  /** The section holds what its headers declare, less what is still to come. */
  ghost predicate AddsUp(f: Section, oldLeft: nat, newLeft: nat) {
    f.bad == Fine ==>
      && DeclaredOld(f.lines) == |f.context| + |f.removed| + oldLeft
      && DeclaredNew(f.lines) == |f.context| + |f.added| + newLeft
  }

  /** Every row is one of the section's lines with its marker taken off. */
  ghost predicate RowsAreLines(f: Section) {
    && (forall k :: 0 <= k < |f.added| ==> "+" + f.added[k].text in f.lines)
    && (forall k :: 0 <= k < |f.context| ==>
         " " + f.context[k].text in f.lines || (f.context[k].text == "" && "" in f.lines))
    && (forall k :: 0 <= k < |f.removed| ==> "-" + f.removed[k] in f.lines)
  }

  ghost predicate Sound(r: Reader) {
    && (forall k :: 0 <= k < |r.files| - 1 ==> AddsUp(r.files[k], 0, 0) && RowsAreLines(r.files[k]))
    && (r.files != [] ==> AddsUp(r.Cur(), r.oldLeft, r.newLeft) && RowsAreLines(r.Cur()))
  }

  lemma DeclaredMore(lines: seq<string>, line: string)
    ensures var h := ReadHunkHead(line);
            && DeclaredOld(lines + [line]) == DeclaredOld(lines) + (if h.Some? then h.value.oldCount else 0)
            && DeclaredNew(lines + [line]) == DeclaredNew(lines) + (if h.Some? then h.value.newCount else 0)
  {
    assert (lines + [line])[..|lines|] == lines;
  }

  lemma HunkLineAddsUp(r: Reader, line: string)
    requires r.Valid() && r.InHunk() && AddsUp(r.Cur(), r.oldLeft, r.newLeft)
    ensures var to := StepInHunk(r, line).to;
            AddsUp(to.Cur(), to.oldLeft, to.newLeft)
  {
    hide ReadHunkHead, DeclaredOld, DeclaredNew;
    if StepInHunk(r, line).used == 1 {
      RowIsNoHeader(line);
      DeclaredMore(r.Cur().lines, line);
    }
  }

  lemma HunkLineRows(r: Reader, line: string)
    requires r.Valid() && r.InHunk() && RowsAreLines(r.Cur())
    ensures RowsAreLines(StepInHunk(r, line).to.Cur())
  {
    hide ReadHunkHead;
    var m := StepInHunk(r, line);
    if m.used == 1 {
      assert line in m.to.Cur().lines;
      assert line != "" ==> line == [line[0]] + Tail(line);
      assert forall s :: s in r.Cur().lines ==> s in m.to.Cur().lines;
    }
  }

  lemma EmptySectionSound()
    ensures RowsAreLines(NewSection("", false)) && AddsUp(NewSection("", false), 0, 0)
  {
  }

  lemma RowsStay(f: Section, g: Section, more: seq<string>)
    requires RowsAreLines(f) && g.lines == f.lines + more
    requires g.added == f.added && g.context == f.context && g.removed == f.removed
    ensures RowsAreLines(g)
  {
    assert forall s :: s in f.lines ==> s in g.lines;
  }

  lemma SoundAgain(r: Reader, to: Reader)
    requires Sound(r) && r.files != [] && |to.files| == |r.files|
    requires to.files[..|r.files| - 1] == r.files[..|r.files| - 1]
    requires AddsUp(to.Cur(), to.oldLeft, to.newLeft) && RowsAreLines(to.Cur())
    ensures Sound(to)
  {
    hide AddsUp, RowsAreLines;
    assert forall k :: 0 <= k < |r.files| - 1 ==> to.files[k] == to.files[..|r.files| - 1][k];
    assert forall k :: 0 <= k < |r.files| - 1 ==> r.files[k] == r.files[..|r.files| - 1][k];
  }

  lemma SoundBegun(r: Reader, to: Reader)
    requires Sound(r) && !r.InHunk() && !to.InHunk() && |to.files| == |r.files| + 1
    requires to.files[..|r.files|] == r.files
    requires AddsUp(to.Cur(), 0, 0) && RowsAreLines(to.Cur())
    ensures Sound(to)
  {
    hide AddsUp, RowsAreLines;
    assert forall k :: 0 <= k < |r.files| ==> r.files[k] == to.files[..|r.files|][k];
  }

  lemma HunkLineSound(r: Reader, line: string)
    requires r.Valid() && r.InHunk() && Sound(r)
    ensures Sound(StepInHunk(r, line).to)
  {
    HunkStepShape(r, line);
    HunkLineAddsUp(r, line);
    HunkLineRows(r, line);
    SoundAgain(r, StepInHunk(r, line).to);
  }

  lemma PlainLineSound(r: Reader, line: string)
    requires r.files != [] && !r.InHunk() && Sound(r)
    ensures Sound(StepPlainLine(r, line))
  {
    hide ReadHunkHead, IsBlank, RowsAreLines, DeclaredOld, DeclaredNew;
    var to := StepPlainLine(r, line);
    DeclaredMore(r.Cur().lines, line);
    RowsStay(r.Cur(), to.Cur(), [line]);
    SoundAgain(r, to);
  }

  lemma PairSound(r: Reader, minus: string, plus: string, u: string -> string)
    requires |minus| >= 4 && |plus| >= 4 && minus[0] == '-' && plus[0] == '+'
    requires !r.InHunk() && Sound(r)
    ensures Sound(StepPair(r, minus, plus, u))
  {
    hide HeaderPath, ReadHunkHead, RowsAreLines, DeclaredOld, DeclaredNew;
    RowIsNoHeader(minus);
    RowIsNoHeader(plus);
    var s := StepPair(r, minus, plus, u);
    var was := if |s.files| == |r.files| then r.Cur() else NewSection("", false);
    EmptySectionSound();
    DeclaredMore(was.lines, minus);
    DeclaredMore(was.lines + [minus], plus);
    assert was.lines + [minus, plus] == was.lines + [minus] + [plus];
    RowsStay(was, s.Cur(), [minus, plus]);
    if |s.files| == |r.files| {
      SoundAgain(r, s);
    } else {
      SoundBegun(r, s);
    }
  }

  lemma GitLineSound(r: Reader, line: string, f: Section)
    requires !r.InHunk() && Sound(r) && line != "" && line[0] != '@'
    requires f.lines == [line] && f.added == [] && f.context == [] && f.removed == []
    ensures Sound(r.(files := r.files + [f]))
  {
    RowIsNoHeader(line);
    hide ReadHunkHead;
    DeclaredMore([], line);
    assert [] + [line] == [line];
    SoundBegun(r, r.(files := r.files + [f]));
  }

  lemma {:induction false} ScanSound(r: Reader, lines: seq<string>, u: string -> string)
    requires r.Valid() && Sound(r)
    ensures Sound(Scan(r, lines, u))
    decreases 2 * |lines| + if r.InHunk() then 1 else 0
  {
    if lines != [] {
      hide Sound, StepInHunk, StepPlainLine, StepPair, GitPath;
      var m := Step(r, lines, u);
      if r.InHunk() {
        HunkLineSound(r, lines[0]);
      } else if GIT <= lines[0] {
        GitLineSound(r, lines[0], NewSection(GitPath(lines[0], u), true).(lines := [lines[0]]));
      } else if IsPair(lines) {
        PairSound(r, lines[0], lines[1], u);
      } else if r.files != [] {
        PlainLineSound(r, lines[0]);
      }
      ScanSound(m.to, lines[m.used..], u);
    }
  }

  lemma CloseSound(r: Reader, k: nat)
    requires r.Valid() && Sound(r) && k < |r.files|
    ensures AddsUp(Close(r)[k], 0, 0) && RowsAreLines(Close(r)[k])
  {
    hide RowsAreLines, DeclaredOld, DeclaredNew;
    RowsStay(r.Cur(), r.Cur().(bad := EndsInHunk), []);
  }

  /** A section not marked bad holds as many old and new lines as its hunk headers say. */
  lemma GoodSectionsAddUp(diff: string, u: string -> string, k: nat)
    requires k < |Sections(diff, u)|
    ensures var f := Sections(diff, u)[k];
            && (f.bad == Fine ==>
                 && DeclaredOld(f.lines) == |f.context| + |f.removed|
                 && DeclaredNew(f.lines) == |f.context| + |f.added|)
            && RowsAreLines(f)
  {
    hide Scan, Label, LinesOf, RowsAreLines, DeclaredOld, DeclaredNew;
    var end := Scan(Start, LinesOf(diff), u);
    ScanSound(Start, LinesOf(diff), u);
    CloseSound(end, k);
    LabelOnlyNames(Close(end), map[]);
    var f, g := Sections(diff, u)[k], Close(end)[k];
    assert OnlyNamed(g, f);
    RowsStay(g, f, []);
  }
}
