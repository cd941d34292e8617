/** Printing a list of patches as a unified diff (POSIX.1-2008 `diff`, section
    "Diff -u or -U Output Format", with git's own lines around it) and reading it
    gives the patches back, whatever the text of their lines. */
module DiffRoundTrip {
  import opened Text
  import opened UnifiedDiff
  import opened DiffNames
  import opened Wrappers
  import DiffAnyInput

  // ---- what is printed ---------------------------------------------------

  /** One line of a hunk. `Blank` is an empty line of which the leading space was
      stripped; `Mark` is the `\ No newline at end of file` line. */
  datatype Edit = Keep(text: string) | Blank | Drop(text: string) | Insert(text: string) | Mark(note: string)

  function EditLine(e: Edit): string {
    match e
    case Keep(t) => " " + t
    case Blank => ""
    case Drop(t) => "-" + t
    case Insert(t) => "+" + t
    case Mark(n) => "\\" + n
  }

  function EditLines(edits: seq<Edit>): (lines: seq<string>)
    ensures |lines| == |edits|
  {
    if edits == [] then [] else [EditLine(edits[0])] + EditLines(edits[1..])
  }

  /** What one edit shows of the old file and of the new one. */
  function OldPart(e: Edit): seq<string> {
    match e case Keep(t) => [t] case Blank => [""] case Drop(t) => [t] case _ => []
  }

  function NewPart(e: Edit): seq<string> {
    match e case Keep(t) => [t] case Blank => [""] case Insert(t) => [t] case _ => []
  }

  /** The lines of the old file, and of the new one, that a hunk shows. */
  function OldSide(edits: seq<Edit>): seq<string> {
    if edits == [] then [] else OldPart(edits[0]) + OldSide(edits[1..])
  }

  function NewSide(edits: seq<Edit>): seq<string> {
    if edits == [] then [] else NewPart(edits[0]) + NewSide(edits[1..])
  }

  function DeletedPart(e: Edit): seq<string> {
    if e.Drop? then [e.text] else []
  }

  function Deleted(edits: seq<Edit>): seq<string> {
    if edits == [] then [] else DeletedPart(edits[0]) + Deleted(edits[1..])
  }

  function InsertedPart(e: Edit, no: nat): seq<Row> {
    if e.Insert? then [Row(no, e.text)] else []
  }

  function KeptPart(e: Edit, no: nat): seq<Row> {
    match e case Keep(t) => [Row(no, t)] case Blank => [Row(no, "")] case _ => []
  }

  /** The rows of the new file from line `no` on: those inserted, and those kept. */
  function InsertedRows(edits: seq<Edit>, no: nat): seq<Row> {
    if edits == [] then []
    else InsertedPart(edits[0], no) + InsertedRows(edits[1..], no + |NewPart(edits[0])|)
  }

  function KeptRows(edits: seq<Edit>, no: nat): seq<Row> {
    if edits == [] then []
    else KeptPart(edits[0], no) + KeptRows(edits[1..], no + |NewPart(edits[0])|)
  }

  datatype Hunk = Hunk(oldStart: nat, newStart: nat, edits: seq<Edit>, heading: string)

  function PrintSide(start: nat, count: nat): string {
    Decimal(start) + if count == 1 then "" else "," + Decimal(count)
  }

  function HunkLine(h: Hunk): string {
    "@@ -" + (PrintSide(h.oldStart, |OldSide(h.edits)|)
    + (" +" + (PrintSide(h.newStart, |NewSide(h.edits)|) + (" @@" + h.heading))))
  }

  function HunkLines(hunks: seq<Hunk>): seq<string> {
    if hunks == [] then [] else [HunkLine(hunks[0])] + EditLines(hunks[0].edits) + HunkLines(hunks[1..])
  }

  // ---- a hunk header is read as it was printed ---------------------------

  lemma ReadOneLineSide(start: nat, rest: string)
    requires " " <= rest
    ensures ReadSide(Decimal(start) + rest) == Some(Side(start, 1, rest))
  {
    hide Decimal, ToNat, DigitCount;
    var a := Decimal(start);
    DigitCountExact(a, rest);
    assert (a + rest)[..|a|] == a && (a + rest)[|a|..] == rest;
  }

  lemma ReadCountedSide(start: nat, count: nat, rest: string)
    requires " " <= rest
    ensures ReadSide(Decimal(start) + ("," + (Decimal(count) + rest))) == Some(Side(start, count, rest))
  {
    hide Decimal, ToNat, DigitCount;
    var a, b := Decimal(start), Decimal(count);
    var more := "," + (b + rest);
    DigitCountExact(a, more);
    DigitCountExact(b, rest);
    assert (a + more)[..|a|] == a && (a + more)[|a| + 1..] == b + rest;
    assert (b + rest)[..|b|] == b && (b + rest)[|b|..] == rest;
  }

  lemma ReadPrintedSide(start: nat, count: nat, rest: string)
    requires " " <= rest
    ensures ReadSide(PrintSide(start, count) + rest) == Some(Side(start, count, rest))
  {
    hide Decimal, ReadSide;
    if count == 1 {
      ReadOneLineSide(start, rest);
      assert PrintSide(start, count) == Decimal(start);
    } else {
      ReadCountedSide(start, count, rest);
      assert PrintSide(start, count) + rest == Decimal(start) + ("," + (Decimal(count) + rest));
    }
  }

  lemma ReadPrintedHunk(h: Hunk)
    ensures ReadHunkHead(HunkLine(h))
            == Some(HunkHead(|OldSide(h.edits)|, h.newStart, |NewSide(h.edits)|))
  {
    var last := " @@" + h.heading;
    var new_ := PrintSide(h.newStart, |NewSide(h.edits)|) + last;
    var old_ := PrintSide(h.oldStart, |OldSide(h.edits)|) + (" +" + new_);
    ReadPrintedSide(h.newStart, |NewSide(h.edits)|, last);
    ReadPrintedSide(h.oldStart, |OldSide(h.edits)|, " +" + new_);
    hide ReadSide, PrintSide, OldSide, NewSide;
    assert HunkLine(h)[4..] == old_;
    assert (" +" + new_)[2..] == new_;
  }

  // ---- the lines of a hunk -----------------------------------------------

  /** The reader after `edits`, of which it had counted all. */
  function AfterEdits(r: Reader, edits: seq<Edit>): Reader
    requires r.files != []
  {
    var cur := r.Cur();
    Reader(r.files[..|r.files| - 1] + [cur.(
      lines := cur.lines + EditLines(edits),
      added := cur.added + InsertedRows(edits, r.newNo),
      context := cur.context + KeptRows(edits, r.newNo),
      removed := cur.removed + Deleted(edits))],
      0, 0, r.newNo + |NewSide(edits)|)
  }

  /** The reader has at least the edit's lines still to come. */
  ghost predicate Counts(r: Reader, e: Edit) {
    && r.files != [] && r.Cur().hunks > 0
    && r.oldLeft >= |OldPart(e)| && r.newLeft >= |NewPart(e)|
  }

  /** The reader counts exactly the edits still to come. */
  ghost predicate CountsAll(r: Reader, edits: seq<Edit>) {
    r.files != [] && r.Cur().hunks > 0 && r.oldLeft == |OldSide(edits)| && r.newLeft == |NewSide(edits)|
  }

  /** What one edit does to the reader. */
  function TakeEdit(r: Reader, e: Edit): (to: Reader)
    requires Counts(r, e)
  {
    var cur := r.Cur();
    Reader(r.files[..|r.files| - 1] + [cur.(
      lines := cur.lines + [EditLine(e)],
      added := cur.added + InsertedPart(e, r.newNo),
      context := cur.context + KeptPart(e, r.newNo),
      removed := cur.removed + DeletedPart(e))],
      r.oldLeft - |OldPart(e)|, r.newLeft - |NewPart(e)|, r.newNo + |NewPart(e)|)
  }

  lemma StepEdit(r: Reader, e: Edit, rest: seq<string>, u: string -> string)
    requires Counts(r, e)
    requires !r.InHunk() ==> e.Mark?
    ensures Step(r, [EditLine(e)] + rest, u) == Move(TakeEdit(r, e), 1)
  {
    hide ReadHunkHead;
    var line := EditLine(e);
    RowIsNoHeader(line);
    assert Tail(line) == match e case Blank => "" case Mark(n) => n case e => e.text;
    var cur := r.Cur();
    assert cur.added + [] == cur.added && cur.context + [] == cur.context && cur.removed + [] == cur.removed;
  }

  lemma OneEditLeft(r: Reader, edits: seq<Edit>)
    requires edits != [] && CountsAll(r, edits)
    ensures CountsAll(TakeEdit(r, edits[0]), edits[1..])
    ensures TakeEdit(r, edits[0]).newNo + |NewSide(edits[1..])| == r.newNo + |NewSide(edits)|
  {
    hide EditLine, OldPart, NewPart, InsertedPart, KeptPart, DeletedPart;
  }

  lemma Regroup<T>(a: seq<T>, b: seq<T>, c: seq<T>)
    ensures a + b + c == a + (b + c)
  {
  }

  lemma AfterOneEdit(r: Reader, edits: seq<Edit>)
    requires edits != [] && CountsAll(r, edits)
    ensures CountsAll(TakeEdit(r, edits[0]), edits[1..])
    ensures AfterEdits(TakeEdit(r, edits[0]), edits[1..]) == AfterEdits(r, edits)
  {
    hide EditLine, OldPart, NewPart, InsertedPart, KeptPart, DeletedPart, OldSide, NewSide;
    OneEditLeft(r, edits);
    var cur, e, no := r.Cur(), edits[0], TakeEdit(r, edits[0]).newNo;
    Regroup(cur.lines, [EditLine(e)], EditLines(edits[1..]));
    Regroup(cur.added, InsertedPart(e, r.newNo), InsertedRows(edits[1..], no));
    Regroup(cur.context, KeptPart(e, r.newNo), KeptRows(edits[1..], no));
    Regroup(cur.removed, DeletedPart(e), Deleted(edits[1..]));
  }

  lemma {:induction false} ReadEdits(r: Reader, edits: seq<Edit>, rest: seq<string>, u: string -> string)
    requires CountsAll(r, edits)
    ensures Scan(r, EditLines(edits) + rest, u) == Scan(AfterEdits(r, edits), rest, u)
    decreases |edits|
  {
    hide TakeEdit, AfterEdits, Step, EditLine;
    if edits == [] {
      assert EditLines(edits) + rest == rest;
      NoEdits(r);
    } else {
      var more := EditLines(edits[1..]) + rest;
      assert EditLines(edits) + rest == [EditLine(edits[0])] + more;
      StepEdit(r, edits[0], more, u);
      assert ([EditLine(edits[0])] + more)[1..] == more;
      AfterOneEdit(r, edits);
      ReadEdits(TakeEdit(r, edits[0]), edits[1..], rest, u);
    }
  }

  lemma NoEdits(r: Reader)
    requires CountsAll(r, [])
    ensures AfterEdits(r, []) == r
  {
    var cur := r.Cur();
    assert cur.lines + [] == cur.lines && cur.added + [] == cur.added && cur.context + [] == cur.context
        && cur.removed + [] == cur.removed;
  }

  // ---- a section's hunks -------------------------------------------------

  function AllInserted(hunks: seq<Hunk>): seq<Row> {
    if hunks == [] then [] else InsertedRows(hunks[0].edits, hunks[0].newStart) + AllInserted(hunks[1..])
  }

  function AllKept(hunks: seq<Hunk>): seq<Row> {
    if hunks == [] then [] else KeptRows(hunks[0].edits, hunks[0].newStart) + AllKept(hunks[1..])
  }

  function AllDeleted(hunks: seq<Hunk>): seq<string> {
    if hunks == [] then [] else Deleted(hunks[0].edits) + AllDeleted(hunks[1..])
  }

  function WithHunks(f: Section, hunks: seq<Hunk>): Section {
    f.(lines := f.lines + HunkLines(hunks), added := f.added + AllInserted(hunks),
       context := f.context + AllKept(hunks), removed := f.removed + AllDeleted(hunks),
       hunks := f.hunks + |hunks|)
  }

  /** A reader outside a hunk, with `f` open after the sections of `before`. */
  ghost predicate OpenAt(r: Reader, before: seq<Section>, f: Section) {
    r.files == before + [f] && !r.InHunk()
  }

  lemma StepHeadLine(r: Reader, before: seq<Section>, f: Section, line: string, head: HunkHead,
                     rest: seq<string>, u: string -> string)
    returns (to: Reader)
    requires OpenAt(r, before, f) && line != "" && line[0] == '@' && ReadHunkHead(line) == Some(head)
    ensures Step(r, [line] + rest, u) == Move(to, 1)
    ensures to == Reader(before + [f.(lines := f.lines + [line], hunks := f.hunks + 1)],
                         head.oldCount, head.newCount, head.newStart)
  {
    hide ReadHunkHead;
    to := StepPlainLine(r, line);
    assert r.files[..|r.files| - 1] == before;
  }

  lemma HunkLineLead(h: Hunk)
    ensures HunkLine(h) != "" && HunkLine(h)[0] == '@'
  {
    hide PrintSide;
  }

  /** A hunk header opens the hunk with its counts and its first line number. */
  lemma StepHunkLine(r: Reader, before: seq<Section>, f: Section, h: Hunk, rest: seq<string>, u: string -> string)
    returns (to: Reader)
    requires OpenAt(r, before, f)
    ensures Step(r, [HunkLine(h)] + rest, u) == Move(to, 1)
    ensures to == Reader(before + [f.(lines := f.lines + [HunkLine(h)], hunks := f.hunks + 1)],
                         |OldSide(h.edits)|, |NewSide(h.edits)|, h.newStart)
  {
    ReadPrintedHunk(h);
    HunkLineLead(h);
    hide ReadHunkHead, HunkLine, OldSide, NewSide, Step;
    var head := HunkHead(|OldSide(h.edits)|, h.newStart, |NewSide(h.edits)|);
    to := StepHeadLine(r, before, f, HunkLine(h), head, rest, u);
  }

  lemma EditsDone(to: Reader, before: seq<Section>, f: Section, h: Hunk)
    requires to.files == before + [f.(lines := f.lines + [HunkLine(h)], hunks := f.hunks + 1)]
    requires to.newNo == h.newStart
    ensures OpenAt(AfterEdits(to, h.edits), before, WithHunks(f, [h]))
  {
    OneHunk(h);
    hide HunkLine, EditLines, InsertedRows, KeptRows, Deleted, HunkLines, AllInserted, AllKept, AllDeleted;
    Regroup(f.lines, [HunkLine(h)], EditLines(h.edits));
    assert to.files[..|to.files| - 1] == before;
  }

  lemma ReadHunk(r: Reader, before: seq<Section>, f: Section, h: Hunk, rest: seq<string>, u: string -> string)
    returns (to: Reader)
    requires OpenAt(r, before, f)
    ensures OpenAt(to, before, WithHunks(f, [h]))
    ensures Scan(r, [HunkLine(h)] + EditLines(h.edits) + rest, u) == Scan(to, rest, u)
  {
    var more := EditLines(h.edits) + rest;
    var begun := StepHunkLine(r, before, f, h, more, u);
    hide HunkLine, EditLines, Step, AfterEdits, WithHunks;
    Regroup([HunkLine(h)], EditLines(h.edits), rest);
    assert ([HunkLine(h)] + more)[1..] == more;
    ReadEdits(begun, h.edits, rest, u);
    EditsDone(begun, before, f, h);
    to := AfterEdits(begun, h.edits);
  }

  lemma OneHunk(h: Hunk)
    ensures HunkLines([h]) == [HunkLine(h)] + EditLines(h.edits)
    ensures AllInserted([h]) == InsertedRows(h.edits, h.newStart)
    ensures AllKept([h]) == KeptRows(h.edits, h.newStart)
    ensures AllDeleted([h]) == Deleted(h.edits)
  {
    hide HunkLine, EditLines, InsertedRows, KeptRows, Deleted;
    assert [h][1..] == [];
  }

  lemma MoreHunks(f: Section, hunks: seq<Hunk>)
    requires hunks != []
    ensures WithHunks(WithHunks(f, [hunks[0]]), hunks[1..]) == WithHunks(f, hunks)
  {
    var h, more := hunks[0], hunks[1..];
    OneHunk(h);
    hide HunkLine, EditLines, InsertedRows, KeptRows, Deleted;
    Regroup(f.lines, HunkLines([h]), HunkLines(more));
    Regroup(f.added, AllInserted([h]), AllInserted(more));
    Regroup(f.context, AllKept([h]), AllKept(more));
    Regroup(f.removed, AllDeleted([h]), AllDeleted(more));
  }

  lemma {:induction false} ReadHunks(r: Reader, before: seq<Section>, f: Section, hunks: seq<Hunk>,
                                     rest: seq<string>, u: string -> string)
    returns (to: Reader)
    requires OpenAt(r, before, f)
    ensures OpenAt(to, before, WithHunks(f, hunks))
    ensures Scan(r, HunkLines(hunks) + rest, u) == Scan(to, rest, u)
    decreases |hunks|
  {
    hide HunkLine, EditLines, Scan;
    if hunks == [] {
      to := r;
      assert HunkLines(hunks) + rest == rest;
      assert f.lines + [] == f.lines && f.added + [] == f.added && f.context + [] == f.context
          && f.removed + [] == f.removed;
    } else {
      var h := hunks[0];
      var more := HunkLines(hunks[1..]) + rest;
      to := ReadHunk(r, before, f, h, more, u);
      assert HunkLines(hunks) + rest == [HunkLine(h)] + EditLines(h.edits) + more;
      to := ReadHunks(to, before, WithHunks(f, [h]), hunks[1..], rest, u);
      MoreHunks(f, hunks);
    }
  }

  // ---- lines that carry nothing ------------------------------------------

  /** A line outside any hunk that neither begins anything nor spoils its section. */
  ghost predicate Idle(line: string, f: Section) {
    && !(GIT <= line) && !(MINUS <= line) && ReadHunkHead(line).None?
    && (f.hunks == 0 || IsBlank(line))
  }

  lemma BlankIsIdle(line: string, f: Section)
    requires IsBlank(line)
    ensures Idle(line, f)
  {
    if line != "" {
      assert IsSpace(line[0]);
      RowIsNoHeader(line);
    } else {
      RowIsNoHeader(line);
    }
  }

  lemma {:induction false} ReadIdle(r: Reader, before: seq<Section>, f: Section, lines: seq<string>,
                                    rest: seq<string>, u: string -> string)
    returns (to: Reader)
    requires OpenAt(r, before, f)
    requires forall k :: 0 <= k < |lines| ==> Idle(lines[k], f)
    ensures OpenAt(to, before, f.(lines := f.lines + lines))
    ensures Scan(r, lines + rest, u) == Scan(to, rest, u)
    decreases |lines|
  {
    hide ReadHunkHead, IsBlank;
    if lines == [] {
      to := r;
      assert lines + rest == rest && f.lines + [] == f.lines;
    } else {
      var more := lines[1..] + rest;
      assert lines + rest == [lines[0]] + more;
      assert Idle(lines[0], f);
      to := StepPlainLine(r, lines[0]);
      assert Step(r, lines + rest, u) == Move(to, 1);
      assert ([lines[0]] + more)[1..] == more;
      var g := f.(lines := f.lines + [lines[0]]);
      Regroup(f.lines, [lines[0]], lines[1..]);
      assert [lines[0]] + lines[1..] == lines;
      to := ReadIdle(to, before, g, lines[1..], rest, u);
    }
  }

  // ---- patches -----------------------------------------------------------

  /** One file's part of a diff. Git's has a `diff --git` line and further lines before
      the names; a part without hunks has no names; `gap` is the white space after it. */
  datatype Patch = Patch(
    git: bool, extra: seq<string>, oldPath: string, oldForm: Form, newPath: string, newForm: Form,
    created: bool, gone: bool, oldStamp: string, newStamp: string, hunks: seq<Hunk>, gap: seq<string>)
  {
    function Old(): string {
      Written("a/", oldPath, oldForm)
    }

    function New(): string {
      Written("b/", newPath, newForm)
    }
  }

  /** The name the file goes by: the new one, or the old one of a file that is gone. */
  function FileOf(p: Patch): string {
    if p.gone then p.oldPath else p.newPath
  }

  function GitLine(p: Patch): string {
    GIT + (p.Old() + (" " + p.New()))
  }

  function OldLine(p: Patch): string {
    MINUS + ((if p.created then "/dev/null" else p.Old()) + p.oldStamp)
  }

  function NewLine(p: Patch): string {
    PLUS + ((if p.gone then "/dev/null" else p.New()) + p.newStamp)
  }

  function GitLines(p: Patch): seq<string> {
    if p.git then [GitLine(p)] + p.extra else []
  }

  function NameLines(p: Patch): seq<string> {
    if p.hunks == [] then [] else [OldLine(p), NewLine(p)]
  }

  function PatchLines(p: Patch): seq<string> {
    GitLines(p) + (NameLines(p) + (HunkLines(p.hunks) + p.gap))
  }

  ghost predicate PlainExtra(line: string) {
    !(GIT <= line) && !(MINUS <= line) && ReadHunkHead(line).None? && '\n' !in line
  }

  /** Names that the header lines carry, and lines that are what they stand for. */
  ghost predicate WellFormed(p: Patch, u: string -> string) {
    && Carried("a/", p.oldPath, p.oldForm, u) && Carried("b/", p.newPath, p.newForm, u)
    && PlainStamp(p.oldStamp) && PlainStamp(p.newStamp)
    && !(p.created && p.gone) && (p.git || p.hunks != [])
    && (forall k :: 0 <= k < |p.extra| ==> PlainExtra(p.extra[k]))
    && (forall k :: 0 <= k < |p.gap| ==> IsBlank(p.gap[k]))
  }

  ghost predicate BothBare(p: Patch) {
    p.oldForm == Bare && p.newForm == Bare && NoQuote(p.oldPath) && NoQuote(p.newPath)
  }

  /** The paths tell the file of a `diff --git` line: it was not renamed; or both paths are
      bare and told apart; or one is quoted and the names as written are apart. */
  ghost predicate NamesTold(p: Patch, u: string -> string) {
    || !p.git
    || (p.oldPath == p.newPath && |p.Old()| == |p.New()|)
    || (BothBare(p) && PathsTold(p.oldPath, p.newPath, p.gone))
    || (!p.gone && NamesApart(p.Old(), p.New(), u))
  }

  ghost predicate Printable(p: Patch, u: string -> string) {
    WellFormed(p, u) && NamesTold(p, u)
  }

  /** The `diff --git` line is read as the patch's own file. */
  ghost predicate GitReads(p: Patch, u: string -> string) {
    p.git ==> GitPath(GitLine(p), u) == FileOf(p)
  }

  lemma GitLineNames(p: Patch, u: string -> string)
    ensures GitPath(GitLine(p), u) == GitName(p.Old() + (" " + p.New()), u)
  {
    hide GitName, Written;
    assert GitLine(p)[|GIT|..] == p.Old() + (" " + p.New());
  }

  lemma ToldIsRead(p: Patch, u: string -> string)
    requires Printable(p, u)
    ensures GitReads(p, u)
  {
    if p.git {
      GitLineNames(p, u);
      if p.oldPath == p.newPath && |p.Old()| == |p.New()| {
        SameNameReads(p.oldPath, p.oldForm, p.newForm, u);
      } else if BothBare(p) && PathsTold(p.oldPath, p.newPath, p.gone) {
        ReadsIffPathsTold(p.oldPath, p.newPath, p.gone, u);
      } else {
        NewNameReads(p.oldPath, p.oldForm, p.newPath, p.newForm, u);
      }
    }
  }

  /** A part without hunks is still open for a `---`/`+++` pair of its own file. */
  ghost predicate Separable(p: Patch, q: Patch) {
    p.hunks != [] || q.git || FileOf(p) != FileOf(q)
  }

  /** The section a patch is to be read as. */
  function Expected(p: Patch): Section {
    Section(FileOf(p), PatchLines(p), AllInserted(p.hunks), AllKept(p.hunks), AllDeleted(p.hunks),
            p.hunks != [] && p.gone, |p.hunks|, p.git, p.hunks != [], Fine)
  }

  lemma NamesRead(p: Patch, u: string -> string)
    requires WellFormed(p, u)
    ensures |OldLine(p)| >= 4 && |NewLine(p)| >= 4
    ensures HeaderPath(NewLine(p), u) == if p.gone then "" else p.newPath
    ensures p.gone ==> HeaderPath(OldLine(p), u) == p.oldPath
  {
    hide HeaderPath, Carried, Written, PlainStamp, PlainExtra, IsBlank;
    if p.gone {
      ReadHeaderPath(MINUS, "a/", p.oldPath, p.oldForm, p.oldStamp, u);
      ReadNoFile(PLUS, p.newStamp, u);
    } else {
      ReadHeaderPath(PLUS, "b/", p.newPath, p.newForm, p.newStamp, u);
    }
  }

  // ---- reading one patch -------------------------------------------------

  ghost predicate Readable(p: Patch, u: string -> string) {
    WellFormed(p, u) && GitReads(p, u)
  }

  /** The reader is outside a hunk, and a `---`/`+++` pair naming `name` begins a section. */
  ghost predicate ReadyFor(r: Reader, git: bool, name: string) {
    !r.InHunk() && (git || PairOpens(r, name))
  }

  /** The section after the `diff --git` lines. */
  function GitSection(p: Patch, path: string): Section {
    NewSection(path, true).(lines := GitLines(p))
  }

  lemma ReadGitLines(r: Reader, p: Patch, rest: seq<string>, u: string -> string) returns (to: Reader)
    requires p.git && WellFormed(p, u) && !r.InHunk()
    ensures OpenAt(to, r.files, GitSection(p, GitPath(GitLine(p), u)))
    ensures Scan(r, GitLines(p) + rest, u) == Scan(to, rest, u)
  {
    hide GitPath, GitLine, ReadHunkHead, StepPlainLine;
    var line := GitLine(p);
    assert GIT <= line by { GitLineLead(p); }
    var f := NewSection(GitPath(line, u), true).(lines := [line]);
    to := r.(files := r.files + [f]);
    var more := p.extra + rest;
    Regroup([line], p.extra, rest);
    assert Step(r, [line] + more, u) == Move(to, 1);
    assert ([line] + more)[1..] == more;
    forall k | 0 <= k < |p.extra| ensures Idle(p.extra[k], f) {
      assert PlainExtra(p.extra[k]);
    }
    to := ReadIdle(to, r.files, f, p.extra, rest, u);
  }

  lemma GitLineLead(p: Patch)
    ensures GIT <= GitLine(p)
  {
  }

  /** The names of a patch with hunks, in the section git began or in one of their own. */
  lemma ReadNames(r: Reader, before: seq<Section>, p: Patch, rest: seq<string>, u: string -> string)
    returns (to: Reader)
    requires p.hunks != [] && Readable(p, u) && !r.InHunk()
    requires if p.git then OpenAt(r, before, GitSection(p, GitPath(GitLine(p), u)))
             else r.files == before && PairOpens(r, FileOf(p))
    ensures OpenAt(to, before, Expected(p).(lines := GitLines(p) + NameLines(p), hunks := 0,
                                            added := [], context := [], removed := []))
    ensures Scan(r, NameLines(p) + rest, u) == Scan(to, rest, u)
  {
    NamesRead(p, u);
    NameLinesLead(p);
    hide OldLine, NewLine, HeaderPath, GitPath, PatchLines, HunkLines, AllInserted, AllKept, AllDeleted;
    to := StepPair(r, OldLine(p), NewLine(p), u);
    var lines := NameLines(p) + rest;
    assert lines[0] == OldLine(p) && lines[1] == NewLine(p) && lines[2..] == rest;
    assert Step(r, lines, u) == Move(to, 2);
    var g := if p.git then r.Cur() else NewSection("", false);
    assert g.lines + [OldLine(p), NewLine(p)] == GitLines(p) + NameLines(p);
    assert p.git ==> r.files[..|r.files| - 1] == before;
  }

  lemma NameLinesLead(p: Patch)
    ensures MINUS <= OldLine(p) && !(GIT <= OldLine(p)) && PLUS <= NewLine(p)
  {
    assert OldLine(p)[0] == '-' && GIT[0] == 'd';
  }

  // ---- reading them all --------------------------------------------------

  lemma ReadPatch(r: Reader, p: Patch, rest: seq<string>, u: string -> string) returns (to: Reader)
    requires Readable(p, u) && ReadyFor(r, p.git, FileOf(p))
    ensures OpenAt(to, r.files, Expected(p))
    ensures Scan(r, PatchLines(p) + rest, u) == Scan(to, rest, u)
  {
    hide Scan, GitPath, GitLine, OldLine, NewLine, HunkLines, IsBlank, ReadHunkHead, AllInserted, AllKept, AllDeleted;
    var tail := HunkLines(p.hunks) + (p.gap + rest);
    PatchSplits(p, rest);
    to := r;
    if p.git {
      to := ReadGitLines(r, p, NameLines(p) + tail, u);
    } else {
      assert GitLines(p) + (NameLines(p) + tail) == NameLines(p) + tail;
    }
    var f := Expected(p).(lines := GitLines(p) + NameLines(p), hunks := 0, added := [], context := [], removed := []);
    if p.hunks == [] {
      assert NameLines(p) + tail == tail && GitLines(p) + [] == GitLines(p);
    } else {
      to := ReadNames(to, r.files, p, tail, u);
    }
    to := ReadHunks(to, r.files, f, p.hunks, p.gap + rest, u);
    var g := WithHunks(f, p.hunks);
    forall k | 0 <= k < |p.gap| ensures Idle(p.gap[k], g) {
      BlankIsIdle(p.gap[k], g);
    }
    to := ReadIdle(to, r.files, g, p.gap, rest, u);
    ExpectedIs(p, f);
  }

  lemma PatchSplits(p: Patch, rest: seq<string>)
    ensures PatchLines(p) + rest
            == GitLines(p) + (NameLines(p) + (HunkLines(p.hunks) + (p.gap + rest)))
  {
    hide GitLines, NameLines, HunkLines;
    Regroup(GitLines(p), NameLines(p) + (HunkLines(p.hunks) + p.gap), rest);
    Regroup(NameLines(p), HunkLines(p.hunks) + p.gap, rest);
    Regroup(HunkLines(p.hunks), p.gap, rest);
  }

  lemma ExpectedIs(p: Patch, f: Section)
    requires f == Expected(p).(lines := GitLines(p) + NameLines(p), hunks := 0,
                               added := [], context := [], removed := [])
    ensures var g := WithHunks(f, p.hunks);
            g.(lines := g.lines + p.gap) == Expected(p)
  {
    hide GitLines, NameLines, HunkLines, AllInserted, AllKept, AllDeleted;
    Regroup(GitLines(p), NameLines(p), HunkLines(p.hunks) + p.gap);
    Regroup(GitLines(p) + NameLines(p), HunkLines(p.hunks), p.gap);
    assert [] + AllInserted(p.hunks) == AllInserted(p.hunks) && [] + AllKept(p.hunks) == AllKept(p.hunks)
        && [] + AllDeleted(p.hunks) == AllDeleted(p.hunks);
  }

  function DiffLines(ps: seq<Patch>): seq<string> {
    if ps == [] then [] else PatchLines(ps[0]) + DiffLines(ps[1..])
  }

  function ExpectedAll(ps: seq<Patch>): (fs: seq<Section>)
    ensures |fs| == |ps| && forall k :: 0 <= k < |ps| ==> fs[k] == Expected(ps[k])
  {
    if ps == [] then [] else [Expected(ps[0])] + ExpectedAll(ps[1..])
  }

  ghost predicate ReadableAll(ps: seq<Patch>, u: string -> string) {
    && (forall k :: 0 <= k < |ps| ==> Readable(ps[k], u))
    && (forall k :: 0 <= k < |ps| - 1 ==> Separable(ps[k], ps[k + 1]))
  }

  ghost predicate PrintableAll(ps: seq<Patch>, u: string -> string) {
    && (forall k :: 0 <= k < |ps| ==> Printable(ps[k], u))
    && (forall k :: 0 <= k < |ps| - 1 ==> Separable(ps[k], ps[k + 1]))
  }

  lemma {:induction false} ReadPatches(r: Reader, ps: seq<Patch>, rest: seq<string>, u: string -> string)
    returns (to: Reader)
    requires ReadableAll(ps, u) && !r.InHunk()
    requires ps != [] ==> ReadyFor(r, ps[0].git, FileOf(ps[0]))
    ensures to.files == r.files + ExpectedAll(ps) && !to.InHunk()
    ensures Scan(r, DiffLines(ps) + rest, u) == Scan(to, rest, u)
    decreases |ps|
  {
    hide PatchLines, Readable, Expected, FileOf, Scan;
    if ps == [] {
      to := r;
      assert r.files + [] == r.files && [] + rest == rest;
    } else {
      var more := DiffLines(ps[1..]) + rest;
      to := ReadPatch(r, ps[0], more, u);
      Regroup(PatchLines(ps[0]), DiffLines(ps[1..]), rest);
      if |ps| > 1 {
        assert Separable(ps[0], ps[1]);
        ReadyAfter(to, r.files, ps[0], ps[1], u);
      }
      forall k | 0 <= k < |ps| - 2 ensures Separable(ps[1..][k], ps[1..][k + 1]) {
        assert Separable(ps[k + 1], ps[k + 1 + 1]);
      }
      to := ReadPatches(to, ps[1..], rest, u);
      Regroup(r.files, [Expected(ps[0])], ExpectedAll(ps[1..]));
    }
  }

  lemma ReadyAfter(r: Reader, before: seq<Section>, p: Patch, q: Patch, u: string -> string)
    requires OpenAt(r, before, Expected(p)) && Separable(p, q) && Readable(p, u) && Readable(q, u)
    ensures ReadyFor(r, q.git, FileOf(q))
  {
    hide PatchLines, AllInserted, AllKept, AllDeleted, GitPath, GitLine;
  }

  /** The text of the patches: every line ended. */
  function Print(ps: seq<Patch>): string {
    Unlines(DiffLines(ps))
  }

  lemma ToldAreRead(ps: seq<Patch>, u: string -> string)
    requires PrintableAll(ps, u)
    ensures ReadableAll(ps, u)
  {
    hide Separable, WellFormed, GitReads, NamesTold;
    forall k | 0 <= k < |ps| ensures Readable(ps[k], u) {
      assert Printable(ps[k], u);
      ToldIsRead(ps[k], u);
    }
  }

  /** Splitting a printed diff gives one section per patch, in order, each with exactly
      the patch's rows; only the names are still made distinct. */
  lemma RoundTrip(ps: seq<Patch>, u: string -> string)
    requires PrintableAll(ps, u) && AllPlain(DiffLines(ps))
    ensures Sections(Print(ps), u) == Label(ExpectedAll(ps), map[])
  {
    ToldAreRead(ps, u);
    hide Label, LinesOf, DiffLines, PrintableAll, Step;
    LinesOfUnlines(DiffLines(ps));
    if ps != [] {
      assert ReadyFor(Start, ps[0].git, FileOf(ps[0]));
    }
    var to := ReadPatches(Start, ps, [], u);
    assert [] + ExpectedAll(ps) == ExpectedAll(ps) && DiffLines(ps) + [] == DiffLines(ps);
  }

  /** A line that is nothing of a diff: not blank, no header and no note of a missing line end. */
  ghost predicate Stray(line: string) {
    && !IsBlank(line) && ReadHunkHead(line).None? && !("\\" <= line) && !(GIT <= line) && '\n' !in line
  }

  lemma StepStray(r: Reader, before: seq<Section>, f: Section, line: string, u: string -> string)
    requires OpenAt(r, before, f) && f.hunks > 0 && Stray(line)
    ensures Step(r, [line], u) == Move(r.(files := before + [f.(lines := f.lines + [line], bad := OutsideHunk)]), 1)
  {
    hide ReadHunkHead, IsBlank;
    assert r.files[..|r.files| - 1] == before;
  }

  /** After the hunks of a printed diff such a line marks the section it falls into, and only it. */
  lemma StrayLineIsMarked(ps: seq<Patch>, last: Patch, line: string, u: string -> string)
    requires PrintableAll(ps + [last], u) && AllPlain(DiffLines(ps + [last])) && last.hunks != [] && Stray(line)
    ensures var f := Expected(last);
            Sections(Unlines(DiffLines(ps + [last]) + [line]), u)
            == Label(ExpectedAll(ps) + [f.(lines := f.lines + [line], bad := OutsideHunk)], map[])
  {
    hide Label, Scan, LinesOf, DiffLines, PrintableAll, Expected, ExpectedAll, Stray, AllPlain;
    var all := ps + [last];
    PlainMore(DiffLines(all), line);
    LinesOfUnlines(DiffLines(all) + [line]);
    ScanStray(ps, last, line, u);
  }

  lemma ScanStray(ps: seq<Patch>, last: Patch, line: string, u: string -> string)
    requires PrintableAll(ps + [last], u) && last.hunks != [] && Stray(line)
    ensures var f, end := Expected(last), Scan(Start, DiffLines(ps + [last]) + [line], u);
            && end.files == ExpectedAll(ps) + [f.(lines := f.lines + [line], bad := OutsideHunk)]
            && !end.InHunk()
  {
    hide DiffLines, PrintableAll, Step, Expected, ExpectedAll, Stray, FileOf;
    var all, f := ps + [last], Expected(last);
    ToldAreRead(all, u);
    ExpectedLast(ps, last);
    assert ReadyFor(Start, all[0].git, FileOf(all[0]));
    var to := ReadPatches(Start, all, [line], u);
    assert [] + (ExpectedAll(ps) + [f]) == ExpectedAll(ps) + [f];
    StepStray(to, ExpectedAll(ps), f, line, u);
    assert [line][1..] == [];
  }

  lemma PlainMore(lines: seq<string>, line: string)
    requires AllPlain(lines) && Stray(line)
    ensures AllPlain(lines + [line])
  {
  }

  lemma {:induction false} ExpectedLast(ps: seq<Patch>, last: Patch)
    ensures ExpectedAll(ps + [last]) == ExpectedAll(ps) + [Expected(last)] && Expected(last).hunks == |last.hunks|
  {
    hide Expected;
    if ps == [] {
      assert [] + [last] == [last] && [last][1..] == [];
    } else {
      ExpectedLast(ps[1..], last);
      assert (ps + [last])[1..] == ps[1..] + [last];
    }
    ExpectedHunks(last);
  }

  lemma ExpectedHunks(p: Patch)
    ensures Expected(p).hunks == |p.hunks|
  {
  }

  // ---- names -------------------------------------------------------------

  /** Names that are distinct and written with forward slashes are left as they are. */
  lemma {:induction false} DistinctNamesStay(files: seq<Section>, seen: Tally)
    requires forall k :: 0 <= k < |files| ==> files[k].file != "" && '\\' !in files[k].file
    requires forall k :: 0 <= k < |files| ==> files[k].file !in seen
    requires forall i, j :: 0 <= i < j < |files| ==> files[i].file != files[j].file
    ensures Label(files, seen) == files
  {
    if files != [] {
      hide Decimal, Slashes;
      NoBackslash(files[0].file);
      var f := files[0];
      assert Named(f) == f;
      DistinctNamesStay(files[1..], seen[f.file := 1]);
    }
  }

  lemma {:induction false} NoBackslash(path: string)
    requires '\\' !in path
    ensures Slashes(path) == path
  {
    if path != "" {
      NoBackslash(path[1..]);
      assert path == [path[0]] + path[1..];
    }
  }

  // ---- the rows are those of the new file --------------------------------

  /** The hunk shows what the two files hold where it says it is. */
  ghost predicate Describes(h: Hunk, old_: seq<string>, new_: seq<string>) {
    && (OldSide(h.edits) != [] ==> h.oldStart >= 1 && OldSide(h.edits) <= old_[SafeFrom(h.oldStart, old_)..])
    && (NewSide(h.edits) != [] ==> h.newStart >= 1 && NewSide(h.edits) <= new_[SafeFrom(h.newStart, new_)..])
  }

  function SafeFrom(start: nat, lines: seq<string>): (k: nat)
    ensures k <= |lines|
  {
    if 1 <= start <= |lines| then start - 1 else |lines|
  }

  ghost predicate RowsFit(rows: seq<Row>, no: nat, side: seq<string>) {
    forall k :: 0 <= k < |rows| ==> no <= rows[k].no < no + |side| && side[rows[k].no - no] == rows[k].text
  }

  lemma {:induction false} RowsCounted(edits: seq<Edit>, no: nat)
    ensures |InsertedRows(edits, no)| + |KeptRows(edits, no)| == |NewSide(edits)|
    ensures |Deleted(edits)| + |KeptRows(edits, no)| == |OldSide(edits)|
  {
    if edits != [] {
      RowsCounted(edits[1..], no + |NewPart(edits[0])|);
    }
  }

  lemma RowsFitMore(part: seq<Row>, rows: seq<Row>, no: nat, one: seq<string>, side: seq<string>)
    requires RowsFit(part, no, one) && RowsFit(rows, no + |one|, side)
    ensures RowsFit(part + rows, no, one + side)
  {
  }

  lemma {:induction false} InsertedFit(edits: seq<Edit>, no: nat)
    ensures RowsFit(InsertedRows(edits, no), no, NewSide(edits))
  {
    if edits != [] {
      var e, more := edits[0], no + |NewPart(edits[0])|;
      InsertedFit(edits[1..], more);
      PartsFit(e, no);
      hide RowsFit, InsertedPart, NewPart;
      RowsFitMore(InsertedPart(e, no), InsertedRows(edits[1..], more), no, NewPart(e), NewSide(edits[1..]));
    }
  }

  lemma {:induction false} KeptFit(edits: seq<Edit>, no: nat)
    ensures RowsFit(KeptRows(edits, no), no, NewSide(edits))
  {
    if edits != [] {
      var e, more := edits[0], no + |NewPart(edits[0])|;
      KeptFit(edits[1..], more);
      PartsFit(e, no);
      hide RowsFit, KeptPart, NewPart;
      RowsFitMore(KeptPart(e, no), KeptRows(edits[1..], more), no, NewPart(e), NewSide(edits[1..]));
    }
  }

  lemma PartsFit(e: Edit, no: nat)
    ensures RowsFit(InsertedPart(e, no), no, NewPart(e)) && RowsFit(KeptPart(e, no), no, NewPart(e))
  {
  }

  ghost predicate RowsOf(rows: seq<Row>, new_: seq<string>) {
    forall k :: 0 <= k < |rows| ==> 1 <= rows[k].no <= |new_| && new_[rows[k].no - 1] == rows[k].text
  }

  lemma HunkRowsOf(h: Hunk, old_: seq<string>, new_: seq<string>)
    requires Describes(h, old_, new_)
    ensures RowsOf(InsertedRows(h.edits, h.newStart), new_) && RowsOf(KeptRows(h.edits, h.newStart), new_)
  {
    InsertedFit(h.edits, h.newStart);
    KeptFit(h.edits, h.newStart);
    hide InsertedRows, KeptRows, NewSide, OldSide;
    var side := NewSide(h.edits);
    if side != [] {
      var from := SafeFrom(h.newStart, new_);
      assert forall k :: 0 <= k < |side| ==> side[k] == new_[from..][k] == new_[from + k];
    }
  }

  lemma {:induction false} AllRowsOf(hunks: seq<Hunk>, old_: seq<string>, new_: seq<string>)
    requires forall k :: 0 <= k < |hunks| ==> Describes(hunks[k], old_, new_)
    ensures RowsOf(AllInserted(hunks), new_) && RowsOf(AllKept(hunks), new_)
  {
    if hunks != [] {
      var h := hunks[0];
      HunkRowsOf(h, old_, new_);
      AllRowsOf(hunks[1..], old_, new_);
      hide InsertedRows, KeptRows, Describes;
      MoreRowsOf(InsertedRows(h.edits, h.newStart), AllInserted(hunks[1..]), new_);
      MoreRowsOf(KeptRows(h.edits, h.newStart), AllKept(hunks[1..]), new_);
    }
  }

  lemma MoreRowsOf(a: seq<Row>, b: seq<Row>, new_: seq<string>)
    requires RowsOf(a, new_) && RowsOf(b, new_)
    ensures RowsOf(a + b, new_)
  {
  }

  /** For files and hunks that describe them: reading the printed diff gives every patch back
      but for the name, whatever the names, and every numbered row is that line of the new file. */
  lemma RoundTripOfFiles(ps: seq<Patch>, olds: seq<seq<string>>, news: seq<seq<string>>, u: string -> string)
    requires PrintableAll(ps, u) && AllPlain(DiffLines(ps)) && |olds| == |ps| == |news|
    requires forall i, j :: 0 <= i < |ps| && 0 <= j < |ps[i].hunks| ==> Describes(ps[i].hunks[j], olds[i], news[i])
    ensures var files := Sections(Print(ps), u);
            && |files| == |ps|
            && forall i :: 0 <= i < |ps| ==>
                 && files[i] == Expected(ps[i]).(file := files[i].file) && files[i].bad == Fine
                 && RowsOf(files[i].added, news[i]) && RowsOf(files[i].context, news[i])
                 && files[i].removed == AllDeleted(ps[i].hunks)
  {
    RoundTrip(ps, u);
    hide Sections, Print, Label, PatchLines, AllInserted, AllKept, AllDeleted, DiffLines, Describes, Printable;
    var all := ExpectedAll(ps);
    DiffAnyInput.LabelOnlyNames(all, map[]);
    forall i | 0 <= i < |ps|
      ensures Label(all, map[])[i] == Expected(ps[i]).(file := Label(all, map[])[i].file)
      ensures RowsOf(AllInserted(ps[i].hunks), news[i]) && RowsOf(AllKept(ps[i].hunks), news[i])
    {
      NamedFile(ps[i], u);
      assert DiffAnyInput.OnlyNamed(all[i], Label(all, map[])[i]);
      AllRowsOf(ps[i].hunks, olds[i], news[i]);
    }
  }

  lemma NamedFile(p: Patch, u: string -> string)
    requires Printable(p, u)
    ensures Expected(p).file == FileOf(p) != ""
  {
  }

  /** And files each with a name of its own, written with forward slashes, keep their names. */
  lemma OwnNamesComeBack(ps: seq<Patch>, u: string -> string)
    requires PrintableAll(ps, u) && AllPlain(DiffLines(ps))
    requires forall i :: 0 <= i < |ps| ==> '\\' !in FileOf(ps[i])
    requires forall i, j :: 0 <= i < j < |ps| ==> FileOf(ps[i]) != FileOf(ps[j])
    ensures Sections(Print(ps), u) == ExpectedAll(ps)
  {
    hide *;
    RoundTrip(ps, u);
    var all := ExpectedAll(ps);
    forall k | 0 <= k < |ps| ensures all[k].file == FileOf(ps[k]) != "" {
      EveryPrintable(ps, k, u);
      NamedFile(ps[k], u);
    }
    DistinctNamesStay(all, map[]);
  }

  lemma EveryPrintable(ps: seq<Patch>, k: nat, u: string -> string)
    requires PrintableAll(ps, u) && k < |ps|
    ensures Printable(ps[k], u)
  {
  }
}
