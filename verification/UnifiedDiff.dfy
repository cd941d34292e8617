/** The unified-diff reader of the code review: a one-pass state machine that
    counts each hunk down from its header, hands a line it cannot use back to
    be read again, and looks one line ahead for a `---`/`+++` pair. */
module UnifiedDiff {
  import opened Text
  import opened Wrappers

  /** Why a section is not to be trusted. */
  datatype Fault = Fine | ShortHunk | OutsideHunk | EndsInHunk | NoName

  /** A line of the new file: its number there and its text. */
  datatype Row = Row(no: nat, text: string)

  datatype Section = Section(
    file: string, lines: seq<string>, added: seq<Row>, context: seq<Row>, removed: seq<string>,
    deleted: bool, hunks: nat, git: bool, named: bool, bad: Fault)

  function NewSection(path: string, git: bool): Section {
    Section(path, [], [], [], [], false, 0, git, false, Fine)
  }

  // ---- header lines -----------------------------------------------------

  /** What stands between the quotes of a quoted path is decoded by `u`. */
  function Unquote(p: string, u: string -> string): string {
    if |p| >= 2 && p[0] == '"' && p[|p| - 1] == '"' then u(p[1..|p| - 1]) else p
  }

  function StripSide(p: string): string {
    if "a/" <= p || "b/" <= p then p[2..] else p
  }

  /** The path in a `--- a/x` or `+++ b/x` line; "" for /dev/null. */
  function HeaderPath(line: string, u: string -> string): string
    requires |line| >= 4
  {
    var p := Unquote(Strip(Split(line[4..], '\t')[0]), u);
    if p == "/dev/null" then "" else StripSide(p)
  }

  /** Where the second name begins, when the first name is not read as quoted text:
      the least position from `k` on of a space that a `b/` path follows. */
  function SecondName(rest: string, k: nat): (at: nat)
    requires k <= |rest|
    ensures k <= at <= |rest|
    decreases |rest| - k
  {
    if k == |rest| then k
    else if rest[k] == ' ' && IsSecond(rest[k + 1..]) then k
    else SecondName(rest, k + 1)
  }

  predicate IsSecond(s: string) {
    ("b/" <= s && |s| > 2) || ("\"b/" <= s && |s| > 3)
  }

  /** The path in `diff --git a/x b/x`. */
  function GitPath(line: string, u: string -> string): string
    requires GIT <= line
  {
    GitName(line[|GIT|..], u)
  }

  /** What follows `diff --git ` splits in the middle when both names are the same;
      otherwise at the first place a second name can begin. */
  function GitName(rest: string, u: string -> string): string {
    var mid := |rest| / 2;
    if |rest| % 2 == 1 && rest[mid] == ' '
       && StripSide(Unquote(rest[..mid], u)) == StripSide(Unquote(rest[mid + 1..], u))
    then StripSide(Unquote(rest[mid + 1..], u))
    else
      var open := if "a/" <= rest then 2 else if "\"a/" <= rest then 3 else 0;
      if open == 0 || |rest| <= open + 1 then ""
      else
        var at := SecondName(rest, open + 1);
        if at == |rest| then "" else StripSide(Unquote(rest[at + 1..], u))
  }

  const GIT := "diff --git "
  const MINUS := "--- "
  const PLUS := "+++ "

  // ---- hunk headers -----------------------------------------------------

  datatype HunkHead = HunkHead(oldCount: nat, newStart: nat, newCount: nat)

  /** A side of a hunk header, `12` or `12,3`, and what follows it. A side
      without a count has one line. */
  datatype Side = Side(start: nat, count: nat, rest: string)

  function ReadSide(s: string): Option<Side> {
    var d := DigitCount(s);
    if d == 0 then None
    else if d < |s| && s[d] == ',' && DigitCount(s[d + 1..]) > 0 then
      var e := DigitCount(s[d + 1..]);
      Some(Side(ToNat(s[..d]), ToNat(s[d + 1..][..e]), s[d + 1..][e..]))
    else Some(Side(ToNat(s[..d]), 1, s[d..]))
  }

  function ReadHunkHead(line: string): Option<HunkHead> {
    if !("@@ -" <= line) then None
    else
      match ReadSide(line[4..])
      case None => None
      case Some(o) =>
        if !(" +" <= o.rest) then None
        else
          match ReadSide(o.rest[2..])
          case None => None
          case Some(n) => if " @@" <= n.rest then Some(HunkHead(o.count, n.start, n.count)) else None
  }

  /** A row of a hunk, or a file header, is no hunk header. */
  lemma RowIsNoHeader(line: string)
    requires line == "" || line[0] != '@'
    ensures ReadHunkHead(line).None?
  {
  }

  // ---- the state machine ------------------------------------------------

  datatype Reader = Reader(files: seq<Section>, oldLeft: nat, newLeft: nat, newNo: nat)
  {
    predicate InHunk() {
      oldLeft > 0 || newLeft > 0
    }

    /** Inside a hunk there is a section to put its lines in. */
    predicate Valid() {
      InHunk() ==> files != []
    }

    function Cur(): Section
      requires files != []
    {
      files[|files| - 1]
    }

    function Put(cur: Section): (r: Reader)
      requires files != []
    {
      this.(files := files[..|files| - 1] + [cur])
    }
  }

  const Start := Reader([], 0, 0, 0)

  /** What one step does to the reader, and how many lines it uses up:
      none when the line is handed back, two for a `---`/`+++` pair. */
  datatype Move = Move(to: Reader, used: nat)

  function Tail(line: string): string {
    if line == "" then "" else line[1..]
  }

  predicate IsPair(lines: seq<string>)
    requires lines != []
  {
    MINUS <= lines[0] && |lines| > 1 && PLUS <= lines[1]
  }

  function StepInHunk(r: Reader, line: string): (m: Move)
    requires r.Valid() && r.InHunk()
    ensures m.to.Valid() && m.used <= 1
    ensures m.used == 0 ==> !m.to.InHunk()
  {
    var cur := r.Cur();
    var kept := cur.(lines := cur.lines + [line]);
    var row := Row(r.newNo, Tail(line));
    if "+" <= line && r.newLeft > 0 then
      Move(r.Put(kept.(added := cur.added + [row])).(newNo := r.newNo + 1, newLeft := r.newLeft - 1), 1)
    else if "-" <= line && r.oldLeft > 0 then
      Move(r.Put(kept.(removed := cur.removed + [Tail(line)])).(oldLeft := r.oldLeft - 1), 1)
    else if "\\" <= line then
      Move(r.Put(kept), 1)
    else if (" " <= line || line == "") && r.oldLeft > 0 && r.newLeft > 0 then
      Move(r.Put(kept.(context := cur.context + [row]))
           .(newNo := r.newNo + 1, oldLeft := r.oldLeft - 1, newLeft := r.newLeft - 1), 1)
    else
      Move(r.Put(cur.(bad := ShortHunk)).(oldLeft := 0, newLeft := 0), 0)
  }

  /** The section a `---`/`+++` pair belongs to: the open one while it has
      neither hunks nor names, unless git named another file. */
  predicate PairOpens(r: Reader, name: string) {
    r.files == []
    || var cur := r.Cur();
       cur.hunks > 0 || cur.named || (cur.git && cur.file != "" && name != "" && name != cur.file)
  }

  function StepPair(r: Reader, minus: string, plus: string, u: string -> string): (s: Reader)
    requires |minus| >= 4 && |plus| >= 4
  {
    var to := HeaderPath(plus, u);
    var name := if to != "" then to else HeaderPath(minus, u);
    var s := if PairOpens(r, name) then r.(files := r.files + [NewSection("", false)]) else r;
    var cur := s.Cur();
    s.Put(cur.(lines := cur.lines + [minus, plus], named := true,
               file := if name != "" then name else cur.file, deleted := to == ""))
  }

  function StepPlainLine(r: Reader, line: string): (s: Reader)
    requires r.files != []
  {
    var cur := r.Cur();
    var kept := cur.(lines := cur.lines + [line]);
    match ReadHunkHead(line)
    case Some(h) =>
      r.Put(kept.(hunks := cur.hunks + 1)).(oldLeft := h.oldCount, newNo := h.newStart, newLeft := h.newCount)
    case None =>
      r.Put(if cur.hunks > 0 && !IsBlank(line) && !("\\" <= line) then kept.(bad := OutsideHunk) else kept)
  }

  function Step(r: Reader, lines: seq<string>, u: string -> string): (m: Move)
    requires r.Valid() && lines != []
    ensures m.to.Valid() && m.used <= |lines|
    ensures m.used == 0 ==> r.InHunk() && !m.to.InHunk()
  {
    var line := lines[0];
    if r.InHunk() then StepInHunk(r, line)
    else if GIT <= line then
      var s := NewSection(GitPath(line, u), true);
      Move(r.(files := r.files + [s.(lines := [line])]), 1)
    else if IsPair(lines) then
      Move(StepPair(r, line, lines[1], u), 2)
    else if r.files == [] then Move(r, 1)
    else Move(StepPlainLine(r, line), 1)
  }

  /** The whole pass. A step that uses no line leaves the hunk, so twice the
      unread lines, plus one inside a hunk, goes down at every step. */
  function Scan(r: Reader, lines: seq<string>, u: string -> string): (end: Reader)
    requires r.Valid()
    ensures end.Valid()
    decreases 2 * |lines| + if r.InHunk() then 1 else 0
  {
    if lines == [] then r
    else
      var m := Step(r, lines, u);
      Scan(m.to, lines[m.used..], u)
  }

  // ---- after the pass ---------------------------------------------------

  function Close(r: Reader): (files: seq<Section>)
    requires r.Valid()
    ensures |files| == |r.files|
  {
    if r.InHunk() then r.files[..|r.files| - 1] + [r.Cur().(bad := EndsInHunk)] else r.files
  }

  function Slashes(path: string): (p: string)
    ensures |p| == |path|
  {
    if path == "" then ""
    else [if path[0] == '\\' then '/' else path[0]] + Slashes(path[1..])
  }

  const NAMELESS := "(a part of the diff with no file name)"

  function Named(f: Section): Section {
    var name := Slashes(f.file);
    if name == "" then f.(file := NAMELESS, bad := NoName) else f.(file := name)
  }

  /** How many sections have carried each name so far. */
  type Tally = map<string, nat>

  function Count(seen: Tally, name: string): nat {
    if name in seen then seen[name] else 0
  }

  /** One row per section: a name that comes again is numbered. */
  function Number(f: Section, k: nat): Section {
    if k > 1 then f.(file := f.file + " (" + Decimal(k) + ")") else f
  }

  function Label(files: seq<Section>, seen: Tally): (out: seq<Section>)
    ensures |out| == |files|
  {
    if files == [] then []
    else
      var f := Named(files[0]);
      var k := Count(seen, f.file) + 1;
      [Number(f, k)] + Label(files[1..], seen[f.file := k])
  }

  function Sections(diff: string, u: string -> string): seq<Section> {
    Label(Close(Scan(Start, LinesOf(diff), u)), map[])
  }

  /** What a section says, as one text. */
  function TextOf(f: Section): string {
    if f.lines == [] then "" else Join(f.lines, '\n')
  }

  /** A line inside a hunk; `used` is false when it is handed back. */
  method TakeHunkLine(r: Reader, line: string) returns (to: Reader, used: bool)
    requires r.Valid() && r.InHunk()
    ensures Move(to, if used then 1 else 0) == StepInHunk(r, line)
  {
    var cur := r.Cur();
    var oldLeft, newLeft, newNo := r.oldLeft, r.newLeft, r.newNo;
    if "+" <= line && newLeft > 0 {
      cur := cur.(added := cur.added + [Row(newNo, Tail(line))]);
      newNo, newLeft := newNo + 1, newLeft - 1;
    } else if "-" <= line && oldLeft > 0 {
      cur := cur.(removed := cur.removed + [Tail(line)]);
      oldLeft := oldLeft - 1;
    } else if "\\" <= line {
    } else if (" " <= line || line == "") && oldLeft > 0 && newLeft > 0 {
      cur := cur.(context := cur.context + [Row(newNo, Tail(line))]);
      newNo, oldLeft, newLeft := newNo + 1, oldLeft - 1, newLeft - 1;
    } else {
      to := r.Put(cur.(bad := ShortHunk)).(oldLeft := 0, newLeft := 0);
      return to, false;
    }
    cur := cur.(lines := cur.lines + [line]);
    to, used := Reader(r.Put(cur).files, oldLeft, newLeft, newNo), true;
  }

  /** A line outside any hunk, in a section: a hunk header, or not. */
  method TakePlainLine(r: Reader, line: string) returns (to: Reader)
    requires r.files != []
    ensures to == StepPlainLine(r, line)
  {
    hide ReadHunkHead, IsBlank;
    var cur := r.Cur();
    var oldLeft, newLeft, newNo := r.oldLeft, r.newLeft, r.newNo;
    var h := ReadHunkHead(line);
    if h.Some? {
      cur := cur.(hunks := cur.hunks + 1);
      oldLeft, newNo, newLeft := h.value.oldCount, h.value.newStart, h.value.newCount;
    } else if cur.hunks > 0 && !IsBlank(line) && !("\\" <= line) {
      cur := cur.(bad := OutsideHunk);
    }
    cur := cur.(lines := cur.lines + [line]);
    to := Reader(r.Put(cur).files, oldLeft, newLeft, newNo);
  }

  /** A `---`/`+++` pair outside any hunk. */
  method TakePair(r: Reader, minus: string, plus: string, u: string -> string) returns (to: Reader)
    requires |minus| >= 4 && |plus| >= 4
    ensures to == StepPair(r, minus, plus, u)
  {
    hide HeaderPath;
    var files := r.files;
    var target := HeaderPath(plus, u);
    var name := target;
    if name == "" {
      name := HeaderPath(minus, u);
    }
    if files == [] || files[|files| - 1].hunks > 0 || files[|files| - 1].named
       || (files[|files| - 1].git && files[|files| - 1].file != "" && name != ""
           && name != files[|files| - 1].file) {
      files := files + [NewSection("", false)];
    }
    var cur := files[|files| - 1];
    cur := cur.(lines := cur.lines + [minus, plus], named := true);
    if name != "" {
      cur := cur.(file := name);
    }
    cur := cur.(deleted := target == "");
    to := r.(files := files[..|files| - 1] + [cur]);
  }

  lemma ScanOne(r: Reader, lines: seq<string>, u: string -> string)
    requires r.Valid() && lines != []
    ensures var m := Step(r, lines, u); m.to.Valid() && m.used <= |lines| && Scan(r, lines, u) == Scan(m.to, lines[m.used..], u)
  {
    hide StepInHunk, StepPlainLine, StepPair, GitPath;
  }

  lemma ScanNothing(r: Reader, u: string -> string)
    requires r.Valid()
    ensures Scan(r, [], u) == r
  {
  }

  /** The pass as it is written: one loop over the lines, the open section last in `files`. */
  method SplitFiles(diff: string, u: string -> string) returns (files: seq<Section>)
    ensures files == Sections(diff, u)
  {
    hide StepInHunk, StepPlainLine, StepPair, GitPath, Scan, Label, Split;
    var r := Start;
    var lines := Split(diff, '\n');
    if lines[|lines| - 1] == "" {
      lines := lines[..|lines| - 1];
    }
    var i, n := 0, |lines|;
    while i < n
      invariant 0 <= i <= n && r.Valid()
      invariant Scan(r, lines[i..], u) == Scan(Start, lines, u)
      decreases 2 * (n - i) + if r.InHunk() then 1 else 0
    {
      ghost var before, from := r, i;
      var line := lines[i];
      i := i + 1;
      if r.InHunk() {
        var used;
        r, used := TakeHunkLine(r, line);
        if !used {
          i := i - 1;
        }
      } else if GIT <= line {
        r := r.(files := r.files + [NewSection(GitPath(line, u), true).(lines := [line])]);
      } else if MINUS <= line && i < n && PLUS <= lines[i] {
        r := TakePair(r, line, lines[i], u);
        i := i + 1;
      } else if r.files != [] {
        r := TakePlainLine(r, line);
      }
      assert Step(before, lines[from..], u) == Move(r, i - from);
      ScanOne(before, lines[from..], u);
      assert lines[from..][i - from..] == lines[i..];
    }
    assert lines[n..] == [];
    ScanNothing(r, u);
    files := r.files;
    if files != [] && r.InHunk() {
      files := files[..|files| - 1] + [files[|files| - 1].(bad := EndsInHunk)];
    }
    files := NameSections(files);
  }

  lemma LabelOne(f: Section, more: seq<Section>, seen: Tally)
    ensures var g := Named(f);
            var k := Count(seen, g.file) + 1;
            Label([f] + more, seen) == [Number(g, k)] + Label(more, seen[g.file := k])
  {
    hide Named, Number;
    assert ([f] + more)[1..] == more;
  }

  lemma LabelNothing(seen: Tally)
    ensures Label([], seen) == []
  {
  }

  /** The second loop: names, and a number for a name that comes again. */
  method NameSections(files: seq<Section>) returns (done: seq<Section>)
    ensures done == Label(files, map[])
  {
    hide Named, Number, Label;
    var seen: Tally := map[];
    done := [];
    assert files[0..] == files && [] + Label(files, seen) == Label(files, seen);
    var i := 0;
    while i < |files|
      invariant 0 <= i <= |files|
      invariant done + Label(files[i..], seen) == Label(files, map[])
    {
      var f := Named(files[i]);
      ghost var before := seen;
      seen := seen[f.file := Count(seen, f.file) + 1];
      LabelOne(files[i], files[i + 1..], before);
      assert files[i..] == [files[i]] + files[i + 1..];
      ghost var rest := Label(files[i + 1..], seen);
      assert done + ([Number(f, seen[f.file])] + rest) == done + [Number(f, seen[f.file])] + rest;
      done := done + [Number(f, seen[f.file])];
      i := i + 1;
    }
    assert files[|files|..] == [];
    LabelNothing(seen);
    assert done + [] == done;
  }
}
