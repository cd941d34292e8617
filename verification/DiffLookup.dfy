/** Cutting a section to what is sent, and finding a quoted line in it. */
module DiffLookup {
  import opened Text
  import opened UnifiedDiff
  import opened DiffAnyInput
  import opened DiffTrim
  import opened Wrappers

  const FILE_CHARS := 30000

  // ---- where a text is cut -----------------------------------------------

  /** `s` up to its last `sep`; all of it when there is none. */
  function BeforeLast(s: string, sep: char): (r: string)
    ensures sep !in s ==> r == s
    ensures sep in s ==> r + [sep] <= s && sep !in s[|r| + 1..]
  {
    if sep !in s then s
    else if s[|s| - 1] == sep then s[..|s| - 1]
    else
      assert s == s[..|s| - 1] + [s[|s| - 1]];
      BeforeLast(s[..|s| - 1], sep)
  }

  function CountOf(s: string, c: char): (n: nat) {
    if s == "" then 0 else (if s[0] == c then 1 else 0) + CountOf(s[1..], c)
  }

  lemma {:induction false} CountIsParts(s: string, c: char)
    ensures CountOf(s, c) == |Split(s, c)| - 1
  {
    if s != "" {
      CountIsParts(s[1..], c);
    }
  }

  lemma {:induction false} JoinSplits(parts: seq<string>, j: nat, sep: char)
    requires 0 < j < |parts|
    ensures Join(parts, sep) == Join(parts[..j], sep) + [sep] + Join(parts[j..], sep)
  {
    if j > 1 {
      JoinSplits(parts[1..], j - 1, sep);
      assert parts[..j][1..] == parts[1..][..j - 1] && parts[1..][j - 1..] == parts[j..];
      var a, b := Join(parts[1..][..j - 1], sep), Join(parts[j..], sep);
      assert parts[0] + [sep] + (a + [sep] + b) == (parts[0] + [sep] + a) + [sep] + b;
    } else {
      assert parts[..1] == [parts[0]];
    }
  }

  /** The line break after the first `j` lines. */
  lemma BreakAt(lines: seq<string>, j: nat)
    requires 0 < j < |lines|
    ensures var q := |Join(lines[..j], '\n')|;
            q < |Join(lines, '\n')| && Join(lines, '\n')[q] == '\n'
            && Join(lines, '\n')[..q] == Join(lines[..j], '\n')
  {
    JoinSplits(lines, j, '\n');
  }

  lemma JoinOne(lines: seq<string>)
    requires lines != []
    ensures Join(lines[..1], '\n') == lines[0]
    ensures |lines| > 1 ==> |Join(lines[..2], '\n')| == |lines[0]| + 1 + |lines[1]|
  {
    assert lines[..1] == [lines[0]];
    if |lines| > 1 {
      assert lines[..2][1..] == [lines[1]];
    }
  }

  lemma CutPiece(lines: seq<string>, n: nat)
    requires lines != [] && |Join(lines, '\n')| > n && '\n' !in Join(lines, '\n')[..n]
    ensures n <= |lines[0]| && Join(lines, '\n')[..n] == lines[0][..n]
  {
    JoinOne(lines);
    hide Join;
    if |lines| > 1 {
      BreakAt(lines, 1);
      var text := Join(lines, '\n');
      assert forall k :: 0 <= k < n ==> text[k] == text[..n][k];
      assert text[..n] == text[..|lines[0]|][..n];
    } else {
      assert lines[..1] == lines;
    }
  }

  lemma CutWhole(lines: seq<string>, n: nat) returns (j: nat)
    requires lines != [] && AllPlain(lines) && |Join(lines, '\n')| > n
    requires '\n' in Join(lines, '\n')[..n]
    ensures var kept := BeforeLast(Join(lines, '\n')[..n], '\n');
            0 < j < |lines| && kept == Join(lines[..j], '\n') && |kept| < n
  {
    hide Join, BeforeLast;
    var text := Join(lines, '\n');
    var kept := BeforeLast(text[..n], '\n');
    SplitJoin(lines, '\n');
    var tail := text[|kept| + 1..];
    assert kept + ['\n'] == text[..n][..|kept| + 1] == text[..|kept| + 1];
    assert text == kept + ['\n'] + tail;
    SplitAtSeparator(kept, tail, '\n');
    j := |Split(kept, '\n')|;
    assert lines[..j] == Split(kept, '\n');
    SplitParts(kept, '\n');
  }

  /** Cutting joined lines at the last line break among the first `n` characters keeps
      whole lines, or a piece of the first line when there is no line break there. */
  lemma CutIsLines(lines: seq<string>, n: nat) returns (j: nat)
    requires lines != [] && AllPlain(lines) && |Join(lines, '\n')| > n
    ensures var kept := BeforeLast(Join(lines, '\n')[..n], '\n');
            && (j == 0 ==> n <= |lines[0]| && kept == lines[0][..n])
            && (j > 0 ==> j < |lines| && kept == Join(lines[..j], '\n') && |kept| < n)
            && (j == 1 ==> n <= |lines[0]| + |lines[1]| + 1)
  {
    var text := Join(lines, '\n');
    if '\n' in text[..n] {
      j := CutWhole(lines, n);
      if j == 1 {
        JoinOne(lines);
        hide Join, BeforeLast;
        if |lines| > 2 {
          BreakAt(lines, 2);
          var q, kept := |Join(lines[..2], '\n')|, BeforeLast(text[..n], '\n');
          assert forall i :: |kept| < i < n ==> text[i] == text[..n][|kept| + 1..][i - |kept| - 1];
        } else {
          assert lines[..2] == lines;
        }
      }
    } else {
      j := 0;
      CutPiece(lines, n);
    }
  }

  // ---- trimming ----------------------------------------------------------

  /** What of a section is sent: its text or the start of it, how many lines stay
      unread, and the section a quote is looked up in. */
  datatype Trimmed = Trimmed(sent: string, unread: int, seen: Section)

  function TrimOf(f: Section, u: string -> string): Trimmed {
    var text := TextOf(f);
    if |text| <= FILE_CHARS then Trimmed(text, 0, f)
    else
      var kept := BeforeLast(text[..FILE_CHARS], '\n');
      var part := Sections(kept, u);
      Trimmed(kept, CountOf(text, '\n') - CountOf(kept, '\n'), if part != [] then part[0] else f)
  }

  /** What of the section's header survives the cut: a `diff --git` line needs no more
      than its marker, a `---`/`+++` pair has to be sent whole. */
  ghost predicate HeaderSurvives(f: Section) {
    |f.lines| > 0
    && (GIT <= f.lines[0] || (|f.lines| > 1 && |f.lines[0]| + 1 + |f.lines[1]| < FILE_CHARS))
  }

  lemma PieceOfHeader(line: string, n: nat, u: string -> string)
    requires |GIT| <= n <= |line|
    requires GIT <= line || MINUS <= line
    ensures var cut := Scan(Start, [line[..n]], u);
            && (cut.files == [] <==> !(GIT <= line))
            && (cut.files != [] ==>
                 |cut.files| == 1 && cut.files[0].added == [] && cut.files[0].context == []
                 && cut.files[0].removed == [])
  {
    hide GitPath, HeaderPath;
    assert GIT <= line <==> GIT <= line[..n];
    assert [line[..n]][1..] == [];
    var m := Step(Start, [line[..n]], u);
    assert Scan(m.to, [], u) == m.to;
  }

  lemma LinesOfJoin(lines: seq<string>)
    requires lines != [] && AllPlain(lines)
    ensures LinesOf(Join(lines, '\n')) == if lines[|lines| - 1] == "" then lines[..|lines| - 1] else lines
  {
    SplitJoin(lines, '\n');
  }

  lemma LinesOfPlain(s: string)
    requires s != "" && '\n' !in s
    ensures Split(s, '\n') == [s] && LinesOf(s) == [s]
  {
    SplitPlain(s, '\n');
  }

  lemma LinesOfPrefix(lines: seq<string>, j: nat) returns (i: nat)
    requires 0 < j <= |lines| && AllPlain(lines) && lines[0] != ""
    ensures 1 <= i <= j && LinesOf(Join(lines[..j], '\n')) == lines[..i]
    ensures Split(Join(lines[..j], '\n'), '\n') == lines[..j]
    ensures i == j || (i == j - 1 && lines[i] == "")
  {
    hide Join;
    SplitJoin(lines[..j], '\n');
    LinesOfJoin(lines[..j]);
    i := if lines[j - 1] == "" then j - 1 else j;
    assert lines[..j][..j - 1] == lines[..j - 1];
  }

  /** What is read from the cut of a section when whole lines are kept. */
  lemma ReadWholeLines(diff: string, k: nat, j: nat, u: string -> string)
    requires k < |Sections(diff, u)| && 0 < j < |Sections(diff, u)[k].lines|
    ensures var f := Sections(diff, u)[k];
            var kept := Join(f.lines[..j], '\n');
            var cut := Scan(Start, LinesOf(kept), u);
            && Split(kept, '\n') == f.lines[..j]
            && (cut.files == [] <==> j == 1 && !(GIT <= f.lines[0]))
            && (cut.files != [] ==> |cut.files| == 1 && SaysLess(cut.files[0], f))
  {
    var f := Sections(diff, u)[k];
    SectionLines(diff, k, u);
    hide Sections, Scan, SaysLess, Join, LinesOf;
    var i := LinesOfPrefix(f.lines, j);
    SectionCutAt(diff, k, i, u);
  }

  /** What is read from the cut of a section. */
  lemma ReadCut(diff: string, k: nat, u: string -> string) returns (j: nat)
    requires k < |Sections(diff, u)| && |TextOf(Sections(diff, u)[k])| > FILE_CHARS
    ensures var f := Sections(diff, u)[k];
            var kept := BeforeLast(TextOf(f)[..FILE_CHARS], '\n');
            var cut := Scan(Start, LinesOf(kept), u);
            && (cut.files == [] <==> !HeaderSurvives(f))
            && (cut.files != [] ==> |cut.files| == 1 && SaysLess(cut.files[0], f))
            && j < |f.lines| && |Split(kept, '\n')| == if j == 0 then 1 else j
  {
    hide Sections, Scan, LinesOf, BeforeLast, Join;
    var f := Sections(diff, u)[k];
    SectionLines(diff, k, u);
    j := CutIsLines(f.lines, FILE_CHARS);
    var kept := BeforeLast(TextOf(f)[..FILE_CHARS], '\n');
    if j == 0 {
      PieceOfHeader(f.lines[0], FILE_CHARS, u);
      LinesOfPlain(kept);
    } else {
      ReadWholeLines(diff, k, j, u);
      JoinOne(f.lines);
      if j > 2 {
        BreakAt(f.lines[..j], 2);
        assert f.lines[..j][..2] == f.lines[..2];
      }
    }
  }

  lemma OneSection(text: string, u: string -> string)
    ensures var cut, part := Scan(Start, LinesOf(text), u), Sections(text, u);
            && |part| == |cut.files|
            && (part != [] ==> OnlyNamed(Close(cut)[0], part[0]) && SaysLess(part[0], cut.files[0]))
  {
    hide Scan, LinesOf, Label;
    var cut := Scan(Start, LinesOf(text), u);
    LabelOnlyNames(Close(cut), map[]);
    if cut.files != [] {
      assert Close(cut)[0].added == cut.files[0].added;
    }
  }

  /** A quote is looked up only in the beginning of the section that was sent, and each
      row there is one of the sent lines -- exactly when the header survives the cut.
      When it does not, the lookup goes over the whole section. */
  lemma LookedUpInWhatWasSent(diff: string, k: nat, u: string -> string)
    requires k < |Sections(diff, u)|
    ensures var f := Sections(diff, u)[k];
            var t := TrimOf(f, u);
            && SaysLess(t.seen, f)
            && (HeaderSurvives(f) || |TextOf(f)| <= FILE_CHARS ==>
                 && RowsAreLines(t.seen)
                 && forall line :: line in t.seen.lines ==> line in Split(t.sent, '\n'))
            && (|TextOf(f)| > FILE_CHARS ==>
                 && (HeaderSurvives(f) <==> Sections(t.sent, u) != [])
                 && (!HeaderSurvives(f) ==> t.seen == f))
  {
    var f := Sections(diff, u)[k];
    if |TextOf(f)| > FILE_CHARS {
      var j := ReadCut(diff, k, u);
      ReadBack(f, BeforeLast(TextOf(f)[..FILE_CHARS], '\n'), u);
    } else {
      SectionLines(diff, k, u);
      GoodSectionsAddUp(diff, u, k);
    }
    hide Sections, Scan, Split, RowsAreLines, BeforeLast, CountOf, Join;
    SaysLessSelf(f);
    if |TextOf(f)| <= FILE_CHARS {
      SplitJoin(f.lines, '\n');
    }
  }

  lemma LinesOfSplit(text: string)
    ensures forall line :: line in LinesOf(text) ==> line in Split(text, '\n')
  {
    hide Split;
  }

  lemma ReadBack(f: Section, kept: string, u: string -> string)
    requires var cut := Scan(Start, LinesOf(kept), u);
             cut.files != [] ==> |cut.files| == 1 && SaysLess(cut.files[0], f)
    ensures var part := Sections(kept, u);
            && |part| == |Scan(Start, LinesOf(kept), u).files|
            && (part != [] ==>
                 && SaysLess(part[0], f) && RowsAreLines(part[0])
                 && forall line :: line in part[0].lines ==> line in Split(kept, '\n'))
  {
    hide Sections, Scan, LinesOf, RowsAreLines, SaysLess, OnlyNamed, DeclaredOld, DeclaredNew, Close, FirstHeader;
    OneSection(kept, u);
    EveryLineOnce(kept, u);
    LinesOfSplit(kept);
    var part := Sections(kept, u);
    if part != [] {
      GoodSectionsAddUp(kept, u, 0);
      SaysLessTrans(part[0], Scan(Start, LinesOf(kept), u).files[0], f);
      assert AllLines(part) == AllLines([]) + part[0].lines == part[0].lines;
      var lines := LinesOf(kept);
      assert part[0].lines == lines[FirstHeader(lines)..];
    }
  }

  /** `unread_lines` counts the lines of the section that were not sent whole. */
  lemma UnreadIsTheRest(diff: string, k: nat, u: string -> string)
    requires k < |Sections(diff, u)|
    ensures var f := Sections(diff, u)[k];
            var t := TrimOf(f, u);
            && t.unread == |f.lines| - (if |TextOf(f)| > FILE_CHARS then |Split(t.sent, '\n')| else |f.lines|)
            && (|TextOf(f)| > FILE_CHARS && '\n' in TextOf(f)[..FILE_CHARS] ==>
                 t.unread > 0 && exists j :: 0 < j < |f.lines| && t.sent == Join(f.lines[..j], '\n')
                                             && t.unread == |f.lines| - j)
  {
    var f := Sections(diff, u)[k];
    SectionLines(diff, k, u);
    hide Sections, Scan, LinesOf, BeforeLast, Join, CountOf;
    var text := TextOf(f);
    if |text| > FILE_CHARS {
      var kept := TrimOf(f, u).sent;
      CountIsParts(text, '\n');
      CountIsParts(kept, '\n');
      SplitJoin(f.lines, '\n');
      if '\n' in text[..FILE_CHARS] {
        var j := CutWhole(f.lines, FILE_CHARS);
        SplitJoin(f.lines[..j], '\n');
      }
    }
  }

  // ---- looking a quote up ------------------------------------------------

  datatype Place = Added | Context | Removed

  function Squash(s: string): string {
    Strip(Collapse(s))
  }

  predicate Contains(s: string, w: string) {
    exists i :: 0 <= i <= |s| && w <= s[i..]
  }

  /** What a quoted line may be: itself, or itself without a diff marker. */
  function Wants(raw: string): set<string> {
    var want := Squash(raw);
    {want} + (if want != "" && want[0] in "+-" && |Squash(want[1..])| >= 4 then {Squash(want[1..])} else {})
  }

  function Places(raw: string): seq<Place> {
    if "-" <= Squash(raw) then [Removed, Added, Context] else [Added, Context, Removed]
  }

  predicate Matches(text: string, wants: set<string>, exact: bool) {
    if exact then Squash(text) in wants
    else exists w :: w in wants && |w| >= 12 && Contains(Squash(text), w)
  }

  /** The rows of one kind; a removed line has no number. */
  function RowsAt(f: Section, place: Place): seq<Row> {
    match place
    case Added => f.added
    case Context => f.context
    case Removed => seq(|f.removed|, i requires 0 <= i < |f.removed| => Row(0, f.removed[i]))
  }

  function Hits(rows: seq<Row>, wants: set<string>, exact: bool): (hits: seq<Row>)
    ensures forall h :: h in hits ==> h in rows && Matches(h.text, wants, exact)
    ensures hits == [] <==> forall i :: 0 <= i < |rows| ==> !Matches(rows[i].text, wants, exact)
  {
    if rows == [] then []
    else
      (if Matches(rows[0].text, wants, exact) then [rows[0]] else []) + Hits(rows[1..], wants, exact)
  }

  /** The index of the first line of the quote that is long enough to mean something. */
  function Deciding(quote: seq<string>): (k: nat)
    ensures k <= |quote|
    ensures k < |quote| ==> |Squash(quote[k])| >= 4
    ensures forall i :: 0 <= i < k ==> |Squash(quote[i])| < 4
  {
    if quote == [] || |Squash(quote[0])| >= 4 then 0 else 1 + Deciding(quote[1..])
  }

  datatype Found = Found(no: nat, at: Option<Place>, hits: nat)

  /** The answer of a lookup: nothing when no row matches at all; otherwise the first
      match of the first place that has one, exact matches before partial ones. */
  ghost predicate IsAnswer(f: Section, raw: string, found: Found, exact: bool) {
    var wants, places := Wants(raw), Places(raw);
    match found.at
    case None =>
      found.no == 0 && found.hits == 0
      && forall p: Place :: Hits(RowsAt(f, p), wants, true) == [] && Hits(RowsAt(f, p), wants, false) == []
    case Some(place) =>
      && (!exact ==> forall p: Place :: Hits(RowsAt(f, p), wants, true) == [])
      && IsFirst(f, wants, places, exact, found)
  }

  /** The places before the one found have no match. */
  ghost predicate IsFirst(f: Section, wants: set<string>, places: seq<Place>, exact: bool, found: Found) {
    exists k :: 0 <= k < |places| && found.at == Some(places[k])
      && (forall i :: 0 <= i < k ==> Hits(RowsAt(f, places[i]), wants, exact) == [])
      && var hits := Hits(RowsAt(f, places[k]), wants, exact);
         hits != [] && found.no == hits[0].no && found.hits == |hits|
  }

  method Locate(f: Section, evidence: string) returns (found: Found, quoted: nat, exact: bool)
    ensures var quote := Split(evidence, '\n');
            && quoted == Deciding(quote)
            && (quoted == |quote| ==> found == Found(0, None, 0))
            && (quoted < |quote| ==> IsAnswer(f, quote[quoted], found, exact))
  {
    hide Split, Hits, Wants;
    var quote := Split(evidence, '\n');
    quoted := 0;
    while quoted < |quote| && |Squash(quote[quoted])| < 4
      invariant 0 <= quoted <= |quote|
      invariant Deciding(quote) == quoted + Deciding(quote[quoted..])
    {
      quoted := quoted + 1;
    }
    found, exact := Found(0, None, 0), false;
    if quoted < |quote| {
      found, exact := LocateLine(f, quote[quoted]);
    }
  }

  method LocateLine(f: Section, raw: string) returns (found: Found, exact: bool)
    ensures IsAnswer(f, raw, found, exact)
  {
    hide Wants, Matches, IsFirst;
    var wants, places := Wants(raw), Places(raw);
    exact := true;
    while true
      invariant !exact ==> forall p: Place :: Hits(RowsAt(f, p), wants, true) == []
      decreases exact
    {
      found := FirstPlace(f, wants, places, exact);
      if found.at.Some? {
        return found, exact;
      }
      forall p: Place ensures Hits(RowsAt(f, p), wants, exact) == [] {
        var k := PlaceIndex(raw, p);
        assert places[k] == p;
      }
      if !exact {
        return found, exact;
      }
      exact := false;
    }
  }

  /** The first of the places that has a match, its first number and how many there are. */
  method FirstPlace(f: Section, wants: set<string>, places: seq<Place>, exact: bool)
    returns (found: Found)
    ensures found.at == None ==>
      found == Found(0, None, 0)
      && forall k :: 0 <= k < |places| ==> Hits(RowsAt(f, places[k]), wants, exact) == []
    ensures found.at.Some? ==> IsFirst(f, wants, places, exact, found)
  {
    hide Matches;
    for i := 0 to |places|
      invariant forall k :: 0 <= k < i ==> Hits(RowsAt(f, places[k]), wants, exact) == []
    {
      var hits := Hits(RowsAt(f, places[i]), wants, exact);
      if hits != [] {
        return Found(hits[0].no, Some(places[i]), |hits|);
      }
    }
    return Found(0, None, 0);
  }

  lemma PlaceIndex(raw: string, p: Place) returns (k: nat)
    ensures k < 3 && Places(raw)[k] == p
  {
    if Places(raw)[0] == p {
      k := 0;
    } else {
      k := if Places(raw)[1] == p then 1 else 2;
    }
  }

  ghost predicate IsLine(row: Row, lines: seq<string>) {
    "+" + row.text in lines || " " + row.text in lines || (row.text == "" && "" in lines)
  }

  ghost predicate IsRemovedLine(text: string, lines: seq<string>) {
    "-" + text in lines
  }

  /** A removed row that reads as what was sent of a `---` line. */
  ghost predicate IsHeaderItself(text: string, sent: string) {
    "-- " <= text && sent == "-" + text
  }

  /** When the header does not survive, nothing of any hunk was sent: what was sent is the first
      header line or a piece of it, and no numbered row is a line of that, nor a removed one that
      is not by accident that header line less its first hyphen. The lookup then goes over rows
      that were never sent. */
  lemma NoRowWasSent(diff: string, k: nat, u: string -> string)
    requires k < |Sections(diff, u)|
    requires |TextOf(Sections(diff, u)[k])| > FILE_CHARS && !HeaderSurvives(Sections(diff, u)[k])
    ensures var f := Sections(diff, u)[k];
            var t := TrimOf(f, u);
            && t.seen == f && t.sent <= f.lines[0] && MINUS <= t.sent
            && Split(t.sent, '\n') == [t.sent]
            && (forall row: Row :: !IsLine(row, Split(t.sent, '\n')))
            && forall text: string :: IsRemovedLine(text, Split(t.sent, '\n')) <==> IsHeaderItself(text, t.sent)
  {
    hide Sections, Scan, LinesOf, SaysLess, RowsAreLines, BeforeLast, Join, CountOf;
    var f := Sections(diff, u)[k];
    SectionLines(diff, k, u);
    LookedUpInWhatWasSent(diff, k, u);
    var j := CutIsLines(f.lines, FILE_CHARS);
    JoinOne(f.lines);
    if j > 1 {
      JoinTwo(f.lines, j);
    }
    var sent := BeforeLast(TextOf(f)[..FILE_CHARS], '\n');
    assert sent <= f.lines[0];
    assert '\n' !in sent;
    SplitPlain(sent, '\n');
    HeaderIsNoRow(sent);
  }

  lemma JoinTwo(lines: seq<string>, j: nat)
    requires 1 < j <= |lines|
    ensures |Join(lines[..j], '\n')| >= |lines[0]| + 1 + |lines[1]|
  {
    JoinOne(lines);
    if j > 2 {
      BreakAt(lines[..j], 2);
      assert lines[..j][..2] == lines[..2];
    }
  }

  lemma HeaderIsNoRow(sent: string)
    requires MINUS <= sent
    ensures forall row: Row :: !IsLine(row, [sent])
    ensures forall text: string :: IsRemovedLine(text, [sent]) <==> IsHeaderItself(text, sent)
  {
    forall text: string ensures IsRemovedLine(text, [sent]) <==> IsHeaderItself(text, sent) {
      if sent == "-" + text {
        assert text == sent[1..] && sent[..4][1..] == "-- ";
      }
    }
    forall row: Row ensures !IsLine(row, [sent]) {
      assert sent[0] == '-' && ("+" + row.text)[0] == '+' && (" " + row.text)[0] == ' ';
    }
  }

  lemma RowIsLine(f: Section, place: Place, i: nat)
    requires RowsAreLines(f) && place != Removed && i < |RowsAt(f, place)|
    ensures IsLine(RowsAt(f, place)[i], f.lines)
  {
  }

  lemma RowsAtLess(f: Section, g: Section, place: Place)
    requires SaysLess(f, g) && place != Removed
    ensures RowsAt(f, place) <= RowsAt(g, place)
  {
  }

  lemma FirstIsRow(f: Section, wants: set<string>, places: seq<Place>, exact: bool, found: Found) returns (i: nat)
    requires IsFirst(f, wants, places, exact, found)
    ensures i < |RowsAt(f, found.at.value)| && RowsAt(f, found.at.value)[i].no == found.no
  {
    hide RowsAt, Matches;
    var rows := RowsAt(f, found.at.value);
    var hits := Hits(rows, wants, exact);
    assert hits != [] && found.no == hits[0].no && hits[0] in hits;
    i :| 0 <= i < |rows| && rows[i] == hits[0];
  }

  /** A line number found in a trimmed section of which the header was sent is that of a
      row of the whole section, at the same place in it, and the row is a sent line. */
  lemma FoundWasSent(diff: string, k: nat, raw: string, found: Found, exact: bool, u: string -> string)
    returns (i: nat)
    requires k < |Sections(diff, u)| && HeaderSurvives(Sections(diff, u)[k])
    requires IsAnswer(TrimOf(Sections(diff, u)[k], u).seen, raw, found, exact)
    requires found.at.Some? && found.at.value != Removed
    ensures var f := Sections(diff, u)[k];
            var t := TrimOf(f, u);
            var sent, all := RowsAt(t.seen, found.at.value), RowsAt(f, found.at.value);
            && i < |sent| <= |all| && sent[i] == all[i] && all[i].no == found.no
            && IsLine(all[i], Split(t.sent, '\n'))
  {
    var f := Sections(diff, u)[k];
    var t := TrimOf(f, u);
    LookedUpInWhatWasSent(diff, k, u);
    hide Sections, TrimOf, Split, Wants, Matches, Places, HeaderSurvives, RowsAt, IsFirst, SaysLess, RowsAreLines, Hits;
    i := FirstIsRow(t.seen, Wants(raw), Places(raw), exact, found);
    RowIsLine(t.seen, found.at.value, i);
    RowsAtLess(t.seen, f, found.at.value);
  }
}
