/** What is sent of a section, what a quote is looked up in, and which quotes are found. */
module DiffSent {
  import opened Text
  import opened UnifiedDiff
  import opened DiffAnyInput
  import opened DiffRows
  import opened DiffTrim
  import opened DiffLookup
  import opened Wrappers

  // ---- all that was sent can be found ------------------------------------

  /** What `lines` say, each kind in order and complete but for blank context. */
  ghost predicate Says(f: Section, lines: seq<string>) {
    && Texts(f.added) == Marked(lines, '+')
    && f.removed == Marked(lines, '-')
    && Solid(Texts(f.context)) == Solid(Marked(lines, ' '))
  }

  lemma SaysSame(f: Section, g: Section, lines: seq<string>)
    requires Says(f, lines) && g.added == f.added && g.context == f.context && g.removed == f.removed
    ensures Says(g, lines)
  {
  }

  /** A last line that is empty says nothing. */
  lemma SaysEmptyLine(f: Section, lines: seq<string>)
    requires Says(f, lines)
    ensures Says(f, lines + [""])
  {
    hide HasHead, Solid;
    MarkedMore(lines, "", '+');
    MarkedMore(lines, "", '-');
    MarkedMore(lines, "", ' ');
    assert forall t: seq<string> :: t + [] == t;
  }

  lemma SaysNothing(f: Section, line: string)
    requires f.added == [] && f.context == [] && f.removed == []
    ensures Says(f, [line])
  {
    assert [line][..0] == [];
    assert !HasHead([]);
    assert forall c :: Marked([line], c) == Marked([], c) + [] == [];
  }

  /** The section read again from its first `j` lines says all that they say. */
  lemma CutSays(diff: string, k: nat, j: nat, u: string -> string)
    requires k < |Sections(diff, u)| && Sections(diff, u)[k].bad == Fine
    requires 1 <= j <= |Sections(diff, u)[k].lines|
    ensures var f := Sections(diff, u)[k];
            var cut := Scan(Start, f.lines[..j], u);
            cut.files != [] ==> Says(cut.files[0], f.lines[..j])
  {
    hide Sections, Scan, Earlier, Says, Marked, Solid;
    SectionCutAt(diff, k, j, u);
    SectionLines(diff, k, u);
    var f := Sections(diff, u)[k];
    var cut := Scan(Start, f.lines[..j], u);
    if cut.files != [] {
      CutGood(f, cut.files[0]);
      OwnSays(f.lines, j, u);
    }
  }

  lemma CutGood(f: Section, g: Section)
    requires Earlier(g, f) && f.bad == Fine
    ensures g.bad == Fine
  {
  }

  lemma OwnSays(lines: seq<string>, j: nat, u: string -> string)
    requires 1 <= j <= |lines| && (GIT <= lines[0] || (|lines| > 1 && MINUS <= lines[0] && PLUS <= lines[1]))
    requires var cut := Scan(Start, lines[..j], u);
             |cut.files| == 1 && cut.files[0].bad == Fine && (j > 1 || GIT <= lines[0])
    ensures Says(Scan(Start, lines[..j], u).files[0], lines[..j])
  {
    hide Scan, Exact, AllLines, Marked, Solid, Says, FirstHeader;
    var cut := Scan(Start, lines[..j], u);
    StartKept();
    ScanKeepsRows(Start, lines[..j], u);
    ScanKeepsLines(Start, lines[..j], u);
    OneOnly(cut.files[0], cut.files);
    OneOnlyNot();
    HeaderFirst(lines, j);
    assert Exact(cut.files[0]);
    ExactSays(cut.files[0]);
    assert lines[..j][0..] == lines[..j] && [] + lines[..j] == lines[..j];
    assert cut.files[0].lines == lines[..j];
  }

  lemma OneOnlyNot()
    ensures AllLines([]) == []
  {
  }

  lemma OneOnly(f: Section, files: seq<Section>)
    requires files == [f]
    ensures AllLines(files) == f.lines
  {
    assert files[..0] == [];
    assert AllLines([]) == [];
    assert [] + f.lines == f.lines;
  }

  lemma HeaderFirst(lines: seq<string>, j: nat)
    requires 1 <= j <= |lines| && (GIT <= lines[0] || (j > 1 && MINUS <= lines[0] && PLUS <= lines[1]))
    ensures FirstHeader(lines[..j]) == 0
  {
  }

  lemma ExactSays(f: Section)
    requires Exact(f) && f.bad == Fine
    ensures Says(f, f.lines)
  {
  }

  /** What is sent of a section: all of it, or as many whole lines as fit, or, of a first line
      that does not fit, the beginning. */
  ghost predicate IsSent(f: Section, sent: string) {
    if |TextOf(f)| <= FILE_CHARS then sent == TextOf(f)
    else
      || (|f.lines[0]| >= FILE_CHARS && sent == f.lines[0][..FILE_CHARS])
      || exists j :: 0 < j < |f.lines| && WholeLines(f.lines, j, sent)
  }

  /** The first `j` lines, to which the next cannot be added. */
  ghost predicate WholeLines(lines: seq<string>, j: nat, sent: string)
    requires 0 < j < |lines|
  {
    sent == Join(lines[..j], '\n') && |sent| < FILE_CHARS <= |sent| + 1 + |lines[j]|
  }

  lemma JoinMore(lines: seq<string>, j: nat)
    requires 0 < j < |lines|
    ensures Join(lines[..j + 1], '\n') == Join(lines[..j], '\n') + ['\n'] + lines[j]
  {
    var p := lines[..j + 1];
    JoinSplits(p, j, '\n');
    assert p[..j] == lines[..j] && p[j..] == [lines[j]];
  }

  lemma CutFits(lines: seq<string>, n: nat, j: nat)
    requires lines != [] && AllPlain(lines) && |Join(lines, '\n')| > n && 0 < j < |lines|
    requires BeforeLast(Join(lines, '\n')[..n], '\n') == Join(lines[..j], '\n') && |Join(lines[..j], '\n')| < n
    requires '\n' in Join(lines, '\n')[..n]
    ensures n <= |Join(lines[..j], '\n')| + 1 + |lines[j]|
  {
    hide Join, BeforeLast;
    var text := Join(lines, '\n');
    var kept := BeforeLast(text[..n], '\n');
    JoinMore(lines, j);
    if j + 1 < |lines| {
      BreakAt(lines, j + 1);
      var q := |Join(lines[..j + 1], '\n')|;
      assert text[q] == '\n' && q > |kept|;
      assert forall i :: |kept| < i < n ==> text[i] == text[..n][|kept| + 1..][i - |kept| - 1];
    } else {
      assert lines[..j + 1] == lines;
    }
  }

  /** What is sent, on any text. */
  lemma SentIs(diff: string, k: nat, u: string -> string)
    requires k < |Sections(diff, u)|
    ensures var f := Sections(diff, u)[k];
            IsSent(f, TrimOf(f, u).sent)
  {
    SectionLines(diff, k, u);
    var f := Sections(diff, u)[k];
    hide Sections, Join, BeforeLast, CountOf, AllPlain;
    if |TextOf(f)| > FILE_CHARS {
      var j := CutIsLines(f.lines, FILE_CHARS);
      if j > 0 {
        BreakWithin(f.lines, j);
        CutFits(f.lines, FILE_CHARS, j);
        assert WholeLines(f.lines, j, TrimOf(f, u).sent);
      }
    }
  }

  lemma BreakWithin(lines: seq<string>, j: nat)
    requires 0 < j < |lines| && |Join(lines, '\n')| > FILE_CHARS > |Join(lines[..j], '\n')|
    ensures '\n' in Join(lines, '\n')[..FILE_CHARS]
  {
    hide Join;
    BreakAt(lines, j);
    assert Join(lines, '\n')[..FILE_CHARS][|Join(lines[..j], '\n')|] == '\n';
  }

  /** What a good section is looked up in says all that was sent, and nothing else, when its
      header was sent; an uncut section is looked up whole, and so is one without a header. */
  lemma SeenIsSent(diff: string, k: nat, u: string -> string)
    requires k < |Sections(diff, u)| && Sections(diff, u)[k].bad == Fine
    ensures var f := Sections(diff, u)[k];
            var t := TrimOf(f, u);
            && (|TextOf(f)| <= FILE_CHARS || !HeaderSurvives(f) ==> t.seen == f)
            && (|TextOf(f)| <= FILE_CHARS || HeaderSurvives(f) ==> Says(t.seen, Split(t.sent, '\n')))
  {
    hide Sections, Says, SaysLess, RowsAreLines, Split, BeforeLast, CountOf, TextOf, HeaderSurvives;
    var f := Sections(diff, u)[k];
    if |TextOf(f)| > FILE_CHARS {
      LookedUpInWhatWasSent(diff, k, u);
      if HeaderSurvives(f) {
        CutSeen(diff, k, u);
      }
    } else {
      WholeSays(diff, k, u);
    }
  }

  lemma WholeSays(diff: string, k: nat, u: string -> string)
    requires k < |Sections(diff, u)| && Sections(diff, u)[k].bad == Fine
    ensures var f := Sections(diff, u)[k]; Says(f, Split(TextOf(f), '\n'))
  {
    GoodSectionsAreTheirLines(diff, u, k);
    SectionLines(diff, k, u);
    hide Sections, Marked, Solid, Split;
    SplitJoin(Sections(diff, u)[k].lines, '\n');
  }

  lemma ReadRows(text: string, u: string -> string)
    ensures var cut, part := Scan(Start, LinesOf(text), u), Sections(text, u);
            && |part| == |cut.files|
            && (part != [] ==> && part[0].added == cut.files[0].added && part[0].context == cut.files[0].context
                               && part[0].removed == cut.files[0].removed)
  {
    hide Scan, LinesOf, Label;
    OneSection(text, u);
    var cut := Scan(Start, LinesOf(text), u);
    if cut.files != [] {
      assert Close(cut)[0] == cut.files[0].(bad := Close(cut)[0].bad);
    }
  }

  /** What is read of a cut of whole lines, or of a piece of the first. */
  lemma CutSaysSent(diff: string, k: nat, kept: string, j: nat, u: string -> string)
    requires k < |Sections(diff, u)| && Sections(diff, u)[k].bad == Fine
    requires var lines := Sections(diff, u)[k].lines;
             lines != [] && if j == 0 then |lines[0]| >= FILE_CHARS && kept == lines[0][..FILE_CHARS] && GIT <= lines[0]
             else j < |lines| && kept == Join(lines[..j], '\n')
    ensures var cut := Scan(Start, LinesOf(kept), u);
            cut.files != [] ==> Says(cut.files[0], Split(kept, '\n'))
  {
    hide Sections, Scan, Split, LinesOf, Join, Says;
    var f := Sections(diff, u)[k];
    SectionLines(diff, k, u);
    if j == 0 {
      PieceOfHeader(f.lines[0], FILE_CHARS, u);
      LinesOfPlain(kept);
      if Scan(Start, [kept], u).files != [] {
        SaysNothing(Scan(Start, [kept], u).files[0], kept);
      }
    } else {
      var i := LinesOfPrefix(f.lines, j);
      CutSays(diff, k, i, u);
      var cut := Scan(Start, LinesOf(kept), u);
      if cut.files != [] && i < j {
        SaysEmptyLine(cut.files[0], f.lines[..i]);
        assert f.lines[..j] == f.lines[..i] + [""];
      }
    }
  }

  lemma CutSeen(diff: string, k: nat, u: string -> string)
    requires k < |Sections(diff, u)| && Sections(diff, u)[k].bad == Fine
    requires |TextOf(Sections(diff, u)[k])| > FILE_CHARS && HeaderSurvives(Sections(diff, u)[k])
    ensures var f := Sections(diff, u)[k];
            var t := TrimOf(f, u); Says(t.seen, Split(t.sent, '\n'))
  {
    hide Sections, Scan, Split, LinesOf, BeforeLast, CountOf, Join, Says, SaysLess, RowsAreLines;
    var f := Sections(diff, u)[k];
    SectionLines(diff, k, u);
    LookedUpInWhatWasSent(diff, k, u);
    var kept := BeforeLast(TextOf(f)[..FILE_CHARS], '\n');
    var j := CutIsLines(f.lines, FILE_CHARS);
    CutSaysSent(diff, k, kept, j, u);
    ReadRows(kept, u);
    SaysSame(Scan(Start, LinesOf(kept), u).files[0], Sections(kept, u)[0], Split(kept, '\n'));
  }

  // ---- which quotes are found --------------------------------------------

  /** The texts a quoted line can stand for: itself, or, with a diff marker before enough to
      look up, what follows the marker. */
  ghost predicate StandsFor(raw: string, text: string) {
    var want := Squash(raw);
    || text == want
    || ((Leads(want, '+') || Leads(want, '-')) && text == Squash(want[1..]) && |text| >= 4)
  }

  /** Some row of the section is the quoted line. */
  ghost predicate IsRow(f: Section, p: Place, raw: string) {
    exists i :: 0 <= i < |RowsAt(f, p)| && StandsFor(raw, Squash(RowsAt(f, p)[i].text))
  }

  /** Some row holds the quoted line, which is long enough to tell. */
  ghost predicate HoldsPart(f: Section, p: Place, raw: string) {
    exists i, w: string :: 0 <= i < |RowsAt(f, p)| && IsPart(raw, w, RowsAt(f, p)[i].text)
  }

  ghost predicate IsPart(raw: string, w: string, text: string) {
    StandsFor(raw, w) && |w| >= 12 && exists a: string, b: string :: Squash(text) == a + w + b
  }

  lemma WantsAre(raw: string, w: string)
    ensures w in Wants(raw) <==> StandsFor(raw, w)
  {
    hide Squash;
    var want := Squash(raw);
    assert want != "" ==> (want[0] in "+-" <==> want[0] == '+' || want[0] == '-');
  }

  lemma ContainsIs(s: string, w: string)
    ensures Contains(s, w) <==> exists a: string, b: string :: s == a + w + b
  {
    if i :| 0 <= i <= |s| && w <= s[i..] {
      assert s == s[..i] + w + s[i + |w|..];
    }
    if a: string, b: string :| s == a + w + b {
      assert s[|a|..] == w + b;
    }
  }

  lemma MatchesExact(text: string, raw: string)
    ensures Matches(text, Wants(raw), true) <==> StandsFor(raw, Squash(text))
  {
    hide Squash, Wants;
    WantsAre(raw, Squash(text));
  }

  lemma MatchesInside(text: string, raw: string)
    ensures Matches(text, Wants(raw), false) <==> exists w: string :: IsPart(raw, w, text)
  {
    hide Squash, Wants, Contains, StandsFor;
    forall w: string ensures w in Wants(raw) && |w| >= 12 && Contains(Squash(text), w) <==> IsPart(raw, w, text) {
      WantsAre(raw, w);
      ContainsIs(Squash(text), w);
    }
  }

  /** There is a match in a place just when a row is the line, or holds it. */
  lemma HitsAre(f: Section, p: Place, raw: string)
    ensures Hits(RowsAt(f, p), Wants(raw), true) != [] <==> IsRow(f, p, raw)
    ensures Hits(RowsAt(f, p), Wants(raw), false) != [] <==> HoldsPart(f, p, raw)
  {
    hide Squash, Wants, Matches, StandsFor, IsPart, RowsAt;
    forall i | 0 <= i < |RowsAt(f, p)|
      ensures Matches(RowsAt(f, p)[i].text, Wants(raw), true) <==> StandsFor(raw, Squash(RowsAt(f, p)[i].text))
      ensures Matches(RowsAt(f, p)[i].text, Wants(raw), false) <==> exists w: string :: IsPart(raw, w, RowsAt(f, p)[i].text)
    {
      MatchesExact(RowsAt(f, p)[i].text, raw);
      MatchesInside(RowsAt(f, p)[i].text, raw);
    }
  }

  /** The place looked in first, of two. */
  ghost predicate Sooner(raw: string, p: Place, q: Place) {
    if Leads(Squash(raw), '-') then p.Removed? || (p.Added? && q.Context?) || p == q
    else p.Added? || (p.Context? && q.Removed?) || p == q
  }

  /** An answer: found exactly when some row is the line or holds it; where a row is it before
      where one only holds it; and in the place looked in first: what was removed, for a quote
      that begins with `-`, before what was added and what was kept, else last. */
  lemma AnswerIs(f: Section, raw: string, found: Found, exact: bool)
    requires IsAnswer(f, raw, found, exact)
    ensures found.at.Some? <==> exists p: Place :: IsRow(f, p, raw) || HoldsPart(f, p, raw)
    ensures found.at.Some? ==>
              var p := found.at.value;
              && (exact <==> exists q: Place :: IsRow(f, q, raw))
              && (if exact then IsRow(f, p, raw) else HoldsPart(f, p, raw))
              && forall q: Place :: (if exact then IsRow(f, q, raw) else HoldsPart(f, q, raw)) ==> Sooner(raw, p, q)
  {
    hide Squash, Wants, IsRow, HoldsPart, RowsAt, Matches;
    forall p: Place
      ensures Hits(RowsAt(f, p), Wants(raw), true) != [] <==> IsRow(f, p, raw)
      ensures Hits(RowsAt(f, p), Wants(raw), false) != [] <==> HoldsPart(f, p, raw)
    {
      HitsAre(f, p, raw);
    }
    if found.at.Some? {
      PlacesInOrder(raw);
      var places := Places(raw);
      var k :| 0 <= k < |places| && found.at == Some(places[k])
               && forall i :: 0 <= i < k ==> Hits(RowsAt(f, places[i]), Wants(raw), exact) == [];
      assert (if exact then IsRow(f, places[k], raw) else HoldsPart(f, places[k], raw));
      forall q: Place | if exact then IsRow(f, q, raw) else HoldsPart(f, q, raw) ensures Sooner(raw, places[k], q) {
        var i := PlaceIndex(raw, q);
        assert k <= i;
      }
    }
  }

  lemma PlacesInOrder(raw: string)
    ensures |Places(raw)| == 3
    ensures forall i, j :: 0 <= i <= j < 3 ==> Sooner(raw, Places(raw)[i], Places(raw)[j])
  {
    hide Squash;
    assert "-" <= Squash(raw) <==> Leads(Squash(raw), '-');
  }

  /** Row `i` matches, and none before it. */
  ghost predicate FirstMatch(rows: seq<Row>, wants: set<string>, exact: bool, i: nat) {
    && i < |rows| && Matches(rows[i].text, wants, exact)
    && forall j :: 0 <= j < i ==> !Matches(rows[j].text, wants, exact)
  }

  lemma HitsStep(rows: seq<Row>, wants: set<string>, exact: bool)
    requires rows != []
    ensures Hits(rows, wants, exact)
            == (if Matches(rows[0].text, wants, exact) then [rows[0]] else []) + Hits(rows[1..], wants, exact)
  {
    hide Matches;
  }

  /** The first hit is the first row that matches. */
  lemma {:induction false} FirstHit(rows: seq<Row>, wants: set<string>, exact: bool) returns (i: nat)
    requires Hits(rows, wants, exact) != []
    ensures FirstMatch(rows, wants, exact, i) && rows[i] == Hits(rows, wants, exact)[0]
  {
    hide Matches, Hits;
    NoHits(wants, exact);
    HitsStep(rows, wants, exact);
    if Matches(rows[0].text, wants, exact) {
      i := 0;
    } else {
      var k := FirstHit(rows[1..], wants, exact);
      assert forall j :: 0 < j <= k ==> rows[j] == rows[1..][j - 1];
      i := k + 1;
    }
  }

  lemma NoHits(wants: set<string>, exact: bool)
    ensures Hits([], wants, exact) == []
  {
  }

  /** The number given is that of the first row that matches in the place found; none when it is
      a removed line. */
  lemma NumberGiven(f: Section, raw: string, found: Found, exact: bool) returns (i: nat)
    requires IsAnswer(f, raw, found, exact) && found.at.Some?
    ensures match found.at.value
            case Added => FirstMatch(f.added, Wants(raw), exact, i) && found.no == f.added[i].no
            case Context => FirstMatch(f.context, Wants(raw), exact, i) && found.no == f.context[i].no
            case Removed => found.no == 0
  {
    hide Wants, Matches, FirstMatch;
    var rows := RowsAt(f, found.at.value);
    i := FirstHit(rows, Wants(raw), exact);
    MatchIn(rows, Wants(raw), exact, i);
  }

  lemma MatchIn(rows: seq<Row>, wants: set<string>, exact: bool, i: nat)
    requires FirstMatch(rows, wants, exact, i)
    ensures i < |rows|
  {
    hide Matches;
  }

  /** The hits hold each row as often as it is there, if it matches. */
  lemma {:induction false} HitsAreTheMatches(rows: seq<Row>, wants: set<string>, exact: bool, row: Row)
    ensures multiset(Hits(rows, wants, exact))[row] == if Matches(row.text, wants, exact) then multiset(rows)[row] else 0
  {
    hide Matches, Hits;
    if rows == [] {
      NoHits(wants, exact);
    } else {
      HitsStep(rows, wants, exact);
      HitsAreTheMatches(rows[1..], wants, exact, row);
      assert rows == [rows[0]] + rows[1..];
      assert multiset(rows) == multiset{rows[0]} + multiset(rows[1..]);
    }
  }

  /** So a line that was sent whole and is long enough to look up is found, as itself, when it
      is quoted: `c` is its marker. */
  lemma SentLineIsFound(diff: string, k: nat, u: string -> string, c: char, text: string, raw: string,
                        found: Found, exact: bool)
    requires k < |Sections(diff, u)| && Sections(diff, u)[k].bad == Fine
    requires var f := Sections(diff, u)[k];
             var t := TrimOf(f, u);
             && (|TextOf(f)| <= FILE_CHARS || HeaderSurvives(f))
             && (c == '+' || c == '-' || c == ' ') && text in Marked(Split(t.sent, '\n'), c)
             && IsAnswer(t.seen, raw, found, exact)
    requires |Squash(raw)| >= 4 && StandsFor(raw, Squash(text)) && Squash(text) != ""
    ensures found.at.Some? && exact && Sooner(raw, found.at.value, if c == '+' then Added else if c == '-' then Removed else Context)
  {
    hide Sections, TrimOf, Squash, IsAnswer, StandsFor, TextOf, HeaderSurvives, Split, Marked;
    SeenIsSent(diff, k, u);
    var t := TrimOf(Sections(diff, u)[k], u);
    AnswerIs(t.seen, raw, found, exact);
    NotBlank(text);
    var p := if c == '+' then Added else if c == '-' then Removed else Context;
    var i := RowWith(t.seen, Split(t.sent, '\n'), c, text);
    assert IsRow(t.seen, p, raw);
  }

  /** A line quoted with its diff marker stands for the line. */
  lemma MarkedQuote(c: char, text: string)
    requires (c == '+' || c == '-') && |Squash(text)| >= 4
    ensures StandsFor([c] + text, Squash(text))
  {
    hide Strip, StripLeft, StripRight, Collapse;
    var t := Collapse(text);
    assert !IsSpace(c);
    CollapseOne(c, text);
    StripOne(c, t);
    CollapseIsSingle(text);
    StripRightPrefix(t);
    var u := StripRight(t);
    assert forall k :: 0 <= k < |u| ==> u[k] == t[k];
    CollapsedSingle(u);
    StripRightFirst(t);
    assert ([c] + u)[1..] == u;
  }

  lemma CollapseOne(c: char, text: string)
    requires !IsSpace(c)
    ensures Collapse([c] + text) == [c] + Collapse(text)
  {
    assert ([c] + text)[1..] == text;
  }

  lemma NotBlank(text: string)
    requires Squash(text) != ""
    ensures !IsBlank(text)
  {
    if IsBlank(text) {
      BlankCollapse(text);
      BlankStrip(Collapse(text));
    }
  }

  lemma {:induction false} BlankCollapse(s: string)
    requires IsBlank(s)
    ensures IsBlank(Collapse(s))
    decreases |s|
  {
    if s != "" {
      assert IsSpace(s[0]);
      assert forall k :: 0 <= k < |s[1..]| ==> IsSpace(s[1..][k]);
      BlankCollapse(s[1..]);
    }
  }

  lemma RowWith(f: Section, lines: seq<string>, c: char, text: string) returns (i: nat)
    requires Says(f, lines) && (c == '+' || c == '-' || c == ' ') && text in Marked(lines, c) && !IsBlank(text)
    ensures var rows := RowsAt(f, if c == '+' then Added else if c == '-' then Removed else Context);
            i < |rows| && rows[i].text == text
  {
    hide IsBlank, Marked;
    if c == '+' {
      i :| 0 <= i < |Texts(f.added)| && Texts(f.added)[i] == text;
    } else if c == '-' {
      i :| 0 <= i < |f.removed| && f.removed[i] == text;
    } else {
      SolidHas(Marked(lines, ' '), text);
      SolidHas(Texts(f.context), text);
      i :| 0 <= i < |Texts(f.context)| && Texts(f.context)[i] == text;
    }
  }

  lemma {:induction false} SolidHas(texts: seq<string>, text: string)
    requires !IsBlank(text)
    ensures text in Solid(texts) <==> text in texts
  {
    hide IsBlank;
    if texts != [] {
      SolidHas(texts[..|texts| - 1], text);
      assert texts == texts[..|texts| - 1] + [texts[|texts| - 1]];
    }
  }
}
