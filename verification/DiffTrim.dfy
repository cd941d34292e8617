/** A section too long for one question is cut at a line and read again. What
    is read from the cut is the beginning of what the whole section says, so a
    quote is only ever looked up in what was sent. */
module DiffTrim {
  import opened Text
  import opened UnifiedDiff
  import opened DiffAnyInput

  // ---- what a section says does not depend on what stands before it ------

  /** `s` is `r` without its first `d` sections. The line counter matters only inside a hunk. */
  ghost predicate Without(r: Reader, s: Reader, d: nat) {
    && d < |r.files| && s.files == r.files[d..]
    && s.oldLeft == r.oldLeft && s.newLeft == r.newLeft
    && (r.InHunk() ==> s.newNo == r.newNo)
  }

  lemma PutWithout(r: Reader, s: Reader, d: nat, f: Section)
    requires Without(r, s, d)
    ensures r.Cur() == s.Cur() && Without(r.Put(f), s.Put(f), d)
    ensures (r.files + [f])[d..] == s.files + [f]
  {
    assert (r.files[..|r.files| - 1] + [f])[d..] == s.files[..|s.files| - 1] + [f];
  }

  lemma HunkWithout(r: Reader, s: Reader, d: nat, line: string)
    requires r.Valid() && s.Valid() && r.InHunk() && Without(r, s, d)
    ensures var m, n := StepInHunk(r, line), StepInHunk(s, line);
            m.used == n.used && Without(m.to, n.to, d)
  {
    PutWithout(r, s, d, StepInHunk(r, line).to.Cur());
  }

  lemma PlainWithout(r: Reader, s: Reader, d: nat, line: string)
    requires !r.InHunk() && Without(r, s, d)
    ensures Without(StepPlainLine(r, line), StepPlainLine(s, line), d)
  {
    hide ReadHunkHead, IsBlank;
    PutWithout(r, s, d, StepPlainLine(r, line).Cur());
  }

  lemma PairWithout(r: Reader, s: Reader, d: nat, minus: string, plus: string, u: string -> string)
    requires |minus| >= 4 && |plus| >= 4 && !r.InHunk() && Without(r, s, d)
    ensures Without(StepPair(r, minus, plus, u), StepPair(s, minus, plus, u), d)
  {
    hide HeaderPath;
    var f := NewSection("", false);
    PutWithout(r, s, d, f);
    var g := StepPair(r, minus, plus, u).Cur();
    PutWithout(r, s, d, g);
    PutWithout(r.(files := r.files + [f]), s.(files := s.files + [f]), d, g);
  }

  lemma StepWithout(r: Reader, s: Reader, d: nat, lines: seq<string>, u: string -> string)
    requires r.Valid() && s.Valid() && Without(r, s, d) && lines != []
    ensures var m, n := Step(r, lines, u), Step(s, lines, u);
            m.used == n.used && Without(m.to, n.to, d)
  {
    hide StepInHunk, StepPlainLine, StepPair, GitPath;
    if r.InHunk() {
      HunkWithout(r, s, d, lines[0]);
    } else if GIT <= lines[0] {
      PutWithout(r, s, d, Step(r, lines, u).to.Cur());
    } else if IsPair(lines) {
      PairWithout(r, s, d, lines[0], lines[1], u);
    } else {
      PlainWithout(r, s, d, lines[0]);
    }
  }

  lemma {:induction false} ScanWithout(r: Reader, s: Reader, d: nat, lines: seq<string>, u: string -> string)
    requires r.Valid() && s.Valid() && Without(r, s, d)
    ensures Without(Scan(r, lines, u), Scan(s, lines, u), d)
    decreases 2 * |lines| + if r.InHunk() then 1 else 0
  {
    hide Step, Without;
    if lines != [] {
      StepWithout(r, s, d, lines, u);
      var m, n := Step(r, lines, u), Step(s, lines, u);
      ScanWithout(m.to, n.to, d, lines[m.used..], u);
    }
  }

  /** The sections before the open one are never touched again. */
  lemma {:induction false} ScanLeavesEarlier(r: Reader, lines: seq<string>, u: string -> string)
    requires r.Valid() && r.files != []
    ensures var end := Scan(r, lines, u);
            |end.files| >= |r.files| && end.files[..|r.files| - 1] == r.files[..|r.files| - 1]
    decreases 2 * |lines| + if r.InHunk() then 1 else 0
  {
    hide Step;
    if lines != [] {
      StepShape(r, lines, u);
      var m := Step(r, lines, u);
      ScanLeavesEarlier(m.to, lines[m.used..], u);
      var end := Scan(m.to, lines[m.used..], u);
      var n := |r.files| - 1;
      assert end.files[..n] == end.files[..|m.to.files| - 1][..n] == m.to.files[..|m.to.files| - 1][..n];
      assert m.to.files[..|m.to.files| - 1][..n] == r.files[..n];
    }
  }

  /** A header outside a hunk: the line, or the pair of lines, that begins a section. */
  ghost predicate Begins(lines: seq<string>) {
    lines != [] && (GIT <= lines[0] || IsPair(lines))
  }

  /** Reading from where section `k` begins gives section `k` first. */
  lemma {:induction false} SectionStart(r: Reader, lines: seq<string>, k: nat, u: string -> string)
    returns (i: nat)
    requires r.Valid() && |r.files| <= k < |Scan(r, lines, u).files|
    ensures i < |lines| && Begins(lines[i..])
    ensures Without(Scan(r, lines, u), Scan(Start, lines[i..], u), k)
    decreases 2 * |lines| + if r.InHunk() then 1 else 0
  {
    hide Step, GitPath, HeaderPath, IsPair;
    assert lines != [];
    var m := Step(r, lines, u);
    StepShape(r, lines, u);
    if |m.to.files| <= k {
      i := SectionStart(m.to, lines[m.used..], k, u);
      assert lines[m.used..][i..] == lines[m.used + i..];
      i := m.used + i;
    } else {
      i := 0;
      assert lines[0..] == lines;
      FirstStep(r, lines, u);
      ScanWithout(m.to, Step(Start, lines, u).to, k, lines[m.used..], u);
    }
  }

  /** A step that begins a section begins the same one from nothing. */
  lemma FirstStep(r: Reader, lines: seq<string>, u: string -> string)
    requires r.Valid() && lines != []
    requires |Step(r, lines, u).to.files| > |r.files|
    ensures var m, n := Step(r, lines, u), Step(Start, lines, u);
            && Begins(lines) && m.used == n.used && |n.to.files| == 1 && Without(m.to, n.to, |r.files|)
  {
    hide GitPath, HeaderPath, StepPlainLine;
    if r.InHunk() {
      HunkStepShape(r, lines[0]);
    } else if !(GIT <= lines[0]) && !IsPair(lines) && r.files != [] {
      PlainStepShape(r, lines[0]);
    }
  }

  // ---- a section cut short says the beginning of what it says ------------

  ghost predicate SaysLess(f: Section, g: Section) {
    f.added <= g.added && f.context <= g.context && f.removed <= g.removed
  }

  lemma SaysLessTrans(f: Section, g: Section, h: Section)
    requires SaysLess(f, g) && SaysLess(g, h)
    ensures SaysLess(f, h)
  {
  }

  lemma SaysLessSelf(f: Section)
    ensures SaysLess(f, f)
  {
  }

  /** And no fault is taken back. */
  ghost predicate Earlier(f: Section, g: Section) {
    SaysLess(f, g) && (g.bad == Fine ==> f.bad == Fine)
  }

  lemma StepSaysMore(r: Reader, lines: seq<string>, u: string -> string)
    requires r.Valid() && lines != [] && r.files != []
    ensures var m := Step(r, lines, u);
            |m.to.files| == |r.files| ==> Earlier(r.Cur(), m.to.Cur())
  {
    hide ReadHunkHead, HeaderPath, GitPath, IsBlank;
  }

  /** From a state with one section: how many of the lines go to that section. */
  ghost function Taken(r: Reader, lines: seq<string>, u: string -> string): (m: nat)
    requires r.Valid() && |r.files| == 1
    ensures m <= |lines|
    decreases 2 * |lines| + if r.InHunk() then 1 else 0
  {
    if lines == [] then 0
    else
      var step := Step(r, lines, u);
      StepShape(r, lines, u);
      if |step.to.files| > 1 then 0 else step.used + Taken(step.to, lines[step.used..], u)
  }

  lemma {:induction false} TakenLines(r: Reader, lines: seq<string>, u: string -> string)
    requires r.Valid() && |r.files| == 1
    ensures var end := Scan(r, lines, u);
            end.files != [] && end.files[0].lines == r.Cur().lines + lines[..Taken(r, lines, u)]
    decreases 2 * |lines| + if r.InHunk() then 1 else 0
  {
    hide Step;
    ScanLeavesEarlier(r, lines, u);
    if lines != [] {
      var step := Step(r, lines, u);
      StepShape(r, lines, u);
      if |step.to.files| > 1 {
        ScanLeavesEarlier(step.to, lines[step.used..], u);
        assert step.to.files[..1][0] == r.files[0];
      } else {
        TakenLines(step.to, lines[step.used..], u);
        var m := Taken(step.to, lines[step.used..], u);
        assert lines[..step.used + m] == lines[..step.used] + lines[step.used..][..m];
      }
    }
  }

  lemma EarlierTrans(f: Section, g: Section, h: Section)
    requires Earlier(f, g) && Earlier(g, h)
    ensures Earlier(f, h)
  {
  }

  /** Cutting a section's own lines anywhere leaves a section that says the beginning of it. */
  lemma {:induction false} CutAt(r: Reader, lines: seq<string>, j: nat, u: string -> string)
    requires r.Valid() && |r.files| == 1 && j <= Taken(r, lines, u)
    ensures var end, cut := Scan(r, lines, u), Scan(r, lines[..j], u);
            end.files != [] && |cut.files| == 1 && Earlier(cut.files[0], end.files[0])
    decreases 2 * |lines| + if r.InHunk() then 1 else 0
  {
    hide Step, Earlier;
    ScanLeavesEarlier(r, lines, u);
    if lines == [] {
      assert lines[..j] == lines;
      EarlierSelf(r.Cur());
    } else {
      var step := Step(r, lines, u);
      var rest := lines[step.used..];
      StepShape(r, lines, u);
      StepSaysMore(r, lines, u);
      if |step.to.files| > 1 {
        assert j == 0 && Scan(r, lines[..0], u) == r;
        ScanLeavesEarlier(step.to, rest, u);
        assert step.to.files[..1][0] == r.files[0];
        EarlierSelf(r.Cur());
      } else {
        CutAt(step.to, rest, if j < step.used then 0 else j - step.used, u);
        assert rest[..0] == [];
        if step.used <= j && 0 < j {
          CutStep(r, lines, j, u);
          assert lines[..j][step.used..] == rest[..j - step.used];
        } else {
          EarlierTrans(r.Cur(), step.to.Cur(), Scan(step.to, rest, u).files[0]);
          if 0 < j {
            CutStep(r, lines, j, u);
            EarlierTrans(Scan(r, lines[..j], u).files[0], r.Cur(), Scan(step.to, rest, u).files[0]);
          }
        }
      }
    }
  }

  lemma EarlierSelf(f: Section)
    ensures Earlier(f, f)
  {
  }

  lemma PairInside(r: Reader, minus: string, plus: string, u: string -> string)
    requires |minus| >= 4 && |plus| >= 4 && r.files != [] && |StepPair(r, minus, plus, u).files| == |r.files|
    ensures r.Cur().hunks == 0
  {
    hide HeaderPath;
  }

  /** The first step on the first `j` lines is the first step on all of them,
      unless the cut parts a `---`/`+++` pair. */
  lemma CutStep(r: Reader, lines: seq<string>, j: nat, u: string -> string)
    requires r.Valid() && |r.files| == 1 && 0 < j <= |lines| && |Step(r, lines, u).to.files| == 1
    ensures var step := Step(r, lines, u);
            && (step.used <= j ==> Step(r, lines[..j], u) == step)
            && (step.used > j ==> var cut := Scan(r, lines[..j], u);
                                  |cut.files| == 1 && Earlier(cut.files[0], r.Cur()))
  {
    hide StepInHunk, StepPair, GitPath, HeaderPath, IsBlank;
    var step := Step(r, lines, u);
    assert lines[..j][0] == lines[0];
    if step.used > j {
      assert j == 1 && step.used == 2;
      PairInside(r, lines[0], lines[1], u);
      assert lines[..1] == [lines[0]];
      RowIsNoHeader(lines[0]);
      var to := StepPlainLine(r, lines[0]);
      assert Step(r, [lines[0]], u) == Move(to, 1);
      assert Scan(to, [], u) == to;
      hide ReadHunkHead;
      assert [lines[0]][1..] == [];
    }
  }

  /** Reading where a section begins: `n` is the state after its header. */
  lemma HeaderStep(own: seq<string>, u: string -> string) returns (n: Reader, used: nat)
    requires Begins(own)
    ensures n.Valid() && |n.files| == 1 && used <= |own| && n.Cur().lines == own[..used]
    ensures used == if GIT <= own[0] then 1 else 2
    ensures forall j {:trigger own[..j]} :: used <= j <= |own| ==>
              Scan(Start, own[..j], u) == Scan(n, own[..j][used..], u)
    ensures used == 2 ==> Scan(Start, own[..1], u).files == []
  {
    hide GitPath, HeaderPath, StepPlainLine, StepInHunk;
    StepShape(Start, own, u);
    var m := Step(Start, own, u);
    n, used := m.to, m.used;
    forall j | used <= j <= |own|
      ensures Scan(Start, own[..j], u) == Scan(n, own[..j][used..], u)
    {
      assert Step(Start, own[..j], u) == m;
    }
    if used == 2 {
      assert own[..1] == [own[0]] && own[..1][1..] == [];
      assert Step(Start, own[..1], u) == Move(Start, 1);
    }
  }

  lemma OwnLines(own: seq<string>, u: string -> string) returns (n: Reader, used: nat, m: nat)
    requires Begins(own)
    ensures n.Valid() && |n.files| == 1 && used + m <= |own| && m == Taken(n, own[used..], u)
    ensures used == if GIT <= own[0] then 1 else 2
    ensures var end := Scan(Start, own, u);
            end == Scan(n, own[used..], u) && end.files != [] && end.files[0].lines == own[..used + m]
    ensures forall j {:trigger own[..j]} :: used <= j <= |own| ==>
              Scan(Start, own[..j], u) == Scan(n, own[..j][used..], u)
    ensures used == 2 ==> Scan(Start, own[..1], u).files == []
  {
    hide Scan, Step, Taken, Begins;
    n, used := HeaderStep(own, u);
    var rest := own[used..];
    assert own[..|own|] == own;
    TakenLines(n, rest, u);
    m := Taken(n, rest, u);
    assert own[..used] + rest[..m] == own[..used + m];
  }

  lemma OwnCutAt(own: seq<string>, j: nat, u: string -> string)
    requires Begins(own) && Scan(Start, own, u).files != []
    requires 1 <= j <= |Scan(Start, own, u).files[0].lines| <= |own|
    ensures var end, cut := Scan(Start, own, u), Scan(Start, own[..j], u);
            && (cut.files == [] <==> j == 1 && !(GIT <= own[0]))
            && (cut.files != [] ==> |cut.files| == 1 && Earlier(cut.files[0], end.files[0]))
  {
    hide Scan, Step, Earlier, Taken;
    var n, used, m := OwnLines(own, u);
    if used <= j {
      var rest := own[used..];
      assert own[..j][used..] == rest[..j - used];
      CutAt(n, rest, j - used, u);
    }
  }

  /** Section `k` of a diff is what is read first from some place in it. */
  lemma SectionBody(diff: string, k: nat, u: string -> string) returns (own: seq<string>)
    requires k < |Sections(diff, u)|
    ensures Begins(own) && AllPlain(own)
    ensures var first, f := Scan(Start, own, u), Sections(diff, u)[k];
            && first.files != [] && f == first.files[0].(file := f.file, bad := f.bad)
            && (f.bad == Fine ==> first.files[0].bad == Fine)
  {
    hide Label, LinesOf, Scan, Begins;
    var lines := LinesOf(diff);
    var end := Scan(Start, lines, u);
    var i := SectionStart(Start, lines, k, u);
    own := lines[i..];
    LabelOnlyNames(Close(end), map[]);
    assert OnlyNamed(Close(end)[k], Sections(diff, u)[k]);
    assert Scan(Start, own, u).files[0] == end.files[k];
  }

  lemma EarlierAlike(e: Section, f: Section, g: Section)
    requires Earlier(e, f) && g.added == f.added && g.context == f.context && g.removed == f.removed
    requires g.bad == Fine ==> f.bad == Fine
    ensures Earlier(e, g)
  {
  }

  /** Section `k` of any diff, read again from its first `j` lines: nothing when its
      header pair is parted, and otherwise one section with the beginning of its rows, not bad
      when the whole is not. */
  lemma SectionCutAt(diff: string, k: nat, j: nat, u: string -> string)
    requires k < |Sections(diff, u)|
    requires 1 <= j <= |Sections(diff, u)[k].lines|
    ensures var f := Sections(diff, u)[k];
            var cut := Scan(Start, f.lines[..j], u);
            && (cut.files == [] <==> j == 1 && !(GIT <= f.lines[0]))
            && (cut.files != [] ==> |cut.files| == 1 && Earlier(cut.files[0], f))
  {
    hide Scan, Sections, Taken, Begins, AllPlain, Earlier;
    var own := SectionBody(diff, k, u);
    var n, used, m := OwnLines(own, u);
    OwnCutAt(own, j, u);
    var f, first := Sections(diff, u)[k], Scan(Start, own, u).files[0];
    assert f.lines[..j] == own[..j] by {
      assert own[..|f.lines|][..j] == own[..j];
    }
    if Scan(Start, own[..j], u).files != [] {
      EarlierAlike(Scan(Start, own[..j], u).files[0], first, f);
    }
  }

  /** A section has a header line, `diff --git` or the first of a pair, and plain lines. */
  lemma SectionLines(diff: string, k: nat, u: string -> string)
    requires k < |Sections(diff, u)|
    ensures var lines := Sections(diff, u)[k].lines;
            && lines != [] && AllPlain(lines)
            && (GIT <= lines[0] || (|lines| > 1 && MINUS <= lines[0] && PLUS <= lines[1]))
  {
    var own := SectionBody(diff, k, u);
    hide Scan, Sections, Taken;
    var n, used, m := OwnLines(own, u);
  }
}
