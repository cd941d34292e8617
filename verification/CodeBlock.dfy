/** A text in a fenced code block that nothing in the text can close, read back by the
    rules of section 4.5 of the CommonMark Spec. */
module CodeBlock {
  import Text

  const TICK: char := '`'

  function Ticks(n: nat): (s: string)
    ensures |s| == n && forall k :: 0 <= k < n ==> s[k] == TICK
  {
    seq(n, _ => TICK)
  }

  /** The number of back-ticks that `s` begins with. */
  function LeadingTicks(s: string): (n: nat)
    ensures n <= |s| && (forall k :: 0 <= k < n ==> s[k] == TICK) && (n < |s| ==> s[n] != TICK)
  {
    if s != "" && s[0] == TICK then 1 + LeadingTicks(s[1..]) else 0
  }

  /** The length of the longest run of back-ticks. */
  function LongestRun(s: string): nat
    decreases |s|
  {
    if s == "" then 0
    else
      var n := LeadingTicks(s);
      var rest := LongestRun(s[if n == 0 then 1 else n..]);
      if n < rest then rest else n
  }

  /** The back-ticks that begin and end the block: three, or more than any run of `text`. */
  function Width(text: string): nat {
    var n := LongestRun(text) + 1;
    if n < 3 then 3 else n
  }

  function Fence(text: string): string {
    Ticks(Width(text)) + "\n" + text + "\n" + Ticks(Width(text))
  }

  predicate HasRun(n: nat, s: string) {
    exists i :: 0 <= i <= |s| && Ticks(n) <= s[i..]
  }

  lemma {:induction false} RunIsLongestAtMost(n: nat, s: string, i: nat)
    requires i <= |s| && Ticks(n) <= s[i..]
    ensures n <= LongestRun(s)
    decreases |s|
  {
    if s == "" || n == 0 {
      assert |s[i..]| <= |s|;
    } else {
      var m := LeadingTicks(s);
      if m == 0 {
        assert s[i..][0] == Ticks(n)[0];
        assert s[1..][i - 1..] == s[i..];
        RunIsLongestAtMost(n, s[1..], i - 1);
      } else if i < m {
        RunFromWithin(n, s, i, m);
      } else {
        assert s[m..][i - m..] == s[i..];
        RunIsLongestAtMost(n, s[m..], i - m);
      }
    }
  }

  lemma RunFromWithin(n: nat, s: string, i: nat, m: nat)
    requires i < m == LeadingTicks(s) && Ticks(n) <= s[i..]
    ensures n <= m
  {
    assert m < |s| ==> s[i..][m - i] == s[m];
  }

  lemma {:induction false} LongestRunIsThere(s: string)
    ensures HasRun(LongestRun(s), s)
    decreases |s|
  {
    if s == "" {
      assert Ticks(0) <= s[0..];
    } else {
      var m := LeadingTicks(s);
      var at := if m == 0 then 1 else m;
      LongestRunIsThere(s[at..]);
      if m < LongestRun(s[at..]) {
        var i :| 0 <= i <= |s[at..]| && Ticks(LongestRun(s[at..])) <= s[at..][i..];
        assert s[at..][i..] == s[at + i..];
      } else {
        assert Ticks(m) <= s[0..];
      }
    }
  }

  /** A text has a run of so many back-ticks just when its longest is no shorter. */
  lemma RunsAre(n: nat, s: string)
    ensures HasRun(n, s) <==> n <= LongestRun(s)
  {
    if HasRun(n, s) {
      var i :| 0 <= i <= |s| && Ticks(n) <= s[i..];
      RunIsLongestAtMost(n, s, i);
    }
    if n <= LongestRun(s) {
      LongestRunIsThere(s);
      var i :| 0 <= i <= |s| && Ticks(LongestRun(s)) <= s[i..];
      assert Ticks(n) <= Ticks(LongestRun(s));
    }
  }

  /** No run of the text is as long as the fence, and no shorter fence would do: it is three
      back-ticks, or there is a run of one less. */
  lemma FenceIsLonger(text: string)
    ensures !HasRun(Width(text), text) && Width(text) >= 3
    ensures Width(text) > 3 ==> HasRun(Width(text) - 1, text)
  {
    RunsAre(Width(text), text);
    RunsAre(Width(text) - 1, text);
  }

  // ---- the block read ----------------------------------------------------

  function Indent(line: string): (n: nat)
    ensures n <= |line|
  {
    if line != "" && line[0] == ' ' then 1 + Indent(line[1..]) else 0
  }

  predicate IsFiller(s: string) {
    forall k :: 0 <= k < |s| ==> s[k] == ' ' || s[k] == '\t'
  }

  /** A line that closes a block opened with `n` back-ticks: at most three spaces, as many
      back-ticks or more, and nothing but spaces and tabs after them. */
  predicate Closes(n: nat, line: string) {
    var rest := line[Indent(line)..];
    Indent(line) <= 3 && n <= LeadingTicks(rest) && IsFiller(rest[LeadingTicks(rest)..])
  }

  /** The lines of a block up to the one that closes it, and those after that one. */
  function Content(n: nat, lines: seq<string>): (seq<string>, seq<string>) {
    if lines == [] then ([], [])
    else if Closes(n, lines[0]) then ([], lines[1..])
    else
      var (inside, after) := Content(n, lines[1..]);
      ([lines[0]] + inside, after)
  }

  datatype Block = NoBlock | Block(content: seq<string>, after: seq<string>)

  /** A block that begins with the first line, which is not indented and says no more. */
  function ReadBlock(lines: seq<string>): Block {
    if lines == [] then NoBlock
    else
      var n := LeadingTicks(lines[0]);
      if n < 3 || !IsFiller(lines[0][n..]) then NoBlock
      else
        var (inside, after) := Content(n, lines[1..]);
        Block(inside, after)
  }

  lemma ClosingHasRun(n: nat, line: string)
    requires Closes(n, line)
    ensures HasRun(n, line)
  {
    var i := Indent(line);
    assert Ticks(n) <= line[i..];
  }

  /** A line that would close the block, wherever the lines of the text are cut, is not there. */
  lemma NoLineCloses(text: string, i: nat, j: nat)
    requires i <= j <= |text|
    ensures !Closes(Width(text), text[i..j])
  {
    hide Closes;
    FenceIsLonger(text);
    SliceHasRun(Width(text), text, i, j);
    if Closes(Width(text), text[i..j]) {
      ClosingHasRun(Width(text), text[i..j]);
    }
  }

  lemma SliceHasRun(n: nat, text: string, i: nat, j: nat)
    requires i <= j <= |text|
    ensures HasRun(n, text[i..j]) ==> HasRun(n, text)
  {
    if k :| 0 <= k <= |text[i..j]| && Ticks(n) <= text[i..j][k..] {
      assert text[i..j][k..] <= text[i + k..];
    }
  }

  lemma {:induction false} SplitLineIsSlice(s: string, k: nat) returns (i: nat, j: nat)
    requires k < |Text.Split(s, '\n')|
    ensures i <= j <= |s| && Text.Split(s, '\n')[k] == s[i..j]
    ensures k == 0 ==> i == 0
    decreases |s|
  {
    if s == "" {
      i, j := 0, 0;
    } else {
      var t := Text.Split(s[1..], '\n');
      if s[0] == '\n' {
        if k == 0 {
          i, j := 0, 0;
        } else {
          i, j := SplitLineIsSlice(s[1..], k - 1);
          assert s[1..][i..j] == s[i + 1..j + 1];
          i, j := i + 1, j + 1;
        }
      } else {
        i, j := SplitLineIsSlice(s[1..], k);
        assert s[1..][i..j] == s[i + 1..j + 1];
        if k == 0 {
          assert s[0..j + 1] == [s[0]] + s[1..][0..j];
          i, j := 0, j + 1;
        } else {
          i, j := i + 1, j + 1;
        }
      }
    }
  }

  lemma {:induction false} ContentUpTo(n: nat, inside: seq<string>, last: string)
    requires forall k :: 0 <= k < |inside| ==> !Closes(n, inside[k])
    requires Closes(n, last)
    ensures Content(n, inside + [last]) == (inside, [])
  {
    if inside != [] {
      ContentUpTo(n, inside[1..], last);
      assert (inside + [last])[1..] == inside[1..] + [last];
      assert [inside[0]] + inside[1..] == inside;
    }
  }

  lemma FenceLines(text: string)
    ensures Text.Split(Fence(text), '\n') == [Ticks(Width(text))] + Text.Split(text, '\n') + [Ticks(Width(text))]
  {
    hide Text.Split, Width;
    var t := Ticks(Width(text));
    assert '\n' !in t;
    Text.SplitPlain(t, '\n');
    Text.SplitAtSeparator(t, text, '\n');
    Text.SplitAtSeparator(t + "\n" + text, t, '\n');
  }

  lemma AllTicks(n: nat)
    ensures LeadingTicks(Ticks(n)) == n && Closes(n, Ticks(n))
  {
    assert Ticks(n)[0..] == Ticks(n);
    assert Ticks(n)[n..] == "";
  }

  /** The block is read to its end, and the lines in it are the lines of the text. */
  lemma FenceReads(text: string)
    ensures ReadBlock(Text.Split(Fence(text), '\n')) == Block(Text.Split(text, '\n'), [])
  {
    hide Closes, Text.Split, Fence, Width;
    var n, lines := Width(text), Text.Split(text, '\n');
    FenceLines(text);
    AllTicks(n);
    AtLeastThree(text);
    forall k | 0 <= k < |lines| ensures !Closes(n, lines[k]) {
      var i, j := SplitLineIsSlice(text, k);
      NoLineCloses(text, i, j);
    }
    ContentUpTo(n, lines, Ticks(n));
    assert ([Ticks(n)] + lines + [Ticks(n)])[1..] == lines + [Ticks(n)];
  }

  lemma AtLeastThree(text: string)
    ensures Width(text) >= 3
  {
  }
}
