/** Standard output with a memory: the last lines written, the lines that report a failure,
    and an account of what the stream behind it could not take. */
module Tee {
  import opened Text
  import opened Drops
  import opened Picking

  const MAX_FAILURE_LINES := 200
  const MAX_SUMMARY_LINES := 60

  // ---- the memory --------------------------------------------------------

  /** Which lines report a failure, and which say how something went. */
  datatype Patterns = Patterns(failure: string -> bool, summary: string -> bool)

  datatype Memory = Memory(lines: seq<string>, failures: seq<string>, summary: seq<string>, part: string)

  const Blank := Memory([], [], [], "")

  /** The last `keep` of some lines; all of them when `keep` is 0. */
  function LastOf(s: seq<string>, keep: nat): seq<string> {
    if keep == 0 || |s| <= keep then s else s[|s| - keep..]
  }

  /** `r` ends `s`: the last `keep` of it, or all when there are no more or `keep` is 0. */
  ghost predicate Ends(r: seq<string>, s: seq<string>, keep: nat) {
    && |r| == (if keep > 0 && keep < |s| then keep else |s|)
    && forall k :: 0 <= k < |r| ==> r[k] == s[|s| - |r| + k]
  }

  lemma LastOfEnds(s: seq<string>, keep: nat)
    ensures Ends(LastOf(s, keep), s, keep)
  {
  }

  predicate Fits(lines: seq<string>, keep: nat) {
    keep == 0 || |lines| <= keep
  }

  /** One whole line is kept as a failure, else as a summary, while there is room. */
  function FileLine(m: Memory, line: string, p: Patterns): Memory {
    if |m.failures| < MAX_FAILURE_LINES && p.failure(line) then m.(failures := m.failures + [StripRight(line)])
    else if |m.summary| < MAX_SUMMARY_LINES && p.summary(line) then m.(summary := m.summary + [StripRight(line)])
    else m
  }

  function FileLines(m: Memory, whole: seq<string>, p: Patterns): (r: Memory)
    ensures r.lines == m.lines && r.part == m.part
    decreases |whole|
  {
    if whole == [] then m else FileLines(FileLine(m, whole[0], p), whole[1..], p)
  }

  lemma FileOne(m: Memory, line: string, more: seq<string>, p: Patterns)
    ensures FileLines(m, [line] + more, p) == FileLines(FileLine(m, line, p), more, p)
  {
    hide FileLine;
    assert ([line] + more)[1..] == more;
  }

  lemma FileNone(m: Memory, p: Patterns)
    ensures FileLines(m, [], p) == m
  {
  }

  /** The memory after one more piece of output, wherever it was cut. */
  function Feed(m: Memory, text: string, keep: nat, p: Patterns): Memory {
    var pieces := Split(m.part + text, '\n');
    var last := |pieces| - 1;
    FileLines(m.(part := pieces[last], lines := LastOf(m.lines + pieces[..last], keep)), pieces[..last], p)
  }

  function FeedAll(m: Memory, chunks: seq<string>, keep: nat, p: Patterns): Memory
    decreases |chunks|
  {
    if chunks == [] then m else FeedAll(Feed(m, chunks[0], keep, p), chunks[1..], keep, p)
  }

  function Whole(chunks: seq<string>): string {
    if chunks == [] then "" else chunks[0] + Whole(chunks[1..])
  }

  // ---- streaming is the same as reading it all at once -------------------

  lemma {:induction false} FileMore(m: Memory, a: seq<string>, b: seq<string>, p: Patterns)
    ensures FileLines(m, a + b, p) == FileLines(FileLines(m, a, p), b, p)
    decreases |a|
  {
    if a == [] {
      assert a + b == b;
    } else {
      assert (a + b)[1..] == a[1..] + b;
      FileMore(FileLine(m, a[0], p), a[1..], b, p);
    }
  }

  /** Filing lines does not look at the last lines or at the open piece. */
  lemma {:induction false} FileApart(m: Memory, whole: seq<string>, p: Patterns, lines: seq<string>, part: string)
    ensures FileLines(m.(lines := lines, part := part), whole, p) == FileLines(m, whole, p).(lines := lines, part := part)
    decreases |whole|
  {
    if whole != [] {
      FileApart(FileLine(m, whole[0], p), whole[1..], p, lines, part);
    }
  }

  lemma LastOfLast(a: seq<string>, b: seq<string>, keep: nat)
    ensures LastOf(LastOf(a, keep) + b, keep) == LastOf(a + b, keep)
  {
  }

  lemma GlueLast(p: seq<string>, q: seq<string>)
    requires |p| > 0 && |q| > 0
    ensures var all, end := Glue(p, q), Glue([p[|p| - 1]], q);
            && all[..|all| - 1] == p[..|p| - 1] + end[..|end| - 1]
            && all[|all| - 1] == end[|end| - 1]
  {
    var all, end := Glue(p, q), Glue([p[|p| - 1]], q);
    assert all == p[..|p| - 1] + end;
  }

  /** Two pieces of output leave what the two as one would have left. */
  lemma FeedTwice(m: Memory, a: string, b: string, keep: nat, p: Patterns)
    ensures Feed(Feed(m, a, keep, p), b, keep, p) == Feed(m, a + b, keep, p)
  {
    hide Split, LastOf, Glue;
    var first := Split(m.part + a, '\n');
    var w1, part := first[..|first| - 1], first[|first| - 1];
    SplitParts(m.part + a, '\n');
    SplitConcat(m.part + a, b, '\n');
    assert m.part + a + b == m.part + (a + b);
    SplitPlain(part, '\n');
    SplitConcat(part, b, '\n');
    GlueLast(first, Split(b, '\n'));
    var second := Split(part + b, '\n');
    var w2, end := second[..|second| - 1], second[|second| - 1];
    LastOfLast(m.lines + w1, w2, keep);
    assert m.lines + w1 + w2 == m.lines + (w1 + w2);
    FileMore(m, w1, w2, p);
    FileApart(m, w1, p, LastOf(m.lines + w1, keep), part);
    FileApart(FileLines(m, w1, p), w2, p, LastOf(m.lines + (w1 + w2), keep), end);
    FileApart(m, w1 + w2, p, LastOf(m.lines + (w1 + w2), keep), end);
  }

  /** However the output is cut, the memory is that of the whole of it. */
  lemma {:induction false} StreamingIsBatch(m: Memory, chunks: seq<string>, keep: nat, p: Patterns)
    requires Fits(m.lines, keep) && '\n' !in m.part
    ensures FeedAll(m, chunks, keep, p) == Feed(m, Whole(chunks), keep, p)
    decreases |chunks|
  {
    hide Feed;
    if chunks == [] {
      FeedNothing(m, keep, p);
    } else {
      FeedFits(m, chunks[0], keep, p);
      StreamingIsBatch(Feed(m, chunks[0], keep, p), chunks[1..], keep, p);
      FeedTwice(m, chunks[0], Whole(chunks[1..]), keep, p);
    }
  }

  lemma FeedNothing(m: Memory, keep: nat, p: Patterns)
    requires Fits(m.lines, keep) && '\n' !in m.part
    ensures Feed(m, "", keep, p) == m
  {
    assert m.part + "" == m.part;
    SplitPlain(m.part, '\n');
    assert m.lines + [] == m.lines;
  }

  lemma FeedFits(m: Memory, text: string, keep: nat, p: Patterns)
    ensures Fits(Feed(m, text, keep, p).lines, keep) && '\n' !in Feed(m, text, keep, p).part
  {
    SplitParts(m.part + text, '\n');
  }

  /** The lines that report a failure. */
  function Failing(lines: seq<string>, p: Patterns): seq<string> {
    if lines == [] then []
    else (if p.failure(lines[0]) then [StripRight(lines[0])] else []) + Failing(lines[1..], p)
  }

  /** The line at a place reports a failure; `t` is what is kept of it. */
  ghost function IsFailing(lines: seq<string>, p: Patterns): (nat, string) -> bool {
    (i: nat, t: string) => i < |lines| && p.failure(lines[i]) && t == StripRight(lines[i])
  }

  lemma {:induction false} FailingAre(lines: seq<string>, p: Patterns)
    ensures Picks(Failing(lines, p), |lines|, IsFailing(lines, p))
  {
    hide StripRight, Picks;
    if lines == [] {
      PicksNone(IsFailing(lines, p));
    } else {
      var n := |lines| - 1;
      FailingAre(lines[..n], p);
      FailingMore(lines[..n], lines[n], p);
      assert lines == lines[..n] + [lines[n]];
      PicksSame(Failing(lines[..n], p), n, IsFailing(lines[..n], p), IsFailing(lines, p));
      if p.failure(lines[n]) {
        PicksMore(Failing(lines[..n], p), n, IsFailing(lines, p), StripRight(lines[n]));
      } else {
        PicksNoMore(Failing(lines[..n], p), n, IsFailing(lines, p));
        assert Failing(lines[..n], p) + [] == Failing(lines[..n], p);
      }
    }
  }

  lemma {:induction false} FailingMore(less: seq<string>, last: string, p: Patterns)
    ensures Failing(less + [last], p) == Failing(less, p) + if p.failure(last) then [StripRight(last)] else []
  {
    hide StripRight;
    if less != [] {
      assert (less + [last])[1..] == less[1..] + [last];
      FailingMore(less[1..], last, p);
    }
  }

  /** The first of some texts, as many as there is room for. */
  function FirstOf(s: seq<string>, most: nat): seq<string> {
    if |s| <= most then s else s[..most]
  }

  lemma {:induction false} FiledFailures(m: Memory, whole: seq<string>, p: Patterns)
    requires |m.failures| <= MAX_FAILURE_LINES
    ensures FileLines(m, whole, p).failures == FirstOf(m.failures + Failing(whole, p), MAX_FAILURE_LINES)
    decreases |whole|
  {
    if whole == [] {
      assert m.failures + [] == m.failures;
    } else {
      hide StripRight, FirstOf;
      FiledFailures(FileLine(m, whole[0], p), whole[1..], p);
      FirstOfMore(m, whole, p);
    }
  }

  lemma FirstOfMore(m: Memory, whole: seq<string>, p: Patterns)
    requires |m.failures| <= MAX_FAILURE_LINES && whole != []
    ensures FirstOf(FileLine(m, whole[0], p).failures + Failing(whole[1..], p), MAX_FAILURE_LINES)
         == FirstOf(m.failures + Failing(whole, p), MAX_FAILURE_LINES)
  {
    hide StripRight;
    var line, rest := whole[0], Failing(whole[1..], p);
    if !p.failure(line) {
      assert Failing(whole, p) == rest;
    } else if |m.failures| < MAX_FAILURE_LINES {
      assert m.failures + Failing(whole, p) == m.failures + [StripRight(line)] + rest;
    }
  }

  /** The lines of the summary: those that are, but for the failures there was room for. */
  function Summaries(lines: seq<string>, p: Patterns): seq<string> {
    if lines == [] then []
    else
      var less, last := lines[..|lines| - 1], lines[|lines| - 1];
      var asFailure := p.failure(last) && |Failing(less, p)| < MAX_FAILURE_LINES;
      Summaries(less, p) + if p.summary(last) && !asFailure then [StripRight(last)] else []
  }

  lemma {:induction false} FiledSummary(m: Memory, whole: seq<string>, p: Patterns)
    requires m.failures == [] && m.summary == []
    ensures FileLines(m, whole, p).summary == FirstOf(Summaries(whole, p), MAX_SUMMARY_LINES)
    decreases |whole|
  {
    hide StripRight, FileLines, Failing, Summaries;
    if whole == [] {
      NoSummaries(m, p);
    } else {
      var less, last := whole[..|whole| - 1], whole[|whole| - 1];
      assert whole == less + [last];
      FiledSummary(m, less, p);
      FiledFailures(m, less, p);
      assert [] + Failing(less, p) == Failing(less, p);
      FileMore(m, less, [last], p);
      assert [last] == [last] + [];
      FileOne(FileLines(m, less, p), last, [], p);
      FileNone(FileLine(FileLines(m, less, p), last, p), p);
      OneMoreSummary(less, last, p);
    }
  }

  lemma NoSummaries(m: Memory, p: Patterns)
    ensures Summaries([], p) == [] && FileLines(m, [], p) == m
  {
  }

  lemma OneMoreSummary(less: seq<string>, last: string, p: Patterns)
    ensures Summaries(less + [last], p)
            == Summaries(less, p) + if p.summary(last) && !(p.failure(last) && |Failing(less, p)| < MAX_FAILURE_LINES)
                                    then [StripRight(last)] else []
  {
    hide StripRight, Failing;
    assert (less + [last])[..|less|] == less;
  }

  /** The line at a place says how something went, and is not among the failures there was
      room for. */
  ghost function IsSummary(lines: seq<string>, p: Patterns): (nat, string) -> bool {
    (i: nat, t: string) => i < |lines| && p.summary(lines[i]) && t == StripRight(lines[i])
              && (p.failure(lines[i]) ==> |Failing(lines[..i], p)| >= MAX_FAILURE_LINES)
  }

  lemma {:induction false} SummariesAre(lines: seq<string>, p: Patterns)
    ensures Picks(Summaries(lines, p), |lines|, IsSummary(lines, p))
  {
    hide StripRight, Picks, Failing;
    if lines == [] {
      PicksNone(IsSummary(lines, p));
    } else {
      var n := |lines| - 1;
      SummariesAre(lines[..n], p);
      forall i: nat, t: string | i < n ensures IsSummary(lines[..n], p)(i, t) <==> IsSummary(lines, p)(i, t) {
        assert lines[..n][..i] == lines[..i];
      }
      PicksSame(Summaries(lines[..n], p), n, IsSummary(lines[..n], p), IsSummary(lines, p));
      if IsSummary(lines, p)(n, StripRight(lines[n])) {
        PicksMore(Summaries(lines[..n], p), n, IsSummary(lines, p), StripRight(lines[n]));
      } else {
        PicksNoMore(Summaries(lines[..n], p), n, IsSummary(lines, p));
        assert Summaries(lines[..n], p) + [] == Summaries(lines[..n], p);
      }
    }
  }

  /** `r` is the beginning of the list of all that is given, as long as there is room for. */
  ghost predicate Begins(r: seq<string>, n: nat, gives: (nat, string) -> bool, most: nat) {
    exists all: seq<string> :: Picks(all, n, gives) && r <= all && |r| == if |all| <= most then |all| else most
  }

  /** The memory of a whole output: its last lines, the first failures in it and the first
      lines of its summary, in the order of the output and stripped at their ends. */
  lemma MemoryOfAll(text: string, keep: nat, p: Patterns)
    ensures var pieces, m := Split(text, '\n'), Feed(Blank, text, keep, p);
            var whole := pieces[..|pieces| - 1];
            && m.part == pieces[|pieces| - 1] && Ends(m.lines, whole, keep)
            && Begins(m.failures, |whole|, IsFailing(whole, p), MAX_FAILURE_LINES)
            && Begins(m.summary, |whole|, IsSummary(whole, p), MAX_SUMMARY_LINES)
  {
    hide Split, FileLines, Failing, Summaries, StripRight, Picks;
    assert "" + text == text;
    var pieces := Split(text, '\n');
    var whole := pieces[..|pieces| - 1];
    assert [] + whole == whole;
    var start := Blank.(part := pieces[|pieces| - 1], lines := LastOf(whole, keep));
    LastOfEnds(whole, keep);
    FiledFailures(start, whole, p);
    FiledSummary(start, whole, p);
    assert [] + Failing(whole, p) == Failing(whole, p);
    FailingAre(whole, p);
    SummariesAre(whole, p);
  }

  // ---- the stream behind it ----------------------------------------------

  datatype Reply = Taken | Failed(why: string) | CannotEncode

  /** A stream: `answers` says how it is to meet the writes to come. */
  class Stream {
    const encodable: string -> bool
    ghost var out: seq<Item>
    var answers: seq<Answer>

    constructor (encodable: string -> bool, answers: seq<Answer>)
      ensures this.encodable == encodable && this.answers == answers && out == []
    {
      this.encodable, this.answers := encodable, answers;
      out := [];
    }

    /** One write of `text`, which is `item`. */
    method Put(text: string, ghost item: Item) returns (r: Reply, a: Answer)
      modifies this
      ensures a == if old(answers) == [] then Ready else old(answers)[0]
      ensures answers == if old(answers) == [] then [] else old(answers)[1..]
      ensures r == if !a.Ready? then Failed(a.why) else if encodable(text) then Taken else CannotEncode
      ensures out == if r.Taken? then old(out) + [item] else old(out)
    {
      a := Ready;
      if answers != [] {
        a, answers := answers[0], answers[1..];
      }
      if !a.Ready? {
        r := Failed(a.why);
      } else if encodable(text) {
        r := Taken;
        out := out + [item];
      } else {
        r := CannotEncode;
      }
    }
  }

  class Tee {
    const stream: Stream
    const keep: nat
    const p: Patterns
    const means: Means
    var lines: seq<string>
    var failures: seq<string>
    var summary: seq<string>
    var part: string
    var dropped: nat
    var why: string

    ghost function Now(): Memory
      reads this
    {
      Memory(lines, failures, summary, part)
    }

    ghost function AtStream(): Line
      reads this, stream
    {
      Line(stream.out, stream.answers, dropped, why)
    }

    ghost predicate Valid()
      reads this, stream
    {
      stream.encodable == means.encodable && Fits(lines, keep)
    }

    constructor (stream: Stream, keep: nat, p: Patterns, means: Means)
      requires stream.encodable == means.encodable
      ensures this.stream == stream && this.keep == keep && this.p == p && this.means == means
      ensures Valid() && Now() == Blank && AtStream() == Line(stream.out, stream.answers, 0, "")
    {
      this.stream, this.keep, this.p, this.means := stream, keep, p, means;
      lines, failures, summary, part := [], [], [], "";
      dropped, why := 0, "";
    }

    /** One write call; `raised` when an encoding error leaves it. */
    method Write(text: string) returns (raised: bool)
      requires Valid()
      modifies this, stream
      ensures Valid()
      ensures Now() == Feed(old(Now()), text, keep, p)
      ensures End(AtStream(), raised) == Drops.Put(means, old(AtStream()), text)
    {
      hide Feed, Try;
      Remember(text);
      raised := Retrying(text);
      if raised {
        raised := Retrying(means.safe(text));
      }
    }

    method Remember(text: string)
      modifies this`lines, this`failures, this`summary, this`part
      ensures Now() == Feed(old(Now()), text, keep, p)
      ensures Fits(lines, keep)
    {
      hide Split, FileLines, StripRight;
      ghost var start := Now();
      part := part + text;
      var pieces := Split(part, '\n');
      var whole := pieces[..|pieces| - 1];
      part := pieces[|pieces| - 1];
      var all := lines + whole;
      lines := if keep == 0 || |all| <= keep then all else all[|all| - keep..];
      for i := 0 to |whole|
        invariant FileLines(start.(part := part, lines := lines), whole, p) == FileLines(Now(), whole[i..], p)
        invariant lines == LastOf(all, keep) && part == pieces[|pieces| - 1]
      {
        FileOne(Now(), whole[i], whole[i + 1..], p);
        assert whole[i..] == [whole[i]] + whole[i + 1..];
        if |failures| < MAX_FAILURE_LINES && p.failure(whole[i]) {
          failures := failures + [StripRight(whole[i])];
        } else if |summary| < MAX_SUMMARY_LINES && p.summary(whole[i]) {
          summary := summary + [StripRight(whole[i])];
        }
      }
      assert whole[|whole|..] == [];
      FileNone(Now(), p);
    }

    /** Tried again, then dropped; an encoding error is raised at once. While lines are being
        dropped there is one try. */
    method Retrying(text: string) returns (raised: bool)
      requires stream.encodable == means.encodable
      modifies this`dropped, this`why, stream
      ensures End(AtStream(), raised) == Try(means, old(AtStream()), text, Tries(old(AtStream())))
    {
      hide Tell, Drops.Put;
      var tries := if dropped > 0 then 1 else RETRIES + 1;
      while tries > 0
        invariant tries > 0 && stream.out == old(stream.out) && dropped == old(dropped) && why == old(why)
        invariant Try(means, AtStream(), text, tries) == Try(means, old(AtStream()), text, Tries(old(AtStream())))
      {
        ghost var before := AtStream();
        var r, a := stream.Put(text, Text(text));
        assert a == First(before) && stream.answers == Rest(before).answers;
        match r {
          case Taken =>
            if dropped == 0 {
              return false;
            }
            raised := TellOf();
            return;
          case CannotEncode =>
            return true;
          case Failed(reason) =>
            if tries == 1 {
              dropped, why := dropped + 1, reason;
              return false;
            }
            tries := tries - 1;
        }
      }
    }

    /** The stream takes lines again: say once how many were dropped. Only an operating-system
        error is caught here; the caller counts a text dropped for a value error. */
    method TellOf() returns (raised: bool)
      requires stream.encodable == means.encodable && dropped > 0
      modifies this`dropped, this`why, stream
      ensures End(AtStream(), raised) == Tell(means, old(AtStream()))
    {
      var n := dropped;
      dropped := 0;
      ghost var before := AtStream();
      var r, a := stream.Put(means.note(n, why), Note(n));
      assert a == First(before);
      match r {
        case Taken =>
          return false;
        case CannotEncode =>
          return true;
        case Failed(reason) =>
          if a.OsFault? {
            dropped := n;
          } else {
            dropped, why := dropped + 1, reason;
          }
          return false;
      }
    }
  }
}
