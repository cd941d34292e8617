/** What is kept of the words of a call: nothing the agent said is lost, doubled or put
    out of order, and which text a call that is ended from outside gives. */
module CallWords {
  import opened Text
  import opened CallProtocol
  import opened CallSafety
  import opened Wrappers

  // ---- words without white space -----------------------------------------

  /** A text without its white space. */
  function Ink(s: string): string {
    if s == "" then "" else (if IsSpace(s[0]) then "" else [s[0]]) + Ink(s[1..])
  }

  lemma {:induction false} InkConcat(a: string, b: string)
    ensures Ink(a + b) == Ink(a) + Ink(b)
    decreases |a|
  {
    hide IsSpace;
    if a == "" {
      assert a + b == b;
    } else {
      InkConcat(a[1..], b);
      assert (a + b)[1..] == a[1..] + b;
      var first := if IsSpace(a[0]) then "" else [a[0]];
      assert first + (Ink(a[1..]) + Ink(b)) == first + Ink(a[1..]) + Ink(b);
    }
  }

  lemma {:induction false} InkBlank(s: string)
    ensures IsBlank(s) <==> Ink(s) == ""
  {
    hide IsSpace;
    if s != "" {
      InkBlank(s[1..]);
      if IsSpace(s[0]) {
        assert forall k :: 0 < k < |s| ==> s[k] == s[1..][k - 1];
        assert forall k :: 0 <= k < |s[1..]| ==> s[1..][k] == s[k + 1];
      }
    }
  }

  lemma {:induction false} InkLeft(s: string)
    ensures Ink(StripLeft(s)) == Ink(s)
  {
    hide IsSpace;
    if s != "" && IsSpace(s[0]) {
      InkLeft(s[1..]);
      assert "" + Ink(s[1..]) == Ink(s[1..]);
    }
  }

  lemma {:induction false} InkRight(s: string)
    ensures Ink(StripRight(s)) == Ink(s)
    decreases |s|
  {
    hide IsSpace;
    if s != "" && IsSpace(s[|s| - 1]) {
      var n := |s| - 1;
      InkRight(s[..n]);
      assert s == s[..n] + [s[n]];
      InkConcat(s[..n], [s[n]]);
      assert Ink([s[n]]) == "" + Ink([s[n]][1..]) == "";
      assert Ink(s[..n]) + "" == Ink(s[..n]);
    }
  }

  lemma InkStrip(s: string)
    ensures Ink(Strip(s)) == Ink(s)
  {
    InkLeft(s);
    InkRight(StripLeft(s));
  }

  function AllInk(parts: seq<string>): string {
    if parts == [] then "" else AllInk(parts[..|parts| - 1]) + Ink(parts[|parts| - 1])
  }

  lemma AllInkMore(parts: seq<string>, part: string)
    ensures AllInk(parts + [part]) == AllInk(parts) + Ink(part)
  {
    hide Ink;
    assert (parts + [part])[..|parts|] == parts;
  }

  /** The words so far, said or still gathered. */
  function Worded(w: Words): string {
    AllInk(w.transcript) + Ink(w.said)
  }

  // ---- one message -------------------------------------------------------

  function PieceOf(m: Msg): string {
    if m.Assistant? then m.piece else ""
  }

  lemma FlushTells(w: Words, now: nat, stopped: bool)
    ensures Worded(Flush(w, now, stopped)) == Worded(w) && Flush(w, now, stopped).raw == w.raw
    ensures Flush(w, now, stopped).said == ""
  {
    hide Ink, Strip, IsBlank, AllInk;
    InkBlank(w.said);
    InkStrip(w.said);
    AllInkMore(w.transcript, Strip(w.said));
    InkNothing();
    assert AllInk(w.transcript) + Ink(w.said) + "" == AllInk(w.transcript) + Ink(w.said);
  }

  lemma InkNothing()
    ensures Ink("") == "" && AllInk([]) == ""
  {
  }

  /** Taking a message adds its piece to the words, and nothing else; the pieces themselves are
      kept as they came. */
  lemma HearTells(w: Words, m: Msg, again: bool, now: nat, stopped: bool)
    ensures var t := Hear(w, m, again, now, stopped);
            Worded(t) == Worded(w) + Ink(PieceOf(m)) && t.raw == w.raw + PieceOf(m) && (!m.Assistant? ==> t.said == "")
  {
    hide Ink, Flush, AllInk, EndsWith, DropSpaces, HasLine;
    InkNothing();
    FlushTells(w, now, stopped);
    assert w.raw + "" == w.raw && Worded(w) + "" == Worded(w);
    var v := EndThinking(w, now, stopped);
    FlushTells(v, now, stopped);
    if m.Assistant? && m.piece != "" {
      var t := v.(said := v.said + m.piece, raw := v.raw + m.piece, lastAt := now);
      InkConcat(v.said, m.piece);
      assert AllInk(w.transcript) + (Ink(w.said) + Ink(m.piece)) == AllInk(w.transcript) + Ink(w.said) + Ink(m.piece);
      FlushTells(t, now, stopped);
    }
  }

  /** Something is said of the message: not of an empty line, nor of a tool call that is said to be
      running again, unless it brings a plan. */
  ghost predicate IsSaid(m: Msg, again: bool) {
    && (m.OtherMsg? ==> |m.line| > 0)
    && (m.ToolCall? && again ==> m.tool.Plans? && !IsBlank(m.tool.text))
  }

  /** A sign of life is anything said before the stop, and, even after it, thinking or words. */
  lemma SignOfLife(w: Words, m: Msg, again: bool, now: nat, stopped: bool)
    ensures Hear(w, m, again, now, stopped).lastAt
            == if m.Thinking? || (m.Assistant? && m.piece != "")
                  || (!stopped && (w.thinking || (!m.Assistant? && (IsSaid(m, again) || !IsBlank(w.said)))))
               then now else w.lastAt
  {
    hide EndsWith, DropSpaces, IsBlank, Strip;
  }

  /** A paragraph ends: two line breaks, and spaces after them. */
  ghost predicate EndsParagraph(s: string) {
    exists a: string, n: nat :: s == a + "\n\n" + Spaces(n)
  }

  function Spaces(n: nat): (s: string)
    ensures |s| == n && forall k :: 0 <= k < n ==> s[k] == ' '
  {
    seq(n, i => ' ')
  }

  lemma {:induction false} DropSpacesIs(s: string) returns (n: nat)
    ensures s == DropSpaces(s) + Spaces(n)
    ensures DropSpaces(s) == "" || DropSpaces(s)[|DropSpaces(s)| - 1] != ' '
  {
    n := 0;
    if s != "" && s[|s| - 1] == ' ' {
      n := DropSpacesIs(s[..|s| - 1]);
      assert Spaces(n + 1) == Spaces(n) + " ";
      assert s == s[..|s| - 1] + " ";
      n := n + 1;
    }
  }

  lemma {:induction false} DropThese(s: string, n: nat)
    requires s != "" && s[|s| - 1] != ' '
    ensures DropSpaces(s + Spaces(n)) == s
  {
    if n == 0 {
      assert s + Spaces(0) == s;
    } else {
      var t := s + Spaces(n);
      assert t[..|t| - 1] == s + Spaces(n - 1) && t[|t| - 1] == ' ';
      DropThese(s, n - 1);
    }
  }

  lemma ParagraphIs(s: string)
    ensures EndsParagraph(s) <==> EndsWith(DropSpaces(s), "\n\n")
  {
    hide DropSpaces;
    if a: string, n: nat :| s == a + "\n\n" + Spaces(n) {
      DropThese(a + "\n\n", n);
    }
    if EndsWith(DropSpaces(s), "\n\n") {
      var n := DropSpacesIs(s);
      var t := DropSpaces(s);
      assert t == t[..|t| - 2] + "\n\n";
    }
  }

  /** Gathered words are said whole when anything but words comes, at the end of a paragraph, and
      when they are more than 1500 characters; then they are told, if they are not blank. */
  lemma WordsSaid(w: Words, m: Msg, again: bool, now: nat, stopped: bool)
    ensures var t, words := Hear(w, m, again, now, stopped), w.said + PieceOf(m);
            var whole := m.Assistant? ==> |m.piece| > 0 && (EndsParagraph(words) || |words| > 1500);
            && t.said == (if whole then "" else words)
            && t.transcript == w.transcript + (if whole && !IsBlank(words) then [Strip(words)] else [])
  {
    hide EndsWith, DropSpaces, IsBlank, Strip, EndsParagraph, HasLine;
    var words := w.said + PieceOf(m);
    ParagraphIs(words);
    assert w.said + "" == w.said && w.transcript + [] == w.transcript;
  }

  // ---- whole runs --------------------------------------------------------

  function Pieces(log: seq<Msg>): string {
    if log == [] then "" else Pieces(log[..|log| - 1]) + PieceOf(log[|log| - 1])
  }

  lemma PiecesMore(log: seq<Msg>, m: Msg)
    ensures Pieces(log + [m]) == Pieces(log) + PieceOf(m)
  {
    hide PieceOf;
    assert (log + [m])[..|log|] == log;
  }

  /** The words are those of all messages taken, and the pieces kept are those of the messages
      from `from` on, where the turn began. */
  ghost predicate Faithful(s: State, from: nat) {
    && from <= |s.msgs.done| && (s.runs.live < 2 ==> from == 0)
    && s.words.raw == Pieces(s.msgs.done[from..])
    && Worded(s.words) == Ink(Pieces(s.msgs.done))
  }

  lemma TakenFaithful(c: Config, s: State, from: nat)
    requires Faithful(s, from) && s.msgs.pending.Some? && s.msgs.v.Valid()
    ensures Faithful(TakePending(c, s), from)
  {
    hide Hear, Ink, Take, Worded;
    var m := s.msgs.pending.value;
    HearTells(s.words, m, Repeats(s.msgs.v, m), s.now, s.flags.stopped);
    PiecesMore(s.msgs.done, m);
    PiecesMore(s.msgs.done[from..], m);
    assert (s.msgs.done + [m])[from..] == s.msgs.done[from..] + [m];
    InkConcat(Pieces(s.msgs.done), PieceOf(m));
  }

  lemma OverFaithful(s: State, t: State, from: nat)
    requires Faithful(s, from) && t.msgs.done == s.msgs.done && (t.runs.live < 2 ==> s.runs.live < 2)
    requires t.words.raw == s.words.raw && Worded(t.words) == Worded(s.words)
    ensures Faithful(t, from)
  {
  }

  /** Only a second turn begins the kept pieces anew. */
  lemma NextFaithful(c: Config, s: State, e: Event, from: nat) returns (now: nat)
    requires Enabled(c, s, e) && s.msgs.v.Valid() && Inv(c, s) && Faithful(s, from)
    ensures Faithful(Next(c, s, e), now) && now == if e.SecondSent? then |s.msgs.done| else from
  {
    hide Inv, Flush, Hear, Ink, Worded, ResultOf, Pieces, Take;
    now := from;
    var t := Next(c, s, e);
    if e.Taken? {
      TakenFaithful(c, s, from);
    } else if e.SecondSent? {
      now := |s.msgs.done|;
      NoPieces();
      assert s.msgs.done[now..] == [];
      SameTold(s.words, t.words);
    } else {
      WordsStay(c, s, e);
      LiveStays(c, s, e);
      hide Next;
      OverFaithful(s, t, from);
    }
  }

  lemma WordsStay(c: Config, s: State, e: Event)
    requires Enabled(c, s, e) && s.msgs.v.Valid() && !e.Taken? && !e.SecondSent?
    ensures var t := Next(c, s, e);
            t.msgs.done == s.msgs.done && t.words.raw == s.words.raw && Worded(t.words) == Worded(s.words)
  {
    hide WorkerCan, WorkerStep, ResultOf;
    if !e.Pass? && !PulseCan(c, s, e) && !WaiterCan(c, s, e) {
      WordsOfWorker(c, s, e);
    }
  }

  lemma WordsOfWorker(c: Config, s: State, e: Event)
    requires s.msgs.v.Valid() && WorkerCan(c, s, e) && !e.Taken? && !e.SecondSent?
    ensures var t := WorkerStep(c, s, e);
            t.msgs.done == s.msgs.done && t.words.raw == s.words.raw && Worded(t.words) == Worded(s.words)
  {
    hide Flush, EndThinking, Ink, Worded, TakePending, Cancel, EnterQuiet;
    var v, t := EndThinking(s.words, s.now, s.flags.stopped), WorkerStep(c, s, e);
    ThinkingTells(s.words, s.now, s.flags.stopped);
    FlushTells(v, s.now, s.flags.stopped);
    SameTold(s.words, v);
    if !e.MessagesOver? {
      SameTold(s.words, t.words);
    }
  }

  lemma ThinkingTells(w: Words, now: nat, stopped: bool)
    ensures var v := EndThinking(w, now, stopped); v.transcript == w.transcript && v.said == w.said && v.raw == w.raw
  {
  }

  lemma SameTold(w: Words, x: Words)
    requires x.transcript == w.transcript && x.said == w.said
    ensures Worded(x) == Worded(w)
  {
  }

  lemma NoPieces()
    ensures Pieces([]) == ""
  {
  }

  lemma LiveStays(c: Config, s: State, e: Event)
    requires Enabled(c, s, e) && s.msgs.v.Valid() && Inv(c, s) && !e.SecondSent?
    ensures Next(c, s, e).runs.live == s.runs.live || (e.RunSent? && s.runs.live == 0 && Next(c, s, e).runs.live == 1)
  {
    hide Honest, AnswerLast, OnceOnly, PulseHonest, StopTold, ResultTrue, Told, WorkerStep, WorkerCan, ResultOf, EnterQuiet;
    if !e.Pass? && !PulseCan(c, s, e) && !WaiterCan(c, s, e) {
      LiveOfWorker(c, s, e);
    }
  }

  lemma LiveOfWorker(c: Config, s: State, e: Event)
    requires s.msgs.v.Valid() && WorkerCan(c, s, e) && !e.SecondSent? && (s.worker.Sending? ==> s.runs.live == 0)
    ensures WorkerStep(c, s, e).runs.live == s.runs.live || (e.RunSent? && s.runs.live == 0 && WorkerStep(c, s, e).runs.live == 1)
  {
    hide Hear, Take, Flush, EndThinking, EnterQuiet;
  }

  /** However the call runs, the words said and still gathered are, white space aside, the pieces
      of all messages taken, each once and in their order; and what is kept as it came are the
      pieces of the turn that goes on. */
  lemma {:induction false} NothingSaidIsLost(c: Config, s: State, es: seq<Event>, from: nat) returns (now: nat)
    requires Inv(c, s) && Possible(c, s, es) && Faithful(s, from)
    ensures Faithful(After(c, s, es), now)
    decreases |es|
  {
    hide Next, Faithful, Honest, AnswerLast, OnceOnly, PulseHonest, StopTold, ResultTrue, Told, CancelKnown;
    now := from;
    if es != [] {
      NextKeeps(c, s, es[0]);
      now := NextFaithful(c, s, es[0], from);
      now := NothingSaidIsLost(c, Next(c, s, es[0]), es[1..], now);
    }
  }

  lemma BeginsFaithful()
    ensures Faithful(Begin, 0)
  {
  }

  /** So it is at the end of every run. */
  lemma WordsOfTheCall(c: Config, es: seq<Event>) returns (from: nat)
    requires Possible(c, Begin, es)
    ensures Faithful(After(c, Begin, es), from)
  {
    hide Possible, After, Faithful, Inv;
    BeginInv(c);
    BeginsFaithful();
    from := NothingSaidIsLost(c, Begin, es, 0);
  }

  // ---- the text of a call that is ended from outside ----------------------

  ghost predicate Whole(v: View, complete: Complete, k: nat) {
    complete.Some? && k < |v.segments| && complete.value(v.segments[k])
  }

  /** Paragraphs stand with an empty line between, wherever they are parted. */
  lemma {:induction false} ParagraphsApart(a: seq<string>, b: seq<string>)
    requires a != [] && b != []
    ensures Paragraphs(a + b) == Paragraphs(a) + "\n\n" + Paragraphs(b)
    ensures Paragraphs([]) == "" && forall t :: Paragraphs([t]) == t
  {
    assert (a + b)[1..] == a[1..] + b;
    if |a| == 1 {
      assert a[1..] + b == b;
    } else {
      ParagraphsApart(a[1..], b);
      var first, rest, other, gap := a[0], Paragraphs(a[1..]), Paragraphs(b), "\n\n";
      assert first + gap + (rest + gap + other) == first + gap + rest + gap + other;
    }
  }

  /** The newest whole answer. */
  ghost predicate NewestWholeAt(v: View, complete: Complete, k: nat) {
    Whole(v, complete, k) && forall i: nat :: k < i ==> !Whole(v, complete, i)
  }

  /** The text kept: the newest whole answer; without one the last text, if it is not blank, else
      all that was written in the turn; and what was said, in paragraphs, when that is blank. */
  ghost predicate IsKept(c: Config, v: View, w: Words, text: string) {
    var n := |v.segments|;
    if exists k: nat :: Whole(v, c.complete, k)
    then exists k: nat :: NewestWholeAt(v, c.complete, k)
                          && text == if IsBlank(v.segments[k]) then Paragraphs(Parts(w)) else Strip(v.segments[k])
    else if n > 0 && !IsBlank(v.segments[n - 1]) then text == Strip(v.segments[n - 1])
    else text == if IsBlank(w.raw) then Paragraphs(Parts(w)) else Strip(w.raw)
  }

  lemma KeptTextIs(c: Config, v: View, w: Words)
    ensures IsKept(c, v, w, KeptText(c, v, w))
  {
    hide IsBlank, Strip, Paragraphs, Parts, Whole;
    if |v.segments| > 0 {
      StripBlank(v.segments[|v.segments| - 1]);
    }
    StripBlank(w.raw);
    if c.complete.Some? {
      var k := NewestWhole(c, v);
      if Newest(v.segments, c.complete.value).Some? {
        WholeIn(v, c.complete, k);
        StripBlank(v.segments[k]);
        assert NewestWholeAt(v, c.complete, k);
      }
    } else {
      NoneWhole(v, c.complete);
    }
  }

  lemma WholeIn(v: View, complete: Complete, k: nat)
    ensures Whole(v, complete, k) ==> k < |v.segments|
  {
  }

  lemma NoneWhole(v: View, complete: Complete)
    requires complete.None?
    ensures forall k: nat :: !Whole(v, complete, k)
  {
  }

  /** That is the text of a call that went quiet or ran into its limit; a call that finished has
      the text of its run. */
  lemma TextOfTheCall(c: Config, es: seq<Event>)
    requires Possible(c, Begin, es) && After(c, Begin, es).waiter.Handling?
    ensures var s := After(c, Begin, es);
            var result := Next(c, s, Handle).waiter.result;
            && (result.Quiet? || result.Timeout? ==> IsKept(c, s.msgs.v, s.words, result.text))
            && (result.Finished? ==> s.waiter.how == ByValue(false, result.text))
  {
    hide After, Next, Possible, KeptText, IsKept, ResultOf;
    BeginInv(c);
    RunKeeps(c, Begin, es);
    var s := After(c, Begin, es);
    HandleGives(c, s);
    KeptTextIs(c, s.msgs.v, s.words);
    ResultText(c, s);
  }

  lemma ResultText(c: Config, s: State)
    requires s.waiter.Handling?
    ensures var result := ResultOf(c, s, s.waiter.how);
            && (result.Quiet? || result.Timeout? ==> result.text == KeptText(c, s.msgs.v, s.words))
            && (result.Finished? ==> s.waiter.how == ByValue(false, result.text))
  {
    hide KeptText, BestAnswer, Parts, IsBlank, Strip;
  }

  lemma StripBlank(s: string)
    ensures Strip(s) == "" <==> IsBlank(s)
  {
    hide Strip, IsBlank, Ink;
    InkBlank(s);
    InkStrip(s);
    InkNothing();
    if Strip(s) == "" {
    } else if IsBlank(s) {
      BlankStrip(s);
    }
  }

  lemma NewestWhole(c: Config, v: View) returns (k: nat)
    requires c.complete.Some?
    ensures match Newest(v.segments, c.complete.value)
            case None => forall j: nat :: !Whole(v, c.complete, j)
            case Some(t) => Whole(v, c.complete, k) && v.segments[k] == t && forall i: nat :: k < i ==> !Whole(v, c.complete, i)
  {
    k := NewestIs(v.segments, c.complete.value);
  }
}
