/** What a call comes to, told by the events of its run: what it gives as a value, and what it
    was stopped for. */
module CallHistory {
  import opened Text
  import opened CallProtocol
  import opened CallSafety
  import opened CallWords
  import opened Wrappers

  // ---- a run and its beginnings ------------------------------------------

  lemma {:induction false} PossibleFirst(c: Config, s: State, es: seq<Event>, k: nat)
    requires s.msgs.v.Valid() && Possible(c, s, es) && k <= |es|
    ensures Possible(c, s, es[..k])
    decreases |es|
  {
    if k > 0 {
      assert es[..k][1..] == es[1..][..k - 1];
      PossibleFirst(c, Next(c, s, es[0]), es[1..], k - 1);
    }
  }

  /** The state before event `k`. */
  ghost function At(c: Config, es: seq<Event>, k: nat): State
    requires Possible(c, Begin, es) && k <= |es|
  {
    PossibleFirst(c, Begin, es, k);
    After(c, Begin, es[..k])
  }

  lemma {:induction false} LastStep(c: Config, s: State, es: seq<Event>)
    requires s.msgs.v.Valid() && Possible(c, s, es) && es != []
    ensures var n := |es| - 1;
            && Possible(c, s, es[..n]) && Enabled(c, After(c, s, es[..n]), es[n])
            && After(c, s, es) == Next(c, After(c, s, es[..n]), es[n])
    decreases |es|
  {
    hide Next, Enabled;
    var n := |es| - 1;
    if n > 0 {
      LastStep(c, Next(c, s, es[0]), es[1..]);
      assert es[..n][1..] == es[1..][..n - 1];
    }
  }

  lemma AtEarlier(c: Config, es: seq<Event>, n: nat, k: nat)
    requires Possible(c, Begin, es) && k <= n <= |es|
    ensures Possible(c, Begin, es[..n]) && At(c, es[..n], k) == At(c, es, k)
  {
    PossibleFirst(c, Begin, es, n);
    assert es[..n][..k] == es[..k];
  }

  // ---- what the session came to ------------------------------------------

  /** The first run gave `text` at event `k`, and a second turn was asked. */
  ghost predicate AskedAgain(c: Config, es: seq<Event>, k: nat, text: string) {
    k < |es| && c.followup && es[k] == WaitChecked(false, text, true)
  }

  /** The run gave `text`, and no second turn was asked. */
  ghost predicate GaveOnce(c: Config, es: seq<Event>, error: bool, text: string) {
    exists k, again :: 0 <= k < |es| && es[k] == WaitChecked(error, text, again) && !(c.followup && again && !error)
  }

  /** A second turn gave `text`, or failed or gave nothing, and the first gave it. */
  ghost predicate GaveTwice(c: Config, es: seq<Event>, text: string) {
    exists k: nat, first: string, j: nat ::
      && AskedAgain(c, es, k, first) && k < j < |es|
      && (if es[j].SecondOver? && !es[j].error && !IsBlank(es[j].text) then text == es[j].text
          else (es[j].SecondOver? || es[j].SecondFails?) && text == first)
  }

  ghost predicate Gave(c: Config, v: View, es: seq<Event>, error: bool, text: string) {
    || (v.answered == Some(text) && !error)
    || GaveOnce(c, es, error, text) || (!error && GaveTwice(c, es, text))
  }

  ghost predicate InSecond(w: Worker) {
    w.Second? || w.Waiting2? || w == Reading(2)
  }

  /** The value that a worker leaves with, or a waiter has in hand. */
  ghost predicate HasValue(s: State, error: bool, text: string) {
    || s.worker == Leaving(Value(error, text)) || s.worker == Over(Value(error, text))
    || s.waiter == Handling(ByValue(error, text))
  }

  /** There are two turns, and a value in the waiter's hand is that of a worker that is over. */
  predicate Settled(s: State) {
    && (s.worker.Reading? ==> s.worker.turn == 1 || s.worker.turn == 2)
    && (s.waiter.Handling? && s.waiter.how.ByValue? ==> s.worker.Over?)
  }

  ghost predicate ValuesTold(c: Config, es: seq<Event>, s: State) {
    && (forall error, text :: HasValue(s, error, text) ==> Gave(c, s.msgs.v, es, error, text))
    && (InSecond(s.worker) ==> exists k: nat :: AskedAgain(c, es, k, s.runs.first))
    && Settled(s)
  }

  lemma GaveMore(c: Config, v: View, es: seq<Event>, e: Event, error: bool, text: string)
    requires Gave(c, v, es, error, text)
    ensures Gave(c, v, es + [e], error, text)
  {
    var more := es + [e];
    assert forall k :: 0 <= k < |es| ==> more[k] == es[k];
    if GaveOnce(c, es, error, text) {
      var k, again :| 0 <= k < |es| && es[k] == WaitChecked(error, text, again) && !(c.followup && again && !error);
      assert more[k] == WaitChecked(error, text, again);
    }
    if GaveTwice(c, es, text) {
      var k: nat, first: string, j: nat :|
        && AskedAgain(c, es, k, first) && k < j < |es|
        && (if es[j].SecondOver? && !es[j].error && !IsBlank(es[j].text) then text == es[j].text
            else (es[j].SecondOver? || es[j].SecondFails?) && text == first);
      assert AskedAgain(c, more, k, first) && more[j] == es[j];
    }
  }

  /** A value is had already, or taken over, or the worker leaves with it now. */
  ghost predicate ValueComes(c: Config, s: State, e: Event, t: State, error: bool, text: string) {
    || (t.msgs.v == s.msgs.v && (HasValue(s, error, text) || s.worker == Over(Value(error, text))))
    || (s.msgs.v.Valid() && WorkerCan(c, s, e) && !s.worker.Leaving?
        && t == WorkerStep(c, s, e) && t.worker == Leaving(Value(error, text)))
  }

  ghost predicate SecondComes(c: Config, s: State, e: Event, t: State) {
    || (InSecond(s.worker) && t.runs.first == s.runs.first)
    || (e.WaitChecked? && c.followup && e.again && !e.error && t.runs.first == e.text)
  }

  ghost predicate Comes(c: Config, s: State, e: Event, t: State) {
    && (forall error, text :: HasValue(t, error, text) ==> ValueComes(c, s, e, t, error, text))
    && (InSecond(t.worker) ==> SecondComes(c, s, e, t))
    && Settled(t)
  }

  lemma PulseComes(c: Config, s: State, e: Event)
    requires PulseCan(c, s, e) && Settled(s)
    ensures Comes(c, s, e, PulseStep(c, s, e))
  {
  }

  lemma WaiterComes(c: Config, s: State, e: Event)
    requires WaiterCan(c, s, e) && Settled(s)
    ensures Comes(c, s, e, WaiterStep(c, s, e))
  {
    hide ResultOf;
  }

  lemma TakenComes(c: Config, s: State)
    requires s.worker.Reading? && s.msgs.pending.Some? && s.msgs.v.Valid()
    requires Settled(s)
    ensures Comes(c, s, Taken, TakePending(c, s))
  {
    hide Take, Hear;
  }

  lemma FirstStays(r: Runs)
    ensures forall ok :: Cancel(r, ok).first == r.first
  {
  }

  lemma WorkerComes(c: Config, s: State, e: Event)
    requires s.msgs.v.Valid() && WorkerCan(c, s, e) && Settled(s)
    ensures Comes(c, s, e, WorkerStep(c, s, e))
  {
    if e.Taken? {
      TakenComes(c, s);
      return;
    }
    FirstStays(s.runs);
    hide TakePending, Flush, EndThinking, IsBlank, Cancel, EnterQuiet;
  }

  lemma NextComes(c: Config, s: State, e: Event)
    requires s.msgs.v.Valid() && Enabled(c, s, e) && Settled(s)
    ensures Comes(c, s, e, Next(c, s, e))
  {
    hide WorkerStep, PulseStep, WaiterStep, Comes;
    if e.Pass? {
      PassComes(c, s, e);
    } else if PulseCan(c, s, e) {
      PulseComes(c, s, e);
    } else if WaiterCan(c, s, e) {
      WaiterComes(c, s, e);
    } else {
      WorkerComes(c, s, e);
    }
  }

  lemma PassComes(c: Config, s: State, e: Event)
    requires e.Pass? && Settled(s)
    ensures Comes(c, s, e, s.(now := s.now + e.seconds))
  {
  }

  /** Whatever happens next, the values are told by what happened. */
  lemma NextTold(c: Config, es: seq<Event>, s: State, e: Event)
    requires s.msgs.v.Valid() && Enabled(c, s, e) && ValuesTold(c, es, s)
    ensures ValuesTold(c, es + [e], Next(c, s, e))
  {
    hide Gave, AskedAgain, Next, Enabled, WorkerStep, WorkerCan;
    var t, more := Next(c, s, e), es + [e];
    NextComes(c, s, e);
    if InSecond(t.worker) {
      if InSecond(s.worker) && t.runs.first == s.runs.first {
        var k: nat :| AskedAgain(c, es, k, s.runs.first);
        AskedWhen(c, es, e, k, s.runs.first);
      } else {
        NowAsked(c, es, e);
      }
    }
    forall error, text | HasValue(t, error, text) ensures Gave(c, t.msgs.v, more, error, text) {
      assert ValueComes(c, s, e, t, error, text);
      if t.msgs.v == s.msgs.v && (HasValue(s, error, text) || s.worker == Over(Value(error, text))) {
        GaveMore(c, s.msgs.v, es, e, error, text);
      } else {
        NowGiven(c, es, s, e, error, text);
      }
    }
  }

  lemma NowAsked(c: Config, es: seq<Event>, e: Event)
    ensures e.WaitChecked? && c.followup && e.again && !e.error ==> AskedAgain(c, es + [e], |es|, e.text)
  {
  }

  /** The worker leaves with a value. */
  lemma NowGiven(c: Config, es: seq<Event>, s: State, e: Event, error: bool, text: string)
    requires s.msgs.v.Valid() && WorkerCan(c, s, e) && ValuesTold(c, es, s)
    requires !s.worker.Leaving? && WorkerStep(c, s, e).worker == Leaving(Value(error, text))
    ensures Gave(c, WorkerStep(c, s, e).msgs.v, es + [e], error, text)
  {
    hide Take, Hear, Flush, EndThinking, IsBlank, AskedAgain;
    var more := es + [e];
    assert more[|es|] == e;
    if e.WaitChecked? {
      assert GaveOnce(c, more, error, text);
    } else if e.SecondOver? || e.SecondFails? {
      var k: nat :| AskedAgain(c, es, k, s.runs.first);
      AskedWhen(c, es, e, k, s.runs.first);
      assert GaveTwice(c, more, text);
    }
  }

  lemma AskedWhen(c: Config, es: seq<Event>, e: Event, k: nat, text: string)
    requires AskedAgain(c, es, k, text)
    ensures AskedAgain(c, es + [e], k, text) && k < |es|
  {
  }

  lemma {:induction false} AllTold(c: Config, es: seq<Event>)
    requires Possible(c, Begin, es)
    ensures ValuesTold(c, es, After(c, Begin, es))
    decreases |es|
  {
    hide Next, Enabled, Gave;
    if es != [] {
      var n := |es| - 1;
      LastStep(c, Begin, es);
      AllTold(c, es[..n]);
      assert es == es[..n] + [es[n]];
      NextTold(c, es[..n], After(c, Begin, es[..n]), es[n]);
    }
  }

  // ---- the result --------------------------------------------------------

  /** The answer kept: the newest text that is whole, else the last if it is not blank, else all
      that was written in the turn; stripped. */
  ghost predicate IsBest(c: Config, v: View, w: Words, best: string) {
    var n := |v.segments|;
    if exists k: nat :: Whole(v, c.complete, k) then exists k: nat :: NewestWholeAt(v, c.complete, k) && best == Strip(v.segments[k])
    else if n > 0 && !IsBlank(v.segments[n - 1]) then best == Strip(v.segments[n - 1])
    else best == Strip(w.raw)
  }

  lemma BestIs(c: Config, v: View, w: Words)
    ensures IsBest(c, v, w, BestAnswer(v, w.raw, c.complete))
  {
    hide IsBlank, Strip, Whole;
    if |v.segments| > 0 {
      StripBlank(v.segments[|v.segments| - 1]);
    }
    if c.complete.Some? {
      var k := NewestWhole(c, v);
      if Newest(v.segments, c.complete.value).Some? {
        WholeIn(v, c.complete, k);
        assert NewestWholeAt(v, c.complete, k);
      }
    } else {
      NoneWhole(v, c.complete);
    }
  }

  /** What an ended run is worth: the best answer, or what it said, when it said anything; when it
      said nothing, the best answer if that is a whole one; else it failed. */
  ghost predicate IsWorth(c: Config, v: View, w: Words, said: string, result: Result) {
    exists best: string :: IsWorthBest(c, v, w, said, result, best)
  }

  ghost predicate IsWorthBest(c: Config, v: View, w: Words, said: string, result: Result, best: string) {
    && IsBest(c, v, w, best)
    && if !IsBlank(said) then result == EndedInError(if |best| > 0 then best else said)
       else if |best| > 0 && c.complete.Some? && c.complete.value(best) then result == EndedInError(best)
       else result == Raised(false)
  }

  /** What a call gives that no answer was accepted in: the value of its session, as it was given
      in the run; of one that ended in an error what it is worth; at the limit a text, if there is
      any and the run was cancelled, else a failure. */
  lemma WhatACallGives(c: Config, es: seq<Event>)
    requires Possible(c, Begin, es) && After(c, Begin, es).waiter.Handling?
    requires After(c, Begin, es).msgs.v.answered.None?
    ensures var s := After(c, Begin, es);
            var result := Next(c, s, Handle).waiter.result;
            match s.waiter.how
            case ByValue(error, text) =>
              && Gave(c, s.msgs.v, es, error, text)
              && if error then IsWorth(c, s.msgs.v, s.words, text, result) else result == Finished(text)
            case ByQuiet => result.Quiet? && IsKept(c, s.msgs.v, s.words, result.text)
            case ByTimeout =>
              if s.runs.cancelled && |Parts(s.words)| > 0 then result.Timeout? && IsKept(c, s.msgs.v, s.words, result.text)
              else result == Raised(false)
            case ByFailure(_) => result == Raised(false)
  {
    hide After, Possible, Gave, IsWorth, IsKept, KeptText;
    BeginInv(c);
    RunKeeps(c, Begin, es);
    AllTold(c, es);
    var s := After(c, Begin, es);
    KeptTextIs(c, s.msgs.v, s.words);
    HandleGives(c, s);
    ResultIs(c, s);
  }

  lemma ResultIs(c: Config, s: State)
    requires s.waiter.Handling? && s.msgs.v.answered.None?
    ensures var result := ResultOf(c, s, s.waiter.how);
            match s.waiter.how
            case ByValue(error, text) => if error then IsWorth(c, s.msgs.v, s.words, text, result) else result == Finished(text)
            case ByQuiet => result == Quiet(KeptText(c, s.msgs.v, s.words))
            case ByTimeout =>
              result == if s.runs.cancelled && |Parts(s.words)| > 0 then Timeout(KeptText(c, s.msgs.v, s.words)) else Raised(false)
            case ByFailure(abandoned) => result == Raised(abandoned)
  {
    hide KeptText, BestAnswer, Parts, IsBlank, Strip, IsBest;
    BestIs(c, s.msgs.v, s.words);
    var best := BestAnswer(s.msgs.v, s.words.raw, c.complete);
    BestTight(c, s.msgs.v, s.words);
    assert |best| > 0 <==> best != "";
    if s.waiter.how.ByValue? && s.waiter.how.error {
      var said, result := s.waiter.how.text, ResultOf(c, s, s.waiter.how);
      assert IsWorthBest(c, s.msgs.v, s.words, said, result, best);
    }
  }

  lemma BestTight(c: Config, v: View, w: Words)
    ensures var best := BestAnswer(v, w.raw, c.complete); best != "" ==> !IsBlank(best)
  {
    hide IsBlank, Strip;
    StrippedIsNoBlank(w.raw);
    if |v.segments| > 0 {
      StrippedIsNoBlank(v.segments[|v.segments| - 1]);
    }
    if c.complete.Some? && Newest(v.segments, c.complete.value).Some? {
      StrippedIsNoBlank(Newest(v.segments, c.complete.value).value);
    }
  }

  lemma StrippedIsNoBlank(s: string)
    ensures Strip(s) != "" ==> !IsBlank(Strip(s))
  {
    hide Strip, IsBlank;
    StripBlank(s);
    StripBlank(Strip(s));
    if Strip(s) != "" && IsBlank(Strip(s)) {
      InkStrip(s);
      InkBlank(Strip(s));
      InkBlank(s);
    }
  }

  // ---- what happened in a run --------------------------------------------

  /** At some event of the run, and the state before it, `p` holds. */
  ghost predicate Ever(c: Config, es: seq<Event>, p: (State, Event) -> bool)
    requires Possible(c, Begin, es)
  {
    exists k :: 0 <= k < |es| && p(At(c, es, k), es[k])
  }

  /** First `p` and later `q`. */
  ghost predicate EverAfter(c: Config, es: seq<Event>, p: (State, Event) -> bool, q: (State, Event) -> bool)
    requires Possible(c, Begin, es)
  {
    exists i, k :: 0 <= i < k < |es| && p(At(c, es, i), es[i]) && q(At(c, es, k), es[k])
  }

  lemma AtLess(c: Config, es: seq<Event>)
    requires Possible(c, Begin, es) && es != []
    ensures var n := |es| - 1;
            && Possible(c, Begin, es[..n]) && At(c, es, n) == After(c, Begin, es[..n])
            && forall k: nat :: k < n ==> At(c, es[..n], k) == At(c, es, k) && es[..n][k] == es[k]
  {
    var n := |es| - 1;
    LastStep(c, Begin, es);
    forall k: nat | k < n ensures At(c, es[..n], k) == At(c, es, k) && es[..n][k] == es[k] {
      AtEarlier(c, es, n, k);
    }
  }

  lemma EverMore(c: Config, es: seq<Event>, p: (State, Event) -> bool)
    requires Possible(c, Begin, es) && es != []
    ensures var n := |es| - 1;
            && Possible(c, Begin, es[..n])
            && (Ever(c, es, p) <==> Ever(c, es[..n], p) || p(After(c, Begin, es[..n]), es[n]))
  {
    hide At, After, Possible;
    var n := |es| - 1;
    AtLess(c, es);
    if k :| 0 <= k < n && p(At(c, es[..n], k), es[..n][k]) {
      assert p(At(c, es, k), es[k]);
    }
    if k :| 0 <= k < |es| && p(At(c, es, k), es[k]) {
      if k < n {
        assert p(At(c, es[..n], k), es[..n][k]);
      }
    }
  }

  lemma EverAfterMore(c: Config, es: seq<Event>, p: (State, Event) -> bool, q: (State, Event) -> bool)
    requires Possible(c, Begin, es) && es != []
    ensures var n := |es| - 1;
            && Possible(c, Begin, es[..n])
            && (EverAfter(c, es, p, q) <==> EverAfter(c, es[..n], p, q) || (Ever(c, es[..n], p) && q(After(c, Begin, es[..n]), es[n])))
  {
    hide At, After, Possible;
    var n := |es| - 1;
    AtLess(c, es);
    if i, k :| 0 <= i < k < n && p(At(c, es[..n], i), es[..n][i]) && q(At(c, es[..n], k), es[..n][k]) {
      assert p(At(c, es, i), es[i]) && q(At(c, es, k), es[k]);
    }
    if i :| 0 <= i < n && p(At(c, es[..n], i), es[..n][i]) {
      assert p(At(c, es, i), es[i]);
    }
    if i, k :| 0 <= i < k < |es| && p(At(c, es, i), es[i]) && q(At(c, es, k), es[k]) {
      assert p(At(c, es[..n], i), es[..n][i]);
      if k < n {
        assert q(At(c, es[..n], k), es[..n][k]);
      }
    }
  }

  // ---- signs of life and silence -----------------------------------------

  /** The event is a sign of life of the run: thinking or words; and, before the stop, a line
      that is said, the end of thinking, or gathered words said whole. */
  ghost predicate Signs(c: Config, s: State, e: Event) {
    match e
    case Taken =>
      && s.msgs.pending.Some?
      && var m := s.msgs.pending.value;
         m.Thinking? || (m.Assistant? && |m.piece| > 0)
         || (!s.flags.stopped
             && (s.words.thinking || (!m.Assistant? && (IsSaid(m, Repeats(s.msgs.v, m)) || !IsBlank(s.words.said)))))
    case MessagesOver => !s.flags.stopped && !s.msgs.v.Ended() && (s.words.thinking || !IsBlank(s.words.said))
    case RunChecked => !s.flags.stopped
    case WaitChecked(error, _, again) => !s.flags.stopped && c.followup && again && !error
    case SecondFails => !s.flags.stopped
    case _ => false
  }

  ghost function SignOf(c: Config): (State, Event) -> bool {
    (s: State, e: Event) => Signs(c, s, e)
  }

  lemma LifeTaken(c: Config, s: State)
    requires s.msgs.v.Valid() && s.msgs.pending.Some?
    ensures TakePending(c, s).words.lastAt == if Signs(c, s, Taken) then s.now else s.words.lastAt
  {
    hide Take, Hear, IsSaid, IsBlank;
    var m := s.msgs.pending.value;
    SignOfLife(s.words, m, Repeats(s.msgs.v, m), s.now, s.flags.stopped);
  }

  lemma LifeFlush(w: Words, now: nat, stopped: bool)
    ensures Flush(EndThinking(w, now, stopped), now, stopped).lastAt
            == if !stopped && (w.thinking || !IsBlank(w.said)) then now else w.lastAt
  {
    hide IsBlank, Strip;
  }

  lemma LifeWorker(c: Config, s: State, e: Event)
    requires s.msgs.v.Valid() && WorkerCan(c, s, e)
    ensures WorkerStep(c, s, e).words.lastAt == if Signs(c, s, e) then s.now else s.words.lastAt
  {
    if e.Taken? {
      LifeTaken(c, s);
      return;
    }
    LifeFlush(s.words, s.now, s.flags.stopped);
    hide TakePending, Flush, EndThinking, IsBlank, Cancel, EnterQuiet;
  }

  lemma LifeStep(c: Config, s: State, e: Event)
    requires s.msgs.v.Valid() && Enabled(c, s, e)
    ensures Next(c, s, e).words.lastAt == if Signs(c, s, e) then s.now else s.words.lastAt
  {
    if !e.Pass? && !PulseCan(c, s, e) && !WaiterCan(c, s, e) {
      LifeWorker(c, s, e);
    }
    hide WorkerStep, WorkerCan, ResultOf, Cancel, EnterQuiet, IsBlank;
  }

  /** The time of the last sign of life is that of the last event that is one, or the beginning. */
  lemma {:induction false} LastLife(c: Config, es: seq<Event>) returns (k: nat)
    requires Possible(c, Begin, es)
    ensures !Ever(c, es, SignOf(c)) ==> After(c, Begin, es).words.lastAt == 0
    ensures Ever(c, es, SignOf(c)) ==>
              && k < |es| && Signs(c, At(c, es, k), es[k]) && After(c, Begin, es).words.lastAt == At(c, es, k).now
              && forall j: nat :: k < j < |es| ==> !Signs(c, At(c, es, j), es[j])
    decreases |es|
  {
    hide At, Signs, Next, Enabled;
    k := 0;
    if es != [] {
      var n := |es| - 1;
      LastStep(c, Begin, es);
      AtLess(c, es);
      EverMore(c, es, SignOf(c));
      k := LastLife(c, es[..n]);
      LifeStep(c, After(c, Begin, es[..n]), es[n]);
      if Signs(c, At(c, es, n), es[n]) {
        k := n;
      }
    }
  }

  /** The message taken, or the end of the messages, settles whether the run is thinking. */
  ghost predicate Settles(s: State, e: Event) {
    (e.Taken? && s.msgs.pending.Some?) || (e.MessagesOver? && !s.msgs.v.Ended())
  }

  ghost function SettleOf(): (State, Event) -> bool {
    (s: State, e: Event) => Settles(s, e)
  }

  lemma ThinkingHeard(w: Words, m: Msg, again: bool, now: nat, stopped: bool)
    ensures Hear(w, m, again, now, stopped).thinking == m.Thinking?
  {
    hide IsBlank, Strip, EndsWith, DropSpaces, HasLine;
  }

  lemma ThinkingWorker(c: Config, s: State, e: Event)
    requires s.msgs.v.Valid() && WorkerCan(c, s, e)
    ensures WorkerStep(c, s, e).words.thinking
            == if Settles(s, e) then e.Taken? && s.msgs.pending == Some(Thinking) else s.words.thinking
  {
    if e.Taken? {
      var m := s.msgs.pending.value;
      hide Take, Hear;
      ThinkingHeard(s.words, m, Repeats(s.msgs.v, m), s.now, s.flags.stopped);
      return;
    }
    ThinkingOver(s.words, s.now, s.flags.stopped);
    hide TakePending, Flush, EndThinking, IsBlank, Cancel, EnterQuiet;
  }

  lemma ThinkingOver(w: Words, now: nat, stopped: bool)
    ensures !Flush(EndThinking(w, now, stopped), now, stopped).thinking
  {
    hide IsBlank, Strip;
  }

  lemma ThinkingStep(c: Config, s: State, e: Event)
    requires s.msgs.v.Valid() && Enabled(c, s, e)
    ensures Next(c, s, e).words.thinking == if Settles(s, e) then e.Taken? && s.msgs.pending == Some(Thinking) else s.words.thinking
  {
    if !e.Pass? && !PulseCan(c, s, e) && !WaiterCan(c, s, e) {
      ThinkingWorker(c, s, e);
    }
    hide WorkerStep, WorkerCan, ResultOf, Cancel, EnterQuiet;
  }

  /** The run is thinking just when the last event to settle that took a message that says so. */
  lemma {:induction false} ThinkingIs(c: Config, es: seq<Event>) returns (k: nat)
    requires Possible(c, Begin, es)
    ensures !Ever(c, es, SettleOf()) ==> !After(c, Begin, es).words.thinking
    ensures Ever(c, es, SettleOf()) ==>
              && k < |es| && Settles(At(c, es, k), es[k])
              && (After(c, Begin, es).words.thinking <==> es[k].Taken? && At(c, es, k).msgs.pending == Some(Thinking))
              && forall j: nat :: k < j < |es| ==> !Settles(At(c, es, j), es[j])
    decreases |es|
  {
    hide At, Settles, Next, Enabled;
    k := 0;
    if es != [] {
      var n := |es| - 1;
      LastStep(c, Begin, es);
      AtLess(c, es);
      EverMore(c, es, SettleOf());
      k := ThinkingIs(c, es[..n]);
      ThinkingStep(c, After(c, Begin, es[..n]), es[n]);
      if Settles(At(c, es, n), es[n]) {
        k := n;
      }
    }
  }

  /** At a look nothing has come for `wait` seconds, and the call goes on. */
  ghost predicate LooksOver(s: State, e: Event, wait: nat) {
    e == Look && !s.flags.stopped && s.now - s.words.lastAt >= wait
  }

  /** At a look the run has been silent for its limit, though something had come from it. */
  ghost function SilentLook(c: Config): (State, Event) -> bool {
    (s: State, e: Event) => c.quiet > 0 && |s.msgs.Log()| > 0 && LooksOver(s, e, c.quiet)
  }

  /** At a look the last message was a usage line, and nothing has come for some time. */
  ghost function EndedLook(seen: nat): (State, Event) -> bool {
    (s: State, e: Event) => LooksOver(s, e, 20) && |s.msgs.Log()| == seen && seen > 0 && s.msgs.Log()[seen - 1].Usage?
  }

  ghost function ToolsLook(c: Config, checked: nat): (State, Event) -> bool {
    (s: State, e: Event) =>
      e == CheckTools && c.complete.None? && s.msgs.v.toolsDone && s.msgs.v.running == {} && |s.msgs.done| == checked
  }

  ghost function LimitPassed(c: Config): (State, Event) -> bool {
    (s: State, e: Event) => e == NoticeDeadline && !s.flags.quietStop && c.deadline.Some? && c.deadline.value <= s.now
  }

  /** The two flags of the messages say whether any has come, and whether the last was a usage line. */
  ghost predicate LogTold(m: Messages) {
    && (m.heard <==> |m.Log()| > 0)
    && (m.ended <==> |m.Log()| > 0 && m.Log()[|m.Log()| - 1].Usage?)
  }

  /** The session is asked to stop for silence, after its turn, or since it has ended. */
  ghost predicate StopHasCause(s: State) {
    s.flags.quietStop <==> s.flags.silent || s.flags.closed.Some? || s.msgs.v.Ended()
  }

  ghost predicate PulseTold(c: Config, es: seq<Event>, s: State)
    requires Possible(c, Begin, es)
  {
    && LogTold(s.msgs)
    && (s.flags.silent <==> Ever(c, es, SilentLook(c)))
    && (s.pulse.SawEnded? ==> Ever(c, es, EndedLook(s.pulse.seen)))
    && (s.pulse.SawQuiet? ==> EverAfter(c, es, EndedLook(s.pulse.seen), ToolsLook(c, s.pulse.checked)))
    && (s.flags.closed.Some? ==> var at := s.flags.closed.value; EverAfter(c, es, EndedLook(at.seen), ToolsLook(c, at.checked)))
    && (s.waiter.GivingUp? || s.waiter.GaveUp? || s.waiter == Handling(ByTimeout) ==> Ever(c, es, LimitPassed(c)))
    && StopHasCause(s)
  }

  /** What one event does to what the pulse and the limit have found. */
  ghost predicate PulseStepped(c: Config, s: State, e: Event, t: State) {
    && LogTold(t.msgs)
    && (t.flags.silent <==> s.flags.silent || SilentLook(c)(s, e))
    && (t.pulse.SawEnded? ==> s.pulse == t.pulse || EndedLook(t.pulse.seen)(s, e))
    && (t.pulse.SawQuiet? ==> s.pulse == t.pulse || (s.pulse == SawEnded(t.pulse.seen) && ToolsLook(c, t.pulse.checked)(s, e)))
    && (t.flags.closed.Some? ==> s.flags.closed == t.flags.closed
                                 || s.pulse == SawQuiet(t.flags.closed.value.seen, t.flags.closed.value.checked))
    && (t.waiter.GivingUp? || t.waiter.GaveUp? || t.waiter == Handling(ByTimeout) ==>
          s.waiter.GivingUp? || s.waiter.GaveUp? || s.waiter == Handling(ByTimeout) || LimitPassed(c)(s, e))
    && StopHasCause(t)
  }

  lemma PulsePulse(c: Config, s: State, e: Event)
    requires PulseCan(c, s, e) && LogTold(s.msgs) && StopHasCause(s)
    ensures PulseStepped(c, s, e, PulseStep(c, s, e))
  {
  }

  lemma PulseWaiter(c: Config, s: State, e: Event)
    requires WaiterCan(c, s, e) && LogTold(s.msgs) && StopHasCause(s)
    ensures PulseStepped(c, s, e, WaiterStep(c, s, e))
  {
    hide ResultOf;
  }

  lemma EndedStays(v: View, m: Msg, complete: Complete)
    requires v.Valid()
    ensures v.Ended() ==> Take(v, m, complete).Ended()
  {
  }

  lemma PulseTaken(c: Config, s: State)
    requires s.msgs.pending.Some? && s.msgs.v.Valid() && LogTold(s.msgs) && StopHasCause(s)
    ensures PulseStepped(c, s, Taken, TakePending(c, s))
  {
    EndedStays(s.msgs.v, s.msgs.pending.value, c.complete);
    hide Take, Hear;
    var t := TakePending(c, s);
    assert t.msgs.Log() == s.msgs.Log();
  }

  lemma PulseWorker(c: Config, s: State, e: Event)
    requires s.msgs.v.Valid() && WorkerCan(c, s, e) && LogTold(s.msgs) && StopHasCause(s)
    ensures PulseStepped(c, s, e, WorkerStep(c, s, e))
  {
    if e.Taken? {
      PulseTaken(c, s);
      return;
    }
    hide TakePending, Flush, EndThinking, IsBlank;
  }

  lemma PulseNext(c: Config, s: State, e: Event)
    requires s.msgs.v.Valid() && Enabled(c, s, e) && LogTold(s.msgs) && StopHasCause(s)
    ensures PulseStepped(c, s, e, Next(c, s, e))
  {
    hide WorkerStep, PulseStep, WaiterStep;
    if e.Pass? {
    } else if PulseCan(c, s, e) {
      PulsePulse(c, s, e);
    } else if WaiterCan(c, s, e) {
      PulseWaiter(c, s, e);
    } else {
      PulseWorker(c, s, e);
    }
  }

  lemma BeginsTold(c: Config)
    ensures PulseTold(c, [], Begin)
  {
  }

  lemma {:induction false} AllPulseTold(c: Config, es: seq<Event>)
    requires Possible(c, Begin, es)
    ensures PulseTold(c, es, After(c, Begin, es))
    decreases |es|
  {
    if es == [] {
      BeginsTold(c);
      return;
    }
    var n := |es| - 1;
    LastStep(c, Begin, es);
    AllPulseTold(c, es[..n]);
    PulseOn(c, es, After(c, Begin, es[..n]), After(c, Begin, es));
  }

  lemma PulseOn(c: Config, es: seq<Event>, s: State, t: State)
    requires Possible(c, Begin, es) && es != [] && Possible(c, Begin, es[..|es| - 1])
    requires s == After(c, Begin, es[..|es| - 1]) && Enabled(c, s, es[|es| - 1]) && t == Next(c, s, es[|es| - 1])
    requires PulseTold(c, es[..|es| - 1], s)
    ensures PulseTold(c, es, t)
  {
    hide After, Possible, Next, Enabled, Ever, EverAfter, SilentLook, EndedLook, ToolsLook, LimitPassed;
    PulseNext(c, s, es[|es| - 1]);
    EverMore(c, es, SilentLook(c));
    EverMore(c, es, LimitPassed(c));
    if t.pulse.SawEnded? {
      EverMore(c, es, EndedLook(t.pulse.seen));
    }
    if t.pulse.SawQuiet? {
      EverAfterMore(c, es, EndedLook(t.pulse.seen), ToolsLook(c, t.pulse.checked));
    }
    if t.flags.closed.Some? {
      var at := t.flags.closed.value;
      EverAfterMore(c, es, EndedLook(at.seen), ToolsLook(c, at.checked));
    }
  }

  /** Why a call goes quiet: the run was found silent for its limit; or, some time after a usage
      line with nothing after it, an editing tool was found completed and none running; or the
      request ran again. Silence is found at such a look, and only then; and the limit is what a
      call is given up for. */
  lemma WhyACallStops(c: Config, es: seq<Event>)
    requires Possible(c, Begin, es)
    ensures var s := After(c, Begin, es);
            && (s.flags.silent <==> Ever(c, es, SilentLook(c)))
            && (s.flags.closed.Some? ==>
                  EverAfter(c, es, EndedLook(s.flags.closed.value.seen), ToolsLook(c, s.flags.closed.value.checked)))
            && (s.flags.quietStop <==> s.flags.silent || s.flags.closed.Some? || s.msgs.v.Ended())
            && (s.waiter == Handling(ByTimeout) ==> Ever(c, es, LimitPassed(c)))
  {
    AllPulseTold(c, es);
  }
}
