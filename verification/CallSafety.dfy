/** What holds in every run of the agent call, however its three actors interleave. */
module CallSafety {
  import opened Text
  import opened CallProtocol
  import opened Wrappers

  // ---- the invariant, part by part ---------------------------------------

  /** What was gathered is what the messages say, and the turn-end flag is the last message's kind. */
  ghost predicate Honest(c: Config, m: Messages) {
    && m.v == Gathered(m.done, c.complete)
    && (m.ended <==> m.Log() != [] && m.Log()[|m.Log()| - 1].Usage?)
    && (m.pending.Some? ==> !m.v.Ended())
  }

  /** The whole answer, when there is one, is the newest accepted text at the last message, a usage line. */
  ghost predicate AnswerLast(c: Config, m: Messages) {
    m.v.answered.Some? ==> c.complete.Some? && m.done != [] && AnsweredAt(c.complete.value, c.complete, m.done, m.v)
  }

  ghost predicate AnsweredAt(accepts: string -> bool, complete: Complete, done: seq<Msg>, v: View)
    requires done != []
  {
    var before := Gathered(done[..|done| - 1], complete);
    done[|done| - 1].Usage? && before.answered.None? && v.answered == Newest(Asked(before), accepts)
  }

  /** The quiet handler: its lock, and its body at most once. */
  ghost predicate OnceOnly(f: Flags, worker: Worker, waiter: Waiter) {
    && f.bodies == (if f.quietHandled then 1 else 0)
    && (f.lock == Some(TheWorker) <==> worker.OwnCancel?)
    && (f.lock == Some(TheWaiter) <==> waiter.Cancelling?)
    && (f.lock.Some? ==> f.quietHandled && f.stopped)
  }

  /** At the moment `seen` messages had come, the last was a usage line; no completeness test is
      given; by the time `checked` had been taken, an editing tool call had completed and none
      was running. */
  ghost predicate QuietAfterTurn(c: Config, log: seq<Msg>, seen: nat, checked: nat) {
    && c.complete.None?
    && 1 <= seen <= |log| && log[seen - 1].Usage? && seen <= checked + 1 && checked <= |log|
    && var v := Gathered(log[..checked], c.complete);
       v.toolsDone && v.running == {}
  }

  ghost predicate SilenceAfterTurn(c: Config, log: seq<Msg>, at: Closing) {
    && QuietAfterTurn(c, log, at.seen, at.checked)
    && at.seen <= at.came <= |log| && at.checked <= at.taken <= at.came <= at.taken + 1
  }

  ghost predicate PulseHonest(c: Config, m: Messages, f: Flags, pulse: Pulse) {
    && (pulse.SawEnded? ==> 1 <= pulse.seen <= |m.Log()| && m.Log()[pulse.seen - 1].Usage?)
    && (pulse.SawQuiet? ==> QuietAfterTurn(c, m.Log(), pulse.seen, pulse.checked) && pulse.checked <= |m.done|)
    && (f.closed.Some? ==> SilenceAfterTurn(c, m.Log(), f.closed.value))
    && (f.quietStop ==> f.closed.Some? || f.silent || m.v.Ended())
    && (m.v.Ended() ==> f.quietStop)
  }

  /** The waiter has left its watch because the run is being stopped. */
  predicate Gone(w: Waiter) {
    w.Cancelling? || w.GaveUp? || w.Returned? || (w.Handling? && (w.how.ByQuiet? || w.how.ByTimeout?))
  }

  predicate OwnStop(w: Worker) {
    w.OwnCancel? || w == Leaving(RaisedQuiet) || w == Over(RaisedQuiet)
  }

  predicate GivenUp(w: Worker) {
    w == Leaving(Abandoned) || w == Over(Abandoned)
  }

  /** Who told the others to stop, and so whom an abandoned worker can still reach. */
  ghost predicate StopTold(m: Messages, f: Flags, worker: Worker, waiter: Waiter) {
    && (f.stopped ==> OwnStop(worker) || worker == Over(Failed) || Gone(waiter))
    && (GivenUp(worker) ==> Gone(waiter))
    && (worker.OwnQuiet? || OwnStop(worker) ==> m.v.rerun && m.v.answered.None?)
    && (waiter.Handling? && waiter.how.ByFailure? ==> !waiter.how.abandoned)
    && (waiter.Returned? && waiter.result.Raised? ==> !waiter.result.abandoned)
    && (waiter.Stopping? || waiter.Cancelling? || waiter == Handling(ByQuiet) ==> f.quietStop)
    && (waiter.Returned? && waiter.result.Quiet? ==> f.quietStop)
  }

  /** An answer given is the whole answer that came; a text kept at the limit is not empty. */
  ghost predicate ResultTrue(m: Messages, waiter: Waiter) {
    waiter.Returned? ==>
      && (waiter.result.Answered? ==> m.v.answered.Some? && waiter.result.text == Strip(m.v.answered.value))
      && (waiter.result.Timeout? ==> waiter.result.text != "")
  }

  /** Nothing in the transcript is empty. */
  ghost predicate Told(w: Words) {
    forall k :: 0 <= k < |w.transcript| ==> w.transcript[k] != ""
  }

  /** A confirmed cancel was for a run; without a second turn there is only one. */
  ghost predicate CancelKnown(c: Config, r: Runs, worker: Worker) {
    && (r.cancelled ==> 1 <= r.target <= r.live) && r.live <= 2
    && (worker.Creating? || worker.CheckAgent? || worker.Sending? ==> r.live == 0)
    && (!c.followup ==> r.live <= 1 && !worker.Second? && !worker.Waiting2? && (worker.Reading? ==> worker.turn == 1))
  }

  ghost predicate Inv(c: Config, s: State) {
    && s.msgs.v.Valid()
    && Honest(c, s.msgs) && AnswerLast(c, s.msgs) && (s.msgs.pending.Some? ==> s.worker.Reading?)
    && OnceOnly(s.flags, s.worker, s.waiter)
    && PulseHonest(c, s.msgs, s.flags, s.pulse)
    && StopTold(s.msgs, s.flags, s.worker, s.waiter)
    && ResultTrue(s.msgs, s.waiter) && Told(s.words) && CancelKnown(c, s.runs, s.worker)
  }

  lemma BeginInv(c: Config)
    ensures Inv(c, Begin)
  {
  }

  // ---- each step keeps it ------------------------------------------------

  lemma PulseKeeps(c: Config, s: State, e: Event)
    requires Inv(c, s) && PulseCan(c, s, e)
    ensures Inv(c, PulseStep(c, s, e))
  {
    hide Gathered, AnswerLast, Told, CancelKnown, Gone, OwnStop;
    assert s.msgs.Log()[..|s.msgs.done|] == s.msgs.done;
  }

  lemma KeptNotEmpty(c: Config, v: View, w: Words)
    requires Told(w) && Parts(w) != []
    ensures KeptText(c, v, w) != ""
  {
    if !IsBlank(w.said) {
      StripNonBlank(w.said);
    }
    hide IsBlank, Strip, BestAnswer;
    assert Parts(w)[0] != "";
  }

  lemma WaiterResult(c: Config, s: State, e: Event)
    requires Told(s.words) && ResultTrue(s.msgs, s.waiter) && WaiterCan(c, s, e)
    ensures ResultTrue(s.msgs, WaiterStep(c, s, e).waiter)
  {
    if Parts(s.words) != [] {
      KeptNotEmpty(c, s.msgs.v, s.words);
    }
    hide Told, KeptText, BestAnswer, Parts, IsBlank, Strip;
  }

  lemma WaiterCancels(c: Config, s: State, e: Event)
    requires CancelKnown(c, s.runs, s.worker) && WaiterCan(c, s, e)
    ensures CancelKnown(c, WaiterStep(c, s, e).runs, WaiterStep(c, s, e).worker)
  {
    hide ResultOf;
  }

  lemma WaiterControl(c: Config, s: State, e: Event)
    requires OnceOnly(s.flags, s.worker, s.waiter) && StopTold(s.msgs, s.flags, s.worker, s.waiter)
    requires WaiterCan(c, s, e) && ResultTrue(s.msgs, s.waiter)
    requires s.flags.quietStop || !s.worker.Over? || !s.worker.outcome.RaisedQuiet?
    ensures var t := WaiterStep(c, s, e);
            OnceOnly(t.flags, t.worker, t.waiter) && StopTold(t.msgs, t.flags, t.worker, t.waiter)
  {
    hide KeptText, BestAnswer, Parts, IsBlank, Strip, Cancel;
  }

  lemma WaiterKeeps(c: Config, s: State, e: Event)
    requires Inv(c, s) && WaiterCan(c, s, e)
    ensures Inv(c, WaiterStep(c, s, e))
  {
    hide Honest, AnswerLast, ResultTrue, Told, QuietAfterTurn, SilenceAfterTurn, CancelKnown, OnceOnly, StopTold, ResultOf, Cancel;
    WaiterResult(c, s, e);
    WaiterCancels(c, s, e);
    OwnStopIsAsked(c, s);
    WaiterControl(c, s, e);
    var t := WaiterStep(c, s, e);
    assert t.msgs == s.msgs && t.pulse == s.pulse && t.worker == s.worker && t.words == s.words;
    assert t.flags == s.flags.(stopped := t.flags.stopped, quietHandled := t.flags.quietHandled,
                               bodies := t.flags.bodies, lock := t.flags.lock);
  }

  lemma OwnStopIsAsked(c: Config, s: State)
    requires Inv(c, s)
    ensures s.flags.quietStop || !s.worker.Over? || !s.worker.outcome.RaisedQuiet?
  {
    hide Honest, AnswerLast, Told, QuietAfterTurn, SilenceAfterTurn, CancelKnown;
  }

  lemma MoreLog(c: Config, log: seq<Msg>, more: seq<Msg>, seen: nat, checked: nat)
    requires QuietAfterTurn(c, log, seen, checked)
    ensures QuietAfterTurn(c, log + more, seen, checked)
  {
    assert (log + more)[..checked] == log[..checked];
  }

  lemma ArrivesKeeps(c: Config, s: State, e: Event)
    requires Inv(c, s) && e.Arrives? && WorkerCan(c, s, e)
    ensures Inv(c, WorkerStep(c, s, e))
  {
    var t := WorkerStep(c, s, e);
    assert t.msgs.Log() == s.msgs.Log() + [e.m];
    if s.flags.closed.Some? {
      MoreLog(c, s.msgs.Log(), [e.m], s.flags.closed.value.seen, s.flags.closed.value.checked);
    }
    if s.pulse.SawQuiet? {
      MoreLog(c, s.msgs.Log(), [e.m], s.pulse.seen, s.pulse.checked);
    }
    hide QuietAfterTurn, Gathered, AnsweredAt, Told, CancelKnown, Gone, OwnStop;
  }

  /** Only a usage line can bring the answer, or show that the request ran again. */
  lemma TakeEnds(v: View, m: Msg, complete: Complete)
    requires v.Valid() && !v.Ended()
    ensures var w := Take(v, m, complete);
            && (w.Ended() ==> m.Usage?)
            && (w.answered.Some? ==> complete.Some? && w.answered == Newest(Asked(v), complete.value))
            && !(w.answered.Some? && w.rerun)
  {
    hide Newest, Asked, IsBlank;
  }

  lemma HearTold(w: Words, m: Msg, again: bool, now: nat, stopped: bool)
    requires Told(w)
    ensures Told(Hear(w, m, again, now, stopped)) && Told(Flush(EndThinking(w, now, stopped), now, stopped))
  {
    hide EndsWith, DropSpaces, HasLine;
    if !IsBlank(w.said) {
      StripNonBlank(w.said);
    }
    if m.Assistant? && !IsBlank(w.said + m.piece) {
      StripNonBlank(w.said + m.piece);
    }
    hide IsBlank, Strip;
  }

  lemma StripNonBlank(s: string)
    requires !IsBlank(s)
    ensures Strip(s) != ""
  {
    var k :| 0 <= k < |s| && !IsSpace(s[k]);
    LeftKeeps(s, k);
    var t := StripLeft(s);
    RightKeeps(t);
  }

  lemma {:induction false} LeftKeeps(s: string, k: nat)
    requires k < |s| && !IsSpace(s[k])
    ensures StripLeft(s) != "" && !IsSpace(StripLeft(s)[0])
  {
    if IsSpace(s[0]) {
      LeftKeeps(s[1..], k - 1);
    }
  }

  lemma {:induction false} RightKeeps(s: string)
    requires s != "" && !IsSpace(s[0])
    ensures StripRight(s) != ""
  {
    if IsSpace(s[|s| - 1]) {
      RightKeeps(s[..|s| - 1]);
    }
  }

  lemma TakenMessages(c: Config, s: State)
    requires Inv(c, s) && s.msgs.pending.Some?
    ensures var t := TakePending(c, s);
            && Honest(c, t.msgs) && AnswerLast(c, t.msgs)
            && t.msgs.Log() == s.msgs.Log()
            && !(t.msgs.v.answered.Some? && t.msgs.v.rerun)
  {
    var m := s.msgs.pending.value;
    TakeEnds(s.msgs.v, m, c.complete);
    hide Take, Newest, Asked, Hear;
    var t := TakePending(c, s);
    assert t.msgs.done[..|s.msgs.done|] == s.msgs.done;
  }

  lemma TakenKeeps(c: Config, s: State, e: Event)
    requires Inv(c, s) && e.Taken? && WorkerCan(c, s, e)
    ensures Inv(c, WorkerStep(c, s, e))
  {
    TakenMessages(c, s);
    HearTold(s.words, s.msgs.pending.value, Repeats(s.msgs.v, s.msgs.pending.value), s.now, s.flags.stopped);
    CancelKeeps(c, s, e);
    hide Honest, AnswerLast, Take, Hear, QuietAfterTurn, SilenceAfterTurn, Told, CancelKnown, Gone;
  }

  lemma CancelKeeps(c: Config, s: State, e: Event)
    requires CancelKnown(c, s.runs, s.worker) && WorkerCan(c, s, e) && s.msgs.v.Valid()
    ensures CancelKnown(c, WorkerStep(c, s, e).runs, WorkerStep(c, s, e).worker)
  {
    hide Take, Hear, Flush;
  }

  lemma WorkerControl(c: Config, s: State, e: Event)
    requires OnceOnly(s.flags, s.worker, s.waiter) && StopTold(s.msgs, s.flags, s.worker, s.waiter)
    requires WorkerCan(c, s, e) && s.msgs.v.Valid() && !e.Arrives? && !e.Taken?
    ensures var t := WorkerStep(c, s, e);
            OnceOnly(t.flags, t.worker, t.waiter) && StopTold(t.msgs, t.flags, t.worker, t.waiter)
  {
    hide Flush, Gone, Cancel, Take, Hear;
  }

  lemma OtherWorkerKeeps(c: Config, s: State, e: Event)
    requires Inv(c, s) && WorkerCan(c, s, e) && !e.Arrives? && !e.Taken?
    ensures Inv(c, WorkerStep(c, s, e))
  {
    hide Honest, AnswerLast, Flush, EndThinking, QuietAfterTurn, SilenceAfterTurn, Hear, Cancel, CancelKnown, ResultTrue, OnceOnly, StopTold, Take;
    HearTold(s.words, Thinking, false, s.now, s.flags.stopped);
    CancelKeeps(c, s, e);
    WorkerControl(c, s, e);
    var t := WorkerStep(c, s, e);
    assert t.msgs == s.msgs && t.pulse == s.pulse && t.waiter == s.waiter;
    assert t.flags == s.flags.(stopped := t.flags.stopped, quietHandled := t.flags.quietHandled,
                               bodies := t.flags.bodies, lock := t.flags.lock);
  }

  lemma NextKeeps(c: Config, s: State, e: Event)
    requires Inv(c, s) && Enabled(c, s, e)
    ensures Inv(c, Next(c, s, e))
  {
    hide WorkerStep, PulseStep, WaiterStep, WorkerCan, PulseCan, WaiterCan;
    if e.Pass? {
    } else if PulseCan(c, s, e) {
      PulseKeeps(c, s, e);
    } else if WaiterCan(c, s, e) {
      WaiterKeeps(c, s, e);
    } else if e.Arrives? {
      ArrivesKeeps(c, s, e);
    } else if e.Taken? {
      TakenKeeps(c, s, e);
    } else {
      OtherWorkerKeeps(c, s, e);
    }
  }

  // ---- runs --------------------------------------------------------------

  /** `es` can happen from `s`, one after another. */
  ghost predicate Possible(c: Config, s: State, es: seq<Event>)
    requires s.msgs.v.Valid()
    decreases |es|
  {
    es == []
    || (Enabled(c, s, es[0])
        && Next(c, s, es[0]).msgs.v.Valid() && Possible(c, Next(c, s, es[0]), es[1..]))
  }

  ghost function After(c: Config, s: State, es: seq<Event>): (t: State)
    requires s.msgs.v.Valid() && Possible(c, s, es)
    ensures t.msgs.v.Valid()
    decreases |es|
  {
    if es == [] then s else After(c, Next(c, s, es[0]), es[1..])
  }

  lemma {:induction false} RunKeeps(c: Config, s: State, es: seq<Event>)
    requires Inv(c, s) && Possible(c, s, es)
    ensures Inv(c, After(c, s, es))
    decreases |es|
  {
    if es != [] {
      hide Next, Honest, AnswerLast, OnceOnly, PulseHonest, StopTold, ResultTrue, Told, CancelKnown;
      NextKeeps(c, s, es[0]);
      RunKeeps(c, Next(c, s, es[0]), es[1..]);
    }
  }

  // ---- what follows for every run ----------------------------------------

  /** A call that ends as answered gives the newest text that was accepted when the last
      message, a usage line, came -- the first usage line at which any text was. */
  lemma AnswerIsAccepted(c: Config, es: seq<Event>)
    requires Possible(c, Begin, es)
    requires After(c, Begin, es).waiter.Returned? && After(c, Begin, es).waiter.result.Answered?
    ensures var s := After(c, Begin, es);
            && c.complete.Some? && s.msgs.done != [] && s.msgs.pending.None?
            && var n := |s.msgs.done| - 1;
               var before := Gathered(s.msgs.done[..n], c.complete);
               && s.msgs.done[n].Usage? && before.answered.None?
               && exists text :: text in Asked(before) && c.complete.value(text)
                                 && s.waiter.result.text == Strip(text)
                                 && Newest(Asked(before), c.complete.value) == Some(text)
  {
    BeginInv(c);
    RunKeeps(c, Begin, es);
  }

  /** A run closed for silence after a turn: the last message that had come was a usage line
      when the pulse read the flag, and an editing tool call had completed and no tool call was
      running when it looked at the tools. When it closed the run the last message still was
      that usage line unless another had come, and no tool call was running unless another
      message had been taken. */
  lemma ClosedOnlyAfterTurn(c: Config, es: seq<Event>)
    requires Possible(c, Begin, es) && After(c, Begin, es).flags.closed.Some?
    ensures var s := After(c, Begin, es);
            var at := s.flags.closed.value;
            && SilenceAfterTurn(c, s.msgs.Log(), at)
            && (at.came == at.seen ==> s.msgs.Log()[at.came - 1].Usage?)
            && (at.taken == at.checked ==> Gathered(s.msgs.Log()[..at.taken], c.complete).running == {})
  {
    BeginInv(c);
    RunKeeps(c, Begin, es);
  }

  /** The quiet handler's body runs at most once, and never in two actors at a time. */
  lemma QuietOnce(c: Config, es: seq<Event>)
    requires Possible(c, Begin, es)
    ensures var s := After(c, Begin, es);
            s.flags.bodies <= 1 && !(s.worker.OwnCancel? && s.waiter.Cancelling?)
  {
    BeginInv(c);
    RunKeeps(c, Begin, es);
  }

  /** A quiet result has a cause: the run was silent for its limit, or closed after its turn,
      or the request ran again. A session that was given up never reaches the caller. */
  lemma QuietHasCause(c: Config, es: seq<Event>)
    requires Possible(c, Begin, es) && After(c, Begin, es).waiter.Returned?
    ensures var s := After(c, Begin, es);
            && (s.waiter.result.Quiet? ==> s.flags.closed.Some? || s.flags.silent || s.msgs.v.Ended())
            && s.waiter.result != Raised(true)
  {
    BeginInv(c);
    RunKeeps(c, Begin, es);
  }

  /** Whatever ended the wait, the caller gets the whole answer when there is one, and only
      then; and what was written up to the limit is kept only when there is some and the run
      was cancelled -- the live run, in a call without a second turn. */
  lemma WhatTheCallerGets(c: Config, es: seq<Event>)
    requires Possible(c, Begin, es) && After(c, Begin, es).waiter.Handling?
    ensures var s := After(c, Begin, es);
            var result := Next(c, s, Handle).waiter.result;
            && (result.Answered? <==> s.msgs.v.answered.Some?)
            && (result.Timeout? ==>
                 && s.waiter.how.ByTimeout? && Parts(s.words) != [] && result.text != ""
                 && s.runs.cancelled && 1 <= s.runs.target <= s.runs.live
                 && (!c.followup ==> s.runs.target == s.runs.live))
            && (result.Quiet? ==> s.waiter.how.ByQuiet?)
  {
    BeginInv(c);
    RunKeeps(c, Begin, es);
    var s := After(c, Begin, es);
    HandleGives(c, s);
    TimeoutKept(c, s);
    hide After, Next, Possible, ResultOf, KeptText, Parts, Honest, AnswerLast, PulseHonest, OnceOnly, Told;
  }

  lemma HandleGives(c: Config, s: State)
    requires s.waiter.Handling? && s.msgs.v.Valid()
    ensures Enabled(c, s, Handle) && Next(c, s, Handle).waiter == Returned(ResultOf(c, s, s.waiter.how))
  {
    hide ResultOf;
  }

  lemma TimeoutKept(c: Config, s: State)
    requires s.waiter.Handling? && Told(s.words)
    ensures var result := ResultOf(c, s, s.waiter.how);
            && (result.Answered? <==> s.msgs.v.answered.Some?)
            && (result.Timeout? ==> s.waiter.how.ByTimeout? && Parts(s.words) != [] && result.text != ""
                                    && s.runs.cancelled)
            && (result.Quiet? ==> s.waiter.how.ByQuiet?)
  {
    if Parts(s.words) != [] {
      KeptNotEmpty(c, s.msgs.v, s.words);
    }
    hide KeptText, BestAnswer, Parts, IsBlank, Strip, Told;
  }

  // ---- what does not hold ------------------------------------------------

  lemma {:induction false} Extend(c: Config, s: State, es: seq<Event>, e: Event)
    requires s.msgs.v.Valid() && Possible(c, s, es)
    requires Enabled(c, After(c, s, es), e) && After(c, s, es).msgs.v.Valid()
    requires Next(c, After(c, s, es), e).msgs.v.Valid()
    ensures Possible(c, s, es + [e]) && After(c, s, es + [e]) == Next(c, After(c, s, es), e)
    decreases |es|
  {
    hide Next, Enabled;
    if es == [] {
      assert ([] + [e])[1..] == [];
      assert Possible(c, Next(c, s, e), []);
    } else {
      Extend(c, Next(c, s, es[0]), es[1..], e);
      assert (es + [e])[1..] == es[1..] + [e];
    }
  }

  /** From the beginning, `es` leads to `s`. */
  ghost predicate Leads(c: Config, es: seq<Event>, s: State) {
    s.msgs.v.Valid() && Possible(c, Begin, es) && After(c, Begin, es) == s
  }

  /** One event more, from a state that is known to one that is known. */
  lemma Then(c: Config, es: seq<Event>, s: State, e: Event, t: State) returns (more: seq<Event>)
    requires Leads(c, es, s) && Enabled(c, s, e) && Next(c, s, e) == t && t.msgs.v.Valid()
    ensures Leads(c, more, t)
  {
    hide Next, Enabled;
    more := es + [e];
    Extend(c, Begin, es, e);
  }

  lemma LedKeeps(c: Config, es: seq<Event>, s: State)
    requires Leads(c, es, s)
    ensures Inv(c, s)
  {
    hide Inv, Possible, After;
    BeginInv(c);
    RunKeeps(c, Begin, es);
  }

  /** The waiter's two steps once the worker is over. */
  function Handled(c: Config, s: State): Result
    requires s.worker.Over?
  {
    ResultOf(c, s, HowOver(s.worker.outcome))
  }

  /** The session's own stop, when the request ran again, reaches the caller as a quiet result
      exactly when leaving the session does not fail, else as a failure. */
  lemma OwnStopLeaves(c: Config, es: seq<Event>, s: State, ok: bool)
    requires Leads(c, es, s) && s.worker == Leaving(RaisedQuiet) && s.waiter.Watching?
    ensures Enabled(c, s, Left(ok))
    ensures var t := Next(c, s, Left(ok));
            && t == s.(worker := Over(if ok then RaisedQuiet else Failed))
            && (Handled(c, t).Quiet? <==> ok) && (!ok ==> Handled(c, t) == Raised(false))
  {
    LedKeeps(c, es, s);
    hide Leads, KeptText, Honest, AnswerLast, PulseHonest, OnceOnly, Told, CancelKnown, ResultTrue;
  }

  /** What the waiter makes of a worker that is over. */
  lemma OverIsHandled(c: Config, s: State)
    requires s.worker.Over? && s.waiter.Watching? && s.msgs.v.Valid()
    ensures Enabled(c, s, NoticeOver)
    ensures var t := Next(c, s, NoticeOver);
            && t == s.(waiter := Handling(HowOver(s.worker.outcome))) && Enabled(c, t, Handle)
            && Next(c, t, Handle) == t.(waiter := Returned(Handled(c, s)))
  {
    hide KeptText, BestAnswer, Parts;
  }

  function ReadingFirst(): State {
    Begin.(worker := Reading(1), runs := Runs(1, false, 0, ""))
  }

  lemma ToReading(c: Config) returns (es: seq<Event>)
    ensures Leads(c, es, ReadingFirst())
  {
    es := [];
    assert Leads(c, es, Begin);
    hide Leads;
    es := Then(c, es, Begin, AgentReady, Begin.(worker := CheckAgent));
    es := Then(c, es, Begin.(worker := CheckAgent), AgentChecked, Begin.(worker := Sending));
    var s := Begin.(worker := CheckRun, runs := Runs(1, false, 0, ""));
    es := Then(c, es, Begin.(worker := Sending), RunSent, s);
    es := Then(c, es, s, RunChecked, ReadingFirst());
  }

  const EDITED := ToolCall(1, Edits, Completed)

  /** An editing tool call has completed and the turn has ended. */
  function TurnEnded(): State {
    ReadingFirst().(
      msgs := Messages(NoView.(toolsDone := true), [EDITED, Usage(None)], None, true, true))
  }

  lemma ToTurnEnded(c: Config) returns (es: seq<Event>)
    requires c.complete.None?
    ensures Leads(c, es, TurnEnded())
  {
    es := ToReading(c);
    hide Leads;
    var s0 := ReadingFirst();
    var s1 := s0.(msgs := Messages(NoView, [], Some(EDITED), true, false));
    es := Then(c, es, s0, Arrives(EDITED), s1);
    var s2 := s1.(msgs := Messages(NoView.(toolsDone := true), [EDITED], None, true, false));
    assert Take(NoView, EDITED, c.complete) == NoView.(toolsDone := true);
    es := Then(c, es, s1, Taken, s2);
    var s3 := s2.(msgs := s2.msgs.(pending := Some(Usage(None)), ended := true));
    es := Then(c, es, s2, Arrives(Usage(None)), s3);
    assert [EDITED] + [Usage(None)] == [EDITED, Usage(None)];
    es := Then(c, es, s3, Taken, TurnEnded());
  }

  /** The turn ended long ago, and the pulse has read that. */
  function Looked(): State {
    TurnEnded().(now := 20, pulse := SawEnded(2))
  }

  lemma ToLooked(c: Config) returns (es: seq<Event>)
    requires c == Config(None, None, 0, false)
    ensures Leads(c, es, Looked())
  {
    es := ToTurnEnded(c);
    hide Leads;
    var s := TurnEnded().(now := 20);
    es := Then(c, es, TurnEnded(), Pass(20), s);
    es := Then(c, es, s, Look, Looked());
  }

  /** A message can come between the pulse's look and its close: the run is then closed for
      silence after its turn although the last message was no usage line. */
  lemma ClosedThoughMoreCame() returns (c: Config, es: seq<Event>, s: State)
    ensures Leads(c, es, s)
    ensures s.flags.closed.Some? && s.flags.closed.value.came == |s.msgs.Log()| > 0
    ensures !s.msgs.Log()[|s.msgs.Log()| - 1].Usage?
  {
    c := Config(None, None, 0, false);
    es := ToLooked(c);
    hide Leads;
    var s2 := Looked();
    var s3 := s2.(msgs := s2.msgs.(pending := Some(Thinking), ended := false));
    es := Then(c, es, s2, Arrives(Thinking), s3);
    var s4 := s3.(pulse := SawQuiet(2, 2));
    es := Then(c, es, s3, CheckTools, s4);
    s := s4.(flags := s4.flags.(closed := Some(Closing(2, 2, 3, 2)), quietStop := true), pulse := PulseOver);
    es := Then(c, es, s4, CloseRun, s);
  }

  const STARTED := ToolCall(2, Reads, Running)

  /** The pulse has looked at the tools, and then a tool call was taken that is running. */
  function StartedAfterCheck(): State {
    Looked().(
      msgs := Messages(NoView.(toolsDone := true, running := {2}), [EDITED, Usage(None), STARTED], None, true, false),
      words := Words("", [], "", 20, false), pulse := SawQuiet(2, 2))
  }

  lemma ToStartedAfterCheck(c: Config) returns (es: seq<Event>)
    requires c == Config(None, None, 0, false)
    ensures Leads(c, es, StartedAfterCheck())
  {
    es := ToLooked(c);
    NothingSaid();
    hide Leads, Hear;
    var s2 := Looked();
    var s3 := s2.(pulse := SawQuiet(2, 2));
    es := Then(c, es, s2, CheckTools, s3);
    var s4 := s3.(msgs := s3.msgs.(pending := Some(STARTED), ended := false));
    es := Then(c, es, s3, Arrives(STARTED), s4);
    assert Take(s4.msgs.v, STARTED, c.complete) == StartedAfterCheck().msgs.v;
    assert s4.msgs.done + [STARTED] == StartedAfterCheck().msgs.done;
    es := Then(c, es, s4, Taken, StartedAfterCheck());
  }

  /** A tool call can be taken between the look at the tools and the close: the run is then
      closed for silence while that tool is running. */
  lemma ClosedThoughToolRuns() returns (c: Config, es: seq<Event>, s: State)
    ensures Leads(c, es, s)
    ensures s.flags.closed.Some? && s.msgs.v.running != {}
    ensures s.flags.closed.value.taken == |s.msgs.done| > s.flags.closed.value.checked
  {
    c := Config(None, None, 0, false);
    es := ToStartedAfterCheck(c);
    hide Leads;
    var s5 := StartedAfterCheck();
    s := s5.(flags := s5.flags.(closed := Some(Closing(2, 2, 3, 3)), quietStop := true), pulse := PulseOver);
    es := Then(c, es, s5, CloseRun, s);
    assert 2 in s.msgs.v.running;
  }

  lemma NothingSaid()
    ensures Hear(Words("", [], "", 0, false), STARTED, false, 20, false) == Words("", [], "", 20, false)
  {
  }

  lemma OneWord()
    ensures Hear(Words("", [], "", 0, false), Assistant("x"), false, 0, false) == Words("x", [], "x", 0, false)
    ensures Flush(Words("x", [], "x", 0, false), 0, false) == Words("", ["x"], "x", 0, false)
  {
    assert "" + "x" == "x";
    assert !EndsWith(DropSpaces("x"), "\n\n");
    assert !IsSpace("x"[0]);
    StripTight("x");
  }

  /** The first turn answered with one word and a second turn is to be sent. */
  function BeforeSecond(): State {
    ReadingFirst().(
      msgs := Messages(NoView.(segments := ["x"], segOpen := true), [Assistant("x")], None, true, false),
      words := Words("", ["x"], "x", 0, false), runs := Runs(1, false, 0, "x"), worker := Second)
  }

  lemma ToSecond(c: Config) returns (es: seq<Event>)
    requires c.complete.None? && c.followup
    ensures Leads(c, es, BeforeSecond())
  {
    es := ToReading(c);
    OneWord();
    hide Leads, Hear, Flush;
    var s0, word := ReadingFirst(), Assistant("x");
    var s1 := s0.(msgs := Messages(NoView, [], Some(word), true, false));
    es := Then(c, es, s0, Arrives(word), s1);
    var s3 := BeforeSecond();
    var s2 := s3.(words := Words("x", [], "x", 0, false), runs := Runs(1, false, 0, ""), worker := Reading(1));
    assert Take(NoView, word, c.complete) == s2.msgs.v;
    es := Then(c, es, s1, Taken, s2);
    var s4 := s3.(runs := Runs(1, false, 0, ""));
    es := Then(c, es, s2, MessagesOver, s4.(worker := AfterRead));
    es := Then(c, es, s4.(worker := AfterRead), FirstTurnOver(true), s4.(worker := Waiting));
    es := Then(c, es, s4.(worker := Waiting), RunEnds, s4.(worker := CheckWait));
    es := Then(c, es, s4.(worker := CheckWait), WaitChecked(false, "x", true), s3);
  }

  /** The limit passed and the first run was cancelled. */
  function CancelledFirst(): State {
    BeforeSecond().(now := 5, flags := Begin.flags.(stopped := true), runs := Runs(1, true, 1, "x"), waiter := Handling(ByTimeout))
  }

  /** The waiter has given the call up, and not yet cancelled the run. */
  function GivingUpFirst(): State {
    BeforeSecond().(now := 5, waiter := GivingUp)
  }

  lemma ToGivingUp(c: Config) returns (es: seq<Event>)
    requires c.complete.None? && c.followup && c.deadline == Some(5)
    ensures Leads(c, es, GivingUpFirst())
  {
    es := ToSecond(c);
    hide Leads;
    var s := BeforeSecond().(now := 5);
    es := Then(c, es, BeforeSecond(), Pass(5), s);
    es := Then(c, es, s, NoticeDeadline, GivingUpFirst());
  }

  lemma ToCancelled(c: Config) returns (es: seq<Event>)
    requires c.complete.None? && c.followup && c.deadline == Some(5)
    ensures Leads(c, es, CancelledFirst())
  {
    es := ToGivingUp(c);
    hide Leads;
    var s := GivingUpFirst().(flags := Begin.flags.(stopped := true), waiter := GaveUp);
    es := Then(c, es, GivingUpFirst(), GiveUpStop, s);
    es := Then(c, es, s, GiveUpCancel(true), CancelledFirst());
  }

  /** With a second turn, the limit can pass just before it is sent: the first run is
      cancelled, and a result kept as cancelled is given while the second still runs. */
  lemma TimeoutThoughRunning() returns (c: Config, es: seq<Event>, s: State)
    ensures Leads(c, es, s)
    ensures s.waiter.Returned? && s.waiter.result.Timeout?
    ensures s.runs.cancelled && s.runs.target == 1 && s.runs.live == 2 && s.worker == Reading(2)
  {
    c := Config(None, Some(5), 0, true);
    es := ToCancelled(c);
    hide Leads, ResultOf;
    var s1 := CancelledFirst().(runs := Runs(2, true, 1, "x"), words := Words("", ["x"], "", 0, false), worker := Reading(2));
    es := Then(c, es, CancelledFirst(), SecondSent, s1);
    KeptAtLimit(c, s1);
    s := s1.(waiter := Returned(ResultOf(c, s1, ByTimeout)));
    es := Then(c, es, s1, Handle, s);
  }

  lemma KeptAtLimit(c: Config, s: State)
    requires s.words.transcript != [] && s.runs.cancelled && s.msgs.v.answered.None?
    ensures ResultOf(c, s, ByTimeout).Timeout?
  {
    hide KeptText, IsBlank, Strip;
    assert Parts(s.words) != [];
  }

  const SENT := Usage(Some(7))

  /** Two usage lines with the same count: the request ran again. */
  function RanAgain(): State {
    ReadingFirst().(
      msgs := Messages(NoView.(usages := {7}, rerun := true), [SENT, SENT], None, true, true),
      flags := Begin.flags.(quietStop := true))
  }

  lemma ToRanAgain(c: Config) returns (es: seq<Event>)
    ensures Leads(c, es, RanAgain())
  {
    es := ToReading(c);
    NoWords();
    hide Leads, Hear;
    var s0 := ReadingFirst();
    var s1 := s0.(msgs := Messages(NoView, [], Some(SENT), true, true));
    es := Then(c, es, s0, Arrives(SENT), s1);
    var s2 := s1.(msgs := Messages(NoView.(usages := {7}), [SENT], None, true, true));
    assert Take(NoView, SENT, c.complete) == NoView.(usages := {7});
    es := Then(c, es, s1, Taken, s2);
    var s3 := s2.(msgs := s2.msgs.(pending := Some(SENT)));
    es := Then(c, es, s2, Arrives(SENT), s3);
    assert Take(s2.msgs.v, SENT, c.complete) == RanAgain().msgs.v;
    assert [SENT] + [SENT] == [SENT, SENT];
    es := Then(c, es, s3, Taken, RanAgain());
  }

  lemma NoWords()
    ensures Hear(Words("", [], "", 0, false), SENT, false, 0, false) == Words("", [], "", 0, false)
  {
  }

  /** The session stopped itself and is being closed. */
  function StoppedItself(): State {
    RanAgain().(
      flags := Flags(true, true, None, false, true, 1, None), runs := Runs(1, true, 1, ""), worker := Leaving(RaisedQuiet))
  }

  lemma ToStoppedItself(c: Config) returns (es: seq<Event>)
    ensures Leads(c, es, StoppedItself())
  {
    es := ToRanAgain(c);
    hide Leads;
    var s0, s3 := RanAgain(), StoppedItself();
    es := Then(c, es, s0, MessagesOver, s0.(worker := AfterRead));
    es := Then(c, es, s0.(worker := AfterRead), FirstTurnOver(true), s0.(worker := OwnQuiet));
    var s2 := s3.(flags := s3.flags.(lock := Some(TheWorker)), runs := s0.runs, worker := OwnCancel);
    es := Then(c, es, s0.(worker := OwnQuiet), OwnLock, s2);
    es := Then(c, es, s2, OwnDone(true), s3);
  }

  /** Leaving the session can fail after its own stop: the caller then gets a failure. */
  lemma OwnStopRaised(c: Config) returns (es: seq<Event>, s: State)
    ensures Leads(c, es, s) && s.flags.bodies == 1 && s.waiter == Returned(Raised(false))
  {
    es := ToStoppedItself(c);
    OwnStopLeaves(c, es, StoppedItself(), false);
    hide Leads, Next, Enabled;
    var s1 := StoppedItself().(worker := Over(Failed));
    es := Then(c, es, StoppedItself(), Left(false), s1);
    OverIsHandled(c, s1);
    var s2 := s1.(waiter := Handling(ByFailure(false)));
    es := Then(c, es, s1, NoticeOver, s2);
    s := s2.(waiter := Returned(Raised(false)));
    es := Then(c, es, s2, Handle, s);
  }
}
