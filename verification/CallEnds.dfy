/** How a call ends: what its session comes to, whether the run was cancelled, and that it can
    end from wherever it is. */
module CallEnds {
  import opened Text
  import opened CallProtocol
  import opened CallSafety
  import opened CallHistory
  import opened Wrappers

  // ---- what the session comes to -----------------------------------------

  /** The event ends the session, and what it comes to by it. */
  ghost function Ending(c: Config, s: State, e: Event): Option<Outcome> {
    match e
    case WorkerFails => Some(Failed)
    case AgentChecked => if s.flags.stopped then Some(Abandoned) else None
    case RunChecked => if s.flags.stopped then Some(Abandoned) else None
    case WaitChecked(error, text, again) =>
      if s.flags.stopped then Some(Abandoned)
      else if c.followup && again && !error then None
      else Some(Value(error, text))
    case FirstTurnOver(_) => if s.msgs.v.answered.Some? then Some(Value(false, s.msgs.v.answered.value)) else None
    case OwnLock => if s.flags.quietHandled then Some(RaisedQuiet) else None
    case OwnDone(_) => Some(RaisedQuiet)
    case SecondOver(error, text) => Some(Value(false, if error || IsBlank(text) then s.runs.first else text))
    case SecondFails => Some(Value(false, s.runs.first))
    case _ => None
  }

  ghost function EndsAs(c: Config, o: Outcome): (State, Event) -> bool {
    (s: State, e: Event) => Ending(c, s, e) == Some(o)
  }

  ghost function LeftAs(ok: bool): (State, Event) -> bool {
    (s: State, e: Event) => e == Left(ok)
  }

  /** The session could not be opened. */
  ghost function NotBegun(): (State, Event) -> bool {
    (s: State, e: Event) => e.WorkerFails? && s.worker.Creating?
  }

  /** The session was ended once, as `o`. */
  ghost predicate EndedAs(c: Config, es: seq<Event>, o: Outcome)
    requires Possible(c, Begin, es)
  {
    forall p :: Ever(c, es, EndsAs(c, p)) <==> p == o
  }

  ghost predicate NotEnded(c: Config, es: seq<Event>)
    requires Possible(c, Begin, es)
  {
    forall p :: !Ever(c, es, EndsAs(c, p))
  }

  ghost predicate NotLeft(c: Config, es: seq<Event>)
    requires Possible(c, Begin, es)
  {
    !Ever(c, es, LeftAs(true)) && !Ever(c, es, LeftAs(false)) && !Ever(c, es, NotBegun())
  }

  /** It was left, once; or it was never begun. */
  ghost predicate LeftOnce(c: Config, es: seq<Event>)
    requires Possible(c, Begin, es)
  {
    && (Ever(c, es, LeftAs(true)) || Ever(c, es, LeftAs(false)) || Ever(c, es, NotBegun()))
    && !(Ever(c, es, LeftAs(true)) && Ever(c, es, LeftAs(false)))
  }

  /** A session that was ended was ended once, and comes to what it was ended as, unless leaving it
      failed; one that was not ended goes on. */
  ghost predicate SessionTold(c: Config, es: seq<Event>, w: Worker)
    requires Possible(c, Begin, es)
  {
    match w
    case Leaving(o) => EndedAs(c, es, o) && NotLeft(c, es)
    case Over(x) =>
      && LeftOnce(c, es)
      && exists o :: EndedAs(c, es, o) && x == if Ever(c, es, LeftAs(false)) then Failed else o
    case _ => NotEnded(c, es) && NotLeft(c, es)
  }

  /** What one event does to the session. */
  ghost predicate SessionStep(c: Config, s: State, e: Event, t: Worker) {
    if s.worker.Over? then t == s.worker && Ending(c, s, e) == None && !e.Left?
    else if e.Left? then s.worker.Leaving? && t == Over(if e.ok then s.worker.leaves else Failed)
    else if s.worker.Leaving? then t == s.worker && Ending(c, s, e) == None
    else match Ending(c, s, e)
      case None => !t.Leaving? && !t.Over?
      case Some(o) => t == if e.WorkerFails? && s.worker.Creating? then Over(Failed) else Leaving(o)
  }

  lemma SessionOfWorker(c: Config, s: State, e: Event)
    requires s.msgs.v.Valid() && WorkerCan(c, s, e)
    requires s.worker.OwnQuiet? || s.worker.OwnCancel? ==> s.msgs.v.answered.None?
    ensures SessionStep(c, s, e, WorkerStep(c, s, e).worker)
  {
    hide TakePending, Flush, EndThinking, Cancel, EnterQuiet;
    if e.Taken? {
      TakenWorker(c, s);
    }
  }

  lemma TakenWorker(c: Config, s: State)
    requires s.msgs.pending.Some? && s.msgs.v.Valid()
    ensures TakePending(c, s).worker == s.worker
  {
  }

  lemma SessionNext(c: Config, s: State, e: Event)
    requires s.msgs.v.Valid() && Enabled(c, s, e)
    requires s.worker.OwnQuiet? || s.worker.OwnCancel? ==> s.msgs.v.answered.None?
    ensures SessionStep(c, s, e, Next(c, s, e).worker)
  {
    hide WorkerStep, ResultOf, Cancel, EnterQuiet;
    if !e.Pass? && !PulseCan(c, s, e) && !WaiterCan(c, s, e) {
      SessionOfWorker(c, s, e);
    }
  }

  lemma EndingMore(c: Config, es: seq<Event>)
    requires Possible(c, Begin, es) && es != []
    ensures Possible(c, Begin, es[..|es| - 1])
    ensures var n := |es| - 1;
            var s, e := After(c, Begin, es[..n]), es[n];
            && (forall p :: Ever(c, es, EndsAs(c, p)) <==> Ever(c, es[..n], EndsAs(c, p)) || Ending(c, s, e) == Some(p))
            && (forall ok :: Ever(c, es, LeftAs(ok)) <==> Ever(c, es[..n], LeftAs(ok)) || e == Left(ok))
            && (Ever(c, es, NotBegun()) <==> Ever(c, es[..n], NotBegun()) || (e.WorkerFails? && s.worker.Creating?))
  {
    hide Ever, After, Possible, Ending;
    EverMore(c, es, NotBegun());
    forall p ensures Ever(c, es, EndsAs(c, p)) <==> Ever(c, es[..|es| - 1], EndsAs(c, p)) || Ending(c, After(c, Begin, es[..|es| - 1]), es[|es| - 1]) == Some(p) {
      EverMore(c, es, EndsAs(c, p));
    }
    forall ok ensures Ever(c, es, LeftAs(ok)) <==> Ever(c, es[..|es| - 1], LeftAs(ok)) || es[|es| - 1] == Left(ok) {
      EverMore(c, es, LeftAs(ok));
    }
  }

  lemma EndingOn(c: Config, es: seq<Event>, s: State)
    requires Possible(c, Begin, es) && es != [] && Possible(c, Begin, es[..|es| - 1]) && s == After(c, Begin, es[..|es| - 1])
    ensures var less, end := es[..|es| - 1], Ending(c, s, es[|es| - 1]);
            && (end == None && NotEnded(c, less) ==> NotEnded(c, es))
            && (end.Some? && NotEnded(c, less) ==> EndedAs(c, es, end.value))
            && (end == None ==> forall o :: EndedAs(c, less, o) ==> EndedAs(c, es, o))
  {
    hide Ever, After, Possible, Ending;
    EndingMore(c, es);
  }

  lemma LeavingOn(c: Config, es: seq<Event>, s: State)
    requires Possible(c, Begin, es) && es != [] && Possible(c, Begin, es[..|es| - 1]) && s == After(c, Begin, es[..|es| - 1])
    ensures var less, e := es[..|es| - 1], es[|es| - 1];
            var never := e.WorkerFails? && s.worker.Creating?;
            && (!e.Left? && !never && NotLeft(c, less) ==> NotLeft(c, es))
            && (!e.Left? && !never && LeftOnce(c, less) ==> LeftOnce(c, es))
            && ((e.Left? || never) && NotLeft(c, less) ==> LeftOnce(c, es))
            && (Ever(c, es, LeftAs(false)) <==> Ever(c, less, LeftAs(false)) || e == Left(false))
            && (NotLeft(c, less) ==> !Ever(c, less, LeftAs(false)))
  {
    hide Ever, After, Possible;
    EndingMore(c, es);
  }

  lemma OverOn(c: Config, es: seq<Event>, s: State, t: Worker)
    requires Possible(c, Begin, es) && es != [] && Possible(c, Begin, es[..|es| - 1])
    requires s == After(c, Begin, es[..|es| - 1]) && SessionStep(c, s, es[|es| - 1], t)
    requires SessionTold(c, es[..|es| - 1], s.worker)
    requires s.worker.Over?
    ensures SessionTold(c, es, t)
  {
    hide Ever, After, Possible, Ending, EndedAs, NotEnded, NotLeft, LeftOnce, EndsAs, LeftAs, NotBegun;
    var less, e := es[..|es| - 1], es[|es| - 1];
    EndingOn(c, es, s);
    LeavingOn(c, es, s);
    LeftIsNoEnd(c, s, e);
    var x := s.worker.outcome;
    var o :| EndedAs(c, less, o) && x == if Ever(c, less, LeftAs(false)) then Failed else o;
    assert EndedAs(c, es, o);
  }

  lemma LeavesOn(c: Config, es: seq<Event>, s: State, t: Worker)
    requires Possible(c, Begin, es) && es != [] && Possible(c, Begin, es[..|es| - 1])
    requires s == After(c, Begin, es[..|es| - 1]) && SessionStep(c, s, es[|es| - 1], t)
    requires SessionTold(c, es[..|es| - 1], s.worker)
    requires s.worker.Leaving?
    ensures SessionTold(c, es, t)
  {
    hide Ever, After, Possible, Ending, EndedAs, NotEnded, NotLeft, LeftOnce, EndsAs, LeftAs, NotBegun;
    var e := es[|es| - 1];
    EndingOn(c, es, s);
    LeavingOn(c, es, s);
    LeftIsNoEnd(c, s, e);
    assert EndedAs(c, es, s.worker.leaves);
  }

  lemma GoesOn(c: Config, es: seq<Event>, s: State, t: Worker)
    requires Possible(c, Begin, es) && es != [] && Possible(c, Begin, es[..|es| - 1])
    requires s == After(c, Begin, es[..|es| - 1]) && SessionStep(c, s, es[|es| - 1], t)
    requires SessionTold(c, es[..|es| - 1], s.worker)
    requires !s.worker.Leaving? && !s.worker.Over?
    ensures SessionTold(c, es, t)
  {
    hide Ever, After, Possible, Ending, EndedAs, NotEnded, NotLeft, LeftOnce, EndsAs, LeftAs, NotBegun;
    var e := es[|es| - 1];
    EndingOn(c, es, s);
    LeavingOn(c, es, s);
    LeftIsNoEnd(c, s, e);
    if Ending(c, s, e).Some? {
      assert EndedAs(c, es, Ending(c, s, e).value);
    }
  }

  lemma SessionOn(c: Config, es: seq<Event>, s: State, t: Worker)
    requires Possible(c, Begin, es) && es != [] && Possible(c, Begin, es[..|es| - 1])
    requires s == After(c, Begin, es[..|es| - 1]) && SessionStep(c, s, es[|es| - 1], t)
    requires SessionTold(c, es[..|es| - 1], s.worker)
    ensures SessionTold(c, es, t)
  {
    if s.worker.Over? {
      OverOn(c, es, s, t);
    } else if s.worker.Leaving? {
      LeavesOn(c, es, s, t);
    } else {
      GoesOn(c, es, s, t);
    }
    hide *;
  }

  lemma LeftIsNoEnd(c: Config, s: State, e: Event)
    ensures e.Left? ==> Ending(c, s, e) == None
    ensures e.WorkerFails? ==> Ending(c, s, e) == Some(Failed)
  {
  }

  /** What the session came to, by the events of the run. */
  lemma {:induction false} WhatTheSessionComesTo(c: Config, es: seq<Event>)
    requires Possible(c, Begin, es)
    ensures SessionTold(c, es, After(c, Begin, es).worker)
    decreases |es|
  {
    if es == [] {
      return;
    }
    hide SessionTold, SessionStep, Next, Enabled, Inv;
    var n := |es| - 1;
    LastStep(c, Begin, es);
    WhatTheSessionComesTo(c, es[..n]);
    var s := After(c, Begin, es[..n]);
    BeginInv(c);
    RunKeeps(c, Begin, es[..n]);
    NoAnswerYet(c, s);
    SessionNext(c, s, es[n]);
    SessionOn(c, es, s, After(c, Begin, es).worker);
  }

  lemma NoAnswerYet(c: Config, s: State)
    requires Inv(c, s)
    ensures s.worker.OwnQuiet? || s.worker.OwnCancel? ==> s.msgs.v.answered.None?
  {
    hide Honest, AnswerLast, OnceOnly, PulseHonest, ResultTrue, Told, CancelKnown;
  }

  // ---- whether the run was cancelled -------------------------------------

  /** The event tries to cancel the live run, and whether it succeeds. */
  ghost function Cancels(s: State, e: Event): Option<bool> {
    match e
    case FirstTurnOver(ok) => if s.msgs.v.answered.Some? then Some(ok && s.runs.live > 0) else None
    case OwnDone(ok) => Some(ok && s.runs.live > 0)
    case WaiterCancel(ok) => Some(ok && s.runs.live > 0)
    case GiveUpCancel(ok) => Some(ok && s.runs.live > 0)
    case _ => None
  }

  ghost function CancelOf(): (State, Event) -> bool {
    (s: State, e: Event) => Cancels(s, e).Some?
  }

  lemma CancelStep(c: Config, s: State, e: Event)
    requires s.msgs.v.Valid() && Enabled(c, s, e)
    ensures var r := Next(c, s, e).runs;
            && (r.cancelled <==> if Cancels(s, e).Some? then Cancels(s, e).value else s.runs.cancelled)
            && (Cancels(s, e) == Some(true) ==> r.target == s.runs.live)
            && (Cancels(s, e) != Some(true) ==> r.target == s.runs.target)
  {
    hide WorkerStep, WorkerCan, ResultOf, EnterQuiet;
    if !e.Pass? && !PulseCan(c, s, e) && !WaiterCan(c, s, e) {
      CancelOfWorker(c, s, e);
    }
  }

  lemma CancelOfWorker(c: Config, s: State, e: Event)
    requires s.msgs.v.Valid() && WorkerCan(c, s, e)
    ensures var r := WorkerStep(c, s, e).runs;
            && (r.cancelled <==> if Cancels(s, e).Some? then Cancels(s, e).value else s.runs.cancelled)
            && (Cancels(s, e) == Some(true) ==> r.target == s.runs.live)
            && (Cancels(s, e) != Some(true) ==> r.target == s.runs.target)
  {
    hide TakePending, Flush, EndThinking, IsBlank, EnterQuiet;
    if e.Taken? {
      TakenRuns(c, s);
    }
  }

  lemma TakenRuns(c: Config, s: State)
    requires s.msgs.pending.Some? && s.msgs.v.Valid()
    ensures TakePending(c, s).runs == s.runs
  {
  }

  /** The run counts as cancelled just when the last that tried to cancel one succeeded, and it is
      the run that was live then. */
  lemma {:induction false} CancelledIs(c: Config, es: seq<Event>) returns (k: nat)
    requires Possible(c, Begin, es)
    ensures var r := After(c, Begin, es).runs;
            && (!Ever(c, es, CancelOf()) ==> !r.cancelled)
            && (Ever(c, es, CancelOf()) ==>
                 && k < |es| && Cancels(At(c, es, k), es[k]) == Some(r.cancelled)
                 && (r.cancelled ==> r.target == At(c, es, k).runs.live)
                 && forall j: nat :: k < j < |es| ==> Cancels(At(c, es, j), es[j]) == None)
    decreases |es|
  {
    hide At, Cancels, Next, Enabled;
    k := 0;
    if es != [] {
      var n := |es| - 1;
      LastStep(c, Begin, es);
      AtLess(c, es);
      EverMore(c, es, CancelOf());
      k := CancelledIs(c, es[..n]);
      CancelStep(c, After(c, Begin, es[..n]), es[n]);
      if Cancels(At(c, es, n), es[n]).Some? {
        k := n;
      }
    }
  }

  // ---- the second turn ---------------------------------------------------

  /** Once a second turn is asked the session comes to an answer, that of the first turn at least,
      unless leaving it fails. */
  ghost predicate SecondStands(s: State) {
    InSecond(s.worker) || s.runs.live == 2 ==>
      match s.worker
      case Leaving(o) => o.Value? && !o.error
      case Over(o) => o == Failed || (o.Value? && !o.error)
      case w => InSecond(w)
  }

  lemma SecondOfWorker(c: Config, s: State, e: Event)
    requires s.msgs.v.Valid() && WorkerCan(c, s, e) && SecondStands(s) && Settled(s)
    requires s.worker.Creating? || s.worker.CheckAgent? || s.worker.Sending? ==> s.runs.live == 0
    ensures SecondStands(WorkerStep(c, s, e))
  {
    hide TakePending, Flush, EndThinking, IsBlank, Cancel, EnterQuiet;
    CancelLive(s.runs);
    if e.Taken? {
      TakenRuns(c, s);
      TakenWorker(c, s);
    }
  }

  lemma CancelLive(r: Runs)
    ensures forall ok :: Cancel(r, ok).live == r.live
  {
  }

  lemma SecondNext(c: Config, s: State, e: Event)
    requires s.msgs.v.Valid() && Enabled(c, s, e) && SecondStands(s) && Settled(s) && Inv(c, s)
    ensures SecondStands(Next(c, s, e))
  {
    hide WorkerStep, WorkerCan, ResultOf, EnterQuiet, Honest, AnswerLast, OnceOnly, PulseHonest, StopTold, ResultTrue, Told;
    CancelLive(s.runs);
    if !e.Pass? && !PulseCan(c, s, e) && !WaiterCan(c, s, e) {
      SecondOfWorker(c, s, e);
    }
  }

  lemma {:induction false} SecondTurnStands(c: Config, es: seq<Event>)
    requires Possible(c, Begin, es)
    ensures SecondStands(After(c, Begin, es))
    decreases |es|
  {
    if es != [] {
      hide SecondStands, Next, Enabled, Inv, ValuesTold;
      var n := |es| - 1;
      LastStep(c, Begin, es);
      SecondTurnStands(c, es[..n]);
      BeginInv(c);
      RunKeeps(c, Begin, es[..n]);
      AllTold(c, es[..n]);
      SettledNow(c, es[..n], After(c, Begin, es[..n]));
      SecondNext(c, After(c, Begin, es[..n]), es[n]);
    }
  }

  lemma SettledNow(c: Config, es: seq<Event>, s: State)
    requires ValuesTold(c, es, s)
    ensures Settled(s)
  {
  }

  // ---- from anywhere it ends ---------------------------------------------

  ghost function WorkerLeft(s: State): nat {
    match s.worker
    case Creating => 14
    case CheckAgent => 13
    case Sending => 12
    case CheckRun => 11
    case Reading(turn) => (if turn == 1 then 9 else 3) + if s.msgs.pending.Some? then 1 else 0
    case AfterRead => 8
    case Waiting => 7
    case CheckWait => 6
    case Second => 5
    case Waiting2 => 2
    case OwnQuiet => 3
    case OwnCancel => 2
    case Leaving(_) => 1
    case Over(_) => 0
  }

  ghost function WaiterLeft(w: Waiter): nat {
    match w
    case Watching => 4
    case Stopping => 3
    case GivingUp => 3
    case Cancelling => 2
    case GaveUp => 2
    case Handling(_) => 1
    case Returned(_) => 0
  }

  ghost function PulseLeft(p: Pulse): nat {
    match p case PulseOver => 0 case Resting => 1 case SawEnded(_) => 2 case SawQuiet(_, _) => 1
  }

  /** The stop has been asked for, or the limit has passed. */
  ghost predicate Urged(c: Config, s: State) {
    s.flags.quietStop || (c.deadline.Some? && c.deadline.value <= s.now)
  }

  /** How many steps there are to the end, at most; those of the session count only while nothing
      urges the wait to end, but for a lock it holds. */
  ghost function StepsLeft(c: Config, s: State): nat {
    WaiterLeft(s.waiter) + PulseLeft(s.pulse)
    + if s.waiter.Watching? && !Urged(c, s) then WorkerLeft(s) else if s.worker.OwnCancel? then 1 else 0
  }

  ghost predicate Done(s: State) {
    s.waiter.Returned? && s.pulse.PulseOver?
  }

  /** What can come next without a failure and without a message. */
  ghost function Forth(c: Config, s: State): Event {
    match s.waiter
    case Returned(_) =>
      (match s.pulse case Resting => PulseDone case SawEnded(_) => LookAway case _ => CloseRun)
    case Handling(_) => Handle
    case Cancelling => WaiterCancel(true)
    case GaveUp => GiveUpCancel(true)
    case GivingUp => GiveUpStop
    case Stopping => if s.flags.lock.None? then WaiterLock else OwnDone(true)
    case Watching =>
      if s.worker.Over? then NoticeOver
      else if s.flags.quietStop then NoticeStop
      else if Urged(c, s) then NoticeDeadline
      else WorkerForth(s)
  }

  ghost function WorkerForth(s: State): Event {
    match s.worker
    case Creating => AgentReady
    case CheckAgent => AgentChecked
    case Sending => RunSent
    case CheckRun => RunChecked
    case Reading(_) => if s.msgs.pending.Some? then Taken else MessagesOver
    case AfterRead => FirstTurnOver(true)
    case OwnQuiet => OwnLock
    case OwnCancel => OwnDone(true)
    case Waiting => RunEnds
    case CheckWait => WaitChecked(false, "", false)
    case Second => SecondSent
    case Waiting2 => SecondOver(false, "")
    case Leaving(_) => Left(true)
    case Over(_) => Look
  }

  lemma LockIs(lock: Option<Actor>)
    ensures lock == None || lock == Some(TheWorker) || lock == Some(TheWaiter)
  {
    if lock.Some? {
      match lock.value
      case TheWorker =>
      case TheWaiter =>
    }
  }

  lemma ForthOfWorker(c: Config, s: State)
    requires Inv(c, s) && Settled(s) && s.waiter.Watching? && !s.worker.Over? && !Urged(c, s)
    ensures WorkerCan(c, s, WorkerForth(s))
    ensures var t := WorkerStep(c, s, WorkerForth(s));
            t.waiter == s.waiter && t.pulse == s.pulse && WorkerLeft(t) < WorkerLeft(s)
    ensures WorkerLeft(s) >= 1 && (s.worker.OwnQuiet? || s.worker.Reading? ==> WorkerLeft(s) >= 2)
  {
    hide Honest, AnswerLast, PulseHonest, StopTold, ResultTrue, Told, CancelKnown, Flush, EndThinking, IsBlank, Cancel, EnterQuiet, TakePending;
    LockIs(s.flags.lock);
    if s.worker.Reading? && s.msgs.pending.Some? {
      TakenAside(c, s);
    }
  }

  lemma TakenAside(c: Config, s: State)
    requires s.msgs.pending.Some? && s.msgs.v.Valid()
    ensures var t := TakePending(c, s);
            t.waiter == s.waiter && t.pulse == s.pulse && t.worker == s.worker && t.msgs.pending == None
  {
  }

  /** Something can come next, and leaves fewer steps to the end. */
  lemma ForthStep(c: Config, s: State)
    requires Inv(c, s) && Settled(s) && !Done(s)
    ensures Enabled(c, s, Forth(c, s)) && StepsLeft(c, Next(c, s, Forth(c, s))) < StepsLeft(c, s)
  {
    hide Honest, AnswerLast, PulseHonest, StopTold, ResultTrue, Told, CancelKnown, ResultOf, Cancel, Flush, EndThinking, IsBlank, TakePending;
    LockIs(s.flags.lock);
    if s.waiter.Watching? && !s.worker.Over? && !Urged(c, s) {
      hide WorkerStep, WorkerCan;
      ForthOfWorker(c, s);
      OwnCancelLeft(WorkerStep(c, s, WorkerForth(s)));
    }
  }

  lemma OwnCancelLeft(s: State)
    ensures s.worker.OwnCancel? ==> WorkerLeft(s) >= 2
  {
  }

  /** No failure, and no message. */
  ghost predicate Smooth(e: Event) {
    && !e.Arrives? && !e.WorkerFails? && !e.SecondFails? && !e.Pass?
    && (e.FirstTurnOver? ==> e.ok) && (e.OwnDone? ==> e.ok) && (e.Left? ==> e.ok)
    && (e.WaiterCancel? ==> e.ok) && (e.GiveUpCancel? ==> e.ok)
  }

  lemma ForthIsSmooth(c: Config, s: State)
    ensures Smooth(Forth(c, s))
  {
  }

  lemma FewSteps(c: Config, s: State)
    requires Settled(s)
    ensures StepsLeft(c, s) <= 20 && (Urged(c, s) ==> StepsLeft(c, s) <= 7)
  {
  }

  /** From wherever a run is, the call can end without a failure, without another message and
      without the time passing, in twenty steps; in seven once it is asked to stop or its limit
      has passed. */
  lemma FromAnywhereItEnds(c: Config, es: seq<Event>) returns (more: seq<Event>)
    requires Possible(c, Begin, es)
    ensures Possible(c, Begin, es + more) && Done(After(c, Begin, es + more))
    ensures forall e :: e in more ==> Smooth(e)
    ensures |more| <= 20 && (Urged(c, After(c, Begin, es)) ==> |more| <= 7)
  {
    hide Forth, StepsLeft, Done, Urged, Next, Enabled, Smooth, Inv, ValuesTold;
    BeginInv(c);
    RunKeeps(c, Begin, es);
    AllTold(c, es);
    SettledNow(c, es, After(c, Begin, es));
    FewSteps(c, After(c, Begin, es));
    more := Finish(c, es);
  }

  lemma Finish(c: Config, es: seq<Event>) returns (more: seq<Event>)
    requires Possible(c, Begin, es)
    ensures Possible(c, Begin, es + more) && Done(After(c, Begin, es + more))
    ensures |more| <= StepsLeft(c, After(c, Begin, es)) && forall e :: e in more ==> Smooth(e)
    decreases StepsLeft(c, After(c, Begin, es))
  {
    hide Forth, StepsLeft, Done, Next, Enabled, Smooth, Inv, ValuesTold;
    var s := After(c, Begin, es);
    if Done(s) {
      assert es + [] == es;
      return [];
    }
    BeginInv(c);
    RunKeeps(c, Begin, es);
    AllTold(c, es);
    SettledNow(c, es, s);
    ForthStep(c, s);
    ForthIsSmooth(c, s);
    InvIsValid(c, s);
    NextKeeps(c, s, Forth(c, s));
    InvIsValid(c, Next(c, s, Forth(c, s)));
    Extend(c, Begin, es, Forth(c, s));
    more := Finish(c, es + [Forth(c, s)]);
    assert es + [Forth(c, s)] + more == es + ([Forth(c, s)] + more);
    more := [Forth(c, s)] + more;
  }

  lemma InvIsValid(c: Config, s: State)
    requires Inv(c, s)
    ensures s.msgs.v.Valid()
  {
  }
}
