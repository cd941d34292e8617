/** One call to the agent: a worker that reads the run's messages, a pulse that watches
    for silence and a waiter with a deadline, all on shared flags. The state machine
    lets their steps interleave in any order; a message arrives in one step and is
    taken in another, and the pulse looks at the flags one step at a time. */
module CallProtocol {
  import opened Text
  import opened Wrappers

  const AFTER_USAGE_QUIET := 20

  // ---- messages and what has been made of them ---------------------------

  /** What a tool call may do: change the tree, carry a plan, or neither. */
  datatype Tool = Edits | Plans(text: string) | Reads
  datatype ToolStatus = Running | Completed | OtherStatus

  datatype Msg =
    | Thinking
    | Assistant(piece: string)
    | ToolCall(id: nat, tool: Tool, status: ToolStatus)
    | Usage(tokens: Option<nat>)
    | OtherMsg(line: string)

  /** What the consumer has gathered. */
  datatype View = View(
    segments: seq<string>, segOpen: bool, plans: map<nat, nat>, answered: Option<string>,
    mark: nat, usages: set<nat>, rerun: bool, toolsDone: bool, running: set<nat>)
  {
    ghost predicate Valid() {
      && mark <= |segments| && (segOpen ==> segments != [])
      && forall id :: id in plans ==> plans[id] < |segments|
    }

    /** The consumer has returned: the answer came, or the request ran again. */
    predicate Ended() {
      answered.Some? || rerun
    }
  }

  const NoView := View([], false, map[], None, 0, {}, false, false, {})

  /** Is a text a whole answer? None when the call wants no particular answer. */
  type Complete = Option<string -> bool>

  /** The last of the texts that is a whole answer. */
  function Newest(texts: seq<string>, accepts: string -> bool): (r: Option<string>)
    ensures r.Some? ==> r.value in texts && accepts(r.value)
    ensures r.None? ==> forall t :: t in texts ==> !accepts(t)
  {
    if texts == [] then None
    else if accepts(texts[|texts| - 1]) then Some(texts[|texts| - 1])
    else Newest(texts[..|texts| - 1], accepts)
  }

  lemma {:induction false} NewestIs(texts: seq<string>, accepts: string -> bool) returns (k: nat)
    ensures match Newest(texts, accepts)
            case None => forall j :: 0 <= j < |texts| ==> !accepts(texts[j])
            case Some(t) => k < |texts| && texts[k] == t && accepts(t) && forall j :: k < j < |texts| ==> !accepts(texts[j])
  {
    if texts == [] {
      k := 0;
    } else if accepts(texts[|texts| - 1]) {
      k := |texts| - 1;
    } else {
      k := NewestIs(texts[..|texts| - 1], accepts);
    }
  }

  /** The answers a usage line is asked about: those since the last one, or the last. */
  function Asked(v: View): seq<string>
    requires v.mark <= |v.segments|
  {
    if v.mark < |v.segments| then v.segments[v.mark..]
    else if v.segments != [] then v.segments[|v.segments| - 1..]
    else []
  }

  function TakePiece(v: View, piece: string): View
    requires v.Valid()
  {
    if piece == "" then v
    else if v.segOpen then
      v.(segments := v.segments[..|v.segments| - 1] + [v.segments[|v.segments| - 1] + piece])
    else v.(segments := v.segments + [piece], segOpen := true)
  }

  function TakeTool(v: View, id: nat, tool: Tool, status: ToolStatus): View
    requires v.Valid()
  {
    var w := v.(segOpen := false,
                toolsDone := v.toolsDone || (status.Completed? && tool.Edits?),
                running := if status.Running? then v.running + {id} else v.running - {id});
    if !tool.Plans? || IsBlank(tool.text) then w
    else if id in w.plans then w.(segments := w.segments[w.plans[id] := tool.text])
    else w.(plans := w.plans[id := |w.segments|], segments := w.segments + [tool.text])
  }

  function TakeUsage(v: View, tokens: Option<nat>, complete: Complete): View
    requires v.Valid()
  {
    var again := tokens.Some? && tokens.value in v.usages;
    var w := v.(segOpen := false, usages := v.usages + if tokens.Some? then {tokens.value} else {});
    var found := if complete.Some? && v.answered.None? then Newest(Asked(v), complete.value) else None;
    if found.Some? then w.(answered := found)
    else w.(mark := |v.segments|, rerun := v.rerun || (again && v.answered.None?))
  }

  /** What one message does to what has been gathered. */
  function Take(v: View, m: Msg, complete: Complete): (w: View)
    requires v.Valid()
    ensures w.Valid()
  {
    match m
    case Thinking => v.(segOpen := false)
    case Assistant(piece) => TakePiece(v, piece)
    case ToolCall(id, tool, status) => TakeTool(v, id, tool, status)
    case Usage(tokens) => TakeUsage(v, tokens, complete)
    case OtherMsg(_) => v.(segOpen := false)
  }

  /** What has been gathered from messages in their order. */
  function Gathered(done: seq<Msg>, complete: Complete): (v: View)
    ensures v.Valid()
  {
    if done == [] then NoView else Take(Gathered(done[..|done| - 1], complete), done[|done| - 1], complete)
  }

  // ---- the three actors --------------------------------------------------

  /** What the call is asked for; `followup` when a second turn may be sent. */
  datatype Config = Config(complete: Complete, deadline: Option<nat>, quiet: nat, followup: bool)

  datatype Worker =
    | Creating | CheckAgent | Sending | CheckRun
    | Reading(turn: nat)
    | AfterRead                      // the first turn's messages are over
    | OwnQuiet | OwnCancel           // ending a re-run itself, lock held from OwnCancel on
    | Waiting | CheckWait | Second | Waiting2
    | Leaving(leaves: Outcome)       // out of the session, which is being closed
    | Over(outcome: Outcome)

  datatype Outcome = Value(error: bool, text: string) | RaisedQuiet | Abandoned | Failed

  /** The pulse between two looks; having read that the turn had ended when `seen` messages
      had come; having read as well, when `checked` had been taken, that an editing tool had
      completed and none was running; gone. */
  datatype Pulse = Resting | SawEnded(seen: nat) | SawQuiet(seen: nat, checked: nat) | PulseOver

  datatype Waiter =
    | Watching
    | Stopping | Cancelling          // went_quiet: before the lock, and inside it
    | GivingUp | GaveUp              // the limit passed; the stop is told, then the run is cancelled
    | Handling(how: How)
    | Returned(result: Result)

  datatype How = ByValue(error: bool, text: string) | ByQuiet | ByTimeout | ByFailure(abandoned: bool)

  datatype Result =
    | Answered(text: string)
    | Quiet(text: string)
    | Timeout(text: string)
    | Finished(text: string)
    | EndedInError(text: string)
    | Raised(abandoned: bool)

  datatype Actor = TheWorker | TheWaiter

  /** When the run was closed for silence: how many messages had come when the pulse read
      that the turn had ended, how many had been taken when it looked at the tools, and how
      many had come and been taken when it closed the run. */
  datatype Closing = Closing(seen: nat, checked: nat, came: nat, taken: nat)

  /** The messages that have come, the one not yet taken, and what was gathered. */
  datatype Messages = Messages(v: View, done: seq<Msg>, pending: Option<Msg>, heard: bool, ended: bool)
  {
    /** Every message that has come. */
    function Log(): seq<Msg> {
      done + if pending.Some? then [pending.value] else []
    }
  }

  /** The words said so far, when the run last gave a sign of life, and whether it is thinking. */
  datatype Words = Words(said: string, transcript: seq<string>, raw: string, lastAt: nat, thinking: bool)

  /** The flags that stop a run. `closed`, `silent` and `bodies` only record what happened. */
  datatype Flags = Flags(stopped: bool, quietStop: bool, closed: Option<Closing>, silent: bool,
                         quietHandled: bool, bodies: nat, lock: Option<Actor>)

  /** The run that can be cancelled; `target` records the one the last confirmed cancel was for.
      `first` is what the first run gave, kept while a second is asked. */
  datatype Runs = Runs(live: nat, cancelled: bool, target: nat, first: string)

  datatype State = State(now: nat, msgs: Messages, words: Words, flags: Flags, runs: Runs,
                         worker: Worker, pulse: Pulse, waiter: Waiter)

  const Begin := State(0, Messages(NoView, [], None, false, false), Words("", [], "", 0, false),
                       Flags(false, false, None, false, false, 0, None), Runs(0, false, 0, ""),
                       Creating, Resting, Watching)

  // ---- what is said ------------------------------------------------------

  function DropSpaces(s: string): string {
    if s != "" && s[|s| - 1] == ' ' then DropSpaces(s[..|s| - 1]) else s
  }

  /** The gathered words are said whole: kept in the transcript when they are not blank.
      What is said after the stop is no sign of life. */
  function Flush(w: Words, now: nat, stopped: bool): Words {
    if IsBlank(w.said) then w.(said := "")
    else w.(transcript := w.transcript + [Strip(w.said)], said := "", lastAt := if stopped then w.lastAt else now)
  }

  /** A line is said, which is a sign of life before the stop. */
  function Say(w: Words, now: nat, stopped: bool): Words {
    if stopped then w else w.(lastAt := now)
  }

  /** The thinking is over, and how long it took is said. */
  function EndThinking(w: Words, now: nat, stopped: bool): Words {
    if w.thinking then Say(w, now, stopped).(thinking := false) else w
  }

  /** A tool call said to be running is said to be running again: it is no news. */
  predicate Repeats(v: View, m: Msg) {
    m.ToolCall? && m.status.Running? && m.id in v.running
  }

  /** Is there a line for the message? A plan always has one. */
  predicate HasLine(m: Msg, again: bool) {
    match m
    case OtherMsg(line) => line != ""
    case ToolCall(_, tool, _) => !again || (tool.Plans? && !IsBlank(tool.text))
    case _ => true
  }

  /** What taking a message does to the words and to the last sign of life. */
  function Hear(w: Words, m: Msg, again: bool, now: nat, stopped: bool): Words {
    if m.Thinking? then Flush(w, now, stopped).(lastAt := now, thinking := true)
    else
      var v := EndThinking(w, now, stopped);
      if m.Assistant? then
        if m.piece == "" then v
        else
          var t := v.(said := v.said + m.piece, raw := v.raw + m.piece, lastAt := now);
          if EndsWith(DropSpaces(t.said), "\n\n") || |t.said| > 1500 then Flush(t, now, stopped) else t
      else
        var t := Flush(v, now, stopped);
        if HasLine(m, again) then Say(t, now, stopped) else t
  }

  /** The words kept for a run that is ended from outside. */
  function Parts(w: Words): seq<string> {
    w.transcript + if IsBlank(w.said) then [] else [Strip(w.said)]
  }

  /** The answer kept for such a run: the last whole one, else the last one written. */
  function BestAnswer(v: View, raw: string, complete: Complete): string {
    var whole := if complete.Some? then Newest(v.segments, complete.value) else None;
    if whole.Some? then Strip(whole.value)
    else
      var last := if v.segments != [] then Strip(v.segments[|v.segments| - 1]) else "";
      if last != "" then last else Strip(raw)
  }

  function Paragraphs(parts: seq<string>): string {
    if parts == [] then "" else if |parts| == 1 then parts[0] else parts[0] + "\n\n" + Paragraphs(parts[1..])
  }

  function KeptText(c: Config, v: View, w: Words): string {
    var best := BestAnswer(v, w.raw, c.complete);
    if best != "" then best else Paragraphs(Parts(w))
  }

  // ---- the steps ---------------------------------------------------------

  datatype Event =
    | Pass(seconds: nat)
    // the worker
    | AgentReady | AgentChecked | RunSent | RunChecked | WorkerFails
    | Arrives(m: Msg) | Taken | MessagesOver
    | FirstTurnOver(ok: bool)
    | OwnLock | OwnDone(ok: bool)
    | RunEnds | WaitChecked(error: bool, text: string, again: bool)
    | SecondSent | SecondOver(error: bool, text: string) | SecondFails | Left(ok: bool)
    // the pulse
    | Look | CheckTools | CloseRun | LookAway | PulseDone
    // the waiter
    | NoticeStop | NoticeDeadline | NoticeOver
    | WaiterLock | WaiterCancel(ok: bool) | GiveUpStop | GiveUpCancel(ok: bool)
    | Handle

  function WorkerCan(c: Config, s: State, e: Event): bool {
    var idle := s.msgs.pending.None?;
    match e
    case AgentReady => s.worker.Creating?
    case AgentChecked => s.worker.CheckAgent?
    case RunSent => s.worker.Sending?
    case RunChecked => s.worker.CheckRun?
    case WorkerFails =>
      idle && (s.worker.Creating? || s.worker.Sending? || s.worker == Reading(1) || s.worker.AfterRead?
               || s.worker.Waiting? || s.worker.CheckWait?)
    case Arrives(_) => s.worker.Reading? && idle && !s.msgs.v.Ended()
    case Taken => s.worker.Reading? && !idle
    case MessagesOver => s.worker.Reading? && idle
    case FirstTurnOver(_) => s.worker.AfterRead?
    case OwnLock => s.worker.OwnQuiet? && s.flags.lock.None?
    case OwnDone(_) => s.worker.OwnCancel?
    case RunEnds => s.worker.Waiting?
    case WaitChecked(_, _, _) => s.worker.CheckWait?
    case SecondSent => s.worker.Second?
    case Left(_) => s.worker.Leaving?
    case SecondOver(_, _) => s.worker.Waiting2?
    case SecondFails => s.worker.Second? || s.worker.Waiting2? || (s.worker == Reading(2) && idle)
    case _ => false
  }

  function PulseCan(c: Config, s: State, e: Event): bool {
    match e
    case Look => s.pulse.Resting? && !s.waiter.Returned?
    case CheckTools => s.pulse.SawEnded? && c.complete.None? && s.msgs.v.toolsDone && s.msgs.v.running == {}
    case CloseRun => s.pulse.SawQuiet?
    case LookAway => s.pulse.SawEnded?
    case PulseDone => s.waiter.Returned? && s.pulse.Resting?
    case _ => false
  }

  function WaiterCan(c: Config, s: State, e: Event): bool {
    match e
    case NoticeStop => s.waiter.Watching? && s.flags.quietStop && !s.worker.Over?
    case NoticeDeadline => s.waiter.Watching? && c.deadline.Some? && c.deadline.value <= s.now && !s.worker.Over?
    case NoticeOver => s.waiter.Watching? && s.worker.Over?
    case WaiterLock => s.waiter.Stopping? && s.flags.lock.None?
    case WaiterCancel(_) => s.waiter.Cancelling?
    case GiveUpStop => s.waiter.GivingUp?
    case GiveUpCancel(_) => s.waiter.GaveUp?
    case Handle => s.waiter.Handling?
    case _ => false
  }

  function Enabled(c: Config, s: State, e: Event): bool {
    e.Pass? || WorkerCan(c, s, e) || PulseCan(c, s, e) || WaiterCan(c, s, e)
  }

  /** The live run is cancelled, when there is one and it can be. */
  function Cancel(r: Runs, ok: bool): Runs {
    if ok && r.live > 0 then r.(cancelled := true, target := r.live) else r.(cancelled := false)
  }

  /** The quiet handler is entered: its body runs once, under the lock. */
  function EnterQuiet(f: Flags, actor: Actor): Flags {
    f.(lock := Some(actor), quietHandled := true, bodies := f.bodies + 1, stopped := true)
  }

  /** The consumer takes the message that had come. */
  function TakePending(c: Config, s: State): State
    requires s.msgs.pending.Some? && s.msgs.v.Valid()
  {
    var m := s.msgs.pending.value;
    var v := Take(s.msgs.v, m, c.complete);
    s.(msgs := s.msgs.(v := v, done := s.msgs.done + [m], pending := None),
       words := Hear(s.words, m, Repeats(s.msgs.v, m), s.now, s.flags.stopped),
       flags := s.flags.(quietStop := s.flags.quietStop || v.Ended()))
  }

  function WorkerStep(c: Config, s: State, e: Event): State
    requires WorkerCan(c, s, e) && s.msgs.v.Valid()
  {
    match e
    case AgentReady => s.(worker := CheckAgent)
    case AgentChecked => s.(worker := if s.flags.stopped then Leaving(Abandoned) else Sending)
    case RunSent => s.(runs := s.runs.(live := 1), worker := CheckRun)
    case RunChecked =>
      s.(words := Say(s.words, s.now, s.flags.stopped), worker := if s.flags.stopped then Leaving(Abandoned) else Reading(1))
    case WorkerFails => s.(worker := if s.worker.Creating? then Over(Failed) else Leaving(Failed))
    case Arrives(m) => s.(msgs := s.msgs.(pending := Some(m), heard := true, ended := m.Usage?))
    case Taken => TakePending(c, s)
    case MessagesOver =>
      s.(words := if s.msgs.v.Ended() then s.words else Flush(EndThinking(s.words, s.now, s.flags.stopped), s.now, s.flags.stopped),
         worker := if s.worker.turn == 1 then AfterRead else Waiting2)
    case FirstTurnOver(ok) =>
      var v := s.msgs.v;
      if v.rerun && v.answered.None? then s.(worker := OwnQuiet)
      else if v.answered.Some? then s.(runs := Cancel(s.runs, ok), worker := Leaving(Value(false, v.answered.value)))
      else s.(worker := Waiting)
    case OwnLock =>
      if s.flags.quietHandled then s.(worker := Leaving(RaisedQuiet))
      else s.(flags := EnterQuiet(s.flags, TheWorker), worker := OwnCancel)
    case OwnDone(ok) =>
      s.(runs := Cancel(s.runs, ok), flags := s.flags.(lock := None), worker := Leaving(RaisedQuiet))
    case RunEnds => s.(worker := CheckWait)
    case WaitChecked(error, text, again) =>
      if s.flags.stopped then s.(worker := Leaving(Abandoned))
      else if c.followup && again && !error then
        s.(words := Say(s.words, s.now, false), runs := s.runs.(first := text), worker := Second)
      else s.(worker := Leaving(Value(error, text)))
    case SecondSent => s.(runs := s.runs.(live := 2), words := s.words.(raw := ""), worker := Reading(2))
    // The first answer stands unless the second turn gives one.
    case SecondOver(error, text) =>
      s.(worker := Leaving(Value(false, if !error && !IsBlank(text) then text else s.runs.first)))
    case SecondFails =>
      s.(words := Say(s.words, s.now, s.flags.stopped), worker := Leaving(Value(false, s.runs.first)))
    // A failure on the way out takes the place of what the session came to.
    case Left(ok) => s.(worker := Over(if ok then s.worker.leaves else Failed))
  }

  function PulseStep(c: Config, s: State, e: Event): State
    requires PulseCan(c, s, e)
  {
    match e
    case Look =>
      if s.flags.stopped then s
      else if c.quiet > 0 && s.msgs.heard && s.now - s.words.lastAt >= c.quiet
      then s.(flags := s.flags.(silent := true, quietStop := true), pulse := PulseOver)
      else if s.msgs.ended && s.now - s.words.lastAt >= AFTER_USAGE_QUIET
      then s.(pulse := SawEnded(|s.msgs.Log()|))
      else s
    case CheckTools => s.(pulse := SawQuiet(s.pulse.seen, |s.msgs.done|))
    // Two assignments; between them `closed` is read only for a line of the log.
    case CloseRun =>
      var at := Closing(s.pulse.seen, s.pulse.checked, |s.msgs.Log()|, |s.msgs.done|);
      s.(flags := s.flags.(closed := Some(at), quietStop := true), pulse := PulseOver)
    case LookAway => s.(pulse := Resting)
    case PulseDone => s.(pulse := PulseOver)
  }

  /** What the caller gets: a whole answer whenever there is one. */
  function ResultOf(c: Config, s: State, how: How): Result {
    var v := s.msgs.v;
    if v.answered.Some? then Answered(Strip(v.answered.value))
    else match how
      case ByQuiet => Quiet(KeptText(c, v, s.words))
      case ByTimeout => if Parts(s.words) != [] && s.runs.cancelled then Timeout(KeptText(c, v, s.words)) else Raised(false)
      case ByFailure(abandoned) => Raised(abandoned)
      case ByValue(error, text) =>
        if !error then Finished(text)
        else
          var best := BestAnswer(v, s.words.raw, c.complete);
          var kept := if IsBlank(text) && c.complete.Some? && best != "" && c.complete.value(best) then best else text;
          if IsBlank(kept) then Raised(false)
          else EndedInError(if best != "" then best else kept)
  }

  function HowOver(o: Outcome): How {
    match o
    case Value(error, text) => ByValue(error, text)
    case RaisedQuiet => ByQuiet
    case Abandoned => ByFailure(true)
    case Failed => ByFailure(false)
  }

  function WaiterStep(c: Config, s: State, e: Event): State
    requires WaiterCan(c, s, e)
  {
    match e
    case NoticeStop => s.(waiter := Stopping)
    case NoticeDeadline => s.(waiter := if s.flags.quietStop then Stopping else GivingUp)
    case NoticeOver => s.(waiter := Handling(HowOver(s.worker.outcome)))
    case WaiterLock =>
      if s.flags.quietHandled then s.(waiter := Handling(ByQuiet))
      else s.(flags := EnterQuiet(s.flags, TheWaiter), waiter := Cancelling)
    case WaiterCancel(ok) =>
      s.(runs := Cancel(s.runs, ok), flags := s.flags.(lock := None), waiter := Handling(ByQuiet))
    case GiveUpStop => s.(flags := s.flags.(stopped := true), waiter := GaveUp)
    case GiveUpCancel(ok) => s.(runs := Cancel(s.runs, ok), waiter := Handling(ByTimeout))
    case Handle => s.(waiter := Returned(ResultOf(c, s, s.waiter.how)))
  }

  function Next(c: Config, s: State, e: Event): State
    requires Enabled(c, s, e) && s.msgs.v.Valid()
  {
    if e.Pass? then s.(now := s.now + e.seconds)
    else if PulseCan(c, s, e) then PulseStep(c, s, e)
    else if WaiterCan(c, s, e) then WaiterStep(c, s, e)
    else WorkerStep(c, s, e)
  }
}
