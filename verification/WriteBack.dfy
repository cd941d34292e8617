/** Writing one reason back to the tracker: refused unless everything still stands, sent
    at most once and only after the attempt is logged, and recorded as what was read back. */
module WriteBack {
  import opened Text
  import opened Wrappers

  /** What the field can hold. */
  datatype Value = Empty | One(text: string) | Several(texts: seq<string>)

  /** The value as text: stripped, and several joined. */
  function ReasonOf(v: Value): string {
    match v
    case Empty => ""
    case One(t) => Strip(t)
    case Several(ts) => Joined(ts)
  }

  /** Two texts with a comma between, unless one of them is empty. */
  function With(s: string, t: string): string {
    if s == "" then t else if t == "" then s else s + ", " + t
  }

  function Joined(ts: seq<string>): string {
    if ts == [] then "" else With(Strip(ts[0]), Joined(ts[1..]))
  }

  /** One value is said as it is stripped. */
  lemma JoinedOne(t: string)
    ensures Joined([t]) == Strip(t)
  {
    hide Strip;
    assert [t][1..] == [];
  }

  /** Wherever several values are parted, what they say is what both parts say with a comma
      between; a part that says nothing is left out, and so is its comma. */
  lemma {:induction false} JoinedApart(a: seq<string>, b: seq<string>)
    ensures Joined(a + b) == if Joined(a) == "" then Joined(b)
                             else if Joined(b) == "" then Joined(a) else Joined(a) + ", " + Joined(b)
  {
    hide With, Strip;
    if a == [] {
      assert a + b == b;
    } else {
      JoinedApart(a[1..], b);
      assert (a + b)[1..] == a[1..] + b && (a + b)[0] == a[0];
      WithIs(Joined(a[1..]), Joined(b));
      WithOthers(Strip(a[0]), Joined(a[1..]), Joined(b));
      WithIs(Joined(a), Joined(b));
    }
  }

  lemma WithIs(s: string, t: string)
    ensures With(s, t) == if s == "" then t else if t == "" then s else s + ", " + t
  {
  }

  lemma WithOthers(s: string, t: string, u: string)
    ensures With(s, With(t, u)) == With(With(s, t), u)
  {
    if s != "" && t != "" && u != "" {
      var comma := ", ";
      assert s + comma + (t + comma + u) == s + comma + t + comma + u;
    }
  }

  // ---- what can happen outside -------------------------------------------

  /** How a request ended: done, or failed with a status (0 when nothing answered). */
  datatype Reply = Done | Failed(status: nat)
  datatype Line = Attempt | SaidNo | Unconfirmed | NotReadBack | Written | NotKept

  /** Everything this command does to the world, in order. `applied` tells whether a write
      reached the defect; the command does not see it. */
  datatype Action =
    | Saw(value: Value)
    | Unseen(status: nat)
    | Logged(line: Line, ok: bool)
    | Sent(value: Value, applied: bool, reply: Reply)

  /** The tracker and the log of writes. Others may change the defect between any two
      requests; a request may fail, and a write whose reply is lost may have been applied.
      A status from 400 to 499 is the tracker's own no: nothing was changed. */
  class World {
    var held: Value
    ghost var trace: seq<Action>

    constructor (held: Value)
      ensures trace == []
    {
      this.held := held;
      trace := [];
    }

    method ReadField() returns (r: Reply, value: Value)
      modifies this
      ensures trace == old(trace) + [if r.Done? then Saw(value) else Unseen(r.status)]
      ensures r.Done? ==> value == held
    {
      OthersMayChange();
      value := held;
      if * {
        r := Done;
      } else {
        var status: nat := *;
        r := Failed(status);
      }
      trace := trace + [if r.Done? then Saw(value) else Unseen(r.status)];
    }

    method WriteField(value: Value) returns (r: Reply)
      modifies this
      ensures exists applied :: trace == old(trace) + [Sent(value, applied, r)]
                                && (Refusing(r) ==> !applied)
    {
      OthersMayChange();
      var applied: bool := *;
      var status: nat := *;
      if * {
        r := Done;
      } else {
        r := Failed(status);
        if Refusing(r) {
          applied := false;
        }
      }
      if applied {
        held := value;
      }
      trace := trace + [Sent(value, applied, r)];
    }

    method Log(line: Line) returns (ok: bool)
      modifies this
      ensures trace == old(trace) + [Logged(line, ok)]
    {
      ok := *;
      trace := trace + [Logged(line, ok)];
    }

    method OthersMayChange()
      modifies this`held
    {
      held := *;
    }
  }

  /** The tracker answered, and the answer was no. */
  predicate Refusing(r: Reply) {
    r.Failed? && 400 <= r.status < 500
  }

  // ---- the defect and the request ----------------------------------------

  /** What is recorded of a write: `ok` is None when it was not confirmed. */
  datatype Applied = Applied(reason: string, was: string, holds: string, ok: Option<bool>)

  datatype Flag = NoFlag | Agrees | Differs | Other(text: string)

  class Defect {
    const key: string
    const kind: string
    var current: string
    var suggested: string
    var byMock: bool
    var flag: Flag
    var applied: Option<Applied>

    constructor (key: string, kind: string, current: string)
      ensures this.key == key && this.kind == kind && this.current == current && applied == None
    {
      this.key, this.kind, this.current := key, kind, current;
      suggested, byMock, flag, applied := "", false, NoFlag, None;
    }
  }

  datatype Shape = Shape(editable: bool, allowed: seq<string>, kind: Kind)
  datatype Kind = OptionField | OptionArray | TextField | StrangeField

  /** What the command is run with: the settings, what the job loaded, and what the tracker
      says of the field before anything is written. */
  datatype Request = Request(
    writeBack: bool, key: string, keyIsGood: bool, confirm: string,
    loadedReasons: seq<string>, settingsReasons: seq<string>, issueType: string,
    loadedFromMock: bool, nowMock: bool, fieldIsTheLoadedOne: bool, shape: Shape, lower: string -> string)

  datatype Why =
    | WritingIsOff | NotAKey | NotConfirmed | NotLoaded | NotAReason | WrongType | OtherTracker | MockSuggestion
    | OtherField | NotEditable | NotAllowed | UnknownKind | ChangedSince | HoldsSeveral

  datatype Result = Refused(why: Why) | TrackerFailed(status: nat) | Recorded(ok: Option<bool>)

  /** The first thing that speaks against the write, before the defect is read again. */
  function Objection(q: Request, target: Defect?, reason: string): (w: Option<Why>)
    requires target != null ==> target.key == q.key
    reads target
    ensures w.None? ==> target != null
  {
    if !q.writeBack then Some(WritingIsOff)
    else if !q.keyIsGood then Some(NotAKey)
    else if q.confirm != q.key then Some(NotConfirmed)
    else if target == null then Some(NotLoaded)
    else if reason !in q.loadedReasons || (q.settingsReasons != [] && reason !in q.settingsReasons) then Some(NotAReason)
    else if q.lower(Strip(target.kind)) != q.lower(q.issueType) then Some(WrongType)
    else if q.loadedFromMock != q.nowMock then Some(OtherTracker)
    else if !q.nowMock && target.byMock && reason == target.suggested then Some(MockSuggestion)
    else if !q.fieldIsTheLoadedOne then Some(OtherField)
    else if !q.shape.editable then Some(NotEditable)
    else if q.shape.allowed != [] && reason !in q.shape.allowed then Some(NotAllowed)
    else if q.shape.kind.StrangeField? then Some(UnknownKind)
    else None
  }

  /** All that must hold before a reason is written: writing is on, the key is confirmed and
      loaded, the reason is allowed by the job, the settings and the tracker, the issue type,
      the tracker and the field are those loaded, and the stand-in did not suggest it. */
  ghost predicate MayWrite(q: Request, target: Defect, reason: string)
    reads target
  {
    && q.writeBack && q.keyIsGood && q.confirm == q.key == target.key
    && reason in q.loadedReasons && (q.settingsReasons == [] || reason in q.settingsReasons)
    && (q.shape.allowed == [] || reason in q.shape.allowed)
    && q.lower(Strip(target.kind)) == q.lower(q.issueType)
    && q.loadedFromMock == q.nowMock && q.fieldIsTheLoadedOne && q.shape.editable && !q.shape.kind.StrangeField?
    && (target.byMock && reason == target.suggested ==> q.nowMock)
  }

  /** The order things are looked at in; the last two only once the defect is read again. */
  ghost function Place(w: Why): nat
  {
    match w
    case WritingIsOff => 0
    case NotAKey => 1
    case NotConfirmed => 2
    case NotLoaded => 3
    case NotAReason => 4
    case WrongType => 5
    case OtherTracker => 6
    case MockSuggestion => 7
    case OtherField => 8
    case NotEditable => 9
    case NotAllowed => 10
    case UnknownKind => 11
    case ChangedSince => 12
    case HoldsSeveral => 13
  }

  /** What each refusal says of the request and the defect. */
  ghost predicate SpeaksAgainst(w: Why, q: Request, target: Defect?, reason: string)
    reads target
  {
    match w
    case WritingIsOff => !q.writeBack
    case NotAKey => !q.keyIsGood
    case NotConfirmed => q.confirm != q.key
    case NotLoaded => target == null
    case NotAReason => !(reason in q.loadedReasons && (|q.settingsReasons| > 0 ==> reason in q.settingsReasons))
    case WrongType => target != null && q.lower(Strip(target.kind)) != q.lower(q.issueType)
    case OtherTracker => !(q.loadedFromMock <==> q.nowMock)
    case MockSuggestion => target != null && target.byMock && reason == target.suggested && !q.nowMock
    case OtherField => !q.fieldIsTheLoadedOne
    case NotEditable => !q.shape.editable
    case NotAllowed => |q.shape.allowed| > 0 && reason !in q.shape.allowed
    case UnknownKind => q.shape.kind == StrangeField
    case _ => false
  }

  /** Nothing is objected to if and only if the defect is loaded and the reason may be written. */
  lemma NoObjectionIffMayWrite(q: Request, target: Defect?, reason: string)
    requires target != null ==> target.key == q.key
    ensures Objection(q, target, reason) == None <==> target != null && MayWrite(q, target, reason)
  {
    hide Strip;
  }

  lemma ObjectionSpeaks(q: Request, target: Defect?, reason: string)
    requires target != null ==> target.key == q.key
    requires Objection(q, target, reason).Some?
    ensures SpeaksAgainst(Objection(q, target, reason).value, q, target, reason)
  {
    hide Strip;
  }

  lemma ObjectionIsNoLater(q: Request, target: Defect?, reason: string, v: Why)
    requires target != null ==> target.key == q.key
    requires SpeaksAgainst(v, q, target, reason)
    ensures Objection(q, target, reason).Some? && Place(Objection(q, target, reason).value) <= Place(v)
  {
    hide Strip;
  }

  /** What is given for a refusal is the first, in the stated order, of all that speaks against
      the write. */
  lemma ObjectionIsFirst(q: Request, target: Defect?, reason: string, w: Why)
    requires target != null ==> target.key == q.key
    ensures Objection(q, target, reason) == Some(w) <==>
              && SpeaksAgainst(w, q, target, reason)
              && forall v :: SpeaksAgainst(v, q, target, reason) ==> Place(w) <= Place(v)
  {
    hide *;
    var o := Objection(q, target, reason);
    if o.Some? {
      ObjectionSpeaks(q, target, reason);
    }
    forall v | SpeaksAgainst(v, q, target, reason)
      ensures o.Some? && Place(o.value) <= Place(v)
    {
      ObjectionIsNoLater(q, target, reason, v);
    }
    if o.Some? && Place(o.value) == Place(w) {
      OnePlace(o.value, w);
    }
  }

  lemma OnePlace(v: Why, w: Why)
    requires Place(v) == Place(w)
    ensures v == w
  {
  }

  function ValueFor(kind: Kind, reason: string): Value {
    if kind.OptionArray? then Several([reason]) else One(reason)
  }

  // ---- what a run must look like -----------------------------------------

  /** A write is sent at most once, right after its attempt was logged, and that right after
      the defect was seen to hold the one value it was loaded with. */
  ghost predicate SentSafely(t: seq<Action>, loaded: string) {
    forall i :: 0 <= i < |t| && t[i].Sent? ==>
      && i >= 2 && t[i - 1].Logged? && t[i - 1].line == Attempt
      && t[i - 2].Saw? && ReasonOf(t[i - 2].value) == loaded
      && !(t[i - 2].value.Several? && |t[i - 2].value.texts| > 1)
      && forall j :: 0 <= j < |t| && t[j].Sent? ==> j == i
  }

  ghost predicate WasSent(t: seq<Action>) {
    exists i :: 0 <= i < |t| && t[i].Sent?
  }

  ghost predicate WasApplied(t: seq<Action>) {
    exists i :: 0 <= i < |t| && t[i].Sent? && t[i].applied
  }

  /** The last thing seen after the write. */
  ghost predicate ReadBack(t: seq<Action>, value: Value) {
    exists i, j :: 0 <= i < j < |t| && t[i].Sent? && t[i].reply == Done && t[j] == Saw(value)
                   && forall k :: j < k < |t| ==> !t[k].Saw?
  }

  predicate Same(lower: string -> string, a: string, b: string) {
    lower(Strip(a)) == lower(b)
  }

  // ---- the shapes a run can have -----------------------------------------

  predicate HoldsMany(v: Value) {
    v.Several? && |v.texts| > 1
  }

  /** A run of a write that may be made: the field is read first, and the write is sent if and
      only if that went well and the field still holds the one value loaded. */
  ghost predicate Carried(t: seq<Action>, loaded: string, result: Result) {
    && |t| > 0 && (t[0].Saw? || t[0].Unseen?)
    && (WasSent(t) <==> t[0].Saw? && ReasonOf(t[0].value) == loaded && !HoldsMany(t[0].value))
    && (result.Refused? <==> t[0].Saw? && !WasSent(t))
    && (result == Refused(ChangedSince) <==> t[0].Saw? && ReasonOf(t[0].value) != loaded)
  }

  /** The defect was seen as loaded, the attempt was logged, the write of `value` was sent. */
  ghost predicate Begun(t: seq<Action>, loaded: string, value: Value) {
    && |t| >= 3 && t[0].Saw? && ReasonOf(t[0].value) == loaded && !HoldsMany(t[0].value)
    && t[1].Logged? && t[1].line == Attempt && t[2].Sent? && t[2].value == value && (Refusing(t[2].reply) ==> !t[2].applied)
  }

  ghost predicate Shaped(t: seq<Action>, loaded: string, value: Value, result: Result) {
    match result
    case Refused(_) => t == [] || (|t| == 1 && t[0].Saw? && (ReasonOf(t[0].value) != loaded || HoldsMany(t[0].value)))
    case TrackerFailed(status) =>
      || t == [Unseen(status)]
      || (|t| == 4 && Begun(t, loaded, value) && t[2].reply == Failed(status) && Refusing(t[2].reply)
          && t[3].Logged? && t[3].line == SaidNo)
    case Recorded(None) =>
      && Begun(t, loaded, value)
      && ((|t| == 4 && t[2].reply.Failed? && !Refusing(t[2].reply) && t[3].Logged? && t[3].line == Unconfirmed)
         || (|t| == 5 && t[2].reply == Done && t[3].Unseen? && t[4].Logged? && t[4].line == NotReadBack))
    case Recorded(Some(took)) =>
      && |t| == 5 && Begun(t, loaded, value) && t[2].reply == Done && t[3].Saw?
      && t[4].Logged? && t[4].line == if took then Written else NotKept
  }

  /** Whatever the tracker does: at most one write, right after its attempt was logged and the
      defect was seen as loaded; a run that ends as a refusal or a failure applied nothing; a
      run that recorded an answer read it back from the tracker after the write. */
  lemma EveryRunIsSafe(t: seq<Action>, loaded: string, value: Value, result: Result)
    requires Shaped(t, loaded, value, result)
    ensures SentSafely(t, loaded)
    ensures !result.Recorded? ==> !WasApplied(t)
    ensures result.Refused? ==> !WasSent(t)
    ensures result.Recorded? ==> WasSent(t)
    ensures result.Recorded? && result.ok.Some? ==> ReadBack(t, t[3].value)
    ensures result.TrackerFailed? && WasSent(t) ==> 400 <= result.status && result.status <= 499
    ensures result == Recorded(None) && t[2].reply.Failed? ==> t[2].reply.status < 400 || 499 < t[2].reply.status
  {
    if result.Recorded? {
      assert t[2].Sent?;
      if result.ok.Some? {
        assert t[3] == Saw(t[3].value);
      }
    }
  }

  // ---- the command -------------------------------------------------------

  method Apply(w: World, q: Request, target: Defect?, reasonGiven: string) returns (result: Result)
    requires target != null ==> target.key == q.key
    modifies w, target
    ensures old(w.trace) <= w.trace
    ensures var why := old(Objection(q, target, Strip(reasonGiven)));
            why.Some? ==> result == Refused(why.value) && w.trace == old(w.trace)
    ensures target == null ==> result.Refused? && w.trace == old(w.trace)
    ensures target != null ==> Shaped(w.trace[|old(w.trace)|..], old(target.current), ValueFor(q.shape.kind, Strip(reasonGiven)), result)
    ensures target != null ==>
              && Outcome(old(target.current), old(target.applied), target.current, target.applied,
                         w.trace[|old(w.trace)|..], q.lower, Strip(reasonGiven), result)
              && FlagAfter(old(target.flag), target.flag, old(target.suggested), target.current, q.lower, result)
              && target.suggested == old(target.suggested) && target.byMock == old(target.byMock)
    ensures target != null && WasSent(w.trace[|old(w.trace)|..]) ==> old(MayWrite(q, target, Strip(reasonGiven)))
    ensures target != null && old(MayWrite(q, target, Strip(reasonGiven))) ==>
              Carried(w.trace[|old(w.trace)|..], old(target.current), result)
  {
    hide Strip, ReasonOf, SentSafely;
    var reason := Strip(reasonGiven);
    NoObjectionIffMayWrite(q, target, reason);
    var why := Objection(q, target, reason);
    if why.Some? {
      return Refused(why.value);
    }
    var seen, held := w.ReadField();
    if seen.Failed? {
      return TrackerFailed(seen.status);
    }
    var before := ReasonOf(held);
    if before != target.current {
      return Refused(ChangedSince);
    }
    if HoldsMany(held) {
      return Refused(HoldsSeveral);
    }
    ghost var start := old(w.trace);
    ghost var sofar := w.trace;
    result := Send(w, q, target, reason, held);
    assert w.trace[|start|..] == [Saw(held)] + w.trace[|sofar|..];
  }

  /** Everything speaks for it: log the attempt, send, and see what came of it. */
  method Send(w: World, q: Request, target: Defect, reason: string, held: Value) returns (result: Result)
    requires ReasonOf(held) == target.current && !HoldsMany(held)
    modifies w, target
    ensures old(w.trace) <= w.trace && !result.Refused?
    ensures Shaped([Saw(held)] + w.trace[|old(w.trace)|..], old(target.current), ValueFor(q.shape.kind, reason), result)
    ensures Outcome(old(target.current), old(target.applied), target.current, target.applied,
                    [Saw(held)] + w.trace[|old(w.trace)|..], q.lower, reason, result)
    ensures FlagAfter(old(target.flag), target.flag, old(target.suggested), target.current, q.lower, result)
    ensures target.suggested == old(target.suggested) && target.byMock == old(target.byMock)
  {
    hide Strip, ReasonOf, SentSafely, ValueFor;
    ghost var start := w.trace;
    var before := ReasonOf(held);
    var logged := w.Log(Attempt);
    var sent := w.WriteField(ValueFor(q.shape.kind, reason));
    ghost var t := [Saw(held), Logged(Attempt, logged), w.trace[|start| + 1]];
    assert [Saw(held)] + w.trace[|start|..] == t;
    if sent.Failed? {
      var line := if Refusing(sent) then SaidNo else Unconfirmed;
      var said := w.Log(line);
      assert [Saw(held)] + w.trace[|start|..] == t + [Logged(line, said)];
      if Refusing(sent) {
        return TrackerFailed(sent.status);
      }
      Record(target, reason, before, None, before, q.lower);
      return Recorded(None);
    }
    ghost var sofar := w.trace;
    result := Confirm(w, q, target, reason, before);
    assert [Saw(held)] + w.trace[|start|..] == t + w.trace[|sofar|..];
  }

  /** What a run leaves on the defect: what was written and found is recorded; what the defect
      holds is changed only to what was read back. */
  ghost predicate Outcome(current0: string, applied0: Option<Applied>, current: string, applied: Option<Applied>,
                          t: seq<Action>, lower: string -> string, reason: string, result: Result) {
    && (!result.Recorded? ==> current == current0 && applied == applied0)
    && (result.Recorded? ==>
         applied.Some? && applied.value.ok == result.ok && applied.value.reason == reason && applied.value.was == current0)
    && (result.Recorded? && result.ok.None? ==>
         current == current0 && applied.value.holds == if |t| == 4 then current0 else reason)
    && (result.Recorded? && result.ok.Some? ==>
         && |t| == 5 && t[3].Saw? && applied.value.holds == current == ReasonOf(t[3].value)
         && (result.ok.value <==> Same(lower, current, reason)))
  }

  /** The flag says whether what was suggested is what the defect now holds, once that is the
      reason; else it stays. */
  ghost predicate FlagAfter(flag0: Flag, flag: Flag, suggested: string, current: string, lower: string -> string, result: Result) {
    if result != Recorded(Some(true)) || |suggested| == 0 then flag == flag0
    else flag == if lower(suggested) == lower(current) then Agrees else Differs
  }

  /** The write was accepted: read the defect again and record what it holds. */
  method Confirm(w: World, q: Request, target: Defect, reason: string, before: string) returns (result: Result)
    requires before == target.current
    modifies w, target
    ensures old(w.trace) <= w.trace && |w.trace| == |old(w.trace)| + 2 && result.Recorded?
    ensures var u := w.trace[|old(w.trace)|..];
            && u[1].Logged?
            && match result.ok
               case None => u[0].Unseen? && u[1].line == NotReadBack
               case Some(took) => u[0].Saw? && u[1].line == if took then Written else NotKept
    ensures target.applied.Some? && target.applied.value.ok == result.ok
            && target.applied.value.reason == reason && target.applied.value.was == before
    ensures result.ok.None? ==> target.current == old(target.current) && target.applied.value.holds == reason
    ensures FlagAfter(old(target.flag), target.flag, old(target.suggested), target.current, q.lower, result)
    ensures target.suggested == old(target.suggested) && target.byMock == old(target.byMock)
    ensures result.ok.Some? ==>
              && target.applied.value.holds == target.current == ReasonOf(w.trace[|old(w.trace)|].value)
              && (result.ok.value <==> Same(q.lower, target.current, reason))
  {
    hide Strip, ReasonOf;
    var again, after := w.ReadField();
    if again.Failed? {
      var said := w.Log(NotReadBack);
      Record(target, reason, before, None, reason, q.lower);
      return Recorded(None);
    }
    var holds := ReasonOf(after);
    var took := q.lower(Strip(holds)) == q.lower(reason);
    var said := w.Log(if took then Written else NotKept);
    Record(target, reason, before, Some(took), holds, q.lower);
    return Recorded(Some(took));
  }

  /** What came of the write is put on the defect; what it holds, only when that is known. */
  method Record(target: Defect, reason: string, before: string, ok: Option<bool>, holds: string, lower: string -> string)
    modifies target
    ensures target.current == if ok.Some? then holds else old(target.current)
    ensures target.applied == Some(Applied(reason, before, holds, ok))
    ensures target.flag ==
              if ok == Some(true) && old(target.suggested) != ""
              then (if lower(old(target.suggested)) == lower(holds) then Agrees else Differs) else old(target.flag)
    ensures target.suggested == old(target.suggested) && target.byMock == old(target.byMock)
  {
    if ok.Some? {
      target.current := holds;
    }
    target.applied := Some(Applied(reason, before, holds, ok));
    if ok == Some(true) && target.suggested != "" {
      target.flag := if lower(target.suggested) == lower(holds) then Agrees else Differs;
    }
  }

  // ---- what is written says the reason -----------------------------------

  lemma {:induction false} LeftTight(s: string)
    ensures StripLeft(s) == "" || !IsSpace(StripLeft(s)[0])
  {
    if s != "" && IsSpace(s[0]) {
      LeftTight(s[1..]);
    }
  }

  lemma {:induction false} RightTight(s: string)
    requires s == "" || !IsSpace(s[0])
    ensures var t := StripRight(s);
            t == "" || (t[0] == s[0] && !IsSpace(t[|t| - 1]))
  {
    if s != "" && IsSpace(s[|s| - 1]) {
      RightTight(s[..|s| - 1]);
    }
  }

  lemma StripTwice(s: string)
    ensures Strip(Strip(s)) == Strip(s)
  {
    LeftTight(s);
    RightTight(StripLeft(s));
    if Strip(s) != "" {
      StripTight(Strip(s));
    }
  }

  /** In each kind of field that is written, the value sent reads back as the reason: a tracker
      that keeps it is recorded as having taken it. */
  lemma WhatIsSentIsTheReason(kind: Kind, reasonGiven: string, lower: string -> string)
    ensures var reason := Strip(reasonGiven);
            ReasonOf(ValueFor(kind, reason)) == reason && Same(lower, ReasonOf(ValueFor(kind, reason)), reason)
  {
    StripTwice(reasonGiven);
    JoinedOne(Strip(reasonGiven));
    hide Strip, Joined;
  }
}
