/** What the consumer of a call has gathered, said of the messages themselves: the texts it
    takes for answers, the tools, the usage lines. */
module CallTexts {
  import opened Text
  import opened CallProtocol
  import opened CallSafety
  import opened Wrappers

  // ---- the texts ---------------------------------------------------------

  predicate Talks(m: Msg) {
    m.Assistant? && m.piece != ""
  }

  /** A call that carries a plan. */
  predicate IsPlan(m: Msg) {
    m.ToolCall? && m.tool.Plans? && !IsBlank(m.tool.text)
  }

  function IdOf(m: Msg): nat {
    if m.ToolCall? then m.id else 0
  }

  /** From `i` on there are only pieces of the assistant's. */
  ghost predicate Unbroken(log: seq<Msg>, i: nat) {
    forall k :: i <= k < |log| ==> log[k].Assistant?
  }

  /** Between two places there is a message that is no piece. */
  ghost predicate Apart(log: seq<Msg>, i: nat, j: nat) {
    exists k :: i < k < j < |log| && !log[k].Assistant?
  }

  /** At `i` a text begins: with the first words of a run of pieces, or with the first call
      that carries the plan of its id. */
  ghost predicate Opens(log: seq<Msg>, i: nat) {
    i < |log| &&
    if IsPlan(log[i]) then forall j :: 0 <= j < i && IsPlan(log[j]) ==> IdOf(log[j]) != IdOf(log[i])
    else Talks(log[i]) && forall j :: 0 <= j < i && Talks(log[j]) ==> Apart(log, j, i)
  }

  /** The pieces from `i` on, to the first message that is none. */
  function RunText(log: seq<Msg>, i: nat): string
    decreases |log| - i
  {
    if i < |log| && log[i].Assistant? then log[i].piece + RunText(log, i + 1) else ""
  }

  /** The last plan of that id. */
  function LastPlan(log: seq<Msg>, id: nat): string {
    if log == [] then ""
    else
      var m := log[|log| - 1];
      if IsPlan(m) && IdOf(m) == id then m.tool.text else LastPlan(log[..|log| - 1], id)
  }

  function TextAt(log: seq<Msg>, i: nat): string
    requires i < |log|
  {
    if IsPlan(log[i]) then LastPlan(log, IdOf(log[i])) else RunText(log, i)
  }

  /** The places where a text begins. */
  ghost function Openings(log: seq<Msg>): (at: seq<nat>)
    ensures forall i, j :: 0 <= i < j < |at| ==> at[i] < at[j]
    ensures forall k :: 0 <= k < |at| ==> at[k] < |log|
  {
    if log == [] then []
    else
      var n := |log| - 1;
      Openings(log[..n]) + if Opens(log, n) then [n] else []
  }

  lemma OpensEarlier(log: seq<Msg>, n: nat, i: nat)
    requires i < n <= |log|
    ensures Opens(log[..n], i) <==> Opens(log, i)
  {
    hide IsPlan, Talks;
    var less := log[..n];
    forall j: nat | j < i ensures Apart(less, j, i) <==> Apart(log, j, i) {
      assert forall k :: 0 <= k < n ==> less[k] == log[k];
    }
  }

  lemma {:induction false} OpeningsAre(log: seq<Msg>, i: nat)
    ensures i in Openings(log) <==> Opens(log, i)
  {
    hide Opens;
    Within(log, i);
    if log != [] {
      var n := |log| - 1;
      var less := Openings(log[..n]);
      assert i in less ==> i < n;
      if i < n {
        OpeningsAre(log[..n], i);
        OpensEarlier(log, n, i);
      }
    }
  }

  lemma Within(log: seq<Msg>, i: nat)
    ensures Opens(log, i) ==> i < |log|
  {
  }

  // ---- one message more --------------------------------------------------

  lemma {:induction false} RunTextMore(log: seq<Msg>, m: Msg, i: nat)
    requires i <= |log|
    ensures RunText(log + [m], i) == RunText(log, i) + if Unbroken(log, i) && m.Assistant? then m.piece else ""
    decreases |log| - i
  {
    var more := log + [m];
    if i == |log| {
      assert more[i] == m;
      assert RunText(more, i + 1) == "";
    } else {
      assert more[i] == log[i];
      if log[i].Assistant? {
        RunTextMore(log, m, i + 1);
        assert Unbroken(log, i) <==> Unbroken(log, i + 1);
      }
    }
  }

  lemma LastPlanMore(log: seq<Msg>, m: Msg, id: nat)
    ensures LastPlan(log + [m], id) == if IsPlan(m) && IdOf(m) == id then m.tool.text else LastPlan(log, id)
  {
    hide IsPlan;
    assert (log + [m])[..|log|] == log;
  }

  lemma TextMore(log: seq<Msg>, m: Msg, i: nat)
    requires i < |log| && (IsPlan(log[i]) || log[i].Assistant?)
    ensures TextAt(log + [m], i)
            == if IsPlan(log[i]) then (if IsPlan(m) && IdOf(m) == IdOf(log[i]) then m.tool.text else TextAt(log, i))
               else TextAt(log, i) + if Unbroken(log, i) && m.Assistant? then m.piece else ""
  {
    hide IsPlan, RunText, LastPlan;
    assert (log + [m])[i] == log[i];
    RunTextMore(log, m, i);
    if IsPlan(log[i]) {
      PlanHasId(log[i]);
      LastPlanMore(log, m, IdOf(log[i]));
    }
  }

  lemma PlanHasId(m: Msg)
    ensures IsPlan(m) ==> m.ToolCall? && m.tool.Plans? && !m.Assistant?
    ensures Talks(m) ==> m.Assistant? && !IsPlan(m)
  {
  }

  // ---- what is gathered --------------------------------------------------

  /** A run of pieces with words in it is still going on. */
  ghost predicate Talking(log: seq<Msg>) {
    exists j: nat :: j < |log| && Talks(log[j]) && Unbroken(log, j)
  }

  ghost predicate TextsAre(log: seq<Msg>, v: View) {
    var at := Openings(log);
    && |v.segments| == |at|
    && (forall k :: 0 <= k < |at| ==> v.segments[k] == TextAt(log, at[k]))
    && (v.segOpen <==> Talking(log))
    && (v.segOpen ==> at != [] && Talks(log[at[|at| - 1]]) && Unbroken(log, at[|at| - 1]))
  }

  ghost predicate PlansAre(log: seq<Msg>, v: View) {
    var at := Openings(log);
    && (forall id :: id in v.plans ==> v.plans[id] < |at| && IsPlan(log[at[v.plans[id]]]) && IdOf(log[at[v.plans[id]]]) == id)
    && forall j :: 0 <= j < |log| && IsPlan(log[j]) ==> IdOf(log[j]) in v.plans
  }

  lemma OpeningKinds(log: seq<Msg>, k: nat)
    requires k < |Openings(log)|
    ensures Opens(log, Openings(log)[k])
  {
    hide Opens;
    OpeningsAre(log, Openings(log)[k]);
  }

  lemma OpeningsMore(log: seq<Msg>, m: Msg)
    ensures Openings(log + [m]) == Openings(log) + if Opens(log + [m], |log|) then [|log|] else []
  {
    hide Opens;
    assert (log + [m])[..|log|] == log;
  }

  /** Only the run that is going on takes another piece. */
  lemma OneRunOpen(log: seq<Msg>, v: View, k: nat)
    requires TextsAre(log, v) && k < |Openings(log)| && Talks(log[Openings(log)[k]]) && Unbroken(log, Openings(log)[k])
    ensures v.segOpen && k == |Openings(log)| - 1
  {
    hide TextAt, Talks, IsPlan;
    var at := Openings(log);
    var last := |at| - 1;
    if k < last {
      OpeningKinds(log, last);
      PlanHasId(log[at[last]]);
    }
  }

  /** A message that neither opens a text nor adds to one. */
  lemma NothingSaid(log: seq<Msg>, v: View, m: Msg)
    requires TextsAre(log, v) && !m.Assistant? && !IsPlan(m)
    ensures TextsAre(log + [m], v.(segOpen := false))
  {
    hide TextAt, Opens;
    OpeningsMore(log, m);
    PlanHasId(m);
    NotOpening(log, m);
    assert !Talking(log + [m]) by {
      assert (log + [m])[|log|] == m;
      NotTalking(log, m);
    }
    forall k | 0 <= k < |Openings(log)| ensures TextAt(log + [m], Openings(log)[k]) == TextAt(log, Openings(log)[k]) {
      KindAt(log, k);
      TextMore(log, m, Openings(log)[k]);
    }
  }

  lemma NotTalking(log: seq<Msg>, m: Msg)
    requires !m.Assistant?
    ensures !Talking(log + [m])
  {
    hide Talks;
    forall j: nat | j < |log + [m]| && Talks((log + [m])[j]) ensures !Unbroken(log + [m], j) {
      assert (log + [m])[|log|] == m;
    }
  }

  lemma NotOpening(log: seq<Msg>, m: Msg)
    requires !Talks(m) && !IsPlan(m)
    ensures !Opens(log + [m], |log|)
  {
    assert (log + [m])[|log|] == m;
  }

  lemma KindAt(log: seq<Msg>, k: nat)
    requires k < |Openings(log)|
    ensures var m := log[Openings(log)[k]]; IsPlan(m) || Talks(m)
    ensures var m := log[Openings(log)[k]]; IsPlan(m) || m.Assistant?
  {
    hide IsPlan, Talks, Apart;
    OpeningKinds(log, k);
    PlanHasId(log[Openings(log)[k]]);
  }

  lemma TalkingMore(log: seq<Msg>, m: Msg)
    requires m.Assistant?
    ensures Talking(log + [m]) <==> Talking(log) || Talks(m)
    ensures forall i: nat :: i <= |log| ==> (Unbroken(log + [m], i) <==> Unbroken(log, i))
  {
    hide Talks;
    var more := log + [m];
    assert more[|log|] == m;
    forall i: nat | i <= |log| ensures Unbroken(more, i) <==> Unbroken(log, i) {
      assert forall k :: i <= k < |log| ==> more[k] == log[k];
    }
    if Talking(log) {
      var j: nat :| j < |log| && Talks(log[j]) && Unbroken(log, j);
      assert Talks(more[j]) && Unbroken(more, j);
    }
    if Talks(m) {
      assert Unbroken(more, |log|);
    }
    if Talking(more) {
      var j: nat :| j < |more| && Talks(more[j]) && Unbroken(more, j);
      if j < |log| {
        assert log[j] == more[j] && Unbroken(log, j);
      }
    }
  }

  /** A run is opened by words just when none with words is going on. */
  lemma OpensRun(log: seq<Msg>, m: Msg)
    requires Talks(m)
    ensures Opens(log + [m], |log|) <==> !Talking(log)
  {
    hide Talks;
    var more := log + [m];
    PlanHasId(m);
    assert more[|log|] == m;
    forall j: nat | j < |log| ensures Apart(more, j, |log|) <==> !UnbrokenAfter(log, j) {
      assert forall k :: 0 <= k < |log| ==> more[k] == log[k];
    }
    forall j: nat | j < |log| && Talks(log[j]) ensures UnbrokenAfter(log, j) <==> Unbroken(log, j) {
      PlanHasId(log[j]);
    }
    assert forall j :: 0 <= j < |log| ==> more[j] == log[j];
  }

  ghost predicate UnbrokenAfter(log: seq<Msg>, i: nat) {
    forall k :: i < k < |log| ==> log[k].Assistant?
  }

  lemma PieceSaid(log: seq<Msg>, v: View, m: Msg)
    requires v.Valid() && TextsAre(log, v) && m.Assistant?
    ensures TextsAre(log + [m], TakePiece(v, m.piece))
  {
    hide TextAt, Opens, IsPlan;
    var w, at := TakePiece(v, m.piece), Openings(log);
    OpeningsMore(log, m);
    TalkingMore(log, m);
    PieceIsNoPlan(m);
    if m.piece == "" {
      NotOpening(log, m);
    } else {
      OpensRun(log, m);
    }
    forall k | 0 <= k < |at| ensures w.segments[k] == TextAt(log + [m], at[k]) {
      KindAt(log, k);
      TextMore(log, m, at[k]);
      PlanHasId(log[at[k]]);
      assert v.segments[k] + "" == v.segments[k];
      if Unbroken(log, at[k]) && Talks(log[at[k]]) {
        OneRunOpen(log, v, k);
      }
      if v.segOpen && k == |at| - 1 {
        PlanHasId(log[at[k]]);
      }
    }
    if m.piece != "" && !Talking(log) {
      NewRun(log, m);
    }
    assert forall k :: 0 <= k < |at| ==> (log + [m])[at[k]] == log[at[k]];
    assert (log + [m])[|log|] == m;
  }

  lemma PieceIsNoPlan(m: Msg)
    requires m.Assistant?
    ensures !IsPlan(m) && (Talks(m) <==> m.piece != "")
  {
  }

  lemma NewRun(log: seq<Msg>, m: Msg)
    requires m.Assistant?
    ensures TextAt(log + [m], |log|) == m.piece && Unbroken(log + [m], |log|)
  {
    var more := log + [m];
    assert more[|log|] == m;
    assert RunText(more, |log| + 1) == "";
    assert m.piece + "" == m.piece;
  }

  function Replaced(v: View, m: Msg): View
    requires IsPlan(m) && m.id in v.plans && v.plans[m.id] < |v.segments|
  {
    v.(segOpen := false, segments := v.segments[v.plans[m.id] := m.tool.text])
  }

  /** The plan of an id that has a text takes its place. */
  lemma PlanAgain(log: seq<Msg>, v: View, m: Msg)
    requires TextsAre(log, v) && PlansAre(log, v) && IsPlan(m) && m.id in v.plans
    ensures v.plans[m.id] < |v.segments| && TextsAre(log + [m], Replaced(v, m))
  {
    hide TextAt, Opens, IsPlan;
    PlanHasId(m);
    var at, p := Openings(log), v.plans[m.id];
    OpeningsMore(log, m);
    NotTalking(log, m);
    PlanKnown(log, v, m);
    forall k | 0 <= k < |at|
      ensures TextAt(log + [m], at[k]) == if k == p then m.tool.text else TextAt(log, at[k])
    {
      PlanTextMore(log, v, m, k);
    }
  }

  lemma PlanTextMore(log: seq<Msg>, v: View, m: Msg, k: nat)
    requires PlansAre(log, v) && IsPlan(m) && m.id in v.plans && k < |Openings(log)|
    ensures TextAt(log + [m], Openings(log)[k]) == if k == v.plans[m.id] then m.tool.text else TextAt(log, Openings(log)[k])
  {
    hide TextAt, Opens, IsPlan;
    PlanHasId(m);
    var i, p := Openings(log)[k], v.plans[m.id];
    KindAt(log, k);
    PlanHasId(log[i]);
    TextMore(log, m, i);
    if IsPlan(log[i]) && IdOf(log[i]) == m.id {
      OnePlanEach(log, k, p);
    }
  }

  lemma PlansAgain(log: seq<Msg>, v: View, m: Msg)
    requires TextsAre(log, v) && PlansAre(log, v) && IsPlan(m) && m.id in v.plans
    ensures v.plans[m.id] < |v.segments| && PlansAre(log + [m], Replaced(v, m))
  {
    hide TextAt, Opens, IsPlan, Talking;
    OpeningsMore(log, m);
    PlanHasId(m);
    PlanKnown(log, v, m);
    forall j | 0 <= j < |log + [m]| && IsPlan((log + [m])[j]) ensures IdOf((log + [m])[j]) in v.plans {
      assert j < |log| ==> (log + [m])[j] == log[j];
    }
    assert forall k :: 0 <= k < |Openings(log)| ==> (log + [m])[Openings(log)[k]] == log[Openings(log)[k]];
  }

  lemma PlanKnown(log: seq<Msg>, v: View, m: Msg)
    requires TextsAre(log, v) && PlansAre(log, v) && IsPlan(m) && m.ToolCall?
    ensures Opens(log + [m], |log|) <==> m.id !in v.plans
  {
    hide IsPlan, TextAt, Talking;
    var more, at := log + [m], Openings(log);
    assert more[|log|] == m;
    assert forall j :: 0 <= j < |log| ==> more[j] == log[j];
    if m.id in v.plans {
      var j := at[v.plans[m.id]];
      assert IsPlan(more[j]) && IdOf(more[j]) == m.id;
    }
  }

  lemma OnePlanEach(log: seq<Msg>, k: nat, p: nat)
    requires k < |Openings(log)| && p < |Openings(log)|
    requires var a, b := log[Openings(log)[k]], log[Openings(log)[p]]; IsPlan(a) && IsPlan(b) && IdOf(a) == IdOf(b)
    ensures k == p
  {
    hide IsPlan;
    OpeningKinds(log, k);
    OpeningKinds(log, p);
  }

  lemma PlanFirst(log: seq<Msg>, v: View, m: Msg)
    requires TextsAre(log, v) && PlansAre(log, v) && IsPlan(m) && m.id !in v.plans
    ensures TextsAre(log + [m], v.(segOpen := false, plans := v.plans[m.id := |v.segments|], segments := v.segments + [m.tool.text]))
    ensures PlansAre(log + [m], v.(segOpen := false, plans := v.plans[m.id := |v.segments|], segments := v.segments + [m.tool.text]))
  {
    hide TextAt, Opens, IsPlan;
    var at := Openings(log);
    OpeningsMore(log, m);
    PlanHasId(m);
    NotTalking(log, m);
    PlanKnown(log, v, m);
    forall k | 0 <= k < |at| ensures TextAt(log + [m], at[k]) == TextAt(log, at[k]) {
      KindAt(log, k);
      PlanHasId(log[at[k]]);
      TextMore(log, m, at[k]);
    }
    NewPlan(log, m);
    assert forall j :: 0 <= j < |log| ==> (log + [m])[j] == log[j];
    assert (log + [m])[|log|] == m;
  }

  lemma NewPlan(log: seq<Msg>, m: Msg)
    requires IsPlan(m)
    ensures TextAt(log + [m], |log|) == m.tool.text
  {
    hide IsPlan;
    PlanHasId(m);
    assert (log + [m])[|log|] == m;
    LastPlanMore(log, m, m.id);
  }

  lemma PlansSame(log: seq<Msg>, v: View, m: Msg)
    requires TextsAre(log, v) && PlansAre(log, v) && !IsPlan(m)
    ensures forall w: View :: w.plans == v.plans ==> PlansAre(log + [m], w)
  {
    hide TextAt, Opens, IsPlan, Talking;
    OpeningsMore(log, m);
    assert forall j :: 0 <= j < |log| ==> (log + [m])[j] == log[j];
    assert (log + [m])[|log|] == m;
  }

  lemma SameTexts(log: seq<Msg>, v: View, w: View)
    requires TextsAre(log, v) && w.segments == v.segments && w.segOpen == v.segOpen
    ensures TextsAre(log, w)
  {
  }

  lemma SamePlans(log: seq<Msg>, v: View, w: View)
    requires PlansAre(log, v) && w.plans == v.plans
    ensures PlansAre(log, w)
  {
  }

  lemma OneMore(log: seq<Msg>, v: View, m: Msg, complete: Complete)
    requires v.Valid() && TextsAre(log, v) && PlansAre(log, v)
    ensures TextsAre(log + [m], Take(v, m, complete)) && PlansAre(log + [m], Take(v, m, complete))
  {
    hide TextsAre, PlansAre, IsBlank, Newest, Asked;
    var w := Take(v, m, complete);
    if m.Assistant? {
      PieceIsNoPlan(m);
      PieceSaid(log, v, m);
      PlansSame(log, v, m);
    } else if IsPlan(m) {
      if m.id in v.plans {
        PlanAgain(log, v, m);
        PlansAgain(log, v, m);
        var x := Replaced(v, m);
        SameTexts(log + [m], x, w);
        SamePlans(log + [m], x, w);
      } else {
        PlanFirst(log, v, m);
        var x := v.(segOpen := false, plans := v.plans[m.id := |v.segments|], segments := v.segments + [m.tool.text]);
        SameTexts(log + [m], x, w);
        SamePlans(log + [m], x, w);
      }
    } else {
      NothingSaid(log, v, m);
      PlansSame(log, v, m);
      SameTexts(log + [m], v.(segOpen := false), w);
    }
  }

  lemma GatheredMore(log: seq<Msg>, m: Msg, complete: Complete)
    ensures Gathered(log + [m], complete) == Take(Gathered(log, complete), m, complete)
  {
    hide Take;
    assert (log + [m])[..|log|] == log;
  }

  lemma NothingGathered(complete: Complete)
    ensures Gathered([], complete) == NoView && TextsAre([], NoView) && PlansAre([], NoView)
  {
  }

  lemma {:induction false} GatheredTexts(log: seq<Msg>, complete: Complete)
    ensures TextsAre(log, Gathered(log, complete)) && PlansAre(log, Gathered(log, complete))
  {
    hide Take, TextsAre, PlansAre;
    if log == [] {
      NothingGathered(complete);
    } else {
      var less, m := log[..|log| - 1], log[|log| - 1];
      assert log == less + [m];
      GatheredTexts(less, complete);
      GatheredMore(less, m, complete);
      OneMore(less, Gathered(less, complete), m, complete);
    }
  }

  /** The texts taken for answers: one for each place where a run of the assistant's pieces
      has its first words, whole, and one for each id of a plan, its last, where it first came;
      in the order of these places, and no others. */
  lemma SegmentsAre(log: seq<Msg>, complete: Complete) returns (at: seq<nat>)
    ensures forall i, j :: 0 <= i < j < |at| ==> at[i] < at[j]
    ensures forall i: nat :: i in at <==> Opens(log, i)
    ensures var texts := Gathered(log, complete).segments;
            |texts| == |at| && forall k :: 0 <= k < |at| ==> at[k] < |log| && texts[k] == TextAt(log, at[k])
  {
    hide Opens, TextAt, Gathered;
    GatheredTexts(log, complete);
    at := Openings(log);
    forall i: nat ensures i in at <==> Opens(log, i) {
      OpeningsAre(log, i);
    }
  }

  // ---- the rest of what is gathered --------------------------------------

  /** The last usage line before `n`, plus one; nought when there is none. */
  function AfterUsage(log: seq<Msg>): (n: nat)
    ensures n <= |log| && (n > 0 ==> log[n - 1].Usage?) && forall k :: n <= k < |log| ==> !log[k].Usage?
  {
    if log == [] then 0 else if log[|log| - 1].Usage? then |log| else AfterUsage(log[..|log| - 1])
  }

  /** Before there is an answer the texts asked about begin with those that came after the last
      usage line. */
  lemma {:induction false} MarkIs(log: seq<Msg>, complete: Complete)
    requires Gathered(log, complete).answered.None?
    ensures Gathered(log, complete).mark == |Gathered(log[..AfterUsage(log)], complete).segments|
  {
    hide Gathered, Take;
    if log == [] {
      NothingGathered(complete);
    } else {
      var less, m := log[..|log| - 1], log[|log| - 1];
      assert log == less + [m];
      GatheredMore(less, m, complete);
      MarkTaken(Gathered(less, complete), m, complete);
      if m.Usage? {
        assert log[..|log|] == log;
      } else {
        MarkIs(less, complete);
        assert log[..AfterUsage(less)] == less[..AfterUsage(less)];
      }
    }
  }

  lemma MarkTaken(v: View, m: Msg, complete: Complete)
    requires v.Valid() && Take(v, m, complete).answered.None?
    ensures var w := Take(v, m, complete);
            v.answered.None? && w.mark == if m.Usage? then |w.segments| else v.mark
  {
    hide Newest, Asked, IsBlank;
  }

  /** A change was made by a tool. */
  predicate Edited(m: Msg) {
    m.ToolCall? && m.tool.Edits? && m.status.Completed?
  }

  predicate IsOf(m: Msg, id: nat) {
    m.ToolCall? && m.id == id
  }

  /** Message `j` is the last of tool call `id` and says that it is running. */
  ghost predicate RunsLast(log: seq<Msg>, id: nat, j: nat) {
    && j < |log| && IsOf(log[j], id) && log[j].status.Running?
    && forall k :: j < k < |log| ==> !IsOf(log[k], id)
  }

  /** The tools: one that edits has completed exactly when a message says so, and a tool call is
      running exactly when its last message says so. */
  lemma {:induction false} ToolsAre(log: seq<Msg>, complete: Complete, id: nat)
    ensures var v := Gathered(log, complete);
            && (v.toolsDone <==> exists k :: 0 <= k < |log| && Edited(log[k]))
            && (id in v.running <==> exists j: nat :: RunsLast(log, id, j))
  {
    hide Gathered, Take, Edited;
    if log == [] {
      NothingGathered(complete);
    } else {
      var less, m := log[..|log| - 1], log[|log| - 1];
      assert log == less + [m];
      ToolsAre(less, complete, id);
      GatheredMore(less, m, complete);
      ToolTaken(Gathered(less, complete), m, complete, id);
      EditedMore(less, m);
      RunsLastMore(less, m, id);
    }
  }

  lemma EditedMore(log: seq<Msg>, m: Msg)
    ensures (exists k :: 0 <= k < |log + [m]| && Edited((log + [m])[k])) <==> Edited(m) || exists k :: 0 <= k < |log| && Edited(log[k])
  {
    hide Edited;
    var more := log + [m];
    assert more[|log|] == m;
    if k :| 0 <= k < |log| && Edited(log[k]) {
      assert Edited(more[k]);
    }
  }

  lemma RunsLastMore(log: seq<Msg>, m: Msg, id: nat)
    ensures (exists j: nat :: RunsLast(log + [m], id, j))
            <==> if IsOf(m, id) then m.status.Running? else exists j: nat :: RunsLast(log, id, j)
  {
    hide IsOf;
    var more := log + [m];
    assert more[|log|] == m;
    assert forall k :: 0 <= k < |log| ==> more[k] == log[k];
    if IsOf(m, id) {
      forall j: nat | j < |log| ensures !RunsLast(more, id, j) {
        assert IsOf(more[|log|], id);
      }
      OfHasStatus(m, id);
      assert m.status.Running? ==> RunsLast(more, id, |log|);
    } else {
      forall j: nat ensures RunsLast(more, id, j) <==> RunsLast(log, id, j) {
        RunsLastLess(log, m, id, j);
      }
    }
  }

  lemma OfHasStatus(m: Msg, id: nat)
    ensures IsOf(m, id) ==> m.ToolCall?
  {
  }

  lemma RunsLastLess(log: seq<Msg>, m: Msg, id: nat, j: nat)
    requires !IsOf(m, id)
    ensures RunsLast(log + [m], id, j) <==> RunsLast(log, id, j)
  {
    var more := log + [m];
    assert more[|log|] == m;
    assert forall k :: 0 <= k < |log| ==> more[k] == log[k];
  }

  lemma ToolTaken(v: View, m: Msg, complete: Complete, id: nat)
    requires v.Valid()
    ensures var w := Take(v, m, complete);
            && (w.toolsDone <==> v.toolsDone || Edited(m))
            && (id in w.running <==> if IsOf(m, id) then m.status.Running? else id in v.running)
  {
    hide Newest, Asked, IsBlank;
  }

  /** A usage line with that count. */
  predicate Counts(m: Msg, tokens: nat) {
    m == Usage(Some(tokens))
  }

  lemma {:induction false} UsagesAre(log: seq<Msg>, complete: Complete, tokens: nat)
    ensures tokens in Gathered(log, complete).usages <==> exists k :: 0 <= k < |log| && Counts(log[k], tokens)
  {
    hide Newest, Asked, IsBlank;
    if log != [] {
      var less, m := log[..|log| - 1], log[|log| - 1];
      assert log == less + [m];
      UsagesAre(less, complete, tokens);
      GatheredMore(less, m, complete);
      if k :| 0 <= k < |less| && Counts(less[k], tokens) {
        assert Counts(log[k], tokens);
      }
    }
  }

  /** The request ran again just when, before any answer, a usage line came with a count that an
      earlier one had, and brought no answer either. */
  ghost predicate RanAgainAt(log: seq<Msg>, complete: Complete, j: nat) {
    && j < |log| && log[j].Usage? && log[j].tokens.Some?
    && (exists i :: 0 <= i < j && Counts(log[i], log[j].tokens.value))
    && Gathered(log[..j + 1], complete).answered.None?
  }

  lemma {:induction false} RerunIs(log: seq<Msg>, complete: Complete)
    ensures Gathered(log, complete).rerun <==> exists j :: RanAgainAt(log, complete, j)
  {
    hide Newest, Asked, IsBlank, Gathered, RanAgainAt;
    if log == [] {
      NothingGathered(complete);
      NoneRanAgain(complete);
    } else {
      var n := |log| - 1;
      var less, m := log[..n], log[n];
      assert log == less + [m];
      RerunIs(less, complete);
      GatheredMore(less, m, complete);
      RerunTaken(less, m, complete);
      forall j: nat | j < n ensures RanAgainAt(log, complete, j) <==> RanAgainAt(less, complete, j) {
        RanAgainEarlier(less, m, complete, j);
      }
      RanAgainLast(less, m, complete);
      forall j: nat | RanAgainAt(log, complete, j) || RanAgainAt(less, complete, j) ensures j <= n && (RanAgainAt(less, complete, j) ==> j < n) {
        RanAgainIn(log, complete, j);
        RanAgainIn(less, complete, j);
      }
    }
  }

  lemma NoneRanAgain(complete: Complete)
    ensures forall j: nat :: !RanAgainAt([], complete, j)
  {
  }

  lemma RanAgainIn(log: seq<Msg>, complete: Complete, j: nat)
    ensures RanAgainAt(log, complete, j) ==> j < |log|
  {
  }

  lemma RanAgainEarlier(log: seq<Msg>, m: Msg, complete: Complete, j: nat)
    requires j < |log|
    ensures RanAgainAt(log + [m], complete, j) <==> RanAgainAt(log, complete, j)
  {
    hide Gathered;
    var more := log + [m];
    assert more[..j + 1] == log[..j + 1];
    assert forall i :: 0 <= i < |log| ==> more[i] == log[i];
  }

  lemma RanAgainLast(log: seq<Msg>, m: Msg, complete: Complete)
    ensures RanAgainAt(log + [m], complete, |log|)
            <==> m.Usage? && m.tokens.Some? && (exists i :: 0 <= i < |log| && Counts(log[i], m.tokens.value))
                 && Gathered(log + [m], complete).answered.None?
  {
    hide Gathered;
    var more := log + [m];
    assert more[..|log| + 1] == more && more[|log|] == m;
    assert forall i :: 0 <= i < |log| ==> more[i] == log[i];
  }

  lemma RerunTaken(log: seq<Msg>, m: Msg, complete: Complete)
    ensures var v := Gathered(log, complete);
            var w := Take(v, m, complete);
            w.rerun <==> v.rerun || (m.Usage? && m.tokens.Some? && w.answered.None?
                                     && exists i :: 0 <= i < |log| && Counts(log[i], m.tokens.value))
  {
    hide Newest, Asked, IsBlank, Gathered;
    if m.Usage? && m.tokens.Some? {
      UsagesAre(log, complete, m.tokens.value);
    }
  }

  // ---- the answer --------------------------------------------------------

  lemma {:induction false} OpeningsBefore(log: seq<Msg>, n: nat, k: nat)
    requires n <= |log| && k < |Openings(log)|
    ensures k < |Openings(log[..n])| <==> Openings(log)[k] < n
    ensures |Openings(log[..n])| <= |Openings(log)|
    decreases |log|
  {
    hide Opens;
    if n < |log| {
      var less := log[..|log| - 1];
      assert less[..n] == log[..n];
      if k < |Openings(less)| {
        OpeningsBefore(less, n, k);
      } else if Openings(less) != [] {
        OpeningsBefore(less, n, 0);
      }
      FewerBefore(less, n);
    } else {
      assert log[..n] == log;
    }
  }

  lemma {:induction false} FewerBefore(log: seq<Msg>, n: nat)
    requires n <= |log|
    ensures |Openings(log[..n])| <= |Openings(log)|
    decreases |log|
  {
    hide Opens;
    if n < |log| {
      assert log[..|log| - 1][..n] == log[..n];
      FewerBefore(log[..|log| - 1], n);
    } else {
      assert log[..n] == log;
    }
  }

  /** Text `k` is asked about: it began after the last usage line, or is the last of all. */
  ghost predicate InQuestion(log: seq<Msg>, at: seq<nat>, k: nat) {
    k < |at| && (AfterUsage(log) <= at[k] || k == |at| - 1)
  }

  ghost predicate Accepted(log: seq<Msg>, at: seq<nat>, accepts: string -> bool, k: nat) {
    k < |at| && at[k] < |log| && accepts(TextAt(log, at[k]))
  }

  /** Text `k` is the newest of those asked about that is accepted. */
  ghost predicate NewestAccepted(log: seq<Msg>, at: seq<nat>, accepts: string -> bool, k: nat) {
    && InQuestion(log, at, k) && Accepted(log, at, accepts, k)
    && forall j: nat :: k < j ==> !Accepted(log, at, accepts, j)
  }

  ghost predicate Questioned(v: View, k: nat) {
    k < |v.segments| && (v.mark <= k || k == |v.segments| - 1)
  }

  lemma AskedFrom(v: View) returns (from: nat)
    requires v.mark <= |v.segments|
    ensures from <= |v.segments| && Asked(v) == v.segments[from..]
    ensures forall k: nat :: Questioned(v, k) <==> from <= k < |v.segments|
  {
    from := |v.segments| - |Asked(v)|;
  }

  lemma NewestAsked(v: View, accepts: string -> bool) returns (k: nat)
    requires v.mark <= |v.segments|
    ensures match Newest(Asked(v), accepts)
            case None => forall j: nat :: Questioned(v, j) ==> !accepts(v.segments[j])
            case Some(t) => Questioned(v, k) && v.segments[k] == t && accepts(t)
                            && forall j :: k < j < |v.segments| ==> !accepts(v.segments[j])
  {
    hide Newest, Asked, Questioned;
    var from := AskedFrom(v);
    var i := NewestIs(Asked(v), accepts);
    k := from + i;
    var asked := Asked(v);
    forall j: nat | from <= j < |v.segments| ensures v.segments[j] == asked[j - from] {
    }
  }

  lemma AnsweredBy(v: View, m: Msg, accepts: string -> bool)
    requires v.Valid() && m.Usage? && v.answered.None?
    ensures Take(v, m, Some(accepts)).answered == Newest(Asked(v), accepts)
  {
    hide Newest, Asked;
  }

  lemma QuestionedIs(log: seq<Msg>, complete: Complete, k: nat)
    requires Gathered(log, complete).answered.None?
    ensures Questioned(Gathered(log, complete), k) <==> InQuestion(log, Openings(log), k)
  {
    hide Gathered, Opens, TextAt, Talking;
    GatheredTexts(log, complete);
    GatheredTexts(log[..AfterUsage(log)], complete);
    MarkIs(log, complete);
    if k < |Openings(log)| {
      OpeningsBefore(log, AfterUsage(log), k);
    }
  }

  lemma AcceptedIs(log: seq<Msg>, accepts: string -> bool, k: nat)
    ensures Accepted(log, Openings(log), accepts, k)
            <==> var texts := Gathered(log, Some(accepts)).segments; k < |texts| && accepts(texts[k])
    ensures |Gathered(log, Some(accepts)).segments| == |Openings(log)|
    ensures k < |Openings(log)| ==> Gathered(log, Some(accepts)).segments[k] == TextAt(log, Openings(log)[k])
  {
    hide Gathered, Opens, TextAt, Talking;
    GatheredTexts(log, Some(accepts));
  }

  /** When a usage line comes and there is no answer yet, the newest text asked about that is
      accepted becomes the answer; there is none exactly when none is accepted. */
  lemma AnsweredIs(log: seq<Msg>, m: Msg, accepts: string -> bool) returns (k: nat)
    requires m.Usage? && Gathered(log, Some(accepts)).answered.None?
    ensures match Gathered(log + [m], Some(accepts)).answered
            case None => forall j: nat :: InQuestion(log, Openings(log), j) ==> !Accepted(log, Openings(log), accepts, j)
            case Some(text) => NewestAccepted(log, Openings(log), accepts, k) && text == TextAt(log, Openings(log)[k])
  {
    hide Gathered, TextAt, Openings, AfterUsage, Newest, Asked, Accepted, InQuestion, Questioned, Take;
    var v := Gathered(log, Some(accepts));
    GatheredMore(log, m, Some(accepts));
    AnsweredBy(v, m, accepts);
    k := NewestAsked(v, accepts);
    forall j: nat
      ensures Questioned(v, j) <==> InQuestion(log, Openings(log), j)
      ensures Accepted(log, Openings(log), accepts, j) <==> j < |v.segments| && accepts(v.segments[j])
    {
      QuestionedIs(log, Some(accepts), j);
      AcceptedIs(log, accepts, j);
    }
    QuestionedIn(v, k);
    AcceptedIs(log, accepts, k);
  }

  lemma QuestionedIn(v: View, k: nat)
    ensures Questioned(v, k) ==> k < |v.segments|
  {
  }

  /** A call that is answered gives, stripped, the newest text that was accepted: the words of
      one run of the assistant's pieces, or the last plan of an id. */
  lemma AnswerOfTheCall(c: Config, es: seq<Event>) returns (log: seq<Msg>, at: seq<nat>, k: nat)
    requires Possible(c, Begin, es)
    requires After(c, Begin, es).waiter.Returned? && After(c, Begin, es).waiter.result.Answered?
    ensures c.complete.Some? && |After(c, Begin, es).msgs.done| == |log| + 1 && log <= After(c, Begin, es).msgs.done
    ensures forall i: nat :: i in at <==> Opens(log, i)
    ensures forall i, j :: 0 <= i < j < |at| ==> at[i] < at[j]
    ensures NewestAccepted(log, at, c.complete.value, k)
    ensures at[k] < |log| && After(c, Begin, es).waiter.result.text == Strip(TextAt(log, at[k]))
  {
    hide Gathered, TextAt, Opens, Strip, Newest, Asked, Possible, After, NewestAccepted;
    AnswerIsAccepted(c, es);
    var done := After(c, Begin, es).msgs.done;
    var n := |done| - 1;
    log := done[..n];
    assert done == log + [done[n]];
    assert c.complete == Some(c.complete.value);
    k := AnsweredIs(log, done[n], c.complete.value);
    AnswerGiven(c, es);
    at := Openings(log);
    forall i: nat ensures i in at <==> Opens(log, i) {
      OpeningsAre(log, i);
    }
    NewestIn(log, at, c.complete.value, k);
  }

  lemma NewestIn(log: seq<Msg>, at: seq<nat>, accepts: string -> bool, k: nat)
    requires NewestAccepted(log, at, accepts, k)
    ensures k < |at| && at[k] < |log|
  {
  }

  lemma AnswerGiven(c: Config, es: seq<Event>)
    requires Possible(c, Begin, es)
    requires After(c, Begin, es).waiter.Returned? && After(c, Begin, es).waiter.result.Answered?
    ensures var s := After(c, Begin, es);
            && Gathered(s.msgs.done, c.complete).answered.Some?
            && s.waiter.result.text == Strip(Gathered(s.msgs.done, c.complete).answered.value)
  {
    hide Strip;
    BeginInv(c);
    RunKeeps(c, Begin, es);
  }
}
