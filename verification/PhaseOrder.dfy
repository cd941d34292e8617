/** The calls of generated tests against the phases that their cases register: what is
    called that is not there, what is there that nothing calls, and in which order. */
module PhaseOrder {
  import opened Wrappers

  datatype Kind = Phase | Verify

  datatype Entry = Entry(kind: Kind, name: string, step: string)

  datatype Call = Call(kind: Kind, name: string, step: string)

  datatype Key = Key(suite: string, id: string)

  /** What one case registers, in order, and the file that registers it. */
  datatype Case = Case(key: Key, entries: seq<Entry>, file: string)

  /** One test: the suite of its file, the case it starts and what it calls. */
  datatype Chain = Chain(suite: string, id: string, calls: seq<Call>)

  datatype Finding =
    | Missing(key: Key, call: Call)
    | Ambiguous(key: Key, call: Call)
    | Inverted(key: Key, visits: seq<nat>)
    | Orphan(key: Key, at: nat)
    | NoRegistration(id: string)

  // ---- one call ----------------------------------------------------------

  /** The indexes of the entries of a kind and name. */
  function Hits(entries: seq<Entry>, kind: Kind, name: string): (hits: seq<nat>)
    ensures forall k :: 0 <= k < |hits| ==> hits[k] < |entries|
  {
    if entries == [] then []
    else
      var less, n := Hits(entries[..|entries| - 1], kind, name), |entries| - 1;
      if entries[n].kind == kind && entries[n].name == name then less + [n] else less
  }

  function WithStep(entries: seq<Entry>, hits: seq<nat>, step: string): seq<nat>
    requires forall k :: 0 <= k < |hits| ==> hits[k] < |entries|
  {
    if hits == [] then []
    else
      var less, i := WithStep(entries, hits[..|hits| - 1], step), hits[|hits| - 1];
      if entries[i].step == step then less + [i] else less
  }

  lemma {:induction false} HitsAre(entries: seq<Entry>, kind: Kind, name: string)
    ensures forall i: nat :: i in Hits(entries, kind, name) <==> i < |entries| && entries[i].kind == kind && entries[i].name == name
    ensures forall i, j :: 0 <= i < j < |Hits(entries, kind, name)| ==> Hits(entries, kind, name)[i] < Hits(entries, kind, name)[j]
  {
    if entries != [] {
      var n := |entries| - 1;
      var less := Hits(entries[..n], kind, name);
      HitsAre(entries[..n], kind, name);
      forall i | 0 <= i < |less| ensures less[i] < n {
        assert less[i] in less;
      }
    }
  }

  lemma {:induction false} WithStepAre(entries: seq<Entry>, hits: seq<nat>, step: string)
    requires forall k :: 0 <= k < |hits| ==> hits[k] < |entries|
    requires forall i, j :: 0 <= i < j < |hits| ==> hits[i] < hits[j]
    ensures forall i :: i in WithStep(entries, hits, step) <==> i in hits && entries[i].step == step
    ensures forall i, j :: 0 <= i < j < |WithStep(entries, hits, step)| ==> WithStep(entries, hits, step)[i] < WithStep(entries, hits, step)[j]
  {
    if hits != [] {
      var n := |hits| - 1;
      var less := WithStep(entries, hits[..n], step);
      WithStepAre(entries, hits[..n], step);
      assert hits == hits[..n] + [hits[n]];
      forall i | 0 <= i < |less| ensures less[i] < hits[n] {
        assert less[i] in less;
      }
    }
  }

  /** A name registered as a verification alone is that verification, though it is called
      as a phase. */
  function Candidates(entries: seq<Entry>, call: Call): seq<nat> {
    var hits := Hits(entries, call.kind, call.name);
    if hits == [] && call.kind == Phase then Hits(entries, Verify, call.name) else hits
  }

  function Left(entries: seq<Entry>, call: Call): seq<nat> {
    var hits := Candidates(entries, call);
    if call.step != "" then WithStep(entries, hits, call.step) else hits
  }

  datatype Answer = Nothing | Several | At(index: nat)

  function Resolve(entries: seq<Entry>, call: Call): Answer {
    var hits := Left(entries, call);
    if hits == [] then Nothing
    else if |hits| > 1 && call.step == "" then Several
    else At(hits[0])
  }

  /** Whether entry `i` is one that `call` can mean. */
  ghost predicate Fits(entries: seq<Entry>, call: Call, i: nat)
    requires i < |entries|
  {
    && entries[i].name == call.name
    && (entries[i].kind == call.kind
        || (call.kind == Phase && entries[i].kind == Verify
            && !exists j :: 0 <= j < |entries| && entries[j].kind == Phase && entries[j].name == call.name))
    && (call.step != "" ==> entries[i].step == call.step)
  }

  lemma LeftFit(entries: seq<Entry>, call: Call)
    ensures forall i: nat :: i in Left(entries, call) <==> i < |entries| && Fits(entries, call, i)
    ensures forall i, j :: 0 <= i < j < |Left(entries, call)| ==> Left(entries, call)[i] < Left(entries, call)[j]
  {
    hide Hits, WithStep;
    HitsAre(entries, call.kind, call.name);
    HitsAre(entries, Verify, call.name);
    if call.step != "" {
      WithStepAre(entries, Candidates(entries, call), call.step);
    }
    if Hits(entries, call.kind, call.name) != [] {
      assert Hits(entries, call.kind, call.name)[0] in Hits(entries, call.kind, call.name);
    }
  }

  /** A call means nothing if no entry fits it; of several that fit, the first, and that
      only if it names the step. */
  lemma ResolveIs(entries: seq<Entry>, call: Call)
    ensures match Resolve(entries, call)
            case Nothing => forall i: nat :: i < |entries| ==> !Fits(entries, call, i)
            case Several => call.step == "" && exists i: nat, j: nat :: i < j < |entries| && Fits(entries, call, i) && Fits(entries, call, j)
            case At(i) =>
              && i < |entries| && Fits(entries, call, i)
              && (forall j: nat :: j < i ==> !Fits(entries, call, j))
              && (call.step == "" ==> forall j: nat :: j < |entries| && Fits(entries, call, j) ==> j == i)
  {
    hide Left, Fits;
    LeftFit(entries, call);
    var hits := Left(entries, call);
    if hits == [] {
      forall i: nat | i < |entries| ensures !Fits(entries, call, i) {
        assert i !in hits;
      }
    } else {
      assert hits[0] in hits;
      if |hits| > 1 {
        assert hits[1] in hits;
      }
      forall j: nat | j < |entries| && Fits(entries, call, j) ensures hits[0] <= j && (|hits| == 1 ==> j == hits[0]) {
        assert j in hits;
      }
    }
  }

  /** The entry a call is taken to mean is the first that registers its kind, name and step. */
  lemma MeantIsFirst(entries: seq<Entry>, call: Call)
    requires Resolve(entries, call).At?
    ensures var i := Resolve(entries, call).index; i < |entries| && forall j :: 0 <= j < i ==> entries[j] != entries[i]
  {
    ResolveIs(entries, call);
    var i := Resolve(entries, call).index;
    forall j | 0 <= j < i ensures entries[j] != entries[i] {
      assert !Fits(entries, call, j);
    }
  }

  // ---- one chain against one case ----------------------------------------

  /** The entries that the calls of a chain mean, in the order of the calls. */
  function Visits(entries: seq<Entry>, calls: seq<Call>): seq<nat> {
    if calls == [] then []
    else
      var less := Visits(entries, calls[..|calls| - 1]);
      match Resolve(entries, calls[|calls| - 1])
      case At(i) => less + [i]
      case _ => less
  }

  function Unresolved(c: Case, calls: seq<Call>): seq<Finding> {
    if calls == [] then []
    else
      var less, call := Unresolved(c, calls[..|calls| - 1]), calls[|calls| - 1];
      match Resolve(c.entries, call)
      case Nothing => less + [Missing(c.key, call)]
      case Several => less + [Ambiguous(c.key, call)]
      case At(_) => less
  }

  predicate IsSorted(s: seq<nat>) {
    forall i, j :: 0 <= i < j < |s| ==> s[i] <= s[j]
  }

  /** What a chain is told of a case that it is graded for. */
  function Problems(c: Case, calls: seq<Call>): seq<Finding> {
    var visits := Visits(c.entries, calls);
    Unresolved(c, calls) + if IsSorted(visits) then [] else [Inverted(c.key, visits)]
  }

  function ReachedOf(reached: map<Key, set<nat>>, key: Key): set<nat> {
    if key in reached then reached[key] else {}
  }

  function SetOf(s: seq<nat>): set<nat> {
    set i | i in s
  }

  datatype Book = Book(findings: seq<Finding>, reached: map<Key, set<nat>>)

  /** The entries reached by `more` calls added to those of a case. */
  function Reach(reached: map<Key, set<nat>>, key: Key, more: seq<nat>): map<Key, set<nat>> {
    if more == [] then reached else reached[key := ReachedOf(reached, key) + SetOf(more)]
  }

  datatype Grading = Grading(c: Case, calls: seq<Call>, recorded: bool) | NoCase(id: string)

  function Graded(book: Book, g: Grading): Book {
    match g
    case NoCase(id) => book.(findings := book.findings + [NoRegistration(id)])
    case Grading(c, calls, recorded) =>
      Book(book.findings + (if recorded then Problems(c, calls) else []),
           Reach(book.reached, c.key, Visits(c.entries, calls)))
  }

  function GradedAll(book: Book, gs: seq<Grading>): Book {
    if gs == [] then book else Graded(GradedAll(book, gs[..|gs| - 1]), gs[|gs| - 1])
  }

  // ---- the whole analysis ------------------------------------------------

  function Find(registry: seq<Case>, key: Key): Option<Case> {
    if registry == [] then None
    else if registry[0].key == key then Some(registry[0])
    else Find(registry[1..], key)
  }

  function SameId(registry: seq<Case>, id: string): seq<Case> {
    if registry == [] then []
    else
      var less, last := SameId(registry[..|registry| - 1], id), registry[|registry| - 1];
      if last.key.id == id then less + [last] else less
  }

  /** The case of a chain: that of its suite, else that of no suite, else the only one of
      that id. */
  function CaseOf(registry: seq<Case>, suite: string, id: string): Option<Case> {
    var own := Find(registry, Key(suite, id));
    if id == "" || own.Some? then own
    else
      var bare := Find(registry, Key("", id));
      if bare.Some? then bare
      else
        var same := SameId(registry, id);
        if |same| == 1 then Some(same[0]) else None
  }

  /** The other cases that the same file registers. */
  function Siblings(registry: seq<Case>, c: Case, calls: seq<Call>): seq<Grading> {
    if registry == [] then []
    else
      var less, last := Siblings(registry[..|registry| - 1], c, calls), registry[|registry| - 1];
      if last.file == c.file && last.key != c.key then less + [Grading(last, calls, false)] else less
  }

  function GradingsOf(registry: seq<Case>, chain: Chain): seq<Grading> {
    match CaseOf(registry, chain.suite, chain.id)
    case None => if chain.id == "" then [] else [NoCase(chain.id)]
    case Some(c) => (if chain.id == "" then [] else [Grading(c, chain.calls, true)]) + Siblings(registry, c, chain.calls)
  }

  function Gradings(registry: seq<Case>, chains: seq<Chain>): seq<Grading> {
    if chains == [] then []
    else Gradings(registry, chains[..|chains| - 1]) + GradingsOf(registry, chains[|chains| - 1])
  }

  function OrphansOf(c: Case, reached: set<nat>, n: nat): seq<Finding>
    requires n <= |c.entries|
  {
    if n == 0 then []
    else OrphansOf(c, reached, n - 1) + if n - 1 in reached then [] else [Orphan(c.key, n - 1)]
  }

  function Orphans(registry: seq<Case>, reached: map<Key, set<nat>>): seq<Finding> {
    if registry == [] then []
    else
      var last := registry[|registry| - 1];
      Orphans(registry[..|registry| - 1], reached) + OrphansOf(last, ReachedOf(reached, last.key), |last.entries|)
  }

  function Findings(registry: seq<Case>, chains: seq<Chain>): seq<Finding> {
    var book := GradedAll(Book([], map[]), Gradings(registry, chains));
    book.findings + Orphans(registry, book.reached)
  }

  /** The findings and the entries reached, shared by all that is graded. */
  class Analysis {
    var findings: seq<Finding>
    var reached: map<Key, set<nat>>

    ghost function Contents(): Book
      reads this
    {
      Book(findings, reached)
    }

    constructor ()
      ensures Contents() == Book([], map[])
    {
      findings, reached := [], map[];
    }

    method Grade(c: Case, calls: seq<Call>, recorded: bool)
      modifies this
      ensures Contents() == Graded(old(Contents()), Grading(c, calls, recorded))
    {
      hide Visits, Unresolved, Resolve, Reach;
      var visits: seq<nat> := [];
      NoCallYet(c, old(reached));
      assert calls[..0] == [] && findings + [] == findings;
      for i := 0 to |calls|
        invariant visits == Visits(c.entries, calls[..i])
        invariant findings == old(findings) + if recorded then Unresolved(c, calls[..i]) else []
        invariant reached == Reach(old(reached), c.key, visits)
      {
        OneMoreCall(c, calls[..i], calls[i]);
        assert calls[..i + 1] == calls[..i] + [calls[i]];
        match Resolve(c.entries, calls[i]) {
          case Nothing =>
            if recorded {
              findings := findings + [Missing(c.key, calls[i])];
            }
          case Several =>
            if recorded {
              findings := findings + [Ambiguous(c.key, calls[i])];
            }
          case At(at) =>
            ReachMore(old(reached), c.key, visits, at);
            visits := visits + [at];
            reached := reached[c.key := ReachedOf(reached, c.key) + {at}];
        }
      }
      assert calls[..|calls|] == calls;
      if recorded && !IsSorted(visits) {
        findings := findings + [Inverted(c.key, visits)];
      }
    }
  }

  lemma NoCallYet(c: Case, reached: map<Key, set<nat>>)
    ensures Visits(c.entries, []) == [] && Unresolved(c, []) == [] && Reach(reached, c.key, []) == reached
  {
  }

  lemma OneMoreCall(c: Case, calls: seq<Call>, call: Call)
    ensures Visits(c.entries, calls + [call])
            == match Resolve(c.entries, call) case At(i) => Visits(c.entries, calls) + [i] case _ => Visits(c.entries, calls)
    ensures Unresolved(c, calls + [call])
            == match Resolve(c.entries, call)
               case Nothing => Unresolved(c, calls) + [Missing(c.key, call)]
               case Several => Unresolved(c, calls) + [Ambiguous(c.key, call)]
               case At(_) => Unresolved(c, calls)
  {
    hide Resolve;
    assert (calls + [call])[..|calls|] == calls;
  }

  lemma ReachMore(reached: map<Key, set<nat>>, key: Key, more: seq<nat>, at: nat)
    ensures var less := Reach(reached, key, more);
            Reach(reached, key, more + [at]) == less[key := ReachedOf(less, key) + {at}]
  {
    assert SetOf(more + [at]) == SetOf(more) + {at};
    assert SetOf([at]) == {at};
    var less := Reach(reached, key, more);
    var all := ReachedOf(reached, key) + SetOf(more + [at]);
    if more == [] {
      assert more + [at] == [at];
    } else {
      assert all == ReachedOf(less, key) + {at};
      assert less[key := all] == reached[key := all];
    }
  }

  /** The whole analysis of the chains, in their order, and then of what none reached. */
  method Analyse(registry: seq<Case>, chains: seq<Chain>) returns (findings: seq<Finding>)
    ensures findings == Findings(registry, chains)
  {
    var a := new Analysis();
    for k := 0 to |chains|
      invariant a.Contents() == GradedAll(Book([], map[]), Gradings(registry, chains[..k]))
    {
      assert chains[..k + 1][..k] == chains[..k];
      GradeChain(a, registry, chains[k]);
      GradedMore(Book([], map[]), Gradings(registry, chains[..k]), GradingsOf(registry, chains[k]));
    }
    assert chains[..|chains|] == chains;
    var orphans := FindOrphans(registry, a.reached);
    findings := a.findings + orphans;
  }

  lemma {:induction false} GradedMore(book: Book, gs: seq<Grading>, more: seq<Grading>)
    ensures GradedAll(book, gs + more) == GradedAll(GradedAll(book, gs), more)
  {
    hide Graded;
    if more == [] {
      assert gs + more == gs;
    } else {
      var n := |more| - 1;
      GradedMore(book, gs, more[..n]);
      assert (gs + more)[..|gs + more| - 1] == gs + more[..n];
    }
  }

  method GradeChain(a: Analysis, registry: seq<Case>, chain: Chain)
    modifies a
    ensures a.Contents() == GradedAll(old(a.Contents()), GradingsOf(registry, chain))
  {
    hide Graded, GradedAll, CaseOf, GradingsOf;
    GradingsOfIs(registry, chain);
    var found := CaseOf(registry, chain.suite, chain.id);
    if found.None? {
      if chain.id != "" {
        GradedNoCase(a.Contents(), chain.id);
        OneGraded(a.Contents(), [NoCase(chain.id)]);
        a.findings := a.findings + [NoRegistration(chain.id)];
      } else {
        OneGraded(a.Contents(), []);
      }
      return;
    }
    var c := found.value;
    if chain.id != "" {
      a.Grade(c, chain.calls, true);
    }
    var first := if chain.id == "" then [] else [Grading(c, chain.calls, true)];
    OneGraded(old(a.Contents()), first);
    for k := 0 to |registry|
      invariant a.Contents() == GradedAll(old(a.Contents()), first + Siblings(registry[..k], c, chain.calls))
    {
      assert registry[..k + 1][..k] == registry[..k];
      var other := registry[k];
      if other.file == c.file && other.key != c.key {
        a.Grade(other, chain.calls, false);
        GradedOneMore(old(a.Contents()), first + Siblings(registry[..k], c, chain.calls), Grading(other, chain.calls, false));
        assert first + Siblings(registry[..k + 1], c, chain.calls)
            == first + Siblings(registry[..k], c, chain.calls) + [Grading(other, chain.calls, false)];
      }
    }
    assert registry[..|registry|] == registry;
  }

  lemma GradingsOfIs(registry: seq<Case>, chain: Chain)
    ensures GradingsOf(registry, chain) == match CaseOf(registry, chain.suite, chain.id)
            case None => if chain.id == "" then [] else [NoCase(chain.id)]
            case Some(c) => (if chain.id == "" then [] else [Grading(c, chain.calls, true)]) + Siblings(registry, c, chain.calls)
  {
  }

  lemma GradedNoCase(book: Book, id: string)
    ensures Graded(book, NoCase(id)) == book.(findings := book.findings + [NoRegistration(id)])
  {
  }

  lemma OneGraded(book: Book, gs: seq<Grading>)
    requires |gs| <= 1
    ensures GradedAll(book, gs) == if gs == [] then book else Graded(book, gs[0])
    ensures gs + [] == gs
  {
    assert |gs| == 1 ==> gs[..0] == [];
  }

  lemma GradedOneMore(book: Book, gs: seq<Grading>, g: Grading)
    ensures GradedAll(book, gs + [g]) == Graded(GradedAll(book, gs), g)
  {
    hide Graded;
    assert (gs + [g])[..|gs|] == gs;
  }

  method FindOrphans(registry: seq<Case>, reached: map<Key, set<nat>>) returns (findings: seq<Finding>)
    ensures findings == Orphans(registry, reached)
  {
    findings := [];
    for k := 0 to |registry|
      invariant findings == Orphans(registry[..k], reached)
    {
      assert registry[..k + 1][..k] == registry[..k];
      var c := registry[k];
      ghost var before := findings;
      for i := 0 to |c.entries|
        invariant findings == before + OrphansOf(c, ReachedOf(reached, c.key), i)
      {
        if i !in ReachedOf(reached, c.key) {
          findings := findings + [Orphan(c.key, i)];
        }
      }
    }
    assert registry[..|registry|] == registry;
  }
}
