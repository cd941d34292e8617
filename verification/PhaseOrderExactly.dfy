/** The findings of an analysis, one by one and in their order, told by what the calls can
    mean and what is registered. */
module PhaseOrderExactly {
  import opened Picking
  import opened PhaseOrder
  import opened PhaseOrderFacts
  import opened Wrappers

  // ---- what a call means -------------------------------------------------

  /** Entry `i` is what `call` means: the first that fits, and without a step the only one. */
  ghost predicate Means(entries: seq<Entry>, call: Call, i: nat) {
    && i < |entries| && Fits(entries, call, i)
    && (forall j: nat :: j < i ==> !Fits(entries, call, j))
    && (call.step == "" ==> forall j: nat :: j < |entries| && Fits(entries, call, j) ==> j == i)
  }

  ghost predicate MeansNone(entries: seq<Entry>, call: Call) {
    forall i: nat :: i < |entries| ==> !Fits(entries, call, i)
  }

  ghost predicate MeansSeveral(entries: seq<Entry>, call: Call) {
    call.step == "" && exists i: nat, j: nat :: i < j < |entries| && Fits(entries, call, i) && Fits(entries, call, j)
  }

  lemma MeaningIs(entries: seq<Entry>, call: Call)
    ensures forall i: nat :: Means(entries, call, i) <==> Resolve(entries, call) == At(i)
    ensures MeansNone(entries, call) <==> Resolve(entries, call) == Nothing
    ensures MeansSeveral(entries, call) <==> Resolve(entries, call) == Several
  {
    hide Fits, Resolve;
    ResolveIs(entries, call);
  }

  // ---- one chain against one case ----------------------------------------

  ghost function Visiting(entries: seq<Entry>, calls: seq<Call>): (nat, nat) -> bool {
    (k: nat, i: nat) => k < |calls| && Means(entries, calls[k], i)
  }

  /** The entries visited are those the calls mean, in the order of the calls. */
  lemma {:induction false} VisitsAre(entries: seq<Entry>, calls: seq<Call>)
    ensures Picks(Visits(entries, calls), |calls|, Visiting(entries, calls))
  {
    hide Picks, Resolve, Means;
    if calls == [] {
      PicksNone(Visiting(entries, calls));
    } else {
      var n := |calls| - 1;
      VisitsAre(entries, calls[..n]);
      PicksSame(Visits(entries, calls[..n]), n, Visiting(entries, calls[..n]), Visiting(entries, calls));
      MeaningIs(entries, calls[n]);
      match Resolve(entries, calls[n]) {
        case At(i) => PicksMore(Visits(entries, calls[..n]), n, Visiting(entries, calls), i);
        case _ => PicksNoMore(Visits(entries, calls[..n]), n, Visiting(entries, calls));
      }
    }
  }

  ghost function Failing(c: Case, calls: seq<Call>): (nat, Finding) -> bool {
    (k: nat, f: Finding) =>
      k < |calls| && ((f == Missing(c.key, calls[k]) && MeansNone(c.entries, calls[k]))
                      || (f == Ambiguous(c.key, calls[k]) && MeansSeveral(c.entries, calls[k])))
  }

  lemma {:induction false} UnresolvedExactly(c: Case, calls: seq<Call>)
    ensures Picks(Unresolved(c, calls), |calls|, Failing(c, calls))
  {
    hide Picks, Resolve, MeansNone, MeansSeveral;
    if calls == [] {
      PicksNone(Failing(c, calls));
    } else {
      var n := |calls| - 1;
      UnresolvedExactly(c, calls[..n]);
      PicksSame(Unresolved(c, calls[..n]), n, Failing(c, calls[..n]), Failing(c, calls));
      MeaningIs(c.entries, calls[n]);
      match Resolve(c.entries, calls[n]) {
        case Nothing => PicksMore(Unresolved(c, calls[..n]), n, Failing(c, calls), Missing(c.key, calls[n]));
        case Several => PicksMore(Unresolved(c, calls[..n]), n, Failing(c, calls), Ambiguous(c.key, calls[n]));
        case At(_) => PicksNoMore(Unresolved(c, calls[..n]), n, Failing(c, calls));
      }
    }
  }

  /** A chain is told of every call that means no entry or several, in the order of its calls,
      and then, if a call goes back before an earlier one, of all the entries it visits. */
  ghost predicate Told(c: Case, calls: seq<Call>, told: seq<Finding>) {
    exists failed: seq<Finding>, visits: seq<nat> ::
      && Picks(failed, |calls|, Failing(c, calls)) && Picks(visits, |calls|, Visiting(c.entries, calls))
      && told == failed + if exists i, j :: 0 <= i < j < |visits| && visits[j] < visits[i] then [Inverted(c.key, visits)] else []
  }

  lemma ProblemsExactly(c: Case, calls: seq<Call>)
    ensures Told(c, calls, Problems(c, calls))
  {
    hide Picks, Visits, Unresolved;
    VisitsAre(c.entries, calls);
    UnresolvedExactly(c, calls);
    var failed, visits := Unresolved(c, calls), Visits(c.entries, calls);
    assert IsSorted(visits) <==> !exists i, j :: 0 <= i < j < |visits| && visits[j] < visits[i];
  }

  // ---- what is graded ----------------------------------------------------

  ghost function IsSibling(registry: seq<Case>, c: Case, calls: seq<Call>): (nat, Grading) -> bool {
    (k: nat, g: Grading) =>
      k < |registry| && registry[k].file == c.file && registry[k].key != c.key && g == Grading(registry[k], calls, false)
  }

  lemma {:induction false} SiblingsExactly(registry: seq<Case>, c: Case, calls: seq<Call>)
    ensures Picks(Siblings(registry, c, calls), |registry|, IsSibling(registry, c, calls))
  {
    hide Picks;
    if registry == [] {
      PicksNone(IsSibling(registry, c, calls));
    } else {
      var n := |registry| - 1;
      SiblingsExactly(registry[..n], c, calls);
      PicksSame(Siblings(registry[..n], c, calls), n, IsSibling(registry[..n], c, calls), IsSibling(registry, c, calls));
      if registry[n].file == c.file && registry[n].key != c.key {
        PicksMore(Siblings(registry[..n], c, calls), n, IsSibling(registry, c, calls), Grading(registry[n], calls, false));
      } else {
        PicksNoMore(Siblings(registry[..n], c, calls), n, IsSibling(registry, c, calls));
      }
    }
  }

  /** A chain is graded for its case, if it names one, and then for the others of the file. */
  ghost predicate GradedAs(registry: seq<Case>, chain: Chain, gs: seq<Grading>) {
    match CaseOf(registry, chain.suite, chain.id)
    case None => if |chain.id| > 0 then gs == [NoCase(chain.id)] else |gs| == 0
    case Some(c) =>
      exists others: seq<Grading> ::
        && Picks(others, |registry|, IsSibling(registry, c, chain.calls))
        && gs == if |chain.id| > 0 then [Grading(c, chain.calls, true)] + others else others
  }

  lemma GradingsOfExactly(registry: seq<Case>, chain: Chain)
    ensures GradedAs(registry, chain, GradingsOf(registry, chain))
  {
    hide CaseOf, Siblings, Picks;
    var found := CaseOf(registry, chain.suite, chain.id);
    if found.Some? {
      SiblingsExactly(registry, found.value, chain.calls);
      assert [] + Siblings(registry, found.value, chain.calls) == Siblings(registry, found.value, chain.calls);
    }
  }

  ghost predicate AllGradedAs(registry: seq<Case>, chains: seq<Chain>, parts: seq<seq<Grading>>) {
    |parts| == |chains| && forall k :: 0 <= k < |parts| ==> GradedAs(registry, chains[k], parts[k])
  }

  lemma FlatMore<T>(parts: seq<seq<T>>, part: seq<T>)
    ensures Flat(parts + [part]) == Flat(parts) + part
  {
    assert (parts + [part])[..|parts|] == parts;
  }

  lemma {:induction false} GradingsExactly(registry: seq<Case>, chains: seq<Chain>) returns (parts: seq<seq<Grading>>)
    ensures AllGradedAs(registry, chains, parts) && Gradings(registry, chains) == Flat(parts)
  {
    hide GradingsOf, GradedAs;
    if chains == [] {
      return [];
    }
    var n := |chains| - 1;
    var less := GradingsExactly(registry, chains[..n]);
    GradingsOfExactly(registry, chains[n]);
    FlatMore(less, GradingsOf(registry, chains[n]));
    parts := less + [GradingsOf(registry, chains[n])];
  }

  // ---- the findings ------------------------------------------------------

  /** What is found in grading `g`. */
  ghost predicate ToldOf(g: Grading, told: seq<Finding>) {
    match g
    case NoCase(id) => told == [NoRegistration(id)]
    case Grading(c, calls, recorded) => if recorded then Told(c, calls, told) else |told| == 0
  }

  ghost predicate AllTold(gs: seq<Grading>, told: seq<seq<Finding>>) {
    |told| == |gs| && forall k :: 0 <= k < |told| ==> ToldOf(gs[k], told[k])
  }

  lemma {:induction false} GradedExactly(book: Book, gs: seq<Grading>) returns (told: seq<seq<Finding>>)
    ensures AllTold(gs, told) && GradedAll(book, gs).findings == book.findings + Flat(told)
  {
    hide Problems, Reach, Told;
    if gs == [] {
      return [];
    }
    var n := |gs| - 1;
    var less := GradedExactly(book, gs[..n]);
    var found := match gs[n] case NoCase(id) => [NoRegistration(id)] case Grading(c, calls, recorded) => if recorded then Problems(c, calls) else [];
    if gs[n].Grading? {
      ProblemsExactly(gs[n].c, gs[n].calls);
    }
    FlatMore(less, found);
    told := less + [found];
    assert GradedAll(book, gs).findings == book.findings + Flat(less) + found;
  }

  /** No grading of the case's key reaches the entry. */
  ghost function Unreached(registry: seq<Case>, gs: seq<Grading>, c: Case): (nat, Finding) -> bool {
    (i: nat, f: Finding) => f == Orphan(c.key, i) && !exists g :: g in gs && Reaching(g, c.key, i)
  }

  /** A call of grading `g` means entry `i` of the case `key`. */
  ghost predicate Reaching(g: Grading, key: Key, i: nat) {
    g.Grading? && g.c.key == key && exists k :: 0 <= k < |g.calls| && Means(g.c.entries, g.calls[k], i)
  }

  lemma ReachingIs(g: Grading, key: Key, i: nat)
    ensures Reaching(g, key, i) <==> Reaches(g, key, i)
  {
    hide Means, Resolve, Visits;
    if g.Grading? {
      VisitIsMeant(g.c.entries, g.calls, i);
      forall k | 0 <= k < |g.calls| ensures Means(g.c.entries, g.calls[k], i) <==> Resolve(g.c.entries, g.calls[k]) == At(i) {
        MeaningIs(g.c.entries, g.calls[k]);
      }
    }
  }

  lemma {:induction false} OrphansOfExactly(registry: seq<Case>, gs: seq<Grading>, c: Case, reached: set<nat>, n: nat)
    requires n <= |c.entries|
    requires forall i: nat :: i in reached <==> exists g :: g in gs && Reaching(g, c.key, i)
    ensures Picks(OrphansOf(c, reached, n), n, Unreached(registry, gs, c))
  {
    hide Picks, Reaching;
    if n == 0 {
      PicksNone(Unreached(registry, gs, c));
    } else {
      OrphansOfExactly(registry, gs, c, reached, n - 1);
      var less := OrphansOf(c, reached, n - 1);
      if n - 1 in reached {
        PicksNoMore(less, n - 1, Unreached(registry, gs, c));
        assert less + [] == less;
      } else {
        PicksMore(less, n - 1, Unreached(registry, gs, c), Orphan(c.key, n - 1));
      }
    }
  }

  ghost predicate AllOrphans(registry: seq<Case>, gs: seq<Grading>, parts: seq<seq<Finding>>) {
    |parts| == |registry|
    && forall k :: 0 <= k < |parts| ==> Picks(parts[k], |registry[k].entries|, Unreached(registry, gs, registry[k]))
  }

  ghost predicate IsReached(reached: map<Key, set<nat>>, gs: seq<Grading>) {
    forall key: Key, i: nat :: i in ReachedOf(reached, key) <==> exists g :: g in gs && Reaching(g, key, i)
  }

  lemma ReachedIs(gs: seq<Grading>)
    ensures IsReached(GradedAll(Book([], map[]), gs).reached, gs)
  {
    hide Reaching, Reaches, GradedAll;
    var reached := GradedAll(Book([], map[]), gs).reached;
    forall key: Key, i: nat ensures i in ReachedOf(reached, key) <==> exists g :: g in gs && Reaching(g, key, i) {
      GradedReach(Book([], map[]), gs, key, i);
      forall g | g in gs ensures Reaching(g, key, i) <==> Reaches(g, key, i) {
        ReachingIs(g, key, i);
      }
    }
  }

  lemma {:induction false} OrphansExactly(registry: seq<Case>, gs: seq<Grading>, reached: map<Key, set<nat>>, n: nat)
    returns (parts: seq<seq<Finding>>)
    requires IsReached(reached, gs) && n <= |registry|
    ensures |parts| == n && Orphans(registry[..n], reached) == Flat(parts)
    ensures forall k :: 0 <= k < n ==> Picks(parts[k], |registry[k].entries|, Unreached(registry, gs, registry[k]))
  {
    hide Picks, Reaching, OrphansOf;
    if n == 0 {
      return [];
    }
    var less := OrphansExactly(registry, gs, reached, n - 1);
    var c := registry[n - 1];
    assert registry[..n][..n - 1] == registry[..n - 1];
    OrphansOfExactly(registry, gs, c, ReachedOf(reached, c.key), |c.entries|);
    var last := OrphansOf(c, ReachedOf(reached, c.key), |c.entries|);
    FlatMore(less, last);
    parts := less + [last];
  }

  /** The findings of the whole analysis, in order: chain by chain what is told of it, and then
      case by case the entries that nothing graded means. */
  ghost predicate FoundAs(registry: seq<Case>, chains: seq<Chain>, findings: seq<Finding>) {
    exists parts: seq<seq<Grading>>, told: seq<seq<Finding>>, orphans: seq<seq<Finding>> ::
      && AllGradedAs(registry, chains, parts) && AllTold(Flat(parts), told) && AllOrphans(registry, Flat(parts), orphans)
      && findings == Flat(told) + Flat(orphans)
  }

  lemma FindingsExactly(registry: seq<Case>, chains: seq<Chain>)
    ensures FoundAs(registry, chains, Findings(registry, chains))
  {
    hide Gradings, GradedAll, Orphans, AllGradedAs, AllTold, Picks, IsReached;
    var parts := GradingsExactly(registry, chains);
    var gs := Gradings(registry, chains);
    var told := GradedExactly(Book([], map[]), gs);
    assert [] + Flat(told) == Flat(told);
    ReachedIs(gs);
    var reached := GradedAll(Book([], map[]), gs).reached;
    assert registry[..|registry|] == registry;
    var orphans := OrphansExactly(registry, gs, reached, |registry|);
  }
}
