/** What can be concluded from the findings about a case, and from there being none. */
module PhaseOrderFacts {
  import opened PhaseOrder
  import opened Wrappers

  // ---- repeats removed ---------------------------------------------------

  /** `s` with every run of one number reduced to that number. */
  function WithoutRepeats(s: seq<nat>): (t: seq<nat>)
    ensures s == [] <==> t == []
    ensures s != [] ==> t[|t| - 1] == s[|s| - 1]
  {
    if s == [] then []
    else
      var less, last := WithoutRepeats(s[..|s| - 1]), s[|s| - 1];
      if less != [] && less[|less| - 1] == last then less else less + [last]
  }

  function UpTo(n: nat): seq<nat> {
    seq(n, i => i)
  }

  predicate Ascending(s: seq<nat>) {
    forall i, j :: 0 <= i < j < |s| ==> s[i] < s[j]
  }

  lemma {:induction false} SameNumbers(s: seq<nat>)
    ensures SetOf(WithoutRepeats(s)) == SetOf(s)
  {
    if s != [] {
      var less, last := s[..|s| - 1], s[|s| - 1];
      SameNumbers(less);
      assert s == less + [last];
      assert SetOf(s) == SetOf(less) + {last};
      assert SetOf(WithoutRepeats(less) + [last]) == SetOf(WithoutRepeats(less)) + {last};
    }
  }

  lemma {:induction false} SortedIsAscending(s: seq<nat>)
    requires IsSorted(s)
    ensures Ascending(WithoutRepeats(s))
  {
    if s != [] {
      var less, last := s[..|s| - 1], s[|s| - 1];
      var t := WithoutRepeats(less);
      SortedIsAscending(less);
      forall i | 0 <= i < |t| ensures t[i] <= last {
        assert t[|t| - 1] == less[|less| - 1] == s[|less| - 1];
      }
    }
  }

  lemma {:induction false} AscendingIsSorted(s: seq<nat>)
    requires Ascending(WithoutRepeats(s))
    ensures IsSorted(s)
  {
    if s != [] {
      var less, last := s[..|s| - 1], s[|s| - 1];
      var t, u := WithoutRepeats(less), WithoutRepeats(s);
      assert t == u[..|t|];
      AscendingIsSorted(less);
      if less != [] {
        assert u[|t| - 1] == t[|t| - 1] == less[|less| - 1] <= last;
      }
      forall i | 0 <= i < |less| ensures s[i] <= last {
        assert less[i] <= less[|less| - 1] <= last;
      }
    }
  }

  lemma {:induction false} AscendingAll(s: seq<nat>, n: nat)
    requires Ascending(s)
    requires forall i :: i in s <==> 0 <= i < n
    ensures s == UpTo(n)
  {
    if s == [] {
      assert n > 0 ==> n - 1 in s;
    } else {
      var k := |s| - 1;
      assert s[k] in s;
      assert n - 1 in s;
      var p :| 0 <= p < |s| && s[p] == n - 1;
      assert p == k;
      forall i | 0 <= i < n - 1 ensures i in s[..k] {
        assert i in s;
      }
      forall i | i in s[..k] ensures 0 <= i < n - 1 {
        assert i in s;
      }
      AscendingAll(s[..k], n - 1);
      assert s == s[..k] + [n - 1];
    }
  }

  /** A list is in order and names every number under `n` just when, its repeats removed, it
      is those numbers. */
  lemma VisitsAllInOrder(s: seq<nat>, n: nat)
    ensures IsSorted(s) && (forall i :: i in s <==> 0 <= i < n) <==> WithoutRepeats(s) == UpTo(n)
  {
    var t := WithoutRepeats(s);
    if IsSorted(s) {
      SortedIsAscending(s);
    }
    if Ascending(t) {
      AscendingIsSorted(s);
    }
    SameNumbers(s);
    assert forall i: nat :: i in s <==> i in SetOf(s);
    assert forall i: nat :: i in t <==> i in SetOf(t);
    if Ascending(t) && (forall i :: i in s <==> 0 <= i < n) {
      AscendingAll(t, n);
    }
    if t == UpTo(n) {
      forall i | 0 <= i < n ensures i in t {
        assert t[i] == i;
      }
    }
  }

  // ---- what the book holds -----------------------------------------------

  ghost predicate Reaches(g: Grading, key: Key, i: nat) {
    g.Grading? && g.c.key == key && i in Visits(g.c.entries, g.calls)
  }

  lemma {:induction false} GradedReach(book: Book, gs: seq<Grading>, key: Key, i: nat)
    ensures i in ReachedOf(GradedAll(book, gs).reached, key)
            <==> i in ReachedOf(book.reached, key) || exists g :: g in gs && Reaches(g, key, i)
  {
    hide Visits, Problems;
    if gs != [] {
      var less, g := gs[..|gs| - 1], gs[|gs| - 1];
      GradedReach(book, less, key, i);
      assert gs == less + [g];
      GradedReachOnce(GradedAll(book, less), g, key, i);
      assert Reaches(g, key, i) ==> g in gs;
    }
  }

  lemma GradedReachOnce(book: Book, g: Grading, key: Key, i: nat)
    ensures i in ReachedOf(Graded(book, g).reached, key) <==> i in ReachedOf(book.reached, key) || Reaches(g, key, i)
  {
    hide Visits, Problems;
  }

  ghost predicate Tells(g: Grading, f: Finding) {
    match g
    case NoCase(id) => f == NoRegistration(id)
    case Grading(c, calls, recorded) => recorded && f in Problems(c, calls)
  }

  lemma {:induction false} GradedTells(book: Book, gs: seq<Grading>, f: Finding)
    ensures f in GradedAll(book, gs).findings <==> f in book.findings || exists g :: g in gs && Tells(g, f)
  {
    hide Problems, Reach;
    if gs != [] {
      var less, g := gs[..|gs| - 1], gs[|gs| - 1];
      GradedTells(book, less, f);
      assert gs == less + [g];
      assert f in GradedAll(book, gs).findings <==> f in GradedAll(book, less).findings || Tells(g, f);
      assert Tells(g, f) ==> g in gs;
    }
  }

  ghost predicate About(f: Finding, key: Key) {
    !f.NoRegistration? && f.key == key
  }

  lemma {:induction false} UnresolvedAre(c: Case, calls: seq<Call>)
    ensures forall f :: f in Unresolved(c, calls) ==> !f.Orphan? && About(f, c.key)
    ensures Unresolved(c, calls) == [] <==> forall k :: 0 <= k < |calls| ==> Resolve(c.entries, calls[k]).At?
  {
    hide Resolve;
    if calls != [] {
      UnresolvedAre(c, calls[..|calls| - 1]);
    }
  }

  lemma ProblemsAre(c: Case, calls: seq<Call>)
    ensures forall f :: f in Problems(c, calls) ==> !f.Orphan? && About(f, c.key)
    ensures Problems(c, calls) == []
            <==> (forall k :: 0 <= k < |calls| ==> Resolve(c.entries, calls[k]).At?) && IsSorted(Visits(c.entries, calls))
  {
    hide Resolve, Visits, Unresolved;
    UnresolvedAre(c, calls);
  }

  lemma {:induction false} OrphansOfAre(c: Case, reached: set<nat>, n: nat, f: Finding)
    requires n <= |c.entries|
    ensures f in OrphansOf(c, reached, n) <==> f.Orphan? && f.key == c.key && f.at < n && f.at !in reached
  {
    if n > 0 {
      OrphansOfAre(c, reached, n - 1, f);
    }
  }

  lemma {:induction false} OrphansAre(registry: seq<Case>, reached: map<Key, set<nat>>, f: Finding)
    ensures f in Orphans(registry, reached)
            <==> f.Orphan? && exists c :: c in registry && c.key == f.key && f.at < |c.entries| && f.at !in ReachedOf(reached, f.key)
  {
    if registry != [] {
      var less, last := registry[..|registry| - 1], registry[|registry| - 1];
      OrphansAre(less, reached, f);
      OrphansOfAre(last, ReachedOf(reached, last.key), |last.entries|, f);
      assert registry == less + [last];
    }
  }

  /** The cases of a registry have different keys. */
  ghost predicate Keyed(registry: seq<Case>) {
    forall c, d :: c in registry && d in registry && c.key == d.key ==> c == d
  }

  lemma {:induction false} FindIs(registry: seq<Case>, key: Key)
    ensures Find(registry, key).Some? ==> Find(registry, key).value in registry && Find(registry, key).value.key == key
    ensures Find(registry, key).None? ==> forall c :: c in registry ==> c.key != key
  {
    if registry != [] {
      FindIs(registry[1..], key);
      assert registry == [registry[0]] + registry[1..];
    }
  }

  lemma {:induction false} SameIdAre(registry: seq<Case>, id: string)
    ensures forall c :: c in SameId(registry, id) <==> c in registry && c.key.id == id
  {
    if registry != [] {
      SameIdAre(registry[..|registry| - 1], id);
      assert registry == registry[..|registry| - 1] + [registry[|registry| - 1]];
    }
  }

  lemma CaseIsRegistered(registry: seq<Case>, suite: string, id: string)
    ensures CaseOf(registry, suite, id).Some? ==> CaseOf(registry, suite, id).value in registry
  {
    FindIs(registry, Key(suite, id));
    FindIs(registry, Key("", id));
    SameIdAre(registry, id);
    assert |SameId(registry, id)| == 1 ==> SameId(registry, id)[0] in SameId(registry, id);
  }

  /** A chain is graded for the case of its own suite; when there is none, for that of no
      suite; when there is neither, for the only case of its id. One that names no case goes
      with the case of no id of its own suite. */
  lemma GradedForItsOwn(registry: seq<Case>, suite: string, id: string)
    requires Keyed(registry)
    ensures match CaseOf(registry, suite, id)
            case Some(c) =>
              && c in registry && c.key.id == id
              && (c.key.suite == suite
                  || (id != ""
                      && (forall d :: d in registry ==> d.key != Key(suite, id))
                      && (c.key.suite == ""
                          || ((forall d :: d in registry ==> d.key != Key("", id))
                              && forall d :: d in registry && d.key.id == id ==> d == c))))
            case None =>
              && (forall d :: d in registry ==> d.key != Key(suite, id))
              && (id != "" ==>
                   && (forall d :: d in registry ==> d.key != Key("", id))
                   && !exists c :: c in registry && c.key.id == id && OnlyOnce(registry, c))
  {
    FindIs(registry, Key(suite, id));
    FindIs(registry, Key("", id));
    SameIdAre(registry, id);
    var same := SameId(registry, id);
    if |same| == 1 {
      assert same[0] in same;
      assert forall d :: d in same ==> d == same[0];
    }
    forall c | c in registry && c.key.id == id && OnlyOnce(registry, c) ensures |same| == 1 {
      SameIdOnce(registry, id, c);
    }
  }

  /** `c` is registered at one place and no other case has its id. */
  ghost predicate OnlyOnce(registry: seq<Case>, c: Case) {
    exists i :: 0 <= i < |registry| && registry[i] == c
                && forall j :: 0 <= j < |registry| && registry[j].key.id == c.key.id ==> j == i
  }

  lemma {:induction false} NoSameId(registry: seq<Case>, id: string)
    requires forall j :: 0 <= j < |registry| ==> registry[j].key.id != id
    ensures SameId(registry, id) == []
  {
    if registry != [] {
      NoSameId(registry[..|registry| - 1], id);
    }
  }

  lemma {:induction false} SameIdOnce(registry: seq<Case>, id: string, c: Case)
    requires c.key.id == id && OnlyOnce(registry, c)
    ensures SameId(registry, id) == [c]
  {
    var i :| 0 <= i < |registry| && registry[i] == c
             && forall j :: 0 <= j < |registry| && registry[j].key.id == c.key.id ==> j == i;
    var n := |registry| - 1;
    var less := registry[..n];
    if i == n {
      assert forall j :: 0 <= j < n ==> less[j] == registry[j];
      NoSameId(less, id);
    } else {
      assert less[i] == c;
      assert forall j :: 0 <= j < n ==> less[j] == registry[j];
      assert OnlyOnce(less, c);
      SameIdOnce(less, id, c);
    }
  }

  /** What is graded: each chain that names a case for that case, and for every other case of
      the same file without a record. */
  lemma {:induction false} GradingsAre(registry: seq<Case>, chains: seq<Chain>, c: Case, calls: seq<Call>, recorded: bool)
    ensures Grading(c, calls, recorded) in Gradings(registry, chains)
            <==> exists k :: 0 <= k < |chains| && chains[k].calls == calls && IsGraded(registry, chains[k], c, recorded)
  {
    hide IsGraded, GradingsOf, Gradings;
    GradingsHere(registry, chains);
    if chains != [] {
      var n := |chains| - 1;
      var less := chains[..n];
      GradingsAre(registry, less, c, calls, recorded);
      GradingsOfAre(registry, chains[n], c, calls, recorded);
      if k :| 0 <= k < n && less[k].calls == calls && IsGraded(registry, less[k], c, recorded) {
        assert less[k] == chains[k];
      }
      if k :| 0 <= k < |chains| && chains[k].calls == calls && IsGraded(registry, chains[k], c, recorded) {
        assert k < n ==> less[k] == chains[k];
      }
    }
  }

  lemma GradingsHere(registry: seq<Case>, chains: seq<Chain>)
    ensures Gradings(registry, []) == []
    ensures chains != []
            ==> Gradings(registry, chains) == Gradings(registry, chains[..|chains| - 1]) + GradingsOf(registry, chains[|chains| - 1])
  {
    hide GradingsOf;
  }

  ghost predicate IsGraded(registry: seq<Case>, chain: Chain, c: Case, recorded: bool) {
    var found := CaseOf(registry, chain.suite, chain.id);
    && found.Some?
    && if recorded then c == found.value && chain.id != ""
       else c in registry && c.file == found.value.file && c.key != found.value.key
  }

  lemma GradingsOfAre(registry: seq<Case>, chain: Chain, c: Case, calls: seq<Call>, recorded: bool)
    ensures Grading(c, calls, recorded) in GradingsOf(registry, chain) <==> chain.calls == calls && IsGraded(registry, chain, c, recorded)
  {
    hide CaseOf, Siblings;
    var found := CaseOf(registry, chain.suite, chain.id);
    if found.Some? {
      SiblingsAre(registry, found.value, chain.calls, Grading(c, calls, recorded));
    }
  }

  lemma {:induction false} SiblingsAre(registry: seq<Case>, c: Case, calls: seq<Call>, g: Grading)
    ensures g in Siblings(registry, c, calls)
            <==> g.Grading? && g.c in registry && g.c.file == c.file && g.c.key != c.key && g.calls == calls && !g.recorded
  {
    if registry != [] {
      SiblingsAre(registry[..|registry| - 1], c, calls, g);
      assert registry == registry[..|registry| - 1] + [registry[|registry| - 1]];
    }
  }

  lemma {:induction false} SiblingsAreRegistered(registry: seq<Case>, c: Case, calls: seq<Call>)
    ensures forall g :: g in Siblings(registry, c, calls) ==> g.Grading? && g.c in registry
  {
    if registry != [] {
      SiblingsAreRegistered(registry[..|registry| - 1], c, calls);
      assert registry == registry[..|registry| - 1] + [registry[|registry| - 1]];
    }
  }

  lemma {:induction false} GradedAreRegistered(registry: seq<Case>, chains: seq<Chain>)
    ensures forall g :: g in Gradings(registry, chains) && g.Grading? ==> g.c in registry
  {
    hide CaseOf, Siblings;
    if chains != [] {
      var last := chains[|chains| - 1];
      GradedAreRegistered(registry, chains[..|chains| - 1]);
      CaseIsRegistered(registry, last.suite, last.id);
      var found := CaseOf(registry, last.suite, last.id);
      if found.Some? {
        SiblingsAreRegistered(registry, found.value, last.calls);
      }
    }
  }

  // ---- what the findings say ---------------------------------------------

  /** An entry is an orphan just when no chain that is graded for its case, on its own
      account or for a case of the same file, means it. */
  lemma OrphanIffNoneReaches(registry: seq<Case>, chains: seq<Chain>, c: Case, i: nat)
    requires Keyed(registry) && c in registry && i < |c.entries|
    ensures Orphan(c.key, i) in Findings(registry, chains) <==> !exists g :: g in Gradings(registry, chains) && Reaches(g, c.key, i)
  {
    hide Problems, GradedAll, Gradings, Orphans, Visits;
    var start, gs := Book([], map[]), Gradings(registry, chains);
    var book := GradedAll(start, gs);
    GradedReach(start, gs, c.key, i);
    OrphansAre(registry, book.reached, Orphan(c.key, i));
    GradedTells(start, gs, Orphan(c.key, i));
    forall g | g in gs ensures !Tells(g, Orphan(c.key, i)) {
      if g.Grading? {
        ProblemsAre(g.c, g.calls);
      }
    }
  }

  lemma {:induction false} VisitIsMeant(entries: seq<Entry>, calls: seq<Call>, i: nat)
    ensures i in Visits(entries, calls) <==> exists k :: 0 <= k < |calls| && Resolve(entries, calls[k]) == At(i)
  {
    hide Resolve;
    if calls != [] {
      var n := |calls| - 1;
      VisitIsMeant(entries, calls[..n], i);
      assert forall k :: 0 <= k < n ==> calls[..n][k] == calls[k];
    }
  }

  /** An entry that repeats an earlier one is an orphan, whatever the chains call. */
  lemma RepeatedIsOrphan(registry: seq<Case>, chains: seq<Chain>, c: Case, i: nat, j: nat)
    requires Keyed(registry) && c in registry && i < j < |c.entries| && c.entries[i] == c.entries[j]
    ensures Orphan(c.key, j) in Findings(registry, chains)
  {
    hide Resolve, Visits, Findings, Gradings;
    OrphanIffNoneReaches(registry, chains, c, j);
    GradedAreRegistered(registry, chains);
    forall g | g in Gradings(registry, chains) ensures !Reaches(g, c.key, j) {
      if g.Grading? && g.c.key == c.key {
        assert g.c == c;
        VisitIsMeant(c.entries, g.calls, j);
        forall k | 0 <= k < |g.calls| ensures Resolve(c.entries, g.calls[k]) != At(j) {
          if Resolve(c.entries, g.calls[k]).At? {
            MeantIsFirst(c.entries, g.calls[k]);
          }
        }
      }
    }
  }

  /** So a case without an orphan registers nothing twice. */
  lemma NoOrphanNoRepeat(registry: seq<Case>, chains: seq<Chain>, c: Case)
    requires Keyed(registry) && c in registry
    requires forall i: nat :: Orphan(c.key, i) !in Findings(registry, chains)
    ensures forall i, j :: 0 <= i < j < |c.entries| ==> c.entries[i] != c.entries[j]
  {
    hide Findings;
    forall i, j | 0 <= i < j < |c.entries| ensures c.entries[i] != c.entries[j] {
      if c.entries[i] == c.entries[j] {
        RepeatedIsOrphan(registry, chains, c, i, j);
      }
    }
  }

  /** Of all that is graded, only the calls `calls` are graded for the case, and for it. */
  ghost predicate OnlyChain(gs: seq<Grading>, c: Case, calls: seq<Call>) {
    && Grading(c, calls, true) in gs
    && forall g :: g in gs && g.Grading? && g.c.key == c.key ==> g == Grading(c, calls, true)
  }

  /** Nothing is found about a case that one chain alone is graded for just when all its
      calls mean some entry and, repeats removed, they mean the first, the second and so on
      to the last. */
  lemma NothingFoundIffAllInOrder(registry: seq<Case>, chains: seq<Chain>, c: Case, calls: seq<Call>)
    requires Keyed(registry) && c in registry
    requires OnlyChain(Gradings(registry, chains), c, calls)
    ensures (forall f :: f in Findings(registry, chains) ==> !About(f, c.key))
            <==> (forall k :: 0 <= k < |calls| ==> Resolve(c.entries, calls[k]).At?)
                 && WithoutRepeats(Visits(c.entries, calls)) == UpTo(|c.entries|)
  {
    hide Findings, Gradings, Problems, Resolve, Visits, Keyed, WithoutRepeats;
    ProblemsAre(c, calls);
    FoundIff(registry, chains, c, calls);
    VisitsAllInOrder(Visits(c.entries, calls), |c.entries|);
    VisitsAreEntries(c.entries, calls);
  }

  lemma {:induction false} VisitsAreEntries(entries: seq<Entry>, calls: seq<Call>)
    ensures forall i :: i in Visits(entries, calls) ==> 0 <= i < |entries|
  {
    hide Resolve;
    if calls != [] {
      VisitsAreEntries(entries, calls[..|calls| - 1]);
      ResolveIs(entries, calls[|calls| - 1]);
    }
  }

  lemma FoundIff(registry: seq<Case>, chains: seq<Chain>, c: Case, calls: seq<Call>)
    requires Keyed(registry) && c in registry
    requires OnlyChain(Gradings(registry, chains), c, calls)
    ensures (forall f :: f in Findings(registry, chains) ==> !About(f, c.key))
            <==> Problems(c, calls) == [] && forall i: nat :: i < |c.entries| ==> i in Visits(c.entries, calls)
  {
    hide Gradings, Problems, Visits, Keyed, Findings;
    forall i: nat | i < |c.entries|
      ensures Orphan(c.key, i) in Findings(registry, chains) <==> i !in Visits(c.entries, calls)
    {
      OrphanIffNoneReaches(registry, chains, c, i);
      assert Reaches(Grading(c, calls, true), c.key, i) <==> i in Visits(c.entries, calls);
    }
    forall f: Finding | About(f, c.key)
      ensures f in Findings(registry, chains)
              <==> f in Problems(c, calls) || (f.Orphan? && f.at < |c.entries| && f.at !in Visits(c.entries, calls))
    {
      FoundAbout(registry, chains, c, calls, f);
    }
    ProblemsAre(c, calls);
    if Problems(c, calls) != [] {
      var f := Problems(c, calls)[0];
      assert f in Problems(c, calls);
    } else if i: nat :| i < |c.entries| && i !in Visits(c.entries, calls) {
      assert Orphan(c.key, i) in Findings(registry, chains);
    }
  }

  lemma FoundAbout(registry: seq<Case>, chains: seq<Chain>, c: Case, calls: seq<Call>, f: Finding)
    requires Keyed(registry) && c in registry && About(f, c.key)
    requires OnlyChain(Gradings(registry, chains), c, calls)
    ensures f in Findings(registry, chains)
            <==> f in Problems(c, calls) || (f.Orphan? && f.at < |c.entries| && f.at !in Visits(c.entries, calls))
  {
    hide Problems, GradedAll, Gradings, Orphans, Visits;
    var start, gs := Book([], map[]), Gradings(registry, chains);
    var book := GradedAll(start, gs);
    GradedTells(start, gs, f);
    OrphansAre(registry, book.reached, f);
    if f.Orphan? {
      GradedReach(start, gs, c.key, f.at);
      assert Reaches(Grading(c, calls, true), c.key, f.at) <==> f.at in Visits(c.entries, calls);
    }
    assert Tells(Grading(c, calls, true), f) <==> f in Problems(c, calls);
    forall g | g in gs && Tells(g, f) ensures g == Grading(c, calls, true) {
      if g.Grading? {
        ProblemsAre(g.c, g.calls);
      }
    }
  }
}
