/** The data-flow check of generated chains: every key a chain reads must have been
    written before, by a seed, the bootstrap, a set-up flow or an earlier event. A key
    written as `prefix*` stands for any key that begins with the prefix. */
module Dataflow {

  datatype Event = Write(key: string) | Setup(flow: string) | Read(alts: seq<string>)

  /** What the rest of the tree contributes: keys and prefixes seeded at the start of every
      chain, and the keys each set-up flow of the suite writes. */
  datatype World = World(seedKeys: set<string>, seedPrefixes: set<string>, flows: map<string, set<string>>)

  predicate IsWild(key: string) {
    key != "" && key[|key| - 1] == '*'
  }

  /** Does a write of `written` provide `key`? */
  predicate Provides(written: string, key: string) {
    if IsWild(written) then written[..|written| - 1] <= key else written == key
  }

  /** A key written with a `*` at its end provides all that begin as it does before that; any
      other only itself. */
  lemma ProvidesIs(written: string, key: string)
    ensures Provides(written + "*", key) <==> written <= key
    ensures (forall p: string :: written != p + "*") ==> (Provides(written, key) <==> written == key)
  {
    var wild := written + "*";
    assert wild[..|wild| - 1] == written;
    if IsWild(written) {
      assert written == written[..|written| - 1] + "*";
    }
  }

  function WritesOf(w: World, e: Event): set<string> {
    match e
    case Write(key) => {key}
    case Setup(flow) => if flow in w.flows then w.flows[flow] else {}
    case Read(_) => {}
  }

  // ---- the meaning of a finding ------------------------------------------

  predicate Seeded(w: World, key: string) {
    key in w.seedKeys || exists p :: p in w.seedPrefixes && p <= key
  }

  /** Can a key have been written by the seeds or by one of `before`? */
  predicate Provided(w: World, before: seq<Event>, key: string) {
    Seeded(w, key)
    || exists i, written :: 0 <= i < |before| && written in WritesOf(w, before[i]) && Provides(written, key)
  }

  predicate Met(w: World, before: seq<Event>, alts: seq<string>) {
    exists key :: key in alts && Provided(w, before, key)
  }

  /** The reads among `events`, after `before`, of which no alternative was provided. */
  function Unmet(w: World, before: seq<Event>, events: seq<Event>): seq<seq<string>>
    decreases |events|
  {
    if events == [] then []
    else
      (if events[0].Read? && !Met(w, before, events[0].alts) then [events[0].alts] else [])
      + Unmet(w, before + [events[0]], events[1..])
  }

  /** A finding: which step of the chain, and what it reads. */
  datatype Finding = Finding(step: nat, keys: seq<string>)

  function Tag(step: nat, unmet: seq<seq<string>>): (fs: seq<Finding>)
    ensures |fs| == |unmet| && forall i :: 0 <= i < |fs| ==> fs[i] == Finding(step, unmet[i])
  {
    seq(|unmet|, i requires 0 <= i < |unmet| => Finding(step, unmet[i]))
  }

  /** The findings of a chain whose steps from number `k` on are `steps`. */
  function Findings(w: World, before: seq<Event>, steps: seq<seq<Event>>, k: nat): seq<Finding>
    decreases |steps|
  {
    if steps == [] then []
    else Tag(k, Unmet(w, before, steps[0])) + Findings(w, before + steps[0], steps[1..], k + 1)
  }

  // ---- the replay --------------------------------------------------------

  /** The two sets hold what has been provided. */
  ghost predicate Holds(w: World, before: seq<Event>, available: set<string>, wildcards: set<string>) {
    forall key :: Provided(w, before, key) <==> key in available || exists p :: p in wildcards && p <= key
  }

  predicate Satisfied(alts: seq<string>, available: set<string>, wildcards: set<string>) {
    exists key :: key in alts && (key in available || exists p :: p in wildcards && p <= key)
  }

  method IsSatisfied(alts: seq<string>, available: set<string>, wildcards: set<string>) returns (b: bool)
    ensures b == Satisfied(alts, available, wildcards)
  {
    for i := 0 to |alts|
      invariant forall k :: 0 <= k < i ==>
        alts[k] !in available && !exists p :: p in wildcards && p <= alts[k]
    {
      if alts[i] in available {
        return true;
      }
      var left := wildcards;
      while left != {}
        invariant left <= wildcards
        invariant forall p :: p in wildcards && p <= alts[i] ==> p in left
        decreases left
      {
        var p :| p in left;
        if p <= alts[i] {
          return true;
        }
        left := left - {p};
      }
    }
    return false;
  }

  /** The keys of `keys` are made available, each as a key or as a prefix. */
  method Apply(keys: set<string>, available: set<string>, wildcards: set<string>)
    returns (a: set<string>, p: set<string>)
    ensures forall k :: k in a <==> k in available || (k in keys && !IsWild(k))
    ensures forall k :: k in p <==> k in wildcards || exists x :: x in keys && IsWild(x) && k == x[..|x| - 1]
  {
    a, p := available, wildcards;
    var left := keys;
    while left != {}
      invariant left <= keys
      invariant forall k :: k in a <==> k in available || (k in keys - left && !IsWild(k))
      invariant forall k :: k in p <==> k in wildcards || exists x :: x in keys - left && IsWild(x) && k == x[..|x| - 1]
      decreases left
    {
      var k :| k in left;
      if IsWild(k) {
        p := p + {k[..|k| - 1]};
      } else {
        a := a + {k};
      }
      left := left - {k};
    }
  }

  lemma HoldsAfter(w: World, before: seq<Event>, e: Event, available: set<string>, wildcards: set<string>,
                   a: set<string>, p: set<string>)
    requires Holds(w, before, available, wildcards)
    requires forall k :: k in a <==> k in available || (k in WritesOf(w, e) && !IsWild(k))
    requires forall k :: k in p <==> k in wildcards || exists x :: x in WritesOf(w, e) && IsWild(x) && k == x[..|x| - 1]
    ensures Holds(w, before + [e], a, p)
  {
    forall key ensures Provided(w, before + [e], key) <==> key in a || exists q :: q in p && q <= key {
      ProvidedMore(w, before, e, key);
      if written :| written in WritesOf(w, e) && Provides(written, key) {
        if IsWild(written) {
          assert written[..|written| - 1] in p;
        }
      }
    }
  }

  lemma ProvidedMore(w: World, before: seq<Event>, e: Event, key: string)
    ensures Provided(w, before + [e], key) <==>
              Provided(w, before, key) || exists written :: written in WritesOf(w, e) && Provides(written, key)
  {
    var more := before + [e];
    if written :| written in WritesOf(w, e) && Provides(written, key) {
      assert more[|before|] == e;
    }
    if Provided(w, before, key) && !Seeded(w, key) {
      var i, written :| 0 <= i < |before| && written in WritesOf(w, before[i]) && Provides(written, key);
      assert more[i] == before[i];
    }
  }

  lemma UnmetOne(w: World, before: seq<Event>, e: Event, more: seq<Event>)
    ensures Unmet(w, before, [e] + more)
            == if e.Read? && !Met(w, before, e.alts) then [e.alts] + Unmet(w, before + [e], more) else Unmet(w, before + [e], more)
  {
    hide Met;
    assert ([e] + more)[1..] == more;
    assert [] + Unmet(w, before + [e], more) == Unmet(w, before + [e], more);
  }

  lemma UnmetAfter(a: seq<seq<string>>, b: seq<string>, c: seq<seq<string>>)
    ensures a + ([b] + c) == a + [b] + c
  {
  }

  lemma UnmetNone(w: World, before: seq<Event>)
    ensures Unmet(w, before, []) == []
  {
  }

  /** One method's events, in order: a key written a few lines above its own read counts. */
  method Run(w: World, events: seq<Event>, available: set<string>, wildcards: set<string>, ghost before: seq<Event>)
    returns (a: set<string>, p: set<string>, unmet: seq<seq<string>>)
    requires Holds(w, before, available, wildcards)
    ensures Holds(w, before + events, a, p)
    ensures unmet == Unmet(w, before, events)
  {
    hide Holds, Met, Unmet;
    a, p, unmet := available, wildcards, [];
    assert before + events[..0] == before && events[0..] == events;
    assert [] + Unmet(w, before, events) == Unmet(w, before, events);
    for i := 0 to |events|
      invariant Holds(w, before + events[..i], a, p)
      invariant unmet + Unmet(w, before + events[..i], events[i..]) == Unmet(w, before, events)
    {
      ghost var now := before + events[..i];
      assert before + events[..i + 1] == now + [events[i]];
      UnmetOne(w, now, events[i], events[i + 1..]);
      assert events[i..] == [events[i]] + events[i + 1..];
      var met;
      a, p, met := RunOne(w, events[i], a, p, now);
      if !met {
        UnmetAfter(unmet, events[i].alts, Unmet(w, now + [events[i]], events[i + 1..]));
        unmet := unmet + [events[i].alts];
      }
    }
    assert before + events[..|events|] == before + events && events[|events|..] == [];
    UnmetNone(w, before + events);
    assert unmet + [] == unmet;
  }

  method RunOne(w: World, e: Event, available: set<string>, wildcards: set<string>, ghost before: seq<Event>)
    returns (a: set<string>, p: set<string>, met: bool)
    requires Holds(w, before, available, wildcards)
    ensures Holds(w, before + [e], a, p)
    ensures met == (e.Read? ==> Met(w, before, e.alts))
  {
    hide Holds, Met, Satisfied, WritesOf, IsWild;
    a, p, met := available, wildcards, true;
    match e {
      case Write(key) =>
        WritesOne(w, key);
        a, p := Apply({key}, a, p);
      case Setup(flow) =>
        WritesFlow(w, flow);
        a, p := Apply(if flow in w.flows then w.flows[flow] else {}, a, p);
      case Read(alts) =>
        WritesNothing(w, alts);
        HoldsMet(w, before, alts, a, p);
        met := IsSatisfied(alts, a, p);
    }
    HoldsAfter(w, before, e, available, wildcards, a, p);
  }

  lemma WritesOne(w: World, key: string)
    ensures WritesOf(w, Write(key)) == {key}
  {
  }

  lemma WritesFlow(w: World, flow: string)
    ensures WritesOf(w, Setup(flow)) == if flow in w.flows then w.flows[flow] else {}
  {
  }

  lemma WritesNothing(w: World, alts: seq<string>)
    ensures WritesOf(w, Read(alts)) == {}
  {
  }

  lemma HoldsMet(w: World, before: seq<Event>, alts: seq<string>, a: set<string>, p: set<string>)
    requires Holds(w, before, a, p)
    ensures Satisfied(alts, a, p) == Met(w, before, alts)
  {
  }

  /** A chain: the entry class's bootstrap, whose own reads are not reported, then its steps. */
  method AnalyseChain(w: World, boot: seq<Event>, steps: seq<seq<Event>>) returns (findings: seq<Finding>)
    ensures findings == Findings(w, boot, steps, 0)
  {
    hide Holds, Unmet;
    var available, wildcards := w.seedKeys, w.seedPrefixes;
    SeedsHold(w);
    var ignored;
    available, wildcards, ignored := Run(w, boot, available, wildcards, []);
    assert [] + boot == boot;
    findings := [];
    ghost var before := boot;
    for k := 0 to |steps|
      invariant Holds(w, before, available, wildcards)
      invariant findings + Findings(w, before, steps[k..], k) == Findings(w, boot, steps, 0)
    {
      var unmet;
      available, wildcards, unmet := Run(w, steps[k], available, wildcards, before);
      findings := findings + Tag(k, unmet);
      assert steps[k..][0] == steps[k] && steps[k..][1..] == steps[k + 1..];
      before := before + steps[k];
    }
  }

  lemma SeedsHold(w: World)
    ensures Holds(w, [], w.seedKeys, w.seedPrefixes)
  {
  }

  // ---- what a finding says about real runs -------------------------------

  /** What one event can have stored: all its plain keys, and any keys under its prefixes. */
  ghost predicate Stores(w: World, e: Event, keys: set<string>) {
    && (forall x :: x in WritesOf(w, e) && !IsWild(x) ==> x in keys)
    && (forall k :: k in keys ==> exists x :: x in WritesOf(w, e) && Provides(x, k))
  }

  /** A real run of some events: what was there at the start, and what each one stored. */
  ghost predicate RealRun(w: World, events: seq<Event>, atStart: set<string>, stored: seq<set<string>>) {
    && w.seedKeys <= atStart && (forall k :: k in atStart ==> Seeded(w, k))
    && |stored| == |events|
    && forall i :: 0 <= i < |events| ==> Stores(w, events[i], stored[i])
  }

  ghost predicate InStore(key: string, atStart: set<string>, stored: seq<set<string>>) {
    key in atStart || exists i :: 0 <= i < |stored| && key in stored[i]
  }

  /** A read is reported exactly when no real run of what comes before it holds any of its
      keys: the check raises no false alarm, and passes over no read that must fail. */
  lemma ReportedIffNeverThere(w: World, before: seq<Event>, alts: seq<string>)
    ensures !Met(w, before, alts) <==>
              forall atStart, stored, key :: RealRun(w, before, atStart, stored) && key in alts ==> !InStore(key, atStart, stored)
  {
    if !Met(w, before, alts) {
      forall atStart, stored, key | RealRun(w, before, atStart, stored) && key in alts
        ensures !InStore(key, atStart, stored)
      {
        NeverStored(w, before, key, atStart, stored);
      }
    } else {
      var key :| key in alts && Provided(w, before, key);
      var atStart, stored := SomeRun(w, before, key);
      assert RealRun(w, before, atStart, stored) && key in alts && InStore(key, atStart, stored);
    }
  }

  lemma NeverStored(w: World, before: seq<Event>, key: string, atStart: set<string>, stored: seq<set<string>>)
    requires RealRun(w, before, atStart, stored) && !Provided(w, before, key)
    ensures !InStore(key, atStart, stored)
  {
    forall i | 0 <= i < |stored| ensures key !in stored[i] {
      assert Stores(w, before[i], stored[i]);
    }
  }

  /** A run in which everything that can store `key` does. */
  lemma SomeRun(w: World, before: seq<Event>, key: string) returns (atStart: set<string>, stored: seq<set<string>>)
    requires Provided(w, before, key)
    ensures RealRun(w, before, atStart, stored) && InStore(key, atStart, stored)
  {
    atStart := w.seedKeys + if Seeded(w, key) then {key} else {};
    stored := seq(|before|, i requires 0 <= i < |before| => StoredAt(w, before[i], key));
    forall i | 0 <= i < |before| ensures Stores(w, before[i], stored[i]) {
      StoredAtFits(w, before[i], key);
    }
    if !Seeded(w, key) {
      var i, written :| 0 <= i < |before| && written in WritesOf(w, before[i]) && Provides(written, key);
      assert key in stored[i];
    }
  }

  ghost function StoredAt(w: World, e: Event, key: string): set<string> {
    (set x | x in WritesOf(w, e) && !IsWild(x))
    + if exists x :: x in WritesOf(w, e) && Provides(x, key) then {key} else {}
  }

  lemma StoredAtFits(w: World, e: Event, key: string)
    ensures Stores(w, e, StoredAt(w, e, key))
  {
    forall k | k in StoredAt(w, e, key) ensures exists x :: x in WritesOf(w, e) && Provides(x, k) {
      if k in WritesOf(w, e) && !IsWild(k) {
        assert Provides(k, k);
      }
    }
  }

  // ---- findings and chains -----------------------------------------------

  /** Extending a chain at its end leaves its findings as they are. */
  lemma {:induction false} LongerChain(w: World, before: seq<Event>, steps: seq<seq<Event>>, more: seq<seq<Event>>, k: nat)
    ensures Findings(w, before, steps, k) <= Findings(w, before, steps + more, k)
    decreases |steps|
  {
    hide Unmet;
    if steps != [] {
      assert (steps + more)[0] == steps[0] && (steps + more)[1..] == steps[1..] + more;
      LongerChain(w, before + steps[0], steps[1..], more, k + 1);
    }
  }

  /** A read at position `i` of a chain's events is in the findings when it is unmet, and
      every finding is such a read. */
  lemma {:induction false} UnmetExactly(w: World, before: seq<Event>, events: seq<Event>)
    ensures forall alts :: alts in Unmet(w, before, events) <==>
              exists i :: 0 <= i < |events| && events[i] == Read(alts) && !Met(w, before + events[..i], alts)
    decreases |events|
  {
    hide Met;
    if events != [] {
      UnmetExactly(w, before + [events[0]], events[1..]);
      forall alts
        ensures alts in Unmet(w, before, events) <==>
                  exists i :: 0 <= i < |events| && events[i] == Read(alts) && !Met(w, before + events[..i], alts)
      {
        assert before + events[..0] == before;
        forall i | 0 <= i < |events| - 1
          ensures before + [events[0]] + events[1..][..i] == before + events[..i + 1] && events[1..][i] == events[i + 1]
        {
          assert events[..i + 1] == [events[0]] + events[1..][..i];
        }
        if i :| 0 <= i < |events| && events[i] == Read(alts) && !Met(w, before + events[..i], alts) {
          if i > 0 {
            assert events[1..][i - 1] == Read(alts);
          }
        }
        if alts in Unmet(w, before + [events[0]], events[1..]) {
          var j :| 0 <= j < |events| - 1 && events[1..][j] == Read(alts)
                   && !Met(w, before + [events[0]] + events[1..][..j], alts);
          assert events[j + 1] == Read(alts) && !Met(w, before + events[..j + 1], alts);
        }
      }
    }
  }

  function Flat(steps: seq<seq<Event>>): seq<Event> {
    if steps == [] then [] else steps[0] + Flat(steps[1..])
  }

  /** Event `i` of step `s` reads `keys`, and nothing before it in the chain provided any. */
  ghost predicate UnmetAt(w: World, before: seq<Event>, steps: seq<seq<Event>>, s: nat, i: nat, keys: seq<string>) {
    && s < |steps| && i < |steps[s]| && steps[s][i] == Read(keys)
    && !Met(w, before + Flat(steps[..s]) + steps[s][..i], keys)
  }

  lemma UnmetNext(w: World, before: seq<Event>, steps: seq<seq<Event>>, s: nat, i: nat, keys: seq<string>)
    requires steps != []
    ensures UnmetAt(w, before, steps, s + 1, i, keys) <==> UnmetAt(w, before + steps[0], steps[1..], s, i, keys)
  {
    hide Met;
    if s < |steps| - 1 {
      assert steps[..s + 1][1..] == steps[1..][..s];
      assert before + Flat(steps[..s + 1]) == before + steps[0] + Flat(steps[1..][..s]);
    }
  }

  ghost predicate UnmetIn(w: World, before: seq<Event>, steps: seq<seq<Event>>, s: nat, keys: seq<string>) {
    exists i: nat :: UnmetAt(w, before, steps, s, i, keys)
  }

  lemma UnmetInNext(w: World, before: seq<Event>, steps: seq<seq<Event>>, s: nat, keys: seq<string>)
    requires steps != []
    ensures UnmetIn(w, before, steps, s + 1, keys) <==> UnmetIn(w, before + steps[0], steps[1..], s, keys)
  {
    hide UnmetAt;
    var t := s + 1;
    forall i: nat ensures UnmetAt(w, before, steps, t, i, keys) <==> UnmetAt(w, before + steps[0], steps[1..], s, i, keys) {
      UnmetNext(w, before, steps, s, i, keys);
    }
  }

  lemma UnmetHere(w: World, before: seq<Event>, steps: seq<seq<Event>>, i: nat, keys: seq<string>)
    requires steps != []
    ensures UnmetAt(w, before, steps, 0, i, keys) <==>
              i < |steps[0]| && steps[0][i] == Read(keys) && !Met(w, before + steps[0][..i], keys)
  {
    hide Met;
    assert before + Flat(steps[..0]) == before;
  }

  lemma NoneInNothing(w: World, before: seq<Event>, s: int, keys: seq<string>)
    ensures s >= 0 ==> !UnmetIn(w, before, [], s, keys)
  {
  }

  lemma Tagged(k: nat, unmet: seq<seq<string>>, f: Finding)
    ensures f in Tag(k, unmet) <==> f.step == k && f.keys in unmet
  {
    if f.step == k && f.keys in unmet {
      var j :| 0 <= j < |unmet| && unmet[j] == f.keys;
      assert Tag(k, unmet)[j] == f;
    }
  }

  /** The findings of a chain are exactly its reads of which no alternative was provided by
      the seeds, the bootstrap or an earlier event, each under its step. */
  lemma {:induction false} FindingsExactly(w: World, before: seq<Event>, steps: seq<seq<Event>>, k: nat, f: Finding)
    ensures f in Findings(w, before, steps, k) <==>
              k <= f.step && UnmetIn(w, before, steps, f.step - k, f.keys)
    decreases |steps|
  {
    hide Met, UnmetAt, Unmet, Tag;
    if steps == [] {
      NoneInNothing(w, before, f.step - k, f.keys);
    } else {
      var here := Unmet(w, before, steps[0]);
      UnmetExactly(w, before, steps[0]);
      FindingsExactly(w, before + steps[0], steps[1..], k + 1, f);
      Tagged(k, here, f);
      forall i: nat ensures UnmetAt(w, before, steps, 0, i, f.keys) <==>
              i < |steps[0]| && steps[0][i] == Read(f.keys) && !Met(w, before + steps[0][..i], f.keys) {
        UnmetHere(w, before, steps, i, f.keys);
      }
      if k < f.step {
        UnmetInNext(w, before, steps, f.step - (k + 1), f.keys);
      }
    }
  }
}
