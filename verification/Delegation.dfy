/** What each fluent method ends up calling, followed through the methods it delegates
    to: three passes over the call graph that add to the table they read. */
module Delegation {

  datatype Endpoint = Endpoint(verb: string, path: string)

  /** An endpoint a method is credited with, and through what. */
  datatype Credit = Credit(to: Endpoint, via: string)

  type Table = map<string, seq<Credit>>

  const PASSES := 3

  function Entries(t: Table, name: string): seq<Credit> {
    if name in t then t[name] else []
  }

  function Ends(t: Table, name: string): set<Endpoint> {
    set c | c in Entries(t, name) :: c.to
  }

  function Called(calls: map<string, seq<string>>, name: string): seq<string> {
    if name in calls then calls[name] else []
  }

  /** Is an endpoint called by a method itself, or through at most `k` delegations? */
  ghost predicate Within(direct: Table, calls: map<string, seq<string>>, name: string, e: Endpoint, k: nat)
    decreases k
  {
    if k == 0 then e in Ends(direct, name)
    else
      || Within(direct, calls, name, e, k - 1)
      || exists other :: other in Called(calls, name) && Within(direct, calls, other, e, k - 1)
  }

  /** Is it called through some number of delegations? */
  ghost predicate Reaches(direct: Table, calls: map<string, seq<string>>, name: string, e: Endpoint) {
    exists k: nat :: Within(direct, calls, name, e, k)
  }

  /** The place of a method in the order; past the end when it has none. */
  ghost function Place(order: seq<string>, name: string): nat {
    if order == [] then 0 else if order[0] == name then 0 else 1 + Place(order[1..], name)
  }

  /** Is a method credited with an endpoint after `p` passes? A pass takes the methods in their
      order, and what a method is credited with in it the later ones are credited with at once:
      a chain of delegations needs one pass more for each call that goes back in the order. */
  ghost predicate Credited(direct: Table, calls: map<string, seq<string>>, order: seq<string>, name: string, e: Endpoint, p: nat)
    decreases p, Place(order, name)
  {
    if p == 0 then e in Ends(direct, name)
    else
      || Credited(direct, calls, order, name, e, p - 1)
      || exists other :: other in Called(calls, name)
                         && (Credited(direct, calls, order, other, e, p - 1)
                             || (Place(order, other) < Place(order, name) && Credited(direct, calls, order, other, e, p)))
  }

  /** Where a pass is: the methods before place `i` have been taken `p + 1` times, the others `p` times. */
  ghost predicate Exactly(direct: Table, calls: map<string, seq<string>>, order: seq<string>, t: Table, p: nat, i: nat) {
    forall m, e ::
      e in Ends(t, m) <==> Credited(direct, calls, order, m, e, if Place(order, m) < i then p + 1 else p)
  }

  ghost predicate Distinct(order: seq<string>) {
    forall i, j :: 0 <= i < j < |order| ==> order[i] != order[j]
  }

  lemma {:induction false} PlaceIs(order: seq<string>, i: nat)
    requires Distinct(order) && i < |order|
    ensures Place(order, order[i]) == i
  {
    if i > 0 {
      PlaceIs(order[1..], i - 1);
    }
  }

  lemma {:induction false} PlaceWithin(order: seq<string>, name: string)
    ensures Place(order, name) <= |order| && (name in order ==> Place(order, name) < |order|)
    ensures name !in order ==> Place(order, name) == |order|
    ensures name in order ==> order[Place(order, name)] == name
  {
    if order != [] {
      PlaceWithin(order[1..], name);
      assert order == [order[0]] + order[1..];
    }
  }

  /** One method is taken: it is credited with all that the methods it calls are. */
  lemma OneTaken(direct: Table, calls: map<string, seq<string>>, order: seq<string>, t: Table, u: Table, p: nat, i: nat)
    requires Distinct(order) && i < |order| && Exactly(direct, calls, order, t, p, i)
    requires forall m :: m != order[i] ==> Entries(u, m) == Entries(t, m)
    requires forall e :: e in Ends(u, order[i]) <==> e in Ends(t, order[i]) || exists other :: other in Called(calls, order[i]) && e in Ends(t, other)
    ensures Exactly(direct, calls, order, u, p, i + 1)
  {
    hide Ends, Entries, Called;
    var name := order[i];
    PlaceIs(order, i);
    forall m, e ensures e in Ends(u, m) <==> Credited(direct, calls, order, m, e, if Place(order, m) < i + 1 then p + 1 else p) {
      if m == name {
        forall other | other in Called(calls, name)
          ensures e in Ends(t, other)
                  <==> Credited(direct, calls, order, other, e, p) || (Place(order, other) < i && Credited(direct, calls, order, other, e, p + 1))
        {
          assert Credited(direct, calls, order, other, e, p) ==> Credited(direct, calls, order, other, e, p + 1);
        }
      } else {
        PlaceWithin(order, m);
        SameEnds(t, u, m);
      }
    }
  }

  lemma SameEnds(t: Table, u: Table, m: string)
    requires Entries(u, m) == Entries(t, m)
    ensures Ends(u, m) == Ends(t, m)
  {
  }

  /** At the end of a pass every method in the order has been taken; the others call nothing. */
  lemma PassOver(direct: Table, calls: map<string, seq<string>>, order: seq<string>, t: Table, p: nat)
    requires (forall m :: m in calls ==> m in order) && Exactly(direct, calls, order, t, p, |order|)
    ensures Exactly(direct, calls, order, t, p + 1, 0)
  {
    forall m, e ensures e in Ends(t, m) <==> Credited(direct, calls, order, m, e, p + 1) {
      PlaceWithin(order, m);
    }
  }

  /** The table credits every method with all it calls through at most `k` delegations. */
  ghost predicate Covers(direct: Table, calls: map<string, seq<string>>, t: Table, name: string, k: nat) {
    forall e :: Within(direct, calls, name, e, k) ==> e in Ends(t, name)
  }

  ghost predicate CoversAll(direct: Table, calls: map<string, seq<string>>, t: Table, k: nat) {
    forall name :: Covers(direct, calls, t, name, k)
  }

  function Through(other: string, via: string): string {
    if via == "" then other + "()" else other + "() -> " + via
  }

  // ---- what the passes keep ----------------------------------------------

  /** `u` has all that `t` has, first and in the same order. */
  ghost predicate Grows(t: Table, u: Table) {
    forall m :: m in t ==> m in u && t[m] <= u[m]
  }

  /** Every credit is a direct one or follows a call to a method credited with the same
      endpoint, and says so. */
  ghost predicate Justified(direct: Table, calls: map<string, seq<string>>, t: Table, name: string, c: Credit) {
    || c in Entries(direct, name)
    || exists other, d :: other in Called(calls, name) && d in Entries(t, other)
                          && d.to == c.to && c.via == Through(other, d.via)
  }

  /** `hops` are methods called one by another, the first by `name`. */
  ghost predicate Leads(calls: map<string, seq<string>>, name: string, hops: seq<string>)
    decreases |hops|
  {
    hops == [] || (hops[0] in Called(calls, name) && Leads(calls, hops[0], hops[1..]))
  }

  /** What is said of such a way to a credit through `via`: `a() -> b() -> via`. */
  ghost function Way(hops: seq<string>, via: string): seq<string> {
    seq(|hops|, i requires 0 <= i < |hops| => hops[i] + "()") + if via == "" then [] else [via]
  }

  ghost function Arrows(parts: seq<string>): string {
    if parts == [] then "" else if |parts| == 1 then parts[0] else parts[0] + " -> " + Arrows(parts[1..])
  }

  /** The credit is a direct one of the last method of a way, and tells that way. */
  ghost predicate Routed(direct: Table, calls: map<string, seq<string>>, name: string, c: Credit) {
    exists hops: seq<string>, d: Credit ::
      && Leads(calls, name, hops) && d in Entries(direct, if hops == [] then name else hops[|hops| - 1])
      && d.to == c.to && c.via == Arrows(Way(hops, d.via))
  }

  lemma DirectIsRouted(direct: Table, calls: map<string, seq<string>>, name: string, c: Credit)
    requires c in Entries(direct, name)
    ensures Routed(direct, calls, name, c)
  {
    assert Way([], c.via) == if c.via == "" then [] else [c.via];
    assert Leads(calls, name, []);
  }

  lemma ThroughIsRouted(direct: Table, calls: map<string, seq<string>>, name: string, other: string, c: Credit)
    requires other in Called(calls, name) && Routed(direct, calls, other, c)
    ensures Routed(direct, calls, name, Credit(c.to, Through(other, c.via)))
  {
    hide Entries, Called;
    var hops: seq<string>, d: Credit :|
      && Leads(calls, other, hops) && d in Entries(direct, if hops == [] then other else hops[|hops| - 1])
      && d.to == c.to && c.via == Arrows(Way(hops, d.via));
    var more := [other] + hops;
    assert more[1..] == hops;
    assert Leads(calls, name, more);
    WayOn(other, hops, d.via);
    assert (if hops == [] then other else hops[|hops| - 1]) == more[|more| - 1];
  }

  lemma WayOn(other: string, hops: seq<string>, via: string)
    ensures Arrows(Way([other] + hops, via)) == Through(other, Arrows(Way(hops, via)))
  {
    var less, more := Way(hops, via), Way([other] + hops, via);
    assert more == [other + "()"] + less;
    assert more[1..] == less;
    if less != [] {
      assert less[0] != "";
    }
  }

  ghost predicate Sound(direct: Table, calls: map<string, seq<string>>, t: Table) {
    && Grows(direct, t)
    && forall m, c :: m in t && c in t[m] ==>
         Reaches(direct, calls, m, c.to) && Justified(direct, calls, t, m, c) && Routed(direct, calls, m, c)
  }

  /** What an addition adds is new to its method. */
  ghost predicate NoDoubles(direct: Table, t: Table) {
    forall m, i, j :: m in t && |Entries(direct, m)| <= j < |t[m]| && 0 <= i < j ==> t[m][i].to != t[m][j].to
  }

  lemma JustifiedLater(direct: Table, calls: map<string, seq<string>>, t: Table, u: Table, name: string, c: Credit)
    requires Grows(t, u) && Justified(direct, calls, t, name, c)
    ensures Justified(direct, calls, u, name, c)
  {
    if c !in Entries(direct, name) {
      var other, d :| other in Called(calls, name) && d in Entries(t, other)
                      && d.to == c.to && c.via == Through(other, d.via);
      assert d in Entries(u, other);
    }
  }

  lemma ReachStep(direct: Table, calls: map<string, seq<string>>, name: string, other: string, e: Endpoint)
    requires other in Called(calls, name) && Reaches(direct, calls, other, e)
    ensures Reaches(direct, calls, name, e)
  {
    var k: nat :| Within(direct, calls, other, e, k);
    assert Within(direct, calls, name, e, k + 1);
  }

  lemma EndsGrow(t: Table, u: Table, name: string)
    requires Grows(t, u)
    ensures Ends(t, name) <= Ends(u, name)
  {
  }

  /** One credit more, justified by a call. */
  lemma AddSound(direct: Table, calls: map<string, seq<string>>, t: Table, name: string, other: string, d: Credit)
    requires Sound(direct, calls, t) && other in Called(calls, name) && d in Entries(t, other)
    ensures var c := Credit(d.to, Through(other, d.via));
            var u := t[name := Entries(t, name) + [c]];
            Sound(direct, calls, u) && Grows(t, u)
  {
    hide Reaches, Routed, Justified, Through;
    var c := Credit(d.to, Through(other, d.via));
    var u := t[name := Entries(t, name) + [c]];
    assert Grows(t, u) && Grows(direct, u);
    ReachStep(direct, calls, name, other, d.to);
    ThroughIsRouted(direct, calls, name, other, d);
    assert d in Entries(u, other);
    NewJustified(direct, calls, u, name, other, d);
    forall m, x: Credit | m in u && x in u[m]
      ensures Reaches(direct, calls, m, x.to) && Justified(direct, calls, u, m, x) && Routed(direct, calls, m, x)
    {
      if m in t && x in t[m] {
        JustifiedLater(direct, calls, t, u, m, x);
      } else {
        assert m == name && x == c;
      }
    }
  }

  lemma NewJustified(direct: Table, calls: map<string, seq<string>>, t: Table, name: string, other: string, d: Credit)
    requires other in Called(calls, name) && d in Entries(t, other)
    ensures Justified(direct, calls, t, name, Credit(d.to, Through(other, d.via)))
  {
    hide Through;
  }

  // ---- the passes --------------------------------------------------------

  /** The two facts the loops carry about the table. */
  ghost predicate Kept(direct: Table, calls: map<string, seq<string>>, t: Table) {
    Sound(direct, calls, t) && NoDoubles(direct, t)
  }

  /** `name` is credited with the endpoint of `d`, through `other`, unless it is already. */
  method CreditOne(direct: Table, calls: map<string, seq<string>>, t: Table, name: string, other: string, d: Credit)
    returns (u: Table)
    requires Kept(direct, calls, t) && other in Called(calls, name) && d in Entries(t, other)
    ensures Kept(direct, calls, u) && Grows(t, u)
    ensures forall m :: m != name ==> Entries(u, m) == Entries(t, m)
    ensures Ends(u, name) == Ends(t, name) + {d.to}
    ensures Entries(u, name) == Entries(t, name) + if d.to in Ends(t, name) then [] else [Credit(d.to, Through(other, d.via))]
  {
    hide Sound, NoDoubles, Through, Called;
    u := t;
    var got := Entries(t, name);
    if !exists c :: c in got && c.to == d.to {
      AddSound(direct, calls, t, name, other, d);
      NewIsNoDouble(direct, t, name, Credit(d.to, Through(other, d.via)));
      u := t[name := got + [Credit(d.to, Through(other, d.via))]];
    }
  }

  /** `name` is credited with what `other` is. */
  method CreditThrough(direct: Table, calls: map<string, seq<string>>, t: Table, name: string, other: string)
    returns (u: Table)
    requires Kept(direct, calls, t) && other in Called(calls, name)
    ensures Kept(direct, calls, u) && Grows(t, u)
    ensures forall m :: m != name ==> Entries(u, m) == Entries(t, m)
    ensures Ends(u, name) == Ends(t, name) + Ends(t, other)
  {
    hide Kept, Called;
    u := t;
    GrowsSelf(t);
    if other == name || other !in t {
      return;
    }
    for i := 0 to |t[other]|
      invariant Kept(direct, calls, u) && Grows(t, u)
      invariant forall m :: m != name ==> Entries(u, m) == Entries(t, m)
      invariant Ends(u, name) == Ends(t, name) + set k | 0 <= k < i :: t[other][k].to
    {
      assert Entries(u, other) == t[other];
      ghost var before := u;
      u := CreditOne(direct, calls, u, name, other, t[other][i]);
      GrowsTrans(t, before, u);
    }
  }

  lemma GrowsTrans(t: Table, u: Table, v: Table)
    requires Grows(t, u) && Grows(u, v)
    ensures Grows(t, v)
  {
  }

  lemma NewIsNoDouble(direct: Table, t: Table, name: string, c: Credit)
    requires NoDoubles(direct, t) && !exists d :: d in Entries(t, name) && d.to == c.to
    ensures NoDoubles(direct, t[name := Entries(t, name) + [c]])
  {
  }

  method FluentMethods(direct: Table, order: seq<string>, calls: map<string, seq<string>>, common: set<string>)
    returns (found: Table)
    requires forall m :: m in calls ==> m in order
    requires forall m :: m in order ==> m in calls
    ensures found.Keys !! common
    ensures exists out: Table ::
              && found == out - common && Closed(direct, calls, out)
              && (Distinct(order) ==> Exactly(direct, calls, order, out, PASSES, 0))
  {
    var out := direct;
    BeginKept(direct, calls);
    for pass := 0 to PASSES
      invariant Kept(direct, calls, out)
      invariant CoversAll(direct, calls, out, pass)
      invariant Distinct(order) ==> Exactly(direct, calls, order, out, pass, 0)
    {
      out := OnePass(direct, order, calls, out, pass);
    }
    found := out - common;
    assert Closed(direct, calls, out);
  }

  /** The table before the common names are taken out. */
  ghost predicate Closed(direct: Table, calls: map<string, seq<string>>, out: Table) {
    && Kept(direct, calls, out)
    && CoversAll(direct, calls, out, PASSES)
  }

  lemma BeginKept(direct: Table, calls: map<string, seq<string>>)
    ensures Kept(direct, calls, direct)
    ensures CoversAll(direct, calls, direct, 0)
  {
    forall m, c | m in direct && c in direct[m] ensures Reaches(direct, calls, m, c.to) && Routed(direct, calls, m, c) {
      assert Within(direct, calls, m, c.to, 0);
      DirectIsRouted(direct, calls, m, c);
    }
  }

  /** All the methods once, each through all it calls. */
  method OnePass(direct: Table, order: seq<string>, calls: map<string, seq<string>>, start: Table, ghost pass: nat)
    returns (out: Table)
    requires Kept(direct, calls, start)
    requires forall m :: m in order ==> m in calls
    requires forall m :: m in calls ==> m in order
    requires CoversAll(direct, calls, start, pass)
    requires Distinct(order) ==> Exactly(direct, calls, order, start, pass, 0)
    ensures Kept(direct, calls, out)
    ensures CoversAll(direct, calls, out, pass + 1)
    ensures Distinct(order) ==> Exactly(direct, calls, order, out, pass + 1, 0)
  {
    hide Kept, Covers, CreditedAll, Grows, Distinct, Exactly;
    out := start;
    GrowsSelf(start);
    for i := 0 to |order|
      invariant Distinct(order) ==> Exactly(direct, calls, order, out, pass, i)
      invariant Kept(direct, calls, out) && Grows(start, out)
      invariant forall k :: 0 <= k < i ==> CreditedAll(start, out, order[k], calls)
    {
      ghost var before := out;
      out := CreditAll(direct, calls, out, order[i], start);
      if Distinct(order) {
        OneTaken(direct, calls, order, before, out, pass, i);
      }
      forall k | 0 <= k < i ensures CreditedAll(start, out, order[k], calls) {
        CreditedLater(start, before, out, order[k], calls);
      }
      GrowsTrans(start, before, out);
    }
    forall m ensures CreditedAll(start, out, m, calls) {
      if m in calls {
        var k :| 0 <= k < |order| && order[k] == m;
        assert CreditedAll(start, out, m, calls);
      } else {
        CallsNothing(start, out, m, calls);
      }
    }
    OneFurther(direct, calls, start, out, pass);
    if Distinct(order) {
      PassOver(direct, calls, order, out, pass);
    }
  }

  /** `name` is credited with all that the methods it calls were credited with in `start`. */
  ghost predicate CreditedAll(start: Table, out: Table, name: string, calls: map<string, seq<string>>) {
    forall other :: other in Called(calls, name) ==> Ends(start, other) <= Ends(out, name)
  }

  lemma CallsNothing(start: Table, out: Table, name: string, calls: map<string, seq<string>>)
    requires name !in calls
    ensures CreditedAll(start, out, name, calls)
  {
  }

  lemma GrowsSelf(t: Table)
    ensures Grows(t, t)
  {
  }

  lemma CreditedLater(start: Table, t: Table, u: Table, name: string, calls: map<string, seq<string>>)
    requires CreditedAll(start, t, name, calls) && Grows(t, u)
    ensures CreditedAll(start, u, name, calls)
  {
    EndsGrow(t, u, name);
  }

  /** A pass that credits every method with all its callees had reaches one delegation further. */
  lemma OneFurther(direct: Table, calls: map<string, seq<string>>, start: Table, out: Table, pass: nat)
    requires Grows(start, out) && CoversAll(direct, calls, start, pass)
    requires forall m :: CreditedAll(start, out, m, calls)
    ensures CoversAll(direct, calls, out, pass + 1)
  {
    var next := pass + 1;
    forall m, e | Within(direct, calls, m, e, next) ensures e in Ends(out, m) {
      EndsGrow(start, out, m);
      assert CreditedAll(start, out, m, calls);
      if Within(direct, calls, m, e, pass) {
        assert Covers(direct, calls, start, m, pass);
      } else {
        var other :| other in Called(calls, m) && Within(direct, calls, other, e, pass);
        assert Covers(direct, calls, start, other, pass);
      }
    }
    forall m ensures Covers(direct, calls, out, m, next) {
    }
  }

  method CreditAll(direct: Table, calls: map<string, seq<string>>, t: Table, name: string, ghost start: Table)
    returns (u: Table)
    requires Kept(direct, calls, t) && Grows(start, t) && name in calls
    ensures Kept(direct, calls, u) && Grows(t, u) && CreditedAll(start, u, name, calls)
    ensures forall m :: m != name ==> Entries(u, m) == Entries(t, m)
    ensures forall e :: e in Ends(u, name) <==> e in Ends(t, name) || exists other :: other in Called(calls, name) && e in Ends(t, other)
  {
    hide Kept, Grows, Entries, Ends;
    u := t;
    GrowsSelf(t);
    for j := 0 to |calls[name]|
      invariant Kept(direct, calls, u) && Grows(t, u)
      invariant forall m :: m != name ==> Entries(u, m) == Entries(t, m)
      invariant forall e :: e in Ends(u, name) <==> e in Ends(t, name) || exists k :: 0 <= k < j && e in Ends(t, calls[name][k])
    {
      ghost var before := u;
      var other := calls[name][j];
      u := CreditThrough(direct, calls, u, name, other);
      GrowsTrans(t, before, u);
      if other != name {
        SameEnds(t, before, other);
      }
    }
    forall other ensures Ends(start, other) <= Ends(t, other) {
      EndsGrow(start, t, other);
    }
  }

  // ---- what the table says -----------------------------------------------

  lemma {:induction false} WithinMore(direct: Table, calls: map<string, seq<string>>, m: string, e: Endpoint, j: nat, k: nat)
    requires j <= k && Within(direct, calls, m, e, j)
    ensures Within(direct, calls, m, e, k)
  {
    if j < k {
      WithinMore(direct, calls, m, e, j, k - 1);
    }
  }

  /** No credit is invented, none within three delegations is missed, and when nothing is
      deeper than that the table is the full closure. */
  lemma TableIsClosure(direct: Table, calls: map<string, seq<string>>, out: Table, m: string)
    requires Closed(direct, calls, out)
    ensures forall e :: e in Ends(out, m) ==> Reaches(direct, calls, m, e)
    ensures forall c :: c in Entries(out, m) ==> Routed(direct, calls, m, c)
    ensures forall k: nat, e :: k <= PASSES && Within(direct, calls, m, e, k) ==> e in Ends(out, m)
    ensures (forall e :: Reaches(direct, calls, m, e) ==> Within(direct, calls, m, e, PASSES)) ==>
              forall e :: e in Ends(out, m) <==> Reaches(direct, calls, m, e)
  {
    hide Within;
    forall k: nat, e | k <= PASSES && Within(direct, calls, m, e, k) ensures e in Ends(out, m) {
      WithinMore(direct, calls, m, e, k, PASSES);
      assert Covers(direct, calls, out, m, PASSES);
    }
  }
}
