/** Which call gives a name, by quantifiers over the specification and the flow guide, and
    that every name of a set-up chain stands under its giver. */
module DepGivers {
  import opened DepChain
  import opened DepChainFacts
  import opened Wrappers

  // ---- the best of the givers --------------------------------------------

  ghost predicate IsGiver(w: World, ops: seq<Op>, name: string, asker: Key, k: nat) {
    && k < |ops| && Call(ops[k].verb, ops[k].path) != asker
    && exists g :: g in ops[k].gives && w.lower(g) == w.lower(name)
  }

  predicate SoonerVerb(a: string, b: string) {
    || (a == "POST" && b != "POST")
    || (a == "PUT" && b != "POST" && b != "PUT")
    || (a == "GET" && b != "POST" && b != "PUT" && b != "GET")
  }

  ghost predicate Helped(w: World, o: Op) {
    exists h :: h in w.helpers && h.verb == o.verb && w.same(h.path, o.path)
  }

  /** A helper of the project makes the call; else POST comes before PUT, GET and the rest;
      else the shorter path first. */
  ghost predicate Better(w: World, a: Op, b: Op) {
    if Helped(w, a) != Helped(w, b) then Helped(w, a)
    else SoonerVerb(a.verb, b.verb) || (!SoonerVerb(b.verb, a.verb) && |a.path| < |b.path|)
  }

  /** No other giver is better, and of those as good it is the first in the specification. */
  ghost predicate IsBest(w: World, ops: seq<Op>, name: string, asker: Key, k: nat) {
    && IsGiver(w, ops, name, asker, k)
    && forall j: nat :: IsGiver(w, ops, name, asker, j) ==>
         !Better(w, ops[j], ops[k]) && (j < k ==> Better(w, ops[k], ops[j]))
  }

  lemma BetterIsBefore(w: World, a: Op, b: Op)
    ensures Better(w, a, b) <==> Before(w, a, b)
    ensures !Better(w, a, b) && !Better(w, b, a) ==> forall c :: (Better(w, c, a) <==> Better(w, c, b)) && (Better(w, a, c) <==> Better(w, b, c))
  {
  }

  lemma BetterTransitive(w: World, a: Op, b: Op, c: Op)
    requires !Better(w, b, a) && !Better(w, c, b)
    ensures !Better(w, c, a)
    ensures Better(w, a, b) || Better(w, b, c) ==> Better(w, a, c)
  {
  }

  lemma GiverLater(w: World, ops: seq<Op>, name: string, asker: Key, k: nat)
    requires ops != []
    ensures IsGiver(w, ops[1..], name, asker, k) <==> IsGiver(w, ops, name, asker, k + 1)
  {
    if k + 1 < |ops| {
      assert ops[1..][k] == ops[k + 1];
    }
  }

  lemma FirstGives(w: World, ops: seq<Op>, name: string, asker: Key)
    requires ops != []
    ensures IsGiver(w, ops, name, asker, 0) <==> Gives(w, ops[0], name) && Call(ops[0].verb, ops[0].path) != asker
  {
  }

  lemma NoGiver(w: World, name: string, asker: Key)
    ensures forall k: nat :: !IsGiver(w, [], name, asker, k)
  {
  }

  lemma InRange(w: World, ops: seq<Op>, name: string, asker: Key, k: nat)
    ensures IsGiver(w, ops, name, asker, k) ==> k < |ops|
  {
  }

  /** The producer is the best of the givers. */
  lemma {:induction false} ProducerIsBest(w: World, ops: seq<Op>, name: string, asker: Key) returns (k: nat)
    ensures match Producer(w, ops, name, asker)
            case None => forall j: nat :: !IsGiver(w, ops, name, asker, j)
            case Some(o) => IsBest(w, ops, name, asker, k) && k < |ops| && ops[k] == o
    decreases |ops|
  {
    hide IsGiver, Better, Before, Gives;
    k := 0;
    if ops == [] {
      NoGiver(w, name, asker);
    } else {
      var m := ProducerIsBest(w, ops[1..], name, asker);
      forall j: nat ensures IsGiver(w, ops[1..], name, asker, j) <==> IsGiver(w, ops, name, asker, j + 1) {
        GiverLater(w, ops, name, asker, j);
      }
      forall j: nat ensures IsGiver(w, ops, name, asker, j) ==> j < |ops| {
        InRange(w, ops, name, asker, j);
      }
      FirstGives(w, ops, name, asker);
      var rest := Producer(w, ops[1..], name, asker);
      forall j: nat | IsGiver(w, ops, name, asker, j) && j > 0 ensures IsGiver(w, ops[1..], name, asker, j - 1) {
        assert IsGiver(w, ops[1..], name, asker, j - 1) <==> IsGiver(w, ops, name, asker, j - 1 + 1);
      }
      if rest.Some? {
        BetterIsBefore(w, rest.value, ops[0]);
        BestOfTwo(w, ops, name, asker, m);
        k := if IsGiver(w, ops, name, asker, 0) && !Better(w, ops[m + 1], ops[0]) then 0 else m + 1;
      } else if IsGiver(w, ops, name, asker, 0) {
        assert forall j: nat :: IsGiver(w, ops, name, asker, j) ==> j == 0;
        NotBetter(w, ops[0]);
      }
    }
  }

  lemma NotBetter(w: World, a: Op)
    ensures !Better(w, a, a)
  {
  }

  /** The best of the rest and the first operation: which of them is the best of all. */
  lemma BestOfTwo(w: World, ops: seq<Op>, name: string, asker: Key, m: nat)
    requires ops != [] && m + 1 < |ops| && IsBest(w, ops[1..], name, asker, m)
    requires forall j: nat :: IsGiver(w, ops[1..], name, asker, j) <==> IsGiver(w, ops, name, asker, j + 1)
    requires forall j: nat :: IsGiver(w, ops, name, asker, j) ==> j < |ops|
    requires forall j: nat :: IsGiver(w, ops, name, asker, j) && j > 0 ==> IsGiver(w, ops[1..], name, asker, j - 1)
    ensures if IsGiver(w, ops, name, asker, 0) && !Better(w, ops[m + 1], ops[0]) then IsBest(w, ops, name, asker, 0)
            else IsBest(w, ops, name, asker, m + 1)
  {
    hide IsGiver, Better;
    var r, o := ops[m + 1], ops[0];
    assert ops[1..][m] == r;
    forall j: nat | IsGiver(w, ops, name, asker, j) && j > 0
      ensures !Better(w, ops[j], r) && (j < m + 1 ==> Better(w, r, ops[j]))
      ensures !Better(w, r, o) ==> !Better(w, ops[j], o)
    {
      assert ops[1..][j - 1] == ops[j] && IsGiver(w, ops[1..], name, asker, j - 1);
      if !Better(w, r, o) {
        BetterTransitive(w, o, r, ops[j]);
      }
    }
    NotBetter(w, o);
    BetterOneWay(w, r, o);
  }

  lemma BetterOneWay(w: World, a: Op, b: Op)
    ensures !(Better(w, a, b) && Better(w, b, a))
  {
  }

  // ---- who gives a name ---------------------------------------------------

  /** What the flow guide names first for a name, if anything. */
  ghost predicate Guided(w: World, name: string, helper: string) {
    w.lower(name) in w.guide && w.guide[w.lower(name)] != [] && w.guide[w.lower(name)][0] == helper
  }

  ghost predicate IsFirstHelper(w: World, helper: string, i: nat) {
    i < |w.helpers| && w.helpers[i].name == helper && forall j :: 0 <= j < i ==> w.helpers[j].name != helper
  }

  ghost predicate Serves(w: World, o: Op, h: Helper) {
    o.verb == h.verb && w.same(o.path, h.path)
  }

  ghost predicate IsFirstOp(w: World, h: Helper, k: nat) {
    k < |w.ops| && Serves(w, w.ops[k], h) && forall j :: 0 <= j < k ==> !Serves(w, w.ops[j], h)
  }

  /** The helper itself makes the calls: it is none of the project's. */
  ghost predicate ByHelperAlone(w: World, name: string, key: Key) {
    key.Bare? && Guided(w, name, key.helper) && forall i: nat :: !IsFirstHelper(w, key.helper, i)
  }

  /** The call of the project's helper that the guide names, as the specification has it. */
  ghost predicate ByHelpersCall(w: World, name: string, key: Key) {
    exists helper, i: nat :: Guided(w, name, helper) && IsFirstHelper(w, helper, i) && CallOf(w, w.helpers[i], key)
  }

  ghost predicate CallOf(w: World, h: Helper, key: Key) {
    if exists k: nat :: IsFirstOp(w, h, k)
    then exists k: nat :: IsFirstOp(w, h, k) && key == Call(w.ops[k].verb, w.ops[k].path)
    else key == Call(h.verb, h.path)
  }

  /** The best operation that gives the name, when the guide names nothing. */
  ghost predicate ByOperation(w: World, name: string, asker: Key, key: Key) {
    && (forall helper :: !Guided(w, name, helper))
    && exists k: nat :: IsBest(w, w.ops, name, asker, k) && key == Call(w.ops[k].verb, w.ops[k].path)
  }

  ghost predicate GivenBy(w: World, name: string, asker: Key, key: Key) {
    ByHelperAlone(w, name, key) || ByHelpersCall(w, name, key) || ByOperation(w, name, asker, key)
  }

  ghost predicate NobodyGives(w: World, name: string, asker: Key) {
    && (forall helper :: !Guided(w, name, helper))
    && forall k: nat :: !IsGiver(w, w.ops, name, asker, k)
  }

  lemma {:induction false} FirstHelperIs(hs: seq<Helper>, name: string) returns (i: nat)
    ensures match FirstHelper(hs, name)
            case None => forall j :: 0 <= j < |hs| ==> hs[j].name != name
            case Some(h) => i < |hs| && hs[i] == h && h.name == name && forall j :: 0 <= j < i ==> hs[j].name != name
  {
    i := 0;
    if hs != [] && hs[0].name != name {
      var j := FirstHelperIs(hs[1..], name);
      i := j + 1;
      assert forall k :: 0 < k < |hs| ==> hs[k] == hs[1..][k - 1];
    }
  }

  lemma {:induction false} FirstOpIs(w: World, ops: seq<Op>, h: Helper) returns (k: nat)
    ensures match FirstOp(w, ops, h.verb, h.path)
            case None => forall j :: 0 <= j < |ops| ==> !Serves(w, ops[j], h)
            case Some(o) => k < |ops| && ops[k] == o && Serves(w, o, h) && forall j :: 0 <= j < k ==> !Serves(w, ops[j], h)
  {
    k := 0;
    if ops != [] && !Serves(w, ops[0], h) {
      var j := FirstOpIs(w, ops[1..], h);
      k := j + 1;
      assert forall i :: 0 < i < |ops| ==> ops[i] == ops[1..][i - 1];
    }
  }

  lemma GuidedIs(w: World, name: string)
    ensures var low := w.lower(name);
            var names := if low in w.guide then w.guide[low] else [];
            forall helper :: Guided(w, name, helper) <==> names != [] && names[0] == helper
  {
  }

  /** The source of a name is its giver. */
  lemma SourceIs(w: World, name: string, asker: Key)
    ensures match SourceOf(w, name, asker)
            case Nobody => NobodyGives(w, name, asker)
            case Guide(helper) => GivenBy(w, name, asker, Bare(helper))
            case From(o) => GivenBy(w, name, asker, Call(o.verb, o.path))
  {
    hide Producer, IsBest, IsGiver, Guided, Serves;
    GuidedIs(w, name);
    var low := w.lower(name);
    var names := if low in w.guide then w.guide[low] else [];
    if names == [] {
      var k := ProducerIsBest(w, w.ops, name, asker);
    } else {
      assert Guided(w, name, names[0]);
      var i := FirstHelperIs(w.helpers, names[0]);
      if i < |w.helpers| && w.helpers[i].name == names[0] {
        var h := w.helpers[i];
        assert FirstHelper(w.helpers, names[0]) == Some(h);
        assert IsFirstHelper(w, names[0], i);
        var k := FirstOpIs(w, w.ops, h);
        HelpersCall(w, h, k);
      }
    }
  }

  lemma HelpersCall(w: World, h: Helper, k: nat)
    requires match FirstOp(w, w.ops, h.verb, h.path)
             case None => forall j :: 0 <= j < |w.ops| ==> !Serves(w, w.ops[j], h)
             case Some(o) => k < |w.ops| && w.ops[k] == o && Serves(w, o, h) && forall j :: 0 <= j < k ==> !Serves(w, w.ops[j], h)
    ensures match FirstOp(w, w.ops, h.verb, h.path)
            case None => CallOf(w, h, Call(h.verb, h.path))
            case Some(o) => CallOf(w, h, Call(o.verb, o.path))
  {
    hide Serves;
    if FirstOp(w, w.ops, h.verb, h.path).Some? {
      assert IsFirstOp(w, h, k);
    }
  }

  // ---- every name of a chain ----------------------------------------------

  /** Who may have asked for a name: the endpoint, or a call that needs it and is listed or
      being worked out. */
  ghost predicate MayAsk(w: World, names: seq<string>, target: Key, calls: set<Key>, asker: Key, name: string) {
    (asker == target && name in names) || (asker in calls && name in NeedsOf(w, asker))
  }

  ghost predicate HasGiver(w: World, names: seq<string>, target: Key, calls: set<Key>, name: string, key: Key) {
    exists asker :: MayAsk(w, names, target, calls, asker, name) && GivenBy(w, name, asker, key)
  }

  ghost predicate HasNoGiver(w: World, names: seq<string>, target: Key, calls: set<Key>, name: string) {
    exists asker :: MayAsk(w, names, target, calls, asker, name) && NobodyGives(w, name, asker)
  }

  ghost function Calls(s: Chain, active: set<Key>): set<Key> {
    active + set key | key in s.order
  }

  ghost predicate Justified(w: World, names: seq<string>, target: Key, s: Chain, active: set<Key>) {
    && (forall key, name :: key in s.ids && name in s.ids[key] ==> HasGiver(w, names, target, Calls(s, active), name, key))
    && forall name :: name in s.unresolved ==> HasNoGiver(w, names, target, Calls(s, active), name)
  }

  lemma MoreCalls(w: World, names: seq<string>, target: Key, s: Chain, t: Chain, a: set<Key>, b: set<Key>)
    requires Justified(w, names, target, s, a) && Calls(s, a) <= Calls(t, b)
    requires t.ids == s.ids && t.unresolved == s.unresolved
    ensures Justified(w, names, target, t, b)
  {
    hide NeedsOf, GivenBy, NobodyGives;
    forall key, name | HasGiver(w, names, target, Calls(s, a), name, key) ensures HasGiver(w, names, target, Calls(t, b), name, key) {
      var asker :| MayAsk(w, names, target, Calls(s, a), asker, name) && GivenBy(w, name, asker, key);
      assert MayAsk(w, names, target, Calls(t, b), asker, name);
    }
    forall name | HasNoGiver(w, names, target, Calls(s, a), name) ensures HasNoGiver(w, names, target, Calls(t, b), name) {
      var asker :| MayAsk(w, names, target, Calls(s, a), asker, name) && NobodyGives(w, name, asker);
      assert MayAsk(w, names, target, Calls(t, b), asker, name);
    }
  }

  /** One name is put under its giver. */
  lemma PlaceJustified(w: World, names: seq<string>, target: Key, s: Chain, active: set<Key>, key: Key, name: string, asker: Key)
    requires Tidy(s) && Justified(w, names, target, s, active + {key})
    requires MayAsk(w, names, target, Calls(s, active), asker, name) && GivenBy(w, name, asker, key)
    ensures Justified(w, names, target, Place(s, key, name), active)
  {
    hide GivenBy, NobodyGives, NeedsOf, HasGiver, HasNoGiver, MayAsk;
    var t := Place(s, key, name);
    PlaceOrder(s, key, name);
    var u := t.(ids := s.ids, unresolved := s.unresolved);
    MoreCalls(w, names, target, s, u, active + {key}, active);
    AskMore(w, names, target, Calls(s, active), Calls(t, active), asker, name);
    assert HasGiver(w, names, target, Calls(t, active), name, key) by {
      IsGiven(w, names, target, Calls(t, active), asker, name, key);
    }
    assert Calls(u, active) == Calls(t, active);
  }

  lemma PlaceOrder(s: Chain, key: Key, name: string)
    requires Tidy(s)
    ensures var t := Place(s, key, name);
            && (set k | k in t.order) == (set k | k in s.order) + {key} && t.unresolved == s.unresolved
            && forall k, n :: k in t.ids && n in t.ids[k] ==> (k in s.ids && n in s.ids[k]) || (k == key && n == name)
  {
  }

  lemma AskMore(w: World, names: seq<string>, target: Key, a: set<Key>, b: set<Key>, asker: Key, name: string)
    requires MayAsk(w, names, target, a, asker, name) && a <= b
    ensures MayAsk(w, names, target, b, asker, name)
  {
  }

  lemma IsGiven(w: World, names: seq<string>, target: Key, calls: set<Key>, asker: Key, name: string, key: Key)
    requires MayAsk(w, names, target, calls, asker, name) && GivenBy(w, name, asker, key)
    ensures HasGiver(w, names, target, calls, name, key)
  {
  }

  lemma LeftJustified(w: World, names: seq<string>, target: Key, s: Chain, active: set<Key>, name: string, asker: Key)
    requires Justified(w, names, target, s, active)
    requires MayAsk(w, names, target, Calls(s, active), asker, name) && NobodyGives(w, name, asker)
    ensures Justified(w, names, target, s.(unresolved := s.unresolved + [name]), active)
  {
    hide GivenBy, NobodyGives, NeedsOf, HasGiver, MayAsk;
    var t := s.(unresolved := s.unresolved + [name]);
    assert Calls(t, active) == Calls(s, active);
    assert HasNoGiver(w, names, target, Calls(s, active), name);
  }

  lemma SeenJustified(w: World, names: seq<string>, target: Key, s: Chain, active: set<Key>, more: set<Key>, seen: set<string>)
    requires Justified(w, names, target, s, active) && active <= more
    ensures Justified(w, names, target, s.(seen := seen), more)
  {
    hide HasGiver, HasNoGiver;
    MoreCalls(w, names, target, s, s.(seen := seen), active, more);
  }

  lemma {:induction false} NeedJustified(w: World, names: seq<string>, target: Key, s: Chain, name: string, depth: nat,
                                         asker: Key, active: set<Key>)
    requires Proper(w) && depth <= MAX_DEPTH && Tidy(s) && Justified(w, names, target, s, active)
    requires MayAsk(w, names, target, active, asker, name)
    ensures Justified(w, names, target, Need(w, s, name, depth, asker), active)
    decreases MAX_DEPTH - depth, 0
  {
    hide SourceOf, NeedsOf, Place, Tidy, NeedAll, Justified, GivenBy, NobodyGives, MayAsk, Proper;
    if name !in s.seen {
      var t := s.(seen := s.seen + {name});
      SourceIs(w, name, asker);
      SeenTidy(s, t.seen);
      match SourceOf(w, name, asker)
      case Guide(helper) =>
        SeenJustified(w, names, target, s, active, active + {Bare(helper)}, t.seen);
        AskMore(w, names, target, active, Calls(t, active), asker, name);
        PlaceJustified(w, names, target, t, active, Bare(helper), name, asker);
      case Nobody =>
        SeenJustified(w, names, target, s, active, active, t.seen);
        AskMore(w, names, target, active, Calls(t, active), asker, name);
        LeftJustified(w, names, target, t, active, name, asker);
      case From(o) =>
        var key := Call(o.verb, o.path);
        SourceNeeds(w, name, asker);
        SeenJustified(w, names, target, s, active, active + {key}, t.seen);
        var v := t;
        if depth < MAX_DEPTH {
          NeedAllTidy(w, t, o.needs, depth + 1, key);
          NeedsAsk(w, names, target, active + {key}, key);
          NeedAllJustified(w, names, target, t, o.needs, depth + 1, key, active + {key});
          v := NeedAll(w, t, o.needs, depth + 1, key);
        }
        AskMore(w, names, target, active, Calls(v, active), asker, name);
        PlaceJustified(w, names, target, v, active, key, name, asker);
    }
  }

  lemma NeedsAsk(w: World, names: seq<string>, target: Key, active: set<Key>, key: Key)
    requires key in active
    ensures forall n :: n in NeedsOf(w, key) ==> MayAsk(w, names, target, active, key, n)
  {
    hide NeedsOf;
  }

  lemma {:induction false} NeedAllJustified(w: World, names: seq<string>, target: Key, s: Chain, asked: seq<string>,
                                            depth: nat, asker: Key, active: set<Key>)
    requires Proper(w) && depth <= MAX_DEPTH && Tidy(s) && Justified(w, names, target, s, active)
    requires forall n :: n in asked ==> MayAsk(w, names, target, active, asker, n)
    ensures Justified(w, names, target, NeedAll(w, s, asked, depth, asker), active)
    decreases MAX_DEPTH - depth, |asked| + 1
  {
    hide Need, Tidy, Justified, MayAsk, Proper;
    if asked != [] {
      NeedJustified(w, names, target, s, asked[0], depth, asker, active);
      NeedTidy(w, s, asked[0], depth, asker);
      NeedAllJustified(w, names, target, Need(w, s, asked[0], depth, asker), asked[1..], depth, asker, active);
    }
  }

  /** In the chain of an endpoint every name stands under the call that gives it -- the one the
      flow guide names, else the best operation other than who asked for it -- and is among those
      nobody gives only when nobody does. Who asked is the endpoint or a listed call. */
  lemma EveryNameUnderItsGiver(w: World, names: seq<string>, target: Key)
    requires Proper(w)
    ensures var s := NeedAll(w, NoChain, names, 1, target);
            var calls := set key | key in s.order;
            && (forall key, name :: key in s.ids && name in s.ids[key] ==> HasGiver(w, names, target, calls, name, key))
            && forall name :: name in s.unresolved ==> HasNoGiver(w, names, target, calls, name)
  {
    hide HasGiver, HasNoGiver, NeedAll, Proper, NeedsOf;
    assert Tidy(NoChain);
    NeedAllJustified(w, names, target, NoChain, names, 1, target, {});
    var s := NeedAll(w, NoChain, names, 1, target);
    assert Calls(s, {}) == set key | key in s.order;
  }

  // ---- the order of the names asked for ----------------------------------

  /** `t` begins as `s` does: its calls, the names each gives and those nobody gives. */
  ghost predicate Begins(s: Chain, t: Chain) {
    && s.order <= t.order && s.unresolved <= t.unresolved
    && forall key :: key in s.ids ==> key in t.ids && s.ids[key] <= t.ids[key]
  }

  lemma BeginsOn(s: Chain, t: Chain, v: Chain)
    requires Begins(s, t) && Begins(t, v)
    ensures Begins(s, v)
  {
    forall key | key in s.ids ensures key in v.ids && s.ids[key] <= v.ids[key] {
      assert s.ids[key] <= t.ids[key] <= v.ids[key];
    }
  }

  lemma {:induction false} NeedBegins(w: World, s: Chain, name: string, depth: nat, asker: Key)
    requires depth <= MAX_DEPTH
    ensures Begins(s, Need(w, s, name, depth, asker))
    decreases MAX_DEPTH - depth, 0
  {
    hide SourceOf;
    if name !in s.seen && SourceOf(w, name, asker).From? && depth < MAX_DEPTH {
      var o := SourceOf(w, name, asker).op;
      var t := s.(seen := s.seen + {name});
      NeedAllBegins(w, t, o.needs, depth + 1, Call(o.verb, o.path));
    }
  }

  lemma {:induction false} NeedAllBegins(w: World, s: Chain, names: seq<string>, depth: nat, asker: Key)
    requires depth <= MAX_DEPTH
    ensures Begins(s, NeedAll(w, s, names, depth, asker))
    decreases MAX_DEPTH - depth, |names| + 1
  {
    hide Need, Begins;
    if names == [] {
      assert Begins(s, s) by {
        BeginsSelf(s);
      }
    } else {
      var m := Need(w, s, names[0], depth, asker);
      NeedBegins(w, s, names[0], depth, asker);
      NeedAllBegins(w, m, names[1..], depth, asker);
      BeginsOn(s, m, NeedAll(w, m, names[1..], depth, asker));
    }
  }

  lemma BeginsSelf(s: Chain)
    ensures Begins(s, s)
  {
  }

  lemma {:induction false} NeedAllMore(w: World, s: Chain, a: seq<string>, b: seq<string>, depth: nat, asker: Key)
    requires depth <= MAX_DEPTH
    ensures NeedAll(w, s, a + b, depth, asker) == NeedAll(w, NeedAll(w, s, a, depth, asker), b, depth, asker)
    decreases |a|
  {
    hide Need;
    if a == [] {
      assert a + b == b;
    } else {
      assert (a + b)[0] == a[0] && (a + b)[1..] == a[1..] + b;
      NeedAllMore(w, Need(w, s, a[0], depth, asker), a[1..], b, depth, asker);
    }
  }

  /** What more names bring is listed after what the first ones do: the chain begins as that of
      the first names alone. */
  lemma FirstNamesFirst(w: World, a: seq<string>, b: seq<string>, target: Key)
    ensures Begins(NeedAll(w, NoChain, a, 1, target), NeedAll(w, NoChain, a + b, 1, target))
  {
    hide NeedAll;
    NeedAllMore(w, NoChain, a, b, 1, target);
    NeedAllBegins(w, NeedAll(w, NoChain, a, 1, target), b, 1, target);
  }
}
