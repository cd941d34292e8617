/** What every set-up chain keeps, and when its order is right. */
module DepChainFacts {
  import opened DepChain
  import opened Wrappers

  // ---- no call twice, every name in one place ----------------------------

  type Ids = map<Key, seq<string>>

  ghost predicate Listed(order: seq<Key>, ids: Ids) {
    forall k :: 0 <= k < |order| ==> order[k] in ids
  }

  function AllIds(order: seq<Key>, ids: Ids): multiset<string>
    requires Listed(order, ids)
  {
    if order == [] then multiset{}
    else AllIds(order[..|order| - 1], ids) + multiset(ids[order[|order| - 1]])
  }

  ghost predicate Distinct(order: seq<Key>) {
    forall i, j :: 0 <= i < j < |order| ==> order[i] != order[j]
  }

  /** Each call once, with at least one id; the calls are those of the table. */
  ghost predicate Tidy(s: Chain) {
    && Distinct(s.order) && Listed(s.order, s.ids)
    && (forall i :: 0 <= i < |s.order| ==> s.ids[s.order[i]] != [])
    && (forall key :: key in s.ids ==> key in s.order)
  }

  /** Every name put somewhere: in a call's ids, or among those nobody gives. */
  function Placed(s: Chain): multiset<string>
    requires Listed(s.order, s.ids)
  {
    AllIds(s.order, s.ids) + multiset(s.unresolved)
  }

  lemma {:induction false} IdsElsewhere(order: seq<Key>, a: Ids, b: Ids)
    requires Listed(order, a) && Listed(order, b)
    requires forall k :: 0 <= k < |order| ==> a[order[k]] == b[order[k]]
    ensures AllIds(order, a) == AllIds(order, b)
  {
    if order != [] {
      IdsElsewhere(order[..|order| - 1], a, b);
    }
  }

  lemma {:induction false} IdsMore(order: seq<Key>, ids: Ids, key: Key, name: string)
    requires Distinct(order) && Listed(order, ids) && key in order
    ensures AllIds(order, ids[key := ids[key] + [name]]) == AllIds(order, ids) + multiset{name}
  {
    var more := ids[key := ids[key] + [name]];
    var less := order[..|order| - 1];
    if order[|order| - 1] == key {
      IdsElsewhere(less, ids, more);
    } else {
      assert order == less + [order[|order| - 1]];
      IdsMore(less, ids, key, name);
    }
  }

  lemma PlaceNew(s: Chain, key: Key, name: string)
    requires Tidy(s) && key !in s.ids
    ensures Tidy(Place(s, key, name))
  {
    var t := Place(s, key, name);
    assert forall k :: k in s.order ==> k in t.order;
    assert t.order[|s.order|] == key;
  }

  lemma PlaceOld(s: Chain, key: Key, name: string)
    requires Tidy(s) && key in s.ids
    ensures Tidy(Place(s, key, name))
  {
  }

  lemma IdsNew(order: seq<Key>, ids: Ids, key: Key, name: string)
    requires Listed(order, ids) && key !in ids
    ensures Listed(order + [key], ids[key := [name]])
    ensures AllIds(order + [key], ids[key := [name]]) == AllIds(order, ids) + multiset{name}
  {
    var more := order + [key];
    assert more[..|order|] == order;
    IdsElsewhere(order, ids, ids[key := [name]]);
    assert multiset([name]) == multiset{name};
  }

  lemma PlaceTidy(s: Chain, key: Key, name: string)
    requires Tidy(s)
    ensures Tidy(Place(s, key, name))
    ensures Placed(Place(s, key, name)) == Placed(s) + multiset{name}
  {
    hide AllIds, Distinct, Listed;
    if key in s.ids {
      PlaceOld(s, key, name);
      IdsMore(s.order, s.ids, key, name);
    } else {
      PlaceNew(s, key, name);
      IdsNew(s.order, s.ids, key, name);
    }
  }

  lemma LeftOverTidy(s: Chain, name: string)
    requires Tidy(s)
    ensures var t := s.(unresolved := s.unresolved + [name]);
            Tidy(t) && Placed(t) == Placed(s) + multiset{name}
  {
    hide AllIds, Distinct, Listed;
    assert multiset([name]) == multiset{name};
  }

  lemma SeenTidy(s: Chain, seen: set<string>)
    requires Tidy(s)
    ensures Tidy(s.(seen := seen)) && Placed(s.(seen := seen)) == Placed(s)
  {
    hide AllIds, Distinct, Listed;
  }

  lemma {:induction false} NeedTidy(w: World, s: Chain, name: string, depth: nat, forWhat: Key)
    requires depth <= MAX_DEPTH && Tidy(s)
    ensures var t := Need(w, s, name, depth, forWhat);
            && Tidy(t) && s.seen + {name} <= t.seen
            && Placed(t) == Placed(s) + multiset(t.seen - s.seen)
    decreases MAX_DEPTH - depth, 0
  {
    hide SourceOf, Placed, Place, NeedAll, Distinct, Listed;
    if name in s.seen {
      assert s.seen - s.seen == {};
    } else {
      var t := s.(seen := s.seen + {name});
      SeenTidy(s, t.seen);
      match SourceOf(w, name, forWhat)
      case Guide(helper) =>
        PlaceTidy(t, Bare(helper), name);
        PlaceSeen(t, Bare(helper), name);
        assert t.seen - s.seen == {name};
      case Nobody =>
        LeftOverTidy(t, name);
        assert t.seen - s.seen == {name};
      case From(o) =>
        var key := Call(o.verb, o.path);
        var v := t;
        if depth < MAX_DEPTH {
          NeedAllTidy(w, t, o.needs, depth + 1, key);
          v := NeedAll(w, t, o.needs, depth + 1, key);
        }
        PlaceTidy(v, key, name);
        PlaceSeen(v, key, name);
        OneMore(s.seen, name, v.seen);
    }
  }

  lemma OneMore(seen: set<string>, name: string, later: set<string>)
    requires name !in seen && seen + {name} <= later
    ensures multiset(later - seen) == multiset(later - (seen + {name})) + multiset{name}
  {
    assert later - seen == (later - (seen + {name})) + {name};
  }

  lemma PlaceSeen(s: Chain, key: Key, name: string)
    ensures Place(s, key, name).seen == s.seen && Place(s, key, name).unresolved == s.unresolved
  {
  }

  lemma {:induction false} NeedAllTidy(w: World, s: Chain, names: seq<string>, depth: nat, forWhat: Key)
    requires depth <= MAX_DEPTH && Tidy(s)
    ensures var t := NeedAll(w, s, names, depth, forWhat);
            && Tidy(t) && s.seen <= t.seen && (forall n :: n in names ==> n in t.seen)
            && Placed(t) == Placed(s) + multiset(t.seen - s.seen)
    decreases MAX_DEPTH - depth, |names| + 1
  {
    hide Need, AllIds, Tidy;
    if names != [] {
      var m := Need(w, s, names[0], depth, forWhat);
      NeedTidy(w, s, names[0], depth, forWhat);
      NeedAllTidy(w, m, names[1..], depth, forWhat);
      var t := NeedAll(w, m, names[1..], depth, forWhat);
      assert t.seen - s.seen == (t.seen - m.seen) + (m.seen - s.seen);
      assert (t.seen - m.seen) !! (m.seen - s.seen);
    } else {
      assert s.seen - s.seen == {};
    }
  }

  // ---- when every call comes after what it needs -------------------------

  /** `name` is dealt with among the first `n` calls, or is one nobody gives. */
  ghost predicate SettledBy(s: Chain, name: string, n: nat)
    requires n <= |s.order| && Listed(s.order, s.ids)
  {
    name in s.unresolved || exists j :: 0 <= j < n && name in s.ids[s.order[j]]
  }

  /** Every call is preceded by the calls that give all it needs. */
  ghost predicate Ordered(w: World, s: Chain)
    requires Listed(s.order, s.ids)
  {
    forall i, n :: 0 <= i < |s.order| && n in NeedsOf(w, s.order[i]) ==> SettledBy(s, n, i)
  }

  /** Each name an operation that may give `n` needs has a smaller rank than `n`. */
  ghost predicate Ranked(w: World, rank: string -> nat) {
    forall n, forWhat, m :: SourceOf(w, n, forWhat).From? && m in SourceOf(w, n, forWhat).op.needs ==> rank(m) < rank(n)
  }

  /** All names seen are dealt with, but for those whose calls are being worked out. */
  ghost predicate AllSettled(s: Chain, active: set<string>)
    requires Listed(s.order, s.ids)
  {
    forall n :: n in s.seen && n !in active ==> SettledBy(s, n, |s.order|)
  }

  /** `t` has all that `s` has, in the same places. */
  ghost predicate Grows(s: Chain, t: Chain)
    requires Listed(s.order, s.ids) && Listed(t.order, t.ids)
  {
    && s.order <= t.order
    && (forall n :: n in s.unresolved ==> n in t.unresolved)
    && forall k, n :: 0 <= k < |s.order| && n in s.ids[s.order[k]] ==> n in t.ids[s.order[k]]
  }

  lemma GrowsSettled(s: Chain, t: Chain, name: string, n: nat)
    requires Listed(s.order, s.ids) && Listed(t.order, t.ids) && Grows(s, t) && n <= |s.order|
    requires SettledBy(s, name, n)
    ensures SettledBy(t, name, n) && SettledBy(t, name, |t.order|)
  {
    if name !in s.unresolved {
      var j :| 0 <= j < n && name in s.ids[s.order[j]];
      assert t.order[j] == s.order[j];
    }
  }

  lemma PlaceOnlyAdds(s: Chain, key: Key, name: string)
    requires Listed(s.order, s.ids) && Listed(Place(s, key, name).order, Place(s, key, name).ids)
    ensures Grows(s, Place(s, key, name))
  {
  }

  lemma InTable(s: Chain, key: Key, name: string)
    requires Tidy(s) && key in s.ids && name in s.ids[key]
    ensures SettledBy(s, name, |s.order|)
  {
    var k :| 0 <= k < |s.order| && s.order[k] == key;
  }

  lemma PlaceGrows(s: Chain, key: Key, name: string)
    requires Tidy(s)
    ensures Tidy(Place(s, key, name)) && Grows(s, Place(s, key, name))
    ensures SettledBy(Place(s, key, name), name, |Place(s, key, name).order|)
  {
    PlaceTidy(s, key, name);
    assert key in Place(s, key, name).ids && name in Place(s, key, name).ids[key];
    PlaceOnlyAdds(s, key, name);
    hide AllIds, Distinct, Placed, Grows, SettledBy, Place;
    InTable(Place(s, key, name), key, name);
  }

  /** A call is put after all it needs, or is where it was. */
  lemma PlaceOrdered(w: World, s: Chain, key: Key, name: string)
    requires Tidy(s) && Ordered(w, s)
    requires forall n :: n in NeedsOf(w, key) ==> SettledBy(s, n, |s.order|)
    ensures Listed(Place(s, key, name).order, Place(s, key, name).ids) && Ordered(w, Place(s, key, name))
  {
    PlaceGrows(s, key, name);
    hide NeedsOf, Tidy, Grows, SettledBy;
    var t := Place(s, key, name);
    forall i, n | 0 <= i < |t.order| && n in NeedsOf(w, t.order[i]) ensures SettledBy(t, n, i) {
      if i < |s.order| {
        assert t.order[i] == s.order[i];
        GrowsSettled(s, t, n, i);
      } else {
        GrowsSettled(s, t, n, i);
      }
    }
  }

  lemma GrowsTrans(s: Chain, t: Chain, v: Chain)
    requires Listed(s.order, s.ids) && Listed(t.order, t.ids) && Listed(v.order, v.ids)
    requires Grows(s, t) && Grows(t, v)
    ensures Grows(s, v)
  {
    forall k, n | 0 <= k < |s.order| && n in s.ids[s.order[k]] ensures n in v.ids[s.order[k]] {
      assert t.order[k] == s.order[k];
      assert n in t.ids[t.order[k]];
    }
  }

  ghost predicate Good(w: World, s: Chain, active: set<string>) {
    Listed(s.order, s.ids) && Tidy(s) && Ordered(w, s) && AllSettled(s, active)
  }

  lemma GoodPlaced(w: World, s: Chain, key: Key, name: string, active: set<string>)
    requires Good(w, s, active + {name})
    requires forall n :: n in NeedsOf(w, key) ==> SettledBy(s, n, |s.order|)
    ensures Good(w, Place(s, key, name), active)
    ensures Grows(s, Place(s, key, name)) && SettledBy(Place(s, key, name), name, |Place(s, key, name).order|)
  {
    PlaceGrows(s, key, name);
    PlaceOrdered(w, s, key, name);
    PlaceSeen(s, key, name);
    hide Tidy, Ordered, SettledBy, Grows, Place, NeedsOf;
    var t := Place(s, key, name);
    forall n | n in t.seen && n !in active ensures SettledBy(t, n, |t.order|) {
      if n != name {
        GrowsSettled(s, t, n, |s.order|);
      }
    }
  }

  /** `name` can be followed back from `depth` without running out, and is not being worked out. */
  ghost predicate Reaches(rank: string -> nat, name: string, depth: nat, active: set<string>) {
    rank(name) + depth <= MAX_DEPTH && forall a :: a in active ==> rank(name) < rank(a)
  }

  lemma {:induction false} NeedGood(w: World, rank: string -> nat, s: Chain, name: string, depth: nat,
                                    forWhat: Key, active: set<string>)
    requires Proper(w) && Ranked(w, rank) && depth <= MAX_DEPTH
    requires Good(w, s, active) && Reaches(rank, name, depth, active)
    ensures var t := Need(w, s, name, depth, forWhat);
            Good(w, t, active) && Grows(s, t) && SettledBy(t, name, |t.order|)
    decreases MAX_DEPTH - depth, 0
  {
    hide SourceOf, NeedsOf, Place, Tidy, Ordered, SettledBy, Grows, Proper, NeedAll;
    if name in s.seen {
      assert name !in active;
      GrowsSelf(s);
    } else {
      var t := s.(seen := s.seen + {name});
      SeenMore(w, s, name, active);
      match SourceOf(w, name, forWhat)
      case Guide(helper) =>
        BareNeedsNothing(w, helper);
        GrowsSelf(t);
        PutGood(w, s, t, t, Bare(helper), name, active);
      case Nobody =>
        OpenGood(w, t, name, active);
        GrowsTrans(s, t, t.(unresolved := t.unresolved + [name]));
      case From(o) =>
        var key := Call(o.verb, o.path);
        SourceNeeds(w, name, forWhat);
        assert forall n :: n in o.needs ==> rank(n) < rank(name);
        var v := t;
        if depth < MAX_DEPTH {
          NeedAllGood(w, rank, t, o.needs, depth + 1, key, active + {name});
          v := NeedAll(w, t, o.needs, depth + 1, key);
        } else {
          assert rank(name) == 0;
          GrowsSelf(t);
        }
        PutGood(w, s, t, v, key, name, active);
    }
  }

  lemma BareNeedsNothing(w: World, helper: string)
    ensures NeedsOf(w, Bare(helper)) == []
  {
  }

  /** After what it needs, the call itself. */
  lemma PutGood(w: World, s: Chain, t: Chain, v: Chain, key: Key, name: string, active: set<string>)
    requires Listed(s.order, s.ids) && Listed(t.order, t.ids) && Grows(s, t)
    requires Good(w, v, active + {name}) && Grows(t, v)
    requires forall n :: n in NeedsOf(w, key) ==> SettledBy(v, n, |v.order|)
    ensures var p := Place(v, key, name);
            Good(w, p, active) && Grows(s, p) && SettledBy(p, name, |p.order|)
  {
    hide NeedsOf, Place, Tidy, Ordered, AllSettled, SettledBy, Grows;
    GoodPlaced(w, v, key, name, active);
    GrowsTrans(t, v, Place(v, key, name));
    GrowsTrans(s, t, Place(v, key, name));
  }

  lemma GrowsSelf(s: Chain)
    requires Listed(s.order, s.ids)
    ensures Grows(s, s)
  {
  }

  lemma SeenMore(w: World, s: Chain, name: string, active: set<string>)
    requires Good(w, s, active)
    ensures Good(w, s.(seen := s.seen + {name}), active + {name})
    ensures Grows(s, s.(seen := s.seen + {name}))
  {
    hide NeedsOf;
    var t := s.(seen := s.seen + {name});
    assert forall n, i :: 0 <= i <= |s.order| ==> (SettledBy(s, n, i) <==> SettledBy(t, n, i));
  }

  lemma OpenGood(w: World, s: Chain, name: string, active: set<string>)
    requires Good(w, s, active + {name})
    ensures var t := s.(unresolved := s.unresolved + [name]);
            Good(w, t, active) && Grows(s, t) && SettledBy(t, name, |t.order|)
  {
    hide NeedsOf;
    var t := s.(unresolved := s.unresolved + [name]);
    assert name in t.unresolved;
    assert forall n, i :: 0 <= i <= |s.order| && SettledBy(s, n, i) ==> SettledBy(t, n, i);
  }

  lemma {:induction false} NeedAllGood(w: World, rank: string -> nat, s: Chain, names: seq<string>, depth: nat,
                                       forWhat: Key, active: set<string>)
    requires Proper(w) && Ranked(w, rank) && depth <= MAX_DEPTH && Good(w, s, active)
    requires forall n :: n in names ==> Reaches(rank, n, depth, active)
    ensures var t := NeedAll(w, s, names, depth, forWhat);
            && Good(w, t, active) && Grows(s, t)
            && forall n :: n in names ==> SettledBy(t, n, |t.order|)
    decreases MAX_DEPTH - depth, |names| + 1
  {
    hide Need, Tidy, Ordered, AllSettled, Ranked, SettledBy, Grows, Proper, Reaches;
    if names == [] {
      GrowsSelf(s);
    } else {
      var m := Need(w, s, names[0], depth, forWhat);
      NeedGood(w, rank, s, names[0], depth, forWhat, active);
      NeedAllGood(w, rank, m, names[1..], depth, forWhat, active);
      var t := NeedAll(w, m, names[1..], depth, forWhat);
      GrowsTrans(s, m, t);
      GrowsSettled(m, t, names[0], |m.order|);
    }
  }

  // ---- the chain of an endpoint ------------------------------------------

  /** No call is listed twice, and every name asked for, and nothing else, is in the ids of
      exactly one call or exactly once among the names nobody gives. */
  lemma OnePlaceEach(w: World, names: seq<string>, target: Key)
    ensures var s := NeedAll(w, NoChain, names, 1, target);
            && Tidy(s) && Placed(s) == multiset(s.seen)
            && (forall n :: n in names ==> n in s.seen)
            && forall n :: Placed(s)[n] == if n in s.seen then 1 else 0
  {
    NeedAllTidy(w, NoChain, names, 1, target);
    var s := NeedAll(w, NoChain, names, 1, target);
    assert s.seen - {} == s.seen;
  }

  /** When names can be ranked below MAX_DEPTH so that what gives a name needs only names of
      a smaller rank, each call comes after the calls that give all it needs, and so do the
      names the endpoint itself needs. */
  lemma RightOrder(w: World, rank: string -> nat, names: seq<string>, target: Key)
    requires Proper(w) && Ranked(w, rank) && forall n :: n in names ==> rank(n) < MAX_DEPTH
    ensures var s := NeedAll(w, NoChain, names, 1, target);
            && Listed(s.order, s.ids) && Ordered(w, s)
            && forall n :: n in names ==> SettledBy(s, n, |s.order|)
  {
    hide NeedsOf, SourceOf, Ranked, Proper;
    forall n | n in names ensures Reaches(rank, n, 1, {}) {
    }
    NeedAllGood(w, rank, NoChain, names, 1, target, {});
  }

  // ---- an order is a ranking ---------------------------------------------

  lemma {:induction false} InOnePlace(order: seq<Key>, ids: Ids, j: nat, name: string)
    requires Listed(order, ids) && j < |order| && name in ids[order[j]]
    ensures AllIds(order, ids)[name] >= 1
  {
    if j < |order| - 1 {
      InOnePlace(order[..|order| - 1], ids, j, name);
    }
  }

  lemma {:induction false} InTwoPlaces(order: seq<Key>, ids: Ids, j: nat, k: nat, name: string)
    requires Listed(order, ids) && j < k < |order| && name in ids[order[j]] && name in ids[order[k]]
    ensures AllIds(order, ids)[name] >= 2
  {
    if k < |order| - 1 {
      InTwoPlaces(order[..|order| - 1], ids, j, k, name);
    } else {
      InOnePlace(order[..|order| - 1], ids, j, name);
    }
  }

  /** The place of a name among the calls is one, and no name of a call is unresolved. */
  lemma PlaceIsOne(w: World, names: seq<string>, target: Key, j: nat, k: nat, name: string)
    requires var s := NeedAll(w, NoChain, names, 1, target);
             j < |s.order| && k < |s.order| && Listed(s.order, s.ids) && name in s.ids[s.order[j]]
    ensures var s := NeedAll(w, NoChain, names, 1, target);
            name in s.seen && name !in s.unresolved && (name in s.ids[s.order[k]] ==> j == k)
  {
    hide NeedAll, AllIds;
    OnePlaceEach(w, names, target);
    var s := NeedAll(w, NoChain, names, 1, target);
    InOnePlace(s.order, s.ids, j, name);
    if name in s.ids[s.order[k]] {
      if j < k {
        InTwoPlaces(s.order, s.ids, j, k, name);
      } else if k < j {
        InTwoPlaces(s.order, s.ids, k, j, name);
      }
    }
  }

  /** Call `j` gives a name that call `i` needs. */
  ghost predicate GivesTo(w: World, s: Chain, j: nat, i: nat)
    requires Listed(s.order, s.ids)
  {
    i < |s.order| && j < |s.order| && exists n :: n in NeedsOf(w, s.order[i]) && n in s.ids[s.order[j]]
  }

  /** A chain is in order just when every name a listed call needs was followed up, and what
      gives a name to a call is listed before that call. */
  lemma OrderedIffRanked(w: World, names: seq<string>, target: Key)
    ensures var s := NeedAll(w, NoChain, names, 1, target);
            && Listed(s.order, s.ids)
            && (Ordered(w, s)
                <==> (forall i, n :: 0 <= i < |s.order| && n in NeedsOf(w, s.order[i]) ==> n in s.seen)
                     && forall i: nat, j: nat :: GivesTo(w, s, j, i) ==> j < i)
  {
    hide NeedAll, NeedsOf;
    OnePlaceEach(w, names, target);
    var s := NeedAll(w, NoChain, names, 1, target);
    if Ordered(w, s) {
      OrderedSettles(w, names, target);
      forall i: nat, j: nat | GivesTo(w, s, j, i) ensures j < i {
        GivenBefore(w, names, target, i, j);
      }
    }
    if (forall i, n :: 0 <= i < |s.order| && n in NeedsOf(w, s.order[i]) ==> n in s.seen)
       && forall i: nat, j: nat :: GivesTo(w, s, j, i) ==> j < i {
      forall i, n | 0 <= i < |s.order| && n in NeedsOf(w, s.order[i]) ensures SettledBy(s, n, i) {
        SeenIsPlaced(s, n);
        if n !in s.unresolved {
          var j :| 0 <= j < |s.order| && n in s.ids[s.order[j]];
          assert GivesTo(w, s, j, i);
        }
      }
    }
  }

  lemma OrderedSettles(w: World, names: seq<string>, target: Key)
    requires var s := NeedAll(w, NoChain, names, 1, target); Listed(s.order, s.ids) && Ordered(w, s)
    ensures var s := NeedAll(w, NoChain, names, 1, target);
            forall i, n :: 0 <= i < |s.order| && n in NeedsOf(w, s.order[i]) ==> n in s.seen
  {
    hide NeedAll, NeedsOf, AllIds;
    OnePlaceEach(w, names, target);
    var s := NeedAll(w, NoChain, names, 1, target);
    forall i, n | 0 <= i < |s.order| && n in NeedsOf(w, s.order[i]) ensures n in s.seen {
      assert SettledBy(s, n, i);
      if n in s.unresolved {
        assert multiset(s.unresolved)[n] > 0;
      } else {
        var j :| 0 <= j < i && n in s.ids[s.order[j]];
        PlaceIsOne(w, names, target, j, j, n);
      }
    }
  }

  lemma GivenBefore(w: World, names: seq<string>, target: Key, i: nat, j: nat)
    requires var s := NeedAll(w, NoChain, names, 1, target); Listed(s.order, s.ids) && Ordered(w, s) && GivesTo(w, s, j, i)
    ensures j < i
  {
    hide NeedAll, NeedsOf;
    var s := NeedAll(w, NoChain, names, 1, target);
    var n :| n in NeedsOf(w, s.order[i]) && n in s.ids[s.order[j]];
    assert SettledBy(s, n, i);
    PlaceIsOne(w, names, target, j, j, n);
    var k :| 0 <= k < i && n in s.ids[s.order[k]];
    PlaceIsOne(w, names, target, j, k, n);
  }

  lemma {:induction false} InAllIds(order: seq<Key>, ids: Ids, name: string)
    requires Listed(order, ids) && AllIds(order, ids)[name] > 0
    ensures exists j :: 0 <= j < |order| && name in ids[order[j]]
  {
    var less, last := order[..|order| - 1], order[|order| - 1];
    if AllIds(less, ids)[name] > 0 {
      InAllIds(less, ids, name);
      var j :| 0 <= j < |less| && name in ids[less[j]];
      assert order[j] == less[j];
    } else {
      assert multiset(ids[last])[name] > 0;
      assert name in ids[order[|order| - 1]];
    }
  }

  lemma SeenIsPlaced(s: Chain, name: string)
    requires Tidy(s) && Placed(s) == multiset(s.seen) && name in s.seen
    ensures name in s.unresolved || exists j :: 0 <= j < |s.order| && name in s.ids[s.order[j]]
  {
    hide AllIds;
    assert Placed(s)[name] > 0;
    if name !in s.unresolved {
      assert multiset(s.unresolved)[name] == 0;
      InAllIds(s.order, s.ids, name);
    }
  }

  /** Calls of which each needs what the next one gives, and the last what the first gives. */
  ghost predicate IsCircle(w: World, s: Chain, calls: seq<nat>)
    requires Listed(s.order, s.ids)
  {
    calls != [] && forall k :: 0 <= k < |calls| ==> GivesTo(w, s, calls[if k + 1 < |calls| then k + 1 else 0], calls[k])
  }

  lemma {:induction false} GoesDown(w: World, s: Chain, calls: seq<nat>, k: nat)
    requires Listed(s.order, s.ids) && IsCircle(w, s, calls) && k < |calls|
    requires forall i: nat, j: nat :: GivesTo(w, s, j, i) ==> j < i
    ensures calls[k] <= calls[0] && (k > 0 ==> calls[k] < calls[0])
  {
    hide GivesTo;
    if k > 0 {
      GoesDown(w, s, calls, k - 1);
      assert GivesTo(w, s, calls[k], calls[k - 1]);
    }
  }

  /** No circle among the calls of a chain is ever in order. */
  lemma EveryCircleIsOutOfOrder(w: World, names: seq<string>, target: Key, calls: seq<nat>)
    requires var s := NeedAll(w, NoChain, names, 1, target); Listed(s.order, s.ids) && IsCircle(w, s, calls)
    ensures !Ordered(w, NeedAll(w, NoChain, names, 1, target))
  {
    hide NeedAll, GivesTo, Listed;
    var s := NeedAll(w, NoChain, names, 1, target);
    OrderedIffRanked(w, names, target);
    assert GivesTo(w, s, calls[0], calls[|calls| - 1]);
    if Ordered(w, s) {
      GoesDown(w, s, calls, |calls| - 1);
    }
  }

  // ---- without a ranking -------------------------------------------------

  const FIRST := Op("POST", "/a", ["b"], {"a"})
  const SECOND := Op("POST", "/b", ["a"], {"b"})

  /** Two operations that each need what the other gives. */
  function Circle(): World {
    World([FIRST, SECOND], [], map[], (p: string, q: string) => p == q, (s: string) => s, (p: string) => [])
  }

  /** Then a call is listed before the one that gives what it needs. */
  lemma CircleIsOutOfOrder(target: Key)
    requires target == Call("GET", "/c")
    ensures Proper(Circle())
    ensures var s := NeedAll(Circle(), NoChain, ["a"], 1, target);
            Listed(s.order, s.ids) && !Ordered(Circle(), s)
  {
    var w := Circle();
    var a, b := Call("POST", "/a"), Call("POST", "/b");
    CircleSources(target);
    hide SourceOf, NeedsOf, Circle;
    var s1 := NoChain.(seen := {"a"});
    var s2 := s1.(seen := {"a", "b"});
    assert s1.seen + {"b"} == s2.seen;
    assert ["a"][1..] == [] && ["b"][1..] == [];
    assert Need(w, s2, "a", 3, b) == s2;
    assert NeedAll(w, s2, ["a"], 3, b) == s2;
    var s3 := Place(s2, b, "b");
    assert Need(w, s1, "b", 2, a) == s3;
    assert NeedAll(w, s1, ["b"], 2, a) == s3;
    var s4 := Place(s3, a, "a");
    assert {} + {"a"} == s1.seen;
    assert Need(w, NoChain, "a", 1, target) == s4;
    assert NeedAll(w, NoChain, ["a"], 1, target) == s4;
    assert s4.order[0] == b && !SettledBy(s4, "a", 0);
  }

  lemma CircleSources(target: Key)
    requires target == Call("GET", "/c")
    ensures var w := Circle();
            && Proper(w) && SourceOf(w, "a", target) == From(FIRST)
            && SourceOf(w, "b", Call("POST", "/a")) == From(SECOND)
            && NeedsOf(w, Call("POST", "/b")) == ["a"]
  {
    var w := Circle();
    assert "/a" != "/b" by { assert "/a"[1] != "/b"[1]; }
    assert "a" in FIRST.gives && "b" in SECOND.gives;
    assert Producer(w, [], "a", target) == None;
    assert w.ops[1..] == [SECOND] && w.ops[1..][1..] == [];
  }

  // ---- a chain one call too deep -----------------------------------------

  /** Who asks for name `k` of a straight chain. */
  function Asker(ops: seq<Op>, target: Key, k: nat): Key
    requires k <= |ops|
  {
    if k == 0 then target else Call(ops[k - 1].verb, ops[k - 1].path)
  }

  /** Each of `names` but the last is given by the operation at its place, which needs the next. */
  ghost predicate Straight(w: World, names: seq<string>, ops: seq<Op>, target: Key) {
    && |names| == MAX_DEPTH + 1 && |ops| == MAX_DEPTH
    && (forall i, j :: 0 <= i < j <= MAX_DEPTH ==> names[i] != names[j])
    && forall k :: 0 <= k < MAX_DEPTH ==>
         && SourceOf(w, names[k], Asker(ops, target, k)) == From(ops[k])
         && ops[k].needs == [names[k + 1]]
  }

  lemma OneNeed(w: World, s: Chain, name: string, depth: nat, forWhat: Key)
    requires depth <= MAX_DEPTH
    ensures NeedAll(w, s, [name], depth, forWhat) == Need(w, s, name, depth, forWhat)
  {
    hide Need;
    assert [name][1..] == [];
    assert NeedAll(w, Need(w, s, name, depth, forWhat), [], depth, forWhat) == Need(w, s, name, depth, forWhat);
  }

  lemma NeedFrom(w: World, s: Chain, name: string, depth: nat, forWhat: Key, o: Op)
    requires depth <= MAX_DEPTH && name !in s.seen && SourceOf(w, name, forWhat) == From(o)
    ensures var t, key := s.(seen := s.seen + {name}), Call(o.verb, o.path);
            Need(w, s, name, depth, forWhat)
            == Place(if depth < MAX_DEPTH then NeedAll(w, t, o.needs, depth + 1, key) else t, key, name)
  {
    hide SourceOf, Place;
  }

  lemma {:induction false} WalkStops(w: World, s: Chain, names: seq<string>, ops: seq<Op>, target: Key, depth: nat)
    requires Straight(w, names, ops, target) && 1 <= depth <= MAX_DEPTH
    requires s.order == [] && s.ids == map[] && forall k :: depth - 1 <= k <= MAX_DEPTH ==> names[k] !in s.seen
    ensures var t := Need(w, s, names[depth - 1], depth, Asker(ops, target, depth - 1));
            names[MAX_DEPTH] !in t.seen && Call(ops[MAX_DEPTH - 1].verb, ops[MAX_DEPTH - 1].path) in t.order
    decreases MAX_DEPTH - depth
  {
    hide SourceOf, Need, NeedAll;
    var name, o := names[depth - 1], ops[depth - 1];
    NeedFrom(w, s, name, depth, Asker(ops, target, depth - 1), o);
    if depth < MAX_DEPTH {
      var t, key := s.(seen := s.seen + {name}), Call(o.verb, o.path);
      WalkStops(w, t, names, ops, target, depth + 1);
      OneNeed(w, t, names[depth], depth + 1, key);
    }
  }

  /** So the limit on the ranks in RightOrder is sharp: of a straight chain one call deeper the
      last call's need is never followed up, and the chain is not in order. */
  lemma OneTooDeep(w: World, names: seq<string>, ops: seq<Op>, target: Key)
    requires Proper(w) && Straight(w, names, ops, target)
    ensures var s := NeedAll(w, NoChain, [names[0]], 1, target);
            && names[MAX_DEPTH] !in s.seen && Listed(s.order, s.ids) && !Ordered(w, s)
  {
    hide SourceOf, NeedsOf, Need, Tidy;
    WalkStops(w, NoChain, names, ops, target, 1);
    var s := NeedAll(w, NoChain, [names[0]], 1, target);
    OneNeed(w, NoChain, names[0], 1, target);
    OnePlaceEach(w, [names[0]], target);
    var k := MAX_DEPTH - 1;
    SourceNeeds(w, names[k], Asker(ops, target, k));
    if Ordered(w, s) {
      OrderedSettles(w, [names[0]], target);
      assert false;
    }
  }

  /** The operation that gives one of five names; all but the last need the next. */
  function InLine(k: nat): Op
    requires k < 5
  {
    var names := ["a", "b", "c", "d", "e"];
    Op("POST", names[k], if k < 4 then [names[k + 1]] else [], {names[k]})
  }

  function Line(): World {
    World([InLine(0), InLine(1), InLine(2), InLine(3), InLine(4)], [], map[],
          (p: string, q: string) => p == q, (s: string) => s, (p: string) => [])
  }

  lemma {:induction false} OnlyOneGives(w: World, ops: seq<Op>, k: nat, name: string, exclude: Key)
    requires k < |ops| && Gives(w, ops[k], name) && Call(ops[k].verb, ops[k].path) != exclude
    requires forall j :: 0 <= j < |ops| && j != k ==> !Gives(w, ops[j], name)
    ensures Producer(w, ops, name, exclude) == Some(ops[k])
    decreases |ops|
  {
    hide Gives, Before;
    if k > 0 {
      OnlyOneGives(w, ops[1..], k - 1, name, exclude);
    } else {
      NoneGives(w, ops[1..], name, exclude);
    }
  }

  lemma {:induction false} NoneGives(w: World, ops: seq<Op>, name: string, exclude: Key)
    requires forall j :: 0 <= j < |ops| ==> !Gives(w, ops[j], name)
    ensures Producer(w, ops, name, exclude) == None
  {
    hide Gives, Before;
    if ops != [] {
      NoneGives(w, ops[1..], name, exclude);
    }
  }

  /** Five operations in line are such a chain. */
  lemma LineIsStraight(target: Key)
    requires target == Call("GET", "/x")
    ensures Proper(Line())
    ensures Straight(Line(), ["a", "b", "c", "d", "e"], [InLine(0), InLine(1), InLine(2), InLine(3)], target)
  {
    LineIsProper();
    LettersDiffer();
    hide SourceOf, Line;
    LineSource(0, target);
    LineSource(1, Call(InLine(0).verb, InLine(0).path));
    LineSource(2, Call(InLine(1).verb, InLine(1).path));
    LineSource(3, Call(InLine(2).verb, InLine(2).path));
  }

  lemma LineIsProper()
    ensures Proper(Line())
  {
    LettersDiffer();
  }

  lemma LineSource(k: nat, forWhat: Key)
    requires k < 5 && forWhat != Call(InLine(k).verb, InLine(k).path)
    ensures SourceOf(Line(), ["a", "b", "c", "d", "e"][k], forWhat) == From(InLine(k))
  {
    InLineGives(k);
    hide Gives, Producer;
    var w := Line();
    assert |w.ops| == 5 && w.ops[k] == InLine(k);
    OnlyOneGives(w, w.ops, k, ["a", "b", "c", "d", "e"][k], forWhat);
  }

  lemma LettersDiffer()
    ensures var names := ["a", "b", "c", "d", "e"];
            forall i, j :: 0 <= i < j < 5 ==> names[i] != names[j]
  {
    var names := ["a", "b", "c", "d", "e"];
    assert names[0][0] == 'a' && names[1][0] == 'b' && names[2][0] == 'c' && names[3][0] == 'd' && names[4][0] == 'e';
  }

  lemma InLineGives(k: nat)
    requires k < 5
    ensures forall j :: 0 <= j < 5 ==> (Gives(Line(), Line().ops[j], ["a", "b", "c", "d", "e"][k]) <==> j == k)
  {
    LettersDiffer();
  }
}
