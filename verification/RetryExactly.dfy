/** What one run over a directory of results removes, told by places in the listing: which
    result is beaten by which, and which attachment nothing else names. */
module RetryExactly {
  import opened Picking
  import opened RetryDedup
  import opened Wrappers

  // ---- the results that are read -----------------------------------------

  /** The file at a place of the listing is a result that can be read. */
  ghost function Reading(files: Files, listing: seq<string>): (nat, Entry) -> bool {
    (i: nat, e: Entry) =>
      && i < |listing| && |listing[i]| >= 12 && listing[i][|listing[i]| - 12..] == "-result.json"
      && listing[i] in files && files[listing[i]] == Readable(e.result) && e.path == listing[i]
  }

  lemma {:induction false} ParsedAre(files: Files, listing: seq<string>)
    ensures Picks(Parsed(files, listing), |listing|, Reading(files, listing))
  {
    hide Picks;
    if listing == [] {
      PicksNone(Reading(files, listing));
    } else {
      var n := |listing| - 1;
      var less := Parsed(files, listing[..n]);
      ParsedAre(files, listing[..n]);
      PicksSame(less, n, Reading(files, listing[..n]), Reading(files, listing));
      if IsResult(listing[n]) && listing[n] in files && files[listing[n]].Readable? {
        PicksMore(less, n, Reading(files, listing), Entry(listing[n], files[listing[n]].result));
      } else {
        PicksNoMore(less, n, Reading(files, listing));
      }
    }
  }

  ghost function OfKey(es: seq<Entry>, key: string): (nat, Entry) -> bool {
    (i: nat, e: Entry) => i < |es| && e == es[i] && GroupKey(e.result) == key
  }

  lemma {:induction false} GroupAre(es: seq<Entry>, key: string)
    ensures Picks(Group(es, key), |es|, OfKey(es, key))
  {
    hide Picks, GroupKey;
    if es == [] {
      PicksNone(OfKey(es, key));
    } else {
      var n := |es| - 1;
      GroupAre(es[..n], key);
      PicksSame(Group(es[..n], key), n, OfKey(es[..n], key), OfKey(es, key));
      if GroupKey(es[n].result) == key {
        PicksMore(Group(es[..n], key), n, OfKey(es, key), es[n]);
      } else {
        PicksNoMore(Group(es[..n], key), n, OfKey(es, key));
      }
    }
  }

  // ---- who wins ----------------------------------------------------------

  /** `a` stopped before `b`; one that has no stop time stops at -1. */
  ghost predicate StopsBefore(a: Result, b: Result) {
    match (a.stop, b.stop)
    case (Some(s), Some(t)) => s < t
    case (Some(s), None) => s < -1
    case (None, Some(t)) => -1 < t
    case (None, None) => false
  }

  /** The result at `i` is beaten by that at `j`: of the same test, and the later to stop, or,
      when they stop together, the later listed. */
  ghost predicate Beats(es: seq<Entry>, j: nat, i: nat)
    requires i < |es| && j < |es|
  {
    && GroupKey(es[i].result) == GroupKey(es[j].result)
    && (StopsBefore(es[i].result, es[j].result) || (i < j && !StopsBefore(es[j].result, es[i].result)))
  }

  ghost predicate Beaten(es: seq<Entry>, i: nat)
    requires i < |es|
  {
    exists j: nat :: j < |es| && Beats(es, j, i)
  }

  /** The winner of a list is at the place after which all stop before it, and before which
      none stops after it. */
  lemma {:induction false} WinnerAt(es: seq<Entry>) returns (k: nat)
    requires es != []
    ensures k < |es| && es[k] == Winner(es)
    ensures forall j: nat :: k < j < |es| ==> StopsBefore(es[j].result, es[k].result)
    ensures forall j: nat :: j < k ==> !StopsBefore(es[k].result, es[j].result)
  {
    hide StopsBefore, Stop;
    var n := |es| - 1;
    forall i: nat, j: nat | i < |es| && j < |es|
      ensures StopsBefore(es[i].result, es[j].result) <==> Stop(es[i].result) < Stop(es[j].result)
    {
      StopIs(es[i].result, es[j].result);
    }
    if n == 0 {
      return 0;
    }
    k := WinnerAt(es[..n]);
    assert forall j: nat :: j < n ==> es[..n][j] == es[j];
    if Stop(es[k].result) <= Stop(es[n].result) {
      k := n;
    }
  }

  lemma StopIs(a: Result, b: Result)
    ensures StopsBefore(a, b) <==> Stop(a) < Stop(b)
  {
  }

  lemma PlacesOf(es: seq<Entry>, key: string) returns (at: seq<nat>)
    ensures PicksAt(Group(es, key), |es|, OfKey(es, key), at)
  {
    GroupAre(es, key);
    at :| PicksAt(Group(es, key), |es|, OfKey(es, key), at);
  }

  /** A result is kept just when no other beats it. */
  lemma KeptIffUnbeaten(es: seq<Entry>, i: nat)
    requires NoneTwice(es) && i < |es|
    ensures Kept(es, es[i]) <==> !Beaten(es, i)
  {
    hide GroupKey, StopsBefore, NoneTwice, OfKey, Group, Winner;
    var key := GroupKey(es[i].result);
    var g := Group(es, key);
    InGroup(es, es[i]);
    var at := PlacesOf(es, key);
    PlacesAre(es, key, at);
    var k := WinnerAt(g);
    var w := at[k];
    PlaceOf(es, key, at, i);
    if es[i] == g[k] {
      OncePlaced(es, i, w);
      forall j: nat | j < |es| ensures !Beats(es, j, i) {
        if GroupKey(es[j].result) == key {
          PlaceOf(es, key, at, j);
          var p :| 0 <= p < |at| && at[p] == j;
          StopIs(es[i].result, es[j].result);
          StopIs(es[j].result, es[i].result);
          assert p < k ==> !StopsBefore(g[k].result, g[p].result);
          assert k < p ==> StopsBefore(g[p].result, g[k].result);
        }
      }
    } else {
      var p :| 0 <= p < |at| && at[p] == i;
      StopIs(es[i].result, es[w].result);
      StopIs(es[w].result, es[i].result);
      assert Beats(es, w, i);
    }
  }

  lemma PlacesAre(es: seq<Entry>, key: string, at: seq<nat>)
    requires PicksAt(Group(es, key), |es|, OfKey(es, key), at)
    ensures |at| == |Group(es, key)| && Rising(at)
    ensures forall p :: 0 <= p < |at| ==> at[p] < |es| && es[at[p]] == Group(es, key)[p] && GroupKey(es[at[p]].result) == key
  {
    hide GroupKey, Group;
  }

  lemma PlaceOf(es: seq<Entry>, key: string, at: seq<nat>, j: nat)
    requires PicksAt(Group(es, key), |es|, OfKey(es, key), at) && j < |es| && GroupKey(es[j].result) == key
    ensures j in at
  {
    hide GroupKey, Group;
    assert OfKey(es, key)(j, es[j]);
  }

  lemma OncePlaced(es: seq<Entry>, i: nat, j: nat)
    requires NoneTwice(es) && i < |es| && j < |es| && es[i] == es[j]
    ensures i == j
  {
    if i < j {
      TwicePlaced(es, i, j);
    } else if j < i {
      TwicePlaced(es, j, i);
    }
  }

  lemma TwicePlaced(es: seq<Entry>, i: nat, j: nat)
    requires i < j < |es| && es[i] == es[j]
    ensures multiset(es)[es[i]] >= 2
  {
    assert es == es[..j] + [es[j]] + es[j + 1..];
    assert es[i] in es[..j];
  }

  // ---- what goes ---------------------------------------------------------

  /** The name `s` is that of an attachment of an unbeaten result or of a container. */
  ghost predicate StillNamed(files: Files, es: seq<Entry>, s: string) {
    || (exists j: nat :: j < |es| && !Beaten(es, j) && s in Sources(es[j].result.root))
    || (exists name :: name in files && |name| >= 15 && name[|name| - 15..] == "-container.json"
                       && files[name].Readable? && s in Sources(files[name].result.root))
  }

  /** The file goes with the beaten result at `i`: it is that, or one of its attachments under a
      name that nothing kept has. */
  ghost predicate GoesWith(files: Files, es: seq<Entry>, at: string -> string, i: nat, f: string)
    requires i < |es|
  {
    Beaten(es, i)
    && (es[i].path == f || exists s :: s in Sources(es[i].result.root) && at(s) == f && !StillNamed(files, es, s))
  }

  lemma NeededIs(es: seq<Entry>, s: string)
    requires NoneTwice(es)
    ensures s in Needed(es) <==> exists j: nat :: j < |es| && !Beaten(es, j) && s in Sources(es[j].result.root)
  {
    hide NoneTwice, Sources, Kept, Beaten, GroupKey;
    forall j: nat | j < |es| ensures Kept(es, es[j]) <==> !Beaten(es, j) {
      KeptIffUnbeaten(es, j);
    }
    if e :| e in es && Kept(es, e) && s in Sources(e.result.root) {
      var j: nat :| j < |es| && es[j] == e;
    }
  }

  lemma IsContainerIs(name: string)
    ensures IsContainer(name) <==> |name| >= 15 && name[|name| - 15..] == "-container.json"
  {
  }

  lemma StillNamedIs(files: Files, es: seq<Entry>, s: string)
    requires NoneTwice(es)
    ensures StillNamed(files, es, s) <==> s in Surviving(files, es)
  {
    NeededIs(es, s);
    forall name: string ensures IsContainer(name) <==> |name| >= 15 && name[|name| - 15..] == "-container.json" {
      IsContainerIs(name);
    }
    hide NoneTwice, Sources, Kept, Beaten, IsContainer, Needed;
  }

  /** A file of the directory goes just when it goes with a beaten result. */
  lemma WhatGoes(files: Files, listing: seq<string>, at: string -> string, f: string)
    requires Lists(listing, files) && f in files
    ensures var es := Parsed(files, listing);
            f !in Left(files, listing, at) <==> exists i: nat :: i < |es| && GoesWith(files, es, at, i, f)
  {
    hide Parsed, NoneTwice, Sources, Kept, Beaten, Surviving, StillNamed;
    ParsedNoneTwice(files, listing);
    var es := Parsed(files, listing);
    forall j: nat | j < |es| ensures Kept(es, es[j]) <==> !Beaten(es, j) {
      KeptIffUnbeaten(es, j);
    }
    forall s ensures StillNamed(files, es, s) <==> s in Surviving(files, es) {
      StillNamedIs(files, es, s);
    }
    if f in LoserPaths(es) {
      var e :| e in es && !Kept(es, e) && e.path == f;
      var i :| 0 <= i < |es| && es[i] == e;
      assert GoesWith(files, es, at, i, f);
    }
    if f in FilesOf(Orphans(files, es), at) {
      var s :| s in Orphans(files, es) && at(s) == f;
      var e :| e in es && !Kept(es, e) && s in Sources(e.result.root);
      var i :| 0 <= i < |es| && es[i] == e;
      assert GoesWith(files, es, at, i, f);
    }
  }
}
