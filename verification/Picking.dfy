/** Lists made of what stands at some places of others: nothing left out, nothing more,
    in order. */
module Picking {

  ghost predicate Rising(s: seq<nat>) {
    forall j, k :: 0 <= j < k < |s| ==> s[j] < s[k]
  }

  /** Of the places under `n`, `at` are those that give something, and `r` is what they give. */
  ghost predicate PicksAt<T(!new)>(r: seq<T>, n: nat, gives: (nat, T) -> bool, at: seq<nat>) {
    && |at| == |r|
    && (forall k :: 0 <= k < |at| ==> at[k] < n && gives(at[k], r[k]))
    && Rising(at)
    && (forall i: nat, t: T :: i < n && gives(i, t) ==> i in at)
  }

  ghost predicate Picks<T(!new)>(r: seq<T>, n: nat, gives: (nat, T) -> bool) {
    exists at: seq<nat> :: PicksAt(r, n, gives, at)
  }

  /** Each place gives at most one thing. */
  ghost predicate OneEach<T(!new)>(n: nat, gives: (nat, T) -> bool) {
    forall i: nat, t: T, u: T :: i < n && gives(i, t) && gives(i, u) ==> t == u
  }

  lemma PicksNone<T(!new)>(gives: (nat, T) -> bool)
    ensures Picks([], 0, gives)
  {
    assert PicksAt([], 0, gives, []);
  }

  lemma PicksMore<T(!new)>(r: seq<T>, n: nat, gives: (nat, T) -> bool, t: T)
    requires Picks(r, n, gives) && gives(n, t)
    ensures Picks(r + [t], n + 1, gives)
  {
    var at: seq<nat> :| PicksAt(r, n, gives, at);
    var bt, s := at + [n], r + [t];
    forall k | 0 <= k < |bt| ensures bt[k] < n + 1 && gives(bt[k], s[k]) {
      assert k < |at| ==> bt[k] == at[k] && s[k] == r[k];
    }
    forall i: nat, u: T | i < n + 1 && gives(i, u) ensures i in bt {
      assert i < n ==> i in at;
      assert bt[|at|] == n;
    }
    assert PicksAt(s, n + 1, gives, bt);
  }

  lemma PicksNoMore<T(!new)>(r: seq<T>, n: nat, gives: (nat, T) -> bool)
    requires Picks(r, n, gives) && forall t: T :: !gives(n, t)
    ensures Picks(r, n + 1, gives)
  {
    var at: seq<nat> :| PicksAt(r, n, gives, at);
    assert PicksAt(r, n + 1, gives, at);
  }

  lemma PicksSame<T(!new)>(r: seq<T>, n: nat, gives: (nat, T) -> bool, also: (nat, T) -> bool)
    requires Picks(r, n, gives)
    requires forall i: nat, t: T :: i < n ==> (gives(i, t) <==> also(i, t))
    ensures Picks(r, n, also)
  {
    var at: seq<nat> :| PicksAt(r, n, gives, at);
    forall k | 0 <= k < |at| ensures also(at[k], r[k]) {
      assert gives(at[k], r[k]);
    }
    forall i: nat, t: T | i < n && also(i, t) ensures i in at {
      assert gives(i, t);
    }
    assert PicksAt(r, n, also, at);
  }

  /** There is only one such list. */
  lemma {:induction false} PicksOne<T(!new)>(r: seq<T>, s: seq<T>, n: nat, gives: (nat, T) -> bool)
    requires Picks(r, n, gives) && Picks(s, n, gives) && OneEach(n, gives)
    ensures r == s
  {
    var at: seq<nat> :| PicksAt(r, n, gives, at);
    var bt: seq<nat> :| PicksAt(s, n, gives, bt);
    forall i: nat ensures i in at <==> i in bt {
      if k :| 0 <= k < |at| && at[k] == i {
        assert gives(i, r[k]);
      }
      if k :| 0 <= k < |bt| && bt[k] == i {
        assert gives(i, s[k]);
      }
    }
    SamePlaces(at, bt);
    forall k | 0 <= k < |r| ensures r[k] == s[k] {
      assert gives(at[k], r[k]) && gives(bt[k], s[k]);
    }
  }

  lemma LastIsGreatest(s: seq<nat>, i: nat)
    requires Rising(s) && s != []
    ensures s[|s| - 1] in s
    ensures i in s ==> i <= s[|s| - 1]
    ensures i in s[..|s| - 1] <==> i in s && i != s[|s| - 1]
    ensures Rising(s[..|s| - 1])
  {
    assert s == s[..|s| - 1] + [s[|s| - 1]];
  }

  lemma {:induction false} SamePlaces(a: seq<nat>, b: seq<nat>)
    requires Rising(a) && Rising(b)
    requires forall i: nat :: i in a <==> i in b
    ensures a == b
  {
    assert (a == [] || a[0] in a) && (b == [] || b[0] in b);
    if a != [] {
      var m, n := |a| - 1, |b| - 1;
      LastIsGreatest(a, b[n]);
      LastIsGreatest(b, a[m]);
      forall i: nat ensures i in a[..m] <==> i in b[..n] {
        LastIsGreatest(a, i);
        LastIsGreatest(b, i);
      }
      hide Rising;
      SamePlaces(a[..m], b[..n]);
      assert a == a[..m] + [a[m]] && b == b[..n] + [b[n]];
    }
  }

  /** The lists one after another. */
  function Flat<T>(parts: seq<seq<T>>): seq<T> {
    if parts == [] then [] else Flat(parts[..|parts| - 1]) + parts[|parts| - 1]
  }
}
