/** Retries taken out of a directory of test results: of the results of one test the last
    to stop is kept, the others are removed, and with them the attachments that nothing
    kept refers to. */
module RetryDedup {
  import Text
  import opened Wrappers

  // ---- the directory -----------------------------------------------------

  /** The parts of a result or container that can name attachments. */
  datatype Node = Node(attachments: seq<string>, steps: seq<Node>, befores: seq<Node>, afters: seq<Node>)

  datatype Result = Result(historyId: string, fullName: string, name: string, params: string, stop: Option<int>, root: Node)

  /** A file of the directory: JSON that could be read, or anything else. The name decides
      what a readable one is read as. */
  datatype File = Readable(result: Result) | Unreadable

  type Files = map<string, File>

  predicate IsResult(name: string) {
    Text.EndsWith(name, "-result.json")
  }

  predicate IsContainer(name: string) {
    Text.EndsWith(name, "-container.json")
  }

  /** The history id of a test, or its full name and parameters. */
  function GroupKey(r: Result): string {
    if r.historyId != "" then "h:" + r.historyId
    else "n:" + (if r.fullName != "" then r.fullName else r.name) + "|" + r.params
  }

  function Stop(r: Result): int {
    if r.stop.Some? then r.stop.value else -1
  }

  function Sources(n: Node): set<string> {
    (set a | a in n.attachments && a != "" :: a)
    + SourcesAll(n.steps) + SourcesAll(n.befores) + SourcesAll(n.afters)
  }

  function SourcesAll(ns: seq<Node>): set<string> {
    if ns == [] then {} else Sources(ns[0]) + SourcesAll(ns[1..])
  }

  function Parts(n: Node): seq<Node> {
    n.steps + n.befores + n.afters
  }

  /** `m` is `n` or a part of it, at any depth. */
  ghost predicate IsPart(m: Node, n: Node)
    decreases n
  {
    m == n || exists k :: 0 <= k < |Parts(n)| && IsPart(m, PartOf(n, k))
  }

  ghost function PartOf(n: Node, k: nat): (p: Node)
    requires k < |Parts(n)|
    ensures p < n && p == Parts(n)[k]
  {
    var a, b := |n.steps|, |n.steps| + |n.befores|;
    if k < a then n.steps[k] else if k < b then n.befores[k - a] else n.afters[k - b]
  }

  lemma {:induction false} SourcesAllAre(ns: seq<Node>, s: string)
    ensures s in SourcesAll(ns) <==> exists k :: 0 <= k < |ns| && s in Sources(ns[k])
    decreases |ns|
  {
    hide Sources;
    if ns != [] {
      SourcesAllAre(ns[1..], s);
      if k :| 0 <= k < |ns| && s in Sources(ns[k]) {
        assert k > 0 ==> ns[1..][k - 1] == ns[k];
      }
    }
  }

  lemma SourcesOnce(n: Node, s: string)
    ensures s in Sources(n) <==> (s in n.attachments && s != "") || exists k :: 0 <= k < |Parts(n)| && s in Sources(PartOf(n, k))
  {
    SourcesHere(n, s);
    hide Sources, SourcesAll, PartOf;
    SourcesAllAre(n.steps, s);
    SourcesAllAre(n.befores, s);
    SourcesAllAre(n.afters, s);
    SourcesAllAre(Parts(n), s);
    PartsApart(n.steps, n.befores, n.afters, s);
    assert forall k :: 0 <= k < |Parts(n)| ==> PartOf(n, k) == Parts(n)[k];
  }

  lemma SourcesHere(n: Node, s: string)
    ensures s in Sources(n)
            <==> (s in n.attachments && s != "") || s in SourcesAll(n.steps) + SourcesAll(n.befores) + SourcesAll(n.afters)
  {
    hide SourcesAll;
  }

  lemma PartsApart(a: seq<Node>, b: seq<Node>, c: seq<Node>, s: string)
    ensures s in SourcesAll(a + b + c) <==> s in SourcesAll(a) + SourcesAll(b) + SourcesAll(c)
  {
    SourcesConcat(a, b);
    SourcesConcat(a + b, c);
  }

  lemma {:induction false} SourcesConcat(a: seq<Node>, b: seq<Node>)
    ensures SourcesAll(a + b) == SourcesAll(a) + SourcesAll(b)
    decreases |a|
  {
    hide Sources;
    if a == [] {
      assert a + b == b;
    } else {
      SourcesConcat(a[1..], b);
      assert (a + b)[1..] == a[1..] + b;
    }
  }

  /** The names found are those of the attachments of the result and of all its parts. */
  lemma {:induction false} SourcesAre(n: Node, s: string)
    ensures s in Sources(n) <==> s != "" && exists m :: IsPart(m, n) && s in m.attachments
    decreases n
  {
    hide Sources, Parts;
    SourcesOnce(n, s);
    forall k | 0 <= k < |Parts(n)|
      ensures s in Sources(PartOf(n, k)) <==> s != "" && exists m :: IsPart(m, PartOf(n, k)) && s in m.attachments
    {
      SourcesAre(PartOf(n, k), s);
    }
    assert IsPart(n, n);
  }

  /** Results that have history ids are of one test just when the ids are the same, and never
      of one test with a result that has none. */
  lemma SameTest(a: Result, b: Result)
    requires a.historyId != ""
    ensures GroupKey(a) == GroupKey(b) <==> a.historyId == b.historyId
  {
    assert GroupKey(a)[0] == 'h' && GroupKey(a)[2..] == a.historyId;
    assert b.historyId != "" ==> GroupKey(b)[2..] == b.historyId;
    assert b.historyId == "" ==> GroupKey(b)[0] == 'n';
  }

  /** The test of `b` is named as that of `a` with a bar and more, and what is more begins the
      parameters of `a`, before a bar and the parameters of `b`. */
  ghost predicate RunsOver(name: string, params: string, longer: string, fewer: string) {
    && |name| < |longer| && longer[..|name|] == name && longer[|name|] == '|'
    && params == longer[|name| + 1..] + "|" + fewer
  }

  /** Two results without history ids are of one test just when their names -- the full ones,
      where there are -- and their parameters are the same, or one name runs over a bar into
      the parameters of the other. */
  lemma SameTestUnnamed(a: Result, b: Result)
    requires a.historyId == "" && b.historyId == ""
    ensures var m, n := if |a.fullName| > 0 then a.fullName else a.name, if |b.fullName| > 0 then b.fullName else b.name;
            GroupKey(a) == GroupKey(b)
            <==> (m == n && a.params == b.params) || RunsOver(m, a.params, n, b.params) || RunsOver(n, b.params, m, a.params)
  {
    hide RunsOver;
    var m, n := if |a.fullName| > 0 then a.fullName else a.name, if |b.fullName| > 0 then b.fullName else b.name;
    assert GroupKey(a) == "n:" + (m + "|" + a.params) && GroupKey(b) == "n:" + (n + "|" + b.params);
    assert GroupKey(a)[2..] == m + "|" + a.params && GroupKey(b)[2..] == n + "|" + b.params;
    if |m| <= |n| {
      BarredAlike(m, a.params, n, b.params);
    } else {
      BarredAlike(n, b.params, m, a.params);
    }
  }

  lemma BarredAlike(m: string, p: string, n: string, q: string)
    requires |m| <= |n|
    ensures m + "|" + p == n + "|" + q <==> (m == n && p == q) || RunsOver(m, p, n, q)
    ensures RunsOver(n, q, m, p) ==> |n| < |m|
  {
    var s, t := m + "|" + p, n + "|" + q;
    assert s[|m|] == '|' && s[|m| + 1..] == p && t[|n|] == '|' && t[|n| + 1..] == q && s[..|m|] == m && t[..|n|] == n;
    if RunsOver(m, p, n, q) {
      assert n == m + "|" + n[|m| + 1..];
      assert t == m + "|" + (n[|m| + 1..] + "|" + q);
    }
    if s == t {
      assert m == n[..|m|];
      if |m| < |n| {
        assert n[|m|] == '|';
        assert p == t[|m| + 1..] == n[|m| + 1..] + "|" + q;
      }
    }
  }

  /** Such results are taken to be of one test, though neither name nor parameters agree. */
  lemma BarsRunTogether(root: Node)
    ensures GroupKey(Result("", "a|b", "", "c", None, root)) == GroupKey(Result("", "a", "", "b|c", None, root))
  {
    assert "n:" + "a|b" + "|" + "c" == "n:" + "a" + "|" + "b|c";
  }

  // ---- what is kept and what is not --------------------------------------

  datatype Entry = Entry(path: string, result: Result)

  /** The results that can be read, in the order of the listing. */
  function Parsed(files: Files, listing: seq<string>): seq<Entry> {
    if listing == [] then []
    else
      var less, name := Parsed(files, listing[..|listing| - 1]), listing[|listing| - 1];
      if IsResult(name) && name in files && files[name].Readable? then less + [Entry(name, files[name].result)] else less
  }

  function Group(es: seq<Entry>, key: string): seq<Entry> {
    if es == [] then []
    else
      var less, e := Group(es[..|es| - 1], key), es[|es| - 1];
      if GroupKey(e.result) == key then less + [e] else less
  }

  /** The last to stop; of several, the last in the list. */
  function Winner(es: seq<Entry>): (w: Entry)
    requires es != []
    ensures w in es
    ensures forall e :: e in es ==> Stop(e.result) <= Stop(w.result)
  {
    var last := es[|es| - 1];
    if |es| == 1 then last
    else
      var w := Winner(es[..|es| - 1]);
      assert es == es[..|es| - 1] + [last];
      if Stop(w.result) <= Stop(last.result) then last else w
  }

  ghost predicate Kept(es: seq<Entry>, e: Entry)
    requires e in es
  {
    InGroup(es, e);
    e == Winner(Group(es, GroupKey(e.result)))
  }

  ghost function Needed(es: seq<Entry>): set<string> {
    set e, s | e in es && Kept(es, e) && s in Sources(e.result.root) :: s
  }

  /** The attachments that a kept result or a readable container names. */
  ghost function Surviving(files: Files, es: seq<Entry>): set<string> {
    Needed(es)
    + (set name, s | name in files && IsContainer(name) && files[name].Readable? && s in Sources(files[name].result.root) :: s)
  }

  /** The attachments of the results that are not kept, but for the surviving ones. */
  ghost function Orphans(files: Files, es: seq<Entry>): set<string> {
    (set e, s | e in es && !Kept(es, e) && s in Sources(e.result.root) :: s) - Surviving(files, es)
  }

  ghost function LoserPaths(es: seq<Entry>): set<string> {
    set e | e in es && !Kept(es, e) :: e.path
  }

  /** The files that attachment names stand for; one file can be spelled in several ways,
      such as `a` and `./a`. */
  ghost function FilesOf(names: set<string>, at: string -> string): set<string> {
    set s | s in names :: at(s)
  }

  ghost function Removed(files: Files, listing: seq<string>, at: string -> string): set<string> {
    var es := Parsed(files, listing);
    LoserPaths(es) + FilesOf(Orphans(files, es), at)
  }

  // ---- groups ------------------------------------------------------------

  lemma {:induction false} GroupIs(es: seq<Entry>, key: string, e: Entry)
    ensures e in Group(es, key) <==> e in es && GroupKey(e.result) == key
  {
    if es != [] {
      GroupIs(es[..|es| - 1], key, e);
      assert es == es[..|es| - 1] + [es[|es| - 1]];
    }
  }

  lemma InGroup(es: seq<Entry>, e: Entry)
    requires e in es
    ensures e in Group(es, GroupKey(e.result)) && Group(es, GroupKey(e.result)) != []
  {
    GroupIs(es, GroupKey(e.result), e);
  }

  // ---- a stable sort ends with the winner --------------------------------

  /** `e` put into a sorted list after all that stop no later. */
  function Insert(e: Entry, s: seq<Entry>): seq<Entry> {
    if s == [] || Stop(s[|s| - 1].result) <= Stop(e.result) then s + [e]
    else Insert(e, s[..|s| - 1]) + [s[|s| - 1]]
  }

  /** The list by stop time, entries that stop together in their order. */
  function Sort(es: seq<Entry>): (s: seq<Entry>)
    ensures |s| == |es|
  {
    if es == [] then [] else
      var s := Sort(es[..|es| - 1]);
      InsertSize(es[|es| - 1], s);
      Insert(es[|es| - 1], s)
  }

  lemma {:induction false} InsertSize(e: Entry, s: seq<Entry>)
    ensures |Insert(e, s)| == |s| + 1
    ensures multiset(Insert(e, s)) == multiset(s) + multiset{e}
  {
    if !(s == [] || Stop(s[|s| - 1].result) <= Stop(e.result)) {
      InsertSize(e, s[..|s| - 1]);
      assert s == s[..|s| - 1] + [s[|s| - 1]];
    }
  }

  lemma {:induction false} SortSame(es: seq<Entry>)
    ensures multiset(Sort(es)) == multiset(es)
  {
    if es != [] {
      SortSame(es[..|es| - 1]);
      InsertSize(es[|es| - 1], Sort(es[..|es| - 1]));
      assert es == es[..|es| - 1] + [es[|es| - 1]];
    }
  }

  lemma {:induction false} SortEndsWithWinner(es: seq<Entry>)
    requires es != []
    ensures Sort(es)[|es| - 1] == Winner(es)
  {
    if |es| > 1 {
      SortEndsWithWinner(es[..|es| - 1]);
    }
  }

  ghost predicate InOrder(s: seq<Entry>) {
    forall i, j :: 0 <= i < j < |s| ==> Stop(s[i].result) <= Stop(s[j].result)
  }

  lemma {:induction false} InsertInOrder(e: Entry, s: seq<Entry>)
    requires InOrder(s)
    ensures InOrder(Insert(e, s))
    ensures forall x :: x in Insert(e, s) ==> x in s || x == e
  {
    if !(s == [] || Stop(s[|s| - 1].result) <= Stop(e.result)) {
      var less := Insert(e, s[..|s| - 1]);
      InsertInOrder(e, s[..|s| - 1]);
      forall i | 0 <= i < |less| ensures Stop(less[i].result) <= Stop(s[|s| - 1].result) {
        assert less[i] in less;
      }
    }
  }

  lemma {:induction false} SortInOrder(es: seq<Entry>)
    ensures InOrder(Sort(es))
  {
    if es != [] {
      SortInOrder(es[..|es| - 1]);
      InsertInOrder(es[|es| - 1], Sort(es[..|es| - 1]));
    }
  }

  lemma {:induction false} SortedStays(s: seq<Entry>)
    requires InOrder(s)
    ensures Sort(s) == s
  {
    if s != [] {
      SortedStays(s[..|s| - 1]);
    }
  }

  /** The winner is worked out twice, the second time from entries already sorted in place:
      because the sort is stable it is the same entry. */
  lemma WinnersAgree(es: seq<Entry>)
    requires es != []
    ensures Sort(Sort(es))[|es| - 1] == Sort(es)[|es| - 1] == Winner(es)
  {
    SortInOrder(es);
    SortedStays(Sort(es));
    SortEndsWithWinner(es);
  }

  // ---- the listing -------------------------------------------------------

  /** What listing a directory gives: every name in it, once. */
  ghost predicate Lists(listing: seq<string>, files: Files) {
    && (forall name :: name in listing <==> name in files)
    && (forall name :: multiset(listing)[name] <= 1)
  }

  predicate IsParsed(files: Files, e: Entry) {
    e.path in files && IsResult(e.path) && files[e.path].Readable? && files[e.path].result == e.result
  }

  lemma {:induction false} ParsedIs(files: Files, listing: seq<string>, e: Entry)
    ensures e in Parsed(files, listing) <==> e.path in listing && IsParsed(files, e)
    ensures multiset(Parsed(files, listing))[e] <= multiset(listing)[e.path]
  {
    if listing != [] {
      ParsedIs(files, listing[..|listing| - 1], e);
      assert listing == listing[..|listing| - 1] + [listing[|listing| - 1]];
    }
  }

  ghost predicate NoneTwice(es: seq<Entry>) {
    && (forall e :: multiset(es)[e] <= 1)
    && (forall d, e :: d in es && e in es && d.path == e.path ==> d == e)
  }

  lemma ParsedNoneTwice(files: Files, listing: seq<string>)
    requires Lists(listing, files)
    ensures NoneTwice(Parsed(files, listing))
    ensures forall e :: e in Parsed(files, listing) <==> IsParsed(files, e)
  {
    forall e: Entry
      ensures multiset(Parsed(files, listing))[e] <= 1
      ensures e in Parsed(files, listing) <==> IsParsed(files, e)
    {
      ParsedIs(files, listing, e);
      assert multiset(listing)[e.path] <= 1;
    }
  }

  lemma {:induction false} GroupNoneTwice(es: seq<Entry>, key: string, e: Entry)
    ensures multiset(Group(es, key))[e] <= multiset(es)[e]
  {
    hide GroupKey;
    if es != [] {
      var less, last := es[..|es| - 1], es[|es| - 1];
      GroupNoneTwice(less, key, e);
      assert es == less + [last];
      assert multiset(es) == multiset(less) + multiset{last};
      assert multiset(Group(less, key) + [last]) == multiset(Group(less, key)) + multiset{last};
    }
  }

  /** Of a sorted group all but the last are those that did not win. */
  lemma AllButLast(g: seq<Entry>, e: Entry)
    requires g != [] && multiset(g)[e] <= 1
    ensures e in Sort(g)[..|g| - 1] <==> e in g && e != Winner(g)
  {
    var s := Sort(g);
    SortSame(g);
    SortEndsWithWinner(g);
    assert s == s[..|g| - 1] + [s[|g| - 1]];
    assert multiset(s) == multiset(s[..|g| - 1]) + multiset{s[|g| - 1]};
    assert e in g <==> multiset(g)[e] > 0;
    assert e in s[..|g| - 1] <==> multiset(s[..|g| - 1])[e] > 0;
  }

  // ---- what a run leaves -------------------------------------------------

  /** No attachment that a result names is itself a result or a container. */
  ghost predicate Apart(files: Files, at: string -> string) {
    forall name, s :: name in files && files[name].Readable? && s in Sources(files[name].result.root)
                      ==> !IsResult(at(s)) && !IsContainer(at(s))
  }

  ghost function Left(files: Files, listing: seq<string>, at: string -> string): Files {
    files - Removed(files, listing, at)
  }

  lemma WinnerIsKept(es: seq<Entry>, e: Entry)
    requires e in es
    ensures Group(es, GroupKey(e.result)) != []
    ensures var w := Winner(Group(es, GroupKey(e.result)));
            w in es && Kept(es, w) && GroupKey(w.result) == GroupKey(e.result) && Stop(e.result) <= Stop(w.result)
  {
    InGroup(es, e);
    GroupIs(es, GroupKey(e.result), Winner(Group(es, GroupKey(e.result))));
  }

  /** A result that won is removed only if some attachment of a result that lost, which
      nothing kept names, has its very name. */
  lemma WinnerStaysUnlessNamed(files: Files, listing: seq<string>, at: string -> string, e: Entry)
    requires Lists(listing, files)
    requires e in Parsed(files, listing) && Kept(Parsed(files, listing), e)
    ensures e.path in files
    ensures e.path in Left(files, listing, at) <==> e.path !in FilesOf(Orphans(files, Parsed(files, listing)), at)
  {
    ParsedNoneTwice(files, listing);
  }

  lemma OrphansApart(files: Files, listing: seq<string>, at: string -> string, s: string)
    requires Lists(listing, files) && Apart(files, at)
    requires s in Orphans(files, Parsed(files, listing))
    ensures !IsResult(at(s)) && !IsContainer(at(s))
  {
    hide IsResult, IsContainer, Sources, Parsed, Surviving, Kept;
    ParsedNoneTwice(files, listing);
    var es := Parsed(files, listing);
    var e :| e in es && s in Sources(e.result.root);
    assert IsParsed(files, e);
  }

  /** What can be parsed of what is left are the winners. */
  lemma WinnersAreLeft(files: Files, listing: seq<string>, at: string -> string, e: Entry)
    requires Lists(listing, files) && Apart(files, at)
    ensures IsParsed(Left(files, listing, at), e) <==> e in Parsed(files, listing) && Kept(Parsed(files, listing), e)
  {
    var es := Parsed(files, listing);
    ParsedNoneTwice(files, listing);
    if e.path in FilesOf(Orphans(files, es), at) {
      var s :| s in Orphans(files, es) && at(s) == e.path;
      OrphansApart(files, listing, at, s);
    }
    if e in es && !Kept(es, e) {
      assert e.path in LoserPaths(es);
    }
    if e in es && e.path in LoserPaths(es) {
      var d :| d in es && !Kept(es, d) && d.path == e.path;
      assert d == e;
    }
  }

  /** Of every test exactly one result is left, and it is none that stopped before another. */
  lemma OneResultEach(files: Files, listing: seq<string>, next: seq<string>, at: string -> string, e: Entry)
    requires Lists(listing, files) && Apart(files, at) && Lists(next, Left(files, listing, at))
    requires e in Parsed(files, listing)
    ensures var g := Group(Parsed(Left(files, listing, at), next), GroupKey(e.result));
            |g| == 1 && g[0] in Parsed(files, listing) && Stop(e.result) <= Stop(g[0].result)
  {
    var es, left, key := Parsed(files, listing), Parsed(Left(files, listing, at), next), GroupKey(e.result);
    var g := Group(left, key);
    WinnerIsKept(es, e);
    var w := Winner(Group(es, key));
    ParsedNoneTwice(Left(files, listing, at), next);
    forall d ensures d in g <==> d == w {
      GroupIs(left, key, d);
      WinnersAreLeft(files, listing, at, d);
    }
    GroupNoneTwice(left, key, w);
    OnlyOnce(g, w);
  }

  lemma TwiceIsTwo(g: seq<Entry>, w: Entry)
    requires |g| > 1 && g[0] == w == g[1]
    ensures multiset(g)[w] >= 2
  {
    assert g == [w, w] + g[2..];
  }

  lemma OnlyOnce(g: seq<Entry>, w: Entry)
    requires forall d :: d in g <==> d == w
    requires multiset(g)[w] <= 1
    ensures |g| == 1 && g[0] == w
  {
    assert w in g;
    assert forall i :: 0 <= i < |g| ==> g[i] in g;
    if |g| > 1 && g[0] == w == g[1] {
      TwiceIsTwo(g, w);
    }
  }

  /** A second run has nothing to remove. */
  lemma SecondRunRemovesNothing(files: Files, listing: seq<string>, next: seq<string>, at: string -> string)
    requires Lists(listing, files) && Apart(files, at) && Lists(next, Left(files, listing, at))
    ensures Removed(Left(files, listing, at), next, at) == {}
    ensures Left(Left(files, listing, at), next, at) == Left(files, listing, at)
  {
    hide Parsed, Surviving, Kept, Sources, Lists, Apart, Removed;
    var left := Parsed(Left(files, listing, at), next);
    forall e | e in left ensures Kept(left, e) {
      AllThatIsLeftWins(files, listing, next, at, e);
    }
    NoneRemoved(Left(files, listing, at), next, at);
  }

  lemma NoneRemoved(files: Files, listing: seq<string>, at: string -> string)
    requires forall e :: e in Parsed(files, listing) ==> Kept(Parsed(files, listing), e)
    ensures Removed(files, listing, at) == {}
  {
    hide Parsed, Surviving, Kept, Sources;
  }

  lemma AllThatIsLeftWins(files: Files, listing: seq<string>, next: seq<string>, at: string -> string, e: Entry)
    requires Lists(listing, files) && Apart(files, at) && Lists(next, Left(files, listing, at))
    ensures e in Parsed(Left(files, listing, at), next) <==> e in Parsed(files, listing) && Kept(Parsed(files, listing), e)
    ensures e in Parsed(Left(files, listing, at), next) ==> Kept(Parsed(Left(files, listing, at), next), e)
  {
    hide Parsed, Surviving, Sources, Apart, Removed, Left, GroupKey, IsParsed;
    var left := Parsed(Left(files, listing, at), next);
    ParsedNoneTwice(Left(files, listing, at), next);
    WinnersAreLeft(files, listing, at, e);
    if e in left {
      OneResultEach(files, listing, next, at, e);
      InGroup(left, e);
    }
  }

  /** What a winner or a readable container names is the same after the run. The file of such
      an attachment is removed exactly when a result that lost names it by another spelling
      that nothing kept uses; the names kept are compared as they are spelled. */
  lemma NamedAttachmentsStay(files: Files, listing: seq<string>, next: seq<string>, at: string -> string, s: string)
    requires Lists(listing, files) && Apart(files, at) && Lists(next, Left(files, listing, at))
    requires s in Surviving(files, Parsed(files, listing)) && at(s) in files
    ensures Surviving(files, Parsed(files, listing)) == Surviving(Left(files, listing, at), Parsed(Left(files, listing, at), next))
    ensures at(s) in Left(files, listing, at) <==> !SpelledOtherwise(files, Parsed(files, listing), at, s)
  {
    hide Parsed, Sources, Lists, Apart, Kept, IsContainer, Removed, SpelledOtherwise;
    var es, rest := Parsed(files, listing), Left(files, listing, at);
    var left := Parsed(rest, next);
    forall e: Entry ensures e in es && Kept(es, e) <==> e in left && Kept(left, e) {
      AllThatIsLeftWins(files, listing, next, at, e);
    }
    ContainersStay(files, listing, at);
    SameSurviving(files, rest, es, left);
    NamedStays(files, listing, at, s);
  }

  /** Some result that lost, and none that won nor any container, spells the file of `s` as `o`. */
  ghost predicate SpelledOtherwise(files: Files, es: seq<Entry>, at: string -> string, s: string) {
    exists e, o :: e in es && !Kept(es, e) && o in Sources(e.result.root) && o !in Surviving(files, es) && at(o) == at(s)
  }

  lemma NamedStays(files: Files, listing: seq<string>, at: string -> string, s: string)
    requires Lists(listing, files) && Apart(files, at)
    requires s in Surviving(files, Parsed(files, listing)) && at(s) in files
    ensures at(s) in Left(files, listing, at) <==> !SpelledOtherwise(files, Parsed(files, listing), at, s)
  {
    hide Parsed, Sources, Kept, IsContainer, IsResult;
    ParsedNoneTwice(files, listing);
    NoResultNamed(files, listing, at, s);
    var es := Parsed(files, listing);
    assert at(s) !in LoserPaths(es);
  }

  lemma NoResultNamed(files: Files, listing: seq<string>, at: string -> string, s: string)
    requires Lists(listing, files) && Apart(files, at) && s in Surviving(files, Parsed(files, listing))
    ensures !IsResult(at(s))
  {
    hide Parsed, Sources, Kept, IsContainer, IsResult;
    ParsedNoneTwice(files, listing);
  }

  /** With one spelling for each file nothing that is still named is removed. */
  lemma OneSpellingStays(files: Files, listing: seq<string>, next: seq<string>, at: string -> string, s: string)
    requires Lists(listing, files) && Apart(files, at) && Lists(next, Left(files, listing, at))
    requires forall a, b :: at(a) == at(b) ==> a == b
    requires s in Surviving(files, Parsed(files, listing)) && at(s) in files
    ensures at(s) in Left(files, listing, at)
  {
    hide Parsed, Sources, Lists, Apart, Kept, Surviving, Left;
    NamedAttachmentsStay(files, listing, next, at, s);
  }

  /** One test run twice, the first time naming the file `a` as `./a`: the run takes from the
      result that is kept the attachment that it names. */
  lemma AnotherSpellingIsRemoved(first: Result, second: Result, files: Files, at: string -> string)
    requires first.historyId == second.historyId != "" && first.stop == Some(1) && second.stop == Some(2)
    requires first.root == Node(["./a"], [], [], []) && second.root == Node(["a"], [], [], [])
    requires files == map["1-result.json" := Readable(first), "2-result.json" := Readable(second), "a" := Unreadable]
    requires at("./a") == "a" == at("a")
    ensures var listing := ["1-result.json", "2-result.json", "a"];
            && Lists(listing, files) && Apart(files, at)
            && "a" in Surviving(files, Parsed(files, listing)) && "a" !in Left(files, listing, at)
  {
    hide IsResult, IsContainer, Kept, Sources, Parsed, GroupKey, Surviving, Lists, Apart;
    var listing := ["1-result.json", "2-result.json", "a"];
    var one, two := Entry("1-result.json", first), Entry("2-result.json", second);
    NamesOfThree();
    ThreeParsed(files, first, second);
    assert GroupKey(first) == GroupKey(second) by {
      SameTest(first, second);
    }
    TwoOfOne(one, two);
    OneSource(first.root, "./a");
    OneSource(second.root, "a");
    NamedByWinner(files, one, two);
    ThreeListed(files, at);
    assert "./a" in Orphans(files, [one, two]);
    assert at("./a") in FilesOf(Orphans(files, [one, two]), at);
  }

  lemma ThreeListed(files: Files, at: string -> string)
    requires files.Keys == {"1-result.json", "2-result.json", "a"}
    requires at("./a") == "a" == at("a") && !IsResult("a") && !IsContainer("a")
    requires forall name :: name in files && files[name].Readable? ==> Sources(files[name].result.root) <= {"./a", "a"}
    ensures Lists(["1-result.json", "2-result.json", "a"], files) && Apart(files, at)
  {
    hide IsResult, IsContainer, Sources;
  }

  lemma OneSource(n: Node, name: string)
    requires n == Node([name], [], [], []) && name != ""
    ensures Sources(n) == {name}
  {
    forall s ensures s in Sources(n) <==> s == name {
      SourcesHere(n, s);
    }
  }

  lemma NamedByWinner(files: Files, one: Entry, two: Entry)
    requires !Kept([one, two], one) && Kept([one, two], two) && forall name :: name in files ==> !IsContainer(name)
    requires Sources(two.result.root) == {"a"}
    ensures Surviving(files, [one, two]) == {"a"}
  {
    hide Kept, IsContainer, Sources;
  }

  lemma ThreeParsed(files: Files, first: Result, second: Result)
    requires files == map["1-result.json" := Readable(first), "2-result.json" := Readable(second), "a" := Unreadable]
    ensures Parsed(files, ["1-result.json", "2-result.json", "a"])
            == [Entry("1-result.json", first), Entry("2-result.json", second)]
  {
    hide IsResult, IsContainer, Parsed;
    NamesOfThree();
    OneMoreName(files, [], "1-result.json");
    OneMoreName(files, ["1-result.json"], "2-result.json");
    OneMoreName(files, ["1-result.json", "2-result.json"], "a");
    assert [] + ["1-result.json"] == ["1-result.json"];
    assert ["1-result.json"] + ["2-result.json"] == ["1-result.json", "2-result.json"];
    assert ["1-result.json", "2-result.json"] + ["a"] == ["1-result.json", "2-result.json", "a"];
  }

  lemma NamesOfThree()
    ensures IsResult("1-result.json") && IsResult("2-result.json") && !IsResult("a")
    ensures !IsContainer("1-result.json") && !IsContainer("2-result.json") && !IsContainer("a")
  {
  }

  lemma TwoOfOne(one: Entry, two: Entry)
    requires one != two && GroupKey(one.result) == GroupKey(two.result) && Stop(one.result) < Stop(two.result)
    ensures !Kept([one, two], one) && Kept([one, two], two)
  {
    var key := GroupKey(one.result);
    assert [one, two][..1] == [one] && [one][..0] == [];
    assert Group([one], key) == [one];
    assert Group([one, two], key) == [one, two];
    assert Winner([one]) == one;
  }

  lemma SameSurviving(files: Files, rest: Files, es: seq<Entry>, left: seq<Entry>)
    requires forall e: Entry :: e in es && Kept(es, e) <==> e in left && Kept(left, e)
    requires forall name :: name in rest ==> name in files && rest[name] == files[name]
    requires forall name :: name in files && IsContainer(name) ==> name in rest
    ensures Surviving(files, es) == Surviving(rest, left)
  {
    hide Sources, Kept, IsContainer;
  }

  lemma ContainersStay(files: Files, listing: seq<string>, at: string -> string)
    requires Lists(listing, files) && Apart(files, at)
    ensures forall name :: name in files && IsContainer(name) ==> name in Left(files, listing, at)
  {
    ParsedNoneTwice(files, listing);
    forall name | name in files && IsContainer(name) ensures name in Left(files, listing, at) {
      assert !IsResult(name) by {
        assert "-container.json"[|"-container.json"| - 6] == 'r' && "-result.json"[|"-result.json"| - 6] == 't';
      }
    }
  }

  // ---- the run -----------------------------------------------------------

  /** The results by test, and the tests in the order in which they were met. */
  datatype Groups = Groups(keys: seq<string>, of: map<string, seq<Entry>>)

  ghost predicate Grouped(g: Groups, es: seq<Entry>) {
    && (forall key :: key in g.keys <==> key in g.of)
    && (forall i, j :: 0 <= i < j < |g.keys| ==> g.keys[i] != g.keys[j])
    && (forall key :: key in g.of ==> g.of[key] == Group(es, key) && g.of[key] != [])
    && (forall e :: e in es ==> GroupKey(e.result) in g.of)
  }

  method ByTest(parsed: seq<Entry>) returns (g: Groups)
    ensures Grouped(g, parsed)
  {
    hide GroupKey, Grouped;
    g := Groups([], map[]);
    NothingGrouped();
    for i := 0 to |parsed|
      invariant Grouped(g, parsed[..i])
    {
      assert parsed[..i + 1] == parsed[..i] + [parsed[i]];
      var key := GroupKey(parsed[i].result);
      OneMoreGrouped(g, parsed[..i], parsed[i]);
      if key !in g.of {
        g := Groups(g.keys + [key], g.of[key := []]);
      }
      g := g.(of := g.of[key := g.of[key] + [parsed[i]]]);
    }
    assert parsed[..|parsed|] == parsed;
  }

  lemma NothingGrouped()
    ensures Grouped(Groups([], map[]), [])
  {
  }

  lemma OneMoreGrouped(g: Groups, es: seq<Entry>, e: Entry)
    requires Grouped(g, es)
    ensures var key := GroupKey(e.result);
            var h := if key in g.of then g else Groups(g.keys + [key], g.of[key := []]);
            key in h.of && Grouped(h.(of := h.of[key := h.of[key] + [e]]), es + [e])
  {
    hide GroupKey, Group;
    var key := GroupKey(e.result);
    if key !in g.of {
      NoGroupYet(es, key);
    }
    forall k: string ensures Group(es + [e], k) == if k == key then Group(es, k) + [e] else Group(es, k) {
      OneMoreInGroup(es, e, k);
    }
  }

  lemma OneMoreInGroup(es: seq<Entry>, e: Entry, key: string)
    ensures Group(es + [e], key) == if key == GroupKey(e.result) then Group(es, key) + [e] else Group(es, key)
  {
    hide GroupKey;
    assert (es + [e])[..|es|] == es;
  }

  lemma NoGroupYet(es: seq<Entry>, key: string)
    requires forall e :: e in es ==> GroupKey(e.result) != key
    ensures Group(es, key) == []
  {
    if Group(es, key) != [] {
      GroupIs(es, key, Group(es, key)[0]);
    }
  }

  lemma LosersOfGroup(es: seq<Entry>, key: string, e: Entry)
    requires NoneTwice(es) && Group(es, key) != []
    ensures e in Sort(Group(es, key))[..|Group(es, key)| - 1] <==> e in es && GroupKey(e.result) == key && !Kept(es, e)
  {
    GroupIs(es, key, e);
    GroupNoneTwice(es, key, e);
    AllButLast(Group(es, key), e);
  }

  lemma SmallIsSorted(g: seq<Entry>)
    requires |g| == 1
    ensures Sort(g) == g
  {
    assert Sort(g[..0]) == [];
    assert Insert(g[0], []) == [g[0]];
  }

  predicate SortedUpTo(sorted: Groups, g: Groups, done: seq<string>) {
    && sorted.keys == g.keys
    && sorted.of.Keys == g.of.Keys
    && (forall key :: key in g.of ==> sorted.of[key] == if key in done then Sort(g.of[key]) else g.of[key])
  }

  ghost predicate LosersUpTo(losers: seq<Entry>, es: seq<Entry>, done: seq<string>) {
    forall e :: e in losers <==> e in es && !Kept(es, e) && GroupKey(e.result) in done
  }

  lemma OneMoreSorted(sorted: Groups, g: Groups, es: seq<Entry>, i: nat)
    requires Grouped(g, es) && i < |g.keys| && SortedUpTo(sorted, g, g.keys[..i])
    ensures g.keys[i] in sorted.of && sorted.of[g.keys[i]] == g.of[g.keys[i]] == Group(es, g.keys[i]) != []
    ensures SortedUpTo(sorted.(of := sorted.of[g.keys[i] := Sort(g.of[g.keys[i]])]), g, g.keys[..i + 1])
  {
    hide Sort, Group;
    assert g.keys[..i + 1] == g.keys[..i] + [g.keys[i]];
    assert g.keys[i] in g.keys;
    assert g.keys[i] !in g.keys[..i];
  }

  lemma MoreLosers(losers: seq<Entry>, es: seq<Entry>, done: seq<string>, key: string)
    requires NoneTwice(es) && Group(es, key) != [] && LosersUpTo(losers, es, done)
    ensures LosersUpTo(losers + Sort(Group(es, key))[..|Group(es, key)| - 1], es, done + [key])
  {
    hide Kept, Sort, NoneTwice, Group, GroupKey;
    forall e: Entry
      ensures e in Sort(Group(es, key))[..|Group(es, key)| - 1] <==> e in es && GroupKey(e.result) == key && !Kept(es, e)
    {
      LosersOfGroup(es, key, e);
    }
  }

  lemma NothingSortedYet(g: Groups, es: seq<Entry>)
    ensures SortedUpTo(g, g, g.keys[..0]) && LosersUpTo([], es, g.keys[..0])
  {
  }

  lemma EveryLoser(g: Groups, es: seq<Entry>, losers: seq<Entry>)
    requires Grouped(g, es) && LosersUpTo(losers, es, g.keys)
    ensures forall e :: e in losers <==> e in es && !Kept(es, e)
  {
    hide Kept, Group, GroupKey;
  }

  /** Every group of two or more is sorted in place, and all but its last are the losers. */
  method PickLosers(g: Groups, ghost es: seq<Entry>) returns (sorted: Groups, losers: seq<Entry>)
    requires Grouped(g, es) && NoneTwice(es)
    ensures SortedUpTo(sorted, g, g.keys)
    ensures forall e :: e in losers <==> e in es && !Kept(es, e)
  {
    hide Kept, Sort, NoneTwice, Group, GroupKey, Grouped, SortedUpTo, LosersUpTo;
    sorted, losers := g, [];
    NothingSortedYet(g, es);
    for i := 0 to |g.keys|
      invariant SortedUpTo(sorted, g, g.keys[..i])
      invariant LosersUpTo(losers, es, g.keys[..i])
    {
      var key := g.keys[i];
      OneMoreSorted(sorted, g, es, i);
      MoreLosers(losers, es, g.keys[..i], key);
      assert g.keys[..i + 1] == g.keys[..i] + [key];
      var entries := sorted.of[key];
      if |entries| < 2 {
        SmallIsSorted(entries);
        assert sorted.of[key := entries] == sorted.of;
        assert losers + entries[..0] == losers;
      } else {
        entries := Sort(entries);
        losers := losers + entries[..|entries| - 1];
        sorted := sorted.(of := sorted.of[key := entries]);
      }
    }
    assert g.keys[..|g.keys|] == g.keys;
    EveryLoser(g, es, losers);
  }

  ghost function NeededUpTo(es: seq<Entry>, done: seq<string>): set<string> {
    set e, s | e in es && Kept(es, e) && GroupKey(e.result) in done && s in Sources(e.result.root) :: s
  }

  lemma MoreNeeded(es: seq<Entry>, done: seq<string>, key: string)
    requires Group(es, key) != []
    ensures NeededUpTo(es, done + [key]) == NeededUpTo(es, done) + Sources(Winner(Group(es, key)).result.root)
  {
    hide Sources, GroupKey, Group, Winner;
    var w := Winner(Group(es, key));
    GroupIs(es, key, w);
    assert Kept(es, w);
    forall e | e in es && Kept(es, e) && GroupKey(e.result) == key ensures e == w {
    }
  }

  lemma WinnerAgain(sorted: Groups, g: Groups, es: seq<Entry>, i: nat)
    requires Grouped(g, es) && SortedUpTo(sorted, g, g.keys) && i < |g.keys|
    ensures sorted.keys == g.keys && g.keys[i] in sorted.of && sorted.of[g.keys[i]] != []
    ensures Group(es, g.keys[i]) != []
    ensures var again := Sort(sorted.of[g.keys[i]]); again[|again| - 1] == Winner(Group(es, g.keys[i]))
  {
    hide Group, Winner, Sort;
    assert g.keys[i] in g.keys;
    WinnersAgree(g.of[g.keys[i]]);
  }

  lemma EveryNeed(g: Groups, es: seq<Entry>)
    requires Grouped(g, es)
    ensures NeededUpTo(es, g.keys) == Needed(es)
  {
    hide Kept, Group, GroupKey, Sources;
    assert forall e :: e in es ==> GroupKey(e.result) in g.keys;
  }

  lemma NoNeedYet(sorted: Groups, g: Groups, es: seq<Entry>)
    requires SortedUpTo(sorted, g, g.keys)
    ensures sorted.keys == g.keys
    ensures NeededUpTo(es, g.keys[..0]) == {}
  {
  }

  /** The winners are worked out again, from the groups as they now are. */
  method WinnersNeed(sorted: Groups, ghost g: Groups, ghost es: seq<Entry>) returns (names: set<string>)
    requires Grouped(g, es) && SortedUpTo(sorted, g, g.keys)
    ensures names == Needed(es)
  {
    hide Kept, Sort, Group, GroupKey, Grouped, SortedUpTo, Sources, Needed, NeededUpTo, Winner;
    NoNeedYet(sorted, g, es);
    names := {};
    for i := 0 to |sorted.keys|
      invariant names == NeededUpTo(es, sorted.keys[..i])
    {
      WinnerAgain(sorted, g, es, i);
      MoreNeeded(es, g.keys[..i], g.keys[i]);
      assert g.keys[..i + 1] == g.keys[..i] + [g.keys[i]];
      var again := Sort(sorted.of[sorted.keys[i]]);
      names := names + Sources(again[|again| - 1].result.root);
    }
    assert g.keys[..|g.keys|] == g.keys;
    EveryNeed(g, es);
  }

  ghost function ContainersNeed(files: Files, among: seq<string>): set<string> {
    set name, s | name in among && name in files && IsContainer(name) && files[name].Readable?
                  && s in Sources(files[name].result.root) :: s
  }

  method ContainerNames(files: Files, listing: seq<string>) returns (names: set<string>)
    requires Lists(listing, files)
    ensures names == ContainersNeed(files, listing)
  {
    hide Sources, IsContainer;
    names := {};
    for i := 0 to |listing|
      invariant names == ContainersNeed(files, listing[..i])
    {
      var name := listing[i];
      assert listing[..i + 1] == listing[..i] + [name];
      if IsContainer(name) && name in files && files[name].Readable? {
        names := names + Sources(files[name].result.root);
      }
    }
    assert listing[..|listing|] == listing;
  }

  /** The attachments of the results in `es` that are not in `needed`. */
  ghost function Unneeded(es: seq<Entry>, needed: set<string>): set<string> {
    (set e, s | e in es && s in Sources(e.result.root) :: s) - needed
  }

  ghost function Paths(es: seq<Entry>): set<string> {
    set e | e in es :: e.path
  }

  /** The attachments of one result go, but for those that are needed. */
  method DeleteNames(files: Files, names: set<string>, needed: set<string>, at: string -> string) returns (left: Files)
    ensures left == files - FilesOf(names - needed, at)
  {
    left := files;
    var todo := names;
    while todo != {}
      invariant todo <= names
      invariant left == files - FilesOf(names - todo - needed, at)
    {
      var src :| src in todo;
      todo := todo - {src};
      if src !in needed {
        left := left - {at(src)};
      }
    }
    assert names - {} - needed == names - needed;
  }

  lemma MoreUnneeded(es: seq<Entry>, e: Entry, needed: set<string>, at: string -> string)
    ensures Paths(es + [e]) == Paths(es) + {e.path}
    ensures FilesOf(Unneeded(es + [e], needed), at)
            == FilesOf(Unneeded(es, needed), at) + FilesOf(Sources(e.result.root) - needed, at)
  {
    hide Sources;
  }

  /** The losers go one after another, each with the attachments that are not needed. */
  method Delete(files: Files, losers: seq<Entry>, needed: set<string>, at: string -> string) returns (left: Files)
    ensures left == files - (Paths(losers) + FilesOf(Unneeded(losers, needed), at))
  {
    hide Sources, FilesOf, Unneeded;
    left := files;
    assert FilesOf(Unneeded(losers[..0], needed), at) == {} by {
      NothingUnneeded(needed, at);
    }
    for i := 0 to |losers|
      invariant left == files - (Paths(losers[..i]) + FilesOf(Unneeded(losers[..i], needed), at))
    {
      assert losers[..i + 1] == losers[..i] + [losers[i]];
      MoreUnneeded(losers[..i], losers[i], needed, at);
      left := DeleteNames(left, Sources(losers[i].result.root), needed, at);
      left := left - {losers[i].path};
    }
    assert losers[..|losers|] == losers;
  }

  lemma NothingUnneeded(needed: set<string>, at: string -> string)
    ensures FilesOf(Unneeded([], needed), at) == {}
  {
  }

  lemma OneMoreName(files: Files, listing: seq<string>, name: string)
    ensures Parsed(files, []) == []
    ensures Parsed(files, listing + [name])
            == if IsResult(name) && name in files && files[name].Readable?
               then Parsed(files, listing) + [Entry(name, files[name].result)] else Parsed(files, listing)
  {
    hide IsResult;
    assert (listing + [name])[..|listing|] == listing;
  }

  method Parse(files: Files, listing: seq<string>) returns (es: seq<Entry>)
    ensures es == Parsed(files, listing)
  {
    hide IsResult, Parsed;
    var paths: seq<string> := [];
    for i := 0 to |listing|
      invariant Parsed(files, listing[..i]) == Parsed(files, paths)
      invariant forall k :: 0 <= k < |paths| ==> IsResult(paths[k])
    {
      assert listing[..i + 1] == listing[..i] + [listing[i]];
      OneMoreName(files, listing[..i], listing[i]);
      if IsResult(listing[i]) {
        OneMoreName(files, paths, listing[i]);
        paths := paths + [listing[i]];
      }
    }
    assert listing[..|listing|] == listing;
    es := [];
    OneMoreName(files, [], "");
    for i := 0 to |paths|
      invariant es == Parsed(files, paths[..i])
    {
      assert paths[..i + 1] == paths[..i] + [paths[i]];
      OneMoreName(files, paths[..i], paths[i]);
      if paths[i] in files && files[paths[i]].Readable? {
        es := es + [Entry(paths[i], files[paths[i]].result)];
      }
    }
    assert paths[..|paths|] == paths;
  }

  lemma NoLosers(files: Files, es: seq<Entry>)
    requires forall e :: e in es ==> Kept(es, e)
    ensures LoserPaths(es) == {} && Orphans(files, es) == {}
  {
    hide Kept, Sources;
  }

  lemma LosersAre(files: Files, es: seq<Entry>, losers: seq<Entry>, needed: set<string>)
    requires forall e :: e in losers <==> e in es && !Kept(es, e)
    requires needed == Surviving(files, es)
    ensures Paths(losers) == LoserPaths(es) && Unneeded(losers, needed) == Orphans(files, es)
  {
    hide Kept, Sources, Surviving;
  }

  lemma SurvivingIs(files: Files, listing: seq<string>, es: seq<Entry>)
    requires Lists(listing, files)
    ensures Needed(es) + ContainersNeed(files, listing) == Surviving(files, es)
  {
    hide Needed, Sources, IsContainer;
  }

  /** One run over a directory, every removal succeeding. */
  method Dedup(files: Files, listing: seq<string>, at: string -> string) returns (left: Files)
    requires Lists(listing, files)
    ensures left == Left(files, listing, at)
  {
    hide Kept, Sources, Surviving, Needed, Orphans, LoserPaths, Paths, Unneeded, ContainersNeed, Parsed, Grouped, SortedUpTo, NoneTwice;
    var es := Parse(files, listing);
    ParsedNoneTwice(files, listing);
    var groups := ByTest(es);
    var sorted, losers := PickLosers(groups, es);
    if losers == [] {
      NoLosers(files, es);
      return files;
    }
    var surviving := WinnersNeed(sorted, groups, es);
    var named := ContainerNames(files, listing);
    SurvivingIs(files, listing, es);
    left := Delete(files, losers, surviving + named, at);
    LosersAre(files, es, losers, surviving + named);
  }
}
