/** The history of failing runs: one file a run, the last runs of every suite kept, and
    two runs compared. */
module SnapshotStore {
  import Text
  import opened Wrappers

  const KEEP := 60

  datatype Failure = Failure(test: string, row: string, signature: string)

  /** What is written of a run. `written` is the second at which its digest was written. */
  datatype Snap = Snap(suite: string, at: string, title: string, digest: string, written: Option<int>, failures: seq<Failure>)

  /** A file of the store: a snapshot that could be read, or anything else. */
  datatype File = Readable(snap: Snap) | Other

  type Files = map<string, File>

  datatype Stored = Stored(file: string, snap: Snap)

  // ---- the order of the runs ---------------------------------------------

  predicate StringLess(a: string, b: string) {
    if b == "" then false
    else if a == "" then true
    else if a[0] != b[0] then a[0] < b[0]
    else StringLess(a[1..], b[1..])
  }

  /** By when the run was, then by file. */
  predicate Less(at: string, file: string, s: Stored) {
    StringLess(at, s.snap.at) || (at == s.snap.at && StringLess(file, s.file))
  }

  predicate RunLess(r: Stored, s: Stored) {
    Less(r.snap.at, r.file, s)
  }

  lemma {:induction false} StringLessTotal(a: string, b: string)
    ensures StringLess(a, b) || a == b || StringLess(b, a)
    ensures !(StringLess(a, b) && StringLess(b, a))
    ensures !StringLess(a, a)
  {
    if a != "" {
      StringLessTotal(a[1..], if b == "" then "" else b[1..]);
      if b != "" && a[0] == b[0] {
        assert a == [a[0]] + a[1..] && b == [b[0]] + b[1..];
      }
    }
  }

  lemma {:induction false} StringLessTransitive(a: string, b: string, c: string)
    requires StringLess(a, b) && StringLess(b, c)
    ensures StringLess(a, c)
  {
    if a != "" && a[0] == b[0] == c[0] {
      StringLessTransitive(a[1..], b[1..], c[1..]);
    }
  }

  /** The texts are the same up to `k`, and there `a` has the lesser character. */
  ghost predicate LessAt(a: string, b: string, k: nat) {
    k < |a| && k < |b| && a[k] < b[k] && forall j :: 0 <= j < k ==> a[j] == b[j]
  }

  /** Texts are in the order of the first character in which they differ; one that goes on
      comes after. */
  lemma {:induction false} StringLessIs(a: string, b: string)
    ensures StringLess(a, b) <==> a < b || exists k: nat :: LessAt(a, b, k)
  {
    if a != "" && b != "" && a[0] == b[0] {
      StringLessIs(a[1..], b[1..]);
      assert a == [a[0]] + a[1..] && b == [b[0]] + b[1..];
      forall k: nat | k > 0 ensures LessAt(a, b, k) <==> LessAt(a[1..], b[1..], k - 1) {
        LessLater(a, b, k);
      }
      hide LessAt;
      assert !LessAt(a, b, 0) by {
        LessNow(a, b);
      }
      if k: nat :| LessAt(a[1..], b[1..], k) {
        assert LessAt(a, b, k + 1);
      }
    } else if a != "" && b != "" {
      LessNow(a, b);
    }
  }

  lemma LessLater(a: string, b: string, k: nat)
    requires a != "" && b != "" && a[0] == b[0] && k > 0
    ensures LessAt(a, b, k) <==> LessAt(a[1..], b[1..], k - 1)
  {
    if LessAt(a[1..], b[1..], k - 1) {
      forall j | 0 < j < k ensures a[j] == b[j] {
        assert a[1..][j - 1] == b[1..][j - 1];
      }
    }
  }

  lemma LessNow(a: string, b: string)
    requires a != "" && b != ""
    ensures LessAt(a, b, 0) <==> a[0] < b[0]
    ensures a[0] != b[0] ==> forall k: nat :: k > 0 ==> !LessAt(a, b, k)
  {
  }

  lemma RunLessTotal(r: Stored, s: Stored)
    ensures RunLess(r, s) || (r.file == s.file && r.snap.at == s.snap.at) || RunLess(s, r)
    ensures !(RunLess(r, s) && RunLess(s, r))
    ensures !RunLess(r, r)
  {
    hide StringLess;
    StringLessTotal(r.snap.at, s.snap.at);
    StringLessTotal(r.file, s.file);
    StringLessTotal(r.file, r.file);
    StringLessTotal(r.snap.at, r.snap.at);
  }

  lemma RunLessTransitive(r: Stored, s: Stored, t: Stored)
    requires RunLess(r, s) && RunLess(s, t)
    ensures RunLess(r, t)
  {
    hide StringLess;
    if StringLess(r.snap.at, s.snap.at) && StringLess(s.snap.at, t.snap.at) {
      StringLessTransitive(r.snap.at, s.snap.at, t.snap.at);
    } else if StringLess(r.file, s.file) && StringLess(s.file, t.file) {
      StringLessTransitive(r.file, s.file, t.file);
    }
  }

  ghost predicate Ascending(runs: seq<Stored>) {
    forall i, j :: 0 <= i < j < |runs| ==> RunLess(runs[i], runs[j])
  }

  // ---- the runs of a suite -----------------------------------------------

  predicate IsRun(files: Files, suite: string, s: Stored) {
    s.file in files && files[s.file] == Readable(s.snap) && s.snap.suite == suite
  }

  function Insert(s: Stored, runs: seq<Stored>): seq<Stored> {
    if runs == [] || RunLess(runs[|runs| - 1], s) then runs + [s]
    else Insert(s, runs[..|runs| - 1]) + [runs[|runs| - 1]]
  }

  /** The readable snapshots of one suite, oldest first, from the listing of the store. */
  function Runs(files: Files, suite: string, listing: seq<string>): seq<Stored> {
    if listing == [] then []
    else
      var less, name := Runs(files, suite, listing[..|listing| - 1]), listing[|listing| - 1];
      if name in files && files[name].Readable? && files[name].snap.suite == suite
      then Insert(Stored(name, files[name].snap), less)
      else less
  }

  ghost predicate Lists(listing: seq<string>, files: Files) {
    && (forall name :: name in listing <==> name in files)
    && (forall i, j :: 0 <= i < j < |listing| ==> listing[i] != listing[j])
  }

  lemma {:induction false} InsertAscending(s: Stored, runs: seq<Stored>)
    requires Ascending(runs) && forall r :: r in runs ==> r.file != s.file
    ensures Ascending(Insert(s, runs))
    ensures forall r :: r in Insert(s, runs) <==> r in runs || r == s
  {
    hide RunLess;
    if runs != [] {
      var last, less := runs[|runs| - 1], runs[..|runs| - 1];
      assert runs == less + [last];
      RunLessTotal(last, s);
      if RunLess(last, s) {
        forall i | 0 <= i < |runs| ensures RunLess(runs[i], s) {
          if i < |runs| - 1 {
            RunLessTransitive(runs[i], last, s);
          }
        }
      } else {
        InsertAscending(s, less);
        var rest := Insert(s, less);
        forall i | 0 <= i < |rest| ensures RunLess(rest[i], last) {
          assert rest[i] in rest;
        }
      }
    }
  }

  lemma {:induction false} RunsOf(files: Files, suite: string, listing: seq<string>)
    requires forall i, j :: 0 <= i < j < |listing| ==> listing[i] != listing[j]
    ensures Ascending(Runs(files, suite, listing))
    ensures forall s :: s in Runs(files, suite, listing) <==> s.file in listing && IsRun(files, suite, s)
  {
    hide RunLess;
    if listing != [] {
      var less, name := listing[..|listing| - 1], listing[|listing| - 1];
      assert listing == less + [name];
      RunsOf(files, suite, less);
      if name in files && files[name].Readable? && files[name].snap.suite == suite {
        assert name !in less;
        InsertAscending(Stored(name, files[name].snap), Runs(files, suite, less));
      }
    }
  }

  lemma AllRuns(files: Files, suite: string, listing: seq<string>)
    requires Lists(listing, files)
    ensures Ascending(Runs(files, suite, listing))
    ensures forall s :: s in Runs(files, suite, listing) <==> IsRun(files, suite, s)
  {
    RunsOf(files, suite, listing);
  }

  // ---- recording a run ---------------------------------------------------

  predicate SameRun(s: Stored, run: Snap) {
    s.snap.digest == run.digest && s.snap.written == run.written
  }

  function FirstSame(runs: seq<Stored>, run: Snap): Option<Stored> {
    if runs == [] then None
    else if SameRun(runs[0], run) then Some(runs[0])
    else FirstSame(runs[1..], run)
  }

  /** The runs before a time and file. */
  function Before(runs: seq<Stored>, at: string, file: string): seq<Stored> {
    if runs == [] then []
    else
      var less, last := Before(runs[..|runs| - 1], at, file), runs[|runs| - 1];
      if StringLess(last.snap.at, at) || (last.snap.at == at && StringLess(last.file, file)) then less + [last] else less
  }

  function Previous(runs: seq<Stored>, at: string, file: string): Option<Stored> {
    var before := Before(runs, at, file);
    if before == [] then None else Some(before[|before| - 1])
  }

  function Spare(runs: seq<Stored>, previous: Option<Stored>): seq<Stored> {
    if runs == [] then []
    else
      var less, last := Spare(runs[..|runs| - 1], previous), runs[|runs| - 1];
      if previous == Some(last) then less else less + [last]
  }

  /** What goes when one more run is recorded: the oldest, but never the previous one. */
  function Doomed(runs: seq<Stored>, previous: Option<Stored>): seq<Stored> {
    var spare := Spare(runs, previous);
    var many := if |runs| + 1 > KEEP then |runs| + 1 - KEEP else 0;
    if many <= |spare| then spare[..many] else spare
  }

  function FilesOf(runs: seq<Stored>): set<string> {
    set s | s in runs :: s.file
  }

  /** The store after `run` was written to a new file `name`. */
  function After(files: Files, runs: seq<Stored>, run: Snap, name: string): Files {
    files[name := Readable(run)] - FilesOf(Doomed(runs, Previous(runs, run.at, name)))
  }

  // ---- the name of the file ----------------------------------------------

  function Pad3(n: nat): string {
    var d := Text.Decimal(n);
    if |d| == 1 then "00" + d else if |d| == 2 then "0" + d else d
  }

  function Name(base: string, n: nat): string {
    base + "-" + Pad3(n) + ".json"
  }

  lemma LeadingZero(d: string)
    requires forall k :: 0 <= k < |d| ==> Text.IsDigit(d[k])
    ensures Text.ToNat("0" + d) == Text.ToNat(d)
  {
    if d == [] {
      assert Text.ToNat("0") == 10 * Text.ToNat("0"[..0]) + Text.DigitValue('0');
    } else {
      assert ("0" + d)[..|d|] == "0" + d[..|d| - 1];
      LeadingZero(d[..|d| - 1]);
    }
  }

  lemma Pad3Value(n: nat)
    ensures forall k :: 0 <= k < |Pad3(n)| ==> Text.IsDigit(Pad3(n)[k])
    ensures Text.ToNat(Pad3(n)) == n
  {
    var d := Text.Decimal(n);
    LeadingZero(d);
    LeadingZero("0" + d);
    assert "00" + d == "0" + ("0" + d);
  }

  lemma NamesDiffer(base: string, n: nat, m: nat)
    requires n != m
    ensures Name(base, n) != Name(base, m)
  {
    Pad3Value(n);
    Pad3Value(m);
    NumberInName(base, n);
    NumberInName(base, m);
  }

  lemma NumberInName(base: string, n: nat)
    ensures |base| + 6 <= |Name(base, n)| && Name(base, n)[|base| + 1..|Name(base, n)| - 5] == Pad3(n)
  {
  }

  /** The first number from one on whose file is not there. */
  method FreeName(files: Files, base: string) returns (name: string, ghost n: nat)
    ensures 1 <= n && name == Name(base, n) && name !in files
    ensures forall k :: 1 <= k < n ==> Name(base, k) in files
  {
    hide Name;
    var i := 1;
    name := Name(base, 1);
    ghost var taken: set<string> := {};
    while name in files
      invariant 1 <= i && name == Name(base, i)
      invariant forall k :: 1 <= k < i ==> Name(base, k) in files
      invariant taken == set k | 1 <= k < i :: Name(base, k)
      invariant taken <= files.Keys && |taken| == i - 1
      decreases |files.Keys| - i
    {
      forall k | 1 <= k < i ensures Name(base, k) != Name(base, i) {
        NamesDiffer(base, k, i);
      }
      SmallerSet(taken + {name}, files.Keys);
      taken := taken + {name};
      i := i + 1;
      name := Name(base, i);
    }
    n := i;
  }

  lemma {:induction false} SmallerSet(a: set<string>, b: set<string>)
    requires a <= b
    ensures |a| <= |b|
  {
    if a != {} {
      var x :| x in a;
      SmallerSet(a - {x}, b - {x});
    }
  }

  class Store {
    var files: Files

    constructor ()
      ensures files == map[]
    {
      files := map[];
    }

    /** A run is recorded, unless one of its suite with the same digest, written at the
        same time, is still kept. */
    method Record(run: Snap, base: string, listing: seq<string>) returns (stored: Stored, previous: Option<Stored>, isNew: bool)
      requires Lists(listing, files)
      modifies this
      ensures var runs := Runs(old(files), run.suite, listing);
              match FirstSame(runs, run)
              case Some(s) =>
                !isNew && stored == s && previous == Previous(runs, s.snap.at, s.file) && files == old(files)
              case None =>
                && isNew && stored.snap == run && stored.file !in old(files)
                && (exists n :: 1 <= n && stored.file == Name(base, n) && forall k :: 1 <= k < n ==> Name(base, k) in old(files))
                && previous == Previous(runs, run.at, stored.file)
                && files == After(old(files), runs, run, stored.file)
      ensures Step(old(files), files)
    {
      hide Runs, Lists, Name, StringLess, Before, Spare;
      var earlier := Runs(files, run.suite, listing);
      for i := 0 to |earlier|
        invariant FirstSame(earlier, run) == FirstSame(earlier[i..], run)
      {
        var s := earlier[i];
        assert earlier[i..][0] == s && earlier[i..][1..] == earlier[i + 1..];
        if SameRun(s, run) {
          return s, Previous(earlier, s.snap.at, s.file), false;
        }
      }
      assert earlier[|earlier|..] == [];
      FirstSameIs(earlier, run);
      var name, n := FreeName(files, base);
      files := files[name := Readable(run)];
      previous := Previous(earlier, run.at, name);
      var doomed := Doomed(earlier, previous);
      ghost var written := files;
      for i := 0 to |doomed|
        invariant files == written - FilesOf(doomed[..i])
      {
        assert doomed[..i + 1] == doomed[..i] + [doomed[i]];
        files := files - {doomed[i].file};
      }
      assert doomed[..|doomed|] == doomed;
      stored, isNew := Stored(name, run), true;
      assert Recorded(old(files), files, run, name, listing);
    }
  }

  // ---- what the lists are ------------------------------------------------

  predicate IsBefore(s: Stored, at: string, file: string) {
    StringLess(s.snap.at, at) || (s.snap.at == at && StringLess(s.file, file))
  }

  lemma {:induction false} BeforeAre(runs: seq<Stored>, at: string, file: string)
    requires Ascending(runs)
    ensures Ascending(Before(runs, at, file))
    ensures forall s :: s in Before(runs, at, file) <==> s in runs && IsBefore(s, at, file)
  {
    hide RunLess, StringLess;
    if runs != [] {
      var less, last := runs[..|runs| - 1], runs[|runs| - 1];
      assert runs == less + [last];
      BeforeAre(less, at, file);
      forall s | s in less ensures RunLess(s, last) {
        var i :| 0 <= i < |less| && less[i] == s;
        assert runs[i] == s;
      }
    }
  }

  /** The previous run is the last of those before. */
  lemma PreviousIs(runs: seq<Stored>, at: string, file: string)
    requires Ascending(runs)
    ensures match Previous(runs, at, file)
            case None => forall s :: s in runs ==> !IsBefore(s, at, file)
            case Some(p) => p in runs && IsBefore(p, at, file) && forall s :: s in runs && IsBefore(s, at, file) && s != p ==> RunLess(s, p)
  {
    hide RunLess, IsBefore;
    BeforeAre(runs, at, file);
    var before := Before(runs, at, file);
    if before == [] {
      forall s | s in runs ensures !IsBefore(s, at, file) {
        assert s !in before;
      }
    } else {
      forall s | s in runs && IsBefore(s, at, file) && s != before[|before| - 1] ensures RunLess(s, before[|before| - 1]) {
        assert s in before;
      }
    }
  }

  lemma PreviousIsOne(runs: seq<Stored>, more: seq<Stored>, at: string, file: string)
    requires Ascending(runs) && Ascending(more)
    requires forall s :: s in more && IsBefore(s, at, file) ==> s in runs
    requires match Previous(runs, at, file) case None => true case Some(p) => p in more
    ensures Previous(more, at, file) == Previous(runs, at, file)
  {
    hide RunLess, IsBefore, Previous;
    PreviousIs(runs, at, file);
    PreviousIs(more, at, file);
    match (Previous(runs, at, file), Previous(more, at, file)) {
      case (Some(p), Some(q)) => RunLessTotal(p, q);
      case _ =>
    }
  }

  lemma {:induction false} SpareAre(runs: seq<Stored>, previous: Option<Stored>)
    requires Ascending(runs)
    ensures Ascending(Spare(runs, previous))
    ensures forall s :: s in Spare(runs, previous) <==> s in runs && previous != Some(s)
    ensures |Spare(runs, previous)| >= |runs| - 1
  {
    hide RunLess;
    if runs != [] {
      var less, last := runs[..|runs| - 1], runs[|runs| - 1];
      assert runs == less + [last];
      SpareAre(less, previous);
      forall s | s in less ensures RunLess(s, last) {
        var i :| 0 <= i < |less| && less[i] == s;
        assert runs[i] == s;
      }
      RunLessTotal(last, last);
      if previous == Some(last) {
        NoneSpared(less, previous);
      }
    }
  }

  lemma {:induction false} NoneSpared(runs: seq<Stored>, previous: Option<Stored>)
    requires forall s :: s in runs ==> previous != Some(s)
    ensures Spare(runs, previous) == runs
  {
    if runs != [] {
      NoneSpared(runs[..|runs| - 1], previous);
    }
  }

  /** The oldest go: a run that is kept is later than all that go, or is the previous one. */
  lemma DoomedAre(runs: seq<Stored>, previous: Option<Stored>)
    requires Ascending(runs)
    ensures Ascending(Doomed(runs, previous))
    ensures |Doomed(runs, previous)| == if |runs| + 1 > KEEP then |runs| + 1 - KEEP else 0
    ensures forall s :: s in Doomed(runs, previous) ==> s in runs && previous != Some(s)
    ensures forall s, t :: s in Doomed(runs, previous) && t in runs && t !in Doomed(runs, previous) && previous != Some(t) ==> RunLess(s, t)
  {
    hide RunLess, Spare;
    SpareAre(runs, previous);
    var spare, doomed := Spare(runs, previous), Doomed(runs, previous);
    forall s, t | s in doomed && t in runs && t !in doomed && previous != Some(t) ensures RunLess(s, t) {
      var i :| 0 <= i < |doomed| && doomed[i] == s;
      assert t in spare;
      var j :| 0 <= j < |spare| && spare[j] == t;
      assert spare[i] == s;
      assert forall k :: 0 <= k < |doomed| ==> doomed[k] in doomed && spare[k] == doomed[k];
    }
  }

  // ---- how many are kept -------------------------------------------------

  ghost function SetOf(runs: seq<Stored>): set<Stored> {
    set s | s in runs
  }

  lemma {:induction false} AscendingSize(runs: seq<Stored>)
    requires Ascending(runs)
    ensures |SetOf(runs)| == |runs|
  {
    hide RunLess;
    if runs != [] {
      var less, last := runs[..|runs| - 1], runs[|runs| - 1];
      assert runs == less + [last];
      AscendingSize(less);
      RunLessTotal(last, last);
      assert last !in less;
      assert SetOf(runs) == SetOf(less) + {last};
    }
  }

  /** A run of `suite` after one more was recorded: the new one, or one from before that did
      not have to go. */
  lemma RunsAfter(files: Files, runs: seq<Stored>, run: Snap, name: string, s: Stored)
    requires Ascending(runs) && (forall r :: r in runs <==> IsRun(files, run.suite, r)) && name !in files
    ensures IsRun(After(files, runs, run, name), run.suite, s)
            <==> s == Stored(name, run) || (s in runs && s !in Doomed(runs, Previous(runs, run.at, name)))
  {
    hide Doomed, Previous, Ascending;
    var previous := Previous(runs, run.at, name);
    DoomedAre(runs, previous);
    var doomed := Doomed(runs, previous);
    assert forall d :: d in doomed ==> IsRun(files, run.suite, d);
    if s in runs && s.file in FilesOf(doomed) {
      var d :| d in doomed && d.file == s.file;
      assert d == s;
    }
  }

  /** A suite never has more than KEEP runs after one was recorded, and exactly KEEP when it
      had that many or more. */
  lemma AtMostKept(files: Files, listing: seq<string>, run: Snap, name: string, next: seq<string>)
    requires Lists(listing, files) && name !in files
    requires var runs := Runs(files, run.suite, listing); Lists(next, After(files, runs, run, name))
    ensures var runs := Runs(files, run.suite, listing);
            |Runs(After(files, runs, run, name), run.suite, next)| == if |runs| < KEEP then |runs| + 1 else KEEP
  {
    hide Runs, Doomed, Previous, After, Lists, IsRun;
    var runs := Runs(files, run.suite, listing);
    var later := After(files, runs, run, name);
    var more := Runs(later, run.suite, next);
    var doomed := Doomed(runs, Previous(runs, run.at, name));
    AllRuns(files, run.suite, listing);
    AllRuns(later, run.suite, next);
    DoomedAre(runs, Previous(runs, run.at, name));
    AscendingSize(runs);
    AscendingSize(more);
    AscendingSize(doomed);
    forall s: Stored ensures s in more <==> s == Stored(name, run) || (s in runs && s !in doomed) {
      RunsAfter(files, runs, run, name, s);
    }
    assert Stored(name, run) !in runs by {
      NotThere(files, run, name);
    }
    assert SetOf(doomed) <= SetOf(runs);
    assert SetOf(more) == SetOf(runs) - SetOf(doomed) + {Stored(name, run)};
  }

  lemma NotThere(files: Files, run: Snap, name: string)
    requires name !in files
    ensures !IsRun(files, run.suite, Stored(name, run))
  {
  }

  /** The new run and the one it is compared with stay, and everything that is no run of the
      suite stays as it was. */
  lemma NewAndPreviousStay(files: Files, listing: seq<string>, run: Snap, name: string)
    requires Lists(listing, files) && name !in files
    ensures var runs := Runs(files, run.suite, listing);
            var later := After(files, runs, run, name);
            && IsRun(later, run.suite, Stored(name, run))
            && (match Previous(runs, run.at, name) case None => true case Some(p) => IsRun(files, run.suite, p) && IsRun(later, run.suite, p))
            && (forall other :: other in files && !(files[other].Readable? && files[other].snap.suite == run.suite)
                                ==> other in later && later[other] == files[other])
            && (forall other :: other in later ==> other == name || (other in files && later[other] == files[other]))
  {
    hide Runs, Doomed, Previous, Lists, IsBefore, RunLess;
    var runs := Runs(files, run.suite, listing);
    var previous := Previous(runs, run.at, name);
    AllRuns(files, run.suite, listing);
    PreviousIs(runs, run.at, name);
    DoomedAre(runs, previous);
    RunsAfter(files, runs, run, name, Stored(name, run));
    if previous.Some? {
      RunsAfter(files, runs, run, name, previous.value);
    }
    forall d | d in Doomed(runs, previous) ensures IsRun(files, run.suite, d) {
      assert d in runs;
    }
  }

  // ---- one digest recorded twice -----------------------------------------

  /** The run that is found has the digest and was written at the time; none before it is so. */
  lemma {:induction false} FirstSameIs(runs: seq<Stored>, run: Snap)
    ensures match FirstSame(runs, run)
            case None => forall s :: s in runs ==> s.snap.digest != run.digest || s.snap.written != run.written
            case Some(s) => s.snap.digest == run.digest && s.snap.written == run.written && FirstWith(runs, s, run)
  {
    hide FirstWith;
    if runs != [] {
      FirstSameIs(runs[1..], run);
      assert runs == [runs[0]] + runs[1..];
      FirstWithMore(runs, run);
    }
  }

  ghost predicate FirstWith(runs: seq<Stored>, s: Stored, run: Snap) {
    exists k :: 0 <= k < |runs| && runs[k] == s
                && forall j :: 0 <= j < k ==> runs[j].snap.digest != run.digest || runs[j].snap.written != run.written
  }

  lemma FirstWithMore(runs: seq<Stored>, run: Snap)
    requires runs != []
    ensures FirstWith(runs, runs[0], run)
    ensures forall s :: FirstWith(runs[1..], s, run) && !(runs[0].snap.digest == run.digest && runs[0].snap.written == run.written)
                        ==> FirstWith(runs, s, run)
  {
    forall s | FirstWith(runs[1..], s, run) && !(runs[0].snap.digest == run.digest && runs[0].snap.written == run.written)
      ensures FirstWith(runs, s, run)
    {
      var k :| 0 <= k < |runs[1..]| && runs[1..][k] == s
               && forall j :: 0 <= j < k ==> runs[1..][j].snap.digest != run.digest || runs[1..][j].snap.written != run.written;
      assert runs[k + 1] == s;
      forall j | 0 <= j < k + 1 ensures runs[j].snap.digest != run.digest || runs[j].snap.written != run.written {
        assert j > 0 ==> runs[1..][j - 1] == runs[j];
      }
    }
  }

  /** A run recorded again is found, with the run before it that was given the first time;
      the first time is over once, and nothing is written. */
  lemma RecordedAgain(files: Files, listing: seq<string>, run: Snap, name: string, next: seq<string>)
    requires Lists(listing, files) && name !in files
    requires FirstSame(Runs(files, run.suite, listing), run) == None
    requires Lists(next, After(files, Runs(files, run.suite, listing), run, name))
    ensures var runs := Runs(files, run.suite, listing);
            var more := Runs(After(files, runs, run, name), run.suite, next);
            FirstSame(more, run) == Some(Stored(name, run)) && Previous(more, run.at, name) == Previous(runs, run.at, name)
  {
    hide Runs, Doomed, Previous, Lists, IsBefore, RunLess, After, FirstSame, IsRun;
    var runs := Runs(files, run.suite, listing);
    var later := After(files, runs, run, name);
    var more := Runs(later, run.suite, next);
    AllRuns(files, run.suite, listing);
    AllRuns(later, run.suite, next);
    FirstSameIs(runs, run);
    FirstSameIs(more, run);
    forall s: Stored ensures s in more <==> s == Stored(name, run) || (s in runs && s !in Doomed(runs, Previous(runs, run.at, name))) {
      RunsAfter(files, runs, run, name, s);
    }
    assert Stored(name, run) in more;
    assert !IsBefore(Stored(name, run), run.at, name) by {
      NotBeforeItself(Stored(name, run));
    }
    PreviousIs(runs, run.at, name);
    DoomedAre(runs, Previous(runs, run.at, name));
    PreviousIsOne(runs, more, run.at, name);
  }

  lemma NotBeforeItself(s: Stored)
    ensures !IsBefore(s, s.snap.at, s.file)
  {
    RunLessTotal(s, s);
  }

  // ---- every store a run of calls makes ----------------------------------

  /** One call: nothing is written, or a run that no kept one of its suite equals is. */
  ghost predicate Step(files: Files, later: Files) {
    later == files || exists run: Snap, name: string, listing: seq<string> :: Recorded(files, later, run, name, listing)
  }

  ghost predicate Recorded(files: Files, later: Files, run: Snap, name: string, listing: seq<string>) {
    && Lists(listing, files) && name !in files
    && (forall s :: s in Runs(files, run.suite, listing) ==> s.snap.digest != run.digest || s.snap.written != run.written)
    && later == After(files, Runs(files, run.suite, listing), run, name)
  }

  ghost predicate NoTwins(files: Files) {
    forall suite: string, s: Stored, t: Stored ::
      IsRun(files, suite, s) && IsRun(files, suite, t) && s.snap.digest == t.snap.digest && s.snap.written == t.snap.written
      ==> s == t
  }

  ghost function RunsIn(files: Files, suite: string): set<string> {
    set name | name in files && files[name].Readable? && files[name].snap.suite == suite
  }

  lemma RunsInSize(files: Files, suite: string, listing: seq<string>)
    requires Lists(listing, files)
    ensures |Runs(files, suite, listing)| == |RunsIn(files, suite)|
  {
    hide RunLess, Runs, Lists;
    var runs := Runs(files, suite, listing);
    AllRuns(files, suite, listing);
    AscendingSize(runs);
    SameSize(files, suite, SetOf(runs));
  }

  lemma {:induction false} SameSize(files: Files, suite: string, runs: set<Stored>)
    requires forall s :: s in runs <==> IsRun(files, suite, s)
    ensures |runs| == |RunsIn(files, suite)|
    decreases runs
  {
    if runs == {} {
      forall name | name in files ensures name !in RunsIn(files, suite) {
        if files[name].Readable? {
          assert !IsRun(files, suite, Stored(name, files[name].snap));
        }
      }
      assert RunsIn(files, suite) == {};
    } else {
      var s :| s in runs;
      var fewer := files - {s.file};
      forall r: Stored ensures r in runs - {s} <==> IsRun(fewer, suite, r) {
      }
      SameSize(fewer, suite, runs - {s});
      assert RunsIn(files, suite) == RunsIn(fewer, suite) + {s.file};
    }
  }

  ghost predicate Sound(files: Files) {
    NoTwins(files) && forall suite: string :: |RunsIn(files, suite)| <= KEEP
  }

  lemma {:induction false} Listing(files: Files) returns (listing: seq<string>)
    ensures Lists(listing, files)
    decreases |files|
  {
    if files == map[] {
      listing := [];
    } else {
      var name :| name in files;
      var fewer := files - {name};
      assert fewer.Keys == files.Keys - {name};
      var rest := Listing(fewer);
      listing := rest + [name];
    }
  }

  lemma StepKeepsSizes(files: Files, later: Files, run: Snap, name: string, listing: seq<string>)
    requires Recorded(files, later, run, name, listing)
    ensures |RunsIn(later, run.suite)| <= KEEP
    ensures forall suite: string :: suite != run.suite ==> RunsIn(later, suite) <= RunsIn(files, suite)
  {
    hide Runs, After, Lists, RunsIn;
    var next := Listing(later);
    AtMostKept(files, listing, run, name, next);
    RunsInSize(later, run.suite, next);
    OtherSuites(files, listing, run, name);
  }

  lemma OtherSuites(files: Files, listing: seq<string>, run: Snap, name: string)
    requires Lists(listing, files) && name !in files
    ensures forall suite: string :: suite != run.suite
              ==> RunsIn(After(files, Runs(files, run.suite, listing), run, name), suite) <= RunsIn(files, suite)
  {
    hide Runs, Doomed, Previous, Lists;
    NewAndPreviousStay(files, listing, run, name);
  }

  lemma StepKeepsTwinless(files: Files, later: Files, run: Snap, name: string, listing: seq<string>)
    requires Recorded(files, later, run, name, listing) && NoTwins(files)
    ensures NoTwins(later)
  {
    hide Runs, Lists, Doomed, Previous;
    var runs := Runs(files, run.suite, listing);
    AllRuns(files, run.suite, listing);
    NewAndPreviousStay(files, listing, run, name);
    forall suite: string, s: Stored, t: Stored | IsRun(later, suite, s) && IsRun(later, suite, t)
      && s.snap.digest == t.snap.digest && s.snap.written == t.snap.written
      ensures s == t
    {
      assert s.file != name ==> IsRun(files, suite, s);
      assert t.file != name ==> IsRun(files, suite, t);
      assert s.file == name ==> s.snap == run;
      assert t.file == name ==> t.snap == run;
    }
  }

  lemma StepKeeps(files: Files, later: Files)
    requires Step(files, later) && Sound(files)
    ensures Sound(later)
  {
    hide Recorded, NoTwins, RunsIn;
    if later != files {
      var run: Snap, name: string, listing: seq<string> :| Recorded(files, later, run, name, listing);
      StepKeepsTwinless(files, later, run, name, listing);
      StepKeepsSizes(files, later, run, name, listing);
      forall suite: string ensures |RunsIn(later, suite)| <= KEEP {
        if suite != run.suite {
          SmallerSet(RunsIn(later, suite), RunsIn(files, suite));
        }
      }
    }
  }

  ghost predicate IsHistory(stores: seq<Files>) {
    && stores != [] && stores[0] == map[]
    && forall i :: 0 < i < |stores| ==> Step(stores[i - 1], stores[i])
  }

  /** However many runs are recorded, in whatever order of their times: no suite has more
      than KEEP, and no run of a suite is there twice. */
  lemma {:induction false} EveryStoreIsSound(stores: seq<Files>, k: nat)
    requires IsHistory(stores) && k < |stores|
    ensures Sound(stores[k])
  {
    hide Step;
    if k == 0 {
      forall suite: string ensures |RunsIn(map[], suite)| <= KEEP {
        assert RunsIn(map[], suite) == {};
      }
    } else {
      EveryStoreIsSound(stores, k - 1);
      StepKeeps(stores[k - 1], stores[k]);
    }
  }

  // ---- the runs of one second --------------------------------------------

  lemma {:induction false} StringLessAfter(p: string, a: string, b: string)
    ensures StringLess(p + a, p + b) <==> StringLess(a, b)
  {
    if p == "" {
      assert p + a == a && p + b == b;
    } else {
      StringLessAfter(p[1..], a, b);
      assert (p + a)[1..] == p[1..] + a && (p + b)[1..] == p[1..] + b;
    }
  }

  function Digit(n: nat): (c: char)
    requires n < 10
    ensures c as int == 48 + n
  {
    (48 + n) as char
  }

  lemma ThreeDigits(n: nat)
    requires n < 1000
    ensures Pad3(n) == [Digit(n / 100), Digit(n / 10 % 10), Digit(n % 10)]
  {
    if n < 10 {
      assert Text.Decimal(n) == [Digit(n)];
    } else if n < 100 {
      assert Text.Decimal(n / 10) == [Digit(n / 10)];
      assert Text.Decimal(n) == [Digit(n / 10), Digit(n % 10)];
    } else {
      assert n / 10 / 10 == n / 100;
      assert Text.Decimal(n / 100) == [Digit(n / 100)];
      assert Text.Decimal(n / 10) == [Digit(n / 100), Digit(n / 10 % 10)];
      assert Text.Decimal(n) == [Digit(n / 100), Digit(n / 10 % 10), Digit(n % 10)];
    }
  }

  lemma FirstDecides(x: char, a: string, y: char, b: string)
    ensures StringLess([x] + a, [y] + b) <==> x < y || (x == y && StringLess(a, b))
  {
    assert ([x] + a)[1..] == a && ([y] + b)[1..] == b;
  }

  lemma DigitsDecide(p: nat, q: nat, r: nat, x: nat, y: nat, z: nat, tail: string)
    requires p < 10 && q < 10 && r < 10 && x < 10 && y < 10 && z < 10
    ensures StringLess([Digit(p), Digit(q), Digit(r)] + tail, [Digit(x), Digit(y), Digit(z)] + tail)
            <==> 100 * p + 10 * q + r < 100 * x + 10 * y + z
  {
    hide StringLess;
    var a, b := [Digit(q)] + ([Digit(r)] + tail), [Digit(y)] + ([Digit(z)] + tail);
    assert [Digit(p), Digit(q), Digit(r)] + tail == [Digit(p)] + a;
    assert [Digit(x), Digit(y), Digit(z)] + tail == [Digit(x)] + b;
    FirstDecides(Digit(p), a, Digit(x), b);
    FirstDecides(Digit(q), [Digit(r)] + tail, Digit(y), [Digit(z)] + tail);
    FirstDecides(Digit(r), tail, Digit(z), tail);
    StringLessTotal(tail, tail);
  }

  lemma DigitsOf(n: nat)
    requires n < 1000
    ensures n / 100 < 10 && n == 100 * (n / 100) + 10 * (n / 10 % 10) + n % 10
  {
  }

  /** Up to 999 the files of one second are in the order of their numbers. */
  lemma NumbersInOrder(base: string, k: nat, n: nat)
    requires k < 1000 && n < 1000
    ensures StringLess(Name(base, k), Name(base, n)) <==> k < n
  {
    hide StringLess, Pad3;
    var p := base + "-";
    assert Name(base, k) == p + (Pad3(k) + ".json") && Name(base, n) == p + (Pad3(n) + ".json");
    StringLessAfter(p, Pad3(k) + ".json", Pad3(n) + ".json");
    ThreeDigits(k);
    ThreeDigits(n);
    DigitsOf(k);
    DigitsOf(n);
    DigitsDecide(k / 100, k / 10 % 10, k % 10, n / 100, n / 10 % 10, n % 10, ".json");
  }

  /** Number `k` of the second is a run of the suite. */
  ghost predicate InSecond(files: Files, run: Snap, base: string, k: nat) {
    && 1 <= k < 1000 && Name(base, k) in files && files[Name(base, k)].Readable?
    && files[Name(base, k)].snap.suite == run.suite && files[Name(base, k)].snap.at == run.at
  }

  /** A run of the suite and second of `run`, filed under a number. */
  ghost predicate Filed(files: Files, run: Snap, base: string, r: Stored) {
    exists k: nat :: InSecond(files, run, base, k) && r == Stored(Name(base, k), files[Name(base, k)].snap)
  }

  /** A run comes after all kept runs of its second -- in the order of recording -- if and only
      if none of them has a number beyond the first that is free. */
  lemma LastOfItsSecondIff(files: Files, run: Snap, base: string, n: nat)
    requires 1 <= n < 1000 && Name(base, n) !in files
    requires forall r: Stored :: IsRun(files, run.suite, r) && r.snap.at == run.at ==> Filed(files, run, base, r)
    ensures (forall r: Stored :: IsRun(files, run.suite, r) && r.snap.at == run.at ==> RunLess(r, Stored(Name(base, n), run)))
            <==> forall k: nat :: n < k ==> !InSecond(files, run, base, k)
  {
    hide Name, StringLess;
    var new_ := Stored(Name(base, n), run);
    StringLessTotal(run.at, run.at);
    forall k: nat | InSecond(files, run, base, k)
      ensures k != n && (RunLess(Stored(Name(base, k), files[Name(base, k)].snap), new_) <==> k < n)
      ensures IsRun(files, run.suite, Stored(Name(base, k), files[Name(base, k)].snap))
    {
      NumbersInOrder(base, k, n);
    }
  }

  /** The oldest of a full suite goes when a later run is recorded; nothing else does. */
  lemma OldestGoes(files: Files, listing: seq<string>, newer: Snap, name: string)
    requires Lists(listing, files) && name !in files
    requires var runs := Runs(files, newer.suite, listing); |runs| == KEEP && StringLess(runs[1].snap.at, newer.at)
    ensures var runs := Runs(files, newer.suite, listing);
            Doomed(runs, Previous(runs, newer.at, name)) == [runs[0]]
  {
    hide Runs, RunLess, Doomed, Previous, StringLess;
    var runs := Runs(files, newer.suite, listing);
    AllRuns(files, newer.suite, listing);
    var previous := Previous(runs, newer.at, name);
    PreviousIs(runs, newer.at, name);
    DoomedAre(runs, previous);
    RunLessTotal(runs[0], runs[1]);
    assert runs[0] in runs && runs[1] in runs && IsBefore(runs[1], newer.at, name);
    assert RunLess(runs[0], runs[1]);
    assert previous != Some(runs[0]);
    var d := Doomed(runs, previous)[0];
    assert d in Doomed(runs, previous);
    if d != runs[0] {
      var i :| 0 <= i < |runs| && runs[i] == d;
      assert RunLess(runs[0], d);
      RunLessTotal(runs[0], d);
      assert false;
    }
  }

  /** So the order of recording is lost: of two runs of one second the first, number one, goes
      when the suite is full; recorded in that second again, a run gets its number and comes
      before the second, which was recorded earlier. */
  lemma NumberIsGivenAgain(files: Files, listing: seq<string>, newer: Snap, name: string, again: Snap, base: string)
    requires Lists(listing, files) && name !in files
    requires var runs := Runs(files, newer.suite, listing);
             && |runs| == KEEP && StringLess(runs[1].snap.at, newer.at) && again.at == runs[1].snap.at
             && runs[0].file == Name(base, 1) && runs[1].file == Name(base, 2)
    ensures var runs := Runs(files, newer.suite, listing);
            var later := After(files, runs, newer, name);
            && Name(base, 1) !in later && IsRun(later, newer.suite, runs[1])
            && RunLess(Stored(Name(base, 1), again), runs[1])
  {
    hide Runs, Doomed, Previous, StringLess, Name;
    var runs := Runs(files, newer.suite, listing);
    AllRuns(files, newer.suite, listing);
    OldestGoes(files, listing, newer, name);
    NumbersInOrder(base, 1, 2);
    NamesDiffer(base, 1, 2);
    assert runs[0] in runs && runs[1] in runs;
  }

  // ---- two runs compared -------------------------------------------------

  type Case = (string, string)

  /** The failures of a run by test and row, a later one in place of an earlier. */
  function ByTest(failures: seq<Failure>): map<Case, string> {
    if failures == [] then map[]
    else
      var last := failures[|failures| - 1];
      ByTest(failures[..|failures| - 1])[(last.test, last.row) := last.signature]
  }

  datatype Comparison = Comparison(added: set<Case>, gone: set<Case>, changed: set<Case>, same: set<Case>)

  function Compare(current: Snap, previous: Snap): Comparison {
    var now, before := ByTest(current.failures), ByTest(previous.failures);
    Comparison(
      set k | k in now && k !in before,
      set k | k in before && k !in now,
      set k | k in now && k in before && now[k] != before[k],
      set k | k in now && k in before && now[k] == before[k])
  }

  ghost predicate Fails(s: Snap, k: Case) {
    exists i :: 0 <= i < |s.failures| && (s.failures[i].test, s.failures[i].row) == k
  }

  lemma {:induction false} ByTestKeys(failures: seq<Failure>, k: Case)
    ensures k in ByTest(failures) <==> exists i :: 0 <= i < |failures| && (failures[i].test, failures[i].row) == k
  {
    if failures != [] {
      var n := |failures| - 1;
      ByTestKeys(failures[..n], k);
      assert forall i :: 0 <= i < n ==> failures[..n][i] == failures[i];
    }
  }

  /** Every failing case of either run is in exactly one of the four lists; the lists of the
      runs the other way round are the same but for the new and the gone, which change places. */
  lemma ComparisonPartitions(current: Snap, previous: Snap, k: Case)
    ensures var c := Compare(current, previous);
            && (k in c.added <==> Fails(current, k) && !Fails(previous, k))
            && (k in c.gone <==> Fails(previous, k) && !Fails(current, k))
            && (k in c.changed + c.same <==> Fails(current, k) && Fails(previous, k))
            && c.changed !! c.same
            && Compare(previous, current) == Comparison(c.gone, c.added, c.changed, c.same)
  {
    ByTestKeys(current.failures, k);
    ByTestKeys(previous.failures, k);
  }

  /** Failure `i` is the last of its case. */
  ghost predicate LastOf(failures: seq<Failure>, k: Case, i: nat) {
    && i < |failures| && (failures[i].test, failures[i].row) == k
    && forall j :: i < j < |failures| ==> (failures[j].test, failures[j].row) != k
  }

  lemma {:induction false} ByTestIsLast(failures: seq<Failure>, k: Case, i: nat)
    requires LastOf(failures, k, i)
    ensures k in ByTest(failures) && ByTest(failures)[k] == failures[i].signature
  {
    var n := |failures| - 1;
    if i < n {
      assert failures[..n][i] == failures[i];
      assert forall j :: i < j < n ==> failures[..n][j] == failures[j];
      ByTestIsLast(failures[..n], k, i);
    }
  }

  /** A case that fails in both runs is the same or changed as its signatures are. */
  lemma SameIffSignaturesAre(current: Snap, previous: Snap, k: Case, i: nat, j: nat)
    requires LastOf(current.failures, k, i) && LastOf(previous.failures, k, j)
    ensures k in Compare(current, previous).same <==> current.failures[i].signature == previous.failures[j].signature
    ensures k in Compare(current, previous).changed <==> current.failures[i].signature != previous.failures[j].signature
  {
    ByTestIsLast(current.failures, k, i);
    ByTestIsLast(previous.failures, k, j);
  }
}
