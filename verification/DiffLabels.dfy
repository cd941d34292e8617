/** The names the sections of a diff are reported under. */
module DiffLabels {
  import opened Text
  import opened UnifiedDiff

  /** A path with forward slashes; without one a name that says so. */
  ghost predicate IsBase(path: string, name: string) {
    if path == "" then name == "(a part of the diff with no file name)"
    else |name| == |path| && forall k :: 0 <= k < |path| ==> name[k] == if path[k] == '\\' then '/' else path[k]
  }

  /** Those of the first `n` that have the name. */
  ghost function Having(names: seq<string>, n: nat, name: string): set<nat> {
    set i: nat | i < n && i < |names| && names[i] == name
  }

  /** Every section keeps all but its name, which is its base name, numbered when it comes again;
      and one without a path is bad. */
  ghost predicate IsLabelled(files: seq<Section>, names: seq<string>, k: nat, out: Section)
    requires k < |files| == |names|
  {
    var n := |Having(names, k, names[k])|;
    out == files[k].(file := names[k] + if n == 0 then "" else " (" + Decimal(n + 1) + ")",
                     bad := if files[k].file == "" then NoName else files[k].bad)
  }

  lemma {:induction false} SlashesAre(path: string)
    ensures forall k :: 0 <= k < |path| ==> Slashes(path)[k] == if path[k] == '\\' then '/' else path[k]
  {
    if path != "" {
      SlashesAre(path[1..]);
    }
  }

  lemma BaseIs(f: Section)
    ensures IsBase(f.file, Named(f).file)
    ensures Named(f) == f.(file := Named(f).file, bad := if f.file == "" then NoName else f.bad)
  {
    SlashesAre(f.file);
  }

  function Bases(files: seq<Section>): (names: seq<string>)
    ensures |names| == |files| && forall k :: 0 <= k < |names| ==> names[k] == Named(files[k]).file
  {
    if files == [] then [] else [Named(files[0]).file] + Bases(files[1..])
  }

  lemma NothingAdded(s: string)
    ensures s + "" == s
  {
  }

  /** With `seen` counting the sections before. */
  ghost predicate Counted(seen: Tally, names: seq<string>, done: nat)
    requires done <= |names|
  {
    forall name: string :: Count(seen, name) == |Having(names, done, name)|
  }

  lemma CountMore(seen: Tally, names: seq<string>, done: nat)
    requires done < |names| && Counted(seen, names, done)
    ensures Counted(seen[names[done] := Count(seen, names[done]) + 1], names, done + 1)
  {
    hide Having;
    var more := seen[names[done] := Count(seen, names[done]) + 1];
    forall name: string ensures Count(more, name) == |Having(names, done + 1, name)| {
      HavingMore(names, done, name);
    }
  }

  lemma HavingMore(names: seq<string>, done: nat, name: string)
    requires done < |names|
    ensures |Having(names, done + 1, name)| == |Having(names, done, name)| + if names[done] == name then 1 else 0
  {
    var less, more := Having(names, done, name), Having(names, done + 1, name);
    if names[done] == name {
      assert more == less + {done};
    } else {
      assert more == less;
    }
  }

  lemma {:induction false} LabelFrom(files: seq<Section>, names: seq<string>, seen: Tally, done: nat, k: nat)
    requires names == Bases(files) && done <= k < |files| && Counted(seen, names, done)
    ensures IsLabelled(files, names, k, Label(files[done..], seen)[k - done])
    decreases |files| - done
  {
    hide Bases, Named, Counted, Count, Decimal;
    var rest := files[done..];
    assert rest[0] == files[done] && rest[1..] == files[done + 1..];
    var f := Named(files[done]);
    BaseIs(files[done]);
    assert f.file == names[done];
    LabelOnce(rest, seen);
    if k == done {
      assert Count(seen, names[k]) == |Having(names, k, names[k])| by {
        CountNow(seen, files, names, k);
      }
      NumberIs(f, Count(seen, f.file) + 1);
    } else {
      CountMore(seen, names, done);
      LabelFrom(files, names, seen[f.file := Count(seen, f.file) + 1], done + 1, k);
    }
  }

  lemma CountNow(seen: Tally, files: seq<Section>, names: seq<string>, k: nat)
    requires k < |files| == |names| && Counted(seen, names, k)
    ensures Count(seen, names[k]) == |Having(names, k, names[k])|
  {
  }

  lemma LabelOnce(files: seq<Section>, seen: Tally)
    requires files != []
    ensures var f := Named(files[0]);
            var k := Count(seen, f.file) + 1;
            Label(files, seen) == [Number(f, k)] + Label(files[1..], seen[f.file := k])
  {
  }

  lemma NumberIs(f: Section, k: nat)
    ensures Number(f, k) == f.(file := f.file + if k <= 1 then "" else " (" + Decimal(k) + ")")
  {
    hide Decimal;
    var end := " (" + Decimal(k) + ")";
    assert f.file + end == f.file + " (" + Decimal(k) + ")";
    NothingAdded(f.file);
  }

  lemma NothingCounted(names: seq<string>)
    ensures Counted(map[], names, 0)
  {
    forall name: string ensures Count(map[], name) == |Having(names, 0, name)| {
      assert Having(names, 0, name) == {};
    }
  }

  /** Every section is reported under its path with forward slashes, numbered from the second of
      that name on. */
  lemma LabelsAre(files: seq<Section>, k: nat) returns (names: seq<string>)
    requires k < |files|
    ensures |names| == |files| && forall i :: 0 <= i < |files| ==> IsBase(files[i].file, names[i])
    ensures IsLabelled(files, names, k, Label(files, map[])[k])
  {
    names := Bases(files);
    forall i | 0 <= i < |files| ensures IsBase(files[i].file, names[i]) {
      BaseIs(files[i]);
    }
    NothingCounted(names);
    LabelFrom(files, names, map[], 0, k);
    assert files[0..] == files;
  }
}
