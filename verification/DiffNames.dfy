/** How a unified diff writes the paths of its files, bare or quoted, and when the
    reader finds them again: always in a `---` or `+++` line, and in a `diff --git` line
    exactly when nothing in the paths looks like the place where the second one begins. */
module DiffNames {
  import opened Text
  import opened UnifiedDiff

  /** A path as it is, or as git quotes one with unusual characters: `inside` is what
      stands between the quotes, after the side. */
  datatype Form = Bare | Quoted(inside: string)

  /** The path on one side of the diff, as a header line carries it. */
  function Written(side: string, path: string, form: Form): string {
    match form
    case Bare => side + path
    case Quoted(q) => "\"" + (side + q) + "\""
  }

  ghost predicate IsSide(side: string) {
    side == "a/" || side == "b/"
  }

  /** A header line can carry the path this way; what was quoted is decoded as the path. */
  ghost predicate Carried(side: string, path: string, form: Form, u: string -> string) {
    path != "" &&
    match form
    case Bare => '\n' !in path && '\t' !in path && !IsSpace(path[|path| - 1])
    case Quoted(q) => '\n' !in q && '\t' !in q && u(side + q) == side + path
  }

  lemma WrittenUnquotes(side: string, path: string, form: Form, u: string -> string)
    requires IsSide(side) && Carried(side, path, form, u)
    ensures Unquote(Written(side, path, form), u) == side + path
    ensures StripSide(side + path) == path
  {
    var p := Written(side, path, form);
    match form {
      case Bare =>
      case Quoted(q) => assert p[1..|p| - 1] == side + q;
    }
  }

  // ---- `---` and `+++` lines ---------------------------------------------

  /** What may follow the path on a header line: nothing, or a tab and a time stamp. */
  ghost predicate PlainStamp(stamp: string) {
    '\n' !in stamp && (stamp == "" || "\t" <= stamp)
  }

  lemma UpToTab(name: string, stamp: string)
    requires '\t' !in name && PlainStamp(stamp)
    ensures Split(name + stamp, '\t')[0] == name
  {
    SplitPlain(name, '\t');
    if stamp == "" {
      assert name + stamp == name;
    } else {
      assert name + stamp == name + ['\t'] + stamp[1..];
      SplitAtSeparator(name, stamp[1..], '\t');
    }
  }

  lemma ReadHeaderName(lead: string, name: string, stamp: string, u: string -> string)
    requires |lead| == 4 && name != "" && '\t' !in name && PlainStamp(stamp)
    requires !IsSpace(name[0]) && !IsSpace(name[|name| - 1])
    ensures var p := Unquote(name, u);
            HeaderPath(lead + (name + stamp), u) == if p == "/dev/null" then "" else StripSide(p)
  {
    assert (lead + (name + stamp))[4..] == name + stamp;
    UpToTab(name, stamp);
    StripTight(name);
  }

  /** A path is read from its header line, quoted or not, with whatever stamp. */
  lemma ReadHeaderPath(lead: string, side: string, path: string, form: Form, stamp: string, u: string -> string)
    requires |lead| == 4 && IsSide(side) && Carried(side, path, form, u) && PlainStamp(stamp)
    ensures HeaderPath(lead + (Written(side, path, form) + stamp), u) == path
  {
    hide HeaderPath, Unquote;
    WrittenUnquotes(side, path, form, u);
    var name := Written(side, path, form);
    assert (side + path)[0] != '/';
    ReadHeaderName(lead, name, stamp, u);
  }

  lemma ReadNoFile(lead: string, stamp: string, u: string -> string)
    requires |lead| == 4 && PlainStamp(stamp)
    ensures HeaderPath(lead + ("/dev/null" + stamp), u) == ""
  {
    hide HeaderPath;
    ReadHeaderName(lead, "/dev/null", stamp, u);
  }

  // ---- the `diff --git` line: where a second name can begin ----------------

  /** A second name could begin at `k`. */
  ghost predicate SecondIn(s: string, k: nat) {
    k <= |s| && (" b/" <= s[k..] || " \"b/" <= s[k..])
  }

  ghost predicate SecondInside(s: string, from: nat) {
    exists k :: from <= k && SecondIn(s, k)
  }

  ghost predicate SecondAt(rest: string, k: nat)
    requires k < |rest|
  {
    rest[k] == ' ' && IsSecond(rest[k + 1..])
  }

  lemma {:induction false} SecondNameIsFirst(rest: string, k: nat)
    requires k <= |rest|
    ensures var at := SecondName(rest, k);
            && (forall j :: k <= j < at ==> !SecondAt(rest, j))
            && (at < |rest| ==> SecondAt(rest, at))
    decreases |rest| - k
  {
    if k < |rest| && !SecondAt(rest, k) {
      SecondNameIsFirst(rest, k + 1);
    }
  }

  /** Before the separator a second name can begin only inside the first one. */
  lemma SecondBeforeSeparator(a: string, b: string, j: nat)
    requires j < |a|
    ensures SecondAt(a + (" " + b), j) <==> SecondIn(a, j)
  {
    var rest := a + (" " + b);
    var s, t := rest[j + 1..], a[j..];
    assert rest[j] == t[0] && s[|t| - 1] == rest[|a|] == ' ';
    assert |t| > 1 ==> s[0] == t[1];
    assert |t| > 2 ==> s[1] == t[2];
    assert |t| > 3 ==> s[2] == t[3];
    assert "b/" <= s <==> |s| >= 2 && s[0] == 'b' && s[1] == '/';
    assert "\"b/" <= s <==> |s| >= 3 && s[0] == '"' && s[1] == 'b' && s[2] == '/';
    assert " b/" <= t <==> |t| >= 3 && t[0] == ' ' && t[1] == 'b' && t[2] == '/';
    assert " \"b/" <= t <==> |t| >= 4 && t[0] == ' ' && t[1] == '"' && t[2] == 'b' && t[3] == '/';
  }

  /** Where the reader sees the second name begin. */
  lemma WhereSecondBegins(a: string, b: string, from: nat)
    requires from <= |a| && IsSecond(b)
    ensures var at := SecondName(a + (" " + b), from);
            && at <= |a| && (at < |a| ==> SecondIn(a, at))
            && (forall j :: from <= j < at ==> !SecondIn(a, j))
            && (at == |a| <==> !SecondInside(a, from))
  {
    hide SecondName, IsSecond, SecondIn;
    var rest := a + (" " + b);
    var at := SecondName(rest, from);
    SecondNameIsFirst(rest, from);
    assert rest[|a| + 1..] == b;
    assert SecondAt(rest, |a|);
    forall j | from <= j < |a| ensures SecondAt(rest, j) <==> SecondIn(a, j) {
      SecondBeforeSeparator(a, b, j);
    }
    forall j: nat | SecondIn(a, j) ensures j < |a| {
      SecondIsShort(a, j);
    }
  }

  lemma SecondIsShort(a: string, j: nat)
    requires SecondIn(a, j)
    ensures j + 3 <= |a|
  {
  }

  // ---- the `diff --git` line: the split in the middle ----------------------

  ghost predicate Halves(rest: string, l: string, r: string) {
    rest == l + (" " + r) && |l| == |r|
  }

  /** The line falls into two halves that name one file. */
  ghost predicate HalvesAgree(rest: string, u: string -> string) {
    exists l, r :: Halves(rest, l, r) && StripSide(Unquote(l, u)) == StripSide(Unquote(r, u))
  }

  lemma MiddleSplits(rest: string, l: string, r: string, u: string -> string)
    requires Halves(rest, l, r) && StripSide(Unquote(l, u)) == StripSide(Unquote(r, u))
    ensures GitName(rest, u) == StripSide(Unquote(r, u))
  {
    hide Unquote, StripSide, SecondName;
    assert rest[..|l|] == l && rest[|l| + 1..] == r && rest[|l|] == ' ';
  }

  /** Where the first name begins, after its side. */
  function Opened(a: string): nat {
    if "a/" <= a then 2 else 3
  }

  ghost predicate IsFirst(a: string) {
    ("a/" <= a && |a| > 2) || ("\"a/" <= a && |a| > 3)
  }

  lemma SecondRead(rest: string, u: string -> string)
    requires IsFirst(rest) && |rest| > Opened(rest) + 1 && !HalvesAgree(rest, u)
    requires SecondName(rest, Opened(rest) + 1) < |rest|
    ensures GitName(rest, u) == StripSide(Unquote(rest[SecondName(rest, Opened(rest) + 1) + 1..], u))
  {
    MiddleIs(rest, u);
    hide Unquote, StripSide, SecondName, HalvesAgree;
  }

  lemma MiddleIs(rest: string, u: string -> string)
    ensures var mid := |rest| / 2;
            HalvesAgree(rest, u) <==>
            |rest| % 2 == 1 && rest[mid] == ' '
            && StripSide(Unquote(rest[..mid], u)) == StripSide(Unquote(rest[mid + 1..], u))
  {
    hide Unquote, StripSide;
    var mid := |rest| / 2;
    if |rest| % 2 == 1 && rest[mid] == ' ' {
      assert rest == rest[..mid] + (" " + rest[mid + 1..]);
      assert Halves(rest, rest[..mid], rest[mid + 1..]);
    }
    forall l, r | Halves(rest, l, r) ensures |rest| % 2 == 1 && rest[mid] == ' ' && l == rest[..mid] && r == rest[mid + 1..] {
    }
  }

  lemma SecondNameTaken(a: string, b: string, u: string -> string)
    requires IsFirst(a) && IsSecond(b) && !HalvesAgree(a + (" " + b), u)
    ensures var rest := a + (" " + b);
            var at := SecondName(rest, Opened(a) + 1);
            at <= |a| && GitName(rest, u) == StripSide(Unquote(rest[at + 1..], u))
  {
    hide *;
    var rest := a + (" " + b);
    LeadStays(a, b);
    WhereSecondBegins(a, b, Opened(a) + 1);
    SecondRead(rest, u);
  }

  lemma LeadStays(a: string, b: string)
    requires IsFirst(a)
    ensures IsFirst(a + (" " + b)) && Opened(a + (" " + b)) == Opened(a) && |a| >= Opened(a) + 1
  {
    var rest := a + (" " + b);
    assert rest[..2] == a[..2];
    assert |a| >= 3 ==> rest[..3] == a[..3];
  }

  // ---- the `diff --git` line: two written paths ---------------------------

  /** Neither do the two names read as one name twice, nor can a second one begin in the first. */
  ghost predicate NamesApart(a: string, b: string, u: string -> string) {
    !HalvesAgree(a + (" " + b), u) && !SecondInside(a, Opened(a) + 1)
  }

  lemma WrittenLeads(old_: string, oldForm: Form, new_: string, newForm: Form, u: string -> string)
    requires Carried("a/", old_, oldForm, u) && Carried("b/", new_, newForm, u)
    ensures IsFirst(Written("a/", old_, oldForm)) && IsSecond(Written("b/", new_, newForm))
  {
  }

  /** git writes the path of a file that was not renamed twice, and any such line is
      split in its middle, whatever the path and however it is written. */
  lemma SameNameReads(path: string, oldForm: Form, newForm: Form, u: string -> string)
    requires Carried("a/", path, oldForm, u) && Carried("b/", path, newForm, u)
    requires |Written("a/", path, oldForm)| == |Written("b/", path, newForm)|
    ensures GitName(Written("a/", path, oldForm) + (" " + Written("b/", path, newForm)), u) == path
  {
    hide GitName, Unquote, StripSide;
    var a, b := Written("a/", path, oldForm), Written("b/", path, newForm);
    WrittenUnquotes("a/", path, oldForm, u);
    WrittenUnquotes("b/", path, newForm, u);
    MiddleSplits(a + (" " + b), a, b, u);
  }

  /** Two names, quoted or not: the new one is read when the line does not fall into two
      halves of one name and no second name can begin inside the first. */
  lemma NewNameReads(old_: string, oldForm: Form, new_: string, newForm: Form, u: string -> string)
    requires Carried("a/", old_, oldForm, u) && Carried("b/", new_, newForm, u)
    requires var a, b := Written("a/", old_, oldForm), Written("b/", new_, newForm);
             !HalvesAgree(a + (" " + b), u) && !SecondInside(a, Opened(a) + 1)
    ensures GitName(Written("a/", old_, oldForm) + (" " + Written("b/", new_, newForm)), u) == new_
  {
    hide *;
    WrittenLeads(old_, oldForm, new_, newForm, u);
    WrittenUnquotes("b/", new_, newForm, u);
    var a, b := Written("a/", old_, oldForm), Written("b/", new_, newForm);
    LeadStays(a, b);
    SecondNameTaken(a, b, u);
    WhereSecondBegins(a, b, Opened(a) + 1);
    assert (a + (" " + b))[|a| + 1..] == b;
  }

  // ---- the `diff --git` line: two bare paths, exactly ----------------------

  /** What `diff --git a/` is followed by. */
  function BothPaths(old_: string, new_: string): string {
    old_ + (" b/" + new_)
  }

  ghost predicate Twice(t: string, h: string) {
    t == h + (" a/" + h) || t == h + (" b/" + h)
  }

  /** The two paths happen to read as one name written twice. */
  ghost predicate OneNameTwice(old_: string, new_: string) {
    exists h :: Twice(BothPaths(old_, new_), h)
  }

  /** The first place in `s` where a second name could begin. */
  ghost predicate FirstSecond(s: string, k: nat) {
    1 <= k && SecondIn(s, k) && forall j :: 1 <= j < k ==> !SecondIn(s, j)
  }

  /** What is left from the first place on is the old path again. */
  ghost predicate TurnsBack(old_: string, new_: string) {
    exists k: nat :: FirstSecond(old_, k) && |old_| >= k + 3 && BothPaths(old_[k + 3..], new_) == old_
  }

  /** Two bare paths are told apart: they are the same, or they do not read as one name
      twice and ` b/` stands nowhere in the old one but at its very beginning. (The old
      path of a file that is gone is told only by accident when the new one is another.) */
  ghost predicate PathsTold(old_: string, new_: string, gone: bool) {
    old_ == new_ || (!OneNameTwice(old_, new_) && if gone then TurnsBack(old_, new_) else !SecondInside(old_, 1))
  }

  ghost predicate NoQuote(path: string) {
    path != "" && '"' !in path
  }

  lemma NothingUnquoted(s: string, u: string -> string)
    requires '"' !in s
    ensures Unquote(s, u) == s
  {
  }

  function GitRest(old_: string, new_: string): (rest: string)
    ensures rest == "a/" + BothPaths(old_, new_)
  {
    "a/" + old_ + (" " + ("b/" + new_))
  }

  lemma HalvesAreTwice(t: string, l: string, r: string)
    requires |t| >= 5 && Halves("a/" + t, l, r) && StripSide(l) == StripSide(r)
    ensures Twice(t, StripSide(r)) && StripSide(r) != ""
  {
    var h := l[2..];
    assert l == ("a/" + t)[..|l|] && |l| >= 2;
    assert l == "a/" + h;
    HalvesOfSide(t, h, r);
  }

  lemma HalvesOfSide(t: string, h: string, r: string)
    requires |t| >= 5 && "a/" + t == "a/" + h + (" " + r) && |r| == |h| + 2 && StripSide(r) == h
    ensures Twice(t, StripSide(r)) && StripSide(r) != ""
  {
    assert t == ("a/" + t)[2..] == h + (" " + r);
    assert r == r[..2] + h;
    assert " " + ("a/" + h) == " a/" + h && " " + ("b/" + h) == " b/" + h;
  }

  lemma TwiceIsHalves(t: string, h: string) returns (r: string)
    requires Twice(t, h)
    ensures Halves("a/" + t, "a/" + h, r) && StripSide(r) == h && t == h + (" " + r)
  {
    r := if t == h + (" a/" + h) then "a/" + h else "b/" + h;
    assert t == h + (" " + r);
    assert "a/" + t == "a/" + h + (" " + r);
    assert r[2..] == h;
  }

  /** Two bare paths that read as one name: that name is read. */
  lemma ReadTwice(t: string, h: string, u: string -> string)
    requires '"' !in t && Twice(t, h)
    ensures GitName("a/" + t, u) == h
  {
    var r := TwiceIsHalves(t, h);
    NothingUnquoted("a/" + h, u);
    NothingUnquoted(r, u);
    hide GitName, Twice, Unquote;
    MiddleSplits("a/" + t, "a/" + h, r, u);
  }

  lemma NotTwiceNotHalves(t: string, u: string -> string)
    requires '"' !in t && |t| >= 5
    requires forall h :: !Twice(t, h)
    ensures !HalvesAgree("a/" + t, u)
  {
    hide Twice;
    forall l, r | Halves("a/" + t, l, r) ensures StripSide(Unquote(l, u)) != StripSide(Unquote(r, u)) {
      assert '"' !in "a/" + t;
      NothingUnquoted(l, u);
      NothingUnquoted(r, u);
      if StripSide(l) == StripSide(r) {
        HalvesAreTwice(t, l, r);
      }
    }
  }

  lemma SecondAfterSide(old_: string, k: nat)
    ensures SecondIn("a/" + old_, k + 2) <==> SecondIn(old_, k)
  {
    if k <= |old_| {
      assert ("a/" + old_)[k + 2..] == old_[k..];
    }
  }

  /** Where a second name can first begin in the old path, or its end. */
  ghost predicate FirstOrEnd(s: string, k: nat) {
    if k == |s| then !SecondInside(s, 1) else k + 3 <= |s| && FirstSecond(s, k) && " b/" <= s[k..]
  }

  lemma PlaceInPath(old_: string, b: string) returns (k: nat)
    requires NoQuote(old_) && IsSecond(b)
    ensures SecondName("a/" + old_ + (" " + b), 3) == k + 2 && FirstOrEnd(old_, k)
  {
    var a := "a/" + old_;
    WhereSecondBegins(a, b, 3);
    var at := SecondName(a + (" " + b), 3);
    k := at - 2;
    hide SecondName, IsSecond;
    forall j: nat ensures SecondIn(a, j + 2) <==> SecondIn(old_, j) {
      SecondAfterSide(old_, j);
    }
    if at < |a| {
      SecondIsShort(a, at);
      PlainSecond(old_, k);
      forall j: nat | 1 <= j < k ensures !SecondIn(old_, j) {
        assert !SecondIn(a, j + 2);
      }
    } else {
      forall j: nat | 1 <= j ensures !SecondIn(old_, j) {
        assert !SecondIn(a, j + 2);
      }
    }
  }

  lemma QuoteInside(s: string, k: nat)
    requires k <= |s| && " \"b/" <= s[k..]
    ensures '"' in s
  {
    assert s[k..][1] == s[k + 1] == '"';
  }

  lemma PlainSecond(s: string, k: nat)
    requires '"' !in s && SecondIn(s, k)
    ensures " b/" <= s[k..]
  {
    if " \"b/" <= s[k..] {
      QuoteInside(s, k);
      assert false;
    }
  }

  /** Otherwise the rest of the line is read, from the first ` b/` on. */
  lemma ReadApart(old_: string, new_: string, u: string -> string) returns (k: nat)
    requires NoQuote(old_) && NoQuote(new_) && !OneNameTwice(old_, new_)
    ensures FirstOrEnd(old_, k)
    ensures GitName(GitRest(old_, new_), u) == BothPaths(old_, new_)[k + 3..]
  {
    hide GitName, SecondName, HalvesAgree, FirstOrEnd, Unquote, StripSide, SecondIn, Twice, SecondInside;
    var a, b, t := "a/" + old_, "b/" + new_, BothPaths(old_, new_);
    NotTwiceNotHalves(t, u);
    assert a + (" " + b) == "a/" + t;
    k := PlaceInPath(old_, b);
    SecondNameTaken(a, b, u);
    ReadFrom(old_, new_, k);
    NothingUnquoted("b/" + t[k + 3..], u);
    SideStripped(t[k + 3..]);
  }

  lemma SideStripped(path: string)
    ensures StripSide("b/" + path) == path
  {
  }

  lemma ReadFrom(old_: string, new_: string, k: nat)
    requires NoQuote(old_) && NoQuote(new_) && FirstOrEnd(old_, k)
    ensures var tail := BothPaths(old_, new_)[k + 3..];
            GitRest(old_, new_)[k + 3..] == "b/" + tail && '"' !in "b/" + tail
  {
    hide SecondIn, SecondInside, FirstSecond;
    var t := BothPaths(old_, new_);
    assert t[k..k + 3] == " b/";
    assert GitRest(old_, new_)[k + 3..] == t[k + 1..];
    assert t[k + 1..] == t[k..k + 3][1..] + t[k + 3..];
    assert '"' !in t;
  }

  /** A `diff --git` line of two bare paths without quotes: it names the file if and only
      if the paths are told apart; it always names one. */
  lemma ReadsIffPathsTold(old_: string, new_: string, gone: bool, u: string -> string)
    requires NoQuote(old_) && NoQuote(new_)
    ensures var path := GitName(GitRest(old_, new_), u);
            && path != ""
            && (path == (if gone then old_ else new_) <==> PathsTold(old_, new_, gone))
  {
    hide GitName, SecondInside, Twice;
    if h :| Twice(BothPaths(old_, new_), h) {
      assert '"' !in BothPaths(old_, new_);
      ReadTwice(BothPaths(old_, new_), h, u);
      TwiceOfOne(old_, new_, h);
    } else {
      var k := ReadApart(old_, new_, u);
      ApartAreTwo(old_, new_);
      ApartIsTold(old_, new_, k);
    }
  }

  lemma ApartAreTwo(old_: string, new_: string)
    requires !OneNameTwice(old_, new_)
    ensures old_ != new_
  {
    if old_ == new_ {
      assert Twice(BothPaths(old_, new_), old_);
    }
  }

  lemma TwiceOfOne(old_: string, new_: string, h: string)
    requires NoQuote(old_) && NoQuote(new_) && Twice(BothPaths(old_, new_), h)
    ensures h != "" && (h == old_ <==> old_ == new_) && (h == new_ <==> old_ == new_)
  {
    var t := BothPaths(old_, new_);
    assert |t| == 2 * |h| + 3;
    assert t[..|h|] == h && t[|h| + 3..] == h;
    assert t[..|old_|] == old_ && t[|old_| + 3..] == new_;
  }

  lemma ApartIsTold(old_: string, new_: string, k: nat)
    requires old_ != new_ && NoQuote(new_) && FirstOrEnd(old_, k)
    ensures var path := BothPaths(old_, new_)[k + 3..];
            && path != ""
            && (path == new_ <==> !SecondInside(old_, 1))
            && (path == old_ <==> TurnsBack(old_, new_))
  {
    hide SecondIn;
    var t := BothPaths(old_, new_);
    if k == |old_| {
      assert t[k + 3..] == new_;
      assert !TurnsBack(old_, new_);
    } else {
      assert t[k + 3..] == BothPaths(old_[k + 3..], new_);
      assert |t[k + 3..]| > |new_|;
      assert SecondInside(old_, 1);
      forall j: nat | FirstSecond(old_, j) ensures j == k {
      }
    }
  }

  /** ` a/` or ` b/` stands at `k`. */
  ghost predicate SideIn(s: string, k: nat) {
    k + 3 <= |s| && (s[k..k + 3] == " a/" || s[k..k + 3] == " b/")
  }

  /** Two paths in which neither ` a/` nor ` b/` stands are always told apart. */
  lemma NoSideNoDoubt(old_: string, new_: string)
    requires NoQuote(old_) && NoQuote(new_)
    requires forall k :: !SideIn(old_, k) && !SideIn(new_, k)
    ensures PathsTold(old_, new_, false)
  {
    hide SideIn, Twice, SecondIn;
    forall k: nat ensures !SecondIn(old_, k) {
      if SecondIn(old_, k) {
        SecondIsSide(old_, k);
      }
    }
    if h :| Twice(BothPaths(old_, new_), h) {
      var t := BothPaths(old_, new_);
      HalfFirst(t, h);
      if |h| != |old_| {
        var k := MiddleInPath(old_, new_, h);
        assert false;
      }
      TwiceOfOne(old_, new_, h);
      assert h == t[..|h|] == old_;
    }
  }

  lemma HalfFirst(t: string, h: string)
    requires Twice(t, h)
    ensures |t| == 2 * |h| + 3 && t[..|h|] == h && SideIn(t, |h|)
  {
    assert t[|h|..|h| + 3] == " a/" || t[|h|..|h| + 3] == " b/";
  }

  lemma SecondIsSide(s: string, k: nat)
    requires NoQuote(s) && SecondIn(s, k)
    ensures SideIn(s, k)
  {
    PlainSecond(s, k);
    assert s[k..k + 3] == s[k..][..3];
  }

  /** A name written twice has its middle inside one of the paths when they differ in length. */
  lemma MiddleInPath(old_: string, new_: string, h: string) returns (k: nat)
    requires Twice(BothPaths(old_, new_), h) && |h| != |old_|
    ensures SideIn(old_, k) || SideIn(new_, k)
  {
    hide Twice;
    var t := BothPaths(old_, new_);
    HalfFirst(t, h);
    var m := t[|h|..|h| + 3];
    assert m[0] == t[|h|] && m[1] == t[|h| + 1] && m[2] == t[|h| + 2];
    assert t[|old_|..|old_| + 3] == " b/";
    assert t[|old_|] == ' ' && t[|old_| + 1] == 'b' && t[|old_| + 2] == '/';
    if |h| < |old_| {
      k := |h|;
      assert |h| + 3 <= |old_|;
      assert old_[|h|..|h| + 3] == m;
    } else {
      assert |h| >= |old_| + 3;
      k := |h| - |old_| - 3;
      assert new_ == t[|old_| + 3..];
      assert new_[k..k + 3] == m;
    }
  }
}
