/** What is read from the header lines of a diff, whatever they hold: the counts of a hunk
    header, the paths of a file header, and the path of git's own line. */
module DiffHeads {
  import opened DiffNames
  import opened Text
  import opened UnifiedDiff
  import opened Wrappers

  // ---- hunk headers ------------------------------------------------------

  ghost predicate IsNumber(d: string) {
    d != "" && forall k :: 0 <= k < |d| ==> IsDigit(d[k])
  }

  /** The count of a side: nothing for one line, or a comma and a number. */
  ghost predicate IsCount(c: string, count: nat) {
    (c == "" && count == 1) || exists d: string :: c == "," + d && IsNumber(d) && count == ToNat(d)
  }

  ghost predicate IsSide(s: string, start: nat, count: nat, rest: string) {
    exists d: string, c: string :: IsNumber(d) && start == ToNat(d) && IsCount(c, count) && s == d + c + rest
  }

  /** The line is a hunk header that says `h`; what comes after it is any text. */
  ghost predicate SaysHead(line: string, h: HunkHead) {
    exists oldStart: nat, tail: string, rest: string ::
      && " @@" <= tail && " +" <= rest && "@@ -" <= line
      && IsSide(line[4..], oldStart, h.oldCount, rest) && IsSide(rest[2..], h.newStart, h.newCount, tail)
  }

  lemma NumberEnds(d: string, rest: string)
    requires IsNumber(d) && (rest == "" || !IsDigit(rest[0]))
    ensures DigitCount(d + rest) == |d| && (d + rest)[..|d|] == d && (d + rest)[|d|..] == rest
  {
    DigitCountExact(d, rest);
  }

  /** A side is read as it is, when a space comes after it. */
  lemma SideRead(s: string, start: nat, count: nat, rest: string)
    requires " " <= rest && IsSide(s, start, count, rest)
    ensures ReadSide(s) == Some(Side(start, count, rest))
  {
    hide DigitCount, ToNat;
    var d: string, c: string :| IsNumber(d) && start == ToNat(d) && IsCount(c, count) && s == d + c + rest;
    assert s == d + (c + rest);
    if c == "" {
      assert c + rest == rest;
      NumberEnds(d, rest);
    } else {
      var n: string :| c == "," + n && IsNumber(n) && count == ToNat(n);
      assert c + rest == "," + (n + rest);
      NumberEnds(d, c + rest);
      NumberEnds(n, rest);
      assert s[|d|] == ',' && s[|d| + 1..] == n + rest;
    }
  }

  /** What is read as a side is one. */
  lemma ReadIsSide(s: string)
    requires ReadSide(s).Some?
    ensures var o := ReadSide(s).value; IsSide(s, o.start, o.count, o.rest)
  {
    hide DigitCount, ToNat;
    var o := ReadSide(s).value;
    var d := DigitCount(s);
    assert IsNumber(s[..d]);
    if d < |s| && s[d] == ',' && DigitCount(s[d + 1..]) > 0 {
      var e := DigitCount(s[d + 1..]);
      var n := s[d + 1..][..e];
      assert IsNumber(n);
      assert s == s[..d] + ("," + n) + o.rest;
      assert IsCount("," + n, o.count);
    } else {
      assert s == s[..d] + "" + o.rest;
      assert IsCount("", 1);
    }
  }

  /** A line is read as a hunk header just when it is one, and as what it says. */
  lemma HunkHeadIs(line: string, h: HunkHead)
    ensures ReadHunkHead(line) == Some(h) <==> SaysHead(line, h)
  {
    hide IsSide, ReadSide;
    if SaysHead(line, h) {
      var oldStart: nat, tail: string, rest: string :|
        && " @@" <= tail && " +" <= rest && "@@ -" <= line
        && IsSide(line[4..], oldStart, h.oldCount, rest) && IsSide(rest[2..], h.newStart, h.newCount, tail);
      SpaceFirst(rest, " +");
      SpaceFirst(tail, " @@");
      SideRead(line[4..], oldStart, h.oldCount, rest);
      SideRead(rest[2..], h.newStart, h.newCount, tail);
    }
    if ReadHunkHead(line) == Some(h) {
      ReadIsSide(line[4..]);
      ReadIsSide(ReadSide(line[4..]).value.rest[2..]);
    }
  }

  lemma SpaceFirst(s: string, p: string)
    requires p <= s && p != "" && p[0] == ' '
    ensures " " <= s
  {
  }

  // ---- names -------------------------------------------------------------

  /** What is quoted is decoded, and nothing else. */
  lemma UnquoteIs(p: string, u: string -> string)
    ensures forall inner: string :: p == "\"" + inner + "\"" ==> Unquote(p, u) == u(inner)
    ensures (forall inner: string :: p != "\"" + inner + "\"") ==> Unquote(p, u) == p
  {
    forall inner: string | p == "\"" + inner + "\"" ensures Unquote(p, u) == u(inner) {
      assert p[1..|p| - 1] == inner;
    }
    if |p| >= 2 && p[0] == '"' && p[|p| - 1] == '"' {
      assert p == "\"" + p[1..|p| - 1] + "\"";
    }
  }

  lemma StripSideIs(p: string)
    ensures forall q: string :: p == "a/" + q || p == "b/" + q ==> StripSide(p) == q
    ensures (forall q: string :: p != "a/" + q && p != "b/" + q) ==> StripSide(p) == p
  {
    forall q: string | p == "a/" + q || p == "b/" + q ensures StripSide(p) == q {
      assert p[2..] == q;
    }
    if "a/" <= p {
      assert p == "a/" + p[2..];
    } else if "b/" <= p {
      assert p == "b/" + p[2..];
    }
  }

  /** The path of a file header is what comes after its first four characters, up to a tab, with
      no white space around it: decoded if it is quoted, and without its side. */
  lemma HeaderPathIs(lead: string, field: string, more: string, u: string -> string)
    requires |lead| == 4 && '\t' !in field && (more == "" || more[0] == '\t')
    ensures var p := Unquote(Strip(field), u);
            HeaderPath(lead + field + more, u) == if p == "/dev/null" then "" else StripSide(p)
  {
    hide Strip, Unquote, StripSide;
    var line := lead + field + more;
    assert line[4..] == field + more;
    if more == "" {
      assert field + more == field;
      SplitPlain(field, '\t');
    } else {
      assert field + more == field + ['\t'] + more[1..];
      SplitAtSeparator(field, more[1..], '\t');
      SplitPlain(field, '\t');
    }
  }

  // ---- git's line --------------------------------------------------------

  /** `s` begins with `lead`, and goes on. */
  ghost predicate GoesOn(s: string, lead: string) {
    exists t: string :: t != "" && s == lead + t
  }

  /** A second name begins after the space at `k`, and a first one is before it. */
  ghost predicate PartsAt(rest: string, k: nat) {
    && k < |rest| && rest[k] == ' '
    && (GoesOn(rest[..k], "a/") || GoesOn(rest[..k], "\"a/"))
    && (GoesOn(rest[k + 1..], "b/") || GoesOn(rest[k + 1..], "\"b/"))
  }

  lemma GoesOnIs(s: string, lead: string)
    ensures GoesOn(s, lead) <==> lead <= s && |s| > |lead|
  {
    if lead <= s && |s| > |lead| {
      assert s == lead + s[|lead|..];
    }
  }

  /** The path read from git's line: its second half, when the line is two names of one file; else
      the second name at the first place that parts two names; else none. */
  lemma GitNameIs(rest: string, u: string -> string)
    ensures forall l, r :: Halves(rest, l, r) && StripSide(Unquote(l, u)) == StripSide(Unquote(r, u))
                           ==> GitName(rest, u) == StripSide(Unquote(r, u))
    ensures !HalvesAgree(rest, u) && (forall k: nat :: !PartsAt(rest, k)) ==> GitName(rest, u) == ""
    ensures !HalvesAgree(rest, u) ==>
              forall k: nat :: PartsAt(rest, k) && (forall j: nat :: j < k ==> !PartsAt(rest, j))
                               ==> GitName(rest, u) == StripSide(Unquote(rest[k + 1..], u))
  {
    hide Unquote, StripSide, HalvesAgree, PartsAt, SecondName, Halves;
    forall l, r | Halves(rest, l, r) && StripSide(Unquote(l, u)) == StripSide(Unquote(r, u))
      ensures GitName(rest, u) == StripSide(Unquote(r, u))
    {
      MiddleSplits(rest, l, r, u);
    }
    if !HalvesAgree(rest, u) {
      MiddleIs(rest, u);
      var from := OpenOf(rest) + 1;
      if OpenOf(rest) == 0 || |rest| <= from {
        forall k: nat ensures !PartsAt(rest, k) {
          PartsIs(rest, k);
        }
      } else {
        SecondNameIsFirst(rest, from);
        var at := SecondName(rest, from);
        forall k: nat ensures PartsAt(rest, k) <==> from <= k < |rest| && SecondAt(rest, k) {
          PartsIs(rest, k);
        }
      }
    }
  }

  function OpenOf(rest: string): nat {
    if "a/" <= rest then 2 else if "\"a/" <= rest then 3 else 0
  }

  lemma PartsIs(rest: string, k: nat)
    ensures PartsAt(rest, k) <==> OpenOf(rest) > 0 && OpenOf(rest) + 1 <= k < |rest| && SecondAt(rest, k)
  {
    hide GoesOn;
    if k < |rest| {
      GoesOnIs(rest[..k], "a/");
      GoesOnIs(rest[..k], "\"a/");
      GoesOnIs(rest[k + 1..], "b/");
      GoesOnIs(rest[k + 1..], "\"b/");
      var one, two := "a/", "\"a/";
      assert one[0] != two[0];
    }
  }
}
