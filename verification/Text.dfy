/** Strings the way the Python tools take them apart: splitting and joining at
    one character, stripping white space, and decimal numbers. */
module Text {

  /** The parts of `s` between occurrences of `sep`; there is always at least one. */
  function Split(s: string, sep: char): (parts: seq<string>)
    ensures |parts| > 0
  {
    if s == [] then [""]
    else
      var rest := Split(s[1..], sep);
      if s[0] == sep then [""] + rest
      else [[s[0]] + rest[0]] + rest[1..]
  }

  function Join(parts: seq<string>, sep: char): string
    requires |parts| > 0
  {
    if |parts| == 1 then parts[0] else parts[0] + [sep] + Join(parts[1..], sep)
  }

  lemma {:induction false} SplitParts(s: string, sep: char)
    ensures Join(Split(s, sep), sep) == s
    ensures forall k :: 0 <= k < |Split(s, sep)| ==> sep !in Split(s, sep)[k]
  {
    if s != [] {
      SplitParts(s[1..], sep);
      var rest := Split(s[1..], sep);
      if s[0] == sep {
        assert ([""] + rest)[1..] == rest;
      } else {
        assert ([[s[0]] + rest[0]] + rest[1..])[1..] == rest[1..];
      }
    }
  }

  lemma {:induction false} SplitPlain(s: string, sep: char)
    requires sep !in s
    ensures Split(s, sep) == [s]
  {
    if s != [] {
      SplitPlain(s[1..], sep);
      assert s == [s[0]] + s[1..];
    }
  }

  /** `p` and `q` with the last part of one and the first of the other made into one. */
  function Glue(p: seq<string>, q: seq<string>): (r: seq<string>)
    requires |p| > 0 && |q| > 0
    ensures |r| == |p| + |q| - 1
  {
    p[..|p| - 1] + [p[|p| - 1] + q[0]] + q[1..]
  }

  lemma GlueMore(c: char, t: seq<string>, q: seq<string>)
    requires |t| > 0 && |q| > 0
    ensures Glue([""] + t, q) == [""] + Glue(t, q)
    ensures Glue([[c] + t[0]] + t[1..], q) == [[c] + Glue(t, q)[0]] + Glue(t, q)[1..]
  {
    var p, r := [[c] + t[0]] + t[1..], Glue(t, q);
    assert Glue([""] + t, q) == [""] + Glue(t, q);
    assert p[0] == [c] + t[0] && r[0] == if |t| == 1 then t[0] + q[0] else t[0];
    assert |t| == 1 ==> p[0] + q[0] == [c] + (t[0] + q[0]);
    forall k | 0 <= k < |r| ensures Glue(p, q)[k] == ([[c] + r[0]] + r[1..])[k] {
    }
  }

  /** Two texts put one after the other: the part at the seam is shared. */
  lemma {:induction false} SplitConcat(a: string, b: string, sep: char)
    ensures Split(a + b, sep) == Glue(Split(a, sep), Split(b, sep))
  {
    hide Glue;
    if a == [] {
      assert a + b == b;
      assert Split(a, sep) == [""];
      GlueEmpty(Split(b, sep));
    } else {
      SplitConcat(a[1..], b, sep);
      assert (a + b)[1..] == a[1..] + b;
      GlueMore(a[0], Split(a[1..], sep), Split(b, sep));
    }
  }

  lemma GlueEmpty(q: seq<string>)
    requires |q| > 0
    ensures Glue([""], q) == q
  {
    assert "" + q[0] == q[0];
  }

  lemma {:induction false} SplitAtSeparator(a: string, b: string, sep: char)
    ensures Split(a + [sep] + b, sep) == Split(a, sep) + Split(b, sep)
  {
    assert ([sep] + b)[1..] == b;
    assert Split([sep] + b, sep) == [""] + Split(b, sep);
    hide Split;
    SplitConcat(a, [sep] + b, sep);
    assert a + [sep] + b == a + ([sep] + b);
    var p := Split(a, sep);
    assert p[|p| - 1] + "" == p[|p| - 1];
    assert p == p[..|p| - 1] + [p[|p| - 1]];
  }

  lemma {:induction false} SplitJoin(parts: seq<string>, sep: char)
    requires |parts| > 0
    requires forall k :: 0 <= k < |parts| ==> sep !in parts[k]
    ensures Split(Join(parts, sep), sep) == parts
  {
    SplitPlain(parts[0], sep);
    if |parts| > 1 {
      SplitJoin(parts[1..], sep);
      SplitAtSeparator(parts[0], Join(parts[1..], sep), sep);
    }
  }

  /** Every line followed by a line break. */
  function Unlines(lines: seq<string>): string {
    if lines == [] then "" else lines[0] + "\n" + Unlines(lines[1..])
  }

  /** The lines of a text; what follows the last line break is not a line when it is empty. */
  function LinesOf(text: string): (lines: seq<string>)
    ensures forall k :: 0 <= k < |lines| ==> '\n' !in lines[k]
  {
    SplitParts(text, '\n');
    var parts := Split(text, '\n');
    if parts[|parts| - 1] == "" then parts[..|parts| - 1] else parts
  }

  ghost predicate AllPlain(lines: seq<string>) {
    forall k :: 0 <= k < |lines| ==> '\n' !in lines[k]
  }

  lemma {:induction false} SplitUnlines(lines: seq<string>)
    requires AllPlain(lines)
    ensures Split(Unlines(lines), '\n') == lines + [""]
  {
    if lines != [] {
      SplitUnlines(lines[1..]);
      SplitPlain(lines[0], '\n');
      SplitAtSeparator(lines[0], Unlines(lines[1..]), '\n');
      assert lines == [lines[0]] + lines[1..];
    }
  }

  lemma LinesOfUnlines(lines: seq<string>)
    requires AllPlain(lines)
    ensures LinesOf(Unlines(lines)) == lines
  {
    SplitUnlines(lines);
  }

  /** `str.isspace`. */
  predicate IsSpace(c: char) {
    var n := c as int;
    9 <= n <= 13 || 28 <= n <= 32 || n in {0x85, 0xA0, 0x1680, 0x2028, 0x2029, 0x202F, 0x205F, 0x3000}
    || 0x2000 <= n <= 0x200A
  }

  predicate IsBlank(s: string) {
    forall k :: 0 <= k < |s| ==> IsSpace(s[k])
  }

  function StripLeft(s: string): string {
    if s != [] && IsSpace(s[0]) then StripLeft(s[1..]) else s
  }

  function StripRight(s: string): string {
    if s != [] && IsSpace(s[|s| - 1]) then StripRight(s[..|s| - 1]) else s
  }

  function Strip(s: string): string {
    StripRight(StripLeft(s))
  }

  /** Every stretch of white space one space. */
  function Collapse(s: string): string
    decreases |s|
  {
    if s == "" then ""
    else if !IsSpace(s[0]) then [s[0]] + Collapse(s[1..])
    else if |s| > 1 && IsSpace(s[1]) then Collapse(s[1..])
    else " " + Collapse(s[1..])
  }

  /** White space is single spaces only. */
  ghost predicate SingleSpaced(s: string) {
    && (forall k :: 0 <= k < |s| ==> IsSpace(s[k]) ==> s[k] == ' ')
    && forall k :: 0 <= k < |s| - 1 ==> !IsSpace(s[k]) || !IsSpace(s[k + 1])
  }

  lemma {:induction false} CollapsedSingle(s: string)
    requires SingleSpaced(s)
    ensures Collapse(s) == s
    decreases |s|
  {
    hide IsSpace;
    if s != "" {
      CollapsedSingle(s[1..]);
      assert s == [s[0]] + s[1..];
    }
  }

  lemma {:induction false} CollapseIsSingle(s: string)
    ensures SingleSpaced(Collapse(s))
    ensures Collapse(s) == "" <==> s == ""
    ensures s != "" ==> (IsSpace(Collapse(s)[0]) <==> IsSpace(s[0]))
    decreases |s|
  {
    hide IsSpace, SingleSpaced;
    SpaceIsSpace();
    if s == "" {
      NothingSpaced();
    } else {
      CollapseIsSingle(s[1..]);
      var t := Collapse(s[1..]);
      if !IsSpace(s[0]) {
        OneSpacedMore(s[0], t);
      } else if |s| == 1 || !IsSpace(s[1]) {
        OneSpacedMore(' ', t);
      }
    }
  }

  /** Texts that do not meet in white space are collapsed each by itself. */
  lemma {:induction false} CollapseApart(a: string, b: string)
    requires a != "" && b != "" ==> !(IsSpace(a[|a| - 1]) && IsSpace(b[0]))
    ensures Collapse(a + b) == Collapse(a) + Collapse(b)
    decreases |a|
  {
    hide IsSpace;
    if a == "" {
      assert a + b == b;
    } else if b == "" {
      assert a + b == a;
    } else {
      var s := a + b;
      CollapseApart(a[1..], b);
      assert s[1..] == a[1..] + b && s[0] == a[0];
      assert |a| > 1 ==> s[1] == a[1];
      CollapseNone();
    }
  }

  lemma CollapseNone()
    ensures Collapse("") == ""
  {
  }

  /** A stretch of white space is one space. */
  lemma {:induction false} CollapseRun(s: string)
    requires s != "" && IsBlank(s)
    ensures Collapse(s) == " "
    decreases |s|
  {
    assert IsSpace(s[0]);
    if |s| > 1 {
      assert IsSpace(s[1]);
      assert forall k :: 0 <= k < |s[1..]| ==> IsSpace(s[1..][k]);
      CollapseRun(s[1..]);
    }
  }

  lemma NothingSpaced()
    ensures SingleSpaced("")
  {
  }

  lemma OneSpacedMore(c: char, t: string)
    requires SingleSpaced(t) && (IsSpace(c) ==> c == ' ' && (t == "" || !IsSpace(t[0])))
    ensures SingleSpaced([c] + t)
  {
    hide IsSpace;
    assert forall k :: 0 < k < |t| + 1 ==> ([c] + t)[k] == t[k - 1];
  }

  lemma SpaceIsSpace()
    ensures IsSpace(' ')
  {
  }

  lemma {:induction false} StripRightPrefix(s: string)
    ensures StripRight(s) <= s
    ensures StripRight(s) != "" ==> !IsSpace(StripRight(s)[|StripRight(s)| - 1])
  {
    if s != "" && IsSpace(s[|s| - 1]) {
      StripRightPrefix(s[..|s| - 1]);
    }
  }

  lemma {:induction false} StripOne(c: char, s: string)
    requires !IsSpace(c)
    ensures Strip([c] + s) == [c] + StripRight(s)
  {
    assert StripLeft([c] + s) == [c] + s;
    RightAfter(c, s);
  }

  lemma {:induction false} RightAfter(c: char, s: string)
    requires !IsSpace(c)
    ensures StripRight([c] + s) == [c] + StripRight(s)
  {
    var t := [c] + s;
    assert s == "" ==> t == [c];
    if s != "" && IsSpace(s[|s| - 1]) {
      RightAfter(c, s[..|s| - 1]);
      assert t[..|t| - 1] == [c] + s[..|s| - 1];
    }
  }

  /** A text is what is left when it is stripped, with white space before it and after it. */
  lemma StripParts(s: string) returns (a: string, b: string)
    ensures s == a + Strip(s) + b && IsBlank(a) && IsBlank(b)
    ensures Strip(s) != "" ==> !IsSpace(Strip(s)[0]) && !IsSpace(Strip(s)[|Strip(s)| - 1])
  {
    a := LeftPart(s);
    var t := StripLeft(s);
    b := RightPart(t);
    StripRightPrefix(t);
  }

  lemma {:induction false} LeftPart(s: string) returns (a: string)
    ensures s == a + StripLeft(s) && IsBlank(a)
    ensures StripLeft(s) != "" ==> !IsSpace(StripLeft(s)[0])
  {
    a := "";
    if s != "" && IsSpace(s[0]) {
      a := LeftPart(s[1..]);
      a := [s[0]] + a;
    }
  }

  lemma {:induction false} RightPart(s: string) returns (b: string)
    ensures s == StripRight(s) + b && IsBlank(b)
  {
    b := "";
    if s != "" && IsSpace(s[|s| - 1]) {
      b := RightPart(s[..|s| - 1]);
      b := b + [s[|s| - 1]];
    }
  }

  lemma BlankStrip(s: string)
    requires IsBlank(s)
    ensures Strip(s) == ""
  {
    BlankLeft(s);
  }

  lemma {:induction false} BlankLeft(s: string)
    requires IsBlank(s)
    ensures StripLeft(s) == ""
    decreases |s|
  {
    if s != "" {
      assert IsSpace(s[0]);
      assert forall k :: 0 <= k < |s[1..]| ==> IsSpace(s[1..][k]);
      BlankLeft(s[1..]);
    }
  }

  /** Stripping on the right first changes nothing. */
  lemma {:induction false} StripRightFirst(s: string)
    ensures Strip(StripRight(s)) == Strip(s)
    decreases |s|
  {
    var u := StripRight(s);
    StripRightPrefix(s);
    if s != "" && IsSpace(s[0]) {
      StripRightFirst(s[1..]);
      RightOfRest(s);
    } else if s != "" {
      assert s == [s[0]] + s[1..];
      RightAfter(s[0], s[1..]);
      RightOnce(u);
    }
  }

  lemma {:induction false} RightOnce(u: string)
    requires u != "" ==> !IsSpace(u[|u| - 1])
    ensures StripRight(u) == u
  {
  }

  /** White space in front goes either way. */
  lemma {:induction false} RightOfRest(s: string)
    requires s != "" && IsSpace(s[0])
    ensures Strip(StripRight(s)) == Strip(StripRight(s[1..])) && Strip(s) == Strip(s[1..])
    decreases |s|
  {
    if IsSpace(s[|s| - 1]) {
      if |s| > 1 {
        assert s[..|s| - 1][1..] == s[1..][..|s| - 2] && s[1..][|s| - 2] == s[|s| - 1];
        RightOfRest(s[..|s| - 1]);
      }
    } else {
      assert StripRight(s) == s && StripRight(s[1..]) == s[1..];
    }
  }

  predicate EndsWith(s: string, tail: string) {
    |tail| <= |s| && s[|s| - |tail|..] == tail
  }

  lemma StripTight(s: string)
    requires s != [] && !IsSpace(s[0]) && !IsSpace(s[|s| - 1])
    ensures Strip(s) == s
  {
  }

  predicate IsDigit(c: char) {
    '0' <= c <= '9'
  }

  /** How many digits `s` begins with. */
  function DigitCount(s: string): (n: nat)
    ensures n <= |s| && forall k :: 0 <= k < n ==> IsDigit(s[k])
    ensures n < |s| ==> !IsDigit(s[n])
  {
    if s != [] && IsDigit(s[0]) then 1 + DigitCount(s[1..]) else 0
  }

  function DigitValue(c: char): nat
    requires IsDigit(c)
  {
    c as int - '0' as int
  }

  function ToNat(digits: string): nat
    requires forall k :: 0 <= k < |digits| ==> IsDigit(digits[k])
  {
    if digits == [] then 0
    else 10 * ToNat(digits[..|digits| - 1]) + DigitValue(digits[|digits| - 1])
  }

  function Decimal(n: nat): (s: string)
    ensures s != [] && forall k :: 0 <= k < |s| ==> IsDigit(s[k])
    ensures ToNat(s) == n
  {
    var last := [(48 + n % 10) as char];
    if n < 10 then last else Decimal(n / 10) + last
  }

  lemma {:induction false} DigitCountExact(digits: string, rest: string)
    requires forall k :: 0 <= k < |digits| ==> IsDigit(digits[k])
    requires rest == [] || !IsDigit(rest[0])
    ensures DigitCount(digits + rest) == |digits|
  {
    if digits == [] {
      assert digits + rest == rest;
    } else {
      DigitCountExact(digits[1..], rest);
      assert (digits + rest)[1..] == digits[1..] + rest;
    }
  }
}
