/** The three scanners on any text at all, terminated or not: how each takes it apart, and
    what it makes of the parts. */
module ScannersAnyText {
  import opened JavaScanners
  import opened ScannersAgree
  import opened Wrappers

  // ---- where a literal, a comment, a text block ends ---------------------

  /** `s` is characters and escaped characters, none of them a bare `q`; a line break only
      where `lines` allows it, or escaped. */
  predicate Inside(s: string, q: char, lines: bool) {
    if s == "" then true
    else if s[0] == '\\' then |s| >= 2 && Inside(s[2..], q, lines)
    else s[0] != q && (lines || s[0] != '\n') && Inside(s[1..], q, lines)
  }

  /** A literal that `q` opened ends with the quote at `k`. */
  ghost predicate QuotedTo(s: string, q: char, lines: bool, k: nat) {
    k < |s| && Inside(s[..k], q, lines) && s[k] == q
  }

  lemma {:induction false} QuotedToIs(s: string, q: char, k: nat)
    requires q != '\\'
    ensures QuotedTo(s, q, true, k) <==> k < |s| && k == ClosingQuote(s, q)
    decreases |s|
  {
    if k < |s| && s[0] == '\\' {
      if k >= 2 {
        assert s[..k][2..] == s[2..][..k - 2];
        QuotedToIs(s[2..], q, k - 2);
      }
    } else if k < |s| && s[0] != q && k > 0 {
      assert s[..k][1..] == s[1..][..k - 1];
      QuotedToIs(s[1..], q, k - 1);
    }
  }

  lemma {:induction false} OnOneLineIs(s: string, q: char, k: nat)
    requires q != '\\' && q != '\n'
    ensures QuotedTo(s, q, false, k) <==> LiteralEnd(s, q) == Some(k + 1)
    decreases |s|
  {
    if k < |s| && s[0] == '\\' {
      if k >= 2 {
        assert s[..k][2..] == s[2..][..k - 2];
        OnOneLineIs(s[2..], q, k - 2);
      }
    } else if k < |s| && s[0] != q && s[0] != '\n' && k > 0 {
      assert s[..k][1..] == s[1..][..k - 1];
      OnOneLineIs(s[1..], q, k - 1);
    }
  }

  /** The first place of `end` in `s` is `k`. */
  ghost predicate FirstAt(s: string, end: string, k: nat) {
    k <= |s| && end <= s[k..] && forall j: nat :: j < k ==> !(end <= s[j..])
  }

  lemma {:induction false} CommentEndIs(s: string, k: nat)
    ensures FirstAt(s, "*/", k) <==> CommentEnd(s) == Some(k)
  {
    hide FirstAt, CommentEnd;
    FirstOf(s, "*/", k);
    CommentEndHere(s);
    if |s| >= 2 && !("*/" <= s) && k > 0 {
      CommentEndIs(s[1..], k - 1);
      FirstLater(s, "*/", k);
    }
  }

  lemma CommentEndHere(s: string)
    ensures CommentEnd(s) == if |s| < 2 then None else if "*/" <= s then Some(0) else Shift(1, CommentEnd(s[1..]))
  {
    assert |s| >= 2 ==> ("*/" <= s <==> s[0] == '*' && s[1] == '/');
  }

  lemma {:induction false} BlockEndIs(s: string, k: nat)
    ensures FirstAt(s, "\"\"\"", k) <==> BlockEnd(s) == Some(k)
  {
    hide FirstAt, BlockEnd;
    FirstOf(s, "\"\"\"", k);
    BlockEndHereIs(s);
    if |s| >= 3 && !("\"\"\"" <= s) && k > 0 {
      BlockEndIs(s[1..], k - 1);
      FirstLater(s, "\"\"\"", k);
    }
  }

  lemma BlockEndHereIs(s: string)
    ensures BlockEnd(s) == if |s| < 3 then None else if "\"\"\"" <= s then Some(0) else Shift(1, BlockEnd(s[1..]))
  {
  }

  lemma FirstOf(s: string, end: string, k: nat)
    ensures |s| < |end| ==> !FirstAt(s, end, k)
    ensures end <= s ==> (FirstAt(s, end, k) <==> k == 0)
    ensures !(end <= s) ==> !FirstAt(s, end, 0)
  {
    assert s[0..] == s;
  }

  lemma FirstLater(s: string, end: string, k: nat)
    requires k > 0 && s != ""
    ensures FirstAt(s, end, k) <==> !(end <= s) && FirstAt(s[1..], end, k - 1)
  {
    assert s[0..] == s;
    assert k <= |s| ==> s[1..][k - 1..] == s[k..];
    if FirstAt(s, end, k) {
      forall j: nat | j < k - 1 ensures !(end <= s[1..][j..]) {
        assert s[1..][j..] == s[j + 1..];
      }
    }
    if !(end <= s) && FirstAt(s[1..], end, k - 1) {
      forall j: nat | j < k ensures !(end <= s[j..]) {
        assert j > 0 ==> s[1..][j - 1..] == s[j..];
      }
    }
  }

  // ---- what begins a text ------------------------------------------------

  /** The text begins with the token `t`, a comment. */
  ghost predicate IsComment(t: Token, s: string) {
    && Text(t) <= s
    && match t
       case LineComment(body) => '\n' !in body && (|body| + 2 < |s| ==> s[|body| + 2] == '\n')
       case BlockComment(body) => FirstAt(s[2..], "*/", |body|)
       case _ => false
  }

  ghost predicate IsTextBlock(t: Token, s: string) {
    t.TextBlock? && Text(t) <= s && FirstAt(s[3..], "\"\"\"", |t.body|)
  }

  ghost predicate IsLiteral(t: Token, s: string, lines: bool) {
    && t.Quoted? && Text(t) <= s && (t.q == '"' || t.q == '\'')
    && QuotedTo(s[1..], t.q, lines, |t.body|)
  }

  predicate OpensLiteral(s: string) {
    s != "" && (s[0] == '"' || s[0] == '\'')
  }

  lemma CommentLength(t: Token, s: string)
    requires IsComment(t, s)
    ensures t.LineComment? ==> "//" <= s && IndexOf(s, '\n') == |Text(t)|
    ensures t.BlockComment? ==> "/*" <= s && !("//" <= s) && CommentEnd(s[2..]) == Some(|Text(t)| - 4)
    ensures !OpensLiteral(s)
  {
    var n := |Text(t)|;
    assert s[0] == Text(t)[0] && s[1] == Text(t)[1];
    if t.LineComment? {
      assert s[..n] == Text(t);
    } else {
      CommentEndIs(s[2..], |t.body|);
    }
  }

  /** What comment a text begins with. */
  lemma CommentOf(s: string) returns (t: Token)
    requires "//" <= s || ("/*" <= s && CommentEnd(s[2..]).Some?)
    ensures IsComment(t, s)
  {
    if "//" <= s {
      var n := IndexOf(s, '\n');
      assert n >= 2 by {
        assert s[0] == '/' && s[1] == '/';
      }
      t := LineComment(s[2..n]);
      assert Text(t) == s[..n];
    } else {
      var k := CommentEnd(s[2..]).value;
      t := BlockComment(s[2..k + 2]);
      assert s[2..][k..k + 2] == "*/";
      assert Text(t) == s[..k + 4];
      CommentEndIs(s[2..], k);
    }
  }

  lemma TextBlockOf(s: string) returns (t: Token)
    requires "\"\"\"" <= s && BlockEnd(s[3..]).Some?
    ensures IsTextBlock(t, s)
  {
    var k := BlockEnd(s[3..]).value;
    t := TextBlock(s[3..k + 3]);
    assert s[..k + 6] == s[..3] + s[3..k + 3] + s[3..][k..k + 3];
    assert Text(t) == s[..3] + (s[3..k + 3] + s[3..][k..k + 3]);
    BlockEndIs(s[3..], k);
  }

  lemma LiteralOf(s: string, lines: bool, k: nat) returns (t: Token)
    requires OpensLiteral(s) && QuotedTo(s[1..], s[0], lines, k)
    ensures IsLiteral(t, s, lines)
  {
    t := Quoted(s[0], s[1..k + 1]);
    assert Text(t) == s[..k + 2];
  }

  // ---- taken apart by the stripping scanner ------------------------------

  /** What that scanner takes at the beginning of `s`. */
  ghost predicate StrippedAs(t: Token, s: string) {
    || IsComment(t, s) || IsTextBlock(t, s)
    || (IsLiteral(t, s, true) && !("\"\"\"" <= s))
    || (s != "" && t == Code(s[0]) && !OpensLiteral(s) && !("//" <= s) && !("/*" <= s))
  }

  /** A text block, a literal or a comment that does not end. */
  ghost predicate NeverEnds(s: string) {
    || ("\"\"\"" <= s && forall k: nat :: !FirstAt(s[3..], "\"\"\"", k))
    || (OpensLiteral(s) && !("\"\"\"" <= s) && forall k: nat :: !QuotedTo(s[1..], s[0], true, k))
    || ("/*" <= s && forall k: nat :: !FirstAt(s[2..], "*/", k))
  }

  /** `s` is the tokens `ts`, as that scanner takes them, and then `tail`, which never ends. */
  ghost predicate StripsInto(s: string, ts: seq<Token>, tail: string)
    decreases |ts|
  {
    if ts == [] then s == tail && (tail == "" || NeverEnds(tail))
    else Text(ts[0]) <= s && StrippedAs(ts[0], s) && StripsInto(s[|Text(ts[0])|..], ts[1..], tail)
  }

  lemma StripLength(t: Token, s: string)
    requires StrippedAs(t, s)
    ensures Text(t) <= s && TakenOut(s) == if t.Code? then 0 else |Text(t)|
    ensures t.Code? ==> t.c == s[0]
  {
    if IsComment(t, s) {
      CommentLength(t, s);
    } else if t.TextBlock? {
      BlockEndIs(s[3..], |t.body|);
      assert s[..3] == "\"\"\"" by {
        assert s[..3] == Text(t)[..3];
      }
    } else if t.Quoted? {
      assert s[0] == Text(t)[0];
      QuotedToIs(s[1..], t.q, |t.body|);
    }
  }

  lemma NeverEndsLength(s: string)
    requires NeverEnds(s)
    ensures s != "" && TakenOut(s) > 0 && From(s, TakenOut(s)) == ""
  {
    if "\"\"\"" <= s {
      if BlockEnd(s[3..]).Some? {
        BlockEndIs(s[3..], BlockEnd(s[3..]).value);
      }
    } else if OpensLiteral(s) {
      QuotedToIs(s[1..], s[0], ClosingQuote(s[1..], s[0]));
    } else {
      assert s[0] == '/' && s[1] == '*';
      if CommentEnd(s[2..]).Some? {
        CommentEndIs(s[2..], CommentEnd(s[2..]).value);
      }
    }
  }

  /** What is left is the code. */
  lemma {:induction false} WhatIsStripped(s: string, ts: seq<Token>, tail: string)
    requires StripsInto(s, ts, tail)
    ensures Stripped(s) == CodeOf(ts)
    decreases |ts|
  {
    hide TakenOut, NeverEnds, StrippedAs, Text;
    if ts == [] {
      if s != "" {
        NeverEndsLength(s);
      }
    } else {
      StripLength(ts[0], s);
      WhatIsStripped(s[|Text(ts[0])|..], ts[1..], tail);
      TextOfCode(s[0]);
    }
  }

  lemma StripToken(s: string) returns (t: Token)
    requires s != "" && !NeverEnds(s)
    ensures StrippedAs(t, s) && Text(t) <= s
  {
    hide Text, IsComment, IsTextBlock, IsLiteral;
    if "\"\"\"" <= s {
      var k: nat :| FirstAt(s[3..], "\"\"\"", k);
      BlockEndIs(s[3..], k);
      t := TextBlockOf(s);
    } else if OpensLiteral(s) {
      var k: nat :| QuotedTo(s[1..], s[0], true, k);
      t := LiteralOf(s, true, k);
    } else if "//" <= s {
      t := CommentOf(s);
    } else if "/*" <= s {
      var k: nat :| FirstAt(s[2..], "*/", k);
      CommentEndIs(s[2..], k);
      t := CommentOf(s);
    } else {
      t := Code(s[0]);
    }
    StripLength(t, s);
  }

  /** Every text is taken apart so. */
  lemma {:induction false} EveryTextStrips(s: string) returns (ts: seq<Token>, tail: string)
    ensures StripsInto(s, ts, tail)
    decreases |s|
  {
    hide NeverEnds, StrippedAs, Text;
    if s == "" || NeverEnds(s) {
      return [], s;
    }
    var t := StripToken(s);
    ts, tail := EveryTextStrips(s[|Text(t)|..]);
    ts := [t] + ts;
  }

  // ---- taken apart by the scanner of bodies ------------------------------

  /** What that scanner takes at the beginning of `s`: text blocks are nothing to it. */
  ghost predicate PassedAs(t: Token, s: string) {
    || IsComment(t, s) || IsLiteral(t, s, true)
    || (s != "" && t == Code(s[0]) && !OpensLiteral(s) && !("//" <= s) && !("/*" <= s))
  }

  ghost predicate NeverPassed(s: string) {
    || (OpensLiteral(s) && forall k: nat :: !QuotedTo(s[1..], s[0], true, k))
    || ("/*" <= s && forall k: nat :: !FirstAt(s[2..], "*/", k))
  }

  ghost predicate PassesInto(s: string, ts: seq<Token>, tail: string)
    decreases |ts|
  {
    if ts == [] then s == tail && (tail == "" || NeverPassed(tail))
    else Text(ts[0]) <= s && PassedAs(ts[0], s) && PassesInto(s[|Text(ts[0])|..], ts[1..], tail)
  }

  lemma PassLength(t: Token, s: string)
    requires PassedAs(t, s)
    ensures Text(t) <= s && s != ""
    ensures PassedOver(s) == if t.Code? then 0 else |Text(t)| + if t.LineComment? then 1 else 0
    ensures t.Code? ==> t.c == s[0]
    ensures t.LineComment? ==> var after := s[|Text(t)|..]; after == "" || after[0] == '\n'
  {
    if IsComment(t, s) {
      CommentLength(t, s);
    } else if t.Quoted? {
      assert s[0] == Text(t)[0];
      QuotedToIs(s[1..], t.q, |t.body|);
    }
  }

  lemma NeverPassedLength(s: string)
    requires NeverPassed(s)
    ensures s != "" && PassedOver(s) > 0 && From(s, PassedOver(s)) == ""
  {
    if OpensLiteral(s) {
      QuotedToIs(s[1..], s[0], ClosingQuote(s[1..], s[0]));
    } else {
      assert s[0] == '/' && s[1] == '*';
      if CommentEnd(s[2..]).Some? {
        CommentEndIs(s[2..], CommentEnd(s[2..]).value);
      }
    }
  }

  /** One token is passed over. */
  lemma BodyPast(t: Token, s: string, depth: int)
    requires PassedAs(t, s) && Text(t) <= s
    ensures BodyOffset(s, depth)
            == if t == Code('}') && depth == 1 then Some(0)
               else Shift(|Text(t)|, BodyOffset(s[|Text(t)|..], DepthAfter(t, depth)))
  {
    hide PassedOver, BodyOffset, PassedAs, Text;
    PassLength(t, s);
    BodyOnce(s, depth);
    var after := s[|Text(t)|..];
    if t.Code? {
      TextOfCode(t.c);
    } else if t.LineComment? {
      if after == "" {
        BodyOfNothing(depth);
      } else {
        assert From(s, |Text(t)| + 1) == after[1..];
        LineBreakNext(after, depth);
      }
    }
  }

  /** The body ends with the token that brings the depth back to zero, or never. */
  lemma {:induction false} WhereTheBodyEnds(s: string, ts: seq<Token>, tail: string, depth: int)
    requires PassesInto(s, ts, tail)
    ensures match ClosingToken(ts, depth)
            case None => BodyOffset(s, depth) == None
            case Some(n) => |Render(ts[..n])| > 0 && BodyOffset(s, depth) == Some(|Render(ts[..n])| - 1)
    decreases |ts|
  {
    hide BodyOffset, PassedOver, NeverPassed, PassedAs, Text;
    if ts == [] {
      BodyOfTail(s, depth);
    } else {
      var t := ts[0];
      BodyPast(t, s, depth);
      if t == Code('}') && depth == 1 {
        OneToken(ts);
      } else {
        WhereTheBodyEnds(s[|Text(t)|..], ts[1..], tail, DepthAfter(t, depth));
        var n := ClosingToken(ts[1..], DepthAfter(t, depth));
        if n.Some? {
          RenderMore(ts, n.value + 1);
          RenderSome(ts[1..][..n.value]);
          RenderSome(ts[..n.value + 1]);
        }
      }
    }
  }

  lemma BodyOfTail(s: string, depth: int)
    requires s == "" || NeverPassed(s)
    ensures BodyOffset(s, depth) == None
  {
    hide PassedOver, NeverPassed;
    if s != "" {
      NeverPassedLength(s);
      BodyOfNothing(depth);
    }
  }

  lemma PassToken(s: string) returns (t: Token)
    requires s != "" && !NeverPassed(s)
    ensures PassedAs(t, s) && Text(t) <= s
  {
    hide Text, IsComment, IsLiteral;
    if OpensLiteral(s) {
      var k: nat :| QuotedTo(s[1..], s[0], true, k);
      t := LiteralOf(s, true, k);
    } else if "//" <= s {
      t := CommentOf(s);
    } else if "/*" <= s {
      var k: nat :| FirstAt(s[2..], "*/", k);
      CommentEndIs(s[2..], k);
      t := CommentOf(s);
    } else {
      t := Code(s[0]);
    }
    PassLength(t, s);
  }

  lemma {:induction false} EveryTextPasses(s: string) returns (ts: seq<Token>, tail: string)
    ensures PassesInto(s, ts, tail)
    decreases |s|
  {
    hide NeverPassed, PassedAs, Text;
    if s == "" || NeverPassed(s) {
      return [], s;
    }
    var t := PassToken(s);
    ts, tail := EveryTextPasses(s[|Text(t)|..]);
    ts := [t] + ts;
  }

  // ---- taken apart by the blanking scanner -------------------------------

  /** What that scanner takes at the beginning of `s`. What never ends is no token of it, and
      its first character is left as it stands. */
  ghost predicate BlankedAs(t: Token, s: string) {
    || IsComment(t, s) || IsTextBlock(t, s)
    || (IsLiteral(t, s, false) && !IsOpenBlock(s))
    || (s != "" && t == Code(s[0]) && IsCode(s))
  }

  /** A text block that ends begins here. */
  ghost predicate IsOpenBlock(s: string) {
    "\"\"\"" <= s && exists k: nat :: FirstAt(s[3..], "\"\"\"", k)
  }

  ghost predicate IsCode(s: string) {
    && !("//" <= s)
    && ("/*" <= s ==> forall k: nat :: !FirstAt(s[2..], "*/", k))
    && ("\"\"\"" <= s ==> forall k: nat :: !FirstAt(s[3..], "\"\"\"", k))
    && (OpensLiteral(s) ==> forall k: nat :: !QuotedTo(s[1..], s[0], false, k))
  }

  ghost predicate BlanksInto(s: string, ts: seq<Token>)
    decreases |ts|
  {
    if ts == [] then s == ""
    else Text(ts[0]) <= s && BlankedAs(ts[0], s) && BlanksInto(s[|Text(ts[0])|..], ts[1..])
  }

  /** A token as it stands in the layer of the code: literals are left. */
  function CodeText(t: Token): string {
    if t.Quoted? then Text(t) else BareText(t)
  }

  function BareTexts(ts: seq<Token>): string {
    if ts == [] then "" else BareText(ts[0]) + BareTexts(ts[1..])
  }

  function CodeTexts(ts: seq<Token>): string {
    if ts == [] then "" else CodeText(ts[0]) + CodeTexts(ts[1..])
  }

  lemma BlankMatch(t: Token, s: string)
    requires BlankedAs(t, s)
    ensures Text(t) <= s && s != ""
    ensures t.Code? ==> t.c == s[0]
    ensures MatchAt(s) == match t
              case Code(_) => None
              case LineComment(_) => Some(Match(|Text(t)|, 0, true))
              case BlockComment(_) => Some(Match(|Text(t)|, 0, true))
              case TextBlock(_) => Some(Match(|Text(t)|, 3, true))
              case Quoted(_, _) => Some(Match(|Text(t)|, 1, false))
  {
    if IsComment(t, s) {
      CommentLength(t, s);
    } else if t.TextBlock? {
      BlockEndIs(s[3..], |t.body|);
      assert s[..3] == Text(t)[..3];
    } else if t.Quoted? {
      assert s[0] == Text(t)[0];
      OnOneLineIs(s[1..], t.q, |t.body|);
      if "\"\"\"" <= s && BlockEnd(s[3..]).Some? {
        BlockEndIs(s[3..], BlockEnd(s[3..]).value);
      }
    } else {
      NoMatch(s);
    }
  }

  lemma NoMatch(s: string)
    requires s != "" && IsCode(s)
    ensures MatchAt(s) == None
  {
    if "/*" <= s && CommentEnd(s[2..]).Some? {
      CommentEndIs(s[2..], CommentEnd(s[2..]).value);
    }
    if "\"\"\"" <= s && BlockEnd(s[3..]).Some? {
      BlockEndIs(s[3..], BlockEnd(s[3..]).value);
    }
    if OpensLiteral(s) && LiteralEnd(s[1..], s[0]).Some? {
      OnOneLineIs(s[1..], s[0], LiteralEnd(s[1..], s[0]).value - 1);
    }
  }

  lemma HollowToken(t: Token, s: string)
    requires Text(t) <= s && !t.Code?
    ensures var n, edge := |Text(t)|, if t.Quoted? then 1 else if t.TextBlock? then 3 else 0;
            2 * edge <= n && Hollow(s, Match(n, edge, !t.Quoted?)) == BareText(t)
  {
    hide Blanked, Hollow;
    var n := |Text(t)|;
    var after := s[n..];
    assert s == Text(t) + after;
    TextIs(t);
    match t
    case LineComment(_) => HollowAll(s, n);
    case BlockComment(_) => HollowAll(s, n);
    case Quoted(q, body) => HollowQuoted(q, body, after);
    case TextBlock(body) => HollowBlock(body, after);
  }

  /** Each token is blanked, whole or but for its quotes, or left. */
  lemma {:induction false} WhatTheLayersAre(s: string, ts: seq<Token>)
    requires BlanksInto(s, ts)
    ensures Bare(s) == BareTexts(ts) && CodeOnly(s) == CodeTexts(ts)
    decreases |ts|
  {
    hide MatchAt, Hollow, Bare, CodeOnly, BareText, BlankedAs, Text;
    if ts == [] {
      LayersNone();
    } else {
      var t := ts[0];
      var n := |Text(t)|;
      BlankMatch(t, s);
      WhatTheLayersAre(s[n..], ts[1..]);
      BareAt(s);
      CodeOnlyAt(s);
      if t.Code? {
        TextOfCode(t.c);
        BareCode(t);
      } else {
        HollowToken(t, s);
        assert s[..n] == Text(t);
      }
    }
  }

  lemma BareCode(t: Token)
    requires t.Code?
    ensures BareText(t) == [t.c]
  {
  }

  lemma BlankToken(s: string) returns (t: Token)
    requires s != ""
    ensures BlankedAs(t, s) && Text(t) <= s
  {
    hide Text, IsComment, IsTextBlock, IsLiteral;
    if "//" <= s || ("/*" <= s && CommentEnd(s[2..]).Some?) {
      t := CommentOf(s);
    } else if "\"\"\"" <= s && BlockEnd(s[3..]).Some? {
      t := TextBlockOf(s);
    } else {
      NoEnds(s);
      if OpensLiteral(s) && LiteralEnd(s[1..], s[0]).Some? {
        var k: nat := LiteralEnd(s[1..], s[0]).value - 1;
        OnOneLineIs(s[1..], s[0], k);
        t := LiteralOf(s, false, k);
      } else {
        t := Code(s[0]);
      }
    }
    BlankMatch(t, s);
  }

  lemma NoEnds(s: string)
    ensures "/*" <= s && CommentEnd(s[2..]).None? ==> forall k: nat :: !FirstAt(s[2..], "*/", k)
    ensures "\"\"\"" <= s && BlockEnd(s[3..]).None? ==> forall k: nat :: !FirstAt(s[3..], "\"\"\"", k)
    ensures OpensLiteral(s) && LiteralEnd(s[1..], s[0]).None? ==> forall k: nat :: !QuotedTo(s[1..], s[0], false, k)
  {
    forall k: nat
      ensures "/*" <= s && CommentEnd(s[2..]).None? ==> !FirstAt(s[2..], "*/", k)
      ensures "\"\"\"" <= s && BlockEnd(s[3..]).None? ==> !FirstAt(s[3..], "\"\"\"", k)
      ensures OpensLiteral(s) && LiteralEnd(s[1..], s[0]).None? ==> !QuotedTo(s[1..], s[0], false, k)
    {
      if "/*" <= s {
        CommentEndIs(s[2..], k);
      }
      if "\"\"\"" <= s {
        BlockEndIs(s[3..], k);
      }
      if OpensLiteral(s) {
        OnOneLineIs(s[1..], s[0], k);
      }
    }
  }

  lemma {:induction false} EveryTextBlanks(s: string) returns (ts: seq<Token>)
    ensures BlanksInto(s, ts)
    decreases |s|
  {
    hide BlankedAs, Text;
    if s == "" {
      return [];
    }
    var t := BlankToken(s);
    ts := EveryTextBlanks(s[|Text(t)|..]);
    ts := [t] + ts;
  }

  // ---- where braces balance ----------------------------------------------

  /** The depth after the code `s`. */
  ghost function Depth(s: string, depth: int): int {
    depth + multiset(s)['{'] - multiset(s)['}']
  }

  lemma DepthMore(c: char, s: string, depth: int)
    ensures Depth([c] + s, depth) == Depth(s, DepthAfter(Code(c), depth))
  {
    assert multiset([c] + s) == multiset{c} + multiset(s);
  }

  /** The `}` at `k` is the first that brings the depth to zero. */
  ghost predicate ClosesAt(s: string, depth: int, k: nat) {
    && k < |s| && s[k] == '}' && Depth(s[..k], depth) == 1
    && forall j: nat :: j < k && s[j] == '}' ==> Depth(s[..j], depth) != 1
  }

  lemma ClosesLater(s: string, depth: int, k: nat)
    requires s != "" && k > 0 && !(s[0] == '}' && depth == 1)
    ensures ClosesAt(s, depth, k) <==> ClosesAt(s[1..], DepthAfter(Code(s[0]), depth), k - 1)
  {
    hide Depth;
    var deeper := DepthAfter(Code(s[0]), depth);
    assert s[..0] == "";
    assert Depth("", depth) == depth by {
      DepthNone(depth);
    }
    forall j: nat | 0 < j < |s| ensures Depth(s[..j], depth) == Depth(s[1..][..j - 1], deeper) {
      assert s[..j] == [s[0]] + s[1..][..j - 1];
      DepthMore(s[0], s[1..][..j - 1], depth);
    }
    if ClosesAt(s, depth, k) {
      forall j: nat | j < k - 1 && s[1..][j] == '}' ensures Depth(s[1..][..j], deeper) != 1 {
        assert s[j + 1] == '}';
      }
    }
    if ClosesAt(s[1..], deeper, k - 1) {
      forall j: nat | j < k && s[j] == '}' ensures Depth(s[..j], depth) != 1 {
        assert j > 0 ==> s[1..][j - 1] == '}';
      }
    }
  }

  lemma DepthNone(depth: int)
    ensures Depth("", depth) == depth
  {
  }

  lemma ClosesOnce(s: string, depth: int)
    requires s != "" && s[0] == '}' && depth == 1
    ensures forall k: nat :: ClosesAt(s, depth, k) <==> k == 0
  {
    assert s[..0] == "";
    assert ClosesAt(s, depth, 0);
  }

  /** The scanner of the blanked text ends right after that brace, or with the text. */
  lemma {:induction false} ClosedIs(s: string, depth: int, k: nat)
    ensures ClosesAt(s, depth, k) ==> Closed(s, depth) == k + 1
    ensures (forall j: nat :: !ClosesAt(s, depth, j)) ==> Closed(s, depth) == |s|
  {
    hide ClosesAt;
    if s == "" {
      NothingCloses(s, depth, k);
    } else if s[0] == '}' && depth == 1 {
      ClosesOnce(s, depth);
      assert ClosesAt(s, depth, 0);
    } else {
      var deeper := DepthAfter(Code(s[0]), depth);
      NothingCloses(s, depth, 0);
      forall j: nat | j > 0 ensures ClosesAt(s, depth, j) <==> ClosesAt(s[1..], deeper, j - 1) {
        ClosesLater(s, depth, j);
      }
      ClosedIs(s[1..], deeper, if k > 0 then k - 1 else 0);
      if forall j: nat :: !ClosesAt(s, depth, j) {
        forall j: nat ensures !ClosesAt(s[1..], deeper, j) {
          assert !ClosesAt(s, depth, j + 1);
        }
      }
    }
  }

  lemma NothingCloses(s: string, depth: int, k: nat)
    ensures s == "" ==> !ClosesAt(s, depth, k)
    ensures s != "" && !(s[0] == '}' && depth == 1) ==> !ClosesAt(s, depth, 0)
  {
    assert s != "" ==> s[..0] == "";
  }

  /** So does the first token to close among tokens: it is a brace, and the code before it
      brings the depth to one, and that of no brace before it. */
  lemma {:induction false} ClosingTokenIs(ts: seq<Token>, depth: int)
    ensures match ClosingToken(ts, depth)
            case None => forall k: nat :: k < |ts| && ts[k] == Code('}') ==> Depth(CodeOf(ts[..k]), depth) != 1
            case Some(n) =>
              && ts[n - 1] == Code('}') && Depth(CodeOf(ts[..n - 1]), depth) == 1
              && forall k: nat :: k < n - 1 && ts[k] == Code('}') ==> Depth(CodeOf(ts[..k]), depth) != 1
  {
    hide Depth;
    DepthNone(depth);
    if ts != [] {
      assert CodeOf(ts[..0]) == "";
      if !(ts[0] == Code('}') && depth == 1) {
        var deeper := DepthAfter(ts[0], depth);
        ClosingTokenIs(ts[1..], deeper);
        forall k: nat | 0 < k <= |ts| ensures Depth(CodeOf(ts[..k]), depth) == Depth(CodeOf(ts[1..][..k - 1]), deeper) {
          assert ts[..k][0] == ts[0] && ts[..k][1..] == ts[1..][..k - 1];
          DepthToken(ts[0], CodeOf(ts[1..][..k - 1]), depth);
        }
        forall k: nat | 0 < k < |ts| ensures ts[k] == ts[1..][k - 1] {
        }
      }
    }
  }

  lemma DepthToken(t: Token, code: string, depth: int)
    ensures Depth((if t.Code? then [t.c] else "") + code, depth) == Depth(code, DepthAfter(t, depth))
  {
    hide Depth;
    if t.Code? {
      DepthMore(t.c, code, depth);
    } else {
      assert "" + code == code;
    }
  }
}
