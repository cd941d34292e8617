/** On Java text whose comments and literals are terminated, with no line break inside a
    literal, the three scanners find the same end of a body, unless the body scanner, which
    knows no text blocks, is disturbed by one. */
module ScannersAgree {
  import opened JavaScanners
  import opened Wrappers

  // ---- the text as tokens ------------------------------------------------

  datatype Token =
    | Code(c: char)
    | LineComment(body: string)
    | BlockComment(body: string)
    | Quoted(q: char, body: string)
    | TextBlock(body: string)

  function Text(t: Token): (s: string)
    ensures s != ""
  {
    match t
    case Code(c) => [c]
    case LineComment(body) => "//" + body
    case BlockComment(body) => "/*" + (body + "*/")
    case Quoted(q, body) => [q] + (body + [q])
    case TextBlock(body) => "\"\"\"" + (body + "\"\"\"")
  }

  function Render(ts: seq<Token>): string {
    if ts == [] then "" else Text(ts[0]) + Render(ts[1..])
  }

  /** The inside of a literal: no line break, no unescaped quote, no escape cut off. */
  predicate Escaped(body: string, q: char) {
    if body == "" then true
    else if body[0] == '\\' then |body| >= 2 && body[1] != '\n' && Escaped(body[2..], q)
    else body[0] != q && body[0] != '\n' && Escaped(body[1..], q)
  }

  /** `after` is the text that follows the token. */
  predicate Proper(t: Token, after: string) {
    match t
    case Code(c) => c != '"' && c != '\'' && (c == '/' ==> after == "" || (after[0] != '/' && after[0] != '*'))
    case LineComment(body) => '\n' !in body && (after == "" || after[0] == '\n')
    case BlockComment(body) => CommentEnd(body + "*/") == Some(|body|)
    case Quoted(q, body) =>
      && (q == '"' || q == '\'') && Escaped(body, q)
      && (q == '"' && body == "" ==> after == "" || after[0] != '"')
    case TextBlock(body) => BlockEnd(body + "\"\"\"") == Some(|body|)
  }

  predicate Tokens(ts: seq<Token>) {
    ts == [] || (Proper(ts[0], Render(ts[1..])) && Tokens(ts[1..]))
  }

  /** The characters that are code. */
  function CodeOf(ts: seq<Token>): string {
    if ts == [] then "" else (if ts[0].Code? then [ts[0].c] else "") + CodeOf(ts[1..])
  }

  function DepthAfter(t: Token, depth: int): int {
    if t == Code('{') then depth + 1 else if t == Code('}') then depth - 1 else depth
  }

  /** How many tokens there are up to the `}` that brings `depth` back to zero. */
  function ClosingToken(ts: seq<Token>, depth: int): (n: Option<nat>)
    ensures n.Some? ==> 0 < n.value <= |ts|
  {
    if ts == [] then None
    else if ts[0] == Code('}') && depth == 1 then Some(1)
    else Shift(1, ClosingToken(ts[1..], DepthAfter(ts[0], depth)))
  }

  /** Inside a body the scanner of bodies passes over `s` as over nothing: it stops at a brace
      right after it. */
  predicate SeenOver(s: string) {
    BodyOffset(s + "}", 1) == Some(|s|)
  }

  /** So it does over every text block up to the token that brings `depth` back to zero. */
  predicate Undisturbed(ts: seq<Token>, depth: int) {
    ts == []
    || ((ts[0].TextBlock? ==> SeenOver(Text(ts[0])))
        && ((ts[0] == Code('}') && depth == 1) || Undisturbed(ts[1..], DepthAfter(ts[0], depth))))
  }

  // ---- one token at a time -----------------------------------------------

  lemma {:induction false} QuoteCloses(body: string, q: char, after: string)
    requires Escaped(body, q) && q != '\\' && q != '\n'
    ensures ClosingQuote(body + ([q] + after), q) == |body|
    ensures LiteralEnd(body + ([q] + after), q) == Some(|body| + 1)
  {
    var s := body + ([q] + after);
    if body == "" {
      assert s == [q] + after;
    } else if body[0] == '\\' {
      assert From(s, 2) == s[2..] == body[2..] + ([q] + after);
      QuoteCloses(body[2..], q, after);
    } else {
      assert s[1..] == body[1..] + ([q] + after);
      QuoteCloses(body[1..], q, after);
    }
  }

  lemma {:induction false} CommentCloses(body: string, after: string)
    requires CommentEnd(body + "*/") == Some(|body|)
    ensures CommentEnd(body + ("*/" + after)) == Some(|body|)
  {
    var s, t := body + ("*/" + after), body + "*/";
    if body != "" {
      assert s[1..] == body[1..] + ("*/" + after) && t[1..] == body[1..] + "*/";
      assert s[0] == t[0] && s[1] == t[1];
      CommentCloses(body[1..], after);
    }
  }

  lemma {:induction false} LineEnds(body: string, after: string)
    requires '\n' !in body && (after == "" || after[0] == '\n')
    ensures IndexOf(body + after, '\n') == |body|
  {
    if body == "" {
      assert body + after == after;
    } else {
      assert (body + after)[1..] == body[1..] + after;
      LineEnds(body[1..], after);
    }
  }

  /** Both ways of passing a token over, and the match the blanking scanner makes of it. */
  lemma TokenPassed(t: Token, after: string)
    requires Proper(t, after)
    ensures var s := Text(t) + after;
            match t
            case Code(_) => PassedOver(s) == 0 && TakenOut(s) == 0 && MatchAt(s) == None
            case LineComment(_) =>
              PassedOver(s) == |Text(t)| + 1 && TakenOut(s) == |Text(t)| && MatchAt(s) == Some(Match(|Text(t)|, 0, true))
            case BlockComment(_) =>
              PassedOver(s) == TakenOut(s) == |Text(t)| && MatchAt(s) == Some(Match(|Text(t)|, 0, true))
            case Quoted(_, _) =>
              PassedOver(s) == TakenOut(s) == |Text(t)| && MatchAt(s) == Some(Match(|Text(t)|, 1, false))
            case TextBlock(_) =>
              TakenOut(s) == |Text(t)| && MatchAt(s) == Some(Match(|Text(t)|, 3, true))
  {
    hide ClosingQuote, LiteralEnd, CommentEnd, IndexOf, BlockEnd;
    match t
    case Code(c) => CodePassed(c, after);
    case LineComment(body) => LinePassed(body, after);
    case BlockComment(body) => BlockPassed(body, after);
    case Quoted(q, body) => QuotedPassed(q, body, after);
    case TextBlock(body) => TextBlockPassed(body, after);
  }

  lemma TextBlockPassed(body: string, after: string)
    requires Proper(TextBlock(body), after)
    ensures var s, n := "\"\"\"" + (body + "\"\"\"") + after, |body| + 6;
            TakenOut(s) == n && MatchAt(s) == Some(Match(n, 3, true))
  {
    hide TakenOut, MatchAt, BlockEnd;
    var s := "\"\"\"" + (body + "\"\"\"") + after;
    BlockCloses(body, after);
    assert s[3..] == body + ("\"\"\"" + after);
    assert s[..3] == "\"\"\"";
    BlockTaken(s, |body|);
  }

  lemma BlockTaken(s: string, k: nat)
    requires "\"\"\"" <= s && BlockEnd(s[3..]) == Some(k)
    ensures TakenOut(s) == k + 6 && MatchAt(s) == Some(Match(k + 6, 3, true))
  {
    hide ClosingQuote, LiteralEnd, CommentEnd, IndexOf, BlockEnd;
    assert s[0] == "\"\"\""[0];
    NotComment(s);
  }

  lemma {:induction false} BlockCloses(body: string, after: string)
    requires BlockEnd(body + "\"\"\"") == Some(|body|)
    ensures BlockEnd(body + ("\"\"\"" + after)) == Some(|body|)
  {
    var s, t := body + ("\"\"\"" + after), body + "\"\"\"";
    if body == "" {
      assert s[..3] == "\"\"\"";
    } else {
      assert s[1..] == body[1..] + ("\"\"\"" + after) && t[1..] == body[1..] + "\"\"\"";
      assert s[..3] == t[..3];
      BlockCloses(body[1..], after);
    }
  }

  // ---- a text block in the body scanner ----------------------------------

  lemma {:induction false} QuoteStays(s: string, x: string, y: string, q: char)
    requires ClosingQuote(s + x, q) < |s|
    ensures ClosingQuote(s + y, q) == ClosingQuote(s + x, q)
    decreases |s|
  {
    if s[0] == '\\' {
      if |s| > 1 {
        assert From(s + x, 2) == s[2..] + x && From(s + y, 2) == s[2..] + y;
        QuoteStays(s[2..], x, y, q);
      }
    } else if s[0] != q {
      assert (s + x)[1..] == s[1..] + x && (s + y)[1..] == s[1..] + y;
      QuoteStays(s[1..], x, y, q);
    }
  }

  lemma {:induction false} IndexStays(s: string, x: string, y: string, c: char)
    requires IndexOf(s + x, c) < |s|
    ensures IndexOf(s + y, c) == IndexOf(s + x, c)
  {
    if s[0] != c {
      assert (s + x)[1..] == s[1..] + x && (s + y)[1..] == s[1..] + y;
      IndexStays(s[1..], x, y, c);
    }
  }

  lemma {:induction false} CommentStays(s: string, x: string, y: string)
    requires CommentEnd(s + x).Some? && CommentEnd(s + x).value + 2 <= |s|
    ensures CommentEnd(s + y) == CommentEnd(s + x)
  {
    if !(s[0] == '*' && s[1] == '/') {
      assert (s + x)[1..] == s[1..] + x && (s + y)[1..] == s[1..] + y;
      CommentStays(s[1..], x, y);
    }
  }

  /** What is passed over inside `s` is passed over whatever follows. */
  lemma PassedStays(s: string, x: string, y: string)
    requires |s| > 1 && PassedOver(s + x) <= |s|
    ensures PassedOver(s + y) == PassedOver(s + x)
  {
    hide ClosingQuote, IndexOf, CommentEnd;
    var u, v := s + x, s + y;
    assert u[0] == v[0] == s[0] && u[1..] == s[1..] + x && v[1..] == s[1..] + y;
    assert u[2..] == s[2..] + x && v[2..] == s[2..] + y;
    assert u[..2] == v[..2] == s[..2];
    assert "//" <= u <==> "//" <= v;
    assert "/*" <= u <==> "/*" <= v;
    if s[0] == '"' || s[0] == '\'' {
      QuoteStays(s[1..], x, y, s[0]);
    } else if "//" <= u {
      IndexStays(s, x, y, '\n');
    } else if "/*" <= u && CommentEnd(u[2..]).Some? {
      CommentStays(s[2..], x, y);
    }
  }

  /** Text that ends with a quote and is passed over before a brace at depth `depth` is passed
      over before anything, and `more` levels deeper too. */
  lemma {:induction false} OverAtAnyDepth(s: string, after: string, depth: int, more: nat)
    requires depth >= 1 && (s == "" || s[|s| - 1] == '"')
    requires BodyOffset(s + "}", depth) == Some(|s|)
    ensures BodyOffset(s + after, depth + more) == Shift(|s|, BodyOffset(after, 1 + more))
    decreases |s|
  {
    hide BodyOffset, PassedOver;
    var u, v := s + "}", s + after;
    BodyOnce(u, depth);
    if s == "" {
      assert u == "}" && v == after;
      OnlyBrace(depth);
      ShiftNone(BodyOffset(after, 1 + more));
    } else {
      BodyOnce(v, depth + more);
      var k := PassedOver(u);
      InsideText(s, depth);
      PassedStays(s, "}", after);
      if k > 0 {
        assert From(u, k) == s[k..] + "}" && From(v, k) == s[k..] + after;
        OverAtAnyDepth(s[k..], after, depth, more);
      } else {
        assert u[0] == v[0] == s[0] && u[1..] == s[1..] + "}" && v[1..] == s[1..] + after;
        OverAtAnyDepth(s[1..], after, DepthAfter(Code(s[0]), depth), more);
      }
    }
  }

  lemma OnlyBrace(depth: int)
    requires BodyOffset("}", depth) == Some(0)
    ensures depth == 1
  {
  }

  /** Such text has no literal or comment that reaches beyond it. */
  lemma InsideText(s: string, depth: int)
    requires s != "" && s[|s| - 1] == '"' && BodyOffset(s + "}", depth) == Some(|s|)
    ensures |s| > 1 && PassedOver(s + "}") <= |s|
  {
    hide PassedOver;
    var u := s + "}";
    BodyOnce(u, depth);
    if |s| == 1 {
      QuoteAndBrace(s);
    }
  }

  lemma QuoteAndBrace(s: string)
    requires s == "\""
    ensures PassedOver(s + "}") > 1
  {
    assert (s + "}")[1..] == "}";
  }

  /** Exactly then a text block inside a body disturbs nothing, at any depth. */
  lemma BlockBody(body: string, after: string, depth: int)
    requires SeenOver(Text(TextBlock(body))) && depth >= 1
    ensures BodyOffset(Text(TextBlock(body)) + after, depth) == Shift(|body| + 6, BodyOffset(after, depth))
  {
    hide BodyOffset;
    var s := Text(TextBlock(body));
    assert s[|s| - 1] == '"';
    OverAtAnyDepth(s, after, 1, depth - 1);
  }

  /** And exactly then the body scanner ends a body that holds nothing but the block where the
      others do, at its last brace. */
  lemma OneBlockExactly(body: string)
    ensures var b := [Code('{'), TextBlock(body), Code('}')];
            BodyOffset(Render(b), 0) == Some(|Render(b)| - 1) <==> SeenOver(Text(TextBlock(body)))
  {
    hide BodyOffset;
    var t, b := Text(TextBlock(body)), [Code('{'), TextBlock(body), Code('}')];
    assert b[1..] == [TextBlock(body), Code('}')] && b[1..][1..] == [Code('}')] && b[1..][1..][1..] == [];
    assert Render([Code('}')]) == "}";
    assert Render(b[1..]) == t + "}";
    assert Render(b) == "{" + (t + "}");
    assert Render(b)[1..] == t + "}";
    BodyOpens(Render(b), 0);
  }

  // ---- blocks that disturb nothing ----------------------------------------

  /** Text that the body scanner reads as code and passes over with nothing to count. */
  predicate IsDull(s: string) {
    forall k :: 0 <= k < |s| ==> s[k] != '"' && s[k] != '\'' && s[k] != '/' && s[k] != '{' && s[k] != '}'
  }

  /** The body of a text block that does not disturb the body scanner: no backslash, quotes in
      pairs, and between the two of a pair, which that scanner takes for code, dull text. */
  predicate Quiet(body: string)
    decreases |body|
  {
    && '\\' !in body
    && var k := IndexOf(body, '"');
       k == |body|
       || (var rest := body[k + 1..];
           var j := IndexOf(rest, '"');
           j < |rest| && IsDull(rest[..j]) && Quiet(rest[j + 1..]))
  }

  lemma {:induction false} QuoteFirst(body: string, after: string)
    requires '"' !in body && '\\' !in body
    ensures ClosingQuote(body + (['"'] + after), '"') == |body|
  {
    var s := body + (['"'] + after);
    if body == "" {
      assert s == ['"'] + after;
    } else {
      assert s[0] == body[0] && body[0] in body && s[1..] == body[1..] + (['"'] + after);
      assert forall k :: 0 <= k < |body[1..]| ==> body[1..][k] in body;
      QuoteFirst(body[1..], after);
    }
  }

  /** A literal without quotes or backslashes inside is passed over whole. */
  lemma LiteralPassed(body: string, after: string, depth: int)
    requires '"' !in body && '\\' !in body
    ensures BodyOffset(['"'] + (body + (['"'] + after)), depth) == Shift(|body| + 2, BodyOffset(after, depth))
  {
    hide ClosingQuote, BodyOffset;
    var s := ['"'] + (body + (['"'] + after));
    assert s[1..] == body + (['"'] + after);
    QuoteFirst(body, after);
    QuoteOver(s, |body| + 2);
    BodyOnce(s, depth);
    assert From(s, |body| + 2) == after;
  }

  lemma QuoteOver(s: string, k: nat)
    requires s != "" && s[0] == '"' && ClosingQuote(s[1..], '"') + 2 == k
    ensures PassedOver(s) == k
  {
  }

  lemma {:induction false} DullPassed(s: string, after: string, depth: int)
    requires IsDull(s)
    ensures BodyOffset(s + after, depth) == Shift(|s|, BodyOffset(after, depth))
  {
    hide BodyOffset, PassedOver;
    if s == "" {
      assert s + after == after;
      ShiftNone(BodyOffset(after, depth));
    } else {
      var t := s + after;
      assert t[0] == s[0] && t[1..] == s[1..] + after;
      DullHere(t);
      BodyOnce(t, depth);
      DullPassed(s[1..], after, depth);
    }
  }

  lemma ShiftNone(r: Option<nat>)
    ensures Shift(0, r) == r
  {
  }

  lemma DullHere(t: string)
    requires t != "" && t[0] != '"' && t[0] != '\'' && t[0] != '/' && t[0] != '{' && t[0] != '}'
    ensures PassedOver(t) == 0 && DepthAfter(Code(t[0]), 0) == 0
  {
  }

  /** From the third quote of the block on. */
  lemma {:induction false} BlockInside(body: string, after: string, depth: int)
    requires Quiet(body)
    ensures BodyOffset(['"'] + (body + ("\"\"\"" + after)), depth) == Shift(|body| + 4, BodyOffset(after, depth))
    decreases |body|
  {
    hide BodyOffset, Quiet, IndexOf, IsDull;
    if '"' !in body {
      NoBackslash(body);
      assert "\"\"\"" + after == ['"'] + (['"'] + ("" + (['"'] + after)));
      LiteralPassed(body, ['"'] + ("" + (['"'] + after)), depth);
      LiteralPassed("", after, depth);
    } else {
      var x, y, z := QuietParts(body);
      var end := "\"\"\"" + after;
      var tail := ['"'] + (z + end);
      Regrouped(x, y, z, end);
      LiteralPassed(x, y + tail, depth);
      DullPassed(y, tail, depth);
      BlockInside(z, after, depth);
    }
  }

  lemma NoBackslash(body: string)
    requires Quiet(body)
    ensures '\\' !in body
  {
  }

  lemma Regrouped(x: string, y: string, z: string, end: string)
    ensures x + (['"'] + (y + (['"'] + z))) + end == x + (['"'] + (y + (['"'] + (z + end))))
  {
  }

  lemma Cut(s: string, k: nat)
    requires k < |s| && s[k] == '"'
    ensures s == s[..k] + (['"'] + s[k + 1..])
  {
  }

  lemma QuietParts(body: string) returns (x: string, y: string, z: string)
    requires Quiet(body) && '"' in body
    ensures body == x + (['"'] + (y + (['"'] + z))) && IsDull(y) && Quiet(z) && '"' !in x && '\\' !in x
    ensures |z| < |body|
  {
    hide IndexOf, IsDull;
    var k := IndexOf(body, '"');
    assert k < |body| by {
      assert body[..|body|] == body;
    }
    x := body[..k];
    var rest := body[k + 1..];
    var j := IndexOf(rest, '"');
    y, z := rest[..j], rest[j + 1..];
    Cut(body, k);
    Cut(rest, j);
  }

  /** Quiet blocks disturb nothing. */
  lemma QuietIsSeenOver(body: string)
    requires Quiet(body)
    ensures SeenOver(Text(TextBlock(body)))
  {
    hide BodyOffset, Quiet;
    var inside := ['"'] + (body + ("\"\"\"" + "}"));
    assert "\"\"\"" + (body + "\"\"\"") + "}" == ['"'] + ("" + (['"'] + inside));
    LiteralPassed("", inside, 1);
    BlockInside(body, "}", 1);
    BodyCloses("}");
  }

  lemma CodePassed(c: char, after: string)
    requires Proper(Code(c), after)
    ensures var s := [c] + after; PassedOver(s) == 0 && TakenOut(s) == 0 && MatchAt(s) == None
  {
    hide ClosingQuote, LiteralEnd, CommentEnd, IndexOf, BlockEnd;
    var s := [c] + after;
    NoStart(s, "//");
    NoStart(s, "/*");
    NoStart(s, "\"\"\"");
  }

  /** A text begins with `p` only when their first two characters are the same. */
  lemma NoStart(s: string, p: string)
    requires |p| >= 2 && s != ""
    ensures p <= s ==> |s| > 1 && s[0] == p[0] && s[1] == p[1]
  {
  }

  lemma LinePassed(body: string, after: string)
    requires Proper(LineComment(body), after)
    ensures var s, n := "//" + body + after, |body| + 2;
            PassedOver(s) == n + 1 && TakenOut(s) == n && MatchAt(s) == Some(Match(n, 0, true))
  {
    var s := "//" + body + after;
    LineEnds("//" + body, after);
    hide ClosingQuote, LiteralEnd, CommentEnd, IndexOf, BlockEnd;
    assert "//" <= s;
  }

  lemma BlockPassed(body: string, after: string)
    requires Proper(BlockComment(body), after)
    ensures var s, n := "/*" + (body + "*/") + after, |body| + 4;
            PassedOver(s) == TakenOut(s) == n && MatchAt(s) == Some(Match(n, 0, true))
  {
    var s := "/*" + (body + "*/") + after;
    assert s[2..] == body + ("*/" + after);
    CommentCloses(body, after);
    hide ClosingQuote, LiteralEnd, CommentEnd, IndexOf, BlockEnd;
    assert "/*" <= s;
    assert s[0] == '/' && s[1] == '*';
    NoStart(s, "//");
    NoStart(s, "\"\"\"");
  }

  lemma QuotedPassed(q: char, body: string, after: string)
    requires Proper(Quoted(q, body), after)
    ensures var s, n := [q] + (body + [q]) + after, |body| + 2;
            PassedOver(s) == TakenOut(s) == n && MatchAt(s) == Some(Match(n, 1, false))
  {
    var s := [q] + (body + [q]) + after;
    assert s[1..] == body + ([q] + after);
    QuoteCloses(body, q, after);
    NoTextBlock(q, body, after);
    hide ClosingQuote, LiteralEnd, CommentEnd, IndexOf, BlockEnd;
  }

  lemma NoTextBlock(q: char, body: string, after: string)
    requires Proper(Quoted(q, body), after)
    ensures !("\"\"\"" <= [q] + (body + [q]) + after)
  {
    var s := [q] + (body + [q]) + after;
    if body == "" {
      assert s == [q, q] + after;
      var three := "\"\"\"";
      assert s[0] == q && (after != "" ==> s[2] == after[0]) && three[0] == three[2] == '"';
    } else {
      assert s[0] == q && s[1] == body[0];
      NoStart(s, "\"\"\"");
    }
  }

  // ---- whole texts -------------------------------------------------------

  lemma {:induction false} StrippedIsCode(ts: seq<Token>)
    requires Tokens(ts)
    ensures Stripped(Render(ts)) == CodeOf(ts)
  {
    hide TakenOut, MatchAt, PassedOver, Text;
    if ts != [] {
      var after := Render(ts[1..]);
      TokenPassed(ts[0], after);
      StrippedIsCode(ts[1..]);
      var s := Text(ts[0]) + after;
      assert s[|Text(ts[0])|..] == after;
      if ts[0].Code? {
        TextOfCode(ts[0].c);
        assert s[1..] == after;
      } else {
        assert From(s, TakenOut(s)) == after;
      }
    }
  }

  lemma TextOfCode(c: char)
    ensures Text(Code(c)) == [c]
  {
  }

  /** A token as the blanking scanner leaves it: no brace but the code's own. */
  function BareText(t: Token): string {
    match t
    case Code(c) => [c]
    case LineComment(_) => Blanked(Text(t))
    case BlockComment(_) => Blanked(Text(t))
    case Quoted(q, body) => [q] + Blanked(body) + [q]
    case TextBlock(body) => "\"\"\"" + Blanked(body) + "\"\"\""
  }

  lemma BareToken(t: Token, after: string)
    requires Proper(t, after)
    ensures Bare(Text(t) + after) == BareText(t) + Bare(after)
    ensures |BareText(t)| == |Text(t)|
  {
    hide MatchAt, PassedOver, TakenOut, Bare, Hollow, Blanked, Text, Proper;
    TokenPassed(t, after);
    var s := Text(t) + after;
    assert s[|Text(t)|..] == after && s[..|Text(t)|] == Text(t);
    TextIs(t);
    BareAt(s);
    match t
    case Code(c) =>
      assert s[0] == c && s[1..] == after;
    case LineComment(_) =>
      HollowAll(s, |Text(t)|);
    case BlockComment(_) =>
      HollowAll(s, |Text(t)|);
    case Quoted(q, body) =>
      HollowQuoted(q, body, after);
    case TextBlock(body) =>
      HollowBlock(body, after);
  }

  lemma TextIs(t: Token)
    ensures Text(t) != ""
    ensures t.Code? ==> Text(t) == [t.c]
    ensures t.Quoted? ==> Text(t) == [t.q] + t.body + [t.q]
    ensures t.TextBlock? ==> Text(t) == "\"\"\"" + t.body + "\"\"\""
  {
  }

  lemma BareAt(s: string)
    requires s != ""
    ensures MatchAt(s).None? ==> Bare(s) == [s[0]] + Bare(s[1..])
    ensures MatchAt(s).Some? ==> Bare(s) == Hollow(s, MatchAt(s).value) + Bare(s[MatchAt(s).value.len..])
  {
    hide MatchAt, Hollow;
  }

  lemma HollowQuoted(q: char, body: string, after: string)
    ensures Hollow([q] + body + [q] + after, Match(|body| + 2, 1, false)) == [q] + Blanked(body) + [q]
  {
    hide Blanked, Hollow;
    var m := Match(|body| + 2, 1, false);
    QuotedParts(q, body, after);
    HollowIs([q] + body + [q] + after, m);
  }

  lemma QuotedParts(q: char, body: string, after: string)
    ensures var s, n := [q] + body + [q] + after, |body| + 2;
            s[..1] == [q] && s[1..n - 1] == body && s[n - 1..n] == [q]
  {
    var s, n := [q] + body + [q] + after, |body| + 2;
    assert s[0] == q && s[n - 1] == q;
    assert forall k :: 0 <= k < |body| ==> s[1 + k] == body[k];
  }

  lemma HollowBlock(body: string, after: string)
    ensures Hollow("\"\"\"" + body + "\"\"\"" + after, Match(|body| + 6, 3, true)) == "\"\"\"" + Blanked(body) + "\"\"\""
  {
    hide Blanked, Hollow;
    var m := Match(|body| + 6, 3, true);
    BlockPieces(body, after);
    HollowIs("\"\"\"" + body + "\"\"\"" + after, m);
  }

  lemma BlockPieces(body: string, after: string)
    ensures var s, n := "\"\"\"" + body + "\"\"\"" + after, |body| + 6;
            s[..3] == "\"\"\"" && s[3..n - 3] == body && s[n - 3..n] == "\"\"\""
  {
    var s, n := "\"\"\"" + body + "\"\"\"" + after, |body| + 6;
    assert forall k :: 0 <= k < |body| ==> s[3 + k] == body[k];
    assert s[n - 3] == s[n - 2] == s[n - 1] == '"';
  }

  lemma HollowAll(s: string, n: nat)
    requires n <= |s|
    ensures Hollow(s, Match(n, 0, true)) == Blanked(s[..n])
  {
  }

  /** Text without braces leaves the depth as it is. */
  lemma {:induction false} NoBraces(s: string, after: string, depth: int)
    requires '{' !in s && '}' !in s
    ensures Closed(s + after, depth) == |s| + Closed(after, depth)
  {
    if s == "" {
      assert s + after == after;
    } else {
      assert (s + after)[1..] == s[1..] + after;
      NoBraces(s[1..], after, depth);
    }
  }

  lemma BareHasNoBrace(t: Token)
    requires !t.Code? && (t.Quoted? ==> t.q == '"' || t.q == '\'')
    ensures '{' !in BareText(t) && '}' !in BareText(t)
  {
  }

  /** Where a body that starts at depth `depth` ends, for all three: after the token that
      closes it, or never. */
  ghost predicate EndsAlike(ts: seq<Token>, depth: int) {
    match ClosingToken(ts, depth)
    case None => BodyOffset(Render(ts), depth) == None && Closed(Bare(Render(ts)), depth) == |Render(ts)|
    case Some(n) =>
      && |Render(ts[..n])| > 0
      && BodyOffset(Render(ts), depth) == Some(|Render(ts[..n])| - 1)
      && Closed(Bare(Render(ts)), depth) == |Render(ts[..n])|
  }

  lemma RenderMore(ts: seq<Token>, n: nat)
    requires 0 < n <= |ts|
    ensures |Render(ts[..n])| == |Text(ts[0])| + |Render(ts[1..][..n - 1])|
  {
    assert ts[..n][1..] == ts[1..][..n - 1];
  }

  /** One step of the body's scan. */
  lemma BodyOnce(s: string, depth: int)
    requires s != ""
    ensures var k := PassedOver(s);
            BodyOffset(s, depth) ==
              if k > 0 then Shift(k, BodyOffset(From(s, k), depth))
              else if s[0] == '}' && depth == 1 then Some(0)
              else Shift(1, BodyOffset(s[1..], DepthAfter(Code(s[0]), depth)))
  {
    hide PassedOver;
  }

  lemma BodyToken(t: Token, after: string, depth: int)
    requires Proper(t, after) && (t.TextBlock? ==> SeenOver(Text(t)) && depth >= 1)
    ensures BodyOffset(Text(t) + after, depth)
            == if t == Code('}') && depth == 1 then Some(0)
               else Shift(|Text(t)|, BodyOffset(after, DepthAfter(t, depth)))
  {
    hide MatchAt, PassedOver, TakenOut, BodyOffset, Proper;
    if t.TextBlock? {
      BlockBody(t.body, after, depth);
      return;
    }
    TokenPassed(t, after);
    var s := Text(t) + after;
    BodyOnce(s, depth);
    if t.LineComment? {
      AfterLine(t, after);
    }
    assert s[|Text(t)|..] == after;
    if t.LineComment? {
      if after == "" {
        assert From(s, |Text(t)| + 1) == "";
        BodyOfNothing(depth);
      } else {
        assert From(s, |Text(t)| + 1) == after[1..];
        LineBreakNext(after, depth);
      }
    } else if !t.Code? {
      assert From(s, |Text(t)|) == after;
    }
  }

  lemma AfterLine(t: Token, after: string)
    requires Proper(t, after) && t.LineComment?
    ensures after == "" || after[0] == '\n'
  {
  }

  lemma BodyOfNothing(depth: int)
    ensures BodyOffset("", depth) == None
  {
  }

  lemma LineBreakNext(after: string, depth: int)
    requires after == "" || after[0] == '\n'
    ensures BodyOffset(after, depth) == if after == "" then None else Shift(1, BodyOffset(after[1..], depth))
  {
    if after != "" {
      NoStart(after, "//");
      NoStart(after, "/*");
    }
  }

  lemma ClosedToken(t: Token, after: string, depth: int)
    requires t.Quoted? ==> t.q == '"' || t.q == '\''
    ensures Closed(BareText(t) + after, depth)
            == if t == Code('}') && depth == 1 then 1 else |BareText(t)| + Closed(after, DepthAfter(t, depth))
  {
    if t.Code? {
      assert ([t.c] + after)[1..] == after;
    } else {
      BareHasNoBrace(t);
      NoBraces(BareText(t), after, depth);
    }
  }

  lemma {:induction false} AllEndAlike(ts: seq<Token>, depth: int)
    requires Tokens(ts) && Undisturbed(ts, depth) && (depth >= 1 || (depth == 0 && ts != [] && ts[0] == Code('{')))
    ensures EndsAlike(ts, depth)
  {
    hide Text, Bare, BareText, Closed, BodyOffset, Proper, SeenOver;
    NothingLeft(depth);
    if ts != [] {
      var t, more := ts[0], ts[1..];
      var after, deeper := Render(more), DepthAfter(t, depth);
      BodyToken(t, after, depth);
      BareToken(t, after);
      QuoteKind(t, after);
      ClosedToken(t, Bare(after), depth);
      if t == Code('}') && depth == 1 {
        OneToken(ts);
      } else {
        AllEndAlike(more, deeper);
        var n := ClosingToken(more, deeper);
        if n.Some? {
          RenderMore(ts, n.value + 1);
        }
      }
    }
  }

  lemma NothingLeft(depth: int)
    ensures BodyOffset("", depth) == None && Bare("") == "" && Closed("", depth) == 0
  {
  }

  lemma QuoteKind(t: Token, after: string)
    requires Proper(t, after)
    ensures t.Quoted? ==> t.q == '"' || t.q == '\''
  {
  }

  lemma OneToken(ts: seq<Token>)
    requires ts != [] && ts[0].Code?
    ensures |Render(ts[..1])| == 1
  {
    assert ts[..1] == [ts[0]] && [ts[0]][1..] == [];
    assert Render([ts[0]]) == Text(ts[0]) + Render([]);
  }

  // ---- the three together ------------------------------------------------

  /** The offset just past the `}` of `s` that brings the depth back to zero; None when none does. */
  function FirstClose(s: string, depth: int): Option<nat> {
    if s == "" then None
    else if s[0] == '}' && depth == 1 then Some(1)
    else Shift(1, FirstClose(s[1..], DepthAfter(Code(s[0]), depth)))
  }

  lemma {:induction false} CodeCloses(ts: seq<Token>, depth: int)
    ensures FirstClose(CodeOf(ts), depth)
            == match ClosingToken(ts, depth) case None => None case Some(n) => Some(|CodeOf(ts[..n])|)
  {
    if ts != [] {
      var t, more := ts[0], ts[1..];
      CodeCloses(more, DepthAfter(t, depth));
      var n := ClosingToken(ts, depth);
      if n.Some? {
        assert ts[..n.value][0] == t && ts[..n.value][1..] == more[..n.value - 1];
        assert |CodeOf(ts[..n.value])| == (if t.Code? then 1 else 0) + |CodeOf(more[..n.value - 1])|;
      }
      if t.Code? {
        assert CodeOf(ts)[0] == t.c && CodeOf(ts)[1..] == CodeOf(more);
        assert t == Code(CodeOf(ts)[0]);
        assert more[..0] == [];
      } else {
        assert CodeOf(ts) == CodeOf(more);
      }
    }
  }

  lemma {:induction false} Later(a: seq<Token>, b: seq<Token>)
    requires Tokens(a + b)
    ensures Tokens(b) && Render(a + b) == Render(a) + Render(b) && CodeOf(a + b) == CodeOf(a) + CodeOf(b)
    ensures Bare(Render(a + b))[|Render(a)|..] == Bare(Render(b))
  {
    hide Text, Proper, Bare, BareText, Render, CodeOf;
    if a == [] {
      assert a + b == b;
      RenderNothing();
      assert "" + Render(b) == Render(b) && "" + CodeOf(b) == CodeOf(b);
    } else {
      assert (a + b)[0] == a[0] && (a + b)[1..] == a[1..] + b;
      Later(a[1..], b);
      assert a == [a[0]] + a[1..] && a + b == [a[0]] + (a[1..] + b);
      RenderOne(a[0], a[1..]);
      RenderOne(a[0], a[1..] + b);
      var t, after, more := a[0], Render(a[1..] + b), Render(a[1..]);
      BareToken(t, after);
      assert Text(t) + (more + Render(b)) == Text(t) + more + Render(b);
      CodeParts(t, CodeOf(a[1..]), CodeOf(b));
      DropOf(BareText(t), Bare(after), |more|);
    }
  }

  lemma RenderNothing()
    ensures Render([]) == "" && CodeOf([]) == ""
  {
  }

  lemma RenderOne(t: Token, more: seq<Token>)
    ensures Render([t] + more) == Text(t) + Render(more)
    ensures CodeOf([t] + more) == CodePart(t) + CodeOf(more)
  {
    hide Text;
    assert ([t] + more)[1..] == more;
    assert "" + CodeOf(more) == CodeOf(more);
  }

  function CodePart(t: Token): string {
    if t.Code? then [t.c] else ""
  }

  lemma CodeParts(t: Token, a: string, b: string)
    ensures CodePart(t) + (a + b) == CodePart(t) + a + b
  {
  }

  /** For the `{` after the tokens `a`: the body scanner, the brace depth of the stripped text
      and the brace depth of the blanked text all end at the same token, or all never, when no
      text block up to there disturbs the first. */
  lemma ThreeAgree(a: seq<Token>, b: seq<Token>)
    requires Tokens(a + b) && b != [] && b[0] == Code('{') && Undisturbed(b, 0)
    ensures var text, start := Render(a + b), |Render(a)|;
            && start < |text| && Stripped(text) == CodeOf(a) + CodeOf(b)
            && match ClosingToken(b, 0)
               case None =>
                 && BodyOffset(text[start..], 0) == None && FirstClose(CodeOf(b), 0) == None
                 && Closed(Bare(text)[start..], 0) == |text| - start
               case Some(n) =>
                 var size := |Render(b[..n])|;
                 && 0 < size <= |text| - start
                 && BodyOffset(text[start..], 0) == Some(size - 1)
                 && FirstClose(CodeOf(b), 0) == Some(|CodeOf(b[..n])|)
                 && Closed(Bare(text)[start..], 0) == size
  {
    hide Text, Proper, Bare, Closed, BodyOffset, Stripped, ClosingToken, Undisturbed;
    Later(a, b);
    StrippedIsCode(a + b);
    AllEndAlike(b, 0);
    CodeCloses(b, 0);
    assert Render(a + b)[|Render(a)|..] == Render(b);
    assert b == [b[0]] + b[1..];
    RenderSome(b);
  }

  lemma RenderSome(b: seq<Token>)
    requires b != []
    ensures Render(b) != ""
  {
  }

  /** Neither layer moves anything: each character is kept or blanked, and every line break,
      and no other character, is a line break -- on any text at all. */
  lemma {:induction false} LayersKeepPlaces(s: string)
    ensures |Bare(s)| == |CodeOnly(s)| == |s|
    ensures forall k :: 0 <= k < |s| ==> Bare(s)[k] == s[k] || (Bare(s)[k] == ' ' && s[k] != '\n')
    ensures forall k :: 0 <= k < |s| ==> CodeOnly(s)[k] == s[k] || (CodeOnly(s)[k] == ' ' && s[k] != '\n')
    decreases |s|
  {
    hide MatchAt, Hollow, Bare, CodeOnly;
    if s != "" {
      BareAt(s);
      CodeOnlyAt(s);
      match MatchAt(s)
      case None =>
        LayersKeepPlaces(s[1..]);
      case Some(m) =>
        var rest := s[m.len..];
        LayersKeepPlaces(rest);
        HollowKeeps(s, m);
        KeptAfter(s, m.len, Hollow(s, m), Bare(rest));
        KeptAfter(s, m.len, if m.payload then Hollow(s, m) else s[..m.len], CodeOnly(rest));
    }
  }

  lemma CodeOnlyAt(s: string)
    requires s != ""
    ensures MatchAt(s).None? ==> CodeOnly(s) == [s[0]] + CodeOnly(s[1..])
    ensures MatchAt(s).Some? ==>
              var m := MatchAt(s).value;
              CodeOnly(s) == (if m.payload then Hollow(s, m) else s[..m.len]) + CodeOnly(s[m.len..])
  {
    hide MatchAt, Hollow;
  }

  lemma KeptAfter(s: string, n: nat, a: string, b: string)
    requires n == |a| <= |s| && |b| == |s| - n
    requires forall k :: 0 <= k < n ==> a[k] == s[k] || (a[k] == ' ' && s[k] != '\n')
    requires var rest := s[n..]; forall k :: 0 <= k < |rest| ==> b[k] == rest[k] || (b[k] == ' ' && rest[k] != '\n')
    ensures forall k :: 0 <= k < |s| ==> (a + b)[k] == s[k] || ((a + b)[k] == ' ' && s[k] != '\n')
  {
    var rest := s[n..];
    forall k | n <= k < |s| ensures (a + b)[k] == s[k] || ((a + b)[k] == ' ' && s[k] != '\n') {
      assert (a + b)[k] == b[k - n] && s[k] == rest[k - n];
    }
  }

  lemma HollowKeeps(s: string, m: Match)
    requires 2 * m.edge <= m.len <= |s|
    ensures forall k :: 0 <= k < m.len ==> Hollow(s, m)[k] == s[k] || (Hollow(s, m)[k] == ' ' && s[k] != '\n')
  {
  }

  // ---- text blocks -------------------------------------------------------

  /** A body that holds a text block with a quote and a brace in it. */
  const BLOCK := "{\"\"\"a\"}\"\"\"}"

  lemma BlockParts()
    ensures |BLOCK| == 11 && BLOCK[0] == '{' && BLOCK[4] == 'a' && BLOCK[6] == '}' && BLOCK[10] == '}'
    ensures forall k :: k == 1 || k == 2 || k == 3 || k == 5 || k == 7 || k == 8 || k == 9 ==> BLOCK[k] == '"'
  {
  }

  lemma PassQuote(s: string, k: nat, depth: int)
    requires 2 <= k <= |s| && s[0] == '"' && ClosingQuote(s[1..], '"') + 2 == k
    ensures BodyOffset(s, depth) == Shift(k, BodyOffset(s[k..], depth))
  {
  }

  lemma NothingPassed(s: string)
    requires s != "" && (s[0] == '{' || s[0] == '}')
    ensures PassedOver(s) == 0 && TakenOut(s) == 0 && MatchAt(s) == None
  {
  }

  lemma BodyEndsInBlock()
    ensures BodyOffset(BLOCK, 0) == Some(6)
  {
    BlockParts();
    hide ClosingQuote, BodyOffset, PassedOver;
    var s := BLOCK;
    BodyOpens(s, 0);
    var s1 := s[1..];
    assert s1[1..] == s[2..] && s1[2..] == s[3..];
    QuoteNow(s[2..]);
    PassQuote(s1, 2, 1);
    var s3 := s[3..];
    assert s3[1..] == s[4..] && s3[3..] == s[6..];
    QuoteNext(s[4..]);
    PassQuote(s3, 3, 1);
    BodyCloses(s[6..]);
  }

  lemma BodyOpens(s: string, depth: int)
    requires s != "" && s[0] == '{'
    ensures BodyOffset(s, depth) == Shift(1, BodyOffset(s[1..], depth + 1))
  {
    NothingPassed(s);
  }

  lemma BodyCloses(s: string)
    requires s != "" && s[0] == '}'
    ensures BodyOffset(s, 1) == Some(0)
  {
    NothingPassed(s);
  }

  lemma QuoteNow(s: string)
    requires s != "" && s[0] == '"'
    ensures ClosingQuote(s, '"') == 0
  {
  }

  lemma QuoteNext(s: string)
    requires |s| > 1 && s[0] == 'a' && s[1] == '"'
    ensures ClosingQuote(s, '"') == 1
  {
  }

  /** The block as the other two scanners see it, from its first quote on. */
  lemma BlockIsOne()
    ensures TakenOut(BLOCK[1..]) == 9 && MatchAt(BLOCK[1..]) == Some(Match(9, 3, true))
  {
    BlockParts();
    var s := BLOCK[1..];
    var r := s[3..];
    assert r == BLOCK[4..];
    assert "\"\"\"" <= s by {
      assert s[..3] == "\"\"\"";
    }
    BlockEndAt(r);
    NotComment(s);
  }

  lemma NotComment(s: string)
    requires |s| > 1 && s[0] == '"'
    ensures !("//" <= s) && !("/*" <= s)
  {
  }

  lemma BlockEndAt(r: string)
    requires |r| > 5 && r[0] == 'a' && r[1] == '"' && r[2] == '}' && r[3] == r[4] == r[5] == '"'
    ensures BlockEnd(r) == Some(3)
  {
    assert r[1..][1..] == r[2..] && r[2..][1..] == r[3..];
    assert r[3..][..3] == "\"\"\"";
    hide BlockEnd;
    BlockEndHere(r[3..]);
    BlockEndLater(r[2..], r[3..], 0);
    BlockEndLater(r[1..], r[2..], 1);
    BlockEndLater(r, r[1..], 2);
  }

  lemma BlockEndLater(s: string, rest: string, k: nat)
    requires |s| >= 3 && (s[0] != '"' || s[1] != '"' || s[2] != '"')
    requires rest == s[1..] && BlockEnd(rest) == Some(k)
    ensures BlockEnd(s) == Some(k + 1)
  {
    assert s[..3] != "\"\"\"" by {
      assert s[..3][0] == s[0] && s[..3][1] == s[1] && s[..3][2] == s[2];
    }
  }

  lemma BlockEndHere(s: string)
    requires |s| >= 3 && s[..3] == "\"\"\""
    ensures BlockEnd(s) == Some(0)
  {
  }

  /** Where they part: the body scanner knows no text blocks and ends at the brace inside the
      block; the others end at the brace after it. */
  lemma TextBlocksPartThem()
    ensures BodyOffset(BLOCK, 0) == Some(6) && FirstClose(Stripped(BLOCK), 0) == Some(2) && |Stripped(BLOCK)| == 2
    ensures Closed(Bare(BLOCK), 0) == |BLOCK| == 11
  {
    BodyEndsInBlock();
    BlockParts();
    BlockIsOne();
    StrippedBlock();
    BareBlock();
  }

  lemma StrippedBlock()
    requires TakenOut(BLOCK[1..]) == 9
    ensures |Stripped(BLOCK)| == 2 && FirstClose(Stripped(BLOCK), 0) == Some(2)
  {
    BlockParts();
    hide TakenOut, BLOCK;
    var s := BLOCK;
    NothingPassed(s);
    assert s[1..][9..] == s[10..] && s[10..][1..] == "";
    NothingPassed(s[10..]);
    assert Stripped(s[10..]) == "}" + Stripped("");
    assert Stripped(s[1..]) == "}";
    assert Stripped(s) == "{}";
    assert "{}"[1..] == "}" && "}"[1..] == "";
  }

  lemma BareBlock()
    requires MatchAt(BLOCK[1..]) == Some(Match(9, 3, true))
    ensures Closed(Bare(BLOCK), 0) == 11
  {
    BlockParts();
    hide MatchAt, Hollow, BLOCK, Bare, Closed;
    var s, m := BLOCK, Match(9, 3, true);
    var t := s[1..];
    NothingPassed(s);
    BareAt(s);
    BareAt(t);
    assert t[9..] == s[10..] && s[10..][1..] == "";
    NothingPassed(s[10..]);
    BareAt(s[10..]);
    BareNothing();
    assert Bare(s[10..]) == "}";
    assert forall k :: 0 <= k < 3 || 6 <= k < 9 ==> t[k] == '"';
    BlockHollow(t);
    NoBraces(Hollow(t, m), "}", 1);
    ClosesHere();
    assert Bare(s)[0] == '{' && Bare(s)[1..] == Hollow(t, m) + "}";
    OpensHere(Bare(s));
  }

  lemma BareNothing()
    ensures Bare("") == ""
  {
  }

  lemma ClosesHere()
    ensures Closed("}", 1) == 1
  {
  }

  lemma OpensHere(s: string)
    requires s != "" && s[0] == '{'
    ensures Closed(s, 0) == 1 + Closed(s[1..], 1)
  {
  }

  lemma BlockHollow(t: string)
    requires |t| >= 9 && forall k :: 0 <= k < 3 || 6 <= k < 9 ==> t[k] == '"'
    ensures '{' !in Hollow(t, Match(9, 3, true)) && '}' !in Hollow(t, Match(9, 3, true))
  {
    hide Blanked, Hollow;
    HollowIs(t, Match(9, 3, true));
    var h := Hollow(t, Match(9, 3, true));
    forall k | 0 <= k < 9 ensures h[k] != '{' && h[k] != '}' {
      assert k < 3 ==> h[k] == t[k];
      assert 3 <= k < 6 ==> h[k] == Blanked(t[3..6])[k - 3];
      assert 6 <= k ==> h[k] == t[k];
    }
  }
}
