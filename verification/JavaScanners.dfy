/** Three scanners of Java text that were written apart: one finds the end of a body,
    one takes literals and comments out, one blanks them in place. */
module JavaScanners {
  import opened Wrappers

  // ---- pieces of the text ------------------------------------------------

  function From(s: string, k: nat): string {
    if k <= |s| then s[k..] else ""
  }

  /** Where the literal that `q` opened ends: the offset of its closing quote in what
      follows the opening one; past the end when there is none. */
  function ClosingQuote(s: string, q: char): nat
    decreases |s|
  {
    if s == "" then 0
    else if s[0] == '\\' then 2 + ClosingQuote(From(s, 2), q)
    else if s[0] == q then 0
    else 1 + ClosingQuote(s[1..], q)
  }

  /** The first `c`, or the length when there is none. */
  function IndexOf(s: string, c: char): (k: nat)
    ensures k <= |s| && c !in s[..k] && (k < |s| ==> s[k] == c)
  {
    if s == "" || s[0] == c then 0 else 1 + IndexOf(s[1..], c)
  }

  /** The first `*` that a `/` follows; None when there is none. */
  function CommentEnd(s: string): (k: Option<nat>)
    ensures k.Some? ==> k.value + 2 <= |s| && s[k.value] == '*' && s[k.value + 1] == '/'
  {
    if |s| < 2 then None
    else if s[0] == '*' && s[1] == '/' then Some(0)
    else match CommentEnd(s[1..]) case Some(k) => Some(k + 1) case None => None
  }

  /** The first `"""`. */
  function BlockEnd(s: string): (k: Option<nat>)
    ensures k.Some? ==> k.value + 3 <= |s| && s[k.value..k.value + 3] == "\"\"\""
  {
    if |s| < 3 then None
    else if s[..3] == "\"\"\"" then Some(0)
    else match BlockEnd(s[1..]) case Some(k) => Some(k + 1) case None => None
  }

  // ---- the end of a body -------------------------------------------------

  /** How much of `s`, at a literal or a comment, is passed over; 0 at anything else and
      more than there is when it never ends. */
  function PassedOver(s: string): nat
    requires s != ""
  {
    if s[0] == '"' || s[0] == '\'' then ClosingQuote(s[1..], s[0]) + 2
    else if "//" <= s then IndexOf(s, '\n') + 1
    else if "/*" <= s then
      match CommentEnd(s[2..]) case Some(k) => k + 4 case None => |s| + 1
    else 0
  }

  /** The offset of the `}` that brings `depth` back to zero. */
  function BodyOffset(s: string, depth: int): Option<nat>
    decreases |s|
  {
    if s == "" then None
    else
      var k := PassedOver(s);
      if k > 0 then Shift(k, BodyOffset(From(s, k), depth))
      else if s[0] == '{' then Shift(1, BodyOffset(s[1..], depth + 1))
      else if s[0] == '}' then if depth == 1 then Some(0) else Shift(1, BodyOffset(s[1..], depth - 1))
      else Shift(1, BodyOffset(s[1..], depth))
  }

  function Shift(k: nat, r: Option<nat>): Option<nat> {
    if r.Some? then Some(r.value + k) else None
  }

  /** From the quote at `i` to the one that closes its literal. */
  method ToClosingQuote(text: string, i: nat) returns (j: nat)
    requires i < |text|
    ensures j == i + 1 + ClosingQuote(text[i + 1..], text[i])
  {
    var q, n := text[i], |text|;
    j := i + 1;
    while j < n
      invariant i < j
      invariant j + ClosingQuote(From(text, j), q) == i + 1 + ClosingQuote(text[i + 1..], q)
      decreases n - j
    {
      assert From(text, j) == text[j..] && From(From(text, j), 2) == From(text, j + 2);
      if text[j] == '\\' {
        j := j + 2;
        continue;
      }
      if text[j] == q {
        break;
      }
      assert From(text, j)[1..] == From(text, j + 1);
      j := j + 1;
    }
  }

  /** How far the literal or the comment at `i` is passed over; 0 when there is none. */
  method Pass(text: string, i: nat) returns (k: nat)
    requires i < |text|
    ensures k == PassedOver(text[i..])
  {
    hide ClosingQuote, IndexOf, CommentEnd;
    var c := text[i];
    ghost var s := text[i..];
    assert s[1..] == text[i + 1..];
    if c == '"' || c == '\'' {
      var j := ToClosingQuote(text, i);
      k := j + 1 - i;
    } else if c == '/' && i + 1 < |text| && text[i + 1] == '/' {
      k := IndexOf(text[i..], '\n') + 1;
    } else if c == '/' && i + 1 < |text| && text[i + 1] == '*' {
      assert s[2..] == text[i + 2..];
      var j := CommentEnd(text[i + 2..]);
      k := if j.Some? then j.value + 4 else |text| - i + 1;
    } else {
      k := 0;
    }
  }

  /** The text between the `{` at `start` and its `}`; "" when it never closes. */
  method BalancedBody(text: string, start: nat) returns (body: string, end: Option<nat>)
    requires start < |text|
    ensures end == Shift(start, BodyOffset(text[start..], 0))
    ensures end.Some? ==> start <= end.value < |text| && body == if end.value > start then text[start + 1..end.value] else ""
    ensures end.None? ==> body == ""
  {
    hide PassedOver, BodyOffset, Shift;
    ghost var goal := Shift(start, BodyOffset(text[start..], 0));
    var depth, i, n := 0, start, |text|;
    while i < n
      invariant start <= i
      invariant goal == Shift(i, BodyOffset(From(text, i), depth))
      decreases n - i
    {
      var c := text[i];
      var k := Pass(text, i);
      BodyStep(text, i, depth);
      if k > 0 {
        i := i + k;
      } else if c == '{' {
        depth, i := depth + 1, i + 1;
      } else if c == '}' {
        depth := depth - 1;
        if depth == 0 {
          return if i > start then text[start + 1..i] else "", Some(i);
        }
        i := i + 1;
      } else {
        i := i + 1;
      }
    }
    BodyNone(text, i, depth);
    body, end := "", None;
  }

  /** One step of the body's scan, at `i` of the whole text. */
  lemma BodyStep(text: string, i: nat, depth: int)
    requires i < |text|
    ensures var s, here := text[i..], Shift(i, BodyOffset(From(text, i), depth));
            var k := PassedOver(s);
            if k > 0 then here == Shift(i + k, BodyOffset(From(text, i + k), depth))
            else if s[0] == '{' then here == Shift(i + 1, BodyOffset(From(text, i + 1), depth + 1))
            else if s[0] == '}' then
              here == if depth == 1 then Some(i) else Shift(i + 1, BodyOffset(From(text, i + 1), depth - 1))
            else here == Shift(i + 1, BodyOffset(From(text, i + 1), depth))
  {
    hide PassedOver;
    var s := text[i..];
    assert From(s, PassedOver(s)) == From(text, i + PassedOver(s));
    assert s[1..] == From(text, i + 1);
  }

  lemma BodyNone(text: string, i: nat, depth: int)
    requires i >= |text|
    ensures Shift(i, BodyOffset(From(text, i), depth)) == None
  {
  }

  // ---- literals and comments taken out -----------------------------------

  /** How much of `s`, at a literal or a comment, is taken out; 0 at anything else. A line
      comment's line break stays; a text block is taken out whole. */
  function TakenOut(s: string): nat
    requires s != ""
  {
    if "\"\"\"" <= s then
      match BlockEnd(s[3..]) case Some(k) => k + 6 case None => |s|
    else if s[0] == '"' || s[0] == '\'' then ClosingQuote(s[1..], s[0]) + 2
    else if "//" <= s then IndexOf(s, '\n')
    else if "/*" <= s then
      match CommentEnd(s[2..]) case Some(k) => k + 4 case None => |s|
    else 0
  }

  function Stripped(s: string): string
    decreases |s|
  {
    if s == "" then ""
    else if TakenOut(s) > 0 then Stripped(From(s, TakenOut(s)))
    else [s[0]] + Stripped(s[1..])
  }

  method TakeOut(text: string, i: nat) returns (k: nat)
    requires i < |text|
    ensures k == TakenOut(text[i..])
  {
    hide ClosingQuote, IndexOf, CommentEnd, BlockEnd;
    var c := text[i];
    ghost var s := text[i..];
    assert s[1..] == text[i + 1..];
    if "\"\"\"" <= text[i..] {
      assert s[3..] == text[i + 3..];
      var j := BlockEnd(text[i + 3..]);
      k := if j.Some? then j.value + 6 else |text| - i;
    } else if c == '"' || c == '\'' {
      var j := ToClosingQuote(text, i);
      k := j + 1 - i;
    } else if "//" <= text[i..] {
      k := IndexOf(text[i..], '\n');
    } else if "/*" <= text[i..] {
      assert s[2..] == text[i + 2..];
      var j := CommentEnd(text[i + 2..]);
      k := if j.Some? then j.value + 4 else |text| - i;
    } else {
      k := 0;
    }
  }

  /** The source without its literals and comments, so that brace counting is honest. */
  method StripLiterals(src: string) returns (out: string)
    ensures out == Stripped(src)
  {
    hide TakenOut, Stripped;
    out := "";
    var i, n := 0, |src|;
    assert From(src, 0) == src;
    while i < n
      invariant out + Stripped(From(src, i)) == Stripped(src)
      decreases n - i
    {
      var k := TakeOut(src, i);
      StripStep(src, i);
      if k > 0 {
        i := i + k;
      } else {
        out := out + [src[i]];
        i := i + 1;
      }
    }
    StripNone(src, i);
    assert out + "" == out;
  }

  lemma StripStep(src: string, i: nat)
    requires i < |src|
    ensures var k := TakenOut(src[i..]);
            Stripped(From(src, i)) == if k > 0 then Stripped(From(src, i + k)) else [src[i]] + Stripped(From(src, i + 1))
  {
    hide TakenOut;
    var s := src[i..];
    assert From(s, TakenOut(s)) == From(src, i + TakenOut(s));
    assert s[1..] == From(src, i + 1);
  }

  lemma StripNone(src: string, i: nat)
    requires i >= |src|
    ensures Stripped(From(src, i)) == ""
  {
  }

  // ---- literals and comments blanked -------------------------------------

  /** A literal in `q` quotes on one line, as far as its closing quote; None when the line
      ends first. */
  function LiteralEnd(s: string, q: char): (k: Option<nat>)
    ensures k.Some? ==> 0 < k.value <= |s|
    decreases |s|
  {
    if s == "" || s[0] == '\n' then None
    else if s[0] == q then Some(1)
    else if s[0] == '\\' then
      if |s| < 2 then None else Plus(2, LiteralEnd(s[2..], q))
    else Plus(1, LiteralEnd(s[1..], q))
  }

  function Plus(k: nat, r: Option<nat>): Option<nat> {
    match r case Some(v) => Some(v + k) case None => None
  }

  /** What a match of the token pattern covers: its length, how much of either end is kept,
      and whether it is blanked in the code as well. */
  datatype Match = Match(len: nat, edge: nat, payload: bool)

  function MatchAt(s: string): (m: Option<Match>)
    ensures m.Some? ==> 2 * m.value.edge <= m.value.len <= |s| && m.value.len > 0
  {
    if "//" <= s then Some(Match(IndexOf(s, '\n'), 0, true))
    else if "/*" <= s && CommentEnd(s[2..]).Some? then Some(Match(CommentEnd(s[2..]).value + 4, 0, true))
    else if "\"\"\"" <= s && BlockEnd(s[3..]).Some? then Some(Match(BlockEnd(s[3..]).value + 6, 3, true))
    else if s != "" && (s[0] == '"' || s[0] == '\'') && LiteralEnd(s[1..], s[0]).Some? then
      Some(Match(LiteralEnd(s[1..], s[0]).value + 1, 1, false))
    else None
  }

  function Blanked(s: string): (r: string)
    ensures |r| == |s|
    ensures forall k :: 0 <= k < |s| ==> r[k] == if s[k] == '\n' then '\n' else ' '
  {
    if s == "" then "" else [if s[0] == '\n' then '\n' else ' '] + Blanked(s[1..])
  }

  /** A match with its inside blanked. */
  function Hollow(s: string, m: Match): (r: string)
    requires 2 * m.edge <= m.len <= |s|
    ensures |r| == m.len
  {
    s[..m.edge] + Blanked(s[m.edge..m.len - m.edge]) + s[m.len - m.edge..m.len]
  }

  function Bare(s: string): (r: string)
    ensures |r| == |s|
    decreases |s|
  {
    if s == "" then ""
    else match MatchAt(s)
      case None => [s[0]] + Bare(s[1..])
      case Some(m) => Hollow(s, m) + Bare(s[m.len..])
  }

  function CodeOnly(s: string): (r: string)
    ensures |r| == |s|
    decreases |s|
  {
    if s == "" then ""
    else match MatchAt(s)
      case None => [s[0]] + CodeOnly(s[1..])
      case Some(m) => (if m.payload then Hollow(s, m) else s[..m.len]) + CodeOnly(s[m.len..])
  }

  /** An array that begins with `done` and goes on as the text does. */
  ghost predicate Half(a: seq<char>, done: string, text: string) {
    |a| == |text| && |done| <= |text| && a == done + text[|done|..]
  }

  /** The text twice over, the same length: with comments blanked, and with the inside of
      literals blanked as well. The two arrays are overwritten in place. */
  method Layers(text: string) returns (code: string, bare: string)
    ensures code == CodeOnly(text) && bare == Bare(text)
  {
    hide MatchAt, Bare, CodeOnly, Hollow, Half;
    var codes := Copied(text);
    var bares := Copied(text);
    HalfNone(text);
    ghost var c, b: string := "", "";
    var i, n := 0, |text|;
    assert text[0..] == text && "" + CodeOnly(text) == CodeOnly(text) && "" + Bare(text) == Bare(text);
    while i < n
      invariant i <= n && codes != bares && |c| == |b| == i
      invariant Half(codes[..], c, text) && c + CodeOnly(text[i..]) == CodeOnly(text)
      invariant Half(bares[..], b, text) && b + Bare(text[i..]) == Bare(text)
    {
      var m := MatchAt(text[i..]);
      ghost var c1, b1;
      c1, b1 := LayerOne(codes, bares, text, i, m, c, b);
      LayerStep(text, i, c1, b1);
      assert c + (c1 + CodeOnly(text[i + |c1|..])) == c + c1 + CodeOnly(text[i + |c1|..]);
      assert b + (b1 + Bare(text[i + |b1|..])) == b + b1 + Bare(text[i + |b1|..]);
      c, b := c + c1, b + b1;
      i := i + if m.None? then 1 else m.value.len;
    }
    LayersNone();
    HalfAll(codes[..], c, text);
    HalfAll(bares[..], b, text);
    assert text[n..] == "" && c + "" == c && b + "" == b;
    code, bare := codes[..], bares[..];
  }

  /** One match, or one character, in both arrays; `c1` and `b1` are what now stands there. */
  method LayerOne(codes: array<char>, bares: array<char>, text: string, i: nat, m: Option<Match>,
                  ghost c: string, ghost b: string)
    returns (ghost c1: string, ghost b1: string)
    requires i < |text| && codes != bares && |c| == |b| == i && m == MatchAt(text[i..])
    requires Half(codes[..], c, text) && Half(bares[..], b, text)
    modifies codes, bares
    ensures Layer(text[i..], c1, b1)
    ensures Half(codes[..], c + c1, text) && Half(bares[..], b + b1, text)
  {
    hide MatchAt, Half, Hollow;
    if m.None? {
      c1, b1 := text[i..][..1], text[i..][..1];
      HalfCopy(codes[..], c, text, 1);
      HalfCopy(bares[..], b, text, 1);
    } else {
      b1 := Hollow(text[i..], m.value);
      c1 := if m.value.payload then b1 else text[i..][..m.value.len];
      BlankOut(bares, text, i, m.value, b);
      if m.value.payload {
        BlankOut(codes, text, i, m.value, c);
      } else {
        HalfCopy(codes[..], c, text, m.value.len);
      }
    }
  }

  /** What the two layers hold in place of the first match, or character, of `s`. */
  ghost predicate Layer(s: string, c1: string, b1: string)
    requires s != ""
  {
    match MatchAt(s)
    case None => c1 == b1 == s[..1]
    case Some(m) => b1 == Hollow(s, m) && c1 == if m.payload then b1 else s[..m.len]
  }

  method Copied(text: string) returns (a: array<char>)
    ensures fresh(a) && a[..] == text
  {
    a := new char[|text|](i requires 0 <= i < |text| => text[i]);
  }

  lemma HalfNone(text: string)
    ensures Half(text, "", text)
  {
  }

  lemma HalfAll(a: seq<char>, done: string, text: string)
    requires Half(a, done, text) && |done| == |text|
    ensures a == done
  {
  }

  lemma LayersNone()
    ensures CodeOnly("") == "" && Bare("") == ""
  {
  }

  lemma LayerStep(text: string, i: nat, c1: string, b1: string)
    requires i < |text| && Layer(text[i..], c1, b1)
    ensures |c1| == |b1| == (if MatchAt(text[i..]).None? then 1 else MatchAt(text[i..]).value.len) <= |text| - i
    ensures CodeOnly(text[i..]) == c1 + CodeOnly(text[i + |c1|..])
    ensures Bare(text[i..]) == b1 + Bare(text[i + |b1|..])
  {
    hide MatchAt, Hollow;
    var s := text[i..];
    assert s[|c1|..] == text[i + |c1|..];
  }

  /** Part of the array is overwritten with blanks, line breaks kept. */
  method BlankRange(a: array<char>, text: string, from: nat, to: nat)
    requires a.Length == |text| && from <= to <= |text| && a[from..] == text[from..]
    modifies a
    ensures a[..] == old(a[..])[..from] + Blanked(text[from..to]) + text[to..]
  {
    for k := from to to
      invariant a[..from] == old(a[..from]) && a[k..] == text[k..]
      invariant forall j :: from <= j < k ==> a[j] == if text[j] == '\n' then '\n' else ' '
    {
      assert a[k] == text[k] by {
        assert a[k..][0] == text[k..][0];
      }
      if text[k] != '\n' {
        a[k] := ' ';
      }
    }
    assert a[from..to] == Blanked(text[from..to]);
    Thirds(a[..], from, to);
    assert a[..][..from] == a[..from] && a[..][from..to] == a[from..to] && a[..][to..] == a[to..];
    assert old(a[..])[..from] == old(a[..from]);
  }

  /** The inside of the match at `i` is overwritten. */
  method BlankOut(a: array<char>, text: string, i: nat, m: Match, ghost done: string)
    requires |done| == i <= |text| && 2 * m.edge <= m.len <= |text| - i
    requires Half(a[..], done, text)
    modifies a
    ensures Half(a[..], done + Hollow(text[i..], m), text)
  {
    hide Half, Hollow, Blanked;
    HalfIs(a[..], done, text, m.edge);
    assert a[i + m.edge..] == a[..][i + m.edge..];
    BlankRange(a, text, i + m.edge, i + m.len - m.edge);
    HollowParts(text, i, m);
    ghost var s := text[i..];
    OverHollow(done, s, m.edge, m.len, Blanked(s[m.edge..m.len - m.edge]));
    HollowIs(s, m);
    HalfMade(a[..], done, Hollow(s, m), text);
  }

  lemma OverHollow(done: string, s: string, edge: nat, len: nat, b: string)
    requires 2 * edge <= len <= |s|
    ensures done + s[..edge] + b + s[len - edge..] == done + (s[..edge] + b + s[len - edge..len]) + s[len..]
  {
    TailFrom(s, len - edge, len);
    Assemble(done, s[..edge], b, s[len - edge..len], s[len..]);
  }

  lemma HalfIs(a: seq<char>, done: string, text: string, n: nat)
    requires Half(a, done, text) && |done| + n <= |text|
    ensures |a| == |text| && a[..|done| + n] == done + text[|done|..][..n]
    ensures a[|done| + n..] == text[|done| + n..]
  {
    HeadOf(done, text[|done|..], n);
    DropOf(done, text[|done|..], n);
    assert text[|done|..][n..] == text[|done| + n..];
  }

  lemma HalfMade(now: seq<char>, done: string, h: string, text: string)
    requires |done| + |h| <= |text| && |now| == |text| && now == done + h + text[|done| + |h|..]
    ensures Half(now, done + h, text)
  {
  }

  /** What the places of a match are, counted in the whole text and from its beginning. */
  lemma HollowParts(text: string, i: nat, m: Match)
    requires i <= |text| && 2 * m.edge <= m.len <= |text| - i
    ensures var s := text[i..];
            && text[i + m.edge..i + m.len - m.edge] == s[m.edge..m.len - m.edge]
            && text[i + m.len - m.edge..] == s[m.len - m.edge..]
            && text[i + m.len..] == s[m.len..]
  {
    PartOf(text, i, m.edge, m.len - m.edge);
  }

  lemma DropOf(a: string, b: string, n: nat)
    requires n <= |b|
    ensures (a + b)[|a| + n..] == b[n..]
  {
  }

  lemma HollowIs(s: string, m: Match)
    requires 2 * m.edge <= m.len <= |s|
    ensures Hollow(s, m) == s[..m.edge] + Blanked(s[m.edge..m.len - m.edge]) + s[m.len - m.edge..m.len]
  {
    hide Blanked;
  }

  lemma Thirds(s: string, from: nat, to: nat)
    requires from <= to <= |s|
    ensures s == s[..from] + s[from..to] + s[to..]
  {
  }

  lemma HeadOf(a: string, b: string, n: nat)
    requires n <= |b|
    ensures (a + b)[..|a| + n] == a + b[..n]
  {
  }

  lemma PartOf(s: string, i: nat, from: nat, to: nat)
    requires i <= |s| && from <= to <= |s| - i
    ensures s[i..][from..to] == s[i + from..i + to]
  {
  }

  lemma TailFrom(s: string, from: nat, to: nat)
    requires from <= to <= |s|
    ensures s[from..] == s[from..to] + s[to..]
  {
  }

  lemma Assemble(done: string, a: string, b: string, c: string, rest: string)
    ensures done + a + b + (c + rest) == done + (a + b + c) + rest
    ensures |a + b + c| == |a| + |b| + |c|
    ensures (done + (a + b + c) + rest)[|done + (a + b + c)|..] == rest
  {
  }

  lemma HalfCopy(a: seq<char>, done: string, text: string, k: nat)
    requires Half(a, done, text) && |done| + k <= |text|
    ensures Half(a, done + text[|done|..][..k], text)
  {
    assert text[|done|..] == text[|done|..][..k] + text[|done| + k..];
  }

  // ---- the brace that closes a body --------------------------------------

  /** The offset just past the `}` that brings the depth back to zero, or the end. */
  function Closed(s: string, depth: int): (k: nat)
    ensures k <= |s|
  {
    if s == "" then 0
    else if s[0] == '{' then 1 + Closed(s[1..], depth + 1)
    else if s[0] == '}' then if depth == 1 then 1 else 1 + Closed(s[1..], depth - 1)
    else 1 + Closed(s[1..], depth)
  }

  method BodyEnd(bare: string, start: nat) returns (end: nat)
    requires start <= |bare|
    ensures end == start + Closed(bare[start..], 0)
  {
    hide Closed;
    var depth := 0;
    for i := start to |bare|
      invariant start + Closed(bare[start..], 0) == i + Closed(bare[i..], depth)
    {
      ClosedStep(bare[i..], depth);
      assert bare[i..][1..] == bare[i + 1..];
      var ch := bare[i];
      if ch == '{' {
        depth := depth + 1;
      } else if ch == '}' {
        depth := depth - 1;
        if depth == 0 {
          return i + 1;
        }
      }
    }
    return |bare|;
  }

  lemma ClosedStep(s: string, depth: int)
    requires s != ""
    ensures Closed(s, depth) ==
              if s[0] == '{' then 1 + Closed(s[1..], depth + 1)
              else if s[0] == '}' then if depth == 1 then 1 else 1 + Closed(s[1..], depth - 1)
              else 1 + Closed(s[1..], depth)
  {
  }
}
