/** Somebody else's text written into Markdown: as plain words, or in a code block. */
module Markdown {
  import Text
  import opened Picking

  /** A zero-width space. */
  const ZW: char := '\U{200B}'

  /** The classes of a regular expression: `\w` and `\d`. Neither holds a zero-width space;
      `\w` has no white space, no `&`, `;` or `(`, and of the characters that Markdown gives a
      meaning only the underscore. */
  datatype Classes = Classes(word: char -> bool, digit: char -> bool) {
    ghost predicate Valid() {
      && !word(ZW) && !digit(ZW)
      && !word('&') && !word(';') && !word('(')
      && (forall c :: Text.IsSpace(c) ==> !word(c))
      && forall c :: IsSpecial(c) ==> !digit(c) && (word(c) ==> c == '_')
    }
  }

  // ---- plain words -------------------------------------------------------

  /** A character that reorders what follows it on the line. */
  predicate IsReordering(c: char) {
    0x202A <= c as int <= 0x202E || 0x2066 <= c as int <= 0x2069
  }

  function Ordered(s: string): string {
    if s == "" then "" else (if IsReordering(s[0]) then "" else [s[0]]) + Ordered(s[1..])
  }

  /** The nine characters of the Unicode Bidirectional Algorithm, section 2, that embed, override
      and isolate, and that end these. */
  const REORDERING: set<char> :=
    {'\U{202A}', '\U{202B}', '\U{202C}', '\U{202D}', '\U{202E}', '\U{2066}', '\U{2067}', '\U{2068}', '\U{2069}'}

  ghost function InPlace(s: string): (nat, char) -> bool {
    (i: nat, c: char) => i < |s| && c == s[i] && c !in REORDERING
  }

  /** All but these is left, in its order. */
  lemma {:induction false} OrderedAre(s: string)
    ensures Picks(Ordered(s), |s|, InPlace(s))
  {
    hide Picks;
    if s == "" {
      PicksNone(InPlace(s));
    } else {
      var n := |s| - 1;
      OrderedAre(s[..n]);
      OrderedMore(s[..n], s[n]);
      assert s == s[..n] + [s[n]];
      PicksSame(Ordered(s[..n]), n, InPlace(s[..n]), InPlace(s));
      if s[n] in REORDERING {
        PicksNoMore(Ordered(s[..n]), n, InPlace(s));
        assert Ordered(s[..n]) + "" == Ordered(s[..n]);
      } else {
        PicksMore(Ordered(s[..n]), n, InPlace(s), s[n]);
      }
    }
  }

  lemma {:induction false} OrderedMore(less: string, last: char)
    ensures Ordered(less + [last]) == Ordered(less) + if last in REORDERING then "" else [last]
  {
    assert last in REORDERING <==> IsReordering(last);
    if less == "" {
      assert [last][1..] == "";
    } else {
      assert (less + [last])[1..] == less[1..] + [last];
      OrderedMore(less[1..], last);
    }
  }

  /** The words of a text, as they are to be read. */
  function Plain(text: string): string {
    Ordered(Text.Strip(Text.Collapse(text)))
  }

  // ---- the encoder -------------------------------------------------------

  function Amps(s: string): string {
    if s == "" then "" else (if s[0] == '&' then "&amp;" else [s[0]]) + Amps(s[1..])
  }

  predicate IsSpecial(c: char) {
    || c == '\\' || c == '`' || c == '*' || c == '_' || c == '{' || c == '}' || c == '[' || c == ']'
    || c == '<' || c == '>' || c == '#' || c == '|' || c == '!' || c == '~'
  }

  function Escape(s: string): string {
    if s == "" then "" else (if IsSpecial(s[0]) then ['\\', s[0]] else [s[0]]) + Escape(s[1..])
  }

  /** Where a zero-width space goes: after so many characters of `s`, `before` being what
      precedes them, or, for zero, not here. */
  type Place = (string, string) -> nat

  ghost predicate Within(at: Place) {
    forall before: string, s: string :: at(before, s) <= |s|
  }

  /** A zero-width space put everywhere that `at` says. */
  function Mark(before: string, s: string, at: Place): string
    decreases |s|
  {
    if s == "" then ""
    else
      var k := at(before, s);
      if 0 < k <= |s| then s[..k] + [ZW] + Mark(before + s[..k], s[k..], at)
      else [s[0]] + Mark(before + [s[0]], s[1..], at)
  }

  function AtSign(before: string, s: string): nat {
    if "@" <= s then 1 else 0
  }

  function AtScheme(before: string, s: string): nat {
    if "://" <= s then 1 else 0
  }

  function AtSigil(c: Classes, before: string, s: string): nat {
    if |s| > 1 && s[0] in "#!$%" && c.word(s[1]) then 1 else 0
  }

  function AtEntity(c: Classes, before: string, s: string): nat {
    if "&amp;" <= s && |s| > 5 && c.digit(s[5]) then 5 else 0
  }

  /** A character of the name of an emoji. */
  predicate IsName(c: char) {
    'a' <= c <= 'z' || '0' <= c <= '9' || c in "_+-"
  }

  /** By their code points: the 26 small letters, the ten digits, and `+`, `-` and `_`. */
  lemma NameCharacters(c: char)
    ensures IsName(c) <==> c as int in {43, 45, 95} || 0 <= c as int - 97 < 26 || 0 <= c as int - 48 < 10
  {
    if c as int in {43, 45, 95} {
      assert c == '+' || c == '-' || c == '_';
    }
  }

  function NameLength(s: string): (n: nat)
    ensures n <= |s| && (forall k :: 0 <= k < n ==> IsName(s[k])) && (n < |s| ==> !IsName(s[n]))
  {
    if s != "" && IsName(s[0]) then 1 + NameLength(s[1..]) else 0
  }

  function AtEmoji(before: string, s: string): nat {
    if ":" <= s && (var n := NameLength(s[1..]); 0 < n < |s| - 1 && s[1 + n] == ':') then 1 else 0
  }

  predicate IsWww(s: string) {
    |s| >= 4 && s[0] in "wW" && s[1] in "wW" && s[2] in "wW" && s[3] == '.'
  }

  function AtWww(c: Classes, before: string, s: string): nat {
    if (before == "" || !c.word(before[|before| - 1])) && IsWww(s) then 3 else 0
  }

  function SigilPlace(c: Classes): Place {
    (before, s) => AtSigil(c, before, s)
  }

  function EntityPlace(c: Classes): Place {
    (before, s) => AtEntity(c, before, s)
  }

  function WwwPlace(c: Classes): Place {
    (before, s) => AtWww(c, before, s)
  }

  function MarkSigns(s: string): string {
    Mark("", s, AtSign)
  }

  function MarkSchemes(s: string): string {
    Mark("", s, AtScheme)
  }

  function MarkSigils(c: Classes, s: string): string {
    Mark("", s, SigilPlace(c))
  }

  function MarkEntities(c: Classes, s: string): string {
    Mark("", s, EntityPlace(c))
  }

  function MarkEmoji(s: string): string {
    Mark("", s, AtEmoji)
  }

  function MarkWww(c: Classes, s: string): string {
    Mark("", s, WwwPlace(c))
  }

  function Marked(c: Classes, s: string): string {
    MarkWww(c, MarkEmoji(MarkEntities(c, MarkSigils(c, MarkSchemes(MarkSigns(s))))))
  }

  /** Plain words in Markdown. */
  function Md(c: Classes, text: string): string {
    Marked(c, Escape(Amps(Plain(text))))
  }

  // ---- the decoder -------------------------------------------------------

  function Unmarked(s: string): string {
    if s == "" then "" else (if s[0] == ZW then "" else [s[0]]) + Unmarked(s[1..])
  }

  function Unescape(s: string): string {
    if s == "" then ""
    else if s[0] == '\\' && |s| > 1 && IsSpecial(s[1]) then [s[1]] + Unescape(s[2..])
    else [s[0]] + Unescape(s[1..])
  }

  function Unamp(s: string): string {
    if s == "" then ""
    else if "&amp;" <= s then "&" + Unamp(s[5..])
    else [s[0]] + Unamp(s[1..])
  }

  function Decode(s: string): string {
    Unamp(Unescape(Unmarked(s)))
  }

  lemma {:induction false} UnampAmps(s: string)
    ensures Unamp(Amps(s)) == s
  {
    if s != "" {
      UnampAmps(s[1..]);
      if s[0] == '&' {
        assert Amps(s)[5..] == Amps(s[1..]);
      } else {
        assert Amps(s)[1..] == Amps(s[1..]);
      }
    }
  }

  lemma {:induction false} UnescapeEscape(s: string)
    ensures Unescape(Escape(s)) == s
  {
    if s != "" {
      UnescapeEscape(s[1..]);
      if IsSpecial(s[0]) {
        assert Escape(s)[2..] == Escape(s[1..]);
      } else {
        assert s[0] != '\\';
        assert Escape(s)[1..] == Escape(s[1..]);
      }
    }
  }

  lemma {:induction false} UnmarkedConcat(a: string, b: string)
    ensures Unmarked(a + b) == Unmarked(a) + Unmarked(b)
  {
    if a == "" {
      assert a + b == b;
    } else {
      UnmarkedConcat(a[1..], b);
      assert (a + b)[1..] == a[1..] + b;
      var first := if a[0] == ZW then "" else [a[0]];
      assert first + (Unmarked(a[1..]) + Unmarked(b)) == first + Unmarked(a[1..]) + Unmarked(b);
    }
  }

  lemma OneUnmarked(x: char)
    ensures Unmarked([x]) == if x == ZW then "" else [x]
  {
    assert [x][1..] == "";
    assert Unmarked("") == "";
  }

  lemma {:induction false} UnmarkedEscape(s: string)
    ensures Unmarked(Escape(s)) == Escape(Unmarked(s))
  {
    if s != "" {
      UnmarkedEscape(s[1..]);
      OneUnmarked(s[0]);
      if IsSpecial(s[0]) {
        OneUnmarked('\\');
        UnmarkedConcat(['\\'], [s[0]]);
        assert ['\\'] + [s[0]] == ['\\', s[0]];
        UnmarkedConcat(['\\', s[0]], Escape(s[1..]));
      } else {
        UnmarkedConcat([s[0]], Escape(s[1..]));
      }
      assert s[0] != ZW ==> ([s[0]] + Unmarked(s[1..]))[1..] == Unmarked(s[1..]);
      assert "" + Unmarked(s[1..]) == Unmarked(s[1..]);
      assert "" + Unmarked(Escape(s[1..])) == Unmarked(Escape(s[1..]));
    }
  }

  lemma {:induction false} UnmarkedAmps(s: string)
    ensures Unmarked(Amps(s)) == Amps(Unmarked(s))
  {
    if s != "" {
      UnmarkedAmps(s[1..]);
      OneUnmarked(s[0]);
      PlainAmp();
      UnmarkedConcat(if s[0] == '&' then "&amp;" else [s[0]], Amps(s[1..]));
      assert s[0] != ZW ==> ([s[0]] + Unmarked(s[1..]))[1..] == Unmarked(s[1..]);
      assert "" + Unmarked(s[1..]) == Unmarked(s[1..]);
      assert "" + Unmarked(Amps(s[1..])) == Unmarked(Amps(s[1..]));
    }
  }

  lemma PlainAmp()
    ensures Unmarked("&amp;") == "&amp;"
  {
    assert "&amp;"[1..] == "amp;" && "amp;"[1..] == "mp;" && "mp;"[1..] == "p;" && "p;"[1..] == ";" && ";"[1..] == "";
    assert Unmarked(";") == ";";
    assert Unmarked("p;") == "p;";
    assert Unmarked("mp;") == "mp;";
    assert Unmarked("amp;") == "amp;";
  }

  lemma {:induction false} MarkAddsNothingElse(before: string, s: string, at: Place)
    ensures Unmarked(Mark(before, s, at)) == Unmarked(s)
    decreases |s|
  {
    if s != "" {
      var k := at(before, s);
      if 0 < k <= |s| {
        var rest := Mark(before + s[..k], s[k..], at);
        MarkAddsNothingElse(before + s[..k], s[k..], at);
        UnmarkedConcat(s[..k] + [ZW], rest);
        UnmarkedConcat(s[..k], [ZW]);
        UnmarkedConcat(s[..k], s[k..]);
        assert Unmarked([ZW]) == "";
        assert s == s[..k] + s[k..];
      } else {
        MarkAddsNothingElse(before + [s[0]], s[1..], at);
        assert Mark(before, s, at)[1..] == Mark(before + [s[0]], s[1..], at);
      }
    }
  }

  /** Decoded, the encoded text is its plain words without the zero-width spaces they had. */
  lemma DecodeMd(c: Classes, text: string)
    ensures Decode(Md(c, text)) == Unmarked(Plain(text))
  {
    hide Plain, Mark, Unmarked, Escape, Amps, Unamp, Unescape;
    var s := Escape(Amps(Plain(text)));
    MarkAddsNothingElse("", s, AtSign);
    MarkAddsNothingElse("", MarkSigns(s), AtScheme);
    var a := MarkSchemes(MarkSigns(s));
    MarkAddsNothingElse("", a, SigilPlace(c));
    MarkAddsNothingElse("", MarkSigils(c, a), EntityPlace(c));
    var e := MarkEntities(c, MarkSigils(c, a));
    MarkAddsNothingElse("", e, AtEmoji);
    MarkAddsNothingElse("", MarkEmoji(e), WwwPlace(c));
    UnmarkedEscape(Amps(Plain(text)));
    UnmarkedAmps(Plain(text));
    UnescapeEscape(Amps(Unmarked(Plain(text))));
    UnampAmps(Unmarked(Plain(text)));
  }

  // ---- when nothing is lost ----------------------------------------------

  lemma {:induction false} UnmarkedSame(s: string)
    ensures Unmarked(s) == s <==> ZW !in s
    ensures |Unmarked(s)| <= |s|
  {
    if s != "" {
      UnmarkedSame(s[1..]);
      assert s == [s[0]] + s[1..];
      assert "" + Unmarked(s[1..]) == Unmarked(s[1..]);
    }
  }

  lemma {:induction false} CollapseHas(s: string)
    ensures ZW in Text.Collapse(s) <==> ZW in s
  {
    if s != "" {
      CollapseHas(s[1..]);
      assert s == [s[0]] + s[1..];
    }
  }

  lemma {:induction false} OrderedHas(s: string)
    ensures ZW in Ordered(s) <==> ZW in s
  {
    if s != "" {
      OrderedHas(s[1..]);
      assert s == [s[0]] + s[1..];
    }
  }

  lemma {:induction false} StripLeftHas(s: string)
    ensures ZW in Text.StripLeft(s) <==> ZW in s
  {
    if s != "" && Text.IsSpace(s[0]) {
      StripLeftHas(s[1..]);
      assert s == [s[0]] + s[1..];
    }
  }

  lemma {:induction false} StripRightHas(s: string)
    ensures ZW in Text.StripRight(s) <==> ZW in s
  {
    if s != "" && Text.IsSpace(s[|s| - 1]) {
      StripRightHas(s[..|s| - 1]);
      assert s == s[..|s| - 1] + [s[|s| - 1]];
    }
  }

  /** The decoder gives the plain words back just when the text had no zero-width space. */
  lemma EncodedAndDecoded(c: Classes, text: string)
    ensures Decode(Md(c, text)) == Plain(text) <==> ZW !in text
  {
    hide Md, Decode, Unmarked, Text.Collapse, Ordered, Text.StripLeft, Text.StripRight;
    DecodeMd(c, text);
    UnmarkedSame(Plain(text));
    CollapseHas(text);
    StripLeftHas(Text.Collapse(text));
    StripRightHas(Text.StripLeft(Text.Collapse(text)));
    OrderedHas(Text.Strip(Text.Collapse(text)));
  }

  // ---- what a mark takes apart -------------------------------------------

  /** `t` is `s` with zero-width spaces put in. */
  ghost predicate Wider(s: string, t: string)
    decreases |t|
  {
    if t == "" then s == ""
    else (s != "" && s[0] == t[0] && Wider(s[1..], t[1..])) || (t[0] == ZW && Wider(s, t[1..]))
  }

  lemma {:induction false} WiderStart(p: string, s: string, t: string)
    requires Wider(s, t)
    ensures Wider(p + s, p + t)
    decreases |p|
  {
    if p == "" {
      assert p + s == s && p + t == t;
    } else {
      WiderStart(p[1..], s, t);
      assert (p + s)[1..] == p[1..] + s && (p + t)[1..] == p[1..] + t;
    }
  }

  lemma {:induction false} MarkWider(before: string, s: string, at: Place)
    ensures Wider(s, Mark(before, s, at))
    decreases |s|
  {
    if s != "" {
      var k := at(before, s);
      if 0 < k <= |s| {
        var rest := Mark(before + s[..k], s[k..], at);
        MarkWider(before + s[..k], s[k..], at);
        assert ([ZW] + rest)[1..] == rest;
        assert Wider(s[k..], [ZW] + rest);
        WiderStart(s[..k], s[k..], [ZW] + rest);
        assert s[..k] + s[k..] == s && s[..k] + ([ZW] + rest) == s[..k] + [ZW] + rest;
      } else {
        var rest := Mark(before + [s[0]], s[1..], at);
        MarkWider(before + [s[0]], s[1..], at);
        assert ([s[0]] + rest)[1..] == rest;
      }
    }
  }

  lemma {:induction false} PrefixBack(p: string, s: string, t: string)
    requires Wider(s, t) && ZW !in p && p <= t
    ensures p <= s
    decreases |p|
  {
    if p != "" {
      assert p[0] == t[0] && p[0] in p;
      PrefixBack(p[1..], s[1..], t[1..]);
      assert p == [p[0]] + p[1..] && s == [s[0]] + s[1..];
    }
  }

  predicate Occurs(p: string, t: string) {
    exists i :: 0 <= i <= |t| && p <= t[i..]
  }

  lemma {:induction false} OccursBack(p: string, s: string, t: string, i: nat)
    requires Wider(s, t) && ZW !in p && i <= |t| && p <= t[i..]
    ensures Occurs(p, s)
    decreases |t|
  {
    if i == 0 {
      PrefixBack(p, s, t);
      assert s[0..] == s;
    } else {
      assert t[1..][i - 1..] == t[i..];
      if s != "" && s[0] == t[0] && Wider(s[1..], t[1..]) {
        OccursBack(p, s[1..], t[1..], i - 1);
        var j :| 0 <= j <= |s[1..]| && p <= s[1..][j..];
        assert s[1..][j..] == s[j + 1..];
      } else {
        OccursBack(p, s, t[1..], i - 1);
      }
    }
  }

  /** What did not occur does not occur after zero-width spaces were put in. */
  lemma NoneMadeByMarks(p: string, before: string, s: string, at: Place)
    requires ZW !in p && !Occurs(p, s)
    ensures !Occurs(p, Mark(before, s, at))
  {
    hide Mark;
    MarkWider(before, s, at);
    if i :| 0 <= i <= |Mark(before, s, at)| && p <= Mark(before, s, at)[i..] {
      OccursBack(p, s, Mark(before, s, at), i);
    }
  }

  /** `at` says of every place where `p` is to go in, and goes in before its end. */
  ghost predicate Splits(at: Place, p: string) {
    && ZW !in p
    && forall before: string, s: string :: at(before, s) < |p| && (p <= s ==> at(before, s) > 0)
  }

  lemma MarkInside(p: string, t: string, i: nat, k: nat)
    requires ZW !in p && i <= k < i + |p| && k < |t| && t[k] == ZW
    ensures !(p <= t[i..])
  {
    assert p[k - i] in p;
    assert t[i..][k - i] == t[k];
  }

  lemma {:induction false} SplitNowhere(p: string, before: string, s: string, at: Place, i: nat)
    requires Splits(at, p) && Within(at)
    requires i <= |Mark(before, s, at)|
    ensures !(p <= Mark(before, s, at)[i..])
    decreases |s|
  {
    var t := Mark(before, s, at);
    var k := at(before, s);
    if 0 < k && i <= k {
      MarkInside(p, t, i, k);
    } else if p <= t[i..] {
      if i == 0 {
        assert t[0..] == t;
        MarkWider(before, s, at);
        PrefixBack(p, s, t);
      } else if k == 0 {
        assert t[1..][i - 1..] == t[i..];
        SplitNowhere(p, before + [s[0]], s[1..], at, i - 1);
      } else {
        assert t[k + 1..][i - k - 1..] == t[i..];
        SplitNowhere(p, before + s[..k], s[k..], at, i - k - 1);
      }
    }
  }

  // ---- what the encoded text does not hold -------------------------------

  /** A mention, a link by its scheme, a reference, a numbered entity or an emoji. */
  ghost predicate Banned(c: Classes, p: string) {
    IsMention(p) || p == "://" || IsReference(c, p) || IsNumbered(c, p) || IsEmoji(p)
  }

  predicate IsMention(p: string) {
    |p| == 2 && p[0] == '@' && p[1] != ZW
  }

  predicate IsReference(c: Classes, p: string) {
    |p| == 2 && p[0] in "#!$%" && c.word(p[1])
  }

  predicate IsNumbered(c: Classes, p: string) {
    |p| == 6 && "&amp;" <= p && c.digit(p[5])
  }

  predicate IsEmoji(p: string) {
    |p| > 2 && p[0] == ':' && p[|p| - 1] == ':' && forall k :: 0 < k < |p| - 1 ==> IsName(p[k])
  }

  lemma Gone(p: string, s: string, at: Place)
    requires Splits(at, p) && Within(at)
    ensures !Occurs(p, Mark("", s, at))
  {
    forall i | 0 <= i <= |Mark("", s, at)| ensures !(p <= Mark("", s, at)[i..]) {
      SplitNowhere(p, "", s, at, i);
    }
  }

  lemma PlainOf(p: string)
    requires forall k :: 0 <= k < |p| ==> p[k] != ZW
    ensures ZW !in p
  {
  }

  lemma MentionsSplit(p: string)
    requires IsMention(p)
    ensures Splits(AtSign, p) && Within(AtSign)
  {
    forall before: string, s: string | p <= s ensures AtSign(before, s) > 0 {
      assert s[0] == p[0];
    }
  }

  lemma SchemesSplit()
    ensures Splits(AtScheme, "://") && Within(AtScheme)
  {
  }

  lemma ReferencesSplit(c: Classes, p: string)
    requires c.Valid() && IsReference(c, p)
    ensures Splits(SigilPlace(c), p) && Within(SigilPlace(c))
  {
    forall before: string, s: string | p <= s ensures SigilPlace(c)(before, s) > 0 {
      assert s[0] == p[0] && s[1] == p[1];
    }
  }

  lemma NumberedSplit(c: Classes, p: string)
    requires c.Valid() && IsNumbered(c, p)
    ensures Splits(EntityPlace(c), p) && Within(EntityPlace(c))
  {
    forall k | 0 <= k < |p| ensures p[k] != ZW {
      assert k < 5 ==> p[k] == "&amp;"[k];
    }
    PlainOf(p);
    forall before: string, s: string | p <= s ensures EntityPlace(c)(before, s) > 0 {
      assert s[5] == p[5];
      assert forall k :: 0 <= k < 5 ==> s[k] == p[k] == "&amp;"[k];
    }
  }

  lemma EmojiSplit(p: string)
    requires IsEmoji(p)
    ensures Splits(AtEmoji, p) && Within(AtEmoji)
  {
    forall before: string, s: string | p <= s ensures AtEmoji(before, s) > 0 {
      assert forall k :: 0 <= k < |p| ==> s[k] == p[k];
      var n := NameLength(s[1..]);
      assert s[1..][|p| - 2] == ':';
      assert forall k :: 0 <= k < |p| - 2 ==> s[1..][k] == p[k + 1];
    }
  }

  /** Nothing banned is anywhere in the encoded text. */
  lemma NothingBanned(c: Classes, text: string, p: string)
    requires c.Valid() && Banned(c, p)
    ensures !Occurs(p, Md(c, text))
  {
    hide Plain, Escape, Amps, Mark, Occurs, Splits, Within, IsMention, IsReference, IsNumbered, IsEmoji, AtSign, AtScheme, AtEmoji;
    var s := Escape(Amps(Plain(text)));
    var s1 := MarkSigns(s);
    var s2 := MarkSchemes(s1);
    var s3 := MarkSigils(c, s2);
    var s4 := MarkEntities(c, s3);
    var s5 := MarkEmoji(s4);
    BannedIsPlain(c, p);
    if IsMention(p) {
      MentionsSplit(p);
      Gone(p, s, AtSign);
    }
    if IsMention(p) || p == "://" {
      if p == "://" {
        SchemesSplit();
        Gone(p, s1, AtScheme);
      } else {
        NoneMadeByMarks(p, "", s1, AtScheme);
      }
    }
    if IsReference(c, p) {
      ReferencesSplit(c, p);
      Gone(p, s2, SigilPlace(c));
    } else if IsMention(p) || p == "://" {
      NoneMadeByMarks(p, "", s2, SigilPlace(c));
    }
    if IsNumbered(c, p) {
      NumberedSplit(c, p);
      Gone(p, s3, EntityPlace(c));
    } else if !IsEmoji(p) {
      NoneMadeByMarks(p, "", s3, EntityPlace(c));
    }
    if IsEmoji(p) {
      EmojiSplit(p);
      Gone(p, s4, AtEmoji);
    } else {
      NoneMadeByMarks(p, "", s4, AtEmoji);
    }
    NoneMadeByMarks(p, "", s5, WwwPlace(c));
  }

  lemma BannedIsPlain(c: Classes, p: string)
    requires c.Valid() && Banned(c, p)
    ensures ZW !in p
  {
    if IsNumbered(c, p) {
      NumberedSplit(c, p);
    }
  }

  /** No `www.` begins a word, `before` being what precedes `t`. */
  ghost predicate NoBareWww(c: Classes, before: string, t: string) {
    forall i :: 0 <= i < |t| && IsWww(t[i..])
      ==> var all := before + t[..i]; all != "" && c.word(all[|all| - 1])
  }

  lemma WwwBack(s: string, t: string)
    requires Wider(s, t) && IsWww(t)
    ensures IsWww(s)
  {
    var p := t[..4];
    assert forall k :: 0 <= k < 4 ==> p[k] == t[k] && p[k] != ZW;
    PlainOf(p);
    PrefixBack(p, s, t);
    assert forall k :: 0 <= k < 4 ==> s[k] == p[k];
  }

  /** The last characters of two texts are the same, if there are any. */
  predicate EndAlike(a: string, b: string) {
    (a == "" <==> b == "") && (a != "" ==> a[|a| - 1] == b[|b| - 1])
  }

  lemma NoWwwOverMark(a: string, rest: string, i: nat)
    requires |a| == 3 && i <= 3
    ensures !IsWww((a + [ZW] + rest)[i..])
  {
    var t := a + [ZW] + rest;
    assert t[3] == ZW;
    assert |t[i..]| > 3 - i && t[i..][3 - i] == ZW;
  }

  /** What holds of `rest` after `last` and `head` holds of both after `last`, when no `www.`
      begins in `head` but where a word goes on. */
  lemma BareBefore(c: Classes, last: string, head: string, rest: string)
    requires NoBareWww(c, last + head, rest)
    requires forall i :: 0 <= i < |head| && IsWww((head + rest)[i..])
               ==> var all := last + head[..i]; all != "" && c.word(all[|all| - 1])
    ensures NoBareWww(c, last, head + rest)
  {
    hide IsWww;
    var t := head + rest;
    forall i | 0 <= i < |t| && IsWww(t[i..])
      ensures var all := last + t[..i]; all != "" && c.word(all[|all| - 1])
    {
      if i < |head| {
        assert t[..i] == head[..i];
      } else {
        assert t[i..] == rest[i - |head|..];
        assert last + t[..i] == last + head + rest[..i - |head|];
      }
    }
  }

  lemma {:induction false} WwwSplit(c: Classes, before: string, last: string, s: string)
    requires c.Valid() && (EndAlike(before, last) || (s != "" && s[0] == '.'))
    ensures NoBareWww(c, last, Mark(before, s, WwwPlace(c)))
    decreases |s|
  {
    hide NoBareWww, IsWww;
    if s == "" {
      NothingBare(c, last);
    } else if WwwPlace(c)(before, s) == 0 {
      WwwSplit(c, before + [s[0]], last + [s[0]], s[1..]);
      NoneHere(c, before, last, s);
      BareBefore(c, last, [s[0]], Mark(before + [s[0]], s[1..], WwwPlace(c)));
    } else {
      WwwThere(c, before, s);
      var rest := Mark(before + s[..3], s[3..], WwwPlace(c));
      WwwSplit(c, before + s[..3], last + (s[..3] + [ZW]), s[3..]);
      forall i | 0 <= i < 4 ensures !IsWww((s[..3] + [ZW] + rest)[i..]) {
        NoWwwOverMark(s[..3], rest, i);
      }
      BareBefore(c, last, s[..3] + [ZW], rest);
    }
  }

  lemma NothingBare(c: Classes, last: string)
    ensures NoBareWww(c, last, "")
  {
  }

  lemma WwwThere(c: Classes, before: string, s: string)
    requires WwwPlace(c)(before, s) != 0
    ensures |s| > 3 && s[3] == '.' && WwwPlace(c)(before, s) == 3
    ensures Mark(before, s, WwwPlace(c)) == s[..3] + [ZW] + Mark(before + s[..3], s[3..], WwwPlace(c))
  {
  }

  lemma NoneHere(c: Classes, before: string, last: string, s: string)
    requires s != "" && WwwPlace(c)(before, s) == 0 && (EndAlike(before, last) || s[0] == '.')
    ensures var t := [s[0]] + Mark(before + [s[0]], s[1..], WwwPlace(c));
            && t == Mark(before, s, WwwPlace(c))
            && (IsWww(t[0..]) ==> last + [s[0]][..0] != "" && c.word((last + [s[0]][..0])[|last + [s[0]][..0]| - 1]))
  {
    var t := Mark(before, s, WwwPlace(c));
    assert t[0..] == t && last + [s[0]][..0] == last;
    MarkWider(before, s, WwwPlace(c));
    if IsWww(t) {
      WwwBack(s, t);
    }
  }

  // ---- no markup ---------------------------------------------------------

  /** Every special character has its own backslash, and no backslash is for anything else;
      `after` says that the character before is one such backslash. */
  predicate Escaped(after: bool, s: string)
    decreases |s|
  {
    if after then s != "" && IsSpecial(s[0]) && Escaped(false, s[1..])
    else s == "" || (if s[0] == '\\' then Escaped(true, s[1..]) else !IsSpecial(s[0]) && Escaped(false, s[1..]))
  }

  lemma {:induction false} EscapeEscapes(s: string)
    ensures Escaped(false, Escape(s))
  {
    if s != "" {
      EscapeEscapes(s[1..]);
      var t := Escape(s);
      if IsSpecial(s[0]) {
        assert t[1..] == [s[0]] + Escape(s[1..]);
        assert t[1..][1..] == Escape(s[1..]);
      } else {
        assert t[1..] == Escape(s[1..]);
      }
    }
  }

  /** `at` says nothing of a backslash, and of a special character only by itself. */
  ghost predicate Gentle(at: Place) {
    forall before: string, s: string :: var k := at(before, s);
      k <= |s| && (k > 0 ==> s[0] != '\\') && (k > 1 ==> forall j :: 0 <= j < k ==> !IsSpecial(s[j]))
  }

  lemma {:induction false} EscapedAfter(q: string, r: string)
    requires forall j :: 0 <= j < |q| ==> !IsSpecial(q[j])
    ensures Escaped(false, q + r) <==> Escaped(false, r)
    decreases |q|
  {
    if q == "" {
      assert q + r == r;
    } else {
      EscapedAfter(q[1..], r);
      assert (q + r)[1..] == q[1..] + r;
    }
  }

  lemma {:induction false} MarkKeepsEscapes(after: bool, before: string, s: string, at: Place)
    requires Gentle(at) && Escaped(after, s)
    ensures Escaped(after, Mark(before, s, at))
    decreases |s|
  {
    if s != "" {
      var t, k := Mark(before, s, at), at(before, s);
      if k == 0 {
        MarkKeepsEscapes(!after && s[0] == '\\', before + [s[0]], s[1..], at);
        assert t[1..] == Mark(before + [s[0]], s[1..], at);
      } else {
        var rest := Mark(before + s[..k], s[k..], at);
        if k == 1 {
          MarkKeepsEscapes(false, before + s[..1], s[1..], at);
          assert t[1..] == [ZW] + rest && ([ZW] + rest)[1..] == rest;
        } else {
          EscapedAfter(s[..k], s[k..]);
          assert s[..k] + s[k..] == s;
          MarkKeepsEscapes(false, before + s[..k], s[k..], at);
          EscapedAfter(s[..k] + [ZW], rest);
        }
      }
    }
  }

  lemma SignsGentle(c: Classes)
    ensures Gentle(AtSign) && Gentle(AtScheme) && Gentle(SigilPlace(c)) && Gentle(AtEmoji)
  {
  }

  lemma EntitiesGentle(c: Classes)
    ensures Gentle(EntityPlace(c))
  {
    forall before: string, s: string, j: nat | EntityPlace(c)(before, s) > 0 && j < 5 ensures !IsSpecial(s[j]) {
      assert s[j] == "&amp;"[j];
    }
  }

  lemma WwwGentle(c: Classes)
    ensures Gentle(WwwPlace(c))
  {
    hide IsSpecial;
    WNotSpecial();
  }

  lemma WNotSpecial()
    ensures !IsSpecial('w') && !IsSpecial('W') && 'w' != '\\' && 'W' != '\\'
  {
  }

  lemma AllGentle(c: Classes)
    ensures Gentle(AtSign) && Gentle(AtScheme) && Gentle(SigilPlace(c)) && Gentle(AtEmoji)
    ensures Gentle(EntityPlace(c)) && Gentle(WwwPlace(c))
  {
    hide Gentle;
    SignsGentle(c);
    EntitiesGentle(c);
    WwwGentle(c);
  }

  /** Every special character of the encoded text is escaped, and no word begins `www.`. (A word
      can hold an underscore where a link can begin after one, and the marker of a list is made
      of other characters.) */
  lemma NoMarkup(c: Classes, text: string)
    requires c.Valid()
    ensures Escaped(false, Md(c, text))
    ensures NoBareWww(c, "", Md(c, text))
  {
    hide Plain, Escape, Amps, Mark, Escaped, Gentle, NoBareWww;
    var s := Escape(Amps(Plain(text)));
    EscapeEscapes(Amps(Plain(text)));
    AllGentle(c);
    MarkKeepsEscapes(false, "", s, AtSign);
    MarkKeepsEscapes(false, "", MarkSigns(s), AtScheme);
    var a := MarkSchemes(MarkSigns(s));
    MarkKeepsEscapes(false, "", a, SigilPlace(c));
    MarkKeepsEscapes(false, "", MarkSigils(c, a), EntityPlace(c));
    var e := MarkEntities(c, MarkSigils(c, a));
    MarkKeepsEscapes(false, "", e, AtEmoji);
    MarkKeepsEscapes(false, "", MarkEmoji(e), WwwPlace(c));
    WwwSplit(c, "", "", MarkEmoji(e));
  }
}
