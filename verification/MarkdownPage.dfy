/** What is read on the page where encoded text stands: the words once the backslashes are
    taken for what they are and `&amp;` for `&`. */
module MarkdownPage {
  import Text
  import opened Markdown
  import opened MarkdownRead

  function Page(c: Classes, text: string): string {
    Unamp(Unescape(Md(c, text)))
  }

  // ---- the marks, as they fall in the words with their `&` ----------------

  /** Where `at` puts a mark in text with `&amp;` is where `low` puts it in the text with `&`. */
  ghost predicate AmpLifts(at: Place, low: Place) {
    forall before: string, s: string :: s != "" ==> AmpLiftsHere(before, s, at, low)
  }

  ghost predicate AmpLiftsHere(before: string, s: string, at: Place, low: Place)
    requires s != ""
  {
    var k := low(before, s);
    && k <= |s|
    && (s[0] != '&' ==> at(Amps(before), Amps(s)) == k && forall j :: 0 <= j < k ==> s[j] != '&')
    && (s[0] == '&' ==> if k == 0 then PassesAmp(Amps(before), Amps(s[1..]), at)
                        else k == 1 && at(Amps(before), "&amp;" + Amps(s[1..])) == 5)
  }

  /** No mark falls in the five characters of an `&amp;`, nor after it. */
  ghost predicate PassesAmp(before: string, tail: string, at: Place) {
    && at(before, "&amp;" + tail) == 0 && at(before + "&", "amp;" + tail) == 0 && at(before + "&a", "mp;" + tail) == 0
    && at(before + "&am", "p;" + tail) == 0 && at(before + "&amp", ";" + tail) == 0
  }

  lemma {:induction false} AmpsConcat(a: string, b: string)
    ensures Amps(a + b) == Amps(a) + Amps(b)
    decreases |a|
  {
    if a == "" {
      assert a + b == b;
    } else {
      AmpsConcat(a[1..], b);
      assert (a + b)[1..] == a[1..] + b;
      var first := if a[0] == '&' then "&amp;" else [a[0]];
      assert first + (Amps(a[1..]) + Amps(b)) == first + Amps(a[1..]) + Amps(b);
    }
  }

  lemma {:induction false} AmpsPlain(a: string)
    requires forall j :: 0 <= j < |a| ==> a[j] != '&'
    ensures Amps(a) == a
  {
    if a != "" {
      AmpsPlain(a[1..]);
      assert a == [a[0]] + a[1..];
    }
  }

  lemma AmpsNothing()
    ensures Amps("") == ""
  {
  }

  lemma AmpsOne(s: string)
    requires s != ""
    ensures Amps(s) == (if s[0] == '&' then "&amp;" else [s[0]]) + Amps(s[1..]) && Amps(s)[0] == s[0]
    ensures Amps([s[0]]) == if s[0] == '&' then "&amp;" else [s[0]]
  {
    assert [s[0]][1..] == "";
  }

  lemma OneOver(before: string, x: char, tail: string, at: Place)
    requires at(before, [x] + tail) == 0
    ensures Mark(before, [x] + tail, at) == [x] + Mark(before + [x], tail, at)
  {
    assert ([x] + tail)[1..] == tail;
  }

  lemma MarkOverAmp(before: string, tail: string, at: Place)
    requires PassesAmp(before, tail, at)
    ensures Mark(before, "&amp;" + tail, at) == "&amp;" + Mark(before + "&amp;", tail, at)
  {
    hide Mark;
    assert "&amp;" + tail == ['&'] + ("amp;" + tail) && "amp;" + tail == ['a'] + ("mp;" + tail);
    assert "mp;" + tail == ['m'] + ("p;" + tail) && "p;" + tail == ['p'] + (";" + tail) && ";" + tail == [';'] + tail;
    assert before + "&" + ['a'] == before + "&a" && before + "&a" + ['m'] == before + "&am";
    assert before + "&am" + ['p'] == before + "&amp" && before + "&amp" + [';'] == before + "&amp;";
    OneOver(before, '&', "amp;" + tail, at);
    OneOver(before + "&", 'a', "mp;" + tail, at);
    OneOver(before + "&a", 'm', "p;" + tail, at);
    OneOver(before + "&am", 'p', ";" + tail, at);
    OneOver(before + "&amp", ';', tail, at);
  }

  lemma AmpLiftsAt(before: string, s: string, at: Place, low: Place)
    requires AmpLifts(at, low) && s != ""
    ensures AmpLiftsHere(before, s, at, low)
  {
  }

  /** Marking the text with `&amp;` is writing out the `&` of the marked text. */
  lemma {:induction false} MarkAmps(before: string, s: string, at: Place, low: Place)
    requires AmpLifts(at, low)
    ensures Mark(Amps(before), Amps(s), at) == Amps(Mark(before, s, low))
    decreases |s|
  {
    hide AmpLifts, Mark, Amps, PassesAmp;
    AmpsNothing();
    if s == "" {
      MarkNothing(Amps(before), at);
      MarkNothing(before, low);
    } else {
      AmpLiftsAt(before, s, at, low);
      AmpsOne(s);
      var k := low(before, s);
      var head, tail := s[..if k == 0 then 1 else k], s[if k == 0 then 1 else k..];
      assert s == head + tail;
      AmpsConcat(head, tail);
      AmpsConcat(before, head);
      MarkAmps(before + head, tail, at, low);
      MarkHere(before, s, low);
      AmpsOne([ZW]);
      var rest := Mark(before + head, tail, low);
      AmpsConcat(head, rest);
      AmpsConcat(head + [ZW], rest);
      AmpsConcat(head, [ZW]);
      if s[0] == '&' {
        assert head == [s[0]] && tail == s[1..];
        if k == 0 {
          MarkOverAmp(Amps(before), Amps(tail), at);
        } else {
          MarkHead(Amps(before), "&amp;", Amps(tail), at);
        }
      } else {
        assert forall j :: 0 <= j < |head| ==> head[j] == s[j];
        AmpsPlain(head);
        assert head + "" == head;
        assert k == 0 ==> head == [s[0]];
        MarkPlain(Amps(before), head, Amps(tail), at, k);
      }
    }
  }

  lemma MarkHead(before: string, head: string, tail: string, at: Place)
    requires head != "" && at(before, head + tail) == |head|
    ensures Mark(before, head + tail, at) == head + [ZW] + Mark(before + head, tail, at)
  {
    hide Mark;
    MarkPlain(before, head, tail, at, |head|);
  }

  // ---- the six marks ------------------------------------------------------

  function AtAmp(c: Classes, before: string, s: string): nat {
    if |s| > 1 && s[0] == '&' && c.digit(s[1]) then 1 else 0
  }

  function AmpPlace(c: Classes): Place {
    (before, s) => AtAmp(c, before, s)
  }

  /** No mark falls where a character of `&amp;` stands. */
  ghost predicate SkipsAmp(at: Place) {
    forall before: string, s: string :: s != "" && s[0] in "&amp;" ==> at(before, s) == 0
  }

  lemma SkippedIsPassed(before: string, tail: string, at: Place)
    requires SkipsAmp(at)
    ensures PassesAmp(before, tail, at)
  {
    assert ("&amp;" + tail)[0] == '&' && ("amp;" + tail)[0] == 'a' && ("mp;" + tail)[0] == 'm';
    assert ("p;" + tail)[0] == 'p' && (";" + tail)[0] == ';';
  }

  lemma ClassesSkip(c: Classes)
    ensures SkipsAmp(LowSigilPlace(c)) && SkipsAmp(WwwPlace(c))
  {
  }

  lemma SignsSkip()
    ensures SkipsAmp(AtSign) && SkipsAmp(AtScheme) && SkipsAmp(LowEmoji)
  {
    forall before: string, s: string | s != "" && s[0] in "&amp;" ensures AtScheme(before, s) == 0 {
      SchemeHere(s);
    }
  }

  lemma AmpLiftsBy(before: string, s: string, at: Place, low: Place)
    requires SkipsAmp(at) && s != "" && low(before, s) <= |s|
    requires if s[0] == '&' then low(before, s) == 0
             else at(Amps(before), Amps(s)) == low(before, s) && forall j :: 0 <= j < low(before, s) ==> s[j] != '&'
    ensures AmpLiftsHere(before, s, at, low)
  {
    hide Amps, SkipsAmp;
    SkippedIsPassed(Amps(before), Amps(s[1..]), at);
  }

  lemma SignAmpLifts()
    ensures AmpLifts(AtSign, AtSign)
  {
    hide PassesAmp, SkipsAmp, Amps;
    SignsSkip();
    forall before: string, s: string | s != "" ensures AmpLiftsHere(before, s, AtSign, AtSign) {
      AmpsOne(s);
      AmpLiftsBy(before, s, AtSign, AtSign);
    }
  }

  lemma AmpsThree(s: string)
    ensures |s| > 0 ==> Amps(s) != "" && Amps(s)[0] == s[0] && (s[0] != '&' ==> Amps(s)[1..] == Amps(s[1..]))
    ensures s == "" ==> Amps(s) == ""
  {
  }

  lemma SchemeAmpLifts()
    ensures AmpLifts(AtScheme, AtScheme)
  {
    hide PassesAmp, SkipsAmp, Amps;
    SignsSkip();
    forall before: string, s: string | s != "" ensures AmpLiftsHere(before, s, AtScheme, AtScheme) {
      AmpsOne(s);
      AmpsThree(s);
      AmpsThree(s[1..]);
      if |s| > 1 {
        AmpsThree(s[1..][1..]);
      }
      SchemeHere(s);
      SchemeHere(Amps(s));
      AmpLiftsBy(before, s, AtScheme, AtScheme);
    }
  }

  lemma SigilAmpLifts(c: Classes)
    ensures AmpLifts(LowSigilPlace(c), LowSigilPlace(c))
  {
    hide PassesAmp, SkipsAmp, Amps;
    ClassesSkip(c);
    forall before: string, s: string | s != "" ensures AmpLiftsHere(before, s, LowSigilPlace(c), LowSigilPlace(c)) {
      AmpsOne(s);
      AmpsThree(s);
      AmpsThree(s[1..]);
      AmpLiftsBy(before, s, LowSigilPlace(c), LowSigilPlace(c));
    }
  }

  lemma EntityAmpLifts(c: Classes)
    ensures AmpLifts(EntityPlace(c), AmpPlace(c))
  {
    hide Amps;
    forall before: string, s: string | s != "" ensures AmpLiftsHere(before, s, EntityPlace(c), AmpPlace(c)) {
      AmpsOne(s);
      AmpsThree(s[1..]);
    }
  }

  lemma {:induction false} NameAmps(t: string)
    ensures NameLength(Amps(t)) == NameLength(t) <= |Amps(t)|
    ensures var n := NameLength(t);
            (|Amps(t)| == n <==> |t| == n) && (n < |t| ==> Amps(t)[n] == t[n]) && Amps(t)[..n] == t[..n]
    decreases |t|
  {
    hide IsName, Amps;
    AmpsNothing();
    if t != "" {
      AmpsOne(t);
      AmpsThree(t);
      NameAmps(t[1..]);
      if IsName(t[0]) {
        AmpIsNoName(t[0]);
        NameOnce(t);
        NameOnce(Amps(t));
        var n := NameLength(t);
        assert Amps(t) == [t[0]] + Amps(t[1..]) && t == [t[0]] + t[1..];
      } else {
        NoNameOnce(t);
        NoNameOnce(Amps(t));
      }
    }
  }

  lemma AmpIsNoName(x: char)
    requires IsName(x)
    ensures x != '&'
  {
  }

  lemma EmojiAmpLifts()
    ensures AmpLifts(LowEmoji, LowEmoji)
  {
    hide PassesAmp, SkipsAmp, Amps, NameLength;
    SignsSkip();
    forall before: string, s: string | s != "" ensures AmpLiftsHere(before, s, LowEmoji, LowEmoji) {
      AmpsOne(s);
      NameAmps(s[1..]);
      if s[0] == ':' {
        var n, t := NameLength(s[1..]), Amps(s[1..]);
        assert Amps(s)[1..] == t;
        assert Amps(s)[1..1 + n] == t[..n] && s[1..1 + n] == s[1..][..n];
        assert |Amps(s)| == |t| + 1;
        assert n < |t| ==> Amps(s)[1 + n] == t[n] && s[1 + n] == s[1..][n];
      }
      AmpLiftsBy(before, s, LowEmoji, LowEmoji);
    }
  }

  lemma WwwAmps(s: string)
    ensures IsWww(Amps(s)) <==> IsWww(s)
    ensures IsWww(s) ==> forall j :: 0 <= j < 3 ==> s[j] != '&'
  {
    hide Amps, IsWww;
    WwwByOne(s);
    WwwByOne(Amps(s));
    AmpsThree(s);
    if |s| > 0 {
      AmpsThree(s[1..]);
    }
    if |s| > 1 {
      AmpsThree(s[1..][1..]);
    }
    if |s| > 2 {
      AmpsThree(s[1..][1..][1..]);
    }
  }

  lemma LastAmps(before: string)
    ensures Amps(before) == "" <==> before == ""
    ensures before != "" ==> var x := before[|before| - 1]; Amps(before)[|Amps(before)| - 1] == if x == '&' then ';' else x
  {
    hide Amps;
    AmpsNothing();
    if before != "" {
      var n := |before| - 1;
      assert before == before[..n] + [before[n]];
      AmpsConcat(before[..n], [before[n]]);
      AmpsOne([before[n]]);
    }
  }

  lemma WwwAmpLifts(c: Classes)
    requires c.Valid()
    ensures AmpLifts(WwwPlace(c), WwwPlace(c))
  {
    hide PassesAmp, SkipsAmp, Amps, IsWww;
    ClassesSkip(c);
    forall before: string, s: string | s != "" ensures AmpLiftsHere(before, s, WwwPlace(c), WwwPlace(c)) {
      LastAmps(before);
      AmpsOne(s);
      WwwAmps(s);
      WwwLong(s);
      WwwStarts(s);
      AmpLiftsBy(before, s, WwwPlace(c), WwwPlace(c));
    }
  }

  lemma WwwStarts(s: string)
    ensures IsWww(s) ==> s[0] != '&'
  {
  }

  /** The words of a text with the marks that fall in them. */
  function WordsOnPage(c: Classes, s: string): string {
    Mark("", Mark("", FirstMarks(c, s), LowEmoji), WwwPlace(c))
  }

  function FirstMarks(c: Classes, s: string): string {
    Mark("", Mark("", MarkSchemes(MarkSigns(s)), LowSigilPlace(c)), AmpPlace(c))
  }

  /** On the page are the words with the marks put in them. */
  lemma PageIs(c: Classes, text: string)
    requires c.Valid()
    ensures Page(c, text) == WordsOnPage(c, Plain(text))
  {
    hide Plain, Amps, Mark, Unamp, Unescape, AmpLifts, Md;
    ReadIs(c, text);
    AmpsNothing();
    SignAmpLifts();
    SchemeAmpLifts();
    SigilAmpLifts(c);
    EntityAmpLifts(c);
    EmojiAmpLifts();
    WwwAmpLifts(c);
    var s := Plain(text);
    MarkAmps("", s, AtSign, AtSign);
    MarkAmps("", MarkSigns(s), AtScheme, AtScheme);
    var b := MarkSchemes(MarkSigns(s));
    MarkAmps("", b, LowSigilPlace(c), LowSigilPlace(c));
    MarkAmps("", Mark("", b, LowSigilPlace(c)), EntityPlace(c), AmpPlace(c));
    MarkAmps("", FirstMarks(c, s), LowEmoji, LowEmoji);
    MarkAmps("", Mark("", FirstMarks(c, s), LowEmoji), WwwPlace(c), WwwPlace(c));
    UnampAmps(WordsOnPage(c, s));
  }

  // ---- what is taken apart in the words ----------------------------------

  /** What is not taken apart: a reference or an emoji with an underscore. */
  ghost predicate Slips(c: Classes, p: string) {
    '_' in p && (IsReference(c, p) || IsEmoji(p))
  }

  lemma LowReferencesSplit(c: Classes, p: string)
    requires c.Valid() && IsReference(c, p) && '_' !in p
    ensures Splits(LowSigilPlace(c), p) && Within(LowSigilPlace(c))
  {
    assert p[1] in p;
    forall before: string, s: string | p <= s ensures LowSigilPlace(c)(before, s) > 0 {
      assert s[0] == p[0] && s[1] == p[1];
    }
  }

  lemma LowEmojiSplit(p: string)
    requires IsEmoji(p) && '_' !in p
    ensures Splits(LowEmoji, p) && Within(LowEmoji)
  {
    EmojiSplit(p);
    forall before: string, s: string | p <= s ensures LowEmoji(before, s) > 0 {
      NameOfEmoji(p, s);
      assert forall k :: 0 <= k < |p| ==> s[k] == p[k] && p[k] in p;
    }
  }

  lemma NameOfEmoji(p: string, s: string)
    requires IsEmoji(p) && p <= s
    ensures NameLength(s[1..]) == |p| - 2 && ":" <= s && s[|p| - 1] == ':' && s[1..|p| - 1] == p[1..|p| - 1]
  {
    assert forall k :: 0 <= k < |p| ==> s[k] == p[k];
    assert s[1..][|p| - 2] == ':';
    assert forall k :: 0 <= k < |p| - 2 ==> s[1..][k] == p[k + 1];
  }

  /** `at` never puts a mark between two parts of a place where `p` is. */
  ghost predicate NotInside(at: Place, p: string) {
    forall before: string, s: string, m: nat ::
      0 < at(before, s) <= |s| && 0 < m < |p|
      ==> !(Text.EndsWith(before + s[..at(before, s)], p[..m]) && p[m..] <= s[at(before, s)..])
  }

  lemma NoneInside(at: Place, p: string, before: string, s: string, m: nat)
    requires NotInside(at, p) && Within(at)
    ensures at(before, s) <= |s|
    ensures 0 < at(before, s) && 0 < m < |p| && Text.EndsWith(before + s[..at(before, s)], p[..m])
            ==> !(p[m..] <= s[at(before, s)..])
  {
    hide Text.EndsWith;
  }

  lemma {:induction false} PrefixKept(before: string, s: string, at: Place, p: string, m: nat)
    requires NotInside(at, p) && Within(at)
    requires m <= |p| && Text.EndsWith(before, p[..m]) && p[m..] <= s
    ensures p[m..] <= Mark(before, s, at)
    decreases |s|
  {
    hide Text.EndsWith, NotInside, Within, Mark;
    if m < |p| {
      var k := at(before, s);
      NoneInside(at, p, before, s, m + k);
      MarkHere(before, s, at);
      if k == 0 {
        EndsWithOneMore(before, p, m, s[0]);
        PrefixTail(p[m..], s);
        PrefixKept(before + [s[0]], s[1..], at, p, m + 1);
        assert p[m..] == [p[m]] + p[m + 1..];
      } else if k < |p| - m {
        EndsWithMore(before, p, m, s, k);
        PrefixDrop(p, m, s, k);
        assert false;
      } else {
        assert p[m..] <= s[..k];
      }
    }
  }

  lemma PrefixTail(p: string, s: string)
    requires p != "" && p <= s
    ensures p[1..] <= s[1..] && p[0] == s[0]
  {
  }

  lemma PrefixDrop(p: string, m: nat, s: string, k: nat)
    requires m + k <= |p| && p[m..] <= s
    ensures k <= |s| && p[m + k..] <= s[k..]
  {
    assert p[m + k..] == p[m..][k..];
  }

  lemma EndsWithOneMore(before: string, p: string, m: nat, x: char)
    requires m < |p| && Text.EndsWith(before, p[..m]) && p[m] == x
    ensures Text.EndsWith(before + [x], p[..m + 1])
  {
    var t := before + [x];
    assert p[..m + 1] == p[..m] + [x];
    assert t[|t| - (m + 1)..] == before[|before| - m..] + [x];
  }

  lemma EndsWithMore(before: string, p: string, m: nat, s: string, k: nat)
    requires m + k <= |p| && k <= |s| && Text.EndsWith(before, p[..m]) && p[m..] <= s
    ensures Text.EndsWith(before + s[..k], p[..m + k])
  {
    var t := before + s[..k];
    assert s[..k] == p[m..][..k] == p[m..m + k];
    assert p[..m + k] == p[..m] + p[m..m + k];
    assert t[|t| - (m + k)..] == before[|before| - m..] + s[..k];
  }

  lemma {:induction false} OccursKept(before: string, s: string, at: Place, p: string, i: nat)
    requires NotInside(at, p) && Within(at) && i <= |s| && p <= s[i..]
    ensures Occurs(p, Mark(before, s, at))
    decreases |s|
  {
    hide NotInside, Within, Mark, Occurs, Text.EndsWith;
    if i == 0 {
      assert s[0..] == s && p[..0] == "" && p[0..] == p;
      EndsWithNothing(before);
      PrefixKept(before, s, at, p, 0);
      OccursAt(p, Mark(before, s, at), 0);
    } else {
      var k := at(before, s);
      NoneInside(at, p, before, s, if k > i then k - i else 0);
      MarkHere(before, s, at);
      if k == 0 {
        assert s[1..][i - 1..] == s[i..];
        OccursKept(before + [s[0]], s[1..], at, p, i - 1);
        OccursLater([s[0]], Mark(before + [s[0]], s[1..], at), p);
      } else if k <= i {
        assert s[k..][i - k..] == s[i..];
        OccursKept(before + s[..k], s[k..], at, p, i - k);
        OccursLater(s[..k] + [ZW], Mark(before + s[..k], s[k..], at), p);
      } else if i + |p| <= k {
        OccursInFront(p, s, i, k, [ZW] + Mark(before + s[..k], s[k..], at));
        assert s[..k] + ([ZW] + Mark(before + s[..k], s[k..], at)) == Mark(before, s, at);
      } else {
        EndsWithSlice(before, s, i, k);
        SliceOfPrefix(p, s, i, k);
        assert false;
      }
    }
  }

  lemma EndsWithNothing(before: string)
    ensures Text.EndsWith(before, "")
  {
  }

  lemma OccursInFront(p: string, s: string, i: nat, k: nat, rest: string)
    requires i + |p| <= k <= |s| && p <= s[i..]
    ensures Occurs(p, s[..k] + rest)
  {
    var t := s[..k] + rest;
    assert t[i..][..|p|] == s[i..][..|p|] == p;
    OccursAt(p, t, i);
  }

  lemma SliceOfPrefix(p: string, s: string, i: nat, k: nat)
    requires i < k < i + |p| && k <= |s| && p <= s[i..]
    ensures s[i..k] == p[..k - i] && p[k - i..] <= s[k..]
  {
    assert s[i..][..k - i] == s[i..k];
    assert s[i..][..|p|][k - i..] == s[k..i + |p|];
  }

  lemma EndsWithSlice(before: string, s: string, i: nat, k: nat)
    requires i <= k <= |s|
    ensures Text.EndsWith(before + s[..k], s[i..k])
  {
    var t := before + s[..k];
    assert t[|t| - (k - i)..] == s[i..k];
  }

  lemma OccursAt(p: string, t: string, i: nat)
    requires i <= |t| && p <= t[i..]
    ensures Occurs(p, t)
  {
  }

  lemma OccursLater(a: string, t: string, p: string)
    requires Occurs(p, t)
    ensures Occurs(p, a + t)
  {
    var i :| 0 <= i <= |t| && p <= t[i..];
    assert (a + t)[|a| + i..] == t[i..];
  }

  // ---- what slips through is not taken apart -----------------------------

  /** A mark that `at` puts comes between two parts of a place where `p` is. */
  ghost predicate Parts(at: Place, before: string, s: string, p: string, m: nat) {
    && 0 < at(before, s) <= |s| && 0 < m < |p|
    && s[at(before, s) - 1] == p[m - 1] && p[m..] <= s[at(before, s)..]
  }

  lemma NotInsideBy(at: Place, p: string)
    requires forall before: string, s: string, m: nat :: !Parts(at, before, s, p, m)
    ensures NotInside(at, p)
  {
    forall before: string, s: string, m: nat | 0 < at(before, s) <= |s| && 0 < m < |p|
      ensures !(Text.EndsWith(before + s[..at(before, s)], p[..m]) && p[m..] <= s[at(before, s)..])
    {
      var t := before + s[..at(before, s)];
      if Text.EndsWith(t, p[..m]) {
        assert t[|t| - m..][m - 1] == t[|t| - 1] == s[at(before, s) - 1];
        assert p[..m][m - 1] == p[m - 1];
      }
      assert !Parts(at, before, s, p, m);
    }
  }

  /** Two characters next to each other in what slips through. */
  ghost predicate Adjacent(p: string, m: nat)
    requires 0 < m < |p|
  {
    && p[m - 1] != '@' && p[m - 1] != '&'
    && (p[m - 1] == ':' ==> m == 1 && IsEmoji(p) && p[m] != '/')
    && (p[m - 1] in "#!$%" ==> p[m] == '_')
  }

  /** No `w` stands before a dot. */
  ghost predicate NoWBeforeDot(p: string, m: nat)
    requires 0 < m < |p|
  {
    IsW(p[m - 1]) ==> p[m] != '.'
  }

  lemma SlipChars(c: Classes, p: string)
    requires c.Valid() && Slips(c, p)
    ensures |p| > 1 && forall m :: 0 < m < |p| ==> Adjacent(p, m) && NoWBeforeDot(p, m)
    ensures ZW !in p
  {
    if IsReference(c, p) {
      assert p == [p[0], p[1]];
    } else {
      assert forall k :: 0 < k < |p| - 1 ==> IsName(p[k]);
      PlainOf(p);
    }
  }

  lemma SlipsStay(c: Classes, p: string)
    requires c.Valid() && Slips(c, p)
    ensures NotInside(AtSign, p) && NotInside(AtScheme, p) && NotInside(LowSigilPlace(c), p)
    ensures NotInside(AmpPlace(c), p) && NotInside(LowEmoji, p) && NotInside(WwwPlace(c), p)
  {
    hide NotInside, Slips, NameLength, Adjacent, NoWBeforeDot, IsWww;
    SlipChars(c, p);
    forall before: string, s: string, m: nat ensures !Parts(AtSign, before, s, p, m) {
      SignApart(before, s, p, m);
    }
    NotInsideBy(AtSign, p);
    forall before: string, s: string, m: nat ensures !Parts(AtScheme, before, s, p, m) {
      SchemeApart(before, s, p, m);
    }
    NotInsideBy(AtScheme, p);
    forall before: string, s: string, m: nat ensures !Parts(LowSigilPlace(c), before, s, p, m) {
      SigilApart(c, before, s, p, m);
    }
    NotInsideBy(LowSigilPlace(c), p);
    forall before: string, s: string, m: nat ensures !Parts(AmpPlace(c), before, s, p, m) {
      AmpApart(c, before, s, p, m);
    }
    NotInsideBy(AmpPlace(c), p);
    forall before: string, s: string, m: nat ensures !Parts(LowEmoji, before, s, p, m) {
      EmojiApart(c, before, s, p, m);
    }
    NotInsideBy(LowEmoji, p);
    forall before: string, s: string, m: nat ensures !Parts(WwwPlace(c), before, s, p, m) {
      WwwApart(c, before, s, p, m);
    }
    NotInsideBy(WwwPlace(c), p);
  }

  lemma SignApart(before: string, s: string, p: string, m: nat)
    requires 0 < m < |p| ==> Adjacent(p, m)
    ensures !Parts(AtSign, before, s, p, m)
  {
  }

  lemma SchemeApart(before: string, s: string, p: string, m: nat)
    requires 0 < m < |p| ==> Adjacent(p, m)
    ensures !Parts(AtScheme, before, s, p, m)
  {
    SchemeHere(s);
    assert 0 < m < |p| && |s| > 1 && p[m..] <= s[1..] ==> s[1..][0] == p[m..][0];
  }

  lemma SigilApart(c: Classes, before: string, s: string, p: string, m: nat)
    requires 0 < m < |p| ==> Adjacent(p, m)
    ensures !Parts(LowSigilPlace(c), before, s, p, m)
  {
    assert 0 < m < |p| && |s| > 1 && p[m..] <= s[1..] ==> s[1..][0] == p[m..][0];
  }

  lemma AmpApart(c: Classes, before: string, s: string, p: string, m: nat)
    requires 0 < m < |p| ==> Adjacent(p, m)
    ensures !Parts(AmpPlace(c), before, s, p, m)
  {
  }

  lemma EmojiApart(c: Classes, before: string, s: string, p: string, m: nat)
    requires Slips(c, p) && (0 < m < |p| ==> Adjacent(p, m))
    ensures !Parts(LowEmoji, before, s, p, m)
  {
    hide NameLength, IsEmoji, Slips;
    if m == 1 && |p| > 1 && s != "" && s[0] == p[0] == ':' && p[1..] <= s[1..] && Adjacent(p, 1) {
      assert p == [p[0]] + p[1..] && s == [s[0]] + s[1..];
      NameOfEmoji(p, s);
      UnderscoreInName(c, p);
    }
  }

  lemma UnderscoreInName(c: Classes, p: string)
    requires IsEmoji(p) && Slips(c, p)
    ensures '_' in p[1..|p| - 1]
  {
    assert p == [p[0]] + p[1..|p| - 1] + [p[|p| - 1]];
  }

  lemma WwwApart(c: Classes, before: string, s: string, p: string, m: nat)
    requires 0 < m < |p| ==> NoWBeforeDot(p, m)
    ensures !Parts(WwwPlace(c), before, s, p, m)
  {
    assert 0 < m < |p| && |s| > 3 && p[m..] <= s[3..] ==> s[3..][0] == p[m..][0];
  }

  // ---- as read -----------------------------------------------------------

  lemma Marks(p: string, s: string, at: Place)
    requires ZW !in p && Within(at)
    ensures Occurs(p, Mark("", s, at)) ==> Occurs(p, s)
    ensures Splits(at, p) ==> !Occurs(p, Mark("", s, at))
    ensures NotInside(at, p) && Occurs(p, s) ==> Occurs(p, Mark("", s, at))
  {
    hide Mark, Splits, NotInside;
    if !Occurs(p, s) {
      NoneMadeByMarks(p, "", s, at);
    } else if NotInside(at, p) {
      var i :| 0 <= i <= |s| && p <= s[i..];
      OccursKept("", s, at, p, i);
    }
    if Splits(at, p) {
      Gone(p, s, at);
    }
  }

  lemma AllWithin(c: Classes)
    ensures Within(AtSign) && Within(AtScheme) && Within(LowSigilPlace(c)) && Within(LowEmoji)
    ensures Within(AmpPlace(c)) && Within(WwwPlace(c))
  {
  }

  /** What is banned on the page: a mention, a link by its scheme, a reference, a numbered
      one, or an emoji. */
  ghost predicate BannedRead(c: Classes, p: string) {
    IsMention(p) || p == "://" || IsReference(c, p) || IsAmpNumber(c, p) || IsEmoji(p)
  }

  predicate IsAmpNumber(c: Classes, p: string) {
    |p| == 2 && p[0] == '&' && c.digit(p[1])
  }

  lemma BannedReadIsPlain(c: Classes, p: string)
    requires c.Valid() && BannedRead(c, p)
    ensures ZW !in p
  {
    if IsEmoji(p) {
      EmojiSplit(p);
    }
  }

  /** On the page, of all that is banned only this is read: a reference or an emoji with an
      underscore, just when it is in the words. */
  lemma AsRead(c: Classes, text: string, p: string)
    requires c.Valid() && BannedRead(c, p)
    ensures Occurs(p, Page(c, text)) <==> Slips(c, p) && Occurs(p, Plain(text))
  {
    hide Plain, Mark, Occurs, Splits, Within, NotInside, Slips, Page, IsMention, IsReference, IsAmpNumber, IsEmoji;
    PageIs(c, text);
    BannedReadIsPlain(c, p);
    AllWithin(c);
    var a := Plain(text);
    var b := MarkSchemes(MarkSigns(a));
    var d := Mark("", b, LowSigilPlace(c));
    var e := FirstMarks(c, a);
    Marks(p, a, AtSign);
    Marks(p, MarkSigns(a), AtScheme);
    Marks(p, b, LowSigilPlace(c));
    Marks(p, d, AmpPlace(c));
    Marks(p, e, LowEmoji);
    Marks(p, Mark("", e, LowEmoji), WwwPlace(c));
    if Slips(c, p) {
      SlipsStay(c, p);
    } else {
      SplitSomewhere(c, p);
    }
  }

  /** What does not slip through is taken apart by one of the marks. */
  lemma SplitSomewhere(c: Classes, p: string)
    requires c.Valid() && BannedRead(c, p) && !Slips(c, p)
    ensures Splits(AtSign, p) || Splits(AtScheme, p) || Splits(LowSigilPlace(c), p)
            || Splits(AmpPlace(c), p) || Splits(LowEmoji, p)
  {
    hide Splits, IsMention, IsReference, IsAmpNumber, IsEmoji;
    if IsMention(p) {
      MentionsSplit(p);
    } else if p == "://" {
      SchemesSplit();
    } else if IsReference(c, p) {
      LowReferencesSplit(c, p);
    } else if IsAmpNumber(c, p) {
      AmpNumbersSplit(c, p);
    } else {
      LowEmojiSplit(p);
    }
  }

  lemma AmpNumbersSplit(c: Classes, p: string)
    requires c.Valid() && IsAmpNumber(c, p)
    ensures Splits(AmpPlace(c), p)
  {
    forall before: string, s: string | p <= s ensures AmpPlace(c)(before, s) > 0 {
      assert s[0] == p[0] && s[1] == p[1];
    }
  }

  // ---- links by `www.` ----------------------------------------------------

  /** What an extended autolink of the GitHub Flavored Markdown Spec, section 6.9, can follow. */
  predicate OpensLink(x: char) {
    Text.IsSpace(x) || x in "*_~("
  }

  /** A `www.` stands where such a link can begin. */
  ghost predicate LinkBegins(t: string) {
    exists i :: 0 <= i < |t| && LinkAt(t, i)
  }

  predicate LinkAt(t: string, i: nat)
    requires i < |t|
  {
    IsWww(t[i..]) && (i == 0 || OpensLink(t[i - 1]))
  }

  /** An underscore and `www.` after it. */
  predicate IsUnderscored(p: string) {
    |p| == 5 && p[0] == '_' && IsWww(p[1..])
  }

  /** No word begins `www.` on the page, the underscore being a part of words. */
  lemma NoWordIsWww(c: Classes, text: string)
    requires c.Valid()
    ensures NoBareWww(c, "", Page(c, text))
  {
    hide Plain, Mark, NoBareWww, Page;
    PageIs(c, text);
    WwwSplit(c, "", "", Mark("", FirstMarks(c, Plain(text)), LowEmoji));
  }

  /** So a link begins just where an underscore stands before `www.`. */
  lemma LinkIsUnderscored(c: Classes, t: string)
    requires c.Valid() && NoBareWww(c, "", t)
    ensures LinkBegins(t) <==> exists p :: IsUnderscored(p) && Occurs(p, t)
    ensures LinkBegins(t) ==> c.word('_')
  {
    hide IsWww;
    if i :| 0 <= i < |t| && LinkAt(t, i) {
      assert "" + t[..i] == t[..i];
      assert i > 0 && t[..i][i - 1] == t[i - 1];
      assert t[i - 1] == '_';
      FirstFive(t, i - 1);
    }
    if p :| IsUnderscored(p) && Occurs(p, t) {
      var i :| 0 <= i <= |t| && p <= t[i..];
      UnderscoredThere(t, i, p);
      assert LinkAt(t, i + 1);
    }
  }

  lemma FirstFive(t: string, i: nat)
    requires i + 1 < |t| && t[i] == '_' && IsWww(t[i + 1..])
    ensures i + 5 <= |t| && IsUnderscored(t[i..i + 5]) && Occurs(t[i..i + 5], t)
  {
    var u := t[i..i + 5][1..];
    assert forall k :: 0 <= k < 4 ==> u[k] == t[i + 1..][k];
    assert t[i..][..5] == t[i..i + 5];
  }

  lemma UnderscoredThere(t: string, i: nat, p: string)
    requires i <= |t| && IsUnderscored(p) && p <= t[i..]
    ensures i + 5 <= |t| && t[i] == '_' && IsWww(t[i + 1..])
  {
    assert forall k :: 0 <= k < 5 ==> t[i..][k] == p[k];
    assert forall k :: 0 <= k < 4 ==> t[i + 1..][k] == p[1..][k];
  }

  lemma UnderscoredStays(c: Classes, p: string)
    requires c.word('_') && IsUnderscored(p)
    ensures ZW !in p
    ensures NotInside(AtSign, p) && NotInside(AtScheme, p) && NotInside(LowSigilPlace(c), p)
    ensures NotInside(AmpPlace(c), p) && NotInside(LowEmoji, p) && NotInside(WwwPlace(c), p)
  {
    hide NotInside, IsWww, IsEmoji, NameLength;
    FiveChars(p);
    forall before: string, s: string, m: nat
      ensures !Parts(AtSign, before, s, p, m) && !Parts(AtScheme, before, s, p, m)
           && !Parts(LowSigilPlace(c), before, s, p, m) && !Parts(AmpPlace(c), before, s, p, m)
           && !Parts(LowEmoji, before, s, p, m)
    {
    }
    NotInsideBy(AtSign, p);
    NotInsideBy(AtScheme, p);
    NotInsideBy(LowSigilPlace(c), p);
    NotInsideBy(AmpPlace(c), p);
    NotInsideBy(LowEmoji, p);
    WwwNotInside(c, p);
  }

  lemma FiveChars(p: string)
    requires IsUnderscored(p)
    ensures |p| == 5 && p[0] == '_' && IsW(p[1]) && IsW(p[2]) && IsW(p[3]) && p[4] == '.' && ZW !in p
  {
    assert forall k :: 0 <= k < 4 ==> p[1..][k] == p[k + 1];
    PlainOf(p);
  }

  /** After an underscore no mark is put into a `www.`. */
  lemma WwwNotInside(c: Classes, p: string)
    requires c.word('_') && IsUnderscored(p)
    ensures NotInside(WwwPlace(c), p)
  {
    hide Text.EndsWith;
    FiveChars(p);
    forall before: string, s: string, m: nat | 0 < WwwPlace(c)(before, s) <= |s| && 0 < m < |p|
      ensures !(Text.EndsWith(before + s[..WwwPlace(c)(before, s)], p[..m]) && p[m..] <= s[WwwPlace(c)(before, s)..])
    {
      if p[m..] <= s[3..] && Text.EndsWith(before + s[..3], p[..m]) {
        assert p[m] == s[3] == '.';
        UnderscoreBefore(before, s[..3], p);
      }
    }
  }

  lemma UnderscoreBefore(before: string, head: string, p: string)
    requires |head| == 3 && |p| == 5 && Text.EndsWith(before + head, p[..4])
    ensures before != "" && before[|before| - 1] == p[0]
  {
    var t := before + head;
    assert t[|t| - 4..][0] == p[..4][0];
  }

  /** On the page a link by `www.` can begin if and only if an underscore stands right before
      a `www.` in the words, the underscore being a word character. */
  lemma LinksRead(c: Classes, text: string)
    requires c.Valid()
    ensures LinkBegins(Page(c, text)) <==> c.word('_') && exists p :: IsUnderscored(p) && Occurs(p, Plain(text))
  {
    hide LinkBegins, IsUnderscored, Occurs, Page, Plain, NoBareWww;
    NoWordIsWww(c, text);
    LinkIsUnderscored(c, Page(c, text));
    if c.word('_') {
      forall p | IsUnderscored(p) ensures Occurs(p, Page(c, text)) <==> Occurs(p, Plain(text)) {
        UnderscoredRead(c, text, p);
      }
    }
  }

  lemma UnderscoredRead(c: Classes, text: string, p: string)
    requires c.Valid() && c.word('_') && IsUnderscored(p)
    ensures Occurs(p, Page(c, text)) <==> Occurs(p, Plain(text))
  {
    hide Plain, Mark, Occurs, Within, NotInside, Splits, Page, IsUnderscored;
    PageIs(c, text);
    UnderscoredStays(c, p);
    AllWithin(c);
    var a := Plain(text);
    var b := MarkSchemes(MarkSigns(a));
    var e := FirstMarks(c, a);
    Marks(p, a, AtSign);
    Marks(p, MarkSigns(a), AtScheme);
    Marks(p, b, LowSigilPlace(c));
    Marks(p, Mark("", b, LowSigilPlace(c)), AmpPlace(c));
    Marks(p, e, LowEmoji);
    Marks(p, Mark("", e, LowEmoji), WwwPlace(c));
  }

  // ---- markers of lists and rules -----------------------------------------

  /** A character of a list marker, of a rule of hyphens, or of what follows a marker. */
  predicate IsMarker(x: char) {
    Text.IsDigit(x) || x in "-+.) "
  }

  /** A mark falls only after characters that are no markers. */
  ghost predicate Calm(at: Place) {
    forall before: string, s: string :: s != "" && IsMarker(s[0]) ==> at(before, s) == 0
  }

  lemma {:induction false} MarkKeepsMarkers(q: string, before: string, s: string, at: Place)
    requires Calm(at) && forall k :: 0 <= k < |q| ==> IsMarker(q[k])
    ensures q <= Mark(before, s, at) <==> q <= s
    ensures |Mark(before, s, at)| == 0 <==> |s| == 0
    decreases |q|
  {
    hide Calm, IsMarker;
    if q != "" && s != "" {
      var t := Mark(before, s, at);
      assert t != "" && t[0] == s[0];
      assert q == [q[0]] + q[1..] && s == [s[0]] + s[1..] && t == [t[0]] + t[1..];
      if s[0] == q[0] {
        CalmHere(before, s, at);
        MarkKeepsMarkers(q[1..], before + [s[0]], s[1..], at);
        assert t[1..] == Mark(before + [s[0]], s[1..], at);
      }
    }
  }

  lemma CalmHere(before: string, s: string, at: Place)
    requires Calm(at) && s != "" && IsMarker(s[0])
    ensures at(before, s) == 0
  {
  }

  lemma AllCalm(c: Classes)
    ensures Calm(AtSign) && Calm(AtScheme) && Calm(SigilPlace(c)) && Calm(EntityPlace(c)) && Calm(AtEmoji)
    ensures Calm(WwwPlace(c))
  {
  }

  /** Whatever list marker or rule the words begin with is still there, unescaped, in the
      encoded text, and none is made. */
  lemma MarkersStay(c: Classes, text: string, q: string)
    requires forall k :: 0 <= k < |q| ==> IsMarker(q[k])
    ensures q <= Md(c, text) <==> q <= Plain(text)
  {
    MarkersPlain(q);
    hide Plain, Escape, Amps, Mark, Calm, IsMarker, IsSpecial;
    AllCalm(c);
    var s := Escape(Amps(Plain(text)));
    var a := MarkSchemes(MarkSigns(s));
    var e := MarkEntities(c, MarkSigils(c, a));
    AmpsPrefix(q, Plain(text));
    PrefixEscaped(q, Amps(Plain(text)));
    MarkKeepsMarkers(q, "", s, AtSign);
    MarkKeepsMarkers(q, "", MarkSigns(s), AtScheme);
    MarkKeepsMarkers(q, "", a, SigilPlace(c));
    MarkKeepsMarkers(q, "", MarkSigils(c, a), EntityPlace(c));
    MarkKeepsMarkers(q, "", e, AtEmoji);
    MarkKeepsMarkers(q, "", MarkEmoji(e), WwwPlace(c));
  }

  lemma MarkersPlain(q: string)
    requires forall k :: 0 <= k < |q| ==> IsMarker(q[k])
    ensures '&' !in q && forall k :: 0 <= k < |q| ==> !IsSpecial(q[k]) && q[k] != '\\'
  {
  }

  lemma {:induction false} AmpsPrefix(p: string, s: string)
    requires '&' !in p
    ensures p <= Amps(s) <==> p <= s
    decreases |p|
  {
    if p != "" && s != "" {
      var t := Amps(s);
      assert p[0] in p;
      if s[0] != '&' {
        assert t[1..] == Amps(s[1..]);
        assert forall k :: 0 <= k < |p[1..]| ==> p[1..][k] in p;
        AmpsPrefix(p[1..], s[1..]);
        assert p == [p[0]] + p[1..] && s == [s[0]] + s[1..] && t == [t[0]] + t[1..];
      }
    }
  }

  // ---- the inputs --------------------------------------------------------

  lemma {:induction false} OrderedAlready(s: string)
    requires forall k :: 0 <= k < |s| ==> !IsReordering(s[k])
    ensures Ordered(s) == s
  {
    if s != "" {
      OrderedAlready(s[1..]);
    }
  }

  /** `:a_b:` and, for a class of word characters that has the underscore, `#_` come through. */
  lemma UnderscoresSlip(c: Classes)
    requires c.Valid()
    ensures IsEmoji(":a_b:") && Occurs(":a_b:", Page(c, ":a_b:"))
    ensures c.word('_') ==> IsReference(c, "#_") && Occurs("#_", Page(c, "#_"))
  {
    hide Plain, Page, Occurs;
    assert ":a_b:"[2] == '_' && "#_"[1] == '_';
    SpacedAlready(":a_b:");
    SpacedAlready("#_");
    OccursInItself(":a_b:");
    OccursInItself("#_");
    AsRead(c, ":a_b:", ":a_b:");
    if c.word('_') {
      AsRead(c, "#_", "#_");
    }
  }

  /** So does `_www.a`, as a link. */
  lemma UnderscoredLinkBegins(c: Classes)
    requires c.Valid() && c.word('_')
    ensures LinkBegins(Page(c, "_www.a"))
  {
    hide Plain, Page, LinkBegins, IsWww;
    var s := "_www.a";
    SpacedAlready(s);
    assert IsWww(s[1..]) by {
      assert s[1..] == "www.a";
      WwwByOne(s[1..]);
    }
    FirstFive(s, 0);
    LinksRead(c, s);
  }

  /** And a text that begins a list is one item of a list. */
  lemma ListBegins(c: Classes)
    ensures "- " <= Md(c, "- a") && "1. " <= Md(c, "1. a") && "---" <= Md(c, "---")
  {
    hide Plain, Md;
    SpacedAlready("- a");
    SpacedAlready("1. a");
    SpacedAlready("---");
    assert "- a"[..2] == "- " && "1. a"[..3] == "1. ";
    MarkersStay(c, "- a", "- ");
    MarkersStay(c, "1. a", "1. ");
    MarkersStay(c, "---", "---");
  }

  /** Single spaces inside a text stay. */
  lemma SpacedAlready(s: string)
    requires s != "" && !Text.IsSpace(s[0]) && !Text.IsSpace(s[|s| - 1])
    requires forall k :: 0 <= k < |s| ==> (Text.IsSpace(s[k]) ==> s[k] == ' ') && !IsReordering(s[k])
    requires forall k :: 0 <= k < |s| - 1 ==> !Text.IsSpace(s[k]) || !Text.IsSpace(s[k + 1])
    ensures Plain(s) == s
  {
    Text.CollapsedSingle(s);
    Text.StripTight(s);
    OrderedAlready(s);
  }

  lemma OccursInItself(s: string)
    ensures Occurs(s, s)
  {
    assert s[0..] == s;
  }
}
