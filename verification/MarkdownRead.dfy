/** What encoded text is once its backslashes are taken for what they are: the words, with the
    marks where they fall in them. */
module MarkdownRead {
  import Text
  import opened Markdown

  // ---- the marks, as they fall in the words ------------------------------

  /** Where `at` puts a mark in escaped text is where `low` puts it in the text. */
  ghost predicate Lifts(at: Place, low: Place) {
    forall before: string, s: string :: s != "" ==> LiftsHere(before, s, at, low)
  }

  ghost predicate LiftsHere(before: string, s: string, at: Place, low: Place)
    requires s != ""
  {
    && low(before, s) <= |s|
    && (!IsSpecial(s[0]) ==>
         && at(Escape(before), Escape(s)) == low(before, s)
         && forall j :: 0 <= j < low(before, s) ==> !IsSpecial(s[j]))
    && (IsSpecial(s[0]) ==>
         && at(Escape(before), Escape(s)) == 0 && low(before, s) <= 1
         && at(Escape(before) + ['\\'], Escape(s)[1..]) == low(before, s))
  }

  lemma {:induction false} EscapeConcat(a: string, b: string)
    ensures Escape(a + b) == Escape(a) + Escape(b)
    decreases |a|
  {
    if a == "" {
      assert a + b == b;
    } else {
      EscapeConcat(a[1..], b);
      assert (a + b)[1..] == a[1..] + b;
      var first := if IsSpecial(a[0]) then ['\\', a[0]] else [a[0]];
      assert first + (Escape(a[1..]) + Escape(b)) == first + Escape(a[1..]) + Escape(b);
    }
  }

  lemma {:induction false} EscapePlain(a: string)
    requires forall j :: 0 <= j < |a| ==> !IsSpecial(a[j])
    ensures Escape(a) == a
  {
    if a != "" {
      EscapePlain(a[1..]);
      assert a == [a[0]] + a[1..];
    }
  }

  lemma EscapeOne(x: char)
    ensures Escape([x]) == if IsSpecial(x) then ['\\', x] else [x]
  {
    assert [x][1..] == "" && Escape("") == "";
  }

  /** Marking the escaped text is escaping the marked text. */
  lemma {:induction false} MarkEscaped(before: string, s: string, at: Place, low: Place)
    requires Lifts(at, low)
    ensures Mark(Escape(before), Escape(s), at) == Escape(Mark(before, s, low))
    decreases |s|
  {
    hide Lifts, IsSpecial, Mark, Escape;
    if s == "" {
      MarkNothing(Escape(before), at);
      MarkNothing(before, low);
    } else {
      LiftsAt(before, s, at, low);
      var k := low(before, s);
      var head, tail := s[..if k == 0 then 1 else k], s[if k == 0 then 1 else k..];
      assert s == head + tail;
      EscapeConcat(head, tail);
      EscapeConcat(before, head);
      MarkEscaped(before + head, tail, at, low);
      MarkHere(before, s, low);
      EscapeOne(s[0]);
      EscapeOne(ZW);
      ZWNotSpecial();
      var rest := Mark(before + head, tail, low);
      EscapeConcat(head, rest);
      EscapeConcat(head + [ZW], rest);
      EscapeConcat(head, [ZW]);
      if IsSpecial(s[0]) {
        assert head == [s[0]];
        MarkSpecial(Escape(before), s[0], Escape(tail), at, k);
        assert Escape(before) + ['\\'] + [s[0]] == Escape(before) + ['\\', s[0]];
      } else {
        assert forall j :: 0 <= j < |head| ==> head[j] == s[j];
        EscapePlain(head);
        assert Escape(s) == head + Escape(tail) && head + "" == head;
        assert k == 0 ==> head == [s[0]];
        MarkPlain(Escape(before), head, Escape(tail), at, k);
      }
    }
  }

  lemma ZWNotSpecial()
    ensures !IsSpecial(ZW)
  {
  }

  lemma EscapeNothing()
    ensures Escape("") == ""
  {
  }

  lemma MarkNothing(before: string, at: Place)
    ensures Mark(before, "", at) == "" && Mark(before, Escape(""), at) == "" && Escape("") == ""
  {
  }

  lemma MarkHere(before: string, s: string, at: Place)
    requires s != "" && at(before, s) <= |s|
    ensures var k := at(before, s);
            Mark(before, s, at) == if k > 0 then s[..k] + [ZW] + Mark(before + s[..k], s[k..], at)
                                   else [s[0]] + Mark(before + [s[0]], s[1..], at)
  {
  }

  lemma LiftsAt(before: string, s: string, at: Place, low: Place)
    requires Lifts(at, low) && s != ""
    ensures low(before, s) <= |s|
    ensures !IsSpecial(s[0]) ==> at(Escape(before), Escape(s)) == low(before, s)
                                 && forall j :: 0 <= j < low(before, s) ==> !IsSpecial(s[j])
    ensures IsSpecial(s[0]) ==> at(Escape(before), Escape(s)) == 0 && low(before, s) <= 1
                                && at(Escape(before) + ['\\'], Escape(s)[1..]) == low(before, s)
  {
    hide IsSpecial, Escape;
    assert LiftsHere(before, s, at, low);
  }

  lemma MarkPlain(before: string, head: string, tail: string, at: Place, k: nat)
    requires head != "" && at(before, head + tail) == k && |head| == if k == 0 then 1 else k
    ensures Mark(before, head + tail, at) == head + (if k == 0 then "" else [ZW]) + Mark(before + head, tail, at)
  {
    hide Mark;
    var s := head + tail;
    assert s[..|head|] == head && s[|head|..] == tail;
    assert [s[0]] == s[..1];
    MarkHere(before, s, at);
  }

  lemma MarkSpecial(before: string, x: char, tail: string, at: Place, k: nat)
    requires k <= 1 && at(before, ['\\', x] + tail) == 0
    requires at(before + ['\\'], (['\\', x] + tail)[1..]) == k
    ensures Mark(before, ['\\', x] + tail, at)
            == ['\\', x] + (if k == 1 then [ZW] else "") + Mark(before + ['\\'] + [x], tail, at)
  {
    hide Mark;
    var s := ['\\', x] + tail;
    assert s[1..] == [x] + tail && s[1..][1..] == tail && s[1..][..1] == [x];
    MarkHere(before, s, at);
    MarkHere(before + ['\\'], s[1..], at);
  }

  // ---- the six marks in the words ----------------------------------------

  function LowSigil(c: Classes, before: string, s: string): nat {
    if |s| > 1 && s[0] in "#!$%" && !IsSpecial(s[1]) && c.word(s[1]) then 1 else 0
  }

  /** A name with an underscore is not seen: its backslash comes in between. */
  function LowEmoji(before: string, s: string): nat {
    if ":" <= s && (var n := NameLength(s[1..]); 0 < n < |s| - 1 && s[1 + n] == ':' && '_' !in s[1..1 + n]) then 1 else 0
  }

  function LowSigilPlace(c: Classes): Place {
    (before, s) => LowSigil(c, before, s)
  }

  lemma FirstEscaped(s: string)
    requires s != ""
    ensures Escape(s) != ""
    ensures Escape(s)[0] == if IsSpecial(s[0]) then '\\' else s[0]
    ensures IsSpecial(s[0]) ==> |Escape(s)| > 1 && Escape(s)[1] == s[0] && Escape(s)[2..] == Escape(s[1..])
    ensures !IsSpecial(s[0]) ==> Escape(s)[1..] == Escape(s[1..])
  {
  }

  lemma SignLifts()
    ensures Lifts(AtSign, AtSign)
  {
    hide Escape;
    forall before: string, s: string | s != "" ensures LiftsHere(before, s, AtSign, AtSign) {
      FirstEscaped(s);
    }
  }

  lemma SchemeLifts()
    ensures Lifts(AtScheme, AtScheme)
  {
    hide Escape;
    forall before: string, s: string | s != "" ensures LiftsHere(before, s, AtScheme, AtScheme) {
      FirstEscaped(s);
      if |s| > 1 {
        FirstEscaped(s[1..]);
      }
      if |s| > 2 {
        FirstEscaped(s[1..][1..]);
      }
      EscapeNothing();
      SchemeHere(s);
      SchemeHere(Escape(s));
    }
  }

  lemma SchemeHere(s: string)
    ensures "://" <= s <==> |s| > 2 && s[0] == ':' && s[1..][0] == '/' && s[1..][1..][0] == '/'
    ensures AtScheme("", s) == if "://" <= s then 1 else 0
  {
    if |s| > 2 && s[0] == ':' && s[1] == '/' && s[2] == '/' {
      assert s[..3] == "://";
    }
  }

  lemma SigilLifts(c: Classes)
    requires c.Valid()
    ensures Lifts(SigilPlace(c), LowSigilPlace(c))
  {
    hide Escape;
    EscapeNothing();
    forall before: string, s: string | s != "" ensures LiftsHere(before, s, SigilPlace(c), LowSigilPlace(c)) {
      FirstEscaped(s);
      if |s| > 1 {
        FirstEscaped(s[1..]);
      }
      assert |s| == 1 ==> s[1..] == "";
      SigilHere(c, before, s);
    }
  }

  lemma SigilHere(c: Classes, before: string, s: string)
    requires c.Valid() && s != "" && Escape(s) != ""
    requires IsSpecial(s[0]) ==> |Escape(s)| > 1 && Escape(s)[0] == '\\' && Escape(s)[1] == s[0] && Escape(s)[2..] == Escape(s[1..])
    requires !IsSpecial(s[0]) ==> Escape(s)[0] == s[0] && Escape(s)[1..] == Escape(s[1..])
    requires |s| > 1 ==> Escape(s[1..]) != "" && Escape(s[1..])[0] == if IsSpecial(s[1]) then '\\' else s[1]
    requires |s| == 1 ==> Escape(s[1..]) == ""
    ensures LiftsHere(before, s, SigilPlace(c), LowSigilPlace(c))
  {
    hide Escape;
    var e, t := Escape(s), Escape(s[1..]);
    if IsSpecial(s[0]) {
      assert e[1..][1..] == t;
      assert |s| > 1 ==> e[1..][1] == t[0];
    } else {
      assert |s| > 1 ==> e[1] == t[0];
    }
  }

  lemma {:induction false} EntityEscaped(a: string, s: string)
    requires (forall j :: 0 <= j < |a| ==> !IsSpecial(a[j])) && a <= s
    ensures Escape(s) == a + Escape(s[|a|..])
  {
    assert s == a + s[|a|..];
    EscapeConcat(a, s[|a|..]);
    EscapePlain(a);
  }

  lemma {:induction false} PrefixEscaped(a: string, s: string)
    requires forall j :: 0 <= j < |a| ==> !IsSpecial(a[j]) && a[j] != '\\'
    ensures a <= Escape(s) <==> a <= s
    decreases |a|
  {
    hide IsSpecial, Escape;
    if a != "" {
      EscapeNothing();
      if s != "" {
        FirstEscaped(s);
        PrefixEscaped(a[1..], s[1..]);
        assert a == [a[0]] + a[1..] && s == [s[0]] + s[1..];
        assert Escape(s)[0] == a[0] ==> Escape(s) == [s[0]] + Escape(s[1..]);
      }
    }
  }

  lemma AmpPlain()
    ensures forall j :: 0 <= j < |"&amp;"| ==> !IsSpecial("&amp;"[j]) && "&amp;"[j] != '\\'
  {
  }

  lemma EntityLifts(c: Classes)
    requires c.Valid()
    ensures Lifts(EntityPlace(c), EntityPlace(c))
  {
    hide Escape;
    AmpPlain();
    forall before: string, s: string | s != "" ensures LiftsHere(before, s, EntityPlace(c), EntityPlace(c)) {
      FirstEscaped(s);
      PrefixEscaped("&amp;", s);
      if "&amp;" <= s {
        EntityEscaped("&amp;", s);
        EscapeNothing();
        if |s| > 5 {
          FirstEscaped(s[5..]);
          assert Escape(s)[5] == Escape(s[5..])[0];
        }
        assert forall j :: 0 <= j < 5 ==> s[j] == "&amp;"[j];
      } else {
        NotAmp(s);
      }
    }
  }

  /** Where no `&amp;` begins, none begins after the backslash of a special character either. */
  lemma NotAmp(s: string)
    requires s != ""
    ensures IsSpecial(s[0]) ==> !("&amp;" <= Escape(s)) && !("&amp;" <= Escape(s)[1..])
  {
    FirstEscaped(s);
    if IsSpecial(s[0]) {
      assert Escape(s)[1..][0] == s[0] != '&';
    }
  }

  lemma NameSpecial(x: char)
    requires IsName(x)
    ensures IsSpecial(x) <==> x == '_'
    ensures x != ':' && x != '\\'
  {
  }

  /** An underscore ends the name that is seen in escaped text. */
  lemma {:induction false} NameEscaped(t: string)
    ensures var n, e := NameLength(t), NameLength(Escape(t));
            && ('_' !in t[..n] ==> e == n && |Escape(t)| >= n
                                   && (|Escape(t)| == n <==> |t| == n)
                                   && (n < |t| ==> Escape(t)[n] == if IsSpecial(t[n]) then '\\' else t[n]))
            && ('_' in t[..n] ==> e < |Escape(t)| && Escape(t)[e] == '\\')
    decreases |t|
  {
    hide IsSpecial, IsName, Escape;
    EscapeNothing();
    if t != "" {
      FirstEscaped(t);
      NameEscaped(t[1..]);
      var n := NameLength(t);
      if IsName(t[0]) {
        NameSpecial(t[0]);
        assert t[..n] == [t[0]] + t[1..][..n - 1];
        if IsSpecial(t[0]) {
          BackslashNoName(Escape(t));
        } else {
          NameOnce(Escape(t));
          assert forall k :: 0 <= k < |Escape(t)| - 1 ==> Escape(t)[k + 1] == Escape(t)[1..][k];
        }
      } else {
        assert t[..n] == "";
        BackslashNoName(Escape(t));
        NoNameOnce(Escape(t));
      }
    }
  }

  lemma BackslashNoName(s: string)
    requires s != ""
    ensures s[0] == '\\' ==> NameLength(s) == 0
  {
  }

  lemma NameOnce(s: string)
    requires s != "" && IsName(s[0])
    ensures NameLength(s) == 1 + NameLength(s[1..])
  {
  }

  lemma NoNameOnce(s: string)
    requires s != "" && !IsName(s[0])
    ensures NameLength(s) == 0
  {
  }

  lemma EmojiLifts()
    ensures Lifts(AtEmoji, LowEmoji)
  {
    hide Escape, NameLength;
    EscapeNothing();
    forall before: string, s: string | s != "" ensures LiftsHere(before, s, AtEmoji, LowEmoji) {
      FirstEscaped(s);
      NameEscaped(s[1..]);
      EmojiHere(before, s);
    }
  }

  lemma EmojiHere(before: string, s: string)
    requires s != "" && Escape(s) != ""
    requires IsSpecial(s[0]) ==> Escape(s)[0] == '\\' && |Escape(s)| > 1 && Escape(s)[1] == s[0]
    requires !IsSpecial(s[0]) ==> Escape(s)[0] == s[0] && Escape(s)[1..] == Escape(s[1..])
    requires var t := s[1..];
             var n, e := NameLength(t), NameLength(Escape(t));
             && ('_' !in t[..n] ==> e == n && |Escape(t)| >= n && (|Escape(t)| == n <==> |t| == n)
                                    && (n < |t| ==> Escape(t)[n] == if IsSpecial(t[n]) then '\\' else t[n]))
             && ('_' in t[..n] ==> e < |Escape(t)| && Escape(t)[e] == '\\')
    ensures LiftsHere(before, s, AtEmoji, LowEmoji)
  {
    hide Escape, NameLength;
    if IsSpecial(s[0]) {
      assert Escape(s)[1..][0] == s[0];
    } else {
      var t := s[1..];
      var n, e := NameLength(t), Escape(s);
      assert s[1..1 + n] == t[..n];
      assert n < |t| ==> s[1 + n] == t[n];
      assert forall k :: 0 <= k < |e| - 1 ==> e[1 + k] == Escape(t)[k];
      assert ":" <= s <==> s[0] == ':';
      assert ":" <= e <==> e[0] == ':';
    }
  }

  lemma LastEscaped(before: string)
    ensures Escape(before) == "" <==> before == ""
    ensures before != "" ==> Escape(before)[|Escape(before)| - 1] == before[|before| - 1]
  {
    hide Escape;
    EscapeNothing();
    if before != "" {
      var n := |before| - 1;
      assert before == before[..n] + [before[n]];
      EscapeConcat(before[..n], [before[n]]);
      EscapeOne(before[n]);
    }
  }

  predicate IsW(x: char) {
    x == 'w' || x == 'W'
  }

  lemma WwwByOne(s: string)
    ensures IsWww(s) <==> |s| > 3 && IsW(s[0]) && IsW(s[1..][0]) && IsW(s[1..][1..][0]) && s[1..][1..][1..][0] == '.'
  {
  }

  lemma WEscaped(s: string)
    requires s != ""
    ensures Escape(s) != "" && (IsW(Escape(s)[0]) <==> IsW(s[0])) && (Escape(s)[0] == '.' <==> s[0] == '.')
    ensures IsW(s[0]) ==> Escape(s)[1..] == Escape(s[1..]) && !IsSpecial(s[0])
  {
    hide Escape;
    FirstEscaped(s);
  }

  lemma WwwEscaped(s: string)
    requires s != ""
    ensures IsWww(Escape(s)) <==> IsWww(s)
    ensures IsSpecial(s[0]) ==> !IsWww(s) && !IsWww(Escape(s)[1..])
    ensures IsWww(s) ==> forall j :: 0 <= j < 3 ==> !IsSpecial(s[j])
  {
    hide Escape, IsWww, IsSpecial, IsW;
    EscapeNothing();
    WwwByOne(s);
    WwwByOne(Escape(s));
    WEscaped(s);
    if |s| > 1 {
      WEscaped(s[1..]);
    }
    if |s| > 2 {
      WEscaped(s[1..][1..]);
    }
    if |s| > 3 {
      WEscaped(s[1..][1..][1..]);
    }
    assert |s| == 1 ==> s[1..] == "";
    assert |s| == 2 ==> s[1..][1..] == "";
    assert |s| == 3 ==> s[1..][1..][1..] == "";
    SpecialNoWww(s);
  }

  lemma SpecialNoWww(s: string)
    requires s != ""
    ensures IsSpecial(s[0]) ==> !IsWww(s) && !IsWww(Escape(s)[1..])
  {
    FirstEscaped(s);
  }

  lemma WwwLifts(c: Classes)
    ensures Lifts(WwwPlace(c), WwwPlace(c))
  {
    hide Escape, IsWww;
    forall before: string, s: string | s != "" ensures LiftsHere(before, s, WwwPlace(c), WwwPlace(c)) {
      LastEscaped(before);
      FirstEscaped(s);
      WwwEscaped(s);
      WwwLong(s);
    }
  }

  lemma WwwLong(s: string)
    ensures IsWww(s) ==> |s| >= 3
  {
  }

  /** The words with the marks that fall in them. */
  function WordsMarked(c: Classes, a: string): string {
    Mark("", Mark("", LowMarked(c, a), LowEmoji), WwwPlace(c))
  }

  function LowMarked(c: Classes, a: string): string {
    Mark("", Mark("", MarkSchemes(MarkSigns(a)), LowSigilPlace(c)), EntityPlace(c))
  }

  /** Read, the encoded text is its words with the marks put in them. */
  lemma ReadIs(c: Classes, text: string)
    requires c.Valid()
    ensures Unescape(Md(c, text)) == WordsMarked(c, Amps(Plain(text)))
  {
    hide Plain, Amps, Mark, Escape, Unescape, Lifts;
    var a := Amps(Plain(text));
    EscapeNothing();
    SignLifts();
    SchemeLifts();
    SigilLifts(c);
    EntityLifts(c);
    EmojiLifts();
    WwwLifts(c);
    MarkEscaped("", a, AtSign, AtSign);
    MarkEscaped("", MarkSigns(a), AtScheme, AtScheme);
    var b := MarkSchemes(MarkSigns(a));
    MarkEscaped("", b, SigilPlace(c), LowSigilPlace(c));
    MarkEscaped("", Mark("", b, LowSigilPlace(c)), EntityPlace(c), EntityPlace(c));
    MarkEscaped("", LowMarked(c, a), AtEmoji, LowEmoji);
    MarkEscaped("", Mark("", LowMarked(c, a), LowEmoji), WwwPlace(c), WwwPlace(c));
    UnescapeEscape(WordsMarked(c, a));
  }
}
