/** Writing to a stream that may fail: a line it cannot take is tried again, then dropped,
    and how many were dropped is said once, when the stream takes a line again. */
module Drops {
  import opened Wrappers

  // ---- what a stream does ------------------------------------------------

  /** What the stream has taken: the texts written, and notes of how many were dropped. */
  datatype Item = Text(text: string) | Note(dropped: nat)

  /** How a stream meets one write: ready, or with an operating-system error or a value error
      (a closed file) that says why. A ready stream takes what it can encode. */
  datatype Answer = Ready | OsFault(why: string) | ValueFault(why: string)

  /** The stream's encoding, a text with what it cannot encode replaced, and what is said of
      dropped lines and why. */
  datatype Means = Means(encodable: string -> bool, safe: string -> string, note: (nat, string) -> string)
  {
    /** A replaced text can be encoded. */
    ghost predicate Valid() {
      forall t :: encodable(safe(t))
    }
  }

  /** The stream's output and its answers to come -- ready when none is left --, the count of
      dropped lines and the reason. */
  datatype Line = Line(out: seq<Item>, answers: seq<Answer>, dropped: nat, why: string)

  function First(l: Line): Answer {
    if l.answers == [] then Ready else l.answers[0]
  }

  function Rest(l: Line): Line {
    l.(answers := if l.answers == [] then [] else l.answers[1..])
  }

  // ---- one write ---------------------------------------------------------

  /** Where a write ends: it returned, or an encoding error was raised. */
  datatype End = End(l: Line, raised: bool)

  const RETRIES := 3

  function Tries(l: Line): nat {
    if l.dropped > 0 then 1 else RETRIES + 1
  }

  /** The dropped lines are told of, once a text was taken again. */
  function Tell(m: Means, l: Line): End {
    var n, after := l.dropped, Rest(l);
    match First(l)
    case Ready =>
      if m.encodable(m.note(n, l.why)) then End(after.(out := l.out + [Note(n)], dropped := 0), false)
      else End(after.(dropped := 0), true)
    case OsFault(_) => End(after, false)
    // Not caught beside the note: the text just taken is counted as dropped.
    case ValueFault(why) => End(after.(dropped := 1, why := why), false)
  }

  function Try(m: Means, l: Line, text: string, tries: nat): End
    requires tries > 0
    decreases tries
  {
    var after := Rest(l);
    if First(l).Ready? then
      if !m.encodable(text) then End(after, true)
      else
        var taken := after.(out := l.out + [Text(text)]);
        if l.dropped == 0 then End(taken, false) else Tell(m, taken)
    else if tries == 1 then End(after.(dropped := l.dropped + 1, why := First(l).why), false)
    else Try(m, after, text, tries - 1)
  }

  /** A write: when the text cannot be encoded it is written once more with what cannot be
      encoded replaced. An error raised then is raised to the caller. */
  function Put(m: Means, l: Line, text: string): End {
    var first := Try(m, l, text, Tries(l));
    if first.raised then Try(m, first.l, m.safe(text), Tries(first.l)) else first
  }

  // ---- the account -------------------------------------------------------

  function Accepted(out: seq<Item>): nat {
    if out == [] then 0 else Accepted(out[..|out| - 1]) + if out[|out| - 1].Text? then 1 else 0
  }

  function Announced(out: seq<Item>): nat {
    if out == [] then 0 else Announced(out[..|out| - 1]) + if out[|out| - 1].Note? then out[|out| - 1].dropped else 0
  }

  /** Writes taken, drops told of and drops still to be told of. */
  function Account(l: Line): nat {
    Accepted(l.out) + Announced(l.out) + l.dropped
  }

  lemma OneItem(out: seq<Item>, x: Item)
    ensures Accepted(out + [x]) == Accepted(out) + if x.Text? then 1 else 0
    ensures Announced(out + [x]) == Announced(out) + if x.Note? then x.dropped else 0
  {
    assert (out + [x])[..|out|] == out;
  }

  /** Where the stream meets the note: lines were being dropped, and the text, or what replaces
      it, is taken; None when that does not come about. */
  function AtNote(m: Means, l: Line, text: string): Option<Answer> {
    if l.dropped == 0 || !First(l).Ready? then None
    else if m.encodable(text) then Some(First(Rest(l)))
    else if !First(Rest(l)).Ready? then None
    else Some(First(Rest(Rest(l))))
  }

  /** The note is lost: the stream cannot encode it, or meets it with a value error. */
  predicate LosesNote(m: Means, l: Line, text: string) {
    match AtNote(m, l, text)
    case None => false
    case Some(OsFault(_)) => false
    case Some(ValueFault(_)) => true
    case Some(Ready) => !m.encodable(m.note(l.dropped, l.why))
  }

  lemma TellAccount(m: Means, l: Line)
    requires l.dropped > 0
    ensures var e := Tell(m, l);
            && (First(l).OsFault? || (First(l).Ready? && m.encodable(m.note(l.dropped, l.why)))
                ==> !e.raised && Account(e.l) == Account(l))
            && (First(l).ValueFault? ==> !e.raised && Account(e.l) == Account(l) + 1 - l.dropped)
            && (First(l).Ready? && !m.encodable(m.note(l.dropped, l.why))
                ==> e.raised && e.l.out == l.out && e.l.dropped == 0 && Account(e.l) == Account(l) - l.dropped)
  {
    hide Accepted, Announced;
    OneItem(l.out, Note(l.dropped));
  }

  /** With nothing dropped so far a write that can be encoded never raises and adds one. */
  lemma {:induction false} TryFresh(m: Means, l: Line, text: string, tries: nat)
    requires tries > 0 && l.dropped == 0
    ensures var e := Try(m, l, text, tries);
            && (e.raised ==> !m.encodable(text) && e.l.out == l.out && e.l.dropped == 0 && Account(e.l) == Account(l))
            && (!e.raised ==> Account(e.l) == Account(l) + 1)
    decreases tries
  {
    hide Accepted, Announced;
    OneItem(l.out, Text(text));
    if !First(l).Ready? && tries > 1 {
      TryFresh(m, Rest(l), text, tries - 1);
    }
  }

  lemma TryDropping(m: Means, l: Line, text: string)
    requires l.dropped > 0
    ensures var e := Try(m, l, text, 1);
            && (!First(l).Ready? ==> !e.raised && Account(e.l) == Account(l) + 1)
            && (First(l).Ready? && !m.encodable(text) ==> e == End(Rest(l), true))
            && (First(l).Ready? && m.encodable(text)
                ==> var taken := Rest(l).(out := l.out + [Text(text)]);
                    e == Tell(m, taken) && Account(taken) == Account(l) + 1)
  {
    hide Accepted, Announced, Tell;
    OneItem(l.out, Text(text));
  }

  /** A write adds one to the account -- taken, told of or still to be told of -- unless the
      note is lost; then it adds one only if a single line had been dropped and no error is
      raised to the caller. An error is raised just when neither text nor note can be encoded. */
  lemma OneWrite(m: Means, l: Line, text: string)
    requires m.Valid()
    ensures var e := Put(m, l, text);
            && (Account(e.l) == Account(l) + 1 <==> !LosesNote(m, l, text) || (l.dropped == 1 && !e.raised))
            && (e.raised <==> LosesNote(m, l, text) && !m.encodable(text) && AtNote(m, l, text) == Some(Ready))
  {
    hide Account, Tell, Try;
    var first := Try(m, l, text, Tries(l));
    assert m.encodable(m.safe(text));
    if l.dropped == 0 {
      TryFresh(m, l, text, RETRIES + 1);
      if first.raised {
        TryFresh(m, first.l, m.safe(text), RETRIES + 1);
      }
    } else {
      TryDropping(m, l, text);
      if First(l).Ready? {
        if m.encodable(text) {
          var taken := Rest(l).(out := l.out + [Text(text)]);
          TellAccount(m, taken);
          if first.raised {
            TryFresh(m, first.l, m.safe(text), RETRIES + 1);
          }
        } else {
          var next := Rest(l);
          TryDropping(m, next, m.safe(text));
          SameAccount(l, next);
          if First(next).Ready? {
            TellAccount(m, Rest(next).(out := l.out + [Text(m.safe(text))]));
          }
        }
      }
    }
  }

  lemma SameAccount(l: Line, k: Line)
    requires l.out == k.out && l.dropped == k.dropped
    ensures Account(l) == Account(k)
  {
  }

  // ---- what a write leaves -----------------------------------------------

  /** The answer to the write after `k` others, and what is then still to come. */
  ghost function Meets(l: Line, k: nat): Answer {
    if k < |l.answers| then l.answers[k] else Ready
  }

  ghost function Later(l: Line, k: nat): seq<Answer> {
    if k < |l.answers| then l.answers[k..] else []
  }

  lemma LaterIs(l: Line, k: nat)
    ensures forall j: nat :: Meets(Rest(l), j) == Meets(l, j + 1)
    ensures Later(Rest(l), k) == Later(l, k + 1) && Meets(l, 0) == First(l) && Later(l, 1) == Rest(l).answers
  {
  }

  /** The stream fails `k` times and is then ready; the fourth failure is the last there is. */
  ghost predicate FailsFirst(l: Line, k: nat) {
    && k <= 4 && (forall j: nat :: j < k ==> !Meets(l, j).Ready?)
    && (k < 4 ==> Meets(l, k).Ready?)
  }

  lemma {:induction false} FreshTryIs(m: Means, l: Line, text: string, tries: nat, k: nat)
    requires 0 < tries && k <= tries && l.dropped == 0
    requires (forall j: nat :: j < k ==> !Meets(l, j).Ready?) && (k < tries ==> Meets(l, k).Ready?)
    ensures var e := Try(m, l, text, tries);
            && (k == tries ==> e == End(Line(l.out, Later(l, k), 1, Meets(l, k - 1).why), false))
            && (k < tries && m.encodable(text) ==> e == End(Line(l.out + [Text(text)], Later(l, k + 1), 0, l.why), false))
            && (k < tries && !m.encodable(text) ==> e == End(Line(l.out, Later(l, k + 1), 0, l.why), true))
    decreases tries
  {
    LaterIs(l, 0);
    if k > 0 {
      LaterIs(l, k);
      LaterIs(l, k - 1);
      if tries > 1 {
        FreshTryIs(m, Rest(l), text, tries - 1, k - 1);
      }
    }
  }

  /** Nothing dropped so far: a text is taken at the first try that does not fail, of four, or
      counted as dropped with the last failure as the reason; one that cannot be encoded is then
      written as that with what cannot be encoded replaced. */
  lemma FreshWriteIs(m: Means, l: Line, text: string, k: nat)
    requires m.Valid() && l.dropped == 0 && FailsFirst(l, k)
    ensures var e := Put(m, l, text);
            && (k == 4 ==> e == End(Line(l.out, Later(l, 4), 1, Meets(l, 3).why), false))
            && (k < 4 && m.encodable(text) ==> e == End(Line(l.out + [Text(text)], Later(l, k + 1), 0, l.why), false))
            && (k < 4 && !m.encodable(text) ==> e == Put(m, l.(answers := Later(l, k + 1)), m.safe(text)))
  {
    hide Try;
    FreshTryIs(m, l, text, RETRIES + 1, k);
    var next := l.(answers := Later(l, k + 1));
    if k < 4 && !m.encodable(text) {
      TryFresh(m, next, m.safe(text), RETRIES + 1);
    }
  }

  /** `text` was taken at the answer before the `k`th, and lines had been dropped. */
  ghost function Noted(m: Means, l: Line, text: string, k: nat): End {
    var out := l.out + [Text(text)];
    match Meets(l, k)
    case Ready =>
      if m.encodable(m.note(l.dropped, l.why)) then End(Line(out + [Note(l.dropped)], Later(l, k + 1), 0, l.why), false)
      else End(Line(out, Later(l, k + 1), 0, l.why), true)
    case OsFault(_) => End(Line(out, Later(l, k + 1), l.dropped, l.why), false)
    case ValueFault(why) => End(Line(out, Later(l, k + 1), 1, why), false)
  }

  /** The write meets its fault at answer `k`, and is counted. */
  ghost function DroppedAt(l: Line, k: nat): End
    requires !Meets(l, k).Ready?
  {
    End(Line(l.out, Later(l, k + 1), l.dropped + 1, Meets(l, k).why), false)
  }

  /** While lines are being dropped there is one try; a text taken is followed by the note; where
      the note cannot be encoded the replaced text is written, though the text was. */
  lemma DroppingWriteIs(m: Means, l: Line, text: string)
    requires m.Valid() && l.dropped > 0
    ensures var e, noted := Put(m, l, text), Noted(m, l, text, 1);
            if !Meets(l, 0).Ready? then e == DroppedAt(l, 0)
            else if m.encodable(text) then e == (if noted.raised then Put(m, noted.l, m.safe(text)) else noted)
            else if !Meets(l, 1).Ready? then e == DroppedAt(l, 1)
            else e == Noted(m, l, m.safe(text), 2)
  {
    hide Try, Tell;
    LaterIs(l, 0);
    LaterIs(l, 1);
    LaterIs(Rest(l), 0);
    LaterIs(Rest(l), 1);
    TryOnce(m, l, text);
    if First(l).Ready? && m.encodable(text) {
      TellIs(m, l, Rest(l).(out := l.out + [Text(text)]), text, 1);
      if Noted(m, l, text, 1).raised {
        TryFresh(m, Noted(m, l, text, 1).l, m.safe(text), RETRIES + 1);
      }
    } else if First(l).Ready? {
      var next := Rest(l);
      TryOnce(m, next, m.safe(text));
      if First(next).Ready? {
        TellIs(m, l, Rest(next).(out := l.out + [Text(m.safe(text))]), m.safe(text), 2);
      }
    }
  }

  lemma TryOnce(m: Means, l: Line, text: string)
    ensures var e := Try(m, l, text, 1);
            && (!First(l).Ready? ==> e == End(Rest(l).(dropped := l.dropped + 1, why := First(l).why), false))
            && (First(l).Ready? && !m.encodable(text) ==> e == End(Rest(l), true))
            && (First(l).Ready? && m.encodable(text) && l.dropped > 0 ==> e == Tell(m, Rest(l).(out := l.out + [Text(text)])))
  {
    hide Tell;
  }

  lemma TellIs(m: Means, l: Line, taken: Line, text: string, k: nat)
    requires taken == Line(l.out + [Text(text)], Later(l, k), l.dropped, l.why)
    ensures Tell(m, taken) == Noted(m, l, text, k)
  {
    assert First(taken) == Meets(l, k) && Rest(taken).answers == Later(l, k + 1);
  }

  // ---- many writes -------------------------------------------------------

  /** Where a sequence of writes ends: at the first that raises, or after the last. */
  function PutAll(m: Means, l: Line, texts: seq<string>): End {
    if texts == [] then End(l, false)
    else
      var less := PutAll(m, l, texts[..|texts| - 1]);
      if less.raised then less else Put(m, less.l, texts[|texts| - 1])
  }

  /** No answer to come is a value error. */
  predicate OnlyOsFaults(l: Line) {
    forall k :: 0 <= k < |l.answers| ==> !l.answers[k].ValueFault?
  }

  lemma RestOnlyOsFaults(l: Line)
    requires OnlyOsFaults(l)
    ensures OnlyOsFaults(Rest(l)) && !First(l).ValueFault?
  {
  }

  lemma {:induction false} TryOnlyOsFaults(m: Means, l: Line, text: string, tries: nat)
    requires tries > 0 && OnlyOsFaults(l)
    ensures OnlyOsFaults(Try(m, l, text, tries).l)
    decreases tries
  {
    hide OnlyOsFaults;
    RestOnlyOsFaults(l);
    RestOnlyOsFaults(Rest(l));
    SameFaults(Rest(l), Rest(l).(out := l.out + [Text(text)]));
    if First(l).Ready? {
      if m.encodable(text) && l.dropped > 0 {
        TellOnlyOsFaults(m, Rest(l).(out := l.out + [Text(text)]));
      }
    } else if tries > 1 {
      TryOnlyOsFaults(m, Rest(l), text, tries - 1);
    } else {
      SameFaults(Rest(l), Try(m, l, text, tries).l);
    }
  }

  lemma TellOnlyOsFaults(m: Means, l: Line)
    requires OnlyOsFaults(l)
    ensures OnlyOsFaults(Tell(m, l).l)
  {
  }

  lemma SameFaults(l: Line, k: Line)
    requires OnlyOsFaults(l) && k.answers == l.answers
    ensures OnlyOsFaults(k)
  {
  }

  /** When every note can be encoded and the stream fails only with operating-system errors, the
      account balances after any writes, and no error is raised. */
  lemma {:induction false} NothingIsLost(m: Means, l: Line, texts: seq<string>)
    requires m.Valid() && OnlyOsFaults(l)
    requires forall n, why :: m.encodable(m.note(n, why))
    ensures var e := PutAll(m, l, texts);
            !e.raised && OnlyOsFaults(e.l) && Account(e.l) == Account(l) + |texts|
  {
    hide Put, Account;
    if texts != [] {
      var less, last := PutAll(m, l, texts[..|texts| - 1]).l, texts[|texts| - 1];
      NothingIsLost(m, l, texts[..|texts| - 1]);
      OneWrite(m, less, last);
      NoteIsMet(m, less, last);
      PutOnlyOsFaults(m, less, last);
    }
  }

  lemma NoteIsMet(m: Means, l: Line, text: string)
    requires OnlyOsFaults(l) && m.encodable(m.note(l.dropped, l.why))
    ensures !LosesNote(m, l, text)
  {
    hide OnlyOsFaults;
    RestOnlyOsFaults(l);
    RestOnlyOsFaults(Rest(l));
    RestOnlyOsFaults(Rest(Rest(l)));
  }

  lemma PutOnlyOsFaults(m: Means, l: Line, text: string)
    requires OnlyOsFaults(l)
    ensures OnlyOsFaults(Put(m, l, text).l)
  {
    hide OnlyOsFaults, Try;
    TryOnlyOsFaults(m, l, text, Tries(l));
    TryOnlyOsFaults(m, Try(m, l, text, Tries(l)).l, m.safe(text), Tries(Try(m, l, text, Tries(l)).l));
  }

  /** A note that cannot be encoded: the text is written twice, and how many were dropped is
      never told. */
  lemma TextIsWrittenTwice(m: Means, l: Line, text: string)
    requires m.Valid() && l.dropped > 0 && l.answers == []
    requires m.encodable(text) && !m.encodable(m.note(l.dropped, l.why))
    ensures var e := Put(m, l, text);
            e.l.out == l.out + [Text(text), Text(m.safe(text))] && e.l.dropped == 0 && !e.raised
  {
    var first := Try(m, l, text, 1);
    assert first == End(l.(out := l.out + [Text(text)], dropped := 0), true);
    assert l.out + [Text(text)] + [Text(m.safe(text))] == l.out + [Text(text), Text(m.safe(text))];
    assert m.encodable(m.safe(text));
  }

  /** A note met by a value error: the text just taken is counted as dropped, in place of the
      lines that were. */
  lemma TakenTextCountsAsDropped(m: Means, l: Line, text: string, why: string)
    requires l.dropped > 0 && l.answers == [Ready, ValueFault(why)] && m.encodable(text)
    ensures var e := Put(m, l, text);
            e.l.out == l.out + [Text(text)] && e.l.dropped == 1 && !e.raised
  {
    assert l.answers[1..] == [ValueFault(why)];
  }
}
