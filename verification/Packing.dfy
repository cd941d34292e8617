/** The two batchers, of file diffs and of defects: each fills a group while the next
    item still fits. No division of the items in their order needs fewer groups. */
module Packing {

  const REVIEW_CHARS := 40000
  const BATCH_CHARS := 24000
  const BATCH_BUGS := 10
  const DEFECT_OVERHEAD := 400

  /** How much a group may hold, and of how many items at most. */
  datatype Limits = Limits(size: nat, most: Most)
  datatype Most = Any | AtMost(n: nat)
  {
    predicate Allows(k: nat) {
      this.Any? || k <= n
    }
  }

  function Total(sizes: seq<nat>): nat {
    if sizes == [] then 0 else Total(sizes[..|sizes| - 1]) + sizes[|sizes| - 1]
  }

  /** An item too large for any group still goes, by itself. */
  predicate Fits(sizes: seq<nat>, limits: Limits) {
    |sizes| <= 1 || (Total(sizes) <= limits.size && limits.most.Allows(|sizes|))
  }

  function Concat<T>(groups: seq<seq<T>>): seq<T> {
    if groups == [] then [] else Concat(groups[..|groups| - 1]) + groups[|groups| - 1]
  }

  function Sizes<T>(items: seq<T>, size: T -> nat): (s: seq<nat>)
    ensures |s| == |items| && forall k :: 0 <= k < |s| ==> s[k] == size(items[k])
  {
    seq(|items|, i requires 0 <= i < |items| => size(items[i]))
  }

  /** The items in their order, divided into groups that are not empty and fit. */
  ghost predicate Division<T>(groups: seq<seq<T>>, items: seq<T>, size: T -> nat, limits: Limits) {
    && Concat(groups) == items
    && forall k :: 0 <= k < |groups| ==> groups[k] != [] && Fits(Sizes(groups[k], size), limits)
  }

  /** No group had room for the first item of the next one. */
  ghost predicate Tight<T>(groups: seq<seq<T>>, size: T -> nat, limits: Limits) {
    forall i, j :: 0 <= i && j == i + 1 < |groups| ==> NoRoom(groups[i], groups[j], size, limits)
  }

  ghost predicate NoRoom<T>(group: seq<T>, next: seq<T>, size: T -> nat, limits: Limits) {
    next != [] && !Fits(Sizes(group + [next[0]], size), limits)
  }

  // ---- a division with no room left is the shortest ----------------------

  lemma {:induction false} TotalPart(sizes: seq<nat>, i: nat, j: nat)
    requires i <= j <= |sizes|
    ensures Total(sizes[i..j]) <= Total(sizes)
  {
    if j < |sizes| {
      TotalPart(sizes[..|sizes| - 1], i, j);
      assert sizes[..|sizes| - 1][i..j] == sizes[i..j];
    } else if i < j {
      TotalPart(sizes[..|sizes| - 1], i, j - 1);
      PartOfPart(sizes, i, j, 0, j - i - 1);
      PartOfPart(sizes, 0, |sizes| - 1, i, j - 1);
    }
  }

  lemma PartOfPart<T>(s: seq<T>, i: nat, j: nat, n: nat, m: nat)
    requires i <= j <= |s| && n <= m <= j - i
    ensures s[i..j][n..m] == s[i + n..i + m]
  {
    forall k | 0 <= k < m - n ensures s[i..j][n..m][k] == s[i + n..i + m][k] {
    }
  }

  lemma FitsPart(sizes: seq<nat>, i: nat, j: nat, limits: Limits)
    requires i <= j <= |sizes| && Fits(sizes, limits)
    ensures Fits(sizes[i..j], limits)
  {
    TotalPart(sizes, i, j);
  }

  lemma {:induction false} ConcatPrefix<T>(groups: seq<seq<T>>, k: nat)
    requires k <= |groups|
    ensures Concat(groups[..k]) <= Concat(groups)
    ensures k < |groups| ==>
              Concat(groups[..k + 1]) == Concat(groups[..k]) + groups[k] <= Concat(groups)
  {
    if k < |groups| {
      var less := groups[..|groups| - 1];
      assert groups[..k + 1][..k] == groups[..k];
      if k < |groups| - 1 {
        ConcatPrefix(less, k);
        assert less[..k] == groups[..k] && less[..k + 1] == groups[..k + 1];
      } else {
        assert groups[..k + 1] == groups;
      }
    } else {
      assert groups[..k] == groups;
    }
  }

  /** A group that fits does not reach over a whole group and one item more that do not. */
  lemma NotOver<T>(g: seq<T>, a: nat, over: seq<T>, size: T -> nat, limits: Limits)
    requires a + |over| <= |g| && g[a..a + |over|] == over && Fits(Sizes(g, size), limits)
    ensures Fits(Sizes(over, size), limits)
  {
    FitsPart(Sizes(g, size), a, a + |over|, limits);
    assert Sizes(g, size)[a..a + |over|] == Sizes(over, size);
  }

  /** The first `k` groups of any division hold no more than the first `k` of a tight one. */
  lemma {:induction false} TightLeads<T>(tight: seq<seq<T>>, other: seq<seq<T>>, items: seq<T>,
                                         size: T -> nat, limits: Limits, k: nat)
    requires Division(tight, items, size, limits) && Tight(tight, size, limits)
    requires Division(other, items, size, limits)
    requires k <= |tight| && k <= |other|
    ensures |Concat(other[..k])| <= |Concat(tight[..k])|
  {
    hide Concat, Fits;
    if k == 0 {
      assert tight[..0] == [] == other[..0];
    } else if k == |tight| {
      assert tight[..k] == tight;
      ConcatPrefix(other, k);
    } else {
      TightLeads(tight, other, items, size, limits, k - 1);
      LeadOne(tight, other, items, size, limits, k - 1);
    }
  }

  lemma LeadOne<T>(tight: seq<seq<T>>, other: seq<seq<T>>, items: seq<T>, size: T -> nat, limits: Limits, k: nat)
    requires Division(tight, items, size, limits) && Tight(tight, size, limits)
    requires Division(other, items, size, limits)
    requires k < |tight| - 1 && k < |other|
    requires |Concat(other[..k])| <= |Concat(tight[..k])|
    ensures |Concat(other[..k + 1])| <= |Concat(tight[..k + 1])|
  {
    hide Concat, Fits;
    ConcatPrefix(tight, k);
    ConcatPrefix(tight, k + 1);
    ConcatPrefix(other, k);
    var from, to := |Concat(other[..k])|, |Concat(tight[..k])|;
    var g, over := other[k], tight[k] + [tight[k + 1][0]];
    assert NoRoom(tight[k], tight[k + 1], size, limits);
    assert items[to..to + |over|] == over by {
      Window(items, Concat(tight[..k]), tight[k], tight[k + 1]);
    }
    assert items[from..from + |g|] == g;
    if to + |over| <= from + |g| {
      PartOfPart(items, from, from + |g|, to - from, to - from + |over|);
      NotOver(g, to - from, over, size, limits);
    }
  }

  lemma Window<T>(items: seq<T>, a: seq<T>, b: seq<T>, c: seq<T>)
    requires a + b + c <= items && c != []
    ensures items[|a|..|a| + |b| + 1] == b + [c[0]]
  {
  }

  /** No division of the same items within the same limits has fewer groups. */
  lemma TightIsShortest<T>(tight: seq<seq<T>>, other: seq<seq<T>>, items: seq<T>, size: T -> nat, limits: Limits)
    requires Division(tight, items, size, limits) && Tight(tight, size, limits)
    requires Division(other, items, size, limits)
    ensures |tight| <= |other|
  {
    if |other| < |tight| {
      var k := |other|;
      TightLeads(tight, other, items, size, limits, k);
      assert other[..k] == other;
      ConcatPrefix(tight, k);
      assert false;
    }
  }

  // ---- the two loops -----------------------------------------------------

  lemma CloseGroup<T>(out: seq<seq<T>>, cur: seq<T>)
    ensures Concat(out + [cur]) == Concat(out) + cur
  {
    assert (out + [cur])[..|out|] == out;
  }

  lemma MoreSize<T>(cur: seq<T>, x: T, size: T -> nat)
    ensures Total(Sizes(cur + [x], size)) == Total(Sizes(cur, size)) + size(x)
  {
    assert Sizes(cur + [x], size)[..|cur|] == Sizes(cur, size);
  }

  /** The groups closed so far, and the open one, as the loops keep them. */
  ghost predicate Packed<T>(out: seq<seq<T>>, cur: seq<T>, done: seq<T>, size: T -> nat, limits: Limits) {
    && Concat(out) + cur == done && (cur == [] ==> out == [])
    && Fits(Sizes(cur, size), limits)
    && (forall k :: 0 <= k < |out| ==> out[k] != [] && Fits(Sizes(out[k], size), limits))
    && Tight(if cur == [] then out else out + [cur], size, limits)
  }

  lemma PackMore<T>(out: seq<seq<T>>, cur: seq<T>, done: seq<T>, x: T, size: T -> nat, limits: Limits)
    requires Packed(out, cur, done, size, limits)
    requires cur == [] || Fits(Sizes(cur + [x], size), limits)
    ensures Packed(out, cur + [x], done + [x], size, limits)
  {
    var was, now := if cur == [] then out else out + [cur], out + [cur + [x]];
    assert Concat(out) + (cur + [x]) == Concat(out) + cur + [x];
    hide Fits, Sizes, Concat;
    forall i, j | 0 <= i && j == i + 1 < |now| ensures NoRoom(now[i], now[j], size, limits) {
      assert now[i] == was[i] && NoRoom(was[i], was[j], size, limits);
    }
  }

  lemma PackNext<T>(out: seq<seq<T>>, cur: seq<T>, done: seq<T>, x: T, size: T -> nat, limits: Limits)
    requires Packed(out, cur, done, size, limits) && cur != []
    requires !Fits(Sizes(cur + [x], size), limits)
    ensures Packed(out + [cur], [x], done + [x], size, limits)
  {
    CloseGroup(out, cur);
    var was, now := out + [cur], out + [cur] + [[x]];
    hide Sizes, Concat;
    forall i, j | 0 <= i && j == i + 1 < |now| ensures NoRoom(now[i], now[j], size, limits) {
      if j < |was| {
        assert now[i] == was[i] && now[j] == was[j];
      }
    }
  }

  /** One turn of either loop: the open group is closed when it is `full`. */
  lemma PackOne<T>(out: seq<seq<T>>, cur: seq<T>, done: seq<T>, x: T, size: T -> nat, limits: Limits, full: bool)
    requires Packed(out, cur, done, size, limits)
    requires full <==> cur != [] && !(Total(Sizes(cur, size)) + size(x) <= limits.size
                                      && limits.most.Allows(|cur| + 1))
    ensures Packed(if full then out + [cur] else out, (if full then [] else cur) + [x], done + [x], size, limits)
    ensures Total(Sizes((if full then [] else cur) + [x], size))
            == (if full then 0 else Total(Sizes(cur, size))) + size(x)
  {
    MoreSize(cur, x, size);
    MoreSize([], x, size);
    PackNone(size, limits);
    hide Packed, Sizes, Total;
    if full {
      PackNext(out, cur, done, x, size, limits);
      assert [] + [x] == [x];
    } else {
      PackMore(out, cur, done, x, size, limits);
    }
  }

  lemma PackEnd<T>(out: seq<seq<T>>, cur: seq<T>, done: seq<T>, size: T -> nat, limits: Limits)
    requires Packed(out, cur, done, size, limits)
    ensures var all := if cur == [] then out else out + [cur];
            Division(all, done, size, limits) && Tight(all, size, limits)
  {
    CloseGroup(out, cur);
  }

  const REVIEW := Limits(REVIEW_CHARS, Any)
  const DEFECTS := Limits(BATCH_CHARS, AtMost(BATCH_BUGS))

  function SentSize(sent: string): nat {
    |sent|
  }

  /** What of each file is sent for review, grouped for one question each. */
  method BatchFiles(files: seq<string>) returns (out: seq<seq<string>>)
    ensures Division(out, files, SentSize, REVIEW)
    ensures Tight(out, SentSize, REVIEW)
  {
    hide Packed, Sizes, Total;
    var cur: seq<string>, size := [], 0;
    out := [];
    PackNone(SentSize, REVIEW);
    for i := 0 to |files|
      invariant Packed(out, cur, files[..i], SentSize, REVIEW)
      invariant size == Total(Sizes(cur, SentSize))
    {
      var n := |files[i]|;
      PackOne(out, cur, files[..i], files[i], SentSize, REVIEW, cur != [] && size + n > REVIEW_CHARS);
      assert files[..i + 1] == files[..i] + [files[i]];
      if cur != [] && size + n > REVIEW_CHARS {
        out := out + [cur];
        cur, size := [], 0;
      }
      cur := cur + [files[i]];
      size := size + n;
    }
    assert files[..|files|] == files;
    PackEnd(out, cur, files, SentSize, REVIEW);
    if cur != [] {
      out := out + [cur];
    }
  }

  datatype Defect = Defect(key: string, text: string)

  function DefectSize(d: Defect): nat {
    |d.text| + DEFECT_OVERHEAD
  }

  /** Defects to be asked about together, with room for each one's heading. */
  method BatchDefects(defects: seq<Defect>) returns (out: seq<seq<Defect>>)
    ensures Division(out, defects, DefectSize, DEFECTS)
    ensures Tight(out, DefectSize, DEFECTS)
  {
    hide Packed, Sizes, Total;
    var current: seq<Defect>, used := [], 0;
    out := [];
    PackNone(DefectSize, DEFECTS);
    for i := 0 to |defects|
      invariant Packed(out, current, defects[..i], DefectSize, DEFECTS)
      invariant used == Total(Sizes(current, DefectSize))
    {
      var d := defects[i];
      var cost := |d.text| + 400;
      PackOne(out, current, defects[..i], d, DefectSize, DEFECTS,
              current != [] && (|current| >= BATCH_BUGS || used + cost > BATCH_CHARS));
      assert defects[..i + 1] == defects[..i] + [d];
      if current != [] && (|current| >= BATCH_BUGS || used + cost > BATCH_CHARS) {
        out := out + [current];
        current, used := [], 0;
      }
      current := current + [d];
      used := used + cost;
    }
    assert defects[..|defects|] == defects;
    PackEnd(out, current, defects, DefectSize, DEFECTS);
    if current != [] {
      out := out + [current];
    }
  }

  lemma PackNone<T>(size: T -> nat, limits: Limits)
    ensures Packed([], [], [], size, limits) && Total(Sizes([], size)) == 0
  {
  }
}
