/** What filling blank cells leaves in a cell and counts, told by places in the list of
    values; and many fills as one. */
module FillExactly {
  import opened FillCsv
  import opened Picking
  import Text
  import opened Wrappers

  // ---- what a cell holds afterwards --------------------------------------

  /** Value `k` is for the column, and neither blank nor after one that is so. */
  ghost predicate FirstToFill(h: Header, values: Values, name: string, k: nat) {
    && k < |values| && AsksFor(h, values[k], name) && !Text.IsBlank(values[k].text)
    && forall j :: 0 <= j < k && AsksFor(h, values[j], name) ==> Text.IsBlank(values[j].text)
  }

  ghost predicate LastToAsk(h: Header, values: Values, name: string, k: nat) {
    k < |values| && AsksFor(h, values[k], name) && forall j :: k < j < |values| ==> !AsksFor(h, values[j], name)
  }

  ghost predicate NoneFills(h: Header, values: Values, name: string) {
    forall j :: 0 <= j < |values| && AsksFor(h, values[j], name) ==> Text.IsBlank(values[j].text)
  }

  lemma NoneFillsIs(h: Header, values: Values, name: string)
    ensures NoneFills(h, values, name) <==> !Gives(h, values, name)
  {
    hide AsksFor, Text.IsBlank;
    assert forall j :: 0 <= j < |values| ==> values[j] in values;
  }

  /** With force the last value for a cell stands in it. Without, a cell that is not blank stays;
      in a blank one stands the first value that is not blank, or the last if all are. A cell
      that nothing is for stays. */
  lemma {:induction false} CellAfter(h: Header, row: Row, values: Values, force: bool, name: string)
    ensures var now, was := Cell(FillRow(h, row, values, force).row, name), Cell(row, name);
            && ((forall k: nat :: !LastToAsk(h, values, name, k)) ==> now == was)
            && (!force && !Text.IsBlank(was) ==> now == was)
            && (forall k: nat :: LastToAsk(h, values, name, k) && (force || (Text.IsBlank(was) && NoneFills(h, values, name)))
                                 ==> now == values[k].text)
            && (forall k: nat :: FirstToFill(h, values, name, k) && !force && Text.IsBlank(was) ==> now == values[k].text)
  {
    hide AsksFor, Text.IsBlank, FillOne;
    if values == [] {
      return;
    }
    var n := |values| - 1;
    var less, last := values[..n], values[n];
    assert values == less + [last];
    CellAfter(h, row, less, force, name);
    CellAfterOne(h, FillRow(h, row, less, force).row, last, force, name);
    LastIs(h, less, last, name);
    FirstIs(h, less, last, name);
    if !force && Text.IsBlank(Cell(row, name)) {
      FilledIffGiven(h, row, less, name);
      NoneFillsIs(h, less, name);
    }
    if forall k: nat :: !LastToAsk(h, values, name, k) {
      assert !LastToAsk(h, values, name, n);
      forall k: nat ensures !LastToAsk(h, less, name, k) {
        assert !LastToAsk(h, values, name, k);
      }
    }
  }

  lemma CellAfterOne(h: Header, row: Row, v: Pair, force: bool, name: string)
    ensures Cell(FillOne(h, row, v, force).row, name)
            == if AsksFor(h, v, name) && (force || Text.IsBlank(Cell(row, name))) then v.text else Cell(row, name)
  {
    hide Text.IsBlank, ColumnOf;
  }

  lemma LastIs(h: Header, less: Values, last: Pair, name: string)
    ensures var n, all := |less|, less + [last];
            forall k: nat :: LastToAsk(h, all, name, k)
                             <==> if k == n then AsksFor(h, last, name) else LastToAsk(h, less, name, k) && !AsksFor(h, last, name)
  {
    hide AsksFor;
    var n, all := |less|, less + [last];
    assert all[n] == last && forall j :: 0 <= j < n ==> all[j] == less[j];
    forall k: nat
      ensures LastToAsk(h, all, name, k)
              <==> if k == n then AsksFor(h, last, name) else LastToAsk(h, less, name, k) && !AsksFor(h, last, name)
    {
      if k < n && LastToAsk(h, all, name, k) {
        assert !AsksFor(h, all[n], name);
        forall j | k < j < n ensures !AsksFor(h, less[j], name) {
          assert !AsksFor(h, all[j], name);
        }
      }
    }
  }

  lemma FirstIs(h: Header, less: Values, last: Pair, name: string)
    ensures var n, all := |less|, less + [last];
            && (forall k: nat :: FirstToFill(h, all, name, k)
                                 <==> FirstToFill(h, less, name, k)
                                      || (k == n && AsksFor(h, last, name) && !Text.IsBlank(last.text) && NoneFills(h, less, name)))
            && (NoneFills(h, all, name) <==> NoneFills(h, less, name) && (AsksFor(h, last, name) ==> Text.IsBlank(last.text)))
            && (forall k: nat :: FirstToFill(h, less, name, k) ==> !NoneFills(h, less, name))
  {
    hide AsksFor, Text.IsBlank;
    var n, all := |less|, less + [last];
    assert all[n] == last && forall j :: 0 <= j < n ==> all[j] == less[j];
  }

  // ---- what is counted ---------------------------------------------------

  /** Value `j` is written to the row: it has a column of the table and says something, and with
      force, or where the cell is blank and no value before it says more than blanks. */
  ghost predicate IsWritten(h: Header, row: Row, values: Values, force: bool, j: nat) {
    && j < |values| && IsTarget(h, values[j])
    && (force || (var name := ColumnOf(h.names, h.fold, values[j].column).value;
                  Blank(row, name) && NoneFills(h, values[..j], name)))
  }

  ghost function WrittenTo(h: Header, row: Row, values: Values, force: bool): set<nat> {
    set j: nat | j < |values| && IsWritten(h, row, values, force, j)
  }

  ghost function TargetsOf(h: Header, values: Values): set<nat> {
    set j: nat | j < |values| && IsTarget(h, values[j])
  }

  /** In a row as many cells are filled as values are written, and as many skipped as are not
      though they have a column and say something. */
  lemma {:induction false} RowCountsAre(h: Header, row: Row, values: Values, force: bool)
    ensures var o := FillRow(h, row, values, force);
            && o.filled == |WrittenTo(h, row, values, force)|
            && o.skipped == |TargetsOf(h, values) - WrittenTo(h, row, values, force)|
  {
    hide TargetsOf, WrittenTo, IsTarget, IsWritten, FillOne;
    if values == [] {
      NothingWritten(h, row, force);
      return;
    }
    var n := |values| - 1;
    var less := values[..n];
    RowCountsAre(h, row, less, force);
    OneIsWritten(h, row, values, force);
    WrittenMore(h, row, values, force);
    var fewer, before := TargetsOf(h, less), WrittenTo(h, row, less, force);
    Sizes(fewer - before, n);
    Sizes(before, n);
  }

  lemma Sizes(s: set<nat>, n: nat)
    ensures n !in s ==> |s + {n}| == |s| + 1
    ensures s + {} == s
  {
  }

  lemma NothingWritten(h: Header, row: Row, force: bool)
    ensures TargetsOf(h, []) == {} && WrittenTo(h, row, [], force) == {}
  {
  }

  lemma WrittenMore(h: Header, row: Row, values: Values, force: bool)
    requires values != []
    ensures var n := |values| - 1;
            var less := values[..n];
            var fewer, before, one := TargetsOf(h, less), WrittenTo(h, row, less, force), IsWritten(h, row, values, force, n);
            && n !in before && n !in fewer
            && WrittenTo(h, row, values, force) == before + (if one then {n} else {})
            && TargetsOf(h, values) - WrittenTo(h, row, values, force)
               == fewer - before + (if IsTarget(h, values[n]) && !one then {n} else {})
  {
    hide IsTarget, IsWritten;
    var n := |values| - 1;
    WrittenAreTargets(h, row, values, force);
    WrittenAreTargets(h, row, values[..n], force);
    forall j: nat | j < n ensures IsWritten(h, row, values, force, j) <==> IsWritten(h, row, values[..n], force, j) {
      WrittenBefore(h, row, values, force, j);
    }
  }

  lemma WrittenAreTargets(h: Header, row: Row, values: Values, force: bool)
    ensures forall j: nat :: IsWritten(h, row, values, force, j) ==> j < |values| && IsTarget(h, values[j])
  {
  }

  lemma WrittenBefore(h: Header, row: Row, values: Values, force: bool, j: nat)
    requires j + 1 < |values|
    ensures IsWritten(h, row, values, force, j) <==> IsWritten(h, row, values[..|values| - 1], force, j)
  {
    assert values[..|values| - 1][..j] == values[..j];
  }

  lemma OneIsWritten(h: Header, row: Row, values: Values, force: bool)
    requires values != []
    ensures var n := |values| - 1;
            var one := FillOne(h, FillRow(h, row, values[..n], force).row, values[n], force);
            && (IsWritten(h, row, values, force, n) ==> one.filled == 1 && one.skipped == 0)
            && (IsTarget(h, values[n]) && !IsWritten(h, row, values, force, n) ==> one.filled == 0 && one.skipped == 1)
            && (!IsTarget(h, values[n]) ==> one.filled == 0 && one.skipped == 0)
  {
    hide Text.IsBlank, ColumnOf;
    var n := |values| - 1;
    if IsTarget(h, values[n]) && !force {
      var name := ColumnOf(h.names, h.fold, values[n].column).value;
      NoneFillsIs(h, values[..n], name);
      if Blank(row, name) {
        FilledIffGiven(h, row, values[..n], name);
      } else {
        RowIsKept(h, row, values[..n]);
      }
    }
  }

  // ---- many fills as one -------------------------------------------------

  lemma {:induction false} FillRowMore(h: Header, row: Row, a: Values, b: Values, force: bool)
    ensures var x := FillRow(h, row, a, force);
            var y := FillRow(h, x.row, b, force);
            FillRow(h, row, a + b, force) == Outcome(y.row, x.filled + y.filled, x.skipped + y.skipped)
  {
    hide FillOne;
    if b == [] {
      assert a + b == a;
    } else {
      var n := |b| - 1;
      FillRowMore(h, row, a, b[..n], force);
      assert (a + b)[..|a + b| - 1] == a + b[..n] && (a + b)[|a + b| - 1] == b[n];
    }
  }

  lemma {:induction false} FillRowsMore(h: Header, rows: seq<Row>, a: Values, b: Values, force: bool)
    ensures var x := FillRows(h, rows, a, force);
            var y := FillRows(h, x.rows, b, force);
            FillRows(h, rows, a + b, force) == Total(y.rows, x.filled + y.filled, x.skipped + y.skipped)
  {
    hide FillRow;
    if rows != [] {
      var n := |rows| - 1;
      FillRowsMore(h, rows[..n], a, b, force);
      FillRowMore(h, rows[n], a, b, force);
      var x := FillRows(h, rows, a, force);
      assert x.rows[..n] == FillRows(h, rows[..n], a, force).rows;
    }
  }

  lemma {:induction false} FillRowsNone(h: Header, rows: seq<Row>, force: bool)
    ensures FillRows(h, rows, [], force) == Total(rows, 0, 0)
  {
    if rows != [] {
      FillRowsNone(h, rows[..|rows| - 1], force);
      assert rows == rows[..|rows| - 1] + [rows[|rows| - 1]];
    }
  }

  /** Fills one after another leave and count what one fill with all their values would. */
  lemma {:induction false} RealIsOneFill(h: Header, rows: seq<Row>, steps: seq<Values>, force: bool)
    ensures Real(h, rows, steps, force) == FillRows(h, rows, Flat(steps), force)
  {
    hide FillRows;
    if steps == [] {
      FillRowsNone(h, rows, force);
    } else {
      var n := |steps| - 1;
      RealIsOneFill(h, rows, steps[..n], force);
      FillRowsMore(h, rows, Flat(steps[..n]), steps[n], force);
    }
  }

  /** One row is filled as the values say, and rows each by itself: what is counted adds up. */
  lemma OneRow(h: Header, row: Row, values: Values, force: bool)
    ensures var o := FillRow(h, row, values, force); FillRows(h, [row], values, force) == Total([o.row], o.filled, o.skipped)
  {
    hide FillRow;
    assert [row][..0] == [];
  }

  lemma {:induction false} RowsApart(h: Header, rows: seq<Row>, more: seq<Row>, values: Values, force: bool)
    ensures FillRows(h, rows + more, values, force) == Together(FillRows(h, rows, values, force), FillRows(h, more, values, force))
  {
    hide FillRow, FillRows, Together;
    if more == [] {
      assert rows + more == rows;
      TogetherNone(h, FillRows(h, rows, values, force), values, force);
    } else {
      var n := |more| - 1;
      var all := rows + more;
      assert all[..|all| - 1] == rows + more[..n] && all[|all| - 1] == more[n];
      RowsApart(h, rows, more[..n], values, force);
      RowsMore(h, all, values, force);
      RowsMore(h, more, values, force);
      TogetherMore(FillRows(h, rows, values, force), FillRows(h, more[..n], values, force), FillRow(h, more[n], values, force));
    }
  }

  lemma TogetherNone(h: Header, x: Total, values: Values, force: bool)
    ensures Together(x, FillRows(h, [], values, force)) == x
  {
    assert x.rows + [] == x.rows;
  }

  ghost function Together(x: Total, y: Total): Total {
    Total(x.rows + y.rows, x.filled + y.filled, x.skipped + y.skipped)
  }

  lemma TogetherMore(x: Total, y: Total, o: Outcome)
    ensures Together(x, Total(y.rows + [o.row], y.filled + o.filled, y.skipped + o.skipped))
            == Total(Together(x, y).rows + [o.row], Together(x, y).filled + o.filled, Together(x, y).skipped + o.skipped)
  {
    assert x.rows + (y.rows + [o.row]) == x.rows + y.rows + [o.row];
  }

  lemma RowsMore(h: Header, rows: seq<Row>, values: Values, force: bool)
    requires rows != []
    ensures var less, one := FillRows(h, rows[..|rows| - 1], values, force), FillRow(h, rows[|rows| - 1], values, force);
            FillRows(h, rows, values, force) == Total(less.rows + [one.row], less.filled + one.filled, less.skipped + one.skipped)
  {
    hide FillRow;
  }

  /** What has no column in the table is told of, in the order of the values. */
  ghost function WithoutColumn(h: Header, values: Values): (nat, string) -> bool {
    (j: nat, column: string) =>
      && j < |values| && column == values[j].column
      && forall i :: 0 <= i < |h.names| && h.names[i] != "" ==> h.fold(h.names[i]) != h.fold(column)
  }

  lemma {:induction false} MissingAre(h: Header, values: Values)
    ensures Picks(Missing(h, values), |values|, WithoutColumn(h, values))
  {
    hide Picks, ColumnOf;
    if values == [] {
      PicksNone(WithoutColumn(h, values));
    } else {
      var n := |values| - 1;
      var less := Missing(h, values[..n]);
      MissingAre(h, values[..n]);
      PicksSame(less, n, WithoutColumn(h, values[..n]), WithoutColumn(h, values));
      ColumnIsLast(h.names, h.fold, values[n].column);
      if ColumnOf(h.names, h.fold, values[n].column).None? {
        PicksMore(less, n, WithoutColumn(h, values), values[n].column);
      } else {
        PicksNoMore(less, n, WithoutColumn(h, values));
      }
    }
  }
}
