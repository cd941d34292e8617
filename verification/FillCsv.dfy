/** Blank cells of a table filled from the values of data source steps, for real or as a
    dry run that decides the same and writes nothing. */
module FillCsv {
  import Text
  import opened Wrappers

  type Row = map<string, string>

  datatype Pair = Pair(column: string, text: string)

  /** What one fill asks for: a value for each of some columns. */
  type Values = seq<Pair>

  /** The header of a table, and how two names of a column are compared. */
  datatype Header = Header(names: seq<string>, fold: string -> string)

  datatype Outcome = Outcome(row: Row, filled: nat, skipped: nat)

  datatype Total = Total(rows: seq<Row>, filled: nat, skipped: nat)

  // ---- one fill ----------------------------------------------------------

  /** The column of the table that `column` means: the last with that name folded. */
  function ColumnOf(names: seq<string>, fold: string -> string, column: string): Option<string> {
    if names == [] then None
    else
      var last := names[|names| - 1];
      if last != "" && fold(last) == fold(column) then Some(last)
      else ColumnOf(names[..|names| - 1], fold, column)
  }

  /** Whether `v` is to be written at all. */
  predicate IsTarget(h: Header, v: Pair) {
    ColumnOf(h.names, h.fold, v.column).Some? && v.text != ""
  }

  function Cell(row: Row, name: string): string {
    if name in row then row[name] else ""
  }

  function FillOne(h: Header, row: Row, v: Pair, force: bool): Outcome {
    var name := ColumnOf(h.names, h.fold, v.column);
    if name.None? || v.text == "" then Outcome(row, 0, 0)
    else if !Text.IsBlank(Cell(row, name.value)) && !force then Outcome(row, 0, 1)
    else Outcome(row[name.value := v.text], 1, 0)
  }

  function FillRow(h: Header, row: Row, values: Values, force: bool): Outcome {
    if values == [] then Outcome(row, 0, 0)
    else
      var less := FillRow(h, row, values[..|values| - 1], force);
      var one := FillOne(h, less.row, values[|values| - 1], force);
      Outcome(one.row, less.filled + one.filled, less.skipped + one.skipped)
  }

  function FillRows(h: Header, rows: seq<Row>, values: Values, force: bool): (t: Total)
    ensures |t.rows| == |rows|
  {
    if rows == [] then Total([], 0, 0)
    else
      var less := FillRows(h, rows[..|rows| - 1], values, force);
      var one := FillRow(h, rows[|rows| - 1], values, force);
      Total(less.rows + [one.row], less.filled + one.filled, less.skipped + one.skipped)
  }

  function Targets(h: Header, values: Values): nat {
    if values == [] then 0
    else Targets(h, values[..|values| - 1]) + if IsTarget(h, values[|values| - 1]) then 1 else 0
  }

  /** The columns asked for that the table does not have. */
  function Missing(h: Header, values: Values): seq<string> {
    if values == [] then []
    else
      var less, last := Missing(h, values[..|values| - 1]), values[|values| - 1];
      if ColumnOf(h.names, h.fold, last.column).None? then less + [last.column] else less
  }

  /** A table of rows; `rows` is what its file holds. */
  class Table {
    const header: Header
    var rows: seq<Row>

    constructor (header: Header, rows: seq<Row>)
      ensures this.header == header && this.rows == rows
    {
      this.header, this.rows := header, rows;
    }

    /** Everything is decided on a copy of the rows, which takes their place only when some
        cell was filled and `write` holds. */
    method Fill(values: Values, force: bool, write: bool) returns (filled: nat, skipped: nat, missing: seq<string>)
      modifies this`rows
      ensures var t := FillRows(header, old(rows), values, force);
              filled == t.filled && skipped == t.skipped && rows == if write then t.rows else old(rows)
      ensures missing == if old(rows) == [] then [] else Missing(header, values)
    {
      hide FillRow, FillRows;
      if rows == [] {
        NothingFilled(header, rows, values, force);
        return 0, 0, [];
      }
      missing := MissingColumns(header, values);
      var copy;
      copy, filled, skipped := FillCopy(header, rows, values, force);
      if filled > 0 && write {
        rows := copy;
      } else if filled == 0 {
        NothingFilled(header, rows, values, force);
      }
    }
  }

  method FillCopy(h: Header, rows: seq<Row>, values: Values, force: bool) returns (copy: seq<Row>, filled: nat, skipped: nat)
    ensures Total(copy, filled, skipped) == FillRows(h, rows, values, force)
  {
    hide FillRow;
    copy, filled, skipped := rows, 0, 0;
    for i := 0 to |rows|
      invariant |copy| == |rows| && forall k :: i <= k < |rows| ==> copy[k] == rows[k]
      invariant Total(copy[..i], filled, skipped) == FillRows(h, rows[..i], values, force)
    {
      assert rows[..i + 1][..i] == rows[..i];
      var row, f, s := FillCells(h, copy[i], values, force);
      filled, skipped := filled + f, skipped + s;
      copy := copy[i := row];
      assert copy[..i + 1] == copy[..i] + [row];
    }
    assert rows[..|rows|] == rows && copy[..|copy|] == copy;
  }

  method MissingColumns(h: Header, values: Values) returns (missing: seq<string>)
    ensures missing == Missing(h, values)
  {
    missing := [];
    for j := 0 to |values|
      invariant missing == Missing(h, values[..j])
    {
      assert values[..j + 1][..j] == values[..j];
      if ColumnOf(h.names, h.fold, values[j].column).None? {
        missing := missing + [values[j].column];
      }
    }
    assert values[..|values|] == values;
  }

  method FillCells(h: Header, before: Row, values: Values, force: bool) returns (row: Row, filled: nat, skipped: nat)
    ensures Outcome(row, filled, skipped) == FillRow(h, before, values, force)
  {
    row, filled, skipped := before, 0, 0;
    for j := 0 to |values|
      invariant Outcome(row, filled, skipped) == FillRow(h, before, values[..j], force)
    {
      assert values[..j + 1][..j] == values[..j];
      var name := ColumnOf(h.names, h.fold, values[j].column);
      if name.None? || values[j].text == "" {
        continue;
      }
      if !Text.IsBlank(Cell(row, name.value)) && !force {
        skipped := skipped + 1;
        continue;
      }
      row := row[name.value := values[j].text];
      filled := filled + 1;
    }
    assert values[..|values|] == values;
  }

  lemma {:induction false} NothingFilledInRow(h: Header, row: Row, values: Values, force: bool)
    requires FillRow(h, row, values, force).filled == 0
    ensures FillRow(h, row, values, force).row == row
  {
    if values != [] {
      NothingFilledInRow(h, row, values[..|values| - 1], force);
    }
  }

  lemma {:induction false} NothingFilled(h: Header, rows: seq<Row>, values: Values, force: bool)
    requires rows == [] || FillRows(h, rows, values, force).filled == 0
    ensures rows == [] ==> FillRows(h, rows, values, force) == Total([], 0, 0)
    ensures FillRows(h, rows, values, force).rows == rows
  {
    if rows != [] {
      NothingFilled(h, rows[..|rows| - 1], values, force);
      NothingFilledInRow(h, rows[|rows| - 1], values, force);
      assert rows == rows[..|rows| - 1] + [rows[|rows| - 1]];
    }
  }

  // ---- what a fill counts and what it leaves -----------------------------

  lemma {:induction false} RowCounts(h: Header, row: Row, values: Values, force: bool)
    ensures var o := FillRow(h, row, values, force); o.filled + o.skipped == Targets(h, values)
    ensures force ==> FillRow(h, row, values, force).skipped == 0
  {
    if values != [] {
      RowCounts(h, row, values[..|values| - 1], force);
    }
  }

  lemma OneMore(n: int, k: int)
    ensures (n - 1) * k + k == n * k
  {
  }

  /** What a fill fills and what it skips add up to the same for every table of that many
      rows, whatever its cells hold. */
  lemma {:induction false} FillCounts(h: Header, rows: seq<Row>, values: Values, force: bool)
    ensures var t := FillRows(h, rows, values, force); t.filled + t.skipped == |rows| * Targets(h, values)
    ensures force ==> FillRows(h, rows, values, force).skipped == 0
  {
    hide FillRow, Targets;
    if rows != [] {
      FillCounts(h, rows[..|rows| - 1], values, force);
      RowCounts(h, rows[|rows| - 1], values, force);
      OneMore(|rows|, Targets(h, values));
    }
  }

  /** Every cell of `row` that is not blank is the same in `later`. */
  ghost predicate RowKept(row: Row, later: Row) {
    forall name: string :: !Text.IsBlank(Cell(row, name)) ==> Cell(later, name) == Cell(row, name)
  }

  ghost predicate Kept(rows: seq<Row>, later: seq<Row>) {
    |later| == |rows| && forall i :: 0 <= i < |rows| ==> RowKept(rows[i], later[i])
  }

  lemma {:induction false} RowIsKept(h: Header, row: Row, values: Values)
    ensures RowKept(row, FillRow(h, row, values, false).row)
  {
    if values != [] {
      RowIsKept(h, row, values[..|values| - 1]);
    }
  }

  /** Without force no cell that is not blank changes. */
  lemma {:induction false} FillKeeps(h: Header, rows: seq<Row>, values: Values)
    ensures Kept(rows, FillRows(h, rows, values, false).rows)
  {
    if rows != [] {
      FillKeeps(h, rows[..|rows| - 1], values);
      RowIsKept(h, rows[|rows| - 1], values);
    }
  }

  /** Forced or not, a cell that changes is one of a column asked for, and holds the value
      asked for it. */
  lemma {:induction false} OnlyWhatWasAsked(h: Header, row: Row, values: Values, force: bool, name: string)
    ensures var later := FillRow(h, row, values, force).row;
            Cell(later, name) == Cell(row, name)
            || exists v :: v in values && IsTarget(h, v) && ColumnOf(h.names, h.fold, v.column).value == name && Cell(later, name) == v.text
  {
    if values != [] {
      OnlyWhatWasAsked(h, row, values[..|values| - 1], force, name);
      assert values == values[..|values| - 1] + [values[|values| - 1]];
    }
  }

  /** A column is meant by the last name of the header that reads the same, if there is one. */
  lemma {:induction false} ColumnIsLast(names: seq<string>, fold: string -> string, column: string)
    ensures match ColumnOf(names, fold, column)
            case None => forall i :: 0 <= i < |names| && names[i] != "" ==> fold(names[i]) != fold(column)
            case Some(name) =>
              exists i :: 0 <= i < |names| && names[i] == name != "" && fold(name) == fold(column)
                          && forall j :: i < j < |names| && names[j] != "" ==> fold(names[j]) != fold(column)
  {
    if names != [] {
      var n := |names| - 1;
      ColumnIsLast(names[..n], fold, column);
      if ColumnOf(names, fold, column).Some? && !(names[n] != "" && fold(names[n]) == fold(column)) {
        var less := names[..n];
        var i :| 0 <= i < n && less[i] == ColumnOf(names, fold, column).value
                 && forall j :: i < j < n && less[j] != "" ==> fold(less[j]) != fold(column);
        assert names[i] == less[i];
        assert forall j :: i < j < n ==> names[j] == less[j];
      }
    }
  }

  /** Whether value `v` is for column `name`. */
  predicate AsksFor(h: Header, v: Pair, name: string) {
    IsTarget(h, v) && ColumnOf(h.names, h.fold, v.column).value == name
  }

  /** Of several values for one cell the last wins when forced; without force the first does,
      if the cell was blank and the value is not. */
  lemma {:induction false} WhichValueWins(h: Header, row: Row, values: Values, force: bool, name: string, k: nat)
    requires k < |values| && AsksFor(h, values[k], name)
    requires if force then forall j :: k < j < |values| ==> !AsksFor(h, values[j], name)
             else Text.IsBlank(Cell(row, name)) && !Text.IsBlank(values[k].text)
                  && forall j :: 0 <= j < k ==> !AsksFor(h, values[j], name)
    ensures Cell(FillRow(h, row, values, force).row, name) == values[k].text
  {
    hide Text.IsBlank, ColumnOf;
    var n := |values| - 1;
    var less := values[..n];
    if k < n {
      assert less[k] == values[k];
      assert forall j :: 0 <= j < n ==> less[j] == values[j];
      WhichValueWins(h, row, less, force, name, k);
    } else if !force {
      NotAskedStays(h, row, less, name);
    }
  }

  lemma {:induction false} NotAskedStays(h: Header, row: Row, values: Values, name: string)
    requires forall j :: 0 <= j < |values| ==> !AsksFor(h, values[j], name)
    ensures Cell(FillRow(h, row, values, false).row, name) == Cell(row, name)
  {
    hide Text.IsBlank, ColumnOf;
    if values != [] {
      NotAskedStays(h, row, values[..|values| - 1], name);
    }
  }

  // ---- many fills of one table -------------------------------------------

  /** The fills one after another, each on what the one before left. */
  function Real(h: Header, rows: seq<Row>, steps: seq<Values>, force: bool): (t: Total)
    ensures |t.rows| == |rows|
  {
    if steps == [] then Total(rows, 0, 0)
    else
      var less := Real(h, rows, steps[..|steps| - 1], force);
      var one := FillRows(h, less.rows, steps[|steps| - 1], force);
      Total(one.rows, less.filled + one.filled, less.skipped + one.skipped)
  }

  /** The fills decided on the table as it is. */
  function Dry(h: Header, rows: seq<Row>, steps: seq<Values>, force: bool): (t: Total)
    ensures t.rows == rows
  {
    if steps == [] then Total(rows, 0, 0)
    else
      var less := Dry(h, rows, steps[..|steps| - 1], force);
      var one := FillRows(h, rows, steps[|steps| - 1], force);
      Total(rows, less.filled + one.filled, less.skipped + one.skipped)
  }

  method FillAll(t: Table, steps: seq<Values>, force: bool, dryRun: bool) returns (filled: nat, skipped: nat)
    modifies t`rows
    ensures var all := if dryRun then Dry(t.header, old(t.rows), steps, force) else Real(t.header, old(t.rows), steps, force);
            Total(t.rows, filled, skipped) == all
  {
    filled, skipped := 0, 0;
    for i := 0 to |steps|
      invariant dryRun ==> Total(t.rows, filled, skipped) == Dry(t.header, old(t.rows), steps[..i], force)
      invariant !dryRun ==> Total(t.rows, filled, skipped) == Real(t.header, old(t.rows), steps[..i], force)
    {
      assert steps[..i + 1][..i] == steps[..i];
      var f, s, missing := t.Fill(steps[i], force, !dryRun);
      filled, skipped := filled + f, skipped + s;
    }
    assert steps[..|steps|] == steps;
  }

  /** Any number of fills without force keep every cell that was not blank. */
  lemma {:induction false} RealKeeps(h: Header, rows: seq<Row>, steps: seq<Values>)
    ensures Kept(rows, Real(h, rows, steps, false).rows)
  {
    if steps != [] {
      RealKeeps(h, rows, steps[..|steps| - 1]);
      var less := Real(h, rows, steps[..|steps| - 1], false).rows;
      FillKeeps(h, less, steps[|steps| - 1]);
      forall i | 0 <= i < |rows| ensures RowKept(rows[i], Real(h, rows, steps, false).rows[i]) {
        assert RowKept(rows[i], less[i]);
      }
    }
  }

  /** `more` has every cell filled that `row` has. */
  ghost predicate AtLeast(row: Row, more: Row) {
    forall name: string :: !Text.IsBlank(Cell(row, name)) ==> !Text.IsBlank(Cell(more, name))
  }

  lemma FullerRowOnce(h: Header, row: Row, more: Row, v: Pair)
    requires AtLeast(row, more)
    ensures FillOne(h, more, v, false).filled <= FillOne(h, row, v, false).filled
    ensures AtLeast(FillOne(h, row, v, false).row, FillOne(h, more, v, false).row)
  {
    hide Text.IsBlank, ColumnOf;
    var r, m := FillOne(h, row, v, false).row, FillOne(h, more, v, false).row;
    forall name: string | !Text.IsBlank(Cell(r, name)) ensures !Text.IsBlank(Cell(m, name)) {
      assert !Text.IsBlank(Cell(row, name)) ==> !Text.IsBlank(Cell(more, name));
    }
  }

  lemma {:induction false} FullerRowFillsLess(h: Header, row: Row, more: Row, values: Values)
    requires AtLeast(row, more)
    ensures FillRow(h, more, values, false).filled <= FillRow(h, row, values, false).filled
    ensures AtLeast(FillRow(h, row, values, false).row, FillRow(h, more, values, false).row)
  {
    hide FillOne, AtLeast;
    if values != [] {
      var less := values[..|values| - 1];
      FullerRowFillsLess(h, row, more, less);
      FullerRowOnce(h, FillRow(h, row, less, false).row, FillRow(h, more, less, false).row, values[|values| - 1]);
    }
  }

  ghost predicate AllAtLeast(rows: seq<Row>, more: seq<Row>) {
    |more| == |rows| && forall i :: 0 <= i < |rows| ==> AtLeast(rows[i], more[i])
  }

  lemma {:induction false} FullerFillsLess(h: Header, rows: seq<Row>, more: seq<Row>, values: Values)
    requires AllAtLeast(rows, more)
    ensures FillRows(h, more, values, false).filled <= FillRows(h, rows, values, false).filled
  {
    hide AtLeast, FillRow;
    if rows != [] {
      FullerFillsLess(h, rows[..|rows| - 1], more[..|more| - 1], values);
      FullerRowFillsLess(h, rows[|rows| - 1], more[|more| - 1], values);
    }
  }

  /** A dry run decides every fill as the real run does but for what the real run filled in
      the meantime: what it fills and skips adds up to the same, and it never foretells less
      than the real run fills; with force it foretells exactly that. */
  lemma {:induction false} DryForetells(h: Header, rows: seq<Row>, steps: seq<Values>, force: bool)
    ensures var d, r := Dry(h, rows, steps, force), Real(h, rows, steps, force);
            d.filled + d.skipped == r.filled + r.skipped && r.filled <= d.filled && (force ==> r.filled == d.filled)
  {
    hide FillRows;
    if steps != [] {
      var less, last := steps[..|steps| - 1], steps[|steps| - 1];
      var now := Real(h, rows, less, force).rows;
      DryForetells(h, rows, less, force);
      FillCounts(h, rows, last, force);
      FillCounts(h, now, last, force);
      if !force {
        RealKeeps(h, rows, less);
        KeptIsAtLeast(rows, now);
        FullerFillsLess(h, rows, now, last);
      }
    }
  }

  lemma KeptIsAtLeast(rows: seq<Row>, later: seq<Row>)
    requires Kept(rows, later)
    ensures AllAtLeast(rows, later)
  {
    forall i | 0 <= i < |rows| ensures AtLeast(rows[i], later[i]) {
      assert RowKept(rows[i], later[i]);
    }
  }

  /** So it is at each step by itself, and no step of the real run fills more. */
  lemma EachStepAgrees(h: Header, rows: seq<Row>, steps: seq<Values>, force: bool, k: nat)
    requires k < |steps|
    ensures var d := FillRows(h, Dry(h, rows, steps[..k], force).rows, steps[k], force);
            var r := FillRows(h, Real(h, rows, steps[..k], force).rows, steps[k], force);
            d.filled + d.skipped == r.filled + r.skipped && r.filled <= d.filled
  {
    hide FillRows;
    var now := Real(h, rows, steps[..k], force).rows;
    FillCounts(h, rows, steps[k], force);
    FillCounts(h, now, steps[k], force);
    if !force {
      RealKeeps(h, rows, steps[..k]);
      KeptIsAtLeast(rows, now);
      FullerFillsLess(h, rows, now, steps[k]);
    }
  }

  // ---- when the dry run foretells exactly --------------------------------

  /** Some value of `values` is for column `name`; one that is not of blanks only is. */
  ghost predicate Asks(h: Header, values: Values, name: string) {
    exists v :: v in values && AsksFor(h, v, name)
  }

  ghost predicate Gives(h: Header, values: Values, name: string) {
    exists v :: v in values && AsksFor(h, v, name) && !Text.IsBlank(v.text)
  }

  predicate Blank(row: Row, name: string) {
    Text.IsBlank(Cell(row, name))
  }

  lemma {:induction false} BlankAlike(h: Header, row: Row, more: Row, values: Values, name: string)
    requires Blank(row, name) <==> Blank(more, name)
    ensures Blank(FillRow(h, row, values, false).row, name) <==> Blank(FillRow(h, more, values, false).row, name)
  {
    hide Text.IsBlank, ColumnOf;
    if values != [] {
      BlankAlike(h, row, more, values[..|values| - 1], name);
    }
  }

  lemma {:induction false} AlikeFillsAlike(h: Header, row: Row, more: Row, values: Values)
    requires forall name :: Asks(h, values, name) ==> (Blank(row, name) <==> Blank(more, name))
    ensures FillRow(h, more, values, false).filled == FillRow(h, row, values, false).filled
  {
    hide Text.IsBlank, ColumnOf;
    if values != [] {
      var less, last := values[..|values| - 1], values[|values| - 1];
      assert values == less + [last];
      forall name | Asks(h, less, name) ensures Asks(h, values, name) {
      }
      AlikeFillsAlike(h, row, more, less);
      if IsTarget(h, last) {
        var name := ColumnOf(h.names, h.fold, last.column).value;
        assert AsksFor(h, last, name) && last in values;
        BlankAlike(h, row, more, less, name);
      }
    }
  }

  lemma {:induction false} FilledFillsLess(h: Header, row: Row, more: Row, values: Values, name: string)
    requires AtLeast(row, more) && Asks(h, values, name) && Blank(row, name) && !Blank(more, name)
    ensures FillRow(h, more, values, false).filled < FillRow(h, row, values, false).filled
  {
    hide Text.IsBlank, ColumnOf, AtLeast;
    var less, last := values[..|values| - 1], values[|values| - 1];
    assert values == less + [last];
    FullerRowFillsLess(h, row, more, less);
    FullerRowOnce(h, FillRow(h, row, less, false).row, FillRow(h, more, less, false).row, last);
    if Asks(h, less, name) {
      FilledFillsLess(h, row, more, less, name);
    } else {
      assert forall j :: 0 <= j < |less| ==> less[j] in less;
      NotAskedStays(h, row, less, name);
      NotAskedStays(h, more, less, name);
    }
  }

  /** A row with more in it fills as many cells just when no cell asked for is one of those
      that it has and the other has not. */
  lemma RowFillsAlike(h: Header, row: Row, more: Row, values: Values)
    requires AtLeast(row, more)
    ensures FillRow(h, more, values, false).filled == FillRow(h, row, values, false).filled
            <==> forall name :: Asks(h, values, name) && Blank(row, name) ==> Blank(more, name)
  {
    hide FillRow, Asks;
    if forall name :: Asks(h, values, name) && Blank(row, name) ==> Blank(more, name) {
      AlikeFillsAlike(h, row, more, values);
    } else {
      var name :| Asks(h, values, name) && Blank(row, name) && !Blank(more, name);
      FilledFillsLess(h, row, more, values, name);
    }
  }

  /** Row `i` has a cell that `values` asks for, blank in `rows` and not in `more`. */
  ghost predicate Overlap(h: Header, rows: seq<Row>, more: seq<Row>, values: Values, i: nat, name: string) {
    i < |rows| && i < |more| && Asks(h, values, name) && Blank(rows[i], name) && !Blank(more[i], name)
  }

  lemma {:induction false} FillsAlike(h: Header, rows: seq<Row>, more: seq<Row>, values: Values)
    requires AllAtLeast(rows, more)
    ensures FillRows(h, more, values, false).filled == FillRows(h, rows, values, false).filled
            <==> forall i: nat, name :: !Overlap(h, rows, more, values, i, name)
  {
    hide AtLeast, FillRow, Asks, Blank;
    if rows != [] {
      var n := |rows| - 1;
      FillsAlike(h, rows[..n], more[..n], values);
      FullerFillsLess(h, rows[..n], more[..n], values);
      FullerRowFillsLess(h, rows[n], more[n], values);
      RowFillsAlike(h, rows[n], more[n], values);
      forall i: nat, name
        ensures Overlap(h, rows, more, values, i, name)
                <==> Overlap(h, rows[..n], more[..n], values, i, name)
                     || (i == n && Asks(h, values, name) && Blank(rows[n], name) && !Blank(more[n], name))
      {
      }
      if name :| Asks(h, values, name) && Blank(rows[n], name) && !Blank(more[n], name) {
        assert Overlap(h, rows, more, values, n, name);
      }
    }
  }

  lemma {:induction false} FilledIffGiven(h: Header, row: Row, values: Values, name: string)
    requires Blank(row, name)
    ensures !Blank(FillRow(h, row, values, false).row, name) <==> Gives(h, values, name)
  {
    hide Text.IsBlank, ColumnOf;
    if values != [] {
      var less, last := values[..|values| - 1], values[|values| - 1];
      assert values == less + [last];
      FilledIffGiven(h, row, less, name);
      assert Gives(h, values, name) <==> Gives(h, less, name) || (AsksFor(h, last, name) && !Text.IsBlank(last.text)) by {
        assert last in values;
      }
    } else {
      assert !Gives(h, values, name);
    }
  }

  lemma {:induction false} RowOfRows(h: Header, rows: seq<Row>, values: Values, force: bool, i: nat)
    requires i < |rows|
    ensures FillRows(h, rows, values, force).rows[i] == FillRow(h, rows[i], values, force).row
  {
    hide FillRow;
    if i < |rows| - 1 {
      RowOfRows(h, rows[..|rows| - 1], values, force, i);
    }
  }

  /** Some step of `steps` gives the column a value that is not of blanks only. */
  ghost predicate GivenBy(h: Header, steps: seq<Values>, name: string) {
    exists j :: 0 <= j < |steps| && Gives(h, steps[j], name)
  }

  /** A blank cell of the table is filled by the steps just when one of them gives it a value. */
  lemma {:induction false} RealFillsIffGiven(h: Header, rows: seq<Row>, steps: seq<Values>, i: nat, name: string)
    requires i < |rows| && Blank(rows[i], name)
    ensures !Blank(Real(h, rows, steps, false).rows[i], name) <==> GivenBy(h, steps, name)
  {
    hide FillRows, Gives, FillRow;
    if steps != [] {
      var n := |steps| - 1;
      var before := Real(h, rows, steps[..n], false).rows;
      RealFillsIffGiven(h, rows, steps[..n], i, name);
      RowOfRows(h, before, steps[n], false, i);
      if Blank(before[i], name) {
        FilledIffGiven(h, before[i], steps[n], name);
      } else {
        RowIsKept(h, before[i], steps[n]);
      }
      if j :| 0 <= j < n && Gives(h, steps[..n][j], name) {
        assert steps[j] == steps[..n][j];
      }
      if j :| 0 <= j < |steps| && Gives(h, steps[j], name) {
        assert j < n ==> steps[..n][j] == steps[j];
      }
    }
  }

  /** Step `k` asks for a cell of row `i` that is blank in the table and that an earlier step
      gives a value. */
  ghost predicate FilledTwice(h: Header, rows: seq<Row>, steps: seq<Values>, i: nat, k: nat, name: string) {
    i < |rows| && k < |steps| && Blank(rows[i], name) && Asks(h, steps[k], name) && GivenBy(h, steps[..k], name)
  }

  lemma StepFillsAlike(h: Header, rows: seq<Row>, steps: seq<Values>, k: nat)
    requires k < |steps|
    ensures FillRows(h, Real(h, rows, steps[..k], false).rows, steps[k], false).filled
            == FillRows(h, rows, steps[k], false).filled
            <==> forall i: nat, name :: !FilledTwice(h, rows, steps, i, k, name)
  {
    hide FillRows, Real, Asks, GivenBy, Blank;
    var now := Real(h, rows, steps[..k], false).rows;
    RealKeeps(h, rows, steps[..k]);
    KeptIsAtLeast(rows, now);
    FillsAlike(h, rows, now, steps[k]);
    forall i: nat, name ensures Overlap(h, rows, now, steps[k], i, name) <==> FilledTwice(h, rows, steps, i, k, name) {
      if i < |rows| && Blank(rows[i], name) {
        RealFillsIffGiven(h, rows, steps[..k], i, name);
      }
    }
  }

  /** Without force the dry run foretells the number of cells filled just when no step asks for
      a cell, blank in the table, that an earlier step gives a value that is not of blanks only. */
  lemma {:induction false} DryForetellsExactly(h: Header, rows: seq<Row>, steps: seq<Values>)
    ensures Dry(h, rows, steps, false).filled == Real(h, rows, steps, false).filled
            <==> forall i: nat, k: nat, name :: !FilledTwice(h, rows, steps, i, k, name)
  {
    hide FillRows, Asks, GivenBy, Blank;
    if steps != [] {
      var n := |steps| - 1;
      var less := steps[..n];
      DryForetellsExactly(h, rows, less);
      DryForetells(h, rows, less, false);
      EachStepAgrees(h, rows, steps, false, n);
      StepFillsAlike(h, rows, steps, n);
      forall i: nat, k: nat, name
        ensures FilledTwice(h, rows, steps, i, k, name)
                <==> FilledTwice(h, rows, less, i, k, name) || (k == n && FilledTwice(h, rows, steps, i, n, name))
      {
        if k < n {
          assert less[..k] == steps[..k] && less[k] == steps[k];
        }
      }
    }
  }

  // ---- the same fills again ----------------------------------------------

  /** No cell of the row that `values` asks for is blank. */
  ghost predicate RowDone(h: Header, row: Row, values: Values) {
    forall name :: Asks(h, values, name) ==> !Blank(row, name)
  }

  ghost predicate Done(h: Header, rows: seq<Row>, values: Values) {
    forall i :: 0 <= i < |rows| ==> RowDone(h, rows[i], values)
  }

  lemma AsksOneMore(h: Header, less: Values, last: Pair, name: string)
    ensures Asks(h, less + [last], name) <==> Asks(h, less, name) || AsksFor(h, last, name)
  {
    hide AsksFor;
    assert last in less + [last];
  }

  lemma {:induction false} RowFillsNothingIff(h: Header, row: Row, values: Values)
    ensures FillRow(h, row, values, false).filled == 0 <==> RowDone(h, row, values)
  {
    hide Asks, Text.IsBlank, ColumnOf;
    if values == [] {
      NothingAsked(h);
    } else {
      var less, last := values[..|values| - 1], values[|values| - 1];
      assert values == less + [last];
      RowFillsNothingIff(h, row, less);
      forall name ensures Asks(h, values, name) <==> Asks(h, less, name) || AsksFor(h, last, name) {
        AsksOneMore(h, less, last, name);
      }
      assert RowDone(h, row, values) <==> RowDone(h, row, less) && forall name :: AsksFor(h, last, name) ==> !Blank(row, name);
      if FillRow(h, row, less, false).filled == 0 {
        NothingFilledInRow(h, row, less, false);
        OneFillsNothingIff(h, row, last);
      }
    }
  }

  lemma OneFillsNothingIff(h: Header, row: Row, v: Pair)
    ensures FillOne(h, row, v, false).filled == 0 <==> forall name :: AsksFor(h, v, name) ==> !Blank(row, name)
  {
    hide Text.IsBlank, ColumnOf;
    var name := ColumnOf(h.names, h.fold, v.column);
    assert name.Some? && v.text != "" ==> AsksFor(h, v, name.value);
  }

  lemma NothingAsked(h: Header)
    ensures forall name :: !Asks(h, [], name)
  {
  }

  /** A fill finds nothing to fill just when no cell it asks for is blank. */
  lemma {:induction false} FillsNothingIff(h: Header, rows: seq<Row>, values: Values)
    ensures FillRows(h, rows, values, false).filled == 0 <==> Done(h, rows, values)
  {
    hide FillRow, RowDone;
    if rows != [] {
      var n := |rows| - 1;
      FillsNothingIff(h, rows[..n], values);
      RowFillsNothingIff(h, rows[n], values);
      assert forall i :: 0 <= i < n ==> rows[..n][i] == rows[i];
      assert Done(h, rows, values) <==> Done(h, rows[..n], values) && RowDone(h, rows[n], values);
    }
  }

  lemma {:induction false} RealFillsNothingIff(h: Header, rows: seq<Row>, again: seq<Values>)
    ensures Real(h, rows, again, false).filled == 0 <==> forall k :: 0 <= k < |again| ==> Done(h, rows, again[k])
    ensures Real(h, rows, again, false).filled == 0 ==> Real(h, rows, again, false).rows == rows
  {
    hide FillRows, Done;
    if again != [] {
      var n := |again| - 1;
      RealFillsNothingIff(h, rows, again[..n]);
      FillsNothingIff(h, rows, again[n]);
      if FillRows(h, rows, again[n], false).filled == 0 {
        NothingFilled(h, rows, again[n], false);
      }
    }
  }

  /** Fill `k` asks for a cell of row `i` that is blank and that no step gives a value. */
  ghost predicate LeftBlank(h: Header, rows: seq<Row>, steps: seq<Values>, fill: Values, i: nat, name: string) {
    i < |rows| && Blank(rows[i], name) && Asks(h, fill, name) && !GivenBy(h, steps, name)
  }

  lemma DoneIffGiven(h: Header, rows: seq<Row>, steps: seq<Values>, fill: Values)
    ensures Done(h, Real(h, rows, steps, false).rows, fill) <==> forall i: nat, name :: !LeftBlank(h, rows, steps, fill, i, name)
  {
    hide Real, Asks, GivenBy, Blank;
    var first := Real(h, rows, steps, false).rows;
    RealKeeps(h, rows, steps);
    forall i: nat, name | i < |rows|
      ensures LeftBlank(h, rows, steps, fill, i, name) <==> Asks(h, fill, name) && Blank(first[i], name)
    {
      if Blank(rows[i], name) {
        RealFillsIffGiven(h, rows, steps, i, name);
      } else {
        KeptIsNotBlank(rows[i], first[i], name);
      }
    }
  }

  lemma KeptIsNotBlank(row: Row, later: Row, name: string)
    requires RowKept(row, later) && !Blank(row, name)
    ensures !Blank(later, name)
  {
  }

  /** After `steps` further fills find nothing to fill just when every cell they ask for, blank
      in the table, was given a value that is not of blanks only. */
  lemma FillsNothingMoreIff(h: Header, rows: seq<Row>, steps: seq<Values>, again: seq<Values>)
    ensures var first := Real(h, rows, steps, false).rows;
            Real(h, first, again, false).filled == 0
            <==> forall i: nat, k: nat, name :: k < |again| ==> !LeftBlank(h, rows, steps, again[k], i, name)
  {
    hide Real, Done, LeftBlank;
    RealFillsNothingIff(h, Real(h, rows, steps, false).rows, again);
    forall k | 0 <= k < |again|
      ensures Done(h, Real(h, rows, steps, false).rows, again[k]) <==> forall i: nat, name :: !LeftBlank(h, rows, steps, again[k], i, name)
    {
      DoneIffGiven(h, rows, steps, again[k]);
    }
  }

  /** No value asked for is of blanks only. */
  ghost predicate Solid(values: Values) {
    forall v :: v in values && v.text != "" ==> !Text.IsBlank(v.text)
  }

  /** So the same fills made again, with values none of which is blanks only, change nothing. */
  lemma DoneTwice(h: Header, rows: seq<Row>, steps: seq<Values>, again: seq<Values>)
    requires forall v :: v in steps ==> Solid(v)
    requires forall v :: v in again ==> v in steps
    ensures var first := Real(h, rows, steps, false).rows;
            Real(h, first, again, false).filled == 0 && Real(h, first, again, false).rows == first
  {
    hide Real, Text.IsBlank, ColumnOf;
    var first := Real(h, rows, steps, false).rows;
    forall i: nat, k: nat, name | k < |again| ensures !LeftBlank(h, rows, steps, again[k], i, name) {
      assert again[k] in again;
      var j :| 0 <= j < |steps| && steps[j] == again[k];
      if v :| v in again[k] && AsksFor(h, v, name) {
        assert v.text != "" && steps[j] in steps;
        assert Gives(h, steps[j], name);
      }
    }
    FillsNothingMoreIff(h, rows, steps, again);
    RealFillsNothingIff(h, first, again);
  }

  /** Two steps for one cell: the dry run counts both, the real run fills the first. */
  lemma DryCountsTwice(h: Header, row: Row, v: Pair, w: Pair)
    requires IsTarget(h, v) && IsTarget(h, w) && !Text.IsBlank(v.text)
    requires ColumnOf(h.names, h.fold, v.column) == ColumnOf(h.names, h.fold, w.column)
    requires Text.IsBlank(Cell(row, ColumnOf(h.names, h.fold, v.column).value))
    ensures Dry(h, [row], [[v], [w]], false).filled == 2
    ensures Real(h, [row], [[v], [w]], false).filled == 1
  {
    hide Text.IsBlank, ColumnOf, FillRows;
    var once := FillOne(h, row, v, false).row;
    OneRow(h, row, v);
    OneRow(h, row, w);
    OneRow(h, once, w);
    TwoSteps(h, [row], [v], [w]);
  }

  lemma TwoSteps(h: Header, rows: seq<Row>, v: Values, w: Values)
    ensures Dry(h, rows, [v, w], false).filled == FillRows(h, rows, v, false).filled + FillRows(h, rows, w, false).filled
    ensures var once := FillRows(h, rows, v, false);
            Real(h, rows, [v, w], false).filled == once.filled + FillRows(h, once.rows, w, false).filled
  {
    hide FillRows;
    assert [v, w][..1] == [v] && [v][..0] == [];
    assert Dry(h, rows, [], false) == Total(rows, 0, 0) == Real(h, rows, [], false);
    assert Dry(h, rows, [v], false).filled == FillRows(h, rows, v, false).filled;
    assert Real(h, rows, [v], false).filled == FillRows(h, rows, v, false).filled;
    assert Real(h, rows, [v], false).rows == FillRows(h, rows, v, false).rows;
  }

  lemma OneRow(h: Header, row: Row, v: Pair)
    ensures var o := FillOne(h, row, v, false);
            FillRows(h, [row], [v], false) == Total([o.row], o.filled, o.skipped)
  {
    hide FillOne;
    assert [row][..0] == [] && [v][..0] == [];
    assert [] + [FillOne(h, row, v, false).row] == [FillOne(h, row, v, false).row];
    assert FillRow(h, row, [], false) == Outcome(row, 0, 0);
    assert FillRows(h, [], [v], false) == Total([], 0, 0);
  }
}
