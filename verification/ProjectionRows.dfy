/** The rows of a collection as the evaluator accumulates them: what has been charged so
    far, and why a refusal on the way is a refusal of the whole. */
module ProjectionRows {
  import opened Common
  import opened Json
  import opened ProjectionSpec
  import opened ProjectionFields

  /** The outcome of a collection's loop over its inputs. */
  datatype Outcome = Outcome(rows: seq<Value>, selected: Option<Value>, observed: bool)

  /** The outcome of one row. */
  datatype RowOutcome = RowOutcome(mark: Mark, matches: bool, value: Option<Value>)

  predicate Chosen(mark: Mark, selector: Option<Bytes>) {
    selector.None? || mark == Named(selector.value)
  }

  function Single(row: Result<Row, CoreError>): Result<seq<Row>, CoreError> {
    if row.Err? then Err(row.error) else Ok([row.value])
  }

  ghost function RowCost(row: Result<Row, CoreError>, selector: Option<Bytes>, emit: bool, previous: bool): nat {
    if row.Ok? && emit && Chosen(row.value.mark, selector)
    then |Print(row.value.value)| + if selector.None? && previous then 1 else 0
    else 0
  }

  ghost function RowsCost(rows: Result<seq<Row>, CoreError>, selector: Option<Bytes>, emit: bool): nat {
    if rows.Err? || !emit then 0
    else if selector.None? then |PrintItems(RowValues(rows.value))|
    else
      var one := Select(rows.value, selector.value);
      if one.None? then 0 else |Print(one.value)|
  }

  /** Rows are told apart by their marks. */
  ghost predicate DistinctMarks(rows: seq<Row>) {
    forall i, j | 0 <= i < j < |rows| :: rows[i].mark != rows[j].mark
  }

  ghost predicate UniqueKeys(fields: seq<Field>) {
    forall i, j | 0 <= i < j < |fields| :: fields[i].key != fields[j].key
  }

  lemma {:induction false} SelectFinds(rows: seq<Row>, selector: Bytes)
    ensures Select(rows, selector).None? <==> !Marked(rows, Named(selector))
    ensures forall i | 0 <= i < |rows| ::
      DistinctMarks(rows) && rows[i].mark == Named(selector) ==> Select(rows, selector) == Some(rows[i].value)
  {
    if rows != [] {
      var n := |rows| - 1;
      SelectFinds(rows[..n], selector);
      if Marked(rows, Named(selector)) && rows[n].mark != Named(selector) {
        var i :| 0 <= i < |rows| && rows[i].mark == Named(selector);
        assert rows[..n][i] == rows[i];
      }
      forall i | 0 <= i < |rows| && DistinctMarks(rows) && rows[i].mark == Named(selector)
        ensures Select(rows, selector) == Some(rows[i].value)
      {
        if i < n {
          assert rows[..n][i] == rows[i];
          assert DistinctMarks(rows[..n]);
        }
      }
    }
  }

  /** Identities, and object keys, tell the rows of a selectable collection apart. */
  lemma {:induction false} MarksAreDistinct(c: Collection, inputs: seq<Field>)
    requires Selectable(c) && (c.ObjectEntries? ==> UniqueKeys(inputs))
    requires EvalRows(c, inputs).Ok?
    ensures |EvalRows(c, inputs).value| == |inputs| && DistinctMarks(EvalRows(c, inputs).value)
    ensures c.ObjectEntries? ==>
      forall i | 0 <= i < |inputs| :: EvalRows(c, inputs).value[i].mark == Named(inputs[i].key)
    decreases |inputs|
  {
    EvalRowsLength(c, inputs);
    if inputs != [] {
      var n := |inputs| - 1;
      MarksAreDistinct(c, inputs[..n]);
      var done, row := EvalRows(c, inputs[..n]).value, EvalRow(c, inputs[n], EvalRows(c, inputs[..n]).value).value;
      assert EvalRows(c, inputs).value == done + [row];
      if c.ObjectArray? {
        assert !Marked(done, row.mark);
        forall i | 0 <= i < n ensures done[i].mark != row.mark {
        }
      }
    }
  }

  lemma EvalRowsStep(c: Collection, inputs: seq<Field>, i: nat)
    requires i < |inputs| && EvalRows(c, inputs[..i]).Ok?
    ensures
      var done := EvalRows(c, inputs[..i]);
      EvalRows(c, inputs[..i + 1]) == Joined(done, Single(EvalRow(c, inputs[i], done.value)))
    ensures Extends(EvalRows(c, inputs[..i + 1]), EvalRows(c, inputs))
    ensures ScansRows(c, inputs[..i + 1]) == ScansRows(c, inputs[..i]) + ScansRow(c, inputs[i])
    ensures ScansRows(c, inputs[..i + 1]) <= ScansRows(c, inputs)
  {
    assert inputs[..i + 1][..i] == inputs[..i];
    EvalRowsPrefix(c, inputs, i + 1);
  }

  /** Rows so far have been gathered and paid for. */
  ghost predicate Gathered(done: Result<seq<Row>, CoreError>, selector: Option<Bytes>, emit: bool, out: Outcome,
      start: nat, bytes: nat)
  {
    && done.Ok?
    && out.rows == (if emit && selector.None? then RowValues(done.value) else [])
    && out.selected == (if emit && selector.Some? then Select(done.value, selector.value) else None)
    && (selector.Some? ==> out.observed == Select(done.value, selector.value).Some?)
    && bytes == start + RowsCost(done, selector, emit) <= MAX_NORMALIZED_BYTES
  }

  /** One row has been evaluated, and paid for if it is emitted. */
  ghost predicate RowDone(row: Result<Row, CoreError>, selector: Option<Bytes>, emit: bool, previous: bool,
      out: RowOutcome, start: nat, bytes: nat)
  {
    && row.Ok? && out.mark == row.value.mark && out.matches == Chosen(out.mark, selector)
    && out.value == (if emit && out.matches then Some(row.value.value) else None)
    && bytes == start + RowCost(row, selector, emit, previous) <= MAX_NORMALIZED_BYTES
  }

  function Gather(out: Outcome, row: RowOutcome, selector: Option<Bytes>): Outcome {
    Outcome(
      if row.value.Some? && selector.None? then out.rows + [row.value.value] else out.rows,
      if row.value.Some? && selector.Some? then row.value else out.selected,
      out.observed || row.matches)
  }

  /** A newly selected row is the first of its kind. */
  lemma SelectNew(done: seq<Row>, row: Row, selector: Bytes)
    requires DistinctMarks(done + [row]) && row.mark == Named(selector)
    ensures Select(done, selector).None? && Select(done + [row], selector) == Some(row.value)
  {
    var rows := done + [row];
    assert rows[..|done|] == done;
    forall i | 0 <= i < |done| ensures done[i].mark != row.mark {
      assert rows[i] == done[i] && rows[|done|] == row;
    }
    SelectFinds(done, selector);
  }

  lemma GatheredStep(done: Result<seq<Row>, CoreError>, row: Result<Row, CoreError>, selector: Option<Bytes>,
      emit: bool, out: Outcome, one: RowOutcome, start: nat, mid: nat, bytes: nat)
    requires Gathered(done, selector, emit, out, start, mid)
    requires RowDone(row, selector, emit, out.rows != [], one, mid, bytes)
    requires selector.Some? ==> DistinctMarks(Joined(done, Single(row)).value)
    ensures Gathered(Joined(done, Single(row)), selector, emit, Gather(out, one, selector), start, bytes)
  {
    var rows := done.value + [row.value];
    assert rows[..|rows| - 1] == done.value;
    if selector.None? {
      assert RowValues(rows) == RowValues(done.value) + [row.value.value];
      PrintItemsAppend(RowValues(done.value), row.value.value);
    } else if row.value.mark == Named(selector.value) {
      SelectNew(done.value, row.value, selector.value);
    }
  }

  lemma RowsCostPrefix(part: seq<Row>, whole: seq<Row>, selector: Option<Bytes>, emit: bool)
    requires part <= whole
    requires selector.Some? ==> DistinctMarks(whole)
    ensures RowsCost(Ok(part), selector, emit) <= RowsCost(Ok(whole), selector, emit)
  {
    if selector.None? {
      assert RowValues(whole)[..|part|] == RowValues(part);
      PrintItemsPrefix(RowValues(whole), |part|);
    } else {
      SelectFinds(part, selector.value);
      SelectFinds(whole, selector.value);
      if Marked(part, Named(selector.value)) {
        var i :| 0 <= i < |part| && part[i].mark == Named(selector.value);
        assert whole[i] == part[i] && DistinctMarks(part);
      }
    }
  }

  lemma GatheredRefused(done: Result<seq<Row>, CoreError>, row: Result<Row, CoreError>,
      whole: Result<seq<Row>, CoreError>, selector: Option<Bytes>, emit: bool, out: Outcome, start: nat, bytes: nat,
      error: CoreError, scanned: nat, scans: nat, scans': nat, all: nat)
    requires Gathered(done, selector, emit, out, start, bytes) && Extends(Joined(done, Single(row)), whole)
    requires selector.Some? && whole.Ok? ==> DistinctMarks(whole.value)
    requires scans + scans' <= all
    requires Refused(row, error, Overdrawn(bytes, RowCost(row, selector, emit, out.rows != []), scanned + scans, scans'))
    ensures Refused(whole, error, Overdrawn(start, RowsCost(whole, selector, emit), scanned, all))
  {
    if row.Ok? && whole.Ok? {
      var rows := done.value + [row.value];
      RowsCostPrefix(rows, whole.value, selector, emit);
      assert RowsCost(Ok(rows), selector, emit)
          >= RowsCost(done, selector, emit) + RowCost(row, selector, emit, out.rows != []) by {
        assert rows[..|rows| - 1] == done.value;
        if selector.None? {
          assert RowValues(rows) == RowValues(done.value) + [row.value.value];
          PrintItemsAppend(RowValues(done.value), row.value.value);
        } else if row.value.mark == Named(selector.value) {
          assert DistinctMarks(rows);
          SelectNew(done.value, row.value, selector.value);
        }
      }
    }
  }
}
