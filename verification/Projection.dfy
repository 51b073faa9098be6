/** The projection evaluator: nested records and collections, one shared budget, and the
    exact relation between what is charged and what is printed. */
module Projection {
  import opened Common
  import opened Json
  import opened ProjectionSpec
  import opened ProjectionFields
  import opened ProjectionRows

  /** Counters moved by exactly the inputs scanned, and by no more emissions than that. */
  ghost predicate Counted(scanned: nat, scanned': nat, emitted: nat, emitted': nat, scans: nat, rows: nat) {
    scanned' == scanned + scans <= MAX_COLLECTION_ITEMS && emitted' <= emitted + rows + scans
  }

  ghost function PrintedCost(meaning: Result<Value, CoreError>, emit: bool): nat {
    if emit && meaning.Ok? then |Print(meaning.value)| else 0
  }

  /** A value was produced and paid for. */
  ghost predicate Produced(meaning: Result<Value, CoreError>, emit: bool, out: Option<Value>, start: nat, bytes: nat) {
    && meaning.Ok? && out == (if emit then Some(meaning.value) else None)
    && bytes == start + PrintedCost(meaning, emit) <= MAX_NORMALIZED_BYTES
  }

  // ----- Rows without nested records -----

  /** Charges the start of an emitted row: its count, and the comma before it. */
  method StartRow(extra: nat, budget: Budget) returns (r: Result<bool, CoreError>)
    requires budget.emitted < MAX_COLLECTION_ITEMS
    modifies budget
    ensures budget.scanned == old(budget.scanned) && budget.emitted == old(budget.emitted) + 1
    ensures budget.bytes == old(budget.bytes) + extra
    ensures if r.Err? then r.error == OutputLimit && budget.bytes > MAX_NORMALIZED_BYTES
      else budget.bytes <= MAX_NORMALIZED_BYTES
  {
    var ok := budget.Emit();
    if !ok {
      return Err(OutputLimit);
    }
    ok := budget.Charge(extra);
    r := if ok then Ok(true) else Err(OutputLimit);
  }

  method TextRow(c: Collection, input: Field, ghost seen: seq<Row>, emit: bool, previous: bool, budget: Budget)
    returns (r: Result<RowOutcome, CoreError>)
    requires c.TextOption?
    requires budget.bytes <= MAX_NORMALIZED_BYTES && budget.emitted < budget.scanned <= MAX_COLLECTION_ITEMS
    modifies budget
    ensures
      var meaning := EvalRow(c, input, seen);
      if r.Err?
      then Refused(meaning, r.error, old(budget.bytes) + RowCost(meaning, None, emit, previous) > MAX_NORMALIZED_BYTES)
      else RowDone(meaning, None, emit, previous, r.value, old(budget.bytes), budget.bytes)
    ensures r.Ok? ==>
      Counted(old(budget.scanned), budget.scanned, old(budget.emitted), budget.emitted, 0, 1)
  {
    hide Print, ScalarValue;
    var scalar := ReadScalar(TextKind(c.maxBytes), input.value);
    if scalar.None? {
      return Err(InvalidOutput);
    }
    if !emit {
      return Ok(RowOutcome(Anonymous, true, None));
    }
    var started := StartRow(if previous then 1 else 0, budget);
    if started.Err? {
      return Err(started.error);
    }
    var value := ToValue(scalar.value, budget);
    r := if value.Err? then Err(value.error) else Ok(RowOutcome(Anonymous, true, Some(value.value)));
  }

  lemma ObjectOfOne(name: Bytes, v: Value)
    ensures |Print(Obj([Field(name, v)]))| == 2 + KeyCost(name, false) + |Print(v)|
  {
    PrintFieldsAppend([], Field(name, v));
    assert [] + [Field(name, v)] == [Field(name, v)];
  }

  method ScalarRow(c: Collection, input: Field, ghost seen: seq<Row>, identities: set<Mark>, emit: bool, previous: bool,
      budget: Budget)
    returns (r: Result<RowOutcome, CoreError>)
    requires c.ScalarArray?
    requires c.unique ==> forall m: Mark :: m in identities <==> Marked(seen, m)
    requires budget.bytes <= MAX_NORMALIZED_BYTES && budget.emitted < budget.scanned <= MAX_COLLECTION_ITEMS
    modifies budget
    ensures
      var meaning := EvalRow(c, input, seen);
      if r.Err?
      then Refused(meaning, r.error, old(budget.bytes) + RowCost(meaning, None, emit, previous) > MAX_NORMALIZED_BYTES)
      else RowDone(meaning, None, emit, previous, r.value, old(budget.bytes), budget.bytes)
    ensures r.Ok? ==>
      Counted(old(budget.scanned), budget.scanned, old(budget.emitted), budget.emitted, 0, 1)
  {
    hide ReadScalar;
    var scalar := ReadScalar(c.kind, input.value);
    if scalar.None? {
      return Err(InvalidOutput);
    }
    var s := scalar.value;
    if c.unique && s == Text([]) {
      return Err(InvalidOutput);
    }
    var row := None;
    if emit {
      ObjectOfOne(c.name, ScalarValue(s));
      hide Print, ScalarValue, PrintText;
      var started := StartRow(2 + if previous then 1 else 0, budget);
      if started.Err? {
        return Err(started.error);
      }
      var ok := budget.Key(c.name, false);
      if !ok {
        return Err(OutputLimit);
      }
      var value := ToValue(s, budget);
      if value.Err? {
        return Err(value.error);
      }
      row := Some(Obj([Field(c.name, value.value)]));
    }
    if c.unique && Valued(s) in identities {
      return Err(InvalidOutput);
    }
    r := Ok(RowOutcome(Valued(s), true, row));
  }

  // ----- Records, rows and collections -----

  lemma EvalCollectionsStep(cs: seq<CollectionField>, source: Value, i: nat)
    requires i < |cs|
    ensures EvalCollections(cs[..i + 1], source) == Joined(EvalCollections(cs[..i], source), EvalMember(cs[i], source))
    ensures Extends(EvalCollections(cs[..i + 1], source), EvalCollections(cs, source))
    ensures ScansCollections(cs[..i + 1], source) == ScansCollections(cs[..i], source) + ScansMember(cs[i], source)
    ensures ScansCollections(cs[..i + 1], source) <= ScansCollections(cs, source)
  {
    assert cs[..i + 1][..i] == cs[..i];
    EvalCollectionsPrefix(cs, source, i + 1);
  }

  method AddMember(head: seq<Field>, c: CollectionField, source: Value, emit: bool, budget: Budget)
    returns (r: Result<seq<Field>, CoreError>)
    requires budget.Valid()
    modifies budget
    ensures
      var meaning := EvalMember(c, source);
      if r.Err?
      then Refused(meaning, r.error,
        Overdrawn(old(budget.bytes), Growth(head, meaning, emit), old(budget.scanned), ScansMember(c, source)))
      else Added(head, meaning, emit, r.value, old(budget.bytes), budget.bytes)
    ensures r.Ok? ==> Counted(old(budget.scanned), budget.scanned, old(budget.emitted), budget.emitted,
      ScansMember(c, source), 0)
    ensures r.Ok? ==> budget.Valid()
    decreases c, 1
  {
    hide PrintFields, Lookup, Print, PrintText, EvalCollection, Scans;
    assert head + [] == head;
    var found := Lookup(source, SourceOf(c.collection));
    if found.Err? {
      return Err(found.error);
    }
    if found.value.None? {
      return if c.required then Err(InvalidOutput) else Ok(head);
    }
    ghost var meaning := EvalCollection(c.collection, found.value.value);
    if meaning.Ok? {
      PrintFieldsAppend(head, Field(c.name, meaning.value));
    }
    if emit {
      var ok := budget.Key(c.name, head != []);
      if !ok {
        return Err(OutputLimit);
      }
    }
    var value := ProjectAt(c.collection, found.value.value, None, emit, budget);
    if value.Err? {
      return Err(value.error);
    }
    r := Ok(if value.value.Some? then head + [Field(c.name, value.value.value)] else head);
  }

  /** The loop over the nested collections of a record, after the first i of them. */
  ghost predicate Joining(head: seq<Field>, cs: seq<CollectionField>, source: Value, i: nat, emit: bool,
      result: seq<Field>, start: nat, bytes: nat, scanned: nat, scanned': nat, emitted: nat, emitted': nat)
  {
    && i <= |cs| && emitted <= scanned
    && Added(head, EvalCollections(cs[..i], source), emit, result, start, bytes)
    && Counted(scanned, scanned', emitted, emitted', ScansCollections(cs[..i], source), 0)
  }

  lemma JoiningStep(head: seq<Field>, cs: seq<CollectionField>, source: Value, i: nat, emit: bool,
      result: seq<Field>, start: nat, bytes: nat, scanned: nat, scanned': nat, emitted: nat, emitted': nat,
      result': seq<Field>, bytes': nat, scanned'': nat, emitted'': nat)
    requires Joining(head, cs, source, i, emit, result, start, bytes, scanned, scanned', emitted, emitted')
    requires i < |cs| && Added(result, EvalMember(cs[i], source), emit, result', bytes, bytes')
    requires Counted(scanned', scanned'', emitted', emitted'', ScansMember(cs[i], source), 0)
    ensures Joining(head, cs, source, i + 1, emit, result', start, bytes', scanned, scanned'', emitted, emitted'')
  {
    hide Added, EvalCollections, EvalMember, ScansCollections, ScansMember;
    EvalCollectionsStep(cs, source, i);
    AddedStep(head, EvalCollections(cs[..i], source), EvalMember(cs[i], source), emit, result, start, bytes, result',
      bytes');
  }

  lemma JoiningRefused(head: seq<Field>, cs: seq<CollectionField>, source: Value, i: nat, emit: bool,
      result: seq<Field>, start: nat, bytes: nat, scanned: nat, scanned': nat, emitted: nat, emitted': nat,
      error: CoreError)
    requires Joining(head, cs, source, i, emit, result, start, bytes, scanned, scanned', emitted, emitted')
    requires i < |cs|
    requires
      var more := EvalMember(cs[i], source);
      Refused(more, error, Overdrawn(bytes, Growth(result, more, emit), scanned', ScansMember(cs[i], source)))
    ensures
      var meaning := EvalCollections(cs, source);
      Refused(meaning, error, Overdrawn(start, Growth(head, meaning, emit), scanned, ScansCollections(cs, source)))
  {
    hide Added, Growth, Refused, Overdrawn, EvalCollections, EvalMember, ScansCollections, ScansMember;
    EvalCollectionsStep(cs, source, i);
    RefusedStep(head, EvalCollections(cs[..i], source), EvalMember(cs[i], source), EvalCollections(cs, source), emit,
      result, start, bytes, error, scanned, ScansCollections(cs[..i], source), ScansMember(cs[i], source),
      ScansCollections(cs, source));
  }

  lemma JoiningValid(head: seq<Field>, cs: seq<CollectionField>, source: Value, i: nat, emit: bool,
      result: seq<Field>, start: nat, scanned: nat, emitted: nat, budget: Budget)
    requires Joining(head, cs, source, i, emit, result, start, budget.bytes, scanned, budget.scanned, emitted,
      budget.emitted)
    ensures budget.Valid()
    ensures i == |cs| ==>
      && Added(head, EvalCollections(cs, source), emit, result, start, budget.bytes)
      && Counted(scanned, budget.scanned, emitted, budget.emitted, ScansCollections(cs, source), 0)
  {
    hide EvalCollections, ScansCollections;
    if i == |cs| {
      assert cs[..i] == cs;
    }
  }

  lemma JoiningStart(head: seq<Field>, cs: seq<CollectionField>, source: Value, emit: bool, budget: Budget)
    requires budget.Valid()
    ensures Joining(head, cs, source, 0, emit, head, budget.bytes, budget.bytes, budget.scanned, budget.scanned,
      budget.emitted, budget.emitted)
  {
    assert cs[..0] == [] && head + [] == head;
  }

  method AddCollections(head: seq<Field>, cs: seq<CollectionField>, source: Value, emit: bool, budget: Budget)
    returns (r: Result<seq<Field>, CoreError>)
    requires budget.Valid()
    modifies budget
    ensures
      var meaning := EvalCollections(cs, source);
      if r.Err?
      then Refused(meaning, r.error,
        Overdrawn(old(budget.bytes), Growth(head, meaning, emit), old(budget.scanned), ScansCollections(cs, source)))
      else Added(head, meaning, emit, r.value, old(budget.bytes), budget.bytes)
    ensures r.Ok? ==> Counted(old(budget.scanned), budget.scanned, old(budget.emitted), budget.emitted,
      ScansCollections(cs, source), 0)
    ensures r.Ok? ==> budget.Valid()
    decreases cs, 1
  {
    ghost var start, scanned, emitted := budget.bytes, budget.scanned, budget.emitted;
    var result := head;
    var i := 0;
    JoiningStart(head, cs, source, emit, budget);
    hide *;
    while i < |cs|
      invariant 0 <= i <= |cs|
      invariant Joining(head, cs, source, i, emit, result, start, budget.bytes, scanned, budget.scanned, emitted,
        budget.emitted)
    {
      ghost var bytes, scanned', emitted' := budget.bytes, budget.scanned, budget.emitted;
      JoiningValid(head, cs, source, i, emit, result, start, scanned, emitted, budget);
      var more := AddMember(result, cs[i], source, emit, budget);
      if more.Err? {
        JoiningRefused(head, cs, source, i, emit, result, start, bytes, scanned, scanned', emitted, emitted',
          more.error);
        return Err(more.error);
      }
      JoiningStep(head, cs, source, i, emit, result, start, bytes, scanned, scanned', emitted, emitted',
        more.value, budget.bytes, budget.scanned, budget.emitted);
      result := more.value;
      i := i + 1;
    }
    JoiningValid(head, cs, source, i, emit, result, start, scanned, emitted, budget);
    r := Ok(result);
  }

  function AsObject(r: Result<seq<Field>, CoreError>): Result<Value, CoreError> {
    if r.Err? then Err(r.error) else Ok(Obj(r.value))
  }

  lemma HeadRefused(head: Result<seq<Field>, CoreError>, rest: Result<seq<Field>, CoreError>, emit: bool, start: nat,
      error: CoreError, scanned: nat, scans: nat)
    requires Refused(head, error, start + ObjectCost(head, emit) > MAX_NORMALIZED_BYTES)
    ensures
      var meaning := AsObject(Joined(head, rest));
      Refused(meaning, error, Overdrawn(start, PrintedCost(meaning, emit), scanned, scans))
  {
    if head.Ok? && rest.Ok? {
      ObjectPrefix(head.value, rest.value);
    }
    hide PrintFields, Print;
  }

  lemma ObjectPrefix(head: seq<Field>, rest: seq<Field>)
    ensures 2 + |PrintFields(head)| <= 2 + |PrintFields(head + rest)| == |Print(Obj(head + rest))|
  {
    assert (head + rest)[..|head|] == head;
    PrintFieldsPrefix(head + rest, |head|);
  }

  lemma RestRefused(head: Result<seq<Field>, CoreError>, rest: Result<seq<Field>, CoreError>, emit: bool,
      result: seq<Field>, start: nat, mid: nat, error: CoreError, scanned: nat, scans: nat)
    requires head.Ok? && result == (if emit then head.value else []) && mid == start + ObjectCost(head, emit)
    requires Refused(rest, error, Overdrawn(mid, Growth(result, rest, emit), scanned, scans))
    ensures
      var meaning := AsObject(Joined(head, rest));
      Refused(meaning, error, Overdrawn(start, PrintedCost(meaning, emit), scanned, scans))
  {
  }

  lemma RecordProduced(head: Result<seq<Field>, CoreError>, rest: Result<seq<Field>, CoreError>, emit: bool,
      result: seq<Field>, start: nat, mid: nat, out: seq<Field>, bytes: nat)
    requires head.Ok? && result == (if emit then head.value else []) && mid == start + ObjectCost(head, emit)
    requires Added(result, rest, emit, out, mid, bytes)
    ensures Produced(AsObject(Joined(head, rest)), emit, if emit then Some(Obj(out)) else None, start, bytes)
  {
  }

  method ProjectRecord(record: Record, source: Value, key: Key, emit: bool, budget: Budget)
    returns (r: Result<Option<Value>, CoreError>)
    requires budget.Valid()
    modifies budget
    ensures
      var meaning := AsObject(EvalRecord(record, source, key));
      if r.Err?
      then Refused(meaning, r.error, Overdrawn(old(budget.bytes), PrintedCost(meaning, emit), old(budget.scanned),
        ScansCollections(record.collections, source)))
      else Produced(meaning, emit, r.value, old(budget.bytes), budget.bytes)
    ensures r.Ok? ==> Counted(old(budget.scanned), budget.scanned, old(budget.emitted), budget.emitted,
      ScansCollections(record.collections, source), 0)
    ensures r.Ok? ==> budget.Valid()
    decreases record, 2
  {
    ghost var head, rest := EvalHead(record.fields, source, key), EvalCollections(record.collections, source);
    ghost var start := budget.bytes;
    assert EvalRecord(record, source, key) == Joined(head, rest);
    hide EvalHead, EvalCollections, EvalRecord, ScansCollections, PrintedCost, ObjectCost, Growth, Joined, AsObject, Counted;
    var result := RecordFields(record.fields, source, key, emit, budget);
    if result.Err? {
      HeadRefused(head, rest, emit, start, result.error, budget.scanned, ScansCollections(record.collections, source));
      return Err(result.error);
    }
    ghost var mid := budget.bytes;
    var whole := AddCollections(result.value, record.collections, source, emit, budget);
    if whole.Err? {
      RestRefused(head, rest, emit, result.value, start, mid, whole.error, old(budget.scanned),
        ScansCollections(record.collections, source));
      return Err(whole.error);
    }
    RecordProduced(head, rest, emit, result.value, start, mid, whole.value, budget.bytes);
    r := Ok(if emit then Some(Obj(whole.value)) else None);
  }

  /** The marks seen so far, where a collection keeps them. */
  ghost predicate Tracks(c: Collection, identities: set<Mark>, seen: seq<Row>) {
    c.ObjectArray? || (c.ScalarArray? && c.unique) ==> forall m: Mark :: m in identities <==> Marked(seen, m)
  }

  lemma TracksStep(c: Collection, identities: set<Mark>, seen: seq<Row>, row: Row)
    requires Tracks(c, identities, seen)
    ensures Tracks(c, identities + {row.mark}, seen + [row])
  {
    forall m: Mark ensures Marked(seen + [row], m) <==> Marked(seen, m) || m == row.mark {
      if Marked(seen, m) {
        var i :| 0 <= i < |seen| && seen[i].mark == m;
        assert (seen + [row])[i].mark == m;
      }
      assert (seen + [row])[|seen|] == row;
    }
  }

  /** The identity of a row that holds a record, or why it has none. */
  function RecordMark(c: Collection, input: Field): Result<Mark, CoreError> {
    if c.ObjectArray? then
      var id := RowIdentity(c, input.value);
      if id.Err? then Err(id.error) else Ok(Named(id.value))
    else if c.ObjectEntries? then
      if ValidIdentity(input.key, c.key.maxBytes) then Ok(Named(input.key)) else Err(InvalidOutput)
    else Ok(Anonymous)
  }

  function RecordKey(c: Collection, input: Field): Key {
    if c.ObjectEntries? then Some((c.key, input.key)) else None
  }

  lemma RecordRowMeaning(c: Collection, input: Field, seen: seq<Row>)
    requires !c.TextOption? && !c.ScalarArray?
    ensures
      var mark, record := RecordMark(c, input), AsObject(EvalRecord(c.record, input.value, RecordKey(c, input)));
      EvalRow(c, input, seen) ==
      if mark.Err? then Err(mark.error)
      else if c.ObjectArray? && Marked(seen, mark.value) then Err(InvalidOutput)
      else if record.Err? then Err(record.error)
      else Ok(Row(mark.value, record.value))
    ensures ScansRow(c, input) == ScansCollections(c.record.collections, input.value)
  {
  }

  method RecordRow(c: Collection, input: Field, selector: Option<Bytes>, ghost seen: seq<Row>, identities: set<Mark>,
      emit: bool, previous: bool, budget: Budget)
    returns (r: Result<RowOutcome, CoreError>)
    requires !c.TextOption? && !c.ScalarArray? && Tracks(c, identities, seen)
    requires budget.Valid() && budget.emitted < budget.scanned
    modifies budget
    ensures
      var meaning := EvalRow(c, input, seen);
      if r.Err?
      then Refused(meaning, r.error, Overdrawn(old(budget.bytes), RowCost(meaning, selector, emit, previous),
        old(budget.scanned), ScansRow(c, input)))
      else RowDone(meaning, selector, emit, previous, r.value, old(budget.bytes), budget.bytes)
    ensures r.Ok? ==> Counted(old(budget.scanned), budget.scanned, old(budget.emitted), budget.emitted,
      ScansRow(c, input), 1)
    decreases c, 0
  {
    RecordRowMeaning(c, input, seen);
    hide EvalRow, EvalRecord, RecordMark, RecordKey, ScansRow, ScansCollections, Print, AsObject, Marked;
    var mark := RecordMark(c, input);
    if mark.Err? {
      return Err(mark.error);
    }
    if c.ObjectArray? && mark.value in identities {
      return Err(InvalidOutput);
    }
    var matches := Chosen(mark.value, selector);
    if emit && matches {
      var started := StartRow(if selector.None? && previous then 1 else 0, budget);
      if started.Err? {
        return Err(started.error);
      }
    }
    var value := ProjectRecord(c.record, input.value, RecordKey(c, input), emit && matches, budget);
    r := if value.Err? then Err(value.error) else Ok(RowOutcome(mark.value, matches, value.value));
  }

  method ProjectRow(c: Collection, input: Field, selector: Option<Bytes>, ghost seen: seq<Row>, identities: set<Mark>,
      emit: bool, previous: bool, budget: Budget)
    returns (r: Result<RowOutcome, CoreError>)
    requires Tracks(c, identities, seen) && (selector.Some? ==> Selectable(c))
    requires budget.Valid() && budget.emitted < budget.scanned
    modifies budget
    ensures
      var meaning := EvalRow(c, input, seen);
      if r.Err?
      then Refused(meaning, r.error, Overdrawn(old(budget.bytes), RowCost(meaning, selector, emit, previous),
        old(budget.scanned), ScansRow(c, input)))
      else RowDone(meaning, selector, emit, previous, r.value, old(budget.bytes), budget.bytes)
    ensures r.Ok? ==> Counted(old(budget.scanned), budget.scanned, old(budget.emitted), budget.emitted,
      ScansRow(c, input), 1)
    decreases c, 1
  {
    assert c.TextOption? || c.ScalarArray? ==> ScansRow(c, input) == 0;
    hide EvalRow, ScansRow, RowCost;
    if c.TextOption? {
      r := TextRow(c, input, seen, emit, previous, budget);
    } else if c.ScalarArray? {
      r := ScalarRow(c, input, seen, identities, emit, previous, budget);
    } else {
      r := RecordRow(c, input, selector, seen, identities, emit, previous, budget);
    }
  }

  /** The loop over the inputs of a collection, after the first i of them. */
  ghost predicate Midway(c: Collection, inputs: seq<Field>, i: nat, selector: Option<Bytes>, emit: bool, out: Outcome,
      identities: set<Mark>, start: nat, bytes: nat, scanned: nat, scanned': nat, emitted: nat, emitted': nat)
  {
    && i <= |inputs| && emitted + |inputs| <= scanned
    && (selector.Some? ==> Selectable(c) && (c.ObjectEntries? ==> UniqueKeys(inputs)))
    && var done := EvalRows(c, inputs[..i]);
    && Gathered(done, selector, emit, out, start, bytes)
    && Tracks(c, identities, done.value)
    && Counted(scanned, scanned', emitted, emitted', ScansRows(c, inputs[..i]), i)
  }

  lemma MidwayStep(c: Collection, inputs: seq<Field>, i: nat, selector: Option<Bytes>, emit: bool, out: Outcome,
      identities: set<Mark>, start: nat, bytes: nat, scanned: nat, scanned': nat, emitted: nat, emitted': nat,
      one: RowOutcome, bytes': nat, scanned'': nat, emitted'': nat)
    requires Midway(c, inputs, i, selector, emit, out, identities, start, bytes, scanned, scanned', emitted, emitted')
    requires i < |inputs|
    requires
      var row := EvalRow(c, inputs[i], EvalRows(c, inputs[..i]).value);
      RowDone(row, selector, emit, out.rows != [], one, bytes, bytes')
    requires Counted(scanned', scanned'', emitted', emitted'', ScansRow(c, inputs[i]), 1)
    ensures Midway(c, inputs, i + 1, selector, emit, Gather(out, one, selector), identities + {one.mark}, start, bytes',
      scanned, scanned'', emitted, emitted'')
  {
    var done := EvalRows(c, inputs[..i]);
    var row := EvalRow(c, inputs[i], done.value);
    hide EvalRow, EvalRows, ScansRow, ScansRows, RowCost, RowsCost, Tracks, DistinctMarks;
    EvalRowsStep(c, inputs, i);
    if selector.Some? {
      MarksAreDistinct(c, inputs[..i + 1]);
    }
    GatheredStep(done, row, selector, emit, out, one, start, bytes, bytes');
    TracksStep(c, identities, done.value, row.value);
  }

  lemma MidwayRefused(c: Collection, inputs: seq<Field>, i: nat, selector: Option<Bytes>, emit: bool, out: Outcome,
      identities: set<Mark>, start: nat, bytes: nat, scanned: nat, scanned': nat, emitted: nat, emitted': nat,
      error: CoreError)
    requires Midway(c, inputs, i, selector, emit, out, identities, start, bytes, scanned, scanned', emitted, emitted')
    requires i < |inputs|
    requires
      var row := EvalRow(c, inputs[i], EvalRows(c, inputs[..i]).value);
      Refused(row, error,
        Overdrawn(bytes, RowCost(row, selector, emit, out.rows != []), scanned', ScansRow(c, inputs[i])))
    ensures
      var meaning := EvalRows(c, inputs);
      Refused(meaning, error, Overdrawn(start, RowsCost(meaning, selector, emit), scanned, ScansRows(c, inputs)))
  {
    var done, meaning := EvalRows(c, inputs[..i]), EvalRows(c, inputs);
    var row := EvalRow(c, inputs[i], done.value);
    hide EvalRow, EvalRows, ScansRow, ScansRows, RowCost, RowsCost, Tracks, DistinctMarks, Gathered, Refused, Overdrawn;
    assert done.Ok? && bytes <= MAX_NORMALIZED_BYTES;
    EvalRowsStep(c, inputs, i);
    if selector.Some? && meaning.Ok? {
      MarksAreDistinct(c, inputs);
    }
    GatheredRefused(done, row, meaning, selector, emit, out, start, bytes, error, scanned,
      ScansRows(c, inputs[..i]), ScansRow(c, inputs[i]), ScansRows(c, inputs));
  }

  method ProjectRows(c: Collection, inputs: seq<Field>, selector: Option<Bytes>, emit: bool, budget: Budget)
    returns (r: Result<Outcome, CoreError>)
    requires selector.Some? ==> Selectable(c) && (c.ObjectEntries? ==> UniqueKeys(inputs))
    requires budget.Valid() && budget.emitted + |inputs| <= budget.scanned
    modifies budget
    ensures
      var meaning := EvalRows(c, inputs);
      if r.Err?
      then Refused(meaning, r.error, Overdrawn(old(budget.bytes), RowsCost(meaning, selector, emit),
        old(budget.scanned), ScansRows(c, inputs)))
      else Gathered(meaning, selector, emit, r.value, old(budget.bytes), budget.bytes)
    ensures r.Ok? ==> Counted(old(budget.scanned), budget.scanned, old(budget.emitted), budget.emitted,
      ScansRows(c, inputs), |inputs|)
    decreases c, 2
  {
    ghost var start, scanned, emitted := budget.bytes, budget.scanned, budget.emitted;
    var out := Outcome([], None, false);
    var identities: set<Mark> := {};
    var i := 0;
    MidwayStart(c, inputs, selector, emit, start, scanned, emitted);
    hide *;
    while i < |inputs|
      invariant 0 <= i <= |inputs|
      invariant Midway(c, inputs, i, selector, emit, out, identities, start, budget.bytes, scanned, budget.scanned,
        emitted, budget.emitted)
    {
      ghost var bytes, scanned', emitted' := budget.bytes, budget.scanned, budget.emitted;
      RoomLeft(c, inputs, i, selector, emit, out, identities, start, scanned, emitted, budget);
      var one := ProjectRow(c, inputs[i], selector, EvalRows(c, inputs[..i]).value, identities, emit, out.rows != [],
        budget);
      if one.Err? {
        MidwayRefused(c, inputs, i, selector, emit, out, identities, start, bytes, scanned, scanned', emitted, emitted',
          one.error);
        return Err(one.error);
      }
      MidwayStep(c, inputs, i, selector, emit, out, identities, start, bytes, scanned, scanned', emitted, emitted',
        one.value, budget.bytes, budget.scanned, budget.emitted);
      out := Gather(out, one.value, selector);
      identities := identities + {one.value.mark};
      i := i + 1;
    }
    MidwayEnd(c, inputs, selector, emit, out, identities, start, budget.bytes, scanned, budget.scanned, emitted,
      budget.emitted);
    r := Ok(out);
  }

  lemma MidwayStart(c: Collection, inputs: seq<Field>, selector: Option<Bytes>, emit: bool, start: nat, scanned: nat,
      emitted: nat)
    requires selector.Some? ==> Selectable(c) && (c.ObjectEntries? ==> UniqueKeys(inputs))
    requires start <= MAX_NORMALIZED_BYTES && emitted + |inputs| <= scanned <= MAX_COLLECTION_ITEMS
    ensures Midway(c, inputs, 0, selector, emit, Outcome([], None, false), {}, start, start, scanned, scanned,
      emitted, emitted)
  {
    assert inputs[..0] == [];
  }

  lemma MidwayEnd(c: Collection, inputs: seq<Field>, selector: Option<Bytes>, emit: bool, out: Outcome,
      identities: set<Mark>, start: nat, bytes: nat, scanned: nat, scanned': nat, emitted: nat, emitted': nat)
    requires Midway(c, inputs, |inputs|, selector, emit, out, identities, start, bytes, scanned, scanned', emitted,
      emitted')
    ensures Gathered(EvalRows(c, inputs), selector, emit, out, start, bytes)
    ensures Counted(scanned, scanned', emitted, emitted', ScansRows(c, inputs), |inputs|)
  {
    assert inputs[..|inputs|] == inputs;
  }

  lemma RoomLeft(c: Collection, inputs: seq<Field>, i: nat, selector: Option<Bytes>, emit: bool, out: Outcome,
      identities: set<Mark>, start: nat, scanned: nat, emitted: nat, budget: Budget)
    requires Midway(c, inputs, i, selector, emit, out, identities, start, budget.bytes, scanned, budget.scanned,
      emitted, budget.emitted)
    requires i < |inputs|
    ensures budget.Valid() && budget.emitted < budget.scanned && EvalRows(c, inputs[..i]).Ok?
    ensures Tracks(c, identities, EvalRows(c, inputs[..i]).value) && (selector.Some? ==> Selectable(c))
  {
  }

  method ProjectAt(c: Collection, v: Value, selector: Option<Bytes>, emit: bool, budget: Budget)
    returns (r: Result<Option<Value>, CoreError>)
    requires budget.Valid()
    requires selector.Some? && c.ObjectEntries? && v.Obj? ==> UniqueKeys(v.fields)
    modifies budget
    ensures
      var meaning := EvalAt(c, v, selector);
      if r.Err?
      then Refused(meaning, r.error,
        Overdrawn(old(budget.bytes), PrintedCost(meaning, emit), old(budget.scanned), Scans(c, v)))
      else Produced(meaning, emit, r.value, old(budget.bytes), budget.bytes)
    ensures r.Ok? ==>
      Counted(old(budget.scanned), budget.scanned, old(budget.emitted), budget.emitted, Scans(c, v), 0)
    ensures r.Ok? ==> budget.Valid()
    decreases c, 4
  {
    if selector.Some? && !Selectable(c) {
      return Err(InvalidDefinition);
    }
    if c.TextOption? {
      r := ProjectTextOption(c, v, emit, budget);
    } else {
      r := ProjectList(c, v, selector, emit, budget);
    }
  }

  function TextKindName(v: Value): Bytes {
    if v.Str? then STRING else LIST
  }

  lemma TextOptionPrinted(c: Collection, v: Value, rows: seq<Row>)
    requires c.TextOption?
    ensures |Print(Wrap(c, v, rows))| ==
      4 + KeyCost(KIND, false) + |PrintText(TextKindName(v))| + KeyCost(VALUES, true) + |PrintItems(RowValues(rows))|
  {
    var kind, values := Field(KIND, Str(TextKindName(v))), Field(VALUES, Arr(RowValues(rows)));
    hide PrintText, PrintItems, RowValues;
    PrintFieldsAppend([], kind);
    PrintFieldsAppend([kind], values);
    assert [] + [kind] == [kind] && [kind] + [values] == [kind, values];
    assert |Print(kind.value)| == |PrintText(TextKindName(v))| && |Print(values.value)| == 2 + |PrintItems(RowValues(rows))|;
  }

  /** A string is one value; a list is its values. */
  function TextInputs(v: Value): Option<seq<Field>> {
    if v.Str? then Some([Field([], v)])
    else if v.Arr? then Some(Unkeyed(v.items)) else None
  }

  lemma TextMeaning(c: Collection, v: Value)
    requires c.TextOption?
    ensures
      var inputs, meaning := TextInputs(v), EvalAt(c, v, None);
      if inputs.None? then meaning == Err(InvalidOutput)
      else if |inputs.value| > c.maxItems then meaning == Err(OutputLimit)
      else
        var rows := EvalRows(c, inputs.value);
        && Scans(c, v) == |inputs.value| + ScansRows(c, inputs.value)
        && if rows.Err? then meaning == Err(rows.error)
           else
             && meaning == Ok(Obj([Field(KIND, Str(TextKindName(v))), Field(VALUES, Arr(RowValues(rows.value)))]))
             && |Print(meaning.value)| == 4 + KeyCost(KIND, false) + |PrintText(TextKindName(v))|
                                        + KeyCost(VALUES, true) + |PrintItems(RowValues(rows.value))|
  {
    hide RowValues, Unkeyed, PrintItems, EvalRows, ScansRows, PrintText;
    assert EvalCollection(c, v) == if EvalAll(c, v).Err? then Err(EvalAll(c, v).error) else Ok(Wrap(c, v, EvalAll(c, v).value));
    if EvalAll(c, v).Ok? {
      TextOptionPrinted(c, v, EvalAll(c, v).value);
    }
  }

  method ChargeEnvelope(v: Value, budget: Budget) returns (ok: bool)
    modifies budget`bytes
    ensures
      var total := old(budget.bytes)
        + (4 + KeyCost(KIND, false) + |PrintText(TextKindName(v))| + KeyCost(VALUES, true));
      (ok <==> total <= MAX_NORMALIZED_BYTES) && (ok ==> budget.bytes == total)
  {
    hide PrintText, TextKindName, KeyCost;
    ok := budget.Charge(2);
    if ok {
      ok := budget.Key(KIND, false);
    }
    if ok {
      ok := budget.Text(TextKindName(v));
    }
    if ok {
      ok := budget.Key(VALUES, true);
    }
    if ok {
      ok := budget.Charge(2);
    }
  }

  method ProjectTextOption(c: Collection, v: Value, emit: bool, budget: Budget)
    returns (r: Result<Option<Value>, CoreError>)
    requires c.TextOption? && budget.Valid()
    modifies budget
    ensures
      var meaning := EvalAt(c, v, None);
      if r.Err?
      then Refused(meaning, r.error,
        Overdrawn(old(budget.bytes), PrintedCost(meaning, emit), old(budget.scanned), Scans(c, v)))
      else Produced(meaning, emit, r.value, old(budget.bytes), budget.bytes)
    ensures r.Ok? ==>
      Counted(old(budget.scanned), budget.scanned, old(budget.emitted), budget.emitted, Scans(c, v), 0)
    ensures r.Ok? ==> budget.Valid()
    decreases c, 3
  {
    TextMeaning(c, v);
    var inputs := TextInputs(v);
    hide EvalAt, EvalRows, ScansRows, Scans, Print, PrintItems, RowValues, TextInputs, PrintText, TextKindName, KeyCost;
    if inputs.None? {
      return Err(InvalidOutput);
    }
    var values := inputs.value;
    var ok := budget.Scan(|values|, c.maxItems);
    if !ok {
      return Err(OutputLimit);
    }
    if emit {
      ok := ChargeEnvelope(v, budget);
      if !ok {
        return Err(OutputLimit);
      }
    }
    var out := ProjectRows(c, values, None, emit, budget);
    if out.Err? {
      return Err(out.error);
    }
    r := Ok(if emit then Some(Obj([Field(KIND, Str(TextKindName(v))), Field(VALUES, Arr(out.value.rows))])) else None);
  }

  /** The inputs of a listed collection, unless its source has the wrong type. */
  function ListInputs(c: Collection, v: Value): Option<seq<Field>> {
    if c.ObjectEntries? then
      if v.Obj? then Some(v.fields) else None
    else if v.Arr? then Some(Unkeyed(v.items)) else None
  }

  lemma ListMeaning(c: Collection, v: Value, selector: Option<Bytes>)
    requires !c.TextOption? && (selector.Some? ==> Selectable(c))
    ensures
      var inputs, meaning := ListInputs(c, v), EvalAt(c, v, selector);
      if inputs.None? then meaning == Err(InvalidOutput)
      else if |inputs.value| > c.maxItems then meaning == Err(OutputLimit)
      else if c.ObjectArray? && IdentityField(c).None? then meaning == Err(InvalidDefinition)
      else
        var rows := EvalRows(c, inputs.value);
        && Scans(c, v) == |inputs.value| + ScansRows(c, inputs.value)
        && if rows.Err? then meaning == Err(rows.error)
           else if selector.None? then
             && meaning == Ok(Arr(RowValues(rows.value)))
             && |Print(meaning.value)| == 2 + |PrintItems(RowValues(rows.value))|
           else
             var one := Select(rows.value, selector.value);
             meaning == if one.None? then Err(SelectionNotObserved) else Ok(one.value)
  {
    hide RowValues, Unkeyed, PrintItems, EvalRows, ScansRows, Select, IdentityField;
    assert EvalCollection(c, v) == if EvalAll(c, v).Err? then Err(EvalAll(c, v).error) else Ok(Wrap(c, v, EvalAll(c, v).value));
  }

  method ProjectList(c: Collection, v: Value, selector: Option<Bytes>, emit: bool, budget: Budget)
    returns (r: Result<Option<Value>, CoreError>)
    requires !c.TextOption? && (selector.Some? ==> Selectable(c)) && budget.Valid()
    requires selector.Some? && c.ObjectEntries? && v.Obj? ==> UniqueKeys(v.fields)
    modifies budget
    ensures
      var meaning := EvalAt(c, v, selector);
      if r.Err?
      then Refused(meaning, r.error,
        Overdrawn(old(budget.bytes), PrintedCost(meaning, emit), old(budget.scanned), Scans(c, v)))
      else Produced(meaning, emit, r.value, old(budget.bytes), budget.bytes)
    ensures r.Ok? ==>
      Counted(old(budget.scanned), budget.scanned, old(budget.emitted), budget.emitted, Scans(c, v), 0)
    ensures r.Ok? ==> budget.Valid()
    decreases c, 3
  {
    ListMeaning(c, v, selector);
    hide EvalAt, EvalRows, ScansRows, Scans, Inputs, Print, PrintItems, IdentityField, RowValues, Unkeyed, Select;
    if emit && selector.None? {
      var ok := budget.Charge(2);
      if !ok {
        return Err(OutputLimit);
      }
    }
    if if c.ObjectEntries? then !v.Obj? else !v.Arr? {
      return Err(InvalidOutput);
    }
    var values := if c.ObjectEntries? then v.fields else Unkeyed(v.items);
    var ok := budget.Scan(|values|, c.maxItems);
    if !ok {
      return Err(OutputLimit);
    }
    if c.ObjectArray? && IdentityField(c).None? {
      return Err(InvalidDefinition);
    }
    var out := ProjectRows(c, values, selector, emit, budget);
    if out.Err? {
      return Err(out.error);
    }
    if selector.Some? && !out.value.observed {
      return Err(SelectionNotObserved);
    }
    r := Ok(if !emit then None else if selector.Some? then out.value.selected else Some(Arr(out.value.rows)));
  }
}
