/** Scalar members of a projected record: the evaluator charges the printed bytes of what it
    emits before building it, and agrees with the budget-free meaning of the schema. */
module ProjectionFields {
  import opened Common
  import opened Json
  import opened ProjectionSpec

  /** How an evaluation may be refused: with its own error, or because the budget is
      overdrawn; a meaningful evaluation is refused only when it really is overdrawn. */
  ghost predicate Refused<T>(meaning: Result<T, CoreError>, error: CoreError, overdrawn: bool) {
    if meaning.Ok? then error == OutputLimit && overdrawn
    else error == OutputLimit || error == meaning.error
  }

  ghost predicate Overdrawn(bytes: nat, cost: int, scanned: nat, scans: nat) {
    bytes + cost > MAX_NORMALIZED_BYTES || scanned + scans > MAX_COLLECTION_ITEMS
  }

  /** Printed bytes of an object with these members, when it is emitted. */
  ghost function ObjectCost(fields: Result<seq<Field>, CoreError>, emit: bool): nat {
    if emit && fields.Ok? then 2 + |PrintFields(fields.value)| else 0
  }

  // ----- Scalars and records -----

  method ToValue(s: Scalar, budget: Budget) returns (r: Result<Value, CoreError>)
    modifies budget`bytes
    ensures r.Ok? <==> old(budget.bytes) + |Print(ScalarValue(s))| <= MAX_NORMALIZED_BYTES
    ensures r.Ok? ==> r.value == ScalarValue(s) && budget.bytes == old(budget.bytes) + |Print(r.value)|
    ensures r.Err? ==> r.error == OutputLimit
  {
    var ok;
    match s {
      case Boolean(b) => ok := budget.Charge(if b then 4 else 5);
      case Text(t) => ok := budget.Text(t);
      case Integer(n) => ok := budget.Charge(|PrintInt(n)|);
      case Counter(c) => ok := budget.Text(Digits(c));
    }
    r := if ok then Ok(ScalarValue(s)) else Err(OutputLimit);
  }

  /** Charges and adds one scalar member. */
  method AddScalar(done: seq<Field>, name: Bytes, s: Scalar, budget: Budget) returns (r: Result<seq<Field>, CoreError>)
    modifies budget`bytes
    ensures
      var more := done + [Field(name, ScalarValue(s))];
      var total := old(budget.bytes) + |PrintFields(more)| - |PrintFields(done)|;
      && (r.Ok? <==> total <= MAX_NORMALIZED_BYTES)
      && (r.Ok? ==> r.value == more && budget.bytes == total)
      && (r.Err? ==> r.error == OutputLimit)
  {
    PrintFieldsAppend(done, Field(name, ScalarValue(s)));
    hide PrintFields, PrintText, ScalarValue;
    var ok := budget.Key(name, done != []);
    if !ok {
      return Err(OutputLimit);
    }
    var value := ToValue(s, budget);
    if value.Err? {
      return Err(value.error);
    }
    r := Ok(done + [Field(name, value.value)]);
  }

  /** What more members add to the printed object, when it is emitted. */
  ghost function Growth(head: seq<Field>, more: Result<seq<Field>, CoreError>, emit: bool): int {
    if emit && more.Ok? then |PrintFields(head + more.value)| - |PrintFields(head)| else 0
  }

  ghost predicate Extends<T>(part: Result<seq<T>, CoreError>, whole: Result<seq<T>, CoreError>) {
    if part.Err? then whole == part else whole.Ok? ==> part.value <= whole.value
  }

  lemma EvalFieldsStep(fields: seq<ScalarField>, source: Value, i: nat)
    requires i < |fields|
    ensures EvalFields(fields[..i + 1], source) == Joined(EvalFields(fields[..i], source), EvalField(fields[i], source))
    ensures Extends(EvalFields(fields[..i + 1], source), EvalFields(fields, source))
  {
    assert fields[..i + 1][..i] == fields[..i];
    EvalFieldsPrefix(fields, source, i + 1);
  }

  /** Members so far have been added to the result and paid for. */
  ghost predicate Added(head: seq<Field>, done: Result<seq<Field>, CoreError>, emit: bool, result: seq<Field>,
      start: nat, bytes: nat)
  {
    && done.Ok? && result == (if emit then head + done.value else head)
    && bytes == start + Growth(head, done, emit) <= MAX_NORMALIZED_BYTES
  }

  lemma AddedStep(head: seq<Field>, done: Result<seq<Field>, CoreError>, more: Result<seq<Field>, CoreError>,
      emit: bool, result: seq<Field>, start: nat, bytes: nat, result': seq<Field>, bytes': nat)
    requires Added(head, done, emit, result, start, bytes) && Added(result, more, emit, result', bytes, bytes')
    ensures Added(head, Joined(done, more), emit, result', start, bytes')
  {
    assert head + done.value + more.value == head + (done.value + more.value);
  }

  /** What is charged so far and what comes next is no more than the whole charges. */
  lemma GrowthStep(head: seq<Field>, done: Result<seq<Field>, CoreError>, more: Result<seq<Field>, CoreError>,
      whole: Result<seq<Field>, CoreError>, emit: bool, result: seq<Field>, start: nat, bytes: nat)
    requires Added(head, done, emit, result, start, bytes) && Extends(Joined(done, more), whole)
    requires more.Ok? && whole.Ok?
    ensures bytes + Growth(result, more, emit) <= start + Growth(head, whole, emit)
  {
    if emit {
      assert head + done.value + more.value == head + (done.value + more.value);
      MorePrints(head, done.value + more.value, whole.value);
    }
    hide PrintFields;
  }

  /** A refusal on the way is a refusal of the whole. */
  lemma RefusedStep(head: seq<Field>, done: Result<seq<Field>, CoreError>, more: Result<seq<Field>, CoreError>,
      whole: Result<seq<Field>, CoreError>, emit: bool, result: seq<Field>, start: nat, bytes: nat, error: CoreError,
      scanned: nat, scans: nat, scans': nat, all: nat)
    requires Added(head, done, emit, result, start, bytes) && Extends(Joined(done, more), whole)
    requires scans + scans' <= all
    requires Refused(more, error, Overdrawn(bytes, Growth(result, more, emit), scanned + scans, scans'))
    ensures Refused(whole, error, Overdrawn(start, Growth(head, whole, emit), scanned, all))
  {
    if more.Ok? && whole.Ok? {
      GrowthStep(head, done, more, whole, emit, result, start, bytes);
    }
    hide Growth;
  }

  lemma MorePrints(head: seq<Field>, part: seq<Field>, whole: seq<Field>)
    requires part <= whole
    ensures |PrintFields(head + part)| <= |PrintFields(head + whole)|
  {
    assert (head + whole)[..|head + part|] == head + part;
    PrintFieldsPrefix(head + whole, |head + part|);
  }

  method AddField(head: seq<Field>, f: ScalarField, source: Value, emit: bool, budget: Budget)
    returns (r: Result<seq<Field>, CoreError>)
    requires budget.bytes <= MAX_NORMALIZED_BYTES
    modifies budget`bytes
    ensures r.Ok? ==> budget.bytes <= MAX_NORMALIZED_BYTES
    ensures
      var meaning := EvalField(f, source);
      if r.Err? then Refused(meaning, r.error, Overdrawn(old(budget.bytes), Growth(head, meaning, emit), 0, 0))
      else Added(head, meaning, emit, r.value, old(budget.bytes), budget.bytes)
  {
    hide PrintFields, Lookup, ReadScalar, ScalarValue;
    assert head + [] == head;
    var found := Lookup(source, f.source);
    if found.Err? {
      return Err(found.error);
    }
    if found.value.None? {
      return if f.required then Err(InvalidOutput) else Ok(head);
    }
    var scalar := ReadScalar(f.kind, found.value.value);
    if scalar.None? {
      return Err(InvalidOutput);
    }
    if !emit {
      return Ok(head);
    }
    r := AddScalar(head, f.name, scalar.value, budget);
  }

  method AddFields(head: seq<Field>, fields: seq<ScalarField>, source: Value, emit: bool, budget: Budget)
    returns (r: Result<seq<Field>, CoreError>)
    requires budget.bytes <= MAX_NORMALIZED_BYTES
    modifies budget`bytes
    ensures r.Ok? ==> budget.bytes <= MAX_NORMALIZED_BYTES
    ensures
      var meaning := EvalFields(fields, source);
      if r.Err? then Refused(meaning, r.error, Overdrawn(old(budget.bytes), Growth(head, meaning, emit), 0, 0))
      else Added(head, meaning, emit, r.value, old(budget.bytes), budget.bytes)
  {
    ghost var start := budget.bytes;
    var result := head;
    var i := 0;
    FieldsStart(head, fields, source, emit, start);
    hide *;
    while i < |fields|
      invariant 0 <= i <= |fields| && budget.bytes <= MAX_NORMALIZED_BYTES
      invariant Added(head, EvalFields(fields[..i], source), emit, result, start, budget.bytes)
    {
      ghost var bytes := budget.bytes;
      var more := AddField(result, fields[i], source, emit, budget);
      if more.Err? {
        FieldsRefused(head, fields, source, i, emit, result, start, bytes, more.error);
        return Err(more.error);
      }
      FieldsAdded(head, fields, source, i, emit, result, start, bytes, more.value, budget.bytes);
      result := more.value;
      i := i + 1;
    }
    assert fields[..i] == fields;
    r := Ok(result);
  }

  lemma FieldsStart(head: seq<Field>, fields: seq<ScalarField>, source: Value, emit: bool, bytes: nat)
    requires bytes <= MAX_NORMALIZED_BYTES
    ensures Added(head, EvalFields(fields[..0], source), emit, head, bytes, bytes)
  {
    assert fields[..0] == [] && head + [] == head;
  }

  lemma FieldsRefused(head: seq<Field>, fields: seq<ScalarField>, source: Value, i: nat, emit: bool,
      result: seq<Field>, start: nat, bytes: nat, error: CoreError)
    requires i < |fields| && Added(head, EvalFields(fields[..i], source), emit, result, start, bytes)
    requires
      var more := EvalField(fields[i], source);
      Refused(more, error, Overdrawn(bytes, Growth(result, more, emit), 0, 0))
    ensures
      var meaning := EvalFields(fields, source);
      Refused(meaning, error, Overdrawn(start, Growth(head, meaning, emit), 0, 0))
  {
    hide EvalFields, EvalField, Growth, Refused, Overdrawn;
    EvalFieldsStep(fields, source, i);
    RefusedStep(head, EvalFields(fields[..i], source), EvalField(fields[i], source), EvalFields(fields, source), emit,
      result, start, bytes, error, 0, 0, 0, 0);
  }

  lemma FieldsAdded(head: seq<Field>, fields: seq<ScalarField>, source: Value, i: nat, emit: bool,
      result: seq<Field>, start: nat, bytes: nat, result': seq<Field>, bytes': nat)
    requires i < |fields| && Added(head, EvalFields(fields[..i], source), emit, result, start, bytes)
    requires Added(result, EvalField(fields[i], source), emit, result', bytes, bytes')
    ensures Added(head, EvalFields(fields[..i + 1], source), emit, result', start, bytes')
  {
    hide EvalFields, EvalField, Growth;
    assert EvalFields(fields[..i], source).Ok?;
    EvalFieldsStep(fields, source, i);
    AddedStep(head, EvalFields(fields[..i], source), EvalField(fields[i], source), emit, result, start, bytes, result',
      bytes');
  }

  method RecordFields(fields: seq<ScalarField>, source: Value, key: Key, emit: bool, budget: Budget)
    returns (r: Result<seq<Field>, CoreError>)
    requires budget.bytes <= MAX_NORMALIZED_BYTES
    modifies budget`bytes
    ensures
      var meaning := EvalHead(fields, source, key);
      var total := old(budget.bytes) + ObjectCost(meaning, emit);
      if r.Err? then Refused(meaning, r.error, total > MAX_NORMALIZED_BYTES)
      else
        && meaning.Ok? && budget.bytes == total <= MAX_NORMALIZED_BYTES
        && r.value == if emit then meaning.value else []
  {
    assert key.Some? ==> ScalarValue(Text(key.value.1)) == Str(key.value.1);
    HeadFirst(fields, source, key);
    hide EvalFields, ScalarValue;
    if !source.Obj? {
      return Err(InvalidOutput);
    }
    var head := [];
    var ok := true;
    assert PrintFields([]) == [];
    if emit {
      ok := budget.Charge(2);
      if !ok {
        return Err(OutputLimit);
      }
    }
    if key.Some? {
      if !ValidIdentity(key.value.1, key.value.0.maxBytes) {
        return Err(InvalidOutput);
      }
      if emit {
        assert [] + KeyFields(key) == KeyFields(key);
        var added := AddScalar([], key.value.0.name, Text(key.value.1), budget);
        if added.Err? {
          return Err(OutputLimit);
        }
        head := added.value;
      }
    }
    r := AddFields(head, fields, source, emit, budget);
  }

  lemma HeadFirst(fields: seq<ScalarField>, source: Value, key: Key)
    ensures
      var meaning := EvalHead(fields, source, key);
      meaning.Ok? ==> |PrintFields(KeyFields(key))| <= |PrintFields(meaning.value)|
  {
    if EvalHead(fields, source, key).Err? {
      return;
    }
    var meaning, head := EvalHead(fields, source, key).value, KeyFields(key);
    assert meaning[..|head|] == head;
    PrintFieldsPrefix(meaning, |head|);
  }
}
