/** Whole projections: guards, the root record or collection, and exactly when one succeeds. */
module ProjectionRoot {
  import opened Common
  import opened Json
  import opened ProjectionSpec
  import opened ProjectionFields
  import opened ProjectionRows
  import opened Projection

  /** Object members come from a map, so their keys differ. */
  ghost predicate KeyedSource(p: TypedProjection, source: Value) {
    p.CollectionProjection? ==>
      var v := RootSource(p.collection, source);
      v.Ok? && v.value.Obj? ==> UniqueKeys(v.value.fields)
  }

  /** A projection that means something and stays within both limits. */
  ghost predicate Succeeds(p: TypedProjection, selector: Option<Bytes>, source: Value) {
    var meaning := Eval(p, selector, source);
    && meaning.Ok? && |Print(meaning.value)| <= MAX_NORMALIZED_BYTES
    && RootScans(p, source) <= MAX_COLLECTION_ITEMS
  }

  lemma {:induction false} GuardsPrefix(guards: seq<Bytes>, source: Value, k: nat)
    requires k <= |guards|
    ensures CheckGuards(guards[..k], source).Some? ==> CheckGuards(guards, source) == CheckGuards(guards[..k], source)
    decreases |guards|
  {
    if k == |guards| {
      assert guards[..k] == guards;
    } else {
      GuardsPrefix(guards[..|guards| - 1], source, k);
      assert guards[..|guards| - 1][..k] == guards[..k];
    }
  }

  method RejectGuards(guards: seq<Bytes>, source: Value) returns (r: Option<CoreError>)
    ensures r == CheckGuards(guards, source)
  {
    var i := 0;
    hide Lookup;
    while i < |guards|
      invariant 0 <= i <= |guards| && CheckGuards(guards[..i], source).None?
    {
      assert guards[..i + 1][..i] == guards[..i];
      GuardsPrefix(guards, source, i + 1);
      var found := Lookup(source, guards[i]);
      if found.Err? {
        return Some(found.error);
      }
      if found.value.Some? {
        return Some(InvalidOutput);
      }
      i := i + 1;
    }
    assert guards[..i] == guards;
    r := None;
  }

  /** Succeeds exactly when the schema gives the source a meaning that fits the limits, and
      then charges precisely the bytes of the printed result. */
  method Project(p: TypedProjection, selector: Option<Bytes>, source: Value)
    returns (r: Result<Value, CoreError>, ghost charged: nat)
    requires KeyedSource(p, source)
    ensures r.Ok? <==> Succeeds(p, selector, source)
    ensures r.Ok? ==> r.value == Eval(p, selector, source).value && charged == |Print(r.value)|
    ensures r.Err? ==> r.error == OutputLimit || Eval(p, selector, source) == Err(r.error)
  {
    charged := 0;
    var guard := RejectGuards(p.guards, source);
    if guard.Some? {
      return Err(guard.value), 0;
    }
    var budget := new Budget();
    if p.RecordProjection? {
      r := ProjectRoot(p, source, budget);
    } else {
      r := ProjectCollection(p, selector, source, budget);
    }
    assert Settled(r, p, selector, source, budget.bytes);
    charged := budget.bytes;
  }

  /** What both kinds of root projection promise about a fresh budget. */
  ghost predicate Settled(r: Result<Value, CoreError>, p: TypedProjection, selector: Option<Bytes>, source: Value, bytes: nat) {
    && (r.Ok? <==> Succeeds(p, selector, source))
    && (r.Ok? ==> r.value == Eval(p, selector, source).value && bytes == |Print(r.value)|)
    && (r.Err? ==> r.error == OutputLimit || Eval(p, selector, source) == Err(r.error))
  }

  method ProjectRoot(p: TypedProjection, source: Value, budget: Budget) returns (r: Result<Value, CoreError>)
    requires p.RecordProjection? && CheckGuards(p.guards, source).None?
    requires budget.Valid() && budget.bytes == budget.scanned == budget.emitted == 0
    modifies budget
    ensures forall selector :: Settled(r, p, selector, source, budget.bytes)
  {
    assert forall selector :: Eval(p, selector, source) == AsObject(EvalRecord(p.record, source, None));
    assert RootScans(p, source) == ScansCollections(p.record.collections, source);
    hide EvalRecord, ScansCollections, Print, Eval, RootScans;
    var value := ProjectRecord(p.record, source, None, true, budget);
    r := if value.Err? then Err(value.error) else Ok(value.value.value);
  }

  lemma RootMeaning(p: TypedProjection, selector: Option<Bytes>, source: Value)
    requires p.CollectionProjection? && CheckGuards(p.guards, source).None? && p.exactOne == selector.Some?
    ensures
      var v, meaning := RootSource(p.collection, source), Eval(p, selector, source);
      if v.Err? then meaning == Err(v.error)
      else
        var inner := EvalAt(p.collection, v.value, selector);
        && RootScans(p, source) == Scans(p.collection, v.value)
        && if inner.Err? then meaning == Err(inner.error)
           else if selector.None? then
             && meaning == Ok(Obj([Field(ITEMS, inner.value)]))
             && |Print(meaning.value)| == 2 + KeyCost(ITEMS, false) + |Print(inner.value)|
           else meaning == inner
  {
    hide PrintText, EvalAt, Scans;
    var v := RootSource(p.collection, source);
    if v.Ok? && EvalAt(p.collection, v.value, selector).Ok? {
      ObjectOfOne(ITEMS, EvalAt(p.collection, v.value, selector).value);
    }
  }

  /** What the root costs around its collection. */
  function RootCost(selector: Option<Bytes>): nat {
    if selector.None? then 2 + KeyCost(ITEMS, false) else 0
  }

  /** The result of the root, given what its collection produced. */
  function Wrapped(selector: Option<Bytes>, inner: Result<Option<Value>, CoreError>): Result<Value, CoreError>
    requires inner.Ok? ==> inner.value.Some?
  {
    match inner
    case Err(e) => Err(e)
    case Ok(v) => Ok(if selector.None? then Obj([Field(ITEMS, v.value)]) else v.value)
  }

  lemma CollectionSettles(p: TypedProjection, selector: Option<Bytes>, source: Value, inner: Result<Option<Value>, CoreError>,
                          bytes: nat, scanned: nat, emitted: nat)
    requires p.CollectionProjection? && CheckGuards(p.guards, source).None? && p.exactOne == selector.Some?
    requires RootSource(p.collection, source).Ok?
    requires
      var v := RootSource(p.collection, source).value;
      var meaning := EvalAt(p.collection, v, selector);
      if inner.Err?
      then Refused(meaning, inner.error,
        Overdrawn(RootCost(selector), PrintedCost(meaning, true), 0, Scans(p.collection, v)))
      else
        && Produced(meaning, true, inner.value, RootCost(selector), bytes)
        && Counted(0, scanned, 0, emitted, Scans(p.collection, v), 0)
    ensures inner.Ok? ==> inner.value.Some?
    ensures Settled(Wrapped(selector, inner), p, selector, source, bytes)
  {
    RootMeaning(p, selector, source);
    hide Eval, EvalAt, Scans, RootScans, Print, PrintText, KeyCost, RootSource;
  }

  method ProjectCollection(p: TypedProjection, selector: Option<Bytes>, source: Value, budget: Budget)
    returns (r: Result<Value, CoreError>)
    requires p.CollectionProjection? && CheckGuards(p.guards, source).None? && KeyedSource(p, source)
    requires budget.Valid() && budget.bytes == budget.scanned == budget.emitted == 0
    modifies budget
    ensures Settled(r, p, selector, source, budget.bytes)
  {
    if p.exactOne != selector.Some? {
      return Err(InvalidDefinition);
    }
    RootMeaning(p, selector, source);
    hide Eval, EvalAt, Scans, RootScans, Print, PrintText, KeyCost;
    var found := RootSource(p.collection, source);
    if found.Err? {
      return Err(found.error);
    }
    if selector.None? {
      var ok := budget.Charge(2);
      if ok {
        ok := budget.Key(ITEMS, false);
      }
      if !ok {
        return Err(OutputLimit);
      }
    }
    hide RootSource, KeyedSource, Refused, Produced, Counted, Overdrawn, Settled;
    var value := ProjectAt(p.collection, found.value, selector, true, budget);
    CollectionSettles(p, selector, source, value, budget.bytes, budget.scanned, budget.emitted);
    r := Wrapped(selector, value);
  }
}
