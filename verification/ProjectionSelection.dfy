/** Selecting one row agrees with listing all rows, and the identity of a row can be read
    off the row itself. */
module ProjectionSelection {
  import opened Common
  import opened Json
  import opened ProjectionSpec
  import opened ProjectionFields
  import opened ProjectionRows
  import opened Projection
  import opened ProjectionRoot

  // ----- Names -----

  ghost predicate DistinctNames(names: seq<Bytes>) {
    forall i, j | 0 <= i < j < |names| :: names[i] != names[j]
  }

  function FieldNames(fields: seq<ScalarField>): seq<Bytes> {
    seq(|fields|, i requires 0 <= i < |fields| => fields[i].name)
  }

  function CollectionNames(cs: seq<CollectionField>): seq<Bytes> {
    seq(|cs|, i requires 0 <= i < |cs| => cs[i].name)
  }

  function KeyNames(key: Key): seq<Bytes> {
    if key.None? then [] else [key.value.0.name]
  }

  /** A validated record names its key, fields and collections differently. */
  function RecordNames(r: Record, key: Key): seq<Bytes> {
    KeyNames(key) + FieldNames(r.fields) + CollectionNames(r.collections)
  }

  /** The keys of members come from names, each used once. */
  ghost predicate KeyedBy(fields: seq<Field>, names: seq<Bytes>) {
    && UniqueKeys(fields)
    && forall i | 0 <= i < |fields| :: fields[i].key in names
  }

  lemma NamedJoin(a: seq<Field>, b: seq<Field>, names: seq<Bytes>, more: seq<Bytes>)
    requires KeyedBy(a, names) && KeyedBy(b, more) && DistinctNames(names + more)
    ensures KeyedBy(a + b, names + more)
  {
    forall i, j | 0 <= i < |a| && 0 <= j < |b| ensures a[i].key != b[j].key {
      var x :| 0 <= x < |names| && names[x] == a[i].key;
      var y :| 0 <= y < |more| && more[y] == b[j].key;
      assert (names + more)[x] != (names + more)[|names| + y];
    }
    forall i, j | 0 <= i < j < |a + b| ensures (a + b)[i].key != (a + b)[j].key {
      if j < |a| {
        assert a[i].key != a[j].key;
      } else if i >= |a| {
        assert b[i - |a|].key != b[j - |a|].key;
      } else {
        assert a[i].key != b[j - |a|].key;
      }
    }
  }

  lemma {:induction false} FieldsAreNamed(fields: seq<ScalarField>, source: Value)
    requires DistinctNames(FieldNames(fields)) && EvalFields(fields, source).Ok?
    ensures KeyedBy(EvalFields(fields, source).value, FieldNames(fields))
    decreases |fields|
  {
    if fields != [] {
      var n := |fields| - 1;
      assert FieldNames(fields) == FieldNames(fields[..n]) + [fields[n].name];
      assert DistinctNames(FieldNames(fields[..n])) by {
        forall i, j | 0 <= i < j < n ensures FieldNames(fields[..n])[i] != FieldNames(fields[..n])[j] {
          assert FieldNames(fields)[i] != FieldNames(fields)[j];
        }
      }
      FieldsAreNamed(fields[..n], source);
      NamedJoin(EvalFields(fields[..n], source).value, EvalField(fields[n], source).value, FieldNames(fields[..n]),
        [fields[n].name]);
    }
  }

  lemma {:induction false} CollectionsAreNamed(cs: seq<CollectionField>, source: Value)
    requires DistinctNames(CollectionNames(cs)) && EvalCollections(cs, source).Ok?
    ensures KeyedBy(EvalCollections(cs, source).value, CollectionNames(cs))
    decreases |cs|
  {
    if cs != [] {
      var n := |cs| - 1;
      assert CollectionNames(cs) == CollectionNames(cs[..n]) + [cs[n].name];
      assert DistinctNames(CollectionNames(cs[..n])) by {
        forall i, j | 0 <= i < j < n ensures CollectionNames(cs[..n])[i] != CollectionNames(cs[..n])[j] {
          assert CollectionNames(cs)[i] != CollectionNames(cs)[j];
        }
      }
      CollectionsAreNamed(cs[..n], source);
      NamedJoin(EvalCollections(cs[..n], source).value, EvalMember(cs[n], source).value, CollectionNames(cs[..n]),
        [cs[n].name]);
    }
  }

  /** The members of a projected record have distinct keys, so adding a member to the end of
      the list is inserting it into a map. */
  lemma MembersAreDistinct(r: Record, source: Value, key: Key)
    requires DistinctNames(RecordNames(r, key)) && EvalRecord(r, source, key).Ok?
    ensures UniqueKeys(EvalRecord(r, source, key).value)
  {
    var keys, names, more := KeyNames(key), FieldNames(r.fields), CollectionNames(r.collections);
    var all := RecordNames(r, key);
    assert DistinctNames(names) by {
      forall i, j | 0 <= i < j < |names| ensures names[i] != names[j] {
        assert all[|keys| + i] != all[|keys| + j];
      }
    }
    assert DistinctNames(more) by {
      forall i, j | 0 <= i < j < |more| ensures more[i] != more[j] {
        assert all[|keys| + |names| + i] != all[|keys| + |names| + j];
      }
    }
    assert DistinctNames(keys + names) by {
      forall i, j | 0 <= i < j < |keys + names| ensures (keys + names)[i] != (keys + names)[j] {
        assert all[i] != all[j];
      }
    }
    FieldsAreNamed(r.fields, source);
    CollectionsAreNamed(r.collections, source);
    var fields := EvalFields(r.fields, source).value;
    NamedJoin(KeyFields(key), fields, keys, names);
    NamedJoin(KeyFields(key) + fields, EvalCollections(r.collections, source).value, keys + names, more);
    assert EvalRecord(r, source, key).value == KeyFields(key) + fields + EvalCollections(r.collections, source).value;
  }

  // ----- Identities in rows -----

  function IdentityName(c: Collection): Bytes
    requires Selectable(c)
  {
    if c.ObjectArray? then c.identity else c.key.name
  }

  /** The identity a projected row shows. */
  function ShownIdentity(c: Collection, row: Value): Option<Bytes>
    requires Selectable(c)
  {
    if !row.Obj? then None
    else
      var m := Member(row.fields, IdentityName(c));
      if m.Some? && m.value.Str? then Some(m.value.text) else None
  }

  lemma {:induction false} MemberOfJoin(a: seq<Field>, b: seq<Field>, key: Bytes)
    ensures Member(a + b, key) == if Member(a, key).Some? then Member(a, key) else Member(b, key)
  {
    if a == [] {
      assert a + b == b;
    } else {
      assert (a + b)[1..] == a[1..] + b;
      MemberOfJoin(a[1..], b, key);
    }
  }

  lemma {:induction false} NotMember(fields: seq<Field>, key: Bytes)
    requires forall i | 0 <= i < |fields| :: fields[i].key != key
    ensures Member(fields, key).None?
  {
    if fields != [] {
      NotMember(fields[1..], key);
    }
  }

  lemma MemberOfOne(key: Bytes, v: Value)
    ensures Member([Field(key, v)], key) == Some(v)
  {
  }

  lemma {:induction false} FoundField(fields: seq<ScalarField>, name: Bytes)
    requires DistinctNames(FieldNames(fields)) && FindField(fields, name).Some? && FindLimit(fields, name).Some?
    ensures exists i | 0 <= i < |fields| ::
      && FindField(fields, name) == Some(fields[i]) && fields[i].name == name && fields[i].required
      && fields[i].kind == TextKind(FindLimit(fields, name).value)
  {
    if fields[0].name != name {
      assert FieldNames(fields)[1..] == FieldNames(fields[1..]);
      assert DistinctNames(FieldNames(fields[1..])) by {
        forall i, j | 0 <= i < j < |fields| - 1 ensures FieldNames(fields[1..])[i] != FieldNames(fields[1..])[j] {
          assert FieldNames(fields)[i + 1] != FieldNames(fields)[j + 1];
        }
      }
      FoundField(fields[1..], name);
      var i :| 0 <= i < |fields| - 1 && FindField(fields[1..], name) == Some(fields[1..][i])
        && fields[1..][i].name == name && fields[1..][i].required
        && fields[1..][i].kind == TextKind(FindLimit(fields[1..], name).value);
      assert fields[i + 1] == fields[1..][i];
    } else {
      LimitIsFirst(fields, name);
    }
  }

  lemma {:induction false} LimitIsFirst(fields: seq<ScalarField>, name: Bytes)
    requires DistinctNames(FieldNames(fields)) && FindLimit(fields, name).Some?
    requires fields != [] && fields[0].name == name
    ensures fields[0].required && fields[0].kind == TextKind(FindLimit(fields, name).value)
  {
    forall i | 0 <= i < |fields[1..]| ensures fields[1..][i].name != name {
      assert FieldNames(fields)[0] != FieldNames(fields)[i + 1];
    }
    NoLimit(fields[1..], name);
  }

  lemma {:induction false} NoLimit(fields: seq<ScalarField>, name: Bytes)
    requires forall i | 0 <= i < |fields| :: fields[i].name != name
    ensures FindLimit(fields, name).None?
  {
    if fields != [] {
      NoLimit(fields[1..], name);
    }
  }

  /** A required text field shows what it reads. */
  lemma {:induction false} FieldIsShown(fields: seq<ScalarField>, source: Value, k: nat, text: Bytes)
    requires DistinctNames(FieldNames(fields)) && EvalFields(fields, source).Ok?
    requires k < |fields| && fields[k].required && fields[k].kind.TextKind?
    requires Lookup(source, fields[k].source) == Ok(Some(Str(text)))
    ensures Member(EvalFields(fields, source).value, fields[k].name) == Some(Str(text))
    decreases |fields|
  {
    var n := |fields| - 1;
    var done, last := EvalFields(fields[..n], source).value, EvalField(fields[n], source).value;
    assert EvalFields(fields, source).value == done + last;
    assert k == n ==> last == [Field(fields[n].name, Str(text))];
    hide EvalFields, EvalField, Lookup, ReadScalar, Member;
    assert DistinctNames(FieldNames(fields[..n])) by {
      forall i, j | 0 <= i < j < n ensures FieldNames(fields[..n])[i] != FieldNames(fields[..n])[j] {
        assert FieldNames(fields)[i] != FieldNames(fields)[j];
      }
    }
    MemberOfJoin(done, last, fields[k].name);
    if k < n {
      FieldIsShown(fields[..n], source, k, text);
    } else {
      FieldsAreNamed(fields[..n], source);
      forall i | 0 <= i < |done| ensures done[i].key != fields[n].name {
        var x :| 0 <= x < n && FieldNames(fields[..n])[x] == done[i].key;
        assert FieldNames(fields)[x] != FieldNames(fields)[n];
      }
      NotMember(done, fields[n].name);
      MemberOfOne(fields[n].name, Str(text));
    }
  }

  /** The mark of a row is the identity it shows. */
  lemma RowShowsMark(c: Collection, input: Field, seen: seq<Row>)
    requires Selectable(c) && DistinctNames(FieldNames(c.record.fields)) && EvalRow(c, input, seen).Ok?
    ensures
      var row := EvalRow(c, input, seen).value;
      ShownIdentity(c, row.value).Some? && row.mark == Named(ShownIdentity(c, row.value).value)
  {
    var row := EvalRow(c, input, seen).value;
    var key := RecordKey(c, input);
    RecordRowMeaning(c, input, seen);
    var fields := row.value.fields;
    var scalars := EvalFields(c.record.fields, input.value);
    assert EvalRecord(c.record, input.value, key) == Ok(fields);
    var rest := EvalCollections(c.record.collections, input.value).value;
    assert fields == (KeyFields(key) + scalars.value) + rest;
    MemberOfJoin(KeyFields(key) + scalars.value, rest, IdentityName(c));
    if c.ObjectArray? {
      assert KeyFields(key) + scalars.value == scalars.value;
      FoundField(c.record.fields, c.identity);
      var i :| 0 <= i < |c.record.fields| && FindField(c.record.fields, c.identity) == Some(c.record.fields[i])
        && c.record.fields[i].name == c.identity && c.record.fields[i].required
        && c.record.fields[i].kind == TextKind(FindLimit(c.record.fields, c.identity).value);
      var id := RowIdentity(c, input.value).value;
      assert Lookup(input.value, c.record.fields[i].source) == Ok(Some(Str(id)));
      FieldIsShown(c.record.fields, input.value, i, id);
    }
  }

  lemma {:induction false} RowsShowMarks(c: Collection, inputs: seq<Field>)
    requires Selectable(c) && DistinctNames(FieldNames(c.record.fields)) && EvalRows(c, inputs).Ok?
    ensures forall i | 0 <= i < |EvalRows(c, inputs).value| ::
      var row := EvalRows(c, inputs).value[i];
      ShownIdentity(c, row.value).Some? && row.mark == Named(ShownIdentity(c, row.value).value)
    decreases |inputs|
  {
    if inputs != [] {
      RowsShowMarks(c, inputs[..|inputs| - 1]);
      RowShowsMark(c, inputs[|inputs| - 1], EvalRows(c, inputs[..|inputs| - 1]).value);
    }
  }

  // ----- Select agrees with list -----

  function Listing(guards: seq<Bytes>, c: Collection): TypedProjection {
    CollectionProjection(guards, c, false)
  }

  function Picking(guards: seq<Bytes>, c: Collection): TypedProjection {
    CollectionProjection(guards, c, true)
  }

  /** The rows shown by a listing. */
  function ListedRows(list: Value): seq<Value> {
    if list.Obj? && |list.fields| == 1 && list.fields[0].value.Arr? then list.fields[0].value.items else []
  }

  /** The rows behind a listing and a pick, before printing. */
  ghost predicate Behind(c: Collection, marked: seq<Row>, list: Result<Value, CoreError>, one: Result<Value, CoreError>,
      selector: Bytes)
    requires Selectable(c)
  {
    && list.Ok? && ListedRows(list.value) == RowValues(marked) && DistinctMarks(marked)
    && |PrintItems(RowValues(marked))| < |Print(list.value)|
    && (forall i | 0 <= i < |marked| ::
          var shown := ShownIdentity(c, marked[i].value);
          shown.Some? && marked[i].mark == Named(shown.value))
    && var found := Select(marked, selector);
       one == if found.None? then Err(SelectionNotObserved) else Ok(found.value)
  }

  lemma BothReadTheSameRows(guards: seq<Bytes>, c: Collection, source: Value, selector: Bytes) returns (marked: seq<Row>)
    requires Selectable(c) && DistinctNames(FieldNames(c.record.fields)) && KeyedSource(Listing(guards, c), source)
    requires Eval(Listing(guards, c), None, source).Ok? || Eval(Picking(guards, c), Some(selector), source).Ok?
    ensures Behind(c, marked, Eval(Listing(guards, c), None, source), Eval(Picking(guards, c), Some(selector), source),
      selector)
    ensures RootScans(Listing(guards, c), source) == RootScans(Picking(guards, c), source)
  {
    var list, pick := Listing(guards, c), Picking(guards, c);
    RootMeaning(list, None, source);
    RootMeaning(pick, Some(selector), source);
    var v := RootSource(c, source).value;
    ListMeaning(c, v, None);
    ListMeaning(c, v, Some(selector));
    hide Eval, EvalAt, EvalRows, Print, PrintItems, PrintText, Scans, RootScans, ScansRows, ShownIdentity, Select,
      RowValues;
    var inputs := ListInputs(c, v).value;
    marked := EvalRows(c, inputs).value;
    MarksAreDistinct(c, inputs);
    RowsShowMarks(c, inputs);
  }

  /** Rows show distinct identities, and one result is the row that shows the selected one. */
  ghost predicate PicksFrom(c: Collection, rows: seq<Value>, one: Result<Value, CoreError>, selector: Bytes)
    requires Selectable(c)
  {
    && (forall i | 0 <= i < |rows| :: ShownIdentity(c, rows[i]).Some?)
    && (forall i, j | 0 <= i < j < |rows| :: ShownIdentity(c, rows[i]) != ShownIdentity(c, rows[j]))
    && (forall i | 0 <= i < |rows| :: ShownIdentity(c, rows[i]) == Some(selector) ==> one == Ok(rows[i]))
    && ((forall i | 0 <= i < |rows| :: ShownIdentity(c, rows[i]) != Some(selector)) ==> one == Err(SelectionNotObserved))
  }

  lemma BehindPicks(c: Collection, marked: seq<Row>, list: Result<Value, CoreError>, one: Result<Value, CoreError>,
      selector: Bytes)
    requires Selectable(c) && Behind(c, marked, list, one, selector)
    ensures PicksFrom(c, ListedRows(list.value), one, selector)
    ensures one.Ok? ==>
      && |Print(one.value)| <= |Print(list.value)| && one.value in ListedRows(list.value)
      && ShownIdentity(c, one.value) == Some(selector)
  {
    SelectFinds(marked, selector);
    hide Print, PrintItems, ShownIdentity, ListedRows, Select;
    var rows := RowValues(marked);
    forall i | 0 <= i < |rows| && ShownIdentity(c, rows[i]) == Some(selector) ensures one == Ok(rows[i]) {
      assert marked[i].mark == Named(selector);
    }
    forall i, j | 0 <= i < j < |rows| ensures ShownIdentity(c, rows[i]) != ShownIdentity(c, rows[j]) {
      assert marked[i].mark != marked[j].mark;
    }
    if one.Ok? {
      var i :| 0 <= i < |marked| && marked[i].mark == Named(selector);
      assert one.value == rows[i];
      ItemPrints(rows, i);
    } else {
      forall i | 0 <= i < |rows| ensures ShownIdentity(c, rows[i]) != Some(selector) {
        assert marked[i].mark != Named(selector);
      }
    }
  }

  /** When a listing succeeds, the rows show distinct identities, and picking an identity
      succeeds with the one row that shows it, or says that none was observed. */
  lemma SelectAgreesWithList(guards: seq<Bytes>, c: Collection, source: Value, selector: Bytes)
    requires Selectable(c) && DistinctNames(FieldNames(c.record.fields)) && KeyedSource(Listing(guards, c), source)
    requires Succeeds(Listing(guards, c), None, source)
    ensures
      var rows := ListedRows(Eval(Listing(guards, c), None, source).value);
      var one := Eval(Picking(guards, c), Some(selector), source);
      && PicksFrom(c, rows, one, selector)
      && (one.Ok? ==> Succeeds(Picking(guards, c), Some(selector), source))
  {
    var marked := BothReadTheSameRows(guards, c, source, selector);
    hide Eval, RootScans, Behind, PicksFrom, Print;
    BehindPicks(c, marked, Eval(Listing(guards, c), None, source), Eval(Picking(guards, c), Some(selector), source),
      selector);
  }

  lemma {:induction false} ItemPrints(items: seq<Value>, i: nat)
    requires i < |items|
    ensures |Print(items[i])| <= |PrintItems(items)|
    decreases |items|
  {
    if i < |items| - 1 {
      ItemPrints(items[..|items| - 1], i);
    }
  }

  /** A row is picked only from a source all of whose rows are valid, and it is one of them. */
  lemma PickingChecksEveryRow(guards: seq<Bytes>, c: Collection, source: Value, selector: Bytes)
    requires Selectable(c) && DistinctNames(FieldNames(c.record.fields)) && KeyedSource(Listing(guards, c), source)
    requires Eval(Picking(guards, c), Some(selector), source).Ok?
    ensures
      var one, list := Eval(Picking(guards, c), Some(selector), source).value, Eval(Listing(guards, c), None, source);
      && list.Ok? && one in ListedRows(list.value) && ShownIdentity(c, one) == Some(selector)
  {
    var marked := BothReadTheSameRows(guards, c, source, selector);
    hide Eval, RootScans, PicksFrom, Print;
    BehindPicks(c, marked, Eval(Listing(guards, c), None, source), Eval(Picking(guards, c), Some(selector), source),
      selector);
  }
}
