/** Typed projections as pure functions: the finite schema, what it reads from a source
    value, and what it produces when no budget intervenes. */
module ProjectionSpec {
  import opened Common
  import opened Json

  datatype ScalarKind =
    | BooleanKind
    | TextKind(maxBytes: nat)
    | TextEnumKind(maxBytes: nat, values: seq<Bytes>)
    | SafeIntegerKind(min: int, max: int)
    | FalseOrSafeIntegerKind(min: int, max: int)
    | CounterKind(fromText: bool)

  datatype ScalarField = ScalarField(name: Bytes, source: Bytes, required: bool, kind: ScalarKind)

  datatype TextIdentity = TextIdentity(name: Bytes, maxBytes: nat)

  /** The program's three record levels are instances of this one recursive shape. */
  datatype Record = Record(fields: seq<ScalarField>, collections: seq<CollectionField>)

  datatype CollectionField = CollectionField(name: Bytes, required: bool, collection: Collection)

  datatype Collection =
    | TextOption(source: Bytes, maxItems: nat, maxBytes: nat)
    | RowArray(source: Bytes, maxItems: nat, record: Record)
    | ObjectArray(source: Bytes, maxItems: nat, identity: Bytes, record: Record)
    | ObjectEntries(source: Bytes, maxItems: nat, key: TextIdentity, record: Record)
    | ScalarArray(source: Bytes, maxItems: nat, name: Bytes, kind: ScalarKind, unique: bool)

  // ----- Pointers -----

  const TILDE: Byte := 126

  /** Replaces every "~d" by one byte, left to right. */
  function ReplaceTilde(s: Bytes, digit: Byte, put: Byte): Bytes {
    if |s| < 2 then s
    else if s[0] == TILDE && s[1] == digit then [put] + ReplaceTilde(s[2..], digit, put)
    else [s[0]] + ReplaceTilde(s[1..], digit, put)
  }

  function Unescape(part: Bytes): Bytes {
    ReplaceTilde(ReplaceTilde(part, 49, SLASH), 48, TILDE)
  }

  /** The decoded segments of a pointer; what stands before the first slash is dropped. */
  function Segments(pointer: Bytes): seq<Bytes> {
    var parts := Components(pointer)[1..];
    seq(|parts|, i requires 0 <= i < |parts| => Unescape(parts[i]))
  }

  function Member(fields: seq<Field>, key: Bytes): Option<Value> {
    if fields == [] then None
    else if fields[0].key == key then Some(fields[0].value)
    else Member(fields[1..], key)
  }

  /** Missing keys give None; walking through a scalar, or using a malformed array index,
      is an error. */
  function Walk(source: Value, segments: seq<Bytes>): Result<Option<Value>, CoreError>
    decreases |segments|
  {
    if segments == [] then Ok(Some(source))
    else
      var key := segments[0];
      match source
      case Obj(fields) =>
        (match Member(fields, key)
         case None => Ok(None)
         case Some(next) => Walk(next, segments[1..]))
      case Arr(items) =>
        if key == [] || (|key| > 1 && key[0] == 48) || !IsDigits(key) then Err(InvalidOutput)
        else if DecimalValue(key) < |items| then Walk(items[DecimalValue(key)], segments[1..])
        else Ok(None)
      case _ => Err(InvalidOutput)
  }

  function Lookup(source: Value, pointer: Bytes): Result<Option<Value>, CoreError> {
    Walk(source, Segments(pointer))
  }

  // ----- Scalars -----

  datatype Scalar = Boolean(b: bool) | Text(text: Bytes) | Integer(n: int) | Counter(c: nat)

  const I64_MIN := -0x8000_0000_0000_0000
  const I64_MAX := 0x7FFF_FFFF_FFFF_FFFF

  predicate ValidIdentity(text: Bytes, max: nat) {
    text != [] && |text| <= max && 0 !in text
  }

  function ReadInteger(v: Value, min: int, max: int): Option<Scalar> {
    if v.Num? && v.number.Int? && I64_MIN <= v.number.n <= I64_MAX && min <= v.number.n <= max
    then Some(Integer(v.number.n)) else None
  }

  function ReadScalar(kind: ScalarKind, v: Value): Option<Scalar> {
    match kind
    case BooleanKind => if v.Bool? then Some(Boolean(v.b)) else None
    case TextKind(max) =>
      if v.Str? && |v.text| <= max && 0 !in v.text then Some(Text(v.text)) else None
    case TextEnumKind(max, values) =>
      if v.Str? && ValidIdentity(v.text, max) && v.text in values then Some(Text(v.text)) else None
    case SafeIntegerKind(min, max) => ReadInteger(v, min, max)
    case FalseOrSafeIntegerKind(min, max) =>
      if v == Bool(false) then Some(Boolean(false)) else ReadInteger(v, min, max)
    case CounterKind(fromText) =>
      if fromText then
        if v.Str? && v.text != [] && |v.text| <= 20 && (|v.text| > 1 ==> v.text[0] != 48)
           && IsDigits(v.text) && DecimalValue(v.text) <= U64_MAX
        then Some(Counter(DecimalValue(v.text))) else None
      else if v.Num? && v.number.Int? && 0 <= v.number.n <= U64_MAX then Some(Counter(v.number.n)) else None
  }

  function ScalarValue(s: Scalar): (v: Value)
    ensures !v.Arr? && !v.Obj?
  {
    match s
    case Boolean(b) => Bool(b)
    case Text(t) => Str(t)
    case Integer(n) => Num(Int(n))
    case Counter(c) => Str(Digits(c))
  }

  // ----- Records and collections, without a budget -----

  /** What distinguishes a row: an identity, or the scalar itself. */
  datatype Mark = Anonymous | Named(identity: Bytes) | Valued(scalar: Scalar)

  datatype Row = Row(mark: Mark, value: Value)

  type Key = Option<(TextIdentity, Bytes)>

  /** The member a scalar field contributes, if its source is there. */
  function EvalField(f: ScalarField, source: Value): Result<seq<Field>, CoreError> {
    match Lookup(source, f.source)
    case Err(e) => Err(e)
    case Ok(None) => if f.required then Err(InvalidOutput) else Ok([])
    case Ok(Some(v)) =>
      match ReadScalar(f.kind, v)
      case None => Err(InvalidOutput)
      case Some(s) => Ok([Field(f.name, ScalarValue(s))])
  }

  function Joined<T>(done: Result<seq<T>, CoreError>, more: Result<seq<T>, CoreError>): Result<seq<T>, CoreError> {
    if done.Err? then done else if more.Err? then more else Ok(done.value + more.value)
  }

  function EvalFields(fields: seq<ScalarField>, source: Value): Result<seq<Field>, CoreError> {
    if fields == [] then Ok([])
    else Joined(EvalFields(fields[..|fields| - 1], source), EvalField(fields[|fields| - 1], source))
  }

  function KeyFields(key: Key): seq<Field> {
    if key.None? then [] else [Field(key.value.0.name, Str(key.value.1))]
  }

  /** The scalar part of a record, after its key. */
  function EvalHead(fields: seq<ScalarField>, source: Value, key: Key): Result<seq<Field>, CoreError> {
    if !source.Obj? then Err(InvalidOutput)
    else if key.Some? && !ValidIdentity(key.value.1, key.value.0.maxBytes) then Err(InvalidOutput)
    else match EvalFields(fields, source)
      case Err(e) => Err(e)
      case Ok(done) => Ok(KeyFields(key) + done)
  }

  function SourceOf(c: Collection): Bytes {
    c.source
  }

  function EvalRecord(r: Record, source: Value, key: Key): Result<seq<Field>, CoreError>
    decreases r, 1
  {
    match EvalHead(r.fields, source, key)
    case Err(e) => Err(e)
    case Ok(head) =>
      match EvalCollections(r.collections, source)
      case Err(e) => Err(e)
      case Ok(rest) => Ok(head + rest)
  }

  /** The member a nested collection contributes, if its source is there. */
  function EvalMember(c: CollectionField, source: Value): Result<seq<Field>, CoreError>
    decreases c, 1
  {
    match Lookup(source, SourceOf(c.collection))
    case Err(e) => Err(e)
    case Ok(None) => if c.required then Err(InvalidOutput) else Ok([])
    case Ok(Some(v)) =>
      match EvalCollection(c.collection, v)
      case Err(e) => Err(e)
      case Ok(w) => Ok([Field(c.name, w)])
  }

  function EvalCollections(cs: seq<CollectionField>, source: Value): Result<seq<Field>, CoreError>
    decreases cs, 1
  {
    if cs == [] then Ok([])
    else Joined(EvalCollections(cs[..|cs| - 1], source), EvalMember(cs[|cs| - 1], source))
  }

  const KIND: Bytes := [107, 105, 110, 100]
  const VALUES: Bytes := [118, 97, 108, 117, 101, 115]
  const STRING: Bytes := [115, 116, 114, 105, 110, 103]
  const LIST: Bytes := [108, 105, 115, 116]
  const ITEMS: Bytes := [105, 116, 101, 109, 115]

  /** The rows a collection will look at: array items, or object members with their keys. */
  function Inputs(c: Collection, v: Value): Result<seq<Field>, CoreError> {
    var inputs :=
      if c.TextOption? then
        if v.Str? then Some([Field([], v)])
        else if v.Arr? then Some(Unkeyed(v.items)) else None
      else if c.ObjectEntries? then
        if v.Obj? then Some(v.fields) else None
      else if v.Arr? then Some(Unkeyed(v.items)) else None;
    if inputs.None? then Err(InvalidOutput)
    else if |inputs.value| > c.maxItems then Err(OutputLimit)
    else if c.ObjectArray? && IdentityField(c).None? then Err(InvalidDefinition)
    else Ok(inputs.value)
  }

  function Unkeyed(items: seq<Value>): (r: seq<Field>)
    ensures |r| == |items|
  {
    seq(|items|, i requires 0 <= i < |items| => Field([], items[i]))
  }

  /** The identity field of an object array with its length limit. */
  function IdentityField(c: Collection): Option<(ScalarField, nat)>
    requires c.ObjectArray?
  {
    var field, limit := FindField(c.record.fields, c.identity), FindLimit(c.record.fields, c.identity);
    if field.None? || limit.None? then None else Some((field.value, limit.value))
  }

  function FindField(fields: seq<ScalarField>, name: Bytes): Option<ScalarField> {
    if fields == [] then None
    else if fields[0].name == name then Some(fields[0])
    else FindField(fields[1..], name)
  }

  function FindLimit(fields: seq<ScalarField>, name: Bytes): Option<nat> {
    if fields == [] then None
    else if fields[0].name == name && fields[0].required && fields[0].kind.TextKind?
    then Some(fields[0].kind.maxBytes)
    else FindLimit(fields[1..], name)
  }

  /** One row: its own checks first, then the record inside. */
  function EvalRow(c: Collection, input: Field, seen: seq<Row>): Result<Row, CoreError>
    decreases c, 0
  {
    match c
    case TextOption(_, _, max) =>
      (match ReadScalar(TextKind(max), input.value)
       case None => Err(InvalidOutput)
       case Some(s) => Ok(Row(Anonymous, ScalarValue(s))))
    case RowArray(_, _, record) =>
      (match EvalRecord(record, input.value, None)
       case Err(e) => Err(e)
       case Ok(fields) => Ok(Row(Anonymous, Obj(fields))))
    case ObjectArray(_, _, _, record) =>
      var id := RowIdentity(c, input.value);
      if id.Err? then Err(id.error)
      else if Marked(seen, Named(id.value)) then Err(InvalidOutput)
      else (
        match EvalRecord(record, input.value, None)
        case Err(e) => Err(e)
        case Ok(fields) => Ok(Row(Named(id.value), Obj(fields))))
    case ObjectEntries(_, _, key, record) =>
      if !ValidIdentity(input.key, key.maxBytes) then Err(InvalidOutput)
      else (
        match EvalRecord(record, input.value, Some((key, input.key)))
        case Err(e) => Err(e)
        case Ok(fields) => Ok(Row(Named(input.key), Obj(fields))))
    case ScalarArray(_, _, name, kind, unique) =>
      (match ReadScalar(kind, input.value)
       case None => Err(InvalidOutput)
       case Some(s) =>
         if unique && (s == Text([]) || Marked(seen, Valued(s))) then Err(InvalidOutput)
         else Ok(Row(Valued(s), Obj([Field(name, ScalarValue(s))]))))
  }

  predicate Marked(rows: seq<Row>, mark: Mark) {
    exists i | 0 <= i < |rows| :: rows[i].mark == mark
  }

  function RowIdentity(c: Collection, v: Value): Result<Bytes, CoreError>
    requires c.ObjectArray?
  {
    match IdentityField(c)
    case None => Err(InvalidDefinition)
    case Some((field, max)) =>
      match Lookup(v, field.source)
      case Err(e) => Err(e)
      case Ok(found) =>
        if found.Some? && found.value.Str? && ValidIdentity(found.value.text, max)
        then Ok(found.value.text) else Err(InvalidOutput)
  }

  function EvalRows(c: Collection, inputs: seq<Field>): Result<seq<Row>, CoreError>
    decreases c, 1, |inputs|
  {
    if inputs == [] then Ok([])
    else match EvalRows(c, inputs[..|inputs| - 1])
      case Err(e) => Err(e)
      case Ok(rows) =>
        match EvalRow(c, inputs[|inputs| - 1], rows)
        case Err(e) => Err(e)
        case Ok(row) => Ok(rows + [row])
  }

  function RowValues(rows: seq<Row>): (r: seq<Value>)
    ensures |r| == |rows|
  {
    seq(|rows|, i requires 0 <= i < |rows| => rows[i].value)
  }

  /** Every row of a collection, or the first error. */
  function EvalAll(c: Collection, v: Value): Result<seq<Row>, CoreError>
    decreases c, 2
  {
    match Inputs(c, v)
    case Err(e) => Err(e)
    case Ok(inputs) => EvalRows(c, inputs)
  }

  function Wrap(c: Collection, v: Value, rows: seq<Row>): Value {
    if c.TextOption?
    then Obj([Field(KIND, Str(if v.Str? then STRING else LIST)), Field(VALUES, Arr(RowValues(rows)))])
    else Arr(RowValues(rows))
  }

  function EvalCollection(c: Collection, v: Value): Result<Value, CoreError>
    decreases c, 3
  {
    match EvalAll(c, v)
    case Err(e) => Err(e)
    case Ok(rows) => Ok(Wrap(c, v, rows))
  }

  /** The row with the selected identity. */
  function Select(rows: seq<Row>, selector: Bytes): Option<Value> {
    if rows == [] then None
    else if rows[|rows| - 1].mark == Named(selector) then Some(rows[|rows| - 1].value)
    else Select(rows[..|rows| - 1], selector)
  }

  predicate Selectable(c: Collection) {
    c.ObjectArray? || c.ObjectEntries?
  }

  /** A collection listed whole, or the one row that is selected from it. */
  function EvalAt(c: Collection, v: Value, selector: Option<Bytes>): Result<Value, CoreError> {
    if selector.None? then EvalCollection(c, v)
    else if !Selectable(c) then Err(InvalidDefinition)
    else match EvalAll(c, v)
      case Err(e) => Err(e)
      case Ok(rows) =>
        match Select(rows, selector.value)
        case None => Err(SelectionNotObserved)
        case Some(row) => Ok(row)
  }

  // ----- How many inputs are scanned on the way -----

  function ScansMember(c: CollectionField, source: Value): nat
    decreases c, 1
  {
    var found := Lookup(source, SourceOf(c.collection));
    if found.Ok? && found.value.Some? then Scans(c.collection, found.value.value) else 0
  }

  function ScansCollections(cs: seq<CollectionField>, source: Value): nat
    decreases cs, 1
  {
    if cs == [] then 0
    else ScansCollections(cs[..|cs| - 1], source) + ScansMember(cs[|cs| - 1], source)
  }

  function Scans(c: Collection, v: Value): nat
    decreases c, 3
  {
    match Inputs(c, v)
    case Err(_) => 0
    case Ok(inputs) => |inputs| + ScansRows(c, inputs)
  }

  function ScansRows(c: Collection, inputs: seq<Field>): nat
    decreases c, 1, |inputs|
  {
    if inputs == [] then 0
    else ScansRows(c, inputs[..|inputs| - 1]) + ScansRow(c, inputs[|inputs| - 1])
  }

  function ScansRow(c: Collection, input: Field): nat
    decreases c, 0
  {
    if c.TextOption? || c.ScalarArray? then 0 else ScansCollections(c.record.collections, input.value)
  }

  // ----- Prefixes decide first -----

  lemma {:induction false} EvalFieldsPrefix(fields: seq<ScalarField>, source: Value, k: nat)
    requires k <= |fields|
    ensures
      var part, whole := EvalFields(fields[..k], source), EvalFields(fields, source);
      if part.Err? then whole == part else whole.Ok? ==> part.value <= whole.value
    decreases |fields|
  {
    if k == |fields| {
      assert fields[..k] == fields;
    } else {
      EvalFieldsPrefix(fields[..|fields| - 1], source, k);
      assert fields[..|fields| - 1][..k] == fields[..k];
    }
  }

  lemma {:induction false} EvalCollectionsPrefix(cs: seq<CollectionField>, source: Value, k: nat)
    requires k <= |cs|
    ensures
      var part, whole := EvalCollections(cs[..k], source), EvalCollections(cs, source);
      if part.Err? then whole == part else whole.Ok? ==> part.value <= whole.value
    ensures ScansCollections(cs[..k], source) <= ScansCollections(cs, source)
    decreases |cs|
  {
    if k == |cs| {
      assert cs[..k] == cs;
    } else {
      EvalCollectionsPrefix(cs[..|cs| - 1], source, k);
      assert cs[..|cs| - 1][..k] == cs[..k];
    }
  }

  lemma {:induction false} EvalRowsPrefix(c: Collection, inputs: seq<Field>, k: nat)
    requires k <= |inputs|
    ensures
      var part, whole := EvalRows(c, inputs[..k]), EvalRows(c, inputs);
      if part.Err? then whole == part else whole.Ok? ==> part.value <= whole.value && |part.value| == k
    ensures ScansRows(c, inputs[..k]) <= ScansRows(c, inputs)
    decreases |inputs|
  {
    EvalRowsLength(c, inputs[..k]);
    if k == |inputs| {
      assert inputs[..k] == inputs;
    } else {
      EvalRowsPrefix(c, inputs[..|inputs| - 1], k);
      assert inputs[..|inputs| - 1][..k] == inputs[..k];
    }
  }

  lemma {:induction false} EvalRowsLength(c: Collection, inputs: seq<Field>)
    ensures EvalRows(c, inputs).Ok? ==> |EvalRows(c, inputs).value| == |inputs|
    decreases |inputs|
  {
    if inputs != [] {
      EvalRowsLength(c, inputs[..|inputs| - 1]);
    }
  }

  // ----- Root projections -----

  datatype TypedProjection =
    | RecordProjection(guards: seq<Bytes>, record: Record)
    | CollectionProjection(guards: seq<Bytes>, collection: Collection, exactOne: bool)

  function CheckGuards(guards: seq<Bytes>, source: Value): Option<CoreError> {
    if guards == [] then None
    else match CheckGuards(guards[..|guards| - 1], source)
      case Some(e) => Some(e)
      case None =>
        match Lookup(source, guards[|guards| - 1])
        case Err(e) => Some(e)
        case Ok(found) => if found.Some? then Some(InvalidOutput) else None
  }

  /** The source of a collection projection, found or an error. */
  function RootSource(c: Collection, source: Value): Result<Value, CoreError> {
    match Lookup(source, SourceOf(c))
    case Err(e) => Err(e)
    case Ok(None) => Err(InvalidOutput)
    case Ok(Some(v)) => Ok(v)
  }

  /** The whole projection without a budget. */
  function Eval(p: TypedProjection, selector: Option<Bytes>, source: Value): Result<Value, CoreError> {
    match CheckGuards(p.guards, source)
    case Some(e) => Err(e)
    case None =>
      match p
      case RecordProjection(_, record) =>
        (match EvalRecord(record, source, None)
         case Err(e) => Err(e)
         case Ok(fields) => Ok(Obj(fields)))
      case CollectionProjection(_, c, exactOne) =>
        if exactOne != selector.Some? then Err(InvalidDefinition)
        else match RootSource(c, source)
          case Err(e) => Err(e)
          case Ok(v) =>
            match EvalAt(c, v, selector)
            case Err(e) => Err(e)
            case Ok(w) => Ok(if selector.None? then Obj([Field(ITEMS, w)]) else w)
  }

  function RootScans(p: TypedProjection, source: Value): nat {
    match p
    case RecordProjection(_, record) => ScansCollections(record.collections, source)
    case CollectionProjection(_, c, _) =>
      var v := RootSource(c, source);
      if v.Ok? then Scans(c, v.value) else 0
  }
}
