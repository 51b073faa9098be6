/** Package observations: complete validation, deterministic order, pages that always fit,
    and cursors that lead through every record once. */
module Packages {
  import opened Common
  import opened Json

  const MAX_PACKAGE_RECORDS := 4096
  const MAX_PACKAGE_RETAINED_BYTES := 2 * 1024 * 1024
  const PACKAGE_PAGE_RECORDS := 16
  const MAX_OPKG_STATUS_BYTES := 128
  const DOT: Byte := 46

  datatype PackageError = TooLarge | InvalidRecords | InvalidArguments

  datatype Profile = Apk | Opkg

  /** A layer for apk records, a status for opkg records. */
  datatype Last = Layer(layer: nat) | Status(status: Bytes)

  datatype Record = Record(name: Bytes, version: Bytes, arch: Bytes, last: Last)

  /** Records of one profile, validated and sorted. */
  datatype Observation = Observation(profile: Profile, records: seq<Record>)

  type Nonce = n: Bytes | |n| == 16 witness Zeros(16)

  // ----- Validation -----

  /** A control character, alone or as the UTF-8 form of U+0080 to U+009F. */
  predicate Control(s: Bytes, i: nat)
    requires i < |s|
  {
    s[i] < 32 || s[i] == 127 || (s[i] == 0xC2 && i + 1 < |s| && 0x80 <= s[i + 1] <= 0x9F)
  }

  predicate ValidText(s: Bytes, maximum: nat) {
    s != [] && |s| <= maximum && forall i: nat | i < |s| :: !Control(s, i)
  }

  predicate ValidRecord(p: Profile, r: Record) {
    && ValidText(r.name, 256) && ValidText(r.version, 256) && ValidText(r.arch, 64)
    && (if p.Apk? then r.last.Layer? && r.last.layer <= 1
        else r.last.Status? && ValidText(r.last.status, MAX_OPKG_STATUS_BYTES))
  }

  function Retained(r: Record): nat {
    |r.name| + |r.version| + |r.arch| + if r.last.Status? then |r.last.status| else 0
  }

  function TotalRetained(records: seq<Record>): nat {
    if records == [] then 0 else TotalRetained(records[..|records| - 1]) + Retained(records[|records| - 1])
  }

  /** Records are ordered by layer, where there is one, and name. */
  function Order(r: Record): seq<int> {
    (if r.last.Layer? then [r.last.layer] else []) + r.name
  }

  /** The records a backend reports fit the profile's record type. */
  predicate Typed(p: Profile, records: seq<Record>) {
    forall i | 0 <= i < |records| :: if p.Apk? then records[i].last.Layer? else records[i].last.Status?
  }

  predicate AllValid(p: Profile, records: seq<Record>) {
    forall i | 0 <= i < |records| :: ValidRecord(p, records[i])
  }

  predicate ValidObservation(o: Observation) {
    && |o.records| <= MAX_PACKAGE_RECORDS && AllValid(o.profile, o.records) && StrictlySortedBy(Order, o.records)
  }

  predicate SameOrder(records: seq<Record>, i: nat)
    requires i + 1 < |records|
  {
    Order(records[i]) == Order(records[i + 1])
  }

  lemma {:induction false} RetainedPrefix(records: seq<Record>, k: nat)
    requires k <= |records|
    ensures TotalRetained(records[..k]) <= TotalRetained(records)
    decreases |records|
  {
    if k < |records| {
      RetainedPrefix(records[..|records| - 1], k);
      assert records[..|records| - 1][..k] == records[..k];
    } else {
      assert records[..k] == records;
    }
  }

  lemma SortedStaysValid(p: Profile, records: seq<Record>)
    requires AllValid(p, records)
    ensures AllValid(p, SortBy(Order, records))
  {
    SortByCorrect(Order, records);
    var sorted := SortBy(Order, records);
    forall i | 0 <= i < |sorted| ensures ValidRecord(p, sorted[i]) {
      assert sorted[i] in multiset(sorted);
      assert sorted[i] in multiset(records);
      var j :| 0 <= j < |records| && records[j] == sorted[i];
    }
  }

  /** Every record valid, and all their text within the retained limit. */
  method CheckRecords(p: Profile, records: seq<Record>) returns (r: Option<PackageError>)
    ensures r.None? <==> AllValid(p, records) && TotalRetained(records) <= MAX_PACKAGE_RETAINED_BYTES
  {
    var retained, i := 0, 0;
    assert TotalRetained(records[..0]) == 0;
    hide ValidRecord;
    while i < |records|
      invariant 0 <= i <= |records| && retained == TotalRetained(records[..i]) <= MAX_PACKAGE_RETAINED_BYTES
      invariant forall k | 0 <= k < i :: ValidRecord(p, records[k])
    {
      RetainedPrefix(records, i + 1);
      assert records[..i + 1][..i] == records[..i];
      if !ValidRecord(p, records[i]) {
        return Some(InvalidRecords);
      }
      retained := retained + Retained(records[i]);
      if retained > MAX_PACKAGE_RETAINED_BYTES {
        return Some(TooLarge);
      }
      i := i + 1;
    }
    assert records[..i] == records;
    r := None;
  }

  /** Whether sorted neighbours share a place in the order. */
  method NeighboursDiffer(sorted: seq<Record>) returns (ok: bool)
    requires SortedBy(Order, sorted)
    ensures ok <==> StrictlySortedBy(Order, sorted)
  {
    DistinctNeighbours(Order, sorted);
    hide Order, SortedBy, StrictlySortedBy;
    var j: nat := 0;
    while j + 1 < |sorted|
      invariant forall k: nat | k < j && k + 1 < |sorted| :: !SameOrder(sorted, k)
    {
      if SameOrder(sorted, j) {
        return false;
      }
      j := j + 1;
    }
    forall k | 0 <= k < |sorted| - 1 ensures Order(sorted[k]) != Order(sorted[k + 1]) {
      assert !SameOrder(sorted, k);
    }
    ok := true;
  }

  /** Accepts exactly the complete observations: valid records, within both limits, no two with
      the same place in the order; and keeps them sorted. */
  method NewObservation(p: Profile, records: seq<Record>) returns (r: Result<Observation, PackageError>)
    requires Typed(p, records)
    ensures r.Ok? <==>
      && |records| <= MAX_PACKAGE_RECORDS && AllValid(p, records)
      && TotalRetained(records) <= MAX_PACKAGE_RETAINED_BYTES && DistinctKeys(Order, records)
    ensures r.Ok? ==>
      && r.value.profile == p && multiset(r.value.records) == multiset(records) && ValidObservation(r.value)
  {
    if |records| > MAX_PACKAGE_RECORDS {
      return Err(TooLarge);
    }
    var bad := CheckRecords(p, records);
    if bad.Some? {
      return Err(bad.value);
    }
    var sorted := SortBy(Order, records);
    SortByCorrect(Order, records);
    SortByStrict(Order, records);
    SortedStaysValid(p, records);
    hide Order, SortedBy, StrictlySortedBy, DistinctKeys, AllValid, TotalRetained;
    var ok := NeighboursDiffer(sorted);
    r := if ok then Ok(Observation(p, sorted)) else Err(InvalidRecords);
  }

  // ----- Cursors -----

  datatype Cursor = Cursor(nonce: Nonce, offset: nat)

  function Hex2(b: Byte): Bytes {
    [Hex(b / 16), Hex(b % 16)]
  }

  function HexAll(s: Bytes): (r: Bytes)
    ensures |r| == 2 * |s|
  {
    if s == [] then [] else HexAll(s[..|s| - 1]) + Hex2(s[|s| - 1])
  }

  function Encode(nonce: Nonce, offset: nat): Bytes {
    HexAll(nonce) + [DOT] + Digits(offset)
  }

  predicate HexDigit(b: Byte) {
    48 <= b <= 57 || 97 <= b <= 102
  }

  function HexValue(b: Byte): (n: nat)
    requires HexDigit(b)
    ensures n < 16 && Hex(n) == b
  {
    if b <= 57 then b - 48 else b - 87
  }

  lemma HexReads(n: nat)
    requires n < 16
    ensures HexDigit(Hex(n)) && HexValue(Hex(n)) == n
  {
  }

  /** Where the first dot is. */
  function DotAt(s: Bytes): (i: nat)
    ensures i <= |s| && DOT !in s[..i] && (i < |s| ==> s[i] == DOT)
  {
    if s == [] || s[0] == DOT then 0 else
      var i := 1 + DotAt(s[1..]);
      assert s[..i] == [s[0]] + s[1..][..i - 1];
      i
  }

  predicate ValidOffset(offset: nat) {
    0 < offset < MAX_PACKAGE_RECORDS && offset % PACKAGE_PAGE_RECORDS == 0
  }

  /** The cursors that exist: a non-zero nonce and the offset of a later page. */
  predicate ValidCursor(c: Cursor) {
    c.nonce != Zeros(16) && ValidOffset(c.offset)
  }

  method ParseNonce(hex: Bytes) returns (nonce: Nonce)
    requires |hex| == 32 && forall i | 0 <= i < 32 :: HexDigit(hex[i])
    ensures HexAll(nonce) == hex
  {
    var filled: Bytes := [];
    assert hex[..0] == [];
    while |filled| < 16
      invariant |filled| <= 16 && HexAll(filled) == hex[..2 * |filled|]
      decreases 16 - |filled|
    {
      var i := 2 * |filled|;
      var byte: Byte := HexValue(hex[i]) * 16 + HexValue(hex[i + 1]);
      assert (filled + [byte])[..|filled|] == filled;
      assert byte / 16 == HexValue(hex[i]) && byte % 16 == HexValue(hex[i + 1]);
      assert Hex2(byte) == [hex[i], hex[i + 1]];
      assert hex[..i + 2] == hex[..i] + [hex[i], hex[i + 1]];
      filled := filled + [byte];
    }
    assert hex[..32] == hex;
    nonce := filled;
  }

  /** Reads exactly the encodings of valid cursors. */
  method ParseCursor(value: Bytes) returns (r: Result<Cursor, PackageError>)
    ensures r.Ok? ==> ValidCursor(r.value) && Encode(r.value.nonce, r.value.offset) == value
    ensures r.Err? ==> forall c: Cursor | ValidCursor(c) :: Encode(c.nonce, c.offset) != value
  {
    hide Digits, HexAll;
    forall c: Cursor | ValidCursor(c) && Encode(c.nonce, c.offset) == value ensures ReadsAs(value, c) {
      EncodingReads(c);
    }
    if |value| > 37 {
      return Err(InvalidArguments);
    }
    var dot := DotAt(value);
    if dot == |value| {
      return Err(InvalidArguments);
    }
    var hex, rest := value[..dot], value[dot + 1..];
    if |hex| != 32 || exists i | 0 <= i < |hex| :: !HexDigit(hex[i]) {
      return Err(InvalidArguments);
    }
    var nonce := ParseNonce(hex);
    if rest == [] || !IsDigits(rest) {
      return Err(InvalidArguments);
    }
    var number := DecimalValue(rest);
    if nonce == Zeros(16) || !ValidOffset(number) || Digits(number) != rest {
      forall c: Cursor | ValidCursor(c) ensures Encode(c.nonce, c.offset) != value {
        if HexAll(c.nonce) == HexAll(nonce) {
          HexInjective(c.nonce, nonce);
        }
      }
      return Err(InvalidArguments);
    }
    assert value == hex + [DOT] + rest;
    r := Ok(Cursor(nonce, number));
  }

  /** What the parser finds in the encoding of a cursor. */
  ghost predicate ReadsAs(value: Bytes, c: Cursor) {
    && 33 <= |value| <= 37 && DotAt(value) == 32 && value[..32] == HexAll(c.nonce) && value[33..] == Digits(c.offset)
    && (forall i | 0 <= i < 32 :: HexDigit(value[i])) && IsDigits(value[33..]) && DecimalValue(value[33..]) == c.offset
  }

  lemma EncodingReads(c: Cursor)
    requires ValidCursor(c)
    ensures ReadsAs(Encode(c.nonce, c.offset), c)
  {
    var value := Encode(c.nonce, c.offset);
    HexAllDigits(c.nonce);
    DigitsRead(c.offset);
    DigitsShort(c.offset);
    hide HexAll, Digits;
    assert value[..32] == HexAll(c.nonce) && value[33..] == Digits(c.offset) && value[32] == DOT;
    forall k | 0 <= k < 32 ensures HexDigit(value[k]) && value[k] != DOT {
      assert value[k] == HexAll(c.nonce)[k];
    }
    DotIsFirst(value, 32);
  }

  /** Different valid cursors are encoded differently. */
  lemma EncodeInjective(a: Cursor, b: Cursor)
    requires ValidCursor(a) && ValidCursor(b) && Encode(a.nonce, a.offset) == Encode(b.nonce, b.offset)
    ensures a == b
  {
    EncodingReads(a);
    EncodingReads(b);
    hide Encode, HexAll, Digits;
    HexInjective(a.nonce, b.nonce);
  }

  lemma {:induction false} DotIsFirst(s: Bytes, k: nat)
    requires k < |s| && s[k] == DOT && forall i | 0 <= i < k :: s[i] != DOT
    ensures DotAt(s) == k
  {
    if k > 0 {
      DotIsFirst(s[1..], k - 1);
    }
  }

  lemma {:induction false} HexAllDigits(s: Bytes)
    ensures forall i | 0 <= i < 2 * |s| :: HexDigit(HexAll(s)[i])
  {
    if s != [] {
      HexAllDigits(s[..|s| - 1]);
      HexReads(s[|s| - 1] / 16);
      HexReads(s[|s| - 1] % 16);
    }
  }

  lemma {:induction false} HexInjective(a: Bytes, b: Bytes)
    requires |a| == |b| && HexAll(a) == HexAll(b)
    ensures a == b
    decreases |a|
  {
    if a != [] {
      var n := |a| - 1;
      var shown := HexAll(a);
      assert shown[..2 * n] == HexAll(a[..n]) && shown[..2 * n] == HexAll(b[..n]);
      HexInjective(a[..n], b[..n]);
      assert shown[2 * n] == Hex(a[n] / 16) == Hex(b[n] / 16) && shown[2 * n + 1] == Hex(a[n] % 16) == Hex(b[n] % 16);
      HexReads(a[n] / 16);
      HexReads(b[n] / 16);
      HexReads(a[n] % 16);
      HexReads(b[n] % 16);
      assert a == a[..n] + [a[n]] && b == b[..n] + [b[n]];
    }
  }

  lemma DigitsShort(n: nat)
    ensures n < 10_000 ==> |Digits(n)| <= 4
  {
    if n < 10_000 {
      assert n / 10 / 10 / 10 < 10;
      assert |Digits(n / 10 / 10 / 10)| == 1;
      assert |Digits(n / 10 / 10)| <= 2;
      assert |Digits(n / 10)| <= 3;
    }
  }

  // ----- Pages -----

  function Item(r: Record): Value {
    Obj([Field(Ascii("arch"), Str(r.arch))]
        + (if r.last.Layer? then [Field(Ascii("layer"), Num(Int(r.last.layer)))] else [])
        + [Field(Ascii("name"), Str(r.name))]
        + (if r.last.Status? then [Field(Ascii("status"), Str(r.last.status))] else [])
        + [Field(Ascii("version"), Str(r.version))])
  }

  function Items(records: seq<Record>): (r: seq<Value>)
    ensures |r| == |records|
  {
    seq(|records|, i requires 0 <= i < |records| => Item(records[i]))
  }

  function PageEnd(o: Observation, offset: nat): nat {
    Min(offset + PACKAGE_PAGE_RECORDS, |o.records|)
  }

  /** Offsets at which a page starts. */
  predicate PageStart(o: Observation, offset: nat) {
    offset % PACKAGE_PAGE_RECORDS == 0 && (offset == 0 || offset < |o.records|)
  }

  /** The cursor of the next page, if there is one. */
  function NextCursor(o: Observation, nonce: Nonce, offset: nat): seq<Field> {
    if PageEnd(o, offset) < |o.records|
    then [Field(Ascii("next_cursor"), Str(Encode(nonce, PageEnd(o, offset))))] else []
  }

  function ScopeName(p: Profile): string {
    if p.Apk? then "apk_query_installed_visible" else "opkg_root_status_file"
  }

  function SourceName(p: Profile): string {
    if p.Apk? then "apk_3_0_5" else "opkg_38eccbb1"
  }

  function Number(key: string, n: nat): seq<Field> {
    [Field(Ascii(key), Num(Int(n)))]
  }

  function Literal(key: string, text: string): seq<Field> {
    [Field(Ascii(key), Str(Ascii(text)))]
  }

  function PageItems(o: Observation, offset: nat): seq<Field>
    requires PageStart(o, offset)
  {
    [Field(Ascii("items"), Arr(Items(o.records[offset..PageEnd(o, offset)])))]
  }

  function Incomplete(): seq<Field> {
    [Field(Ascii("whole_device_complete"), Bool(false))]
  }

  function PageValue(o: Observation, nonce: Nonce, offset: nat): Value
    requires PageStart(o, offset)
  {
    Obj(Number("captured_count", |o.records|) + Literal("consistency", "non_atomic_observation")
        + PageItems(o, offset) + NextCursor(o, nonce, offset) + Number("offset", offset)
        + Literal("scope", ScopeName(o.profile)) + Literal("source", SourceName(o.profile)) + Incomplete())
  }

  // ----- Every page fits -----

  lemma {:induction false} EscapeBound(s: Bytes)
    ensures |EscapeAll(s)| <= 6 * |s|
  {
    if s != [] {
      EscapeBound(s[..|s| - 1]);
    }
  }

  /** Text without control characters at most doubles. */
  lemma {:induction false} TextBound(s: Bytes)
    requires forall i: nat | i < |s| :: s[i] >= 32
    ensures |EscapeAll(s)| <= 2 * |s|
  {
    if s != [] {
      TextBound(s[..|s| - 1]);
    }
  }

  /** Printed length and depth of a list of members. */
  ghost predicate Within(fields: seq<Field>, bound: nat, height: nat) {
    |PrintFields(fields)| + 1 <= bound && DepthFields(fields) <= height
  }

  lemma {:induction false} JoinPrints(a: seq<Field>, b: seq<Field>)
    ensures |PrintFields(a + b)| <= |PrintFields(a)| + |PrintFields(b)| + 1
    ensures DepthFields(a + b) <= if DepthFields(a) > DepthFields(b) then DepthFields(a) else DepthFields(b)
    decreases |b|
  {
    EmptyFields();
    hide PrintFields, DepthFields, PrintText, Print, Depth, Nodes, NodesFields;
    if b == [] {
      assert a + b == a;
    } else {
      var n, whole := |b| - 1, a + b;
      var before := a + b[..n];
      assert whole[..|a| + n] == before && whole[|a| + n] == b[n];
      assert b[..n + 1] == b && whole[..|a| + n + 1] == whole;
      FieldsStep(b, n);
      FieldsStep(whole, |a| + n);
      JoinPrints(a, b[..n]);
      if n == 0 {
        assert b[..n] == [] && before == a;
      }
    }
  }

  lemma WithinJoin(a: seq<Field>, b: seq<Field>, x: nat, y: nat, height: nat)
    requires Within(a, x, height) && Within(b, y, height)
    ensures Within(a + b, x + y, height)
  {
    JoinPrints(a, b);
  }

  lemma EmptyFields()
    ensures PrintFields([]) == [] && DepthFields([]) == 0
  {
  }

  lemma OneField(key: Bytes, v: Value)
    ensures |PrintFields([Field(key, v)])| == |PrintText(key)| + 1 + |Print(v)|
    ensures DepthFields([Field(key, v)]) == 1 + Depth(v)
  {
    EmptyFields();
    FieldsStep([Field(key, v)], 0);
    assert [Field(key, v)][..0] == [] && [Field(key, v)][..1] == [Field(key, v)];
  }

  lemma TextField(key: Bytes, text: Bytes, maximum: nat)
    requires |key| <= 21 && |text| <= maximum && forall i: nat | i < |text| :: text[i] >= 32
    ensures Within([Field(key, Str(text))], 132 + 2 * maximum, 1)
  {
    OneField(key, Str(text));
    EscapeBound(key);
    TextBound(text);
  }

  lemma NumberField(key: Bytes, n: nat)
    requires |key| <= 21 && n < 10_000
    ensures Within([Field(key, Num(Int(n)))], 134, 1)
  {
    OneField(key, Num(Int(n)));
    EscapeBound(key);
    DigitsShort(n);
  }

  lemma {:induction false} ItemsBound(items: seq<Value>, height: nat)
    requires forall i | 0 <= i < |items| :: |Print(items[i])| <= 2500 && Depth(items[i]) <= height
    ensures |PrintItems(items)| <= 2501 * |items| && DepthItems(items) <= height + 1
    decreases |items|
  {
    if items != [] {
      var n := |items| - 1;
      ItemsBound(items[..n], height);
      ItemsStep(items, n);
      assert items[..n + 1] == items;
      hide Print, Depth, PrintItems, DepthItems;
    }
  }

  lemma ValidTextIsPlain(s: Bytes, maximum: nat)
    requires ValidText(s, maximum)
    ensures forall i: nat | i < |s| :: s[i] >= 32
  {
    forall i: nat | i < |s| ensures s[i] >= 32 {
      assert !Control(s, i);
    }
  }

  lemma ValidTextField(key: Bytes, text: Bytes, maximum: nat)
    requires |key| <= 21 && ValidText(text, maximum)
    ensures Within([Field(key, Str(text))], 132 + 2 * maximum, 1)
  {
    ValidTextIsPlain(text, maximum);
    TextField(key, text, maximum);
  }

  lemma ObjectSize(fields: seq<Field>)
    ensures |Print(Obj(fields))| == 2 + |PrintFields(fields)| && Depth(Obj(fields)) == DepthFields(fields)
  {
  }

  lemma ItemBound(p: Profile, r: Record)
    requires ValidRecord(p, r)
    ensures |Print(Item(r))| <= 2500 && Depth(Item(r)) <= 1
  {
    var arch, name, version := [Field(Ascii("arch"), Str(r.arch))], [Field(Ascii("name"), Str(r.name))],
      [Field(Ascii("version"), Str(r.version))];
    var layer := if r.last.Layer? then [Field(Ascii("layer"), Num(Int(r.last.layer)))] else [];
    var status := if r.last.Status? then [Field(Ascii("status"), Str(r.last.status))] else [];
    ValidTextField(Ascii("arch"), r.arch, 64);
    ValidTextField(Ascii("name"), r.name, 256);
    ValidTextField(Ascii("version"), r.version, 256);
    EmptyFields();
    if r.last.Layer? {
      NumberField(Ascii("layer"), r.last.layer);
    } else {
      ValidTextField(Ascii("status"), r.last.status, MAX_OPKG_STATUS_BYTES);
    }
    assert Within(layer, 134, 1) && Within(status, 388, 1);
    hide Print, PrintText, Depth, ValidText, Ascii, PrintFields, DepthFields;
    WithinJoin(arch, layer, 260, 134, 1);
    WithinJoin(arch + layer, name, 394, 644, 1);
    WithinJoin(arch + layer + name, status, 1038, 388, 1);
    WithinJoin(arch + layer + name + status, version, 1426, 644, 1);
    ObjectSize(arch + layer + name + status + version);
  }

  lemma ItemsFit(o: Observation, offset: nat)
    requires ValidObservation(o) && PageStart(o, offset)
    ensures Within(PageItems(o, offset), 41_000, 3)
  {
    var items := Items(o.records[offset..PageEnd(o, offset)]);
    forall i | 0 <= i < |items| ensures |Print(items[i])| <= 2500 && Depth(items[i]) <= 1 {
      assert ValidRecord(o.profile, o.records[offset + i]);
      ItemBound(o.profile, o.records[offset + i]);
    }
    ItemsBound(items, 1);
    EscapeBound(Ascii("items"));
    OneField(Ascii("items"), Arr(items));
    assert |Print(Arr(items))| == 2 + |PrintItems(items)| && Depth(Arr(items)) == DepthItems(items);
  }

  lemma PlainLiteral(s: string)
    requires forall i | 0 <= i < |s| :: ' ' <= s[i] <= '~'
    ensures forall i: nat | i < |Ascii(s)| :: Ascii(s)[i] >= 32
  {
  }

  lemma LiteralField(key: string, text: string)
    requires |key| <= 21 && |text| <= 37 && forall i | 0 <= i < |text| :: ' ' <= text[i] <= '~'
    ensures Within(Literal(key, text), 206, 1)
  {
    PlainLiteral(text);
    TextField(Ascii(key), Ascii(text), 37);
  }

  lemma CursorText(nonce: Nonce, offset: nat)
    requires offset < 10_000
    ensures |Encode(nonce, offset)| <= 37 && forall i: nat | i < |Encode(nonce, offset)| :: Encode(nonce, offset)[i] >= 32
  {
    HexAllDigits(nonce);
    DigitsShort(offset);
    hide HexAll, Digits;
  }

  lemma NextFits(o: Observation, nonce: Nonce, offset: nat)
    requires ValidObservation(o)
    ensures Within(NextCursor(o, nonce, offset), 206, 1)
  {
    EmptyFields();
    if PageEnd(o, offset) < |o.records| {
      CursorText(nonce, PageEnd(o, offset));
      TextField(Ascii("next_cursor"), Encode(nonce, PageEnd(o, offset)), 37);
    }
  }

  lemma WithinMore(fields: seq<Field>, bound: nat, height: nat)
    requires Within(fields, bound, 1) && height >= 1
    ensures Within(fields, bound, height)
  {
  }

  /** No page of a valid observation can exceed the ceiling. */
  lemma PageFits(o: Observation, nonce: Nonce, offset: nat)
    requires ValidObservation(o) && PageStart(o, offset)
    ensures |Print(PageValue(o, nonce, offset))| <= MAX_NORMALIZED_BYTES && Depth(PageValue(o, nonce, offset)) <= 3
  {
    var count, consistency := Number("captured_count", |o.records|), Literal("consistency", "non_atomic_observation");
    var items, next, at := PageItems(o, offset), NextCursor(o, nonce, offset), Number("offset", offset);
    var scope, source := Literal("scope", ScopeName(o.profile)), Literal("source", SourceName(o.profile));
    ItemsFit(o, offset);
    NextFits(o, nonce, offset);
    NumberField(Ascii("captured_count"), |o.records|);
    NumberField(Ascii("offset"), offset);
    LiteralsFit(o.profile);
    hide Within, Number, Literal, PageItems, NextCursor, Incomplete, ScopeName, SourceName, Ascii, Print, Depth;
    WithinMore(count, 134, 3);
    WithinMore(consistency, 206, 3);
    WithinMore(next, 206, 3);
    WithinMore(at, 134, 3);
    WithinMore(scope, 206, 3);
    WithinMore(source, 206, 3);
    WithinMore(Incomplete(), 206, 3);
    WithinJoin(count, consistency, 134, 206, 3);
    WithinJoin(count + consistency, items, 340, 41_000, 3);
    WithinJoin(count + consistency + items, next, 41_340, 206, 3);
    WithinJoin(count + consistency + items + next, at, 41_546, 134, 3);
    WithinJoin(count + consistency + items + next + at, scope, 41_680, 206, 3);
    WithinJoin(count + consistency + items + next + at + scope, source, 41_886, 206, 3);
    WithinJoin(count + consistency + items + next + at + scope + source, Incomplete(), 42_092, 206, 3);
    WithinObject(count + consistency + items + next + at + scope + source + Incomplete());
  }

  lemma WithinObject(fields: seq<Field>)
    requires Within(fields, 42_298, 3)
    ensures |Print(Obj(fields))| <= MAX_NORMALIZED_BYTES && Depth(Obj(fields)) <= 3
  {
    ObjectSize(fields);
  }

  lemma ScopeFits(p: Profile)
    ensures Within(Literal("scope", ScopeName(p)), 206, 1)
  {
    hide Literal, Within;
    if p.Apk? {
      LiteralField("scope", "apk_query_installed_visible");
    } else {
      LiteralField("scope", "opkg_root_status_file");
    }
  }

  lemma SourceFits(p: Profile)
    ensures Within(Literal("source", SourceName(p)), 206, 1)
  {
    hide Literal, Within;
    if p.Apk? {
      LiteralField("source", "apk_3_0_5");
    } else {
      LiteralField("source", "opkg_38eccbb1");
    }
  }

  lemma IncompleteFits()
    ensures Within(Incomplete(), 206, 1)
  {
    OneField(Ascii("whole_device_complete"), Bool(false));
    EscapeBound(Ascii("whole_device_complete"));
  }

  lemma LiteralsFit(p: Profile)
    ensures Within(Literal("consistency", "non_atomic_observation"), 206, 1)
    ensures Within(Literal("scope", ScopeName(p)), 206, 1) && Within(Literal("source", SourceName(p)), 206, 1)
    ensures Within(Incomplete(), 206, 1)
  {
    ScopeFits(p);
    SourceFits(p);
    IncompleteFits();
    hide Literal, Within, ScopeName, SourceName, Incomplete;
    LiteralField("consistency", "non_atomic_observation");
  }

  /** One page, or an error exactly when the nonce is zero or no page starts at the offset. */
  method Page(o: Observation, nonce: Nonce, offset: nat) returns (r: Result<Value, PackageError>)
    requires ValidObservation(o)
    ensures r.Ok? <==> nonce != Zeros(16) && PageStart(o, offset)
    ensures r.Ok? ==> r.value == PageValue(o, nonce, offset)
  {
    if nonce == Zeros(16) || offset % PACKAGE_PAGE_RECORDS != 0 || (offset != 0 && offset >= |o.records|) {
      return Err(InvalidArguments);
    }
    PageFits(o, nonce, offset);
    hide PageValue, ValidObservation;
    var value := PageValue(o, nonce, offset);
    var ok := CheckNormalizedResult(value);
    r := if ok then Ok(value) else Err(TooLarge);
  }

  // ----- Following the cursors -----

  /** The member of an object with this key. */
  function MemberOf(fields: seq<Field>, key: Bytes): Option<Value> {
    if fields == [] then None
    else if fields[0].key == key then Some(fields[0].value)
    else MemberOf(fields[1..], key)
  }

  /** The items a page shows, and the cursor printed on it. */
  function ShownItems(page: Value): seq<Value> {
    var items := if page.Obj? then MemberOf(page.fields, Ascii("items")) else None;
    if items.Some? && items.value.Arr? then items.value.items else []
  }

  function ShownCursor(page: Value): Option<Bytes> {
    var cursor := if page.Obj? then MemberOf(page.fields, Ascii("next_cursor")) else None;
    if cursor.Some? && cursor.value.Str? then Some(cursor.value.text) else None
  }

  lemma {:induction false} MemberJoins(a: seq<Field>, b: seq<Field>, key: Bytes)
    ensures MemberOf(a + b, key) == if MemberOf(a, key).Some? then MemberOf(a, key) else MemberOf(b, key)
    decreases |a|
  {
    if a == [] {
      assert a + b == b;
    } else {
      assert (a + b)[0] == a[0] && (a + b)[1..] == a[1..] + b;
      MemberJoins(a[1..], b, key);
    }
  }

  lemma MemberAlone(f: Field, key: Bytes)
    ensures MemberOf([f], key) == if f.key == key then Some(f.value) else None
  {
    assert [f][1..] == [];
  }

  lemma KeysDiffer()
    ensures Ascii("captured_count") != Ascii("items") && Ascii("captured_count") != Ascii("next_cursor")
    ensures Ascii("consistency") != Ascii("items") && Ascii("consistency") != Ascii("next_cursor")
    ensures Ascii("items") != Ascii("next_cursor") && Ascii("offset") != Ascii("next_cursor")
    ensures Ascii("scope") != Ascii("next_cursor") && Ascii("source") != Ascii("next_cursor")
    ensures Ascii("whole_device_complete") != Ascii("next_cursor")
  {
    assert Ascii("consistency")[0] != Ascii("next_cursor")[0];
  }

  /** What a reader of a page finds on it: its records in order, and, unless it is the last
      page, the cursor of the next one. */
  lemma PageShows(o: Observation, nonce: Nonce, offset: nat)
    requires PageStart(o, offset)
    ensures
      var page := PageValue(o, nonce, offset);
      && ShownItems(page) == Items(o.records[offset..PageEnd(o, offset)])
      && ShownCursor(page) == if PageEnd(o, offset) < |o.records| then Some(Encode(nonce, PageEnd(o, offset))) else None
  {
    KeysDiffer();
    var next, rest := NextCursor(o, nonce, offset), AfterCursor(o, offset);
    var count, words := Number("captured_count", |o.records|), Literal("consistency", "non_atomic_observation");
    var items := PageItems(o, offset);
    assert PageValue(o, nonce, offset) == Obj(count + (words + (items + (next + rest))));
    MemberAlone(count[0], Ascii("items"));
    MemberAlone(count[0], Ascii("next_cursor"));
    MemberAlone(words[0], Ascii("items"));
    MemberAlone(words[0], Ascii("next_cursor"));
    MemberAlone(items[0], Ascii("items"));
    MemberAlone(items[0], Ascii("next_cursor"));
    NoCursorAfter(o, offset);
    if next != [] {
      MemberAlone(next[0], Ascii("next_cursor"));
    }
    hide MemberOf, Ascii, Items, Encode, AfterCursor;
    forall key | key in {Ascii("items"), Ascii("next_cursor")}
      ensures MemberOf(count + (words + (items + (next + rest))), key) == MemberOf(items + (next + rest), key)
    {
      MemberJoins(count, words + (items + (next + rest)), key);
      MemberJoins(words, items + (next + rest), key);
    }
    MemberJoins(items, next + rest, Ascii("items"));
    MemberJoins(items, next + rest, Ascii("next_cursor"));
    MemberJoins(next, rest, Ascii("next_cursor"));
    NothingThere(Ascii("next_cursor"));
  }

  lemma NothingThere(key: Bytes)
    ensures MemberOf([], key) == None
  {
  }

  function AfterCursor(o: Observation, offset: nat): seq<Field> {
    Number("offset", offset) + Literal("scope", ScopeName(o.profile)) + Literal("source", SourceName(o.profile))
    + Incomplete()
  }

  lemma NoCursorAfter(o: Observation, offset: nat)
    ensures MemberOf(AfterCursor(o, offset), Ascii("next_cursor")) == None
  {
    KeysDiffer();
    var key := Ascii("next_cursor");
    var at, scope, source, end := Number("offset", offset), Literal("scope", ScopeName(o.profile)),
                                  Literal("source", SourceName(o.profile)), Incomplete();
    MemberAlone(at[0], key);
    MemberAlone(scope[0], key);
    MemberAlone(source[0], key);
    MemberAlone(end[0], key);
    hide MemberOf, Ascii;
    MemberJoins(at, scope, key);
    MemberJoins(at + scope, source, key);
    MemberJoins(at + scope + source, end, key);
  }

  /** The cursor on a page names the start of the next page, which is a page. */
  lemma CursorLeadsOn(o: Observation, nonce: Nonce, offset: nat)
    requires ValidObservation(o) && PageStart(o, offset) && nonce != Zeros(16) && PageEnd(o, offset) < |o.records|
    ensures offset < PageEnd(o, offset) && PageStart(o, PageEnd(o, offset)) && ValidCursor(Cursor(nonce, PageEnd(o, offset)))
    ensures ShownCursor(PageValue(o, nonce, offset)) == Some(Encode(nonce, PageEnd(o, offset)))
  {
    PageShows(o, nonce, offset);
  }

  /** A client that reads the cursor off every page and asks for the page it names sees every
      record once, in order, on as many pages as the records fill, and is done. */
  method FollowCursors(o: Observation, nonce: Nonce) returns (items: seq<Value>, pages: nat)
    requires ValidObservation(o) && nonce != Zeros(16)
    ensures items == Items(o.records)
    ensures pages == if o.records == [] then 1 else (|o.records| + PACKAGE_PAGE_RECORDS - 1) / PACKAGE_PAGE_RECORDS
  {
    hide PageValue, ShownItems, ShownCursor, Items, ValidCursor, Encode, ValidObservation;
    var offset := 0;
    items, pages := [], 0;
    ItemsJoin(o.records, 0, 0);
    while true
      invariant PageStart(o, offset) && offset <= |o.records| && items == Items(o.records[..offset])
      invariant offset == pages * PACKAGE_PAGE_RECORDS
      decreases |o.records| - offset
    {
      var page := Page(o, nonce, offset);
      PageShows(o, nonce, offset);
      ItemsJoin(o.records, offset, PageEnd(o, offset));
      items := items + ShownItems(page.value);
      pages := pages + 1;
      var text := ShownCursor(page.value);
      if text.None? {
        assert o.records[..PageEnd(o, offset)] == o.records;
        return;
      }
      CursorLeadsOn(o, nonce, offset);
      var cursor := ParseCursor(text.value);
      EncodeInjective(cursor.value, Cursor(nonce, PageEnd(o, offset)));
      offset := cursor.value.offset;
    }
  }

  lemma ItemsJoin(records: seq<Record>, from: nat, to: nat)
    requires from <= to <= |records|
    ensures Items(records[..from]) + Items(records[from..to]) == Items(records[..to])
    ensures Items(records[..0]) == []
  {
    hide Item;
  }
}
