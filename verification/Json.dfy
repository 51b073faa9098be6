/** JSON values, their printed form, and the budget that counts printed bytes before
    anything is built. */
module Json {
  import opened Common

  const MAX_NORMALIZED_BYTES := 65536
  const MAX_VALUE_DEPTH := 32
  const MAX_VALUE_NODES := 65536
  const MAX_COLLECTION_ITEMS := 256

  datatype CoreError = InvalidOutput | InvalidDefinition | OutputLimit | SelectionNotObserved

  /** Integers keep their value; any other number keeps the text it is printed as. */
  datatype Number = Int(n: int) | Float(text: Bytes)

  /** Text is UTF-8; object members are kept as a list with their keys. */
  datatype Value =
    | Null
    | Bool(b: bool)
    | Num(number: Number)
    | Str(text: Bytes)
    | Arr(items: seq<Value>)
    | Obj(fields: seq<Field>)

  datatype Field = Field(key: Bytes, value: Value)

  // ----- Printing -----

  const QUOTE: Byte := 34
  const BACKSLASH: Byte := 92
  const COMMA: Byte := 44
  const COLON: Byte := 58

  function Hex(n: nat): Byte
    requires n < 16
  {
    if n < 10 then (48 + n) as Byte else (87 + n) as Byte
  }

  /** One byte of text as it is printed inside quotes. */
  function Escape(b: Byte): (r: Bytes)
    ensures 1 <= |r| <= 6
  {
    if b == QUOTE then [BACKSLASH, QUOTE]
    else if b == BACKSLASH then [BACKSLASH, BACKSLASH]
    else if b == 8 then [BACKSLASH, 98]
    else if b == 9 then [BACKSLASH, 116]
    else if b == 10 then [BACKSLASH, 110]
    else if b == 12 then [BACKSLASH, 102]
    else if b == 13 then [BACKSLASH, 114]
    else if b < 32 then [BACKSLASH, 117, 48, 48, Hex(b / 16), Hex(b % 16)]
    else [b]
  }

  function EscapeAll(s: Bytes): (r: Bytes)
    ensures |r| >= |s|
  {
    if s == [] then [] else EscapeAll(s[..|s| - 1]) + Escape(s[|s| - 1])
  }

  function PrintText(s: Bytes): (r: Bytes)
    ensures |r| >= |s| + 2
  {
    [QUOTE] + EscapeAll(s) + [QUOTE]
  }

  function Digits(n: nat): (r: Bytes)
    ensures |r| >= 1
    ensures forall i | 0 <= i < |r| :: 48 <= r[i] <= 57
  {
    if n < 10 then [(48 + n) as Byte] else Digits(n / 10) + [(48 + n % 10) as Byte]
  }

  predicate IsDigits(s: Bytes) {
    forall i | 0 <= i < |s| :: 48 <= s[i] <= 57
  }

  function DecimalValue(s: Bytes): nat
    requires IsDigits(s)
  {
    if s == [] then 0 else DecimalValue(s[..|s| - 1]) * 10 + (s[|s| - 1] as int - 48)
  }

  /** A printed number reads back as itself. */
  lemma {:induction false} DigitsRead(n: nat)
    ensures DecimalValue(Digits(n)) == n
  {
    if n >= 10 {
      var shown := Digits(n);
      assert shown[..|shown| - 1] == Digits(n / 10);
      DigitsRead(n / 10);
    } else {
      assert DecimalValue([]) == 0 && Digits(n)[..0] == [];
    }
  }

  /** Text given as an ASCII literal. */
  function Ascii(s: string): (r: Bytes)
    ensures |r| == |s|
  {
    seq(|s|, i requires 0 <= i < |s| => (s[i] as int % 128) as Byte)
  }

  function PrintInt(n: int): (r: Bytes)
    ensures |r| >= 1
  {
    if n < 0 then [45] + Digits(-n) else Digits(n)
  }

  function PrintNumber(n: Number): (r: Bytes)
    ensures |r| >= 1
  {
    match n
    case Int(i) => PrintInt(i)
    case Float(text) => if text == [] then [48] else text
  }

  function PrintBool(b: bool): Bytes {
    if b then [116, 114, 117, 101] else [102, 97, 108, 115, 101]
  }

  function Separator(previous: bool): Bytes {
    if previous then [COMMA] else []
  }

  /** The compact serialization. */
  function Print(v: Value): (r: Bytes)
    ensures |r| >= 1
    decreases v, 0
  {
    match v
    case Null => [110, 117, 108, 108]
    case Bool(b) => PrintBool(b)
    case Num(n) => PrintNumber(n)
    case Str(s) => PrintText(s)
    case Arr(items) => [91] + PrintItems(items) + [93]
    case Obj(fields) => [123] + PrintFields(fields) + [125]
  }

  function PrintItems(items: seq<Value>): Bytes
    decreases items, 1
  {
    if items == [] then []
    else
      var n := |items| - 1;
      PrintItems(items[..n]) + Separator(n > 0) + Print(items[n])
  }

  function PrintFields(fields: seq<Field>): Bytes
    decreases fields, 1
  {
    if fields == [] then []
    else
      var n := |fields| - 1;
      PrintFields(fields[..n]) + Separator(n > 0) + PrintText(fields[n].key) + [COLON] + Print(fields[n].value)
  }

  lemma PrintItemsAppend(items: seq<Value>, v: Value)
    ensures |PrintItems(items + [v])| == |PrintItems(items)| + (if items == [] then 0 else 1) + |Print(v)|
  {
    assert (items + [v])[..|items|] == items;
  }

  lemma PrintFieldsAppend(fields: seq<Field>, f: Field)
    ensures |PrintFields(fields + [f])| ==
            |PrintFields(fields)| + KeyCost(f.key, fields != []) + |Print(f.value)|
  {
    assert (fields + [f])[..|fields|] == fields;
  }

  lemma {:induction false} PrintItemsPrefix(items: seq<Value>, k: nat)
    requires k <= |items|
    ensures |PrintItems(items[..k])| <= |PrintItems(items)|
    decreases |items|
  {
    if k < |items| {
      PrintItemsPrefix(items[..|items| - 1], k);
      assert items[..|items| - 1][..k] == items[..k];
    } else {
      assert items[..k] == items;
    }
  }

  lemma {:induction false} PrintFieldsPrefix(fields: seq<Field>, k: nat)
    requires k <= |fields|
    ensures |PrintFields(fields[..k])| <= |PrintFields(fields)|
    decreases |fields|
  {
    if k < |fields| {
      PrintFieldsPrefix(fields[..|fields| - 1], k);
      assert fields[..|fields| - 1][..k] == fields[..k];
    } else {
      assert fields[..k] == fields;
    }
  }

  /** Printed bytes of a key with its colon and the comma before it. */
  function KeyCost(key: Bytes, previous: bool): nat {
    |PrintText(key)| + 1 + if previous then 1 else 0
  }

  // ----- The budget -----

  class Budget {
    var bytes: nat
    var scanned: nat
    var emitted: nat
    var nodes: nat

    ghost predicate Valid()
      reads this
    {
      bytes <= MAX_NORMALIZED_BYTES && emitted <= scanned <= MAX_COLLECTION_ITEMS
    }

    constructor ()
      ensures Valid() && bytes == 0 && scanned == 0 && emitted == 0 && nodes == 0
    {
      bytes, scanned, emitted, nodes := 0, 0, 0, 0;
    }

    method Charge(count: nat) returns (ok: bool)
      modifies this`bytes
      ensures bytes == old(bytes) + count
      ensures ok <==> bytes <= MAX_NORMALIZED_BYTES
    {
      bytes := bytes + count;
      ok := bytes <= MAX_NORMALIZED_BYTES;
    }

    method Scan(count: nat, max: nat) returns (ok: bool)
      requires scanned <= MAX_COLLECTION_ITEMS
      modifies this`scanned
      ensures ok <==> count <= max && old(scanned) + count <= MAX_COLLECTION_ITEMS
      ensures ok ==> scanned == old(scanned) + count
    {
      if count > max {
        return false;
      }
      scanned := scanned + count;
      ok := scanned <= MAX_COLLECTION_ITEMS;
    }

    method Emit() returns (ok: bool)
      modifies this`emitted
      ensures emitted == old(emitted) + 1
      ensures ok <==> emitted <= MAX_COLLECTION_ITEMS
    {
      emitted := emitted + 1;
      ok := emitted <= MAX_COLLECTION_ITEMS;
    }

    method Node(depth: nat) returns (ok: bool)
      modifies this`nodes
      ensures nodes == old(nodes) + 1
      ensures ok <==> depth <= MAX_VALUE_DEPTH && nodes <= MAX_VALUE_NODES
    {
      nodes := nodes + 1;
      ok := depth <= MAX_VALUE_DEPTH && nodes <= MAX_VALUE_NODES;
    }

    /** Charges text by its printed length, without printing it. */
    method Text(value: Bytes) returns (ok: bool)
      modifies this`bytes
      ensures ok <==> old(bytes) + |PrintText(value)| <= MAX_NORMALIZED_BYTES
      ensures ok ==> bytes == old(bytes) + |PrintText(value)|
    {
      assert |PrintText(value)| == 2 + |EscapeAll(value)| >= 2 + |value|;
      if |value| > MAX_NORMALIZED_BYTES {
        return false;
      }
      var count, i := 2, 0;
      assert value[..0] == [];
      hide EscapeAll;
      while i < |value|
        invariant 0 <= i <= |value| && count == 2 + |EscapeAll(value[..i])| && bytes == old(bytes)
        invariant count <= MAX_NORMALIZED_BYTES || i == 0
      {
        EscapeStep(value, i);
        var byte := value[i];
        count := count + (if byte == QUOTE || byte == BACKSLASH || byte == 8 || byte == 9 || byte == 10
                             || byte == 12 || byte == 13 then 2
                          else if byte < 32 then 6 else 1);
        if count > MAX_NORMALIZED_BYTES {
          EscapeAllPrefix(value, i + 1);
          return false;
        }
        i := i + 1;
      }
      assert value[..i] == value;
      assert count == |PrintText(value)|;
      ok := Charge(count);
    }

    method Key(value: Bytes, previous: bool) returns (ok: bool)
      modifies this`bytes
      ensures
        var total := old(bytes) + KeyCost(value, previous);
        (ok <==> total <= MAX_NORMALIZED_BYTES) && (ok ==> bytes == total)
    {
      ok := Text(value);
      if ok {
        ok := Charge(1 + if previous then 1 else 0);
      }
    }

    method Scalar(value: Value) returns (ok: bool)
      requires !value.Arr? && !value.Obj?
      modifies this`bytes
      ensures
        var total := old(bytes) + |Print(value)|;
        (ok <==> total <= MAX_NORMALIZED_BYTES) && (ok ==> bytes == total)
    {
      match value
      case Null => ok := Charge(4);
      case Bool(b) => ok := Charge(if b then 4 else 5);
      case Num(n) => ok := Charge(|PrintNumber(n)|);
      case Str(s) => ok := Text(s);
      case _ => ok := false;
    }
  }

  lemma EscapeStep(s: Bytes, i: nat)
    requires i < |s|
    ensures |EscapeAll(s[..i + 1])| == |EscapeAll(s[..i])| + |Escape(s[i])|
  {
    assert s[..i + 1][..i] == s[..i];
  }

  lemma {:induction false} EscapeAllPrefix(s: Bytes, k: nat)
    requires k <= |s|
    ensures |EscapeAll(s[..k])| <= |EscapeAll(s)|
    decreases |s|
  {
    if k < |s| {
      EscapeAllPrefix(s[..|s| - 1], k);
      assert s[..|s| - 1][..k] == s[..k];
    } else {
      assert s[..k] == s;
    }
  }

  // ----- The final size check -----

  function Depth(v: Value): nat
    decreases v, 0
  {
    match v
    case Arr(items) => DepthItems(items)
    case Obj(fields) => DepthFields(fields)
    case _ => 0
  }

  function DepthItems(items: seq<Value>): nat
    decreases items, 1
  {
    if items == [] then 0
    else
      var n := |items| - 1;
      var rest, last := DepthItems(items[..n]), 1 + Depth(items[n]);
      if rest > last then rest else last
  }

  function DepthFields(fields: seq<Field>): nat
    decreases fields, 1
  {
    if fields == [] then 0
    else
      var n := |fields| - 1;
      var rest, last := DepthFields(fields[..n]), 1 + Depth(fields[n].value);
      if rest > last then rest else last
  }

  function Nodes(v: Value): (n: nat)
    ensures 1 <= n <= |Print(v)|
    decreases v, 0
  {
    match v
    case Arr(items) => 1 + NodesItems(items)
    case Obj(fields) => 1 + NodesFields(fields)
    case _ => 1
  }

  function NodesItems(items: seq<Value>): (n: nat)
    ensures n <= |PrintItems(items)|
    decreases items, 1
  {
    if items == [] then 0 else NodesItems(items[..|items| - 1]) + Nodes(items[|items| - 1])
  }

  function NodesFields(fields: seq<Field>): (n: nat)
    ensures n <= |PrintFields(fields)|
    decreases fields, 1
  {
    if fields == [] then 0 else NodesFields(fields[..|fields| - 1]) + Nodes(fields[|fields| - 1].value)
  }

  lemma {:induction false} DepthItemsPrefix(items: seq<Value>, k: nat)
    requires k <= |items|
    ensures DepthItems(items[..k]) <= DepthItems(items)
    decreases |items|
  {
    if k < |items| {
      DepthItemsPrefix(items[..|items| - 1], k);
      assert items[..|items| - 1][..k] == items[..k];
    } else {
      assert items[..k] == items;
    }
  }

  lemma {:induction false} DepthFieldsPrefix(fields: seq<Field>, k: nat)
    requires k <= |fields|
    ensures DepthFields(fields[..k]) <= DepthFields(fields)
    decreases |fields|
  {
    if k < |fields| {
      DepthFieldsPrefix(fields[..|fields| - 1], k);
      assert fields[..|fields| - 1][..k] == fields[..k];
    } else {
      assert fields[..k] == fields;
    }
  }

  lemma ItemsStep(items: seq<Value>, i: nat)
    requires i < |items|
    ensures |PrintItems(items[..i + 1])| == |PrintItems(items[..i])| + (if i == 0 then 0 else 1) + |Print(items[i])|
    ensures
      var rest, last := DepthItems(items[..i]), 1 + Depth(items[i]);
      DepthItems(items[..i + 1]) == if rest > last then rest else last
    ensures NodesItems(items[..i + 1]) == NodesItems(items[..i]) + Nodes(items[i])
  {
    assert items[..i + 1][..i] == items[..i];
  }

  lemma FieldsStep(fields: seq<Field>, i: nat)
    requires i < |fields|
    ensures |PrintFields(fields[..i + 1])| ==
            |PrintFields(fields[..i])| + KeyCost(fields[i].key, i != 0) + |Print(fields[i].value)|
    ensures
      var rest, last := DepthFields(fields[..i]), 1 + Depth(fields[i].value);
      DepthFields(fields[..i + 1]) == if rest > last then rest else last
    ensures NodesFields(fields[..i + 1]) == NodesFields(fields[..i]) + Nodes(fields[i].value)
  {
    hide PrintText, Escape, Depth;
    var some := fields[..i + 1];
    assert some[..i] == fields[..i] && some[i] == fields[i] && |some| == i + 1;
  }

  /** Fits what is left of the byte limit and of the depth limit. */
  ghost predicate Fits(bytes: nat, size: nat, depth: nat, height: nat) {
    bytes + size <= MAX_NORMALIZED_BYTES && depth + height <= MAX_VALUE_DEPTH
  }

  /** Walks a value, counting nodes and printed bytes. The node limit never decides. */
  method Visit(v: Value, depth: nat, budget: Budget) returns (ok: bool)
    requires budget.nodes <= budget.bytes <= MAX_NORMALIZED_BYTES && depth <= MAX_VALUE_DEPTH + 1
    modifies budget
    ensures ok <==> Fits(old(budget.bytes), |Print(v)|, depth, Depth(v))
    ensures ok ==> budget.bytes == old(budget.bytes) + |Print(v)|
    ensures ok ==> budget.nodes == old(budget.nodes) + Nodes(v)
    decreases v, 0
  {
    ok := budget.Node(depth);
    if !ok {
      return;
    }
    match v
    case Arr(items) =>
      ok := budget.Charge(2);
      if ok {
        ok := VisitItems(items, depth, budget);
      }
    case Obj(fields) =>
      ok := budget.Charge(2);
      if ok {
        ok := VisitFields(fields, depth, budget);
      }
    case _ =>
      ok := budget.Scalar(v);
  }

  method VisitItems(items: seq<Value>, depth: nat, budget: Budget) returns (ok: bool)
    requires budget.nodes < budget.bytes <= MAX_NORMALIZED_BYTES && depth <= MAX_VALUE_DEPTH
    modifies budget
    ensures ok <==> Fits(old(budget.bytes), |PrintItems(items)|, depth, DepthItems(items))
    ensures ok ==> budget.bytes == old(budget.bytes) + |PrintItems(items)|
    ensures ok ==> budget.nodes == old(budget.nodes) + NodesItems(items)
    decreases items, 1
  {
    var i := 0;
    ghost var start, first := budget.bytes, budget.nodes;
    assert items[..0] == [];
    assert PrintItems([]) == [] && DepthItems([]) == 0 && NodesItems([]) == 0;
    hide PrintItems, DepthItems, NodesItems, Print, Depth, Nodes;
    while i < |items|
      invariant 0 <= i <= |items|
      invariant Fits(start, |PrintItems(items[..i])|, depth, DepthItems(items[..i]))
      invariant budget.bytes == start + |PrintItems(items[..i])|
      invariant budget.nodes == first + NodesItems(items[..i])
    {
      ItemsStep(items, i);
      PrintItemsPrefix(items, i + 1);
      DepthItemsPrefix(items, i + 1);
      ok := budget.Charge(if i != 0 then 1 else 0);
      if !ok {
        return;
      }
      ok := Visit(items[i], depth + 1, budget);
      if !ok {
        assert !Fits(start, |PrintItems(items[..i + 1])|, depth, DepthItems(items[..i + 1]));
        return;
      }
      i := i + 1;
      assert Fits(start, |PrintItems(items[..i])|, depth, DepthItems(items[..i]));
    }
    assert items[..i] == items;
    ok := true;
  }

  /** One member: its key, then its value one level deeper. */
  method VisitField(f: Field, previous: bool, depth: nat, budget: Budget) returns (ok: bool)
    requires budget.nodes < budget.bytes <= MAX_NORMALIZED_BYTES && depth <= MAX_VALUE_DEPTH
    modifies budget
    ensures ok <==> Fits(old(budget.bytes), KeyCost(f.key, previous) + |Print(f.value)|, depth, 1 + Depth(f.value))
    ensures ok ==> budget.bytes == old(budget.bytes) + KeyCost(f.key, previous) + |Print(f.value)| <= MAX_NORMALIZED_BYTES
    ensures ok ==> budget.nodes == old(budget.nodes) + Nodes(f.value)
    decreases f, 1
  {
    hide KeyCost, Print, Depth, Nodes;
    ok := budget.Key(f.key, previous);
    if ok {
      ok := Visit(f.value, depth + 1, budget);
    }
  }

  lemma NoFields(fields: seq<Field>, start: nat, depth: nat)
    ensures PrintFields(fields[..0]) == [] && NodesFields(fields[..0]) == 0
    ensures start <= MAX_NORMALIZED_BYTES && depth <= MAX_VALUE_DEPTH ==> Fits(start, 0, depth, DepthFields(fields[..0]))
  {
  }

  /** Adding one part of a printed whole: sizes add up, and the greater height counts. */
  lemma FitsMore(start: nat, size: nat, cost: nat, whole: nat, depth: nat, height: nat, last: nat, tall: nat)
    requires Fits(start, size, depth, height) && size + cost <= whole
    requires height <= tall && last <= tall
    ensures Fits(start + size, cost, depth, last) <==>
            Fits(start, size + cost, depth, if height > last then height else last)
    ensures !Fits(start + size, cost, depth, last) ==> !Fits(start, whole, depth, tall)
  {
  }

  /** The members so far fit, one more member does or does not, and the whole accordingly. */
  lemma FieldsFit(fields: seq<Field>, i: nat, start: nat, depth: nat)
    requires i < |fields| && Fits(start, |PrintFields(fields[..i])|, depth, DepthFields(fields[..i]))
    ensures
      var f := fields[i];
      var one := Fits(start + |PrintFields(fields[..i])|, KeyCost(f.key, i != 0) + |Print(f.value)|, depth, 1 + Depth(f.value));
      && (one <==> Fits(start, |PrintFields(fields[..i + 1])|, depth, DepthFields(fields[..i + 1])))
      && (!one ==> !Fits(start, |PrintFields(fields)|, depth, DepthFields(fields)))
  {
    hide *;
    FieldsStep(fields, i);
    PrintFieldsPrefix(fields, i + 1);
    DepthFieldsPrefix(fields, i + 1);
    FitsMore(start, |PrintFields(fields[..i])|, KeyCost(fields[i].key, i != 0) + |Print(fields[i].value)|,
             |PrintFields(fields)|, depth, DepthFields(fields[..i]), 1 + Depth(fields[i].value), DepthFields(fields));
  }

  method VisitFields(fields: seq<Field>, depth: nat, budget: Budget) returns (ok: bool)
    requires budget.nodes < budget.bytes <= MAX_NORMALIZED_BYTES && depth <= MAX_VALUE_DEPTH
    modifies budget
    ensures ok <==> Fits(old(budget.bytes), |PrintFields(fields)|, depth, DepthFields(fields))
    ensures ok ==> budget.bytes == old(budget.bytes) + |PrintFields(fields)|
    ensures ok ==> budget.nodes == old(budget.nodes) + NodesFields(fields)
    decreases fields, 1
  {
    hide *;
    var i := 0;
    ghost var start, first := budget.bytes, budget.nodes;
    NoFields(fields, start, depth);
    while i < |fields|
      invariant 0 <= i <= |fields|
      invariant Fits(start, |PrintFields(fields[..i])|, depth, DepthFields(fields[..i]))
      invariant budget.bytes == start + |PrintFields(fields[..i])| <= MAX_NORMALIZED_BYTES
      invariant budget.nodes == first + NodesFields(fields[..i]) < budget.bytes
    {
      FieldsStep(fields, i);
      FieldsFit(fields, i, start, depth);
      ok := VisitField(fields[i], i != 0, depth, budget);
      if !ok {
        return;
      }
      i := i + 1;
    }
    assert fields[..i] == fields;
    ok := true;
  }

  /** Accepts exactly the values whose printed form and depth are within the limits. */
  method CheckNormalizedResult(v: Value) returns (ok: bool)
    ensures ok <==> |Print(v)| <= MAX_NORMALIZED_BYTES && Depth(v) <= MAX_VALUE_DEPTH
  {
    var budget := new Budget();
    ok := Visit(v, 0, budget);
  }
}
