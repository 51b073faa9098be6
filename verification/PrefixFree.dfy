/** Output paths that never contain one another: testing neighbours after sorting decoded
    segments is the same as testing every pair. */
module PrefixFree {
  import opened Common
  import opened Json
  import opened ProjectionSpec
  import opened ProjectionSelection

  type Path = seq<Bytes>

  /** The order of lists of byte strings: segment by segment, a prefix first. */
  predicate PathBelow(a: Path, b: Path) {
    if b == [] then false
    else if a == [] then true
    else if a[0] != b[0] then LexBelow(a[0], b[0])
    else PathBelow(a[1..], b[1..])
  }

  /** A path as one list of numbers, each segment ended by a mark below every byte. */
  function Flat(p: Path): seq<int> {
    if p == [] then [] else p[0] + [-1] + Flat(p[1..])
  }

  // ----- Flat paths keep order and prefixes -----

  lemma {:induction false} LexAppend(a: seq<int>, x: seq<int>, y: seq<int>)
    ensures LexBelow(a + x, a + y) <==> LexBelow(x, y)
  {
    if a == [] {
      assert a + x == x && a + y == y;
    } else {
      assert (a + x)[1..] == a[1..] + x && (a + y)[1..] == a[1..] + y;
      LexAppend(a[1..], x, y);
    }
  }

  /** Ended segments compare like the segments. */
  lemma {:induction false} EndedOrder(a: Bytes, b: Bytes, x: seq<int>, y: seq<int>)
    requires a != b
    ensures LexBelow(a + [-1] + x, b + [-1] + y) <==> LexBelow(a, b)
    ensures !(a + [-1] + x <= b + [-1] + y)
  {
    var s, t := a + [-1] + x, b + [-1] + y;
    if a == [] {
      assert s[0] == -1 && t[0] == b[0];
    } else if b == [] {
      assert s[0] == a[0] && t[0] == -1;
    } else {
      assert s[0] == a[0] && t[0] == b[0];
      assert s[1..] == a[1..] + [-1] + x && t[1..] == b[1..] + [-1] + y;
      if a[0] == b[0] {
        assert a == [a[0]] + a[1..] && b == [b[0]] + b[1..];
        EndedOrder(a[1..], b[1..], x, y);
        assert s == [s[0]] + s[1..] && t == [s[0]] + t[1..];
        PrefixAppend([s[0]], s[1..], t[1..]);
      }
    }
  }

  lemma {:induction false} FlatOrder(a: Path, b: Path)
    ensures LexBelow(Flat(a), Flat(b)) <==> PathBelow(a, b)
  {
    if a != [] && b != [] {
      if a[0] == b[0] {
        var segment: seq<int> := a[0];
        LexAppend(segment + [-1], Flat(a[1..]), Flat(b[1..]));
        FlatOrder(a[1..], b[1..]);
      } else {
        EndedOrder(a[0], b[0], Flat(a[1..]), Flat(b[1..]));
      }
    }
  }

  lemma {:induction false} FlatPrefix(a: Path, b: Path)
    ensures Flat(a) <= Flat(b) <==> a <= b
  {
    if a == [] {
    } else if b == [] {
      assert |Flat(a)| > 0;
    } else if a[0] == b[0] {
      var segment: seq<int> := a[0];
      var ended := segment + [-1];
      assert Flat(a) == ended + Flat(a[1..]) && Flat(b) == ended + Flat(b[1..]);
      FlatPrefix(a[1..], b[1..]);
      PrefixAppend(ended, Flat(a[1..]), Flat(b[1..]));
      PrefixAppend([a[0]], a[1..], b[1..]);
      assert [a[0]] + a[1..] == a && [b[0]] + b[1..] == b;
    } else {
      EndedOrder(a[0], b[0], Flat(a[1..]), Flat(b[1..]));
    }
  }

  lemma PrefixAppend<T>(a: seq<T>, x: seq<T>, y: seq<T>)
    ensures a + x <= a + y <==> x <= y
  {
    if a + x <= a + y {
      assert (a + x)[|a|..] == x && (a + y)[|a|..] == y;
      forall i | 0 <= i < |x| ensures x[i] == y[i] {
        assert (a + x)[|a| + i] == (a + y)[|a| + i];
      }
    }
  }

  lemma FlatInjective(a: Path, b: Path)
    requires Flat(a) == Flat(b)
    ensures a == b
  {
    FlatPrefix(a, b);
    FlatPrefix(b, a);
  }

  // ----- Neighbours suffice -----

  lemma {:induction false} PrefixIsBelow(a: seq<int>, b: seq<int>)
    requires a <= b && a != b
    ensures LexBelow(a, b)
  {
    if a != [] {
      assert a == [a[0]] + a[1..] && b == [b[0]] + b[1..];
      PrefixIsBelow(a[1..], b[1..]);
    }
  }

  /** Whatever sorts between a list and one of its extensions extends it too. */
  lemma {:induction false} Between(a: seq<int>, m: seq<int>, b: seq<int>)
    requires a <= b && !LexBelow(m, a) && !LexBelow(b, m)
    ensures a <= m
  {
    if a != [] && m != [] {
      assert a[0] == b[0] && m[0] == a[0];
      Between(a[1..], m[1..], b[1..]);
      assert m == [m[0]] + m[1..] && a == [a[0]] + a[1..];
    }
  }

  /** No path is a prefix of another, not even of an equal one elsewhere. */
  ghost predicate Free(paths: seq<Path>) {
    forall i, j | 0 <= i < |paths| && 0 <= j < |paths| && i != j :: !(paths[i] <= paths[j])
  }

  ghost predicate NoProperPrefix(paths: seq<Path>) {
    forall x, y | x in paths && y in paths && x != y :: !(x <= y)
  }

  lemma FreeIsDistinct(paths: seq<Path>)
    requires Free(paths)
    ensures DistinctKeys(Flat, paths) && NoProperPrefix(paths)
  {
    forall i, j | 0 <= i < j < |paths| ensures Flat(paths[i]) != Flat(paths[j]) {
      assert !(paths[i] <= paths[j]);
      FlatPrefix(paths[i], paths[j]);
    }
    forall x, y | x in paths && y in paths && x != y ensures !(x <= y) {
      var i :| 0 <= i < |paths| && paths[i] == x;
      var j :| 0 <= j < |paths| && paths[j] == y;
    }
  }

  lemma DistinctIsFree(paths: seq<Path>)
    requires DistinctKeys(Flat, paths) && NoProperPrefix(paths)
    ensures Free(paths)
  {
    forall i, j | 0 <= i < |paths| && 0 <= j < |paths| && i != j ensures !(paths[i] <= paths[j]) {
      var low, high := if i < j then i else j, if i < j then j else i;
      assert Flat(paths[low]) != Flat(paths[high]);
      assert paths[i] in paths && paths[j] in paths;
    }
  }

  /** Sorting neither hides nor invents a prefix. */
  lemma SortKeepsFreedom(paths: seq<Path>)
    ensures Free(SortBy(Flat, paths)) <==> Free(paths)
  {
    var sorted := SortBy(Flat, paths);
    SortByCorrect(Flat, paths);
    SortByDistinct(Flat, paths);
    forall x ensures x in sorted <==> x in paths {
      assert x in multiset(sorted) <==> x in multiset(paths);
    }
    assert NoProperPrefix(sorted) <==> NoProperPrefix(paths);
    hide Flat;
    if Free(paths) {
      FreeIsDistinct(paths);
      DistinctIsFree(sorted);
    }
    if Free(sorted) {
      FreeIsDistinct(sorted);
      DistinctIsFree(paths);
    }
  }

  predicate NeighbourPrefix(paths: seq<Path>, i: nat)
    requires i + 1 < |paths|
  {
    paths[i] <= paths[i + 1]
  }

  /** In a sorted list some path is a prefix of another exactly when one is a prefix of its
      right neighbour. */
  lemma NeighboursSuffice(paths: seq<Path>)
    requires SortedBy(Flat, paths)
    ensures Free(paths) <==> forall i: nat | i + 1 < |paths| :: !NeighbourPrefix(paths, i)
  {
    if !Free(paths) {
      var i, j :| 0 <= i < |paths| && 0 <= j < |paths| && i != j && paths[i] <= paths[j];
      FlatPrefix(paths[i], paths[j]);
      if i < j {
        if j == i + 1 {
          LexIrreflexive(Flat(paths[j]));
        }
        Between(Flat(paths[i]), Flat(paths[i + 1]), Flat(paths[j]));
        FlatPrefix(paths[i], paths[i + 1]);
        assert NeighbourPrefix(paths, i);
      } else {
        Equals(paths, j, i);
      }
    }
  }

  /** A later path that is a prefix of an earlier one equals it, and its right neighbour. */
  lemma Equals(paths: seq<Path>, j: nat, i: nat)
    requires SortedBy(Flat, paths) && j < i < |paths| && paths[i] <= paths[j]
    ensures NeighbourPrefix(paths, j)
  {
    FlatPrefix(paths[i], paths[j]);
    if Flat(paths[i]) != Flat(paths[j]) {
      PrefixIsBelow(Flat(paths[i]), Flat(paths[j]));
    }
    FlatInjective(paths[i], paths[j]);
    if i == j + 1 {
      LexIrreflexive(Flat(paths[i]));
    }
    Between(Flat(paths[j]), Flat(paths[j + 1]), Flat(paths[i]));
    FlatPrefix(paths[j], paths[j + 1]);
  }

  /** Sorts the paths and compares neighbours only. */
  method PrefixFreePaths(paths: seq<Path>) returns (ok: bool)
    ensures ok <==> Free(paths)
  {
    var sorted := SortBy(Flat, paths);
    SortByCorrect(Flat, paths);
    SortKeepsFreedom(paths);
    NeighboursSuffice(sorted);
    var i: nat := 0;
    while i + 1 < |sorted|
      invariant forall k: nat | k < i && k + 1 < |sorted| :: !NeighbourPrefix(sorted, k)
    {
      if NeighbourPrefix(sorted, i) {
        return false;
      }
      i := i + 1;
    }
    ok := true;
  }

  // ----- Output fields -----

  const MAX_OUTPUT_FIELDS := 64

  /** Every tilde starts one of the two escapes. */
  predicate EscapesOk(s: Bytes) {
    if s == [] then true
    else if s[0] == TILDE then |s| >= 2 && (s[1] == 48 || s[1] == 49) && EscapesOk(s[2..])
    else EscapesOk(s[1..])
  }

  predicate ValidPointer(pointer: Bytes) {
    pointer != [] && pointer[0] == SLASH && |pointer| <= 512 && 0 !in pointer && EscapesOk(pointer)
  }

  /** Accepts at most 64 valid pointers none of which leads into another. */
  method DisjointOutputFields(pointers: seq<Bytes>) returns (ok: bool)
    ensures ok <==>
      && |pointers| <= MAX_OUTPUT_FIELDS
      && (forall i | 0 <= i < |pointers| :: ValidPointer(pointers[i]))
      && (forall i, j | 0 <= i < |pointers| && 0 <= j < |pointers| && i != j ::
            !(Segments(pointers[i]) <= Segments(pointers[j])))
  {
    if |pointers| > MAX_OUTPUT_FIELDS {
      return false;
    }
    var paths: seq<Path> := [];
    var i := 0;
    hide Segments;
    while i < |pointers|
      invariant 0 <= i <= |pointers| && |paths| == i
      invariant forall k | 0 <= k < i :: ValidPointer(pointers[k]) && paths[k] == Segments(pointers[k])
    {
      if !ValidPointer(pointers[i]) {
        return false;
      }
      paths := paths + [Segments(pointers[i])];
      i := i + 1;
    }
    ok := PrefixFreePaths(paths);
  }

  // ----- The fields of one projected record -----

  const MAX_SCHEMA_DEPTH := 8
  const MAX_RECORD_FIELDS := 64
  const MAX_TEXT_BYTES := 1024
  const MAX_TEXT_ENUM_VALUES := 16
  const MAX_POINTER_DEPTH := 8
  const SAFE_INTEGER_MAX := 9_007_199_254_740_991

  predicate FieldName(s: Bytes) {
    && s != [] && |s| <= 64 && (65 <= s[0] <= 90 || 97 <= s[0] <= 122)
    && forall i | 0 <= i < |s| :: 48 <= s[i] <= 57 || 65 <= s[i] <= 90 || 97 <= s[i] <= 122 || s[i] == 95
  }

  predicate ValidKind(k: ScalarKind) {
    match k
    case BooleanKind => true
    case CounterKind(_) => true
    case TextKind(max) => 1 <= max <= MAX_TEXT_BYTES
    case TextEnumKind(max, values) =>
      && 1 <= max <= MAX_TEXT_BYTES && 1 <= |values| <= MAX_TEXT_ENUM_VALUES
      && (forall i | 0 <= i < |values| :: ValidIdentity(values[i], max))
      && |set i | 0 <= i < |values| :: values[i]| == |values|
    case SafeIntegerKind(min, max) => min <= max && min >= -SAFE_INTEGER_MAX && max <= SAFE_INTEGER_MAX
    case FalseOrSafeIntegerKind(min, max) => min <= max && min >= -SAFE_INTEGER_MAX && max <= SAFE_INTEGER_MAX
  }

  /** A schema pointer; only collections may point at the root. */
  predicate ValidSource(pointer: Bytes, rootAllowed: bool) {
    if pointer == [] then rootAllowed else ValidPointer(pointer) && |Segments(pointer)| <= MAX_POINTER_DEPTH
  }

  function FieldPaths(fields: seq<ScalarField>): (r: seq<Path>)
    ensures |r| == |fields|
  {
    seq(|fields|, i requires 0 <= i < |fields| => Segments(fields[i].source))
  }

  function CollectionPaths(cs: seq<CollectionField>): (r: seq<Path>)
    ensures |r| == |cs|
  {
    seq(|cs|, i requires 0 <= i < |cs| => Segments(SourceOf(cs[i].collection)))
  }

  predicate ValidKey(key: Option<TextIdentity>) {
    key.Some? ==> FieldName(key.value.name) && 1 <= key.value.maxBytes <= MAX_TEXT_BYTES
  }

  predicate GoodField(f: ScalarField) {
    FieldName(f.name) && ValidKind(f.kind) && ValidSource(f.source, false)
  }

  ghost predicate GoodFields(fields: seq<ScalarField>) {
    forall i | 0 <= i < |fields| :: GoodField(fields[i])
  }

  predicate GoodCollection(c: CollectionField) {
    FieldName(c.name) && ValidSource(SourceOf(c.collection), true)
  }

  ghost predicate GoodCollections(cs: seq<CollectionField>) {
    forall i | 0 <= i < |cs| :: GoodCollection(cs[i])
  }

  ghost predicate ValidFields(r: Record, key: Option<TextIdentity>, depth: nat) {
    && depth <= MAX_SCHEMA_DEPTH
    && |r.fields| + |r.collections| + (if key.Some? then 1 else 0) <= MAX_RECORD_FIELDS
    && ValidKey(key)
    && GoodFields(r.fields) && GoodCollections(r.collections)
    && DistinctNames(Labels(r, key))
    && Free(FieldPaths(r.fields) + CollectionPaths(r.collections))
  }

  function KeyLabel(key: Option<TextIdentity>): seq<Bytes> {
    if key.None? then [] else [key.value.name]
  }

  function Labels(r: Record, key: Option<TextIdentity>): seq<Bytes> {
    KeyLabel(key) + FieldNames(r.fields) + CollectionNames(r.collections)
  }

  lemma LabelsSplit(r: Record, key: Option<TextIdentity>, names: set<Bytes>)
    requires names == if key.Some? then {key.value.name} else {}
    ensures
      var labels, first := Labels(r, key), |KeyLabel(key)|;
      && |labels| == first + |r.fields| + |r.collections| && Taken(names, labels, first)
      && labels[first..first + |r.fields|] == FieldNames(r.fields)
      && labels[first + |r.fields|..first + |r.fields| + |r.collections|] == CollectionNames(r.collections)
  {
    var labels, first := Labels(r, key), |KeyLabel(key)|;
    assert labels[..first] == KeyLabel(key);
  }

  /** The first k labels are the names taken so far, each once. */
  ghost predicate Taken(names: set<Bytes>, labels: seq<Bytes>, k: nat) {
    k <= |labels| && names == (set n | n in labels[..k]) && DistinctNames(labels[..k])
  }

  lemma TakeName(names: set<Bytes>, labels: seq<Bytes>, k: nat)
    requires Taken(names, labels, k) && k < |labels|
    ensures labels[k] in names ==> !DistinctNames(labels)
    ensures labels[k] !in names ==> Taken(names + {labels[k]}, labels, k + 1)
  {
    var next := labels[..k + 1];
    assert next == labels[..k] + [labels[k]];
    if labels[k] in names {
      var i :| 0 <= i < k && labels[..k][i] == labels[k];
      assert labels[i] == labels[k];
    } else {
      forall i, j | 0 <= i < j < k + 1 ensures next[i] != next[j] {
        assert labels[i] in labels[..k];
        if j < k {
          assert labels[..k][i] != labels[..k][j];
        }
      }
    }
  }

  lemma AllTaken(names: set<Bytes>, labels: seq<Bytes>)
    requires Taken(names, labels, |labels|)
    ensures DistinctNames(labels)
  {
    assert labels[..|labels|] == labels;
  }

  /** The scalar fields: names not taken yet, valid kinds, valid places. */
  method ScalarFields(fields: seq<ScalarField>, taken: set<Bytes>, ghost labels: seq<Bytes>, ghost first: nat)
    returns (ok: bool, names: set<Bytes>, paths: seq<Path>)
    requires Taken(taken, labels, first) && first + |fields| <= |labels|
    requires labels[first..first + |fields|] == FieldNames(fields)
    ensures ok ==> paths == FieldPaths(fields) && Taken(names, labels, first + |fields|)
    ensures if ok then GoodFields(fields) else !DistinctNames(labels) || !GoodFields(fields)
  {
    names, paths := taken, [];
    hide ValidKind, ValidSource, Segments, FieldName, DistinctNames, Taken;
    var i := 0;
    while i < |fields|
      invariant 0 <= i <= |fields| && |paths| == i && Taken(names, labels, first + i)
      invariant forall k | 0 <= k < i :: paths[k] == Segments(fields[k].source)
      invariant forall k | 0 <= k < i :: GoodField(fields[k])
    {
      assert labels[first + i] == FieldNames(fields)[i] == fields[i].name;
      TakeName(names, labels, first + i);
      if !FieldName(fields[i].name) || fields[i].name in names {
        return false, names, paths;
      }
      if !ValidKind(fields[i].kind) || !ValidSource(fields[i].source, false) {
        return false, names, paths;
      }
      names := names + {fields[i].name};
      paths := paths + [Segments(fields[i].source)];
      i := i + 1;
    }
    ok := true;
  }

  /** The nested collections: names not taken yet, valid places. */
  method NestedFields(cs: seq<CollectionField>, taken: set<Bytes>, ghost labels: seq<Bytes>, ghost first: nat)
    returns (ok: bool, names: set<Bytes>, paths: seq<Path>)
    requires Taken(taken, labels, first) && first + |cs| <= |labels|
    requires labels[first..first + |cs|] == CollectionNames(cs)
    ensures ok ==> paths == CollectionPaths(cs) && Taken(names, labels, first + |cs|)
    ensures if ok then GoodCollections(cs) else !DistinctNames(labels) || !GoodCollections(cs)
  {
    names, paths := taken, [];
    hide ValidSource, Segments, FieldName, DistinctNames, Taken;
    var i := 0;
    while i < |cs|
      invariant 0 <= i <= |cs| && |paths| == i && Taken(names, labels, first + i)
      invariant forall k | 0 <= k < i :: paths[k] == Segments(SourceOf(cs[k].collection))
      invariant forall k | 0 <= k < i :: GoodCollection(cs[k])
    {
      assert labels[first + i] == CollectionNames(cs)[i] == cs[i].name;
      TakeName(names, labels, first + i);
      if !FieldName(cs[i].name) || cs[i].name in names {
        return false, names, paths;
      }
      if !ValidSource(SourceOf(cs[i].collection), true) {
        return false, names, paths;
      }
      names := names + {cs[i].name};
      paths := paths + [Segments(SourceOf(cs[i].collection))];
      i := i + 1;
    }
    ok := true;
  }

  /** The members of a record, and the places they are read from. */
  method Members(r: Record, key: Option<TextIdentity>) returns (ok: bool, paths: seq<Path>)
    ensures ok <==> GoodFields(r.fields) && GoodCollections(r.collections) && DistinctNames(Labels(r, key))
    ensures ok ==> paths == FieldPaths(r.fields) + CollectionPaths(r.collections)
  {
    ghost var labels := Labels(r, key);
    ghost var first := |KeyLabel(key)|;
    var names: set<Bytes> := if key.Some? then {key.value.name} else {};
    LabelsSplit(r, key, names);
    hide *;
    var more;
    ok, names, paths := ScalarFields(r.fields, names, labels, first);
    if ok {
      ok, names, more := NestedFields(r.collections, names, labels, first + |r.fields|);
      if ok {
        AllTaken(names, labels);
        paths := paths + more;
      }
    }
  }

  /** Accepts a record's own fields exactly when they are well formed, differently named and
      read from places none of which contains another. */
  method ValidateFields(r: Record, key: Option<TextIdentity>, depth: nat) returns (ok: bool)
    ensures ok <==> ValidFields(r, key, depth)
  {
    if depth > MAX_SCHEMA_DEPTH
       || |r.fields| + |r.collections| + (if key.Some? then 1 else 0) > MAX_RECORD_FIELDS {
      return false;
    }
    hide ValidKey, GoodFields, GoodCollections, DistinctNames, Labels, Free, FieldPaths, CollectionPaths;
    if !ValidKey(key) {
      return false;
    }
    var paths;
    ok, paths := Members(r, key);
    if ok {
      ok := PrefixFreePaths(paths);
    }
  }

  /** A validated record names its members differently, whatever key it is given. */
  lemma ValidatedNamesDiffer(r: Record, key: Key, depth: nat)
    requires ValidFields(r, if key.Some? then Some(key.value.0) else None, depth)
    ensures DistinctNames(RecordNames(r, key)) && DistinctNames(FieldNames(r.fields))
  {
    hide GoodFields, GoodCollections, Free, FieldPaths, CollectionPaths;
    var all, first := RecordNames(r, key), if key.Some? then 1 else 0;
    forall i, j | 0 <= i < j < |r.fields| ensures FieldNames(r.fields)[i] != FieldNames(r.fields)[j] {
      assert all[first + i] != all[first + j];
    }
  }
}
