/** Vocabulary shared by every component model: bytes, results, byte-string helpers,
    the lexicographic order used by all sorted structures, and stable sorting. */
module Common {

  /** One octet, as an integer, so that counters and offsets stay in plain arithmetic. */
  type Byte = b: int | 0 <= b < 256

  type Bytes = seq<Byte>

  datatype Option<+T> = None | Some(value: T)

  datatype Result<+T, +E> = Ok(value: T) | Err(error: E)

  function Min(a: int, b: int): int {
    if a < b then a else b
  }

  /** `n` zero bytes. */
  function Zeros(n: nat): Bytes {
    seq(n, _ => 0 as Byte)
  }

  predicate AllZero(s: Bytes) {
    forall i | 0 <= i < |s| :: s[i] == 0
  }

  lemma AllZeroIsZeros(s: Bytes)
    ensures AllZero(s) <==> s == Zeros(|s|)
  {
  }

  /** Concatenation of a list of pieces. */
  function Concat<T>(pieces: seq<seq<T>>): seq<T> {
    if pieces == [] then [] else pieces[0] + Concat(pieces[1..])
  }

  lemma {:induction false} ConcatAppend<T>(a: seq<seq<T>>, b: seq<seq<T>>)
    ensures Concat(a + b) == Concat(a) + Concat(b)
  {
    if a == [] {
      assert a + b == b;
    } else {
      assert (a + b)[0] == a[0] && (a + b)[1..] == a[1..] + b;
      ConcatAppend(a[1..], b);
    }
  }

  lemma ConcatSnoc<T>(a: seq<seq<T>>, x: seq<T>)
    ensures Concat(a + [x]) == Concat(a) + x
  {
    ConcatAppend(a, [x]);
    assert Concat([x]) == x + Concat<T>([]) == x;
  }

  // ----- Lexicographic order -----

  /** `a` is strictly below `b` in lexicographic order; a proper prefix is below. */
  predicate LexBelow(a: seq<int>, b: seq<int>) {
    if b == [] then false
    else if a == [] then true
    else if a[0] != b[0] then a[0] < b[0]
    else LexBelow(a[1..], b[1..])
  }

  lemma {:induction false} LexIrreflexive(a: seq<int>)
    ensures !LexBelow(a, a)
  {
    if a != [] {
      LexIrreflexive(a[1..]);
    }
  }

  lemma {:induction false} LexTransitive(a: seq<int>, b: seq<int>, c: seq<int>)
    requires LexBelow(a, b) && LexBelow(b, c)
    ensures LexBelow(a, c)
  {
    if a != [] && a[0] == b[0] == c[0] {
      LexTransitive(a[1..], b[1..], c[1..]);
    }
  }

  lemma {:induction false} LexTotal(a: seq<int>, b: seq<int>)
    ensures LexBelow(a, b) || a == b || LexBelow(b, a)
  {
    if a != [] && b != [] && a[0] == b[0] {
      LexTotal(a[1..], b[1..]);
      assert a == [a[0]] + a[1..] && b == [b[0]] + b[1..];
    }
  }

  lemma LexAsymmetric(a: seq<int>, b: seq<int>)
    requires LexBelow(a, b)
    ensures !LexBelow(b, a) && a != b
  {
    LexIrreflexive(a);
    if LexBelow(b, a) {
      LexTransitive(a, b, a);
    }
  }

  // ----- Stable sorting by a lexicographic key -----

  predicate SortedBy<T>(key: T -> seq<int>, s: seq<T>) {
    forall i, j | 0 <= i < j < |s| :: !LexBelow(key(s[j]), key(s[i]))
  }

  predicate StrictlySortedBy<T>(key: T -> seq<int>, s: seq<T>) {
    forall i, j | 0 <= i < j < |s| :: LexBelow(key(s[i]), key(s[j]))
  }

  /** Puts `x` before the first element whose key is above `x`'s key. */
  function Insert<T>(key: T -> seq<int>, x: T, s: seq<T>): (r: seq<T>)
    ensures |r| == |s| + 1
  {
    if s == [] then [x]
    else if LexBelow(key(x), key(s[0])) then [x] + s
    else [s[0]] + Insert(key, x, s[1..])
  }

  /** The stable sort of `s` by `key`. */
  function SortBy<T>(key: T -> seq<int>, s: seq<T>): (r: seq<T>)
    ensures |r| == |s|
  {
    if s == [] then [] else Insert(key, s[|s| - 1], SortBy(key, s[..|s| - 1]))
  }

  lemma {:induction false} InsertElements<T>(key: T -> seq<int>, x: T, s: seq<T>)
    ensures multiset(Insert(key, x, s)) == multiset(s) + multiset{x}
  {
    if s != [] && !LexBelow(key(x), key(s[0])) {
      InsertElements(key, x, s[1..]);
      assert s == [s[0]] + s[1..];
    }
  }

  lemma {:induction false} InsertSorted<T>(key: T -> seq<int>, x: T, s: seq<T>)
    requires SortedBy(key, s)
    ensures SortedBy(key, Insert(key, x, s))
  {
    if s == [] {
    } else if LexBelow(key(x), key(s[0])) {
      forall i, j | 0 <= i < j < |s| + 1
        ensures !LexBelow(key(([x] + s)[j]), key(([x] + s)[i]))
      {
        if i == 0 && LexBelow(key(s[j - 1]), key(x)) {
          LexTransitive(key(s[j - 1]), key(x), key(s[0]));
          LexIrreflexive(key(s[0]));
        }
      }
    } else {
      var rest := Insert(key, x, s[1..]);
      InsertSorted(key, x, s[1..]);
      InsertElements(key, x, s[1..]);
      forall j | 0 <= j < |rest|
        ensures !LexBelow(key(rest[j]), key(s[0]))
      {
        assert rest[j] in multiset(rest);
        assert rest[j] == x || rest[j] in multiset(s[1..]);
        if rest[j] != x {
          assert rest[j] in s[1..];
        }
      }
    }
  }

  /** Sorting keeps exactly the given elements and orders them. */
  lemma {:induction false} SortByCorrect<T>(key: T -> seq<int>, s: seq<T>)
    ensures multiset(SortBy(key, s)) == multiset(s)
    ensures SortedBy(key, SortBy(key, s))
  {
    if s != [] {
      var init := s[..|s| - 1];
      SortByCorrect(key, init);
      InsertElements(key, s[|s| - 1], SortBy(key, init));
      InsertSorted(key, s[|s| - 1], SortBy(key, init));
      assert s == init + [s[|s| - 1]];
    }
  }

  /** A sorted list whose neighbours have different keys is strictly sorted. */
  lemma DistinctNeighbours<T>(key: T -> seq<int>, s: seq<T>)
    requires SortedBy(key, s)
    ensures StrictlySortedBy(key, s) <==> forall i | 0 <= i < |s| - 1 :: key(s[i]) != key(s[i + 1])
  {
    if StrictlySortedBy(key, s) {
      forall i | 0 <= i < |s| - 1
        ensures key(s[i]) != key(s[i + 1])
      {
        LexIrreflexive(key(s[i]));
      }
    }
    if forall i | 0 <= i < |s| - 1 :: key(s[i]) != key(s[i + 1]) {
      forall i, j | 0 <= i < j < |s|
        ensures LexBelow(key(s[i]), key(s[j]))
      {
        LexTotal(key(s[i]), key(s[j]));
        if key(s[i]) == key(s[j]) {
          LexTotal(key(s[i]), key(s[i + 1]));
        }
      }
    }
  }

  predicate DistinctKeys<T>(key: T -> seq<int>, s: seq<T>) {
    forall i, j | 0 <= i < j < |s| :: key(s[i]) != key(s[j])
  }

  lemma StrictlySortedDistinct<T>(key: T -> seq<int>, s: seq<T>)
    requires StrictlySortedBy(key, s)
    ensures DistinctKeys(key, s)
  {
    forall i, j | 0 <= i < j < |s|
      ensures key(s[i]) != key(s[j])
    {
      LexAsymmetric(key(s[i]), key(s[j]));
    }
  }

  /** No element of `s` has the key of `x`. */
  predicate FreshKey<T>(key: T -> seq<int>, x: T, s: seq<T>) {
    forall i | 0 <= i < |s| :: key(s[i]) != key(x)
  }

  lemma DistinctCons<T>(key: T -> seq<int>, x: T, s: seq<T>)
    ensures DistinctKeys(key, [x] + s) <==> DistinctKeys(key, s) && FreshKey(key, x, s)
  {
    var t := [x] + s;
    if DistinctKeys(key, t) {
      forall i, j | 0 <= i < j < |s|
        ensures key(s[i]) != key(s[j])
      {
        assert key(t[i + 1]) != key(t[j + 1]);
      }
      forall i | 0 <= i < |s|
        ensures key(s[i]) != key(x)
      {
        assert key(t[0]) != key(t[i + 1]);
      }
    }
  }

  lemma {:induction false} InsertFresh<T>(key: T -> seq<int>, a: T, x: T, s: seq<T>)
    ensures FreshKey(key, a, Insert(key, x, s)) <==> FreshKey(key, a, s) && key(x) != key(a)
  {
    var t := Insert(key, x, s);
    if s == [] {
      assert t == [x];
      assert t[0] == x;
    } else if LexBelow(key(x), key(s[0])) {
      assert t == [x] + s;
      if FreshKey(key, a, t) {
        assert key(t[0]) != key(a);
        forall i | 0 <= i < |s|
          ensures key(s[i]) != key(a)
        {
          assert t[i + 1] == s[i];
        }
      }
    } else {
      InsertFresh(key, a, x, s[1..]);
      assert t == [s[0]] + Insert(key, x, s[1..]);
      FreshCons(key, a, s[0], Insert(key, x, s[1..]));
      FreshCons(key, a, s[0], s[1..]);
      assert s == [s[0]] + s[1..];
    }
  }

  lemma FreshCons<T>(key: T -> seq<int>, a: T, x: T, s: seq<T>)
    ensures FreshKey(key, a, [x] + s) <==> FreshKey(key, a, s) && key(x) != key(a)
  {
    var t := [x] + s;
    if FreshKey(key, a, t) {
      assert t[0] == x;
      assert forall i | 0 <= i < |s| :: t[i + 1] == s[i];
    }
  }

  lemma {:induction false} InsertDistinct<T>(key: T -> seq<int>, x: T, s: seq<T>)
    ensures DistinctKeys(key, Insert(key, x, s)) <==> DistinctKeys(key, s) && FreshKey(key, x, s)
  {
    if s == [] {
    } else if LexBelow(key(x), key(s[0])) {
      DistinctCons(key, x, s);
    } else {
      var t := s[1..];
      InsertDistinct(key, x, t);
      DistinctCons(key, s[0], Insert(key, x, t));
      InsertFresh(key, s[0], x, t);
      assert s == [s[0]] + t;
      DistinctCons(key, s[0], t);
      FreshCons(key, x, s[0], t);
    }
  }

  lemma DistinctSnoc<T>(key: T -> seq<int>, s: seq<T>, x: T)
    ensures DistinctKeys(key, s + [x]) <==> DistinctKeys(key, s) && FreshKey(key, x, s)
  {
    var t := s + [x];
    if DistinctKeys(key, t) {
      forall i, j | 0 <= i < j < |s|
        ensures key(s[i]) != key(s[j])
      {
        assert key(t[i]) != key(t[j]);
      }
      forall i | 0 <= i < |s|
        ensures key(s[i]) != key(x)
      {
        assert key(t[i]) != key(t[|s|]);
      }
    }
  }

  lemma SameElements<T>(a: seq<T>, b: seq<T>)
    requires multiset(a) == multiset(b)
    ensures |a| == |b|
    ensures forall x :: x in a <==> x in b
    ensures forall i | 0 <= i < |a| :: a[i] in b
    ensures forall i | 0 <= i < |b| :: b[i] in a
  {
    assert |multiset(a)| == |a| && |multiset(b)| == |b|;
    forall x
      ensures x in a <==> x in b
    {
      assert x in a <==> x in multiset(a);
      assert x in b <==> x in multiset(b);
    }
  }

  lemma FreshSame<T>(key: T -> seq<int>, x: T, a: seq<T>, b: seq<T>)
    requires forall y :: y in a <==> y in b
    ensures FreshKey(key, x, a) <==> FreshKey(key, x, b)
  {
    if FreshKey(key, x, a) {
      assert forall i | 0 <= i < |b| :: b[i] in a;
    }
    if FreshKey(key, x, b) {
      assert forall i | 0 <= i < |a| :: a[i] in b;
    }
  }

  lemma SortFresh<T>(key: T -> seq<int>, x: T, s: seq<T>)
    ensures FreshKey(key, x, SortBy(key, s)) <==> FreshKey(key, x, s)
  {
    SortByCorrect(key, s);
    SameElements(SortBy(key, s), s);
    FreshSame(key, x, SortBy(key, s), s);
  }

  /** Sorting keeps keys distinct, and does not hide a repetition. */
  lemma {:induction false} SortByDistinct<T>(key: T -> seq<int>, s: seq<T>)
    ensures DistinctKeys(key, SortBy(key, s)) <==> DistinctKeys(key, s)
  {
    if s != [] {
      var x, init := s[|s| - 1], s[..|s| - 1];
      SortByDistinct(key, init);
      InsertDistinct(key, x, SortBy(key, init));
      SortFresh(key, x, init);
      DistinctSnoc(key, init, x);
      assert s == init + [x];
    }
  }

  /** A sorted list is strictly sorted exactly when the unsorted keys were distinct. */
  lemma SortByStrict<T>(key: T -> seq<int>, s: seq<T>)
    ensures StrictlySortedBy(key, SortBy(key, s)) <==> DistinctKeys(key, s)
  {
    SortByDistinct(key, s);
    SortByCorrect(key, s);
    var t := SortBy(key, s);
    if StrictlySortedBy(key, t) {
      StrictlySortedDistinct(key, t);
    }
    if DistinctKeys(key, t) {
      forall i, j | 0 <= i < j < |t|
        ensures LexBelow(key(t[i]), key(t[j]))
      {
        LexTotal(key(t[i]), key(t[j]));
      }
    }
  }

  // ----- Slash-separated names -----

  const SLASH: Byte := 47
  const U64_MAX := 0xFFFF_FFFF_FFFF_FFFF

  /** The pieces of `path` between separators; always at least one. */
  function Components(path: Bytes): (r: seq<Bytes>)
    ensures |r| >= 1
  {
    if path == [] then [[]]
    else if path[0] == SLASH then [[]] + Components(path[1..])
    else
      var rest := Components(path[1..]);
      [[path[0]] + rest[0]] + rest[1..]
  }

  lemma {:induction false} ComponentsPlain(path: Bytes)
    requires SLASH !in path
    ensures Components(path) == [path]
  {
    if path != [] {
      ComponentsPlain(path[1..]);
      assert path == [path[0]] + path[1..];
    }
  }

  lemma {:induction false} ComponentsJoin(a: Bytes, b: Bytes)
    ensures Components(a + [SLASH] + b) == Components(a) + Components(b)
  {
    var whole := a + [SLASH] + b;
    if a == [] {
      assert whole[1..] == b;
    } else {
      assert whole[1..] == a[1..] + [SLASH] + b;
      ComponentsJoin(a[1..], b);
    }
  }
}
