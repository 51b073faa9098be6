/** The tar profile admitted by the archive codec: member names, the expected
    manifest, the 512-byte member header, and the layout of a whole archive. */
module TarFormat {
  import opened Common

  const MAX_CHUNK_BYTES := 65536
  const MAX_ARCHIVE_BYTES := 72 * 1024 * 1024
  const MAX_PAYLOAD_BYTES := 64 * 1024 * 1024
  const MAX_FILE_BYTES := 8 * 1024 * 1024
  const MAX_FILES := 4096
  const MAX_PATH_BYTES := 256
  const MAX_PATH_COMPONENTS := 32
  const MAX_COMPONENT_BYTES := 100
  const MAX_TAIL_BYTES := 32768
  const BLOCK_BYTES := 512
  const U32_MAX := 0xFFFF_FFFF

  const SPACE: Byte := 32
  const DOT: Byte := 46
  const ZERO: Byte := 48

  datatype ArchiveError =
    | InvalidPath
    | InvalidManifest
    | InvalidHeader
    | UnsupportedEntry
    | ManifestMismatch
    | LimitExceeded
    | IncompleteArchive
    | InvalidPadding

  datatype File = File(path: Bytes, size: nat)

  // ----- Member names -----

  predicate PathByte(b: Byte) {
    || 48 <= b <= 57 || 65 <= b <= 90 || 97 <= b <= 122
    || b == 95 || b == 45 || b == DOT || b == 43 || b == 64 || b == SLASH
  }

  predicate ValidComponent(c: Bytes) {
    c != [] && |c| <= MAX_COMPONENT_BYTES && c != [DOT] && c != [DOT, DOT]
  }

  predicate ValidPath(path: Bytes) {
    && path != [] && |path| <= MAX_PATH_BYTES
    && (forall i | 0 <= i < |path| :: PathByte(path[i]))
    && |Components(path)| <= MAX_PATH_COMPONENTS
    && (forall i | 0 <= i < |Components(path)| :: ValidComponent(Components(path)[i]))
  }

  // ----- Member header -----

  datatype Header = Header(path: Bytes, size: nat)

  predicate IsSpace(b: Byte) {
    b == SPACE
  }

  predicate NonZero(b: Byte) {
    b != 0
  }

  predicate OctalDigit(b: Byte) {
    48 <= b <= 55
  }

  /** How many leading bytes of `s` satisfy `p`. */
  function RunLength(p: Byte -> bool, s: Bytes): (n: nat)
    ensures n <= |s|
    ensures forall i | 0 <= i < n :: p(s[i])
    ensures n < |s| ==> !p(s[n])
  {
    if s == [] || !p(s[0]) then 0 else 1 + RunLength(p, s[1..])
  }

  /** The number written by a string of octal digits, most significant first. */
  function OctalNumber(digits: Bytes): nat
    requires forall i | 0 <= i < |digits| :: OctalDigit(digits[i])
  {
    if digits == [] then 0
    else
      var last := digits[|digits| - 1];
      assert OctalDigit(last);
      OctalNumber(digits[..|digits| - 1]) * 8 + (last as int - 48)
  }

  predicate Filler(b: Byte) {
    b == SPACE || b == 0
  }

  /** A numeric header field: leading spaces, at least one octal digit, then only
      spaces and NULs; the number must fit 64 bits. */
  function Octal(field: Bytes): Option<nat> {
    var start := RunLength(IsSpace, field);
    var n := RunLength(OctalDigit, field[start..]);
    if n == 0 || exists i | start + n <= i < |field| :: !Filler(field[i]) then None
    else
      var value := OctalNumber(field[start..][..n]);
      if value > U64_MAX then None else Some(value)
  }

  lemma {:induction false} OctalNumberPrefix(digits: Bytes, k: nat)
    requires k <= |digits|
    requires forall i | 0 <= i < |digits| :: OctalDigit(digits[i])
    ensures OctalNumber(digits[..k]) <= OctalNumber(digits)
    decreases |digits|
  {
    if k < |digits| {
      OctalNumberPrefix(digits[..|digits| - 1], k);
      assert digits[..|digits| - 1][..k] == digits[..k];
    } else {
      assert digits[..k] == digits;
    }
  }

  lemma OctalNumberStep(s: Bytes, run: nat, k: nat)
    requires k < run <= |s|
    requires forall i | 0 <= i < run :: OctalDigit(s[i])
    ensures OctalNumber(s[..k + 1]) == OctalNumber(s[..k]) * 8 + (s[k] as int - 48)
    ensures OctalNumber(s[..k + 1]) <= OctalNumber(s[..run])
  {
    assert s[..k + 1][..k] == s[..k];
    OctalNumberPrefix(s[..run], k + 1);
    assert s[..run][..k + 1] == s[..k + 1];
  }

  lemma RunLengthUnique(p: Byte -> bool, s: Bytes, n: nat)
    requires n <= |s|
    requires forall i | 0 <= i < n :: p(s[i])
    requires n < |s| ==> !p(s[n])
    ensures RunLength(p, s) == n
  {
    var m := RunLength(p, s);
    assert !(m < n) && !(n < m);
  }

  lemma OctalParts(field: Bytes, start: nat, n: nat)
    requires start == RunLength(IsSpace, field) && n == RunLength(OctalDigit, field[start..])
    ensures Octal(field) ==
            if n == 0 || exists i | start + n <= i < |field| :: !Filler(field[i]) then None
            else if OctalNumber(field[start..][..n]) > U64_MAX then None
            else Some(OctalNumber(field[start..][..n]))
  {
  }

  /** The first position that is not a space. */
  method SkipSpaces(field: Bytes) returns (start: nat)
    ensures start == RunLength(IsSpace, field) <= |field|
  {
    start := 0;
    while start < |field| && field[start] == SPACE
      invariant 0 <= start <= |field|
      invariant forall i | 0 <= i < start :: field[i] == SPACE
    {
      start := start + 1;
    }
    RunLengthUnique(IsSpace, field, start);
  }

  /** Accumulates the digits at `start`, or stops where their value overflows. */
  method ReadDigits(field: Bytes, start: nat) returns (end: nat, value: Option<nat>)
    requires start <= |field|
    ensures
      var rest := field[start..];
      var run := RunLength(OctalDigit, rest);
      if OctalNumber(rest[..run]) > U64_MAX then value == None && run > 0
      else end == start + run && value == Some(OctalNumber(rest[..run]))
  {
    ghost var rest := field[start..];
    ghost var run := RunLength(OctalDigit, rest);
    var total := 0;
    end := start;
    assert rest[..0] == [] && OctalNumber([]) == 0;
    hide OctalNumber, RunLength;
    while end < |field| && OctalDigit(field[end])
      invariant start <= end <= |field| && end - start <= run
      invariant total == OctalNumber(rest[..end - start]) <= U64_MAX
    {
      assert rest[end - start] == field[end];
      OctalNumberStep(rest, run, end - start);
      var next := total * 8 + (field[end] as int - 48);
      if next > U64_MAX {
        return end, None;
      }
      total := next;
      end := end + 1;
    }
    assert end < |field| ==> rest[end - start] == field[end];
    return end, Some(total);
  }

  /** The field reader of the codec: skip spaces, accumulate digits with overflow
      checks, then insist that nothing but filler follows. */
  method ReadOctal(field: Bytes) returns (r: Option<nat>)
    ensures r == Octal(field)
  {
    var start := SkipSpaces(field);
    OctalParts(field, start, RunLength(OctalDigit, field[start..]));
    var end, value := ReadDigits(field, start);
    hide Octal, OctalNumber, Filler, RunLength;
    if value.None? || end == start || exists i | end <= i < |field| :: !Filler(field[i]) {
      return None;
    }
    return value;
  }

  /** A text field: everything before the first NUL, and only NULs after it. */
  function Text(field: Bytes): Option<Bytes> {
    var end := RunLength(NonZero, field);
    if AllZero(field[end..]) then Some(field[..end]) else None
  }

  function Sum(s: Bytes): nat {
    if s == [] then 0 else s[0] + Sum(s[1..])
  }

  /** The header checksum: the checksum field itself counts as eight spaces. */
  function Checksum(block: Bytes): nat
    requires |block| == BLOCK_BYTES
  {
    Sum(block[..148]) + 8 * 32 + Sum(block[156..])
  }

  const POSIX_MAGIC: Bytes := [117, 115, 116, 97, 114, 0, 48, 48]
  const GNU_MAGIC: Bytes := [117, 115, 116, 97, 114, 32, 32, 0]

  predicate OctalAtMost(field: Bytes, limit: nat) {
    Octal(field).Some? && Octal(field).value <= limit
  }

  predicate GraphicText(field: Bytes) {
    var text := Text(field);
    text.Some? && forall i | 0 <= i < |text.value| :: 33 <= text.value[i] <= 126
  }

  /** The prefix field, which only the POSIX form uses. */
  function Prefix(block: Bytes): Option<Bytes>
    requires |block| == BLOCK_BYTES
  {
    if block[257..265] == POSIX_MAGIC then
      if AllZero(block[500..]) then Text(block[345..500]) else None
    else if block[257..265] == GNU_MAGIC then
      if AllZero(block[345..]) then Some([]) else None
    else None
  }

  /** Device numbers: absent, or written as zero. */
  predicate NoDevice(field: Bytes) {
    AllZero(field) || Octal(field) == Some(0)
  }

  function Join(prefix: Bytes, name: Bytes): Bytes {
    if prefix == [] then name else prefix + [SLASH] + name
  }

  /** Reads one member header, rejecting everything outside the regular-file profile. */
  function Parse(block: Bytes): (r: Result<Header, ArchiveError>)
    requires |block| == BLOCK_BYTES
  {
    if Octal(block[148..156]) != Some(Checksum(block)) then Err(InvalidHeader)
    else if Prefix(block).None? then Err(InvalidHeader)
    else if block[156] != ZERO && block[156] != 0 then Err(UnsupportedEntry)
    else if || !AllZero(block[157..257])
            || !OctalAtMost(block[100..108], 0x1FF)
            || !OctalAtMost(block[108..116], U32_MAX)
            || !OctalAtMost(block[116..124], U32_MAX) then Err(InvalidHeader)
    else if Octal(block[124..136]).None? then Err(InvalidHeader)
    else if Octal(block[124..136]).value > MAX_FILE_BYTES then Err(LimitExceeded)
    else if Octal(block[136..148]).None? then Err(InvalidHeader)
    else if !NoDevice(block[329..337]) || !NoDevice(block[337..345]) then Err(InvalidHeader)
    else if !GraphicText(block[265..297]) || !GraphicText(block[297..329]) then Err(InvalidHeader)
    else if Text(block[..100]).None? then Err(InvalidHeader)
    else
      var prefix, name := Prefix(block).value, Text(block[..100]).value;
      if |Join(prefix, name)| > MAX_PATH_BYTES || name == [] then Err(InvalidPath)
      else if !ValidPath(Join(prefix, name)) then Err(InvalidPath)
      else Ok(Header(Join(prefix, name), Octal(block[124..136]).value))
  }

  /** An all-zero block is never a member header. */
  lemma ZeroBlockIsNoHeader(block: Bytes)
    requires |block| == BLOCK_BYTES && AllZero(block)
    ensures Parse(block).Err?
  {
    assert forall i | 0 <= i < |block[148..156]| :: block[148..156][i] == block[148 + i];
    RunLengthUnique(IsSpace, block[148..156], 0);
    assert block[148..156][0..] == block[148..156];
    RunLengthUnique(OctalDigit, block[148..156], 0);
  }

  // ----- Archive layout -----

  function Padding(size: nat): (p: nat)
    ensures p < BLOCK_BYTES
  {
    (BLOCK_BYTES - size % BLOCK_BYTES) % BLOCK_BYTES
  }

  datatype Entry = Entry(header: Bytes, body: Bytes)

  /** `e` is an archive member for exactly the expected file `f`. */
  predicate MemberFor(f: File, e: Entry) {
    && |e.header| == BLOCK_BYTES
    && Parse(e.header) == Ok(Header(f.path, f.size))
    && |e.body| == f.size
  }

  function EntryBytes(e: Entry): Bytes {
    e.header + e.body + Zeros(Padding(|e.body|))
  }

  function Layout(entries: seq<Entry>): Bytes {
    if entries == [] then [] else EntryBytes(entries[0]) + Layout(entries[1..])
  }

  predicate ValidTail(tail: int) {
    2 * BLOCK_BYTES <= tail <= MAX_TAIL_BYTES && tail % BLOCK_BYTES == 0
  }

  /** Members for exactly the files in `order`, in that order, then a zero tail. */
  ghost predicate IsArchive(order: seq<File>, entries: seq<Entry>, tail: nat, bytes: Bytes) {
    && |entries| == |order|
    && (forall i | 0 <= i < |order| :: MemberFor(order[i], entries[i]))
    && ValidTail(tail)
    && bytes == Layout(entries) + Zeros(tail)
  }

  /** The declarative profile: one member per expected file, each exactly once in any
      order, followed by the end-of-archive blocks. */
  ghost predicate Conforms(files: multiset<File>, bytes: Bytes) {
    exists order, entries, tail ::
      multiset(order) == files && IsArchive(order, entries, tail, bytes)
  }

  // ----- Manifest -----

  function TotalSize(files: seq<File>): nat {
    if files == [] then 0 else files[0].size + TotalSize(files[1..])
  }

  /** `a` names a directory that `b` lies in. */
  ghost predicate Ancestor(a: Bytes, b: Bytes) {
    |a| < |b| && b[..|a|] == a && b[|a|] == SLASH
  }

  const PathKey: File -> seq<int> := (f: File) => f.path

  /** What every accepted manifest guarantees. */
  ghost predicate ValidManifest(files: seq<File>) {
    && 1 <= |files| <= MAX_FILES
    && (forall i | 0 <= i < |files| :: ValidPath(files[i].path) && files[i].size <= MAX_FILE_BYTES)
    && TotalSize(files) <= MAX_PAYLOAD_BYTES
    && StrictlySortedBy(PathKey, files)
    && NoAncestors(files)
  }

  /** Position of the file called `path`, as the search over the sorted manifest finds it. */
  function IndexOf(files: seq<File>, path: Bytes): (r: Option<nat>)
    ensures r.Some? ==> r.value < |files| && files[r.value].path == path
    ensures r.None? ==> forall i | 0 <= i < |files| :: files[i].path != path
  {
    if files == [] then None
    else if files[0].path == path then Some(0)
    else match IndexOf(files[1..], path)
      case None => None
      case Some(i) =>
        assert files[1..][i] == files[i + 1];
        Some(i + 1)
  }

  lemma IndexOfUnique(files: seq<File>, i: nat)
    requires StrictlySortedBy(PathKey, files) && i < |files|
    ensures IndexOf(files, files[i].path) == Some(i)
  {
    hide LexBelow, StrictlySortedBy;
    var r := IndexOf(files, files[i].path);
    assert PathKey(files[r.value]) == PathKey(files[i]);
    StrictlySortedDistinct(PathKey, files);
  }

  lemma BelowAll(files: seq<File>, path: Bytes, mid: nat)
    requires StrictlySortedBy(PathKey, files) && mid < |files| && files[mid].path != path
    ensures LexBelow(files[mid].path, path) ==> forall i | 0 <= i <= mid :: LexBelow(files[i].path, path)
    ensures !LexBelow(files[mid].path, path) ==> forall i | mid <= i < |files| :: LexBelow(path, files[i].path)
  {
    hide LexBelow;
    LexTotal(files[mid].path, path);
    forall i | 0 <= i < mid && LexBelow(files[mid].path, path)
      ensures LexBelow(files[i].path, path)
    {
      assert LexBelow(PathKey(files[i]), PathKey(files[mid]));
      LexTransitive(files[i].path, files[mid].path, path);
    }
    forall i | mid < i < |files| && LexBelow(path, files[mid].path)
      ensures LexBelow(path, files[i].path)
    {
      assert LexBelow(PathKey(files[mid]), PathKey(files[i]));
      LexTransitive(path, files[mid].path, files[i].path);
    }
  }

  /** Binary search in a sorted manifest finds what a search from the front finds. */
  method FindPath(files: seq<File>, path: Bytes) returns (r: Option<nat>)
    requires StrictlySortedBy(PathKey, files)
    ensures r == IndexOf(files, path)
  {
    hide LexBelow, StrictlySortedBy;
    var low, high := 0, |files|;
    while low < high
      invariant 0 <= low <= high <= |files|
      invariant forall i | 0 <= i < low :: LexBelow(files[i].path, path)
      invariant forall i | high <= i < |files| :: LexBelow(path, files[i].path)
    {
      var mid := (low + high) / 2;
      if files[mid].path == path {
        IndexOfUnique(files, mid);
        return Some(mid);
      }
      BelowAll(files, path, mid);
      if LexBelow(files[mid].path, path) {
        low := mid + 1;
      } else {
        high := mid;
      }
    }
    LexIrreflexive(path);
    return None;
  }

  lemma {:induction false} TotalSizeRemove(files: seq<File>, i: nat)
    requires i < |files|
    ensures TotalSize(files) == files[i].size + TotalSize(files[..i] + files[i + 1..])
  {
    var rest := files[..i] + files[i + 1..];
    if i == 0 {
      assert rest == files[1..];
    } else {
      TotalSizeRemove(files[1..], i - 1);
      assert rest[0] == files[0];
      assert rest[1..] == files[1..][..i - 1] + files[1..][i..];
    }
  }

  /** The payload count does not depend on member order. */
  lemma {:induction false} TotalSizePermutation(a: seq<File>, b: seq<File>)
    requires multiset(a) == multiset(b)
    ensures TotalSize(a) == TotalSize(b) && |a| == |b|
    decreases |a|
  {
    assert |multiset(a)| == |a| && |multiset(b)| == |b|;
    if a != [] {
      assert a[0] in multiset(a);
      var i :| 0 <= i < |b| && b[i] == a[0];
      var rest := b[..i] + b[i + 1..];
      TotalSizeRemove(b, i);
      assert a == [a[0]] + a[1..];
      assert b == b[..i] + [b[i]] + b[i + 1..];
      assert multiset(rest) == multiset(b) - multiset{b[i]};
      assert multiset(a[1..]) == multiset(a) - multiset{a[0]};
      TotalSizePermutation(a[1..], rest);
    }
  }

  /** No file of the list lies inside another one. */
  ghost predicate NoAncestors(files: seq<File>) {
    forall a, b | a in files && b in files :: !Ancestor(a.path, b.path)
  }

  /** Builds the sorted manifest. It fails exactly on an empty or oversized list, on a
      repeated name, and when one file lies inside another. */
  method NewManifest(files: seq<File>) returns (r: Result<seq<File>, ArchiveError>)
    requires forall f | f in files :: ValidPath(f.path) && f.size <= MAX_FILE_BYTES
    ensures r.Ok? ==> ValidManifest(r.value) && multiset(r.value) == multiset(files)
    ensures r == Err(LimitExceeded) <==> |files| > MAX_FILES || TotalSize(files) > MAX_PAYLOAD_BYTES
    ensures r == Err(InvalidManifest) <==>
              && |files| <= MAX_FILES && TotalSize(files) <= MAX_PAYLOAD_BYTES
              && (files == [] || !DistinctKeys(PathKey, files) || !NoAncestors(files))
    ensures r.Ok? || r.error == LimitExceeded || r.error == InvalidManifest
  {
    if files == [] {
      return Err(InvalidManifest);
    }
    if |files| > MAX_FILES {
      return Err(LimitExceeded);
    }
    var payload, k := 0, 0;
    while k < |files|
      invariant 0 <= k <= |files|
      invariant payload + TotalSize(files[k..]) == TotalSize(files)
      invariant payload <= MAX_PAYLOAD_BYTES
    {
      assert files[k..][0] == files[k] && files[k..][1..] == files[k + 1..];
      if payload + files[k].size > MAX_PAYLOAD_BYTES {
        return Err(LimitExceeded);
      }
      payload := payload + files[k].size;
      k := k + 1;
    }
    var sorted := SortBy(PathKey, files);
    SortedManifest(files);
    if exists i | 0 <= i < |sorted| - 1 :: PathKey(sorted[i]) == PathKey(sorted[i + 1]) {
      return Err(InvalidManifest);
    }
    var clear := CheckAncestors(sorted);
    if !clear {
      return Err(InvalidManifest);
    }
    return Ok(sorted);
  }

  lemma SortedManifest(files: seq<File>)
    ensures
      var sorted := SortBy(PathKey, files);
      && multiset(sorted) == multiset(files) && |sorted| == |files|
      && TotalSize(sorted) == TotalSize(files)
      && (NoAncestors(sorted) <==> NoAncestors(files))
      && (forall i | 0 <= i < |sorted| :: sorted[i] in files)
    ensures
      var sorted := SortBy(PathKey, files);
      && (StrictlySortedBy(PathKey, sorted) <==> DistinctKeys(PathKey, files))
      && (StrictlySortedBy(PathKey, sorted) <==>
          forall i | 0 <= i < |sorted| - 1 :: PathKey(sorted[i]) != PathKey(sorted[i + 1]))
  {
    var sorted := SortBy(PathKey, files);
    assert multiset(sorted) == multiset(files) && SortedBy(PathKey, sorted) by {
      SortByCorrect(PathKey, files);
    }
    assert TotalSize(sorted) == TotalSize(files) by {
      TotalSizePermutation(sorted, files);
    }
    assert NoAncestors(sorted) <==> NoAncestors(files) by {
      SameElements(sorted, files);
    }
    assert forall i | 0 <= i < |sorted| :: sorted[i] in files by {
      SameElements(sorted, files);
    }
    SortByStrict(PathKey, files);
    DistinctNeighbours(PathKey, sorted);
  }

  /** Looks up every separator-terminated prefix of every name. */
  method CheckAncestors(files: seq<File>) returns (clear: bool)
    requires StrictlySortedBy(PathKey, files)
    ensures clear <==> NoAncestors(files)
  {
    hide StrictlySortedBy;
    var n := 0;
    while n < |files|
      invariant 0 <= n <= |files|
      invariant forall a, j | a in files && 0 <= j < n :: !Ancestor(a.path, files[j].path)
    {
      var path, c := files[n].path, 0;
      while c < |path|
        invariant 0 <= c <= |path|
        invariant forall a | a in files && Ancestor(a.path, path) :: |a.path| >= c
      {
        if path[c] == SLASH {
          var found := FindPath(files, path[..c]);
          if found.Some? {
            assert files[found.value] in files && files[n] in files;
            assert Ancestor(files[found.value].path, files[n].path);
            return false;
          }
        }
        c := c + 1;
      }
      n := n + 1;
    }
    return true;
  }

  lemma {:induction false} LexAfterPrefix(a: Bytes, x: Bytes, y: Bytes)
    ensures LexBelow(a + x, a + y) <==> LexBelow(x, y)
  {
    if a == [] {
      assert a + x == x && a + y == y;
    } else {
      assert (a + x)[0] == a[0] && (a + x)[1..] == a[1..] + x;
      assert (a + y)[0] == a[0] && (a + y)[1..] == a[1..] + y;
      LexAfterPrefix(a[1..], x, y);
    }
  }

  /** Comparing neighbours in the sorted list is not enough: below every name there is room for
      a name between it and the names inside it, and only the prefix search sees past it. */
  lemma NeighboursMissAncestor(a: Bytes, below: Bytes)
    ensures
      var x, y, z := File(a, 0), File(a + [45], 0), File(a + [SLASH] + below, 0);
      && StrictlySortedBy(PathKey, [x, y, z])
      && !Ancestor(x.path, y.path) && !Ancestor(y.path, z.path)
      && !NoAncestors([x, y, z])
  {
    var x, y, z := File(a, 0), File(a + [45], 0), File(a + [SLASH] + below, 0);
    assert a + [] == a && a + [SLASH] + below == a + ([SLASH] + below);
    LexAfterPrefix(a, [], [45]);
    LexAfterPrefix(a, [45], [SLASH] + below);
    LexAfterPrefix(a, [], [SLASH] + below);
    hide LexBelow;
    assert [x, y, z][0] == x && [x, y, z][1] == y && [x, y, z][2] == z;
    assert x in [x, y, z] && z in [x, y, z] && Ancestor(x.path, z.path);
  }
}
