/** The ZIP structures a key container may use (sections 4.3.7, 4.3.12 and 4.3.16 of the ZIP
    application note), read at fixed offsets from untrusted bytes. */
module ZipFormat {
  import opened Common

  datatype ZipError = InvalidContainer | UnsupportedContainer | ResourceLimit | SourceUnavailable

  datatype KeyLimits = KeyLimits(maxEntries: nat, maxDirectoryBytes: nat, maxKeyBytes: nat, maxExpansionRatio: nat)

  const END_SIGNATURE: Bytes := [80, 75, 5, 6]
  const CENTRAL_SIGNATURE: Bytes := [80, 75, 1, 2]
  const LOCAL_SIGNATURE: Bytes := [80, 75, 3, 4]
  const DESCRIPTOR_SIGNATURE: Bytes := [80, 75, 7, 8]
  const U32_MAX := 0xFFFF_FFFF

  // ----- Numbers and spans -----

  function Span(b: Bytes, start: nat, length: nat): Option<Bytes> {
    if start + length <= |b| then Some(b[start..start + length]) else None
  }

  function Number16(b: Bytes, at: nat): Option<nat> {
    if at + 2 <= |b| then Some(b[at] as int + 256 * b[at + 1] as int) else None
  }

  function Number32(b: Bytes, at: nat): Option<nat> {
    if at + 4 <= |b|
    then Some(b[at] as int + 0x100 * b[at + 1] as int + 0x1_0000 * b[at + 2] as int + 0x100_0000 * b[at + 3] as int)
    else None
  }

  // ----- Names -----

  predicate Continues(s: Bytes, i: nat) {
    i < |s| && 0x80 <= s[i] <= 0xBF
  }

  /** Well-formed UTF-8. */
  predicate Utf8(s: Bytes) {
    if s == [] then true
    else if s[0] < 0x80 then Utf8(s[1..])
    else if 0xC2 <= s[0] <= 0xDF then Continues(s, 1) && Utf8(s[2..])
    else if 0xE0 <= s[0] <= 0xEF then
      && Continues(s, 1) && Continues(s, 2)
      && (s[0] == 0xE0 ==> s[1] >= 0xA0) && (s[0] == 0xED ==> s[1] <= 0x9F) && Utf8(s[3..])
    else
      && 0xF0 <= s[0] <= 0xF4 && Continues(s, 1) && Continues(s, 2) && Continues(s, 3)
      && (s[0] == 0xF0 ==> s[1] >= 0x90) && (s[0] == 0xF4 ==> s[1] <= 0x8F) && Utf8(s[4..])
  }

  predicate EndsWithSlash(name: Bytes) {
    name != [] && name[|name| - 1] == SLASH
  }

  predicate EntryName(name: Bytes, directory: bool) {
    && name != [] && |name| <= 1024 && 92 !in name && 58 !in name && 0 !in name
    && var plain := if directory && EndsWithSlash(name) then name[..|name| - 1] else name;
       && plain != []
       && forall i | 0 <= i < |Components(plain)| ::
         Components(plain)[i] != [] && Components(plain)[i] != [46] && Components(plain)[i] != [46, 46]
  }

  function Trim(name: Bytes): Bytes {
    if EndsWithSlash(name) then Trim(name[..|name| - 1]) else name
  }

  // ----- Extra fields -----

  predicate Ambiguous(tag: nat) {
    tag == 0x0001 || tag == 0x9901 || tag == 0x7075
  }

  /** Extra fields tile their space and none makes the entry ambiguous. */
  predicate ExtraOk(b: Bytes, position: nat)
    decreases |b| - position
  {
    position >= |b|
    || (
        var tag, length := Number16(b, position), Number16(b, position + 2);
        && tag.Some? && length.Some? && !Ambiguous(tag.value) && position + 4 + length.value <= |b|
        && ExtraOk(b, position + 4 + length.value))
  }

  // ----- Entries -----

  datatype Entry = Entry(
    at: nat, next: nat,
    name: Bytes, flags: nat, compression: nat, crc: nat, compressed: nat, inflated: nat,
    local: nat, regionEnd: nat)

  predicate IsDirectory(e: Entry) {
    EndsWithSlash(e.name)
  }

  /** Where the data descriptor after the data ends, if it agrees with the directory. */
  function DescriptorEnd(b: Bytes, dataEnd: nat, e: Entry): Option<nat> {
    var mark := Span(b, dataEnd, 4);
    if mark.None? then None
    else
      var at := if mark.value == DESCRIPTOR_SIGNATURE then dataEnd + 4 else dataEnd;
      if Number32(b, at) == Some(e.crc) && Number32(b, at + 4) == Some(e.compressed)
         && Number32(b, at + 8) == Some(e.inflated) then Some(at + 12) else None
  }

  predicate ZeroOr(value: Option<nat>, expected: nat) {
    value == Some(0) || value == Some(expected)
  }

  /** The local region of an entry, when the local header agrees with the directory and the
      region ends before it. */
  function LocalEnd(b: Bytes, e: Entry, directoryStart: nat): Option<nat> {
    var nameLength, extraLength := Number16(b, e.local + 26), Number16(b, e.local + 28);
    if Span(b, e.local, 4) != Some(LOCAL_SIGNATURE) || e.local + 30 > directoryStart
       || nameLength.None? || extraLength.None? then None
    else
      var extra := Span(b, e.local + 30 + nameLength.value, extraLength.value);
      if Number16(b, e.local + 6) != Some(e.flags) || Number16(b, e.local + 8) != Some(e.compression)
         || Span(b, e.local + 30, nameLength.value) != Some(e.name)
         || extra.None? || !ExtraOk(extra.value, 0) then None
      else
        var dataEnd := e.local + 30 + nameLength.value + extraLength.value + e.compressed;
        var streamed := e.flags / 8 % 2 == 1;
        var agrees :=
          if streamed then
            && ZeroOr(Number32(b, e.local + 14), e.crc) && ZeroOr(Number32(b, e.local + 18), e.compressed)
            && ZeroOr(Number32(b, e.local + 22), e.inflated)
          else
            && Number32(b, e.local + 14) == Some(e.crc) && Number32(b, e.local + 18) == Some(e.compressed)
            && Number32(b, e.local + 22) == Some(e.inflated);
        var end := if streamed then DescriptorEnd(b, dataEnd, e) else Some(dataEnd);
        if !agrees || end.None? || end.value > directoryStart then None else end
  }

  /** The upper bits of the external attributes that tell the file type. */
  function FileType(external: nat): nat {
    external / 0x1_0000 / 0x1000 * 0x1000
  }

  /** One entry of the central directory together with its local region, if everything about
      it that does not depend on other entries or on the request is right. */
  function ReadEntry(b: Bytes, at: nat, directoryStart: nat, end: nat): Option<Entry> {
    if at + 46 > end || end > |b| || b[at..at + 4] != CENTRAL_SIGNATURE then None
    else
      var flags, compression, crc := Number16(b, at + 8).value, Number16(b, at + 10).value, Number32(b, at + 16).value;
      var compressed, inflated := Number32(b, at + 20).value, Number32(b, at + 24).value;
      var nameLength, extraLength := Number16(b, at + 28).value, Number16(b, at + 30).value;
      var commentLength, disk := Number16(b, at + 32).value, Number16(b, at + 34).value;
      var external, local := Number32(b, at + 38).value, Number32(b, at + 42).value;
      var name := Span(b, at + 46, nameLength);
      var next := at + 46 + nameLength + extraLength + commentLength;
      if !(flags in {0, 0x0008, 0x0800, 0x0808}) || !(compression in {0, 8}) || disk != 0
         || compressed == U32_MAX || inflated == U32_MAX || local == U32_MAX then None
      else if name.None? || !Utf8(name.value) || !EntryName(name.value, EndsWithSlash(name.value)) then None
      else if !(FileType(external) in {0, 0x8000, 0x4000})
         || (FileType(external) == 0x4000 && !EndsWithSlash(name.value))
         || (EndsWithSlash(name.value) && inflated != 0) || next > end then None
      else if !ExtraOk(b[at + 46 + nameLength..at + 46 + nameLength + extraLength], 0) then None
      else
        var e := Entry(at, next, name.value, flags, compression, crc, compressed, inflated, local, 0);
        var region := LocalEnd(b, e, directoryStart);
        if region.None? then None else Some(e.(regionEnd := region.value))
  }

  /** What an entry guarantees about where it lies. */
  lemma EntryPlace(b: Bytes, at: nat, directoryStart: nat, end: nat)
    requires ReadEntry(b, at, directoryStart, end).Some?
    ensures
      var e := ReadEntry(b, at, directoryStart, end).value;
      && e.at == at && at + 46 + |e.name| <= e.next <= end <= |b|
      && b[at + 46..at + 46 + |e.name|] == e.name
      && e.local + 30 + |e.name| + e.compressed <= e.regionEnd <= directoryStart
      && Span(b, e.local, 4) == Some(LOCAL_SIGNATURE) && Span(b, e.local + 30, |e.name|) == Some(e.name)
  {
    hide ExtraOk, Utf8, EntryName, FileType;
  }

  // ----- The end record -----

  /** An end record whose comment runs to the end of the bytes. */
  predicate EndRecord(b: Bytes, at: nat) {
    && at + 22 <= |b| <= at + 65_557 && b[at..at + 4] == END_SIGNATURE
    && Number16(b, at + 20) == Some(|b| - at - 22)
  }

  /** The last end record. */
  function FindEnd(b: Bytes, from: nat): (r: Option<nat>)
    ensures r.Some? ==> r.value <= from && EndRecord(b, r.value)
    ensures forall q: nat | q <= from && EndRecord(b, q) :: r.Some? && q <= r.value
  {
    if EndRecord(b, from) then Some(from) else if from == 0 then None else FindEnd(b, from - 1)
  }

  predicate SignatureAt(b: Bytes, i: nat) {
    i + 4 <= |b| && b[i..i + 4] == END_SIGNATURE
  }

  /** No second end record hides in the comment. */
  predicate QuietComment(b: Bytes, end: nat) {
    forall i | end + 22 <= i <= |b| :: !SignatureAt(b, i)
  }

  datatype Directory = Directory(count: nat, start: nat, size: nat)

  /** The directory named by the end record, when it is on one disk, within limits and ends
      where the record begins. */
  function ReadDirectory(b: Bytes, end: nat, limits: KeyLimits): Result<Directory, ZipError>
    requires EndRecord(b, end)
  {
    var count, size, start := Number16(b, end + 10).value, Number32(b, end + 12).value, Number32(b, end + 16).value;
    if Number16(b, end + 4).value != 0 || Number16(b, end + 6).value != 0 || Number16(b, end + 8).value != count
       || count == 0xFFFF || size == U32_MAX || start == U32_MAX then Err(UnsupportedContainer)
    else if count > limits.maxEntries || size > limits.maxDirectoryBytes then Err(ResourceLimit)
    else if start + size != end then Err(InvalidContainer)
    else Ok(Directory(count, start, size))
  }

  // ----- The chain of entries -----

  /** The first k entries, each starting where the one before it ends. */
  function Chain(b: Bytes, start: nat, end: nat, k: nat): Option<seq<Entry>> {
    if k == 0 then Some([])
    else
      var done := Chain(b, start, end, k - 1);
      if done.None? then None
      else
        var e := ReadEntry(b, Reached(start, done.value), start, end);
        if e.None? then None else Some(done.value + [e.value])
  }

  function Reached(start: nat, entries: seq<Entry>): nat {
    if entries == [] then start else entries[|entries| - 1].next
  }

  lemma ChainStep(b: Bytes, start: nat, end: nat, k: nat)
    ensures
      var done, next := Chain(b, start, end, k), Chain(b, start, end, k + 1);
      if done.None? then next.None?
      else
        var e := ReadEntry(b, Reached(start, done.value), start, end);
        next == if e.None? then None else Some(done.value + [e.value])
  {
    hide ReadEntry;
  }

  lemma {:induction false} ChainPrefix(b: Bytes, start: nat, end: nat, j: nat, k: nat)
    requires j <= k
    ensures
      var part, whole := Chain(b, start, end, j), Chain(b, start, end, k);
      if part.None? then whole.None? else whole.Some? ==> part.value <= whole.value
    decreases k
  {
    hide ReadEntry, Chain;
    if j < k {
      ChainPrefix(b, start, end, j, k - 1);
      ChainStep(b, start, end, k - 1);
    }
  }

  lemma {:induction false} ChainLength(b: Bytes, start: nat, end: nat, k: nat)
    ensures Chain(b, start, end, k).Some? ==> |Chain(b, start, end, k).value| == k
  {
    hide ReadEntry;
    if k > 0 {
      ChainLength(b, start, end, k - 1);
    }
  }

  /** Entries lie end to end from the start of the directory. */
  ghost predicate Tiles(start: nat, end: nat, entries: seq<Entry>) {
    && Reached(start, entries) == end
    && forall i | 0 <= i < |entries| :: entries[i].at == Reached(start, entries[..i])
  }

  ghost predicate Readable(b: Bytes, start: nat, end: nat, entries: seq<Entry>) {
    forall i | 0 <= i < |entries| :: ReadEntry(b, entries[i].at, start, end) == Some(entries[i])
  }

  lemma {:induction false} ChainTiles(b: Bytes, start: nat, end: nat, k: nat)
    requires Chain(b, start, end, k).Some?
    ensures
      var entries := Chain(b, start, end, k).value;
      Tiles(start, Reached(start, entries), entries) && Readable(b, start, end, entries)
  {
    hide ReadEntry, Chain;
    ChainLength(b, start, end, k);
    if k > 0 {
      ChainStep(b, start, end, k - 1);
      ChainTiles(b, start, end, k - 1);
      var done := Chain(b, start, end, k - 1).value;
      var entries := Chain(b, start, end, k).value;
      EntryKeepsPlace(b, Reached(start, done), start, end);
      ChainLength(b, start, end, k - 1);
      forall i | 0 <= i < k
        ensures entries[i].at == Reached(start, entries[..i]) && ReadEntry(b, entries[i].at, start, end) == Some(entries[i])
      {
        if i < k - 1 {
          assert entries[..i] == done[..i] && entries[i] == done[i];
        } else {
          assert entries[..i] == done;
        }
      }
    } else {
      ChainStart(b, start, end);
    }
  }

  lemma ChainStart(b: Bytes, start: nat, end: nat)
    ensures Chain(b, start, end, 0) == Some([])
  {
  }

  lemma {:induction false} TilesChain(b: Bytes, start: nat, end: nat, entries: seq<Entry>)
    requires Tiles(start, Reached(start, entries), entries) && Readable(b, start, end, entries)
    ensures Chain(b, start, end, |entries|) == Some(entries)
    decreases |entries|
  {
    hide ReadEntry, Chain;
    if entries == [] {
      ChainStart(b, start, end);
    } else {
      var n := |entries| - 1;
      var init := entries[..n];
      forall i | 0 <= i < n
        ensures init[i].at == Reached(start, init[..i]) && ReadEntry(b, init[i].at, start, end) == Some(init[i])
      {
        assert init[..i] == entries[..i] && init[i] == entries[i];
      }
      TilesChain(b, start, end, init);
      ChainStep(b, start, end, n);
      assert entries[n].at == Reached(start, init) && ReadEntry(b, entries[n].at, start, end) == Some(entries[n]);
      assert entries == init + [entries[n]];
    }
  }

  lemma EntryKeepsPlace(b: Bytes, at: nat, directoryStart: nat, end: nat)
    ensures ReadEntry(b, at, directoryStart, end).Some? ==> ReadEntry(b, at, directoryStart, end).value.at == at
  {
    if ReadEntry(b, at, directoryStart, end).Some? {
      EntryPlace(b, at, directoryStart, end);
    }
  }
}
