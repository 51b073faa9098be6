/** Preflight of a ZIP key container: what is accepted before any general parser runs. */
module Zip {
  import opened Common
  import opened ZipFormat

  // ----- Disjoint regions -----

  datatype Region = Region(start: nat, end: nat)

  function Ends(r: Region): seq<int> {
    [r.start, r.end]
  }

  predicate Apart(a: Region, b: Region) {
    a.end <= b.start || b.end <= a.start
  }

  ghost predicate AllApart(regions: seq<Region>) {
    forall i, j | 0 <= i < |regions| && 0 <= j < |regions| && i != j :: Apart(regions[i], regions[j])
  }

  ghost predicate NonEmpty(regions: seq<Region>) {
    forall r | r in regions :: r.start < r.end
  }

  predicate Overlaps(regions: seq<Region>, i: nat)
    requires i + 1 < |regions|
  {
    regions[i].end > regions[i + 1].start
  }

  lemma EndsOrder(a: Region, b: Region)
    ensures LexBelow(Ends(a), Ends(b)) <==> a.start < b.start || (a.start == b.start && a.end < b.end)
    ensures Ends(a) == Ends(b) <==> a == b
  {
    assert Ends(a)[1..] == [a.end] && Ends(b)[1..] == [b.end];
    assert [a.end][1..] == [] && [b.end][1..] == [] && !LexBelow([], []);
    assert LexBelow([a.end], [b.end]) <==> a.end < b.end;
  }

  lemma {:induction false} ChainApart(regions: seq<Region>, i: nat, j: nat)
    requires NonEmpty(regions) && forall k: nat | k + 1 < |regions| :: !Overlaps(regions, k)
    requires i < j < |regions|
    ensures regions[i].end <= regions[j].start
    decreases j - i
  {
    assert !Overlaps(regions, j - 1);
    if i < j - 1 {
      ChainApart(regions, i, j - 1);
      assert regions[j - 1] in regions;
    }
  }

  /** Sorted non-empty regions are pairwise apart exactly when no neighbours overlap. */
  lemma NeighboursSuffice(regions: seq<Region>)
    requires SortedBy(Ends, regions) && NonEmpty(regions)
    ensures AllApart(regions) <==> forall k: nat | k + 1 < |regions| :: !Overlaps(regions, k)
  {
    if forall k: nat | k + 1 < |regions| :: !Overlaps(regions, k) {
      forall i, j | 0 <= i < |regions| && 0 <= j < |regions| && i != j ensures Apart(regions[i], regions[j]) {
        if i < j {
          ChainApart(regions, i, j);
        } else {
          ChainApart(regions, j, i);
        }
      }
    }
    if AllApart(regions) {
      forall k: nat | k + 1 < |regions| ensures !Overlaps(regions, k) {
        assert Apart(regions[k], regions[k + 1]);
        EndsOrder(regions[k + 1], regions[k]);
        assert regions[k] in regions && regions[k + 1] in regions;
      }
    }
  }

  ghost predicate SetApart(regions: seq<Region>) {
    forall x, y | x in regions && y in regions && x != y :: Apart(x, y)
  }

  lemma ApartParts(regions: seq<Region>)
    requires NonEmpty(regions)
    ensures AllApart(regions) <==> DistinctKeys(Ends, regions) && SetApart(regions)
  {
    if AllApart(regions) {
      forall i, j | 0 <= i < j < |regions| ensures Ends(regions[i]) != Ends(regions[j]) {
        assert Apart(regions[i], regions[j]);
        assert regions[i] in regions;
        EndsOrder(regions[i], regions[j]);
      }
      forall x, y | x in regions && y in regions && x != y ensures Apart(x, y) {
        var i :| 0 <= i < |regions| && regions[i] == x;
        var j :| 0 <= j < |regions| && regions[j] == y;
      }
    }
    if DistinctKeys(Ends, regions) && SetApart(regions) {
      forall i, j | 0 <= i < |regions| && 0 <= j < |regions| && i != j ensures Apart(regions[i], regions[j]) {
        var low, high := if i < j then i else j, if i < j then j else i;
        assert Ends(regions[low]) != Ends(regions[high]);
        assert regions[i] in regions && regions[j] in regions;
      }
    }
  }

  lemma SortKeepsApart(regions: seq<Region>)
    requires NonEmpty(regions)
    ensures NonEmpty(SortBy(Ends, regions)) && (AllApart(SortBy(Ends, regions)) <==> AllApart(regions))
  {
    var sorted := SortBy(Ends, regions);
    SortByCorrect(Ends, regions);
    SortByDistinct(Ends, regions);
    forall x ensures x in sorted <==> x in regions {
      assert x in multiset(sorted) <==> x in multiset(regions);
    }
    ApartParts(regions);
    ApartParts(sorted);
  }

  /** Sorts the regions and compares neighbours. */
  method RegionsApart(regions: seq<Region>) returns (ok: bool)
    requires NonEmpty(regions)
    ensures ok <==> AllApart(regions)
  {
    var sorted := SortBy(Ends, regions);
    SortByCorrect(Ends, regions);
    SortKeepsApart(regions);
    NeighboursSuffice(sorted);
    var i: nat := 0;
    while i + 1 < |sorted|
      invariant forall k: nat | k < i && k + 1 < |sorted| :: !Overlaps(sorted, k)
    {
      if Overlaps(sorted, i) {
        return false;
      }
      i := i + 1;
    }
    ok := true;
  }

  // ----- One entry -----

  method ValidateExtra(b: Bytes) returns (r: Option<ZipError>)
    ensures r.None? <==> ExtraOk(b, 0)
  {
    var position := 0;
    while position < |b|
      invariant 0 <= position <= |b| && ExtraOk(b, 0) == ExtraOk(b, position)
    {
      var tag, length := Number16(b, position), Number16(b, position + 2);
      if tag.None? || length.None? {
        return Some(InvalidContainer);
      }
      if Ambiguous(tag.value) {
        return Some(UnsupportedContainer);
      }
      if position + 4 + length.value > |b| {
        return Some(InvalidContainer);
      }
      position := position + 4 + length.value;
    }
    r := None;
  }

  /** The local region of an entry, widened past a data descriptor where there is one. */
  method ValidateLocal(b: Bytes, e: Entry, directoryStart: nat) returns (r: Result<Region, ZipError>)
    ensures r.Ok? <==> LocalEnd(b, e, directoryStart).Some?
    ensures r.Ok? ==> r.value == Region(e.local, LocalEnd(b, e, directoryStart).value)
  {
    hide ExtraOk;
    if Span(b, e.local, 4) != Some(LOCAL_SIGNATURE) || e.local + 30 > directoryStart {
      return Err(InvalidContainer);
    }
    var nameLength, extraLength := Number16(b, e.local + 26), Number16(b, e.local + 28);
    if nameLength.None? || extraLength.None?
       || Number16(b, e.local + 6) != Some(e.flags) || Number16(b, e.local + 8) != Some(e.compression)
       || Span(b, e.local + 30, nameLength.value) != Some(e.name) {
      return Err(InvalidContainer);
    }
    var extra := Span(b, e.local + 30 + nameLength.value, extraLength.value);
    if extra.None? {
      return Err(InvalidContainer);
    }
    var bad := ValidateExtra(extra.value);
    if bad.Some? {
      return Err(bad.value);
    }
    var end := e.local + 30 + nameLength.value + extraLength.value + e.compressed;
    if e.flags / 8 % 2 == 0 {
      if Number32(b, e.local + 14) != Some(e.crc) || Number32(b, e.local + 18) != Some(e.compressed)
         || Number32(b, e.local + 22) != Some(e.inflated) {
        return Err(InvalidContainer);
      }
    } else {
      if !ZeroOr(Number32(b, e.local + 14), e.crc) || !ZeroOr(Number32(b, e.local + 18), e.compressed)
         || !ZeroOr(Number32(b, e.local + 22), e.inflated) {
        return Err(InvalidContainer);
      }
      var descriptor := DescriptorEnd(b, end, e);
      if descriptor.None? {
        return Err(InvalidContainer);
      }
      end := descriptor.value;
    }
    r := if end > directoryStart then Err(InvalidContainer) else Ok(Region(e.local, end));
  }

  /** One central entry and its local region. */
  method CheckEntry(b: Bytes, at: nat, directoryStart: nat, end: nat) returns (r: Result<Entry, ZipError>)
    requires end <= |b|
    ensures r.Ok? <==> ReadEntry(b, at, directoryStart, end).Some?
    ensures r.Ok? ==> r.value == ReadEntry(b, at, directoryStart, end).value
  {
    hide ExtraOk, Utf8, EntryName, LocalEnd, FileType;
    if at + 46 > end || b[at..at + 4] != CENTRAL_SIGNATURE {
      return Err(InvalidContainer);
    }
    var flags, compression, crc := Number16(b, at + 8).value, Number16(b, at + 10).value, Number32(b, at + 16).value;
    var compressed, inflated := Number32(b, at + 20).value, Number32(b, at + 24).value;
    var nameLength, extraLength := Number16(b, at + 28).value, Number16(b, at + 30).value;
    var commentLength, disk := Number16(b, at + 32).value, Number16(b, at + 34).value;
    var external, local := Number32(b, at + 38).value, Number32(b, at + 42).value;
    if !(flags in {0, 0x0008, 0x0800, 0x0808}) || !(compression in {0, 8}) || disk != 0
       || compressed == U32_MAX || inflated == U32_MAX || local == U32_MAX {
      return Err(UnsupportedContainer);
    }
    var name := Span(b, at + 46, nameLength);
    if name.None? || !Utf8(name.value) {
      return Err(InvalidContainer);
    }
    var directory := EndsWithSlash(name.value);
    var fileType := FileType(external);
    if !EntryName(name.value, directory) || !(fileType in {0, 0x8000, 0x4000})
       || (fileType == 0x4000 && !directory) || (directory && inflated != 0) {
      return Err(InvalidContainer);
    }
    var next := at + 46 + nameLength + extraLength + commentLength;
    if next > end {
      return Err(InvalidContainer);
    }
    var bad := ValidateExtra(b[at + 46 + nameLength..at + 46 + nameLength + extraLength]);
    if bad.Some? {
      return Err(bad.value);
    }
    var e := Entry(at, next, name.value, flags, compression, crc, compressed, inflated, local, 0);
    var region := ValidateLocal(b, e, directoryStart);
    r := if region.Err? then Err(region.error) else Ok(e.(regionEnd := region.value.end));
  }

  // ----- The whole container -----

  ghost predicate DistinctTrims(entries: seq<Entry>) {
    forall i, j | 0 <= i < j < |entries| :: Trim(entries[i].name) != Trim(entries[j].name)
  }

  function Regions(entries: seq<Entry>): (r: seq<Region>)
    ensures |r| == |entries|
  {
    seq(|entries|, i requires 0 <= i < |entries| => Region(entries[i].local, entries[i].regionEnd))
  }

  /** What a requested entry must satisfy. */
  predicate Fits(e: Entry, limits: KeyLimits) {
    && !IsDirectory(e) && e.inflated <= limits.maxKeyBytes
    && e.inflated <= e.compressed * limits.maxExpansionRatio && (e.compression == 0 ==> e.inflated == e.compressed)
  }

  predicate Names(entries: seq<Entry>, requested: Bytes, i: nat) {
    i < |entries| && entries[i].name == requested
  }

  /** The conditions on all entries together. */
  ghost predicate Good(entries: seq<Entry>, requested: Bytes, limits: KeyLimits) {
    && DistinctTrims(entries) && AllApart(Regions(entries))
    && (forall i: nat | Names(entries, requested, i) :: Fits(entries[i], limits))
    && exists i: nat :: Names(entries, requested, i)
  }

  /** A key container: the last end record with a quiet comment; a directory tiled by readable
      entries with different names and disjoint local regions below it; and the requested
      entry within its limits. */
  ghost predicate Acceptable(b: Bytes, requested: Bytes, limits: KeyLimits, end: nat, d: Directory, entries: seq<Entry>) {
    && EndRecord(b, end) && (forall q: nat | end < q :: !EndRecord(b, q)) && QuietComment(b, end)
    && ReadDirectory(b, end, limits) == Ok(d)
    && |entries| == d.count && Tiles(d.start, end, entries) && Readable(b, d.start, end, entries)
    && Good(entries, requested, limits)
  }

  lemma RegionsNonEmpty(b: Bytes, start: nat, end: nat, entries: seq<Entry>)
    requires Readable(b, start, end, entries)
    ensures NonEmpty(Regions(entries))
    ensures forall i | 0 <= i < |entries| :: Regions(entries)[i].end <= start
  {
    forall i | 0 <= i < |entries| ensures entries[i].local < entries[i].regionEnd <= start {
      assert ReadEntry(b, entries[i].at, start, end) == Some(entries[i]);
      EntryPlace(b, entries[i].at, start, end);
    }
  }

  /** A container is determined by its bytes: the last end record, the directory it names and
      the chain of entries in it. */
  ghost predicate Determined(b: Bytes, requested: Bytes, limits: KeyLimits, end: nat, d: Directory, entries: seq<Entry>) {
    && |b| >= 22 && FindEnd(b, |b| - 22) == Some(end) && QuietComment(b, end)
    && ReadDirectory(b, end, limits) == Ok(d)
    && Chain(b, d.start, end, d.count) == Some(entries) && Reached(d.start, entries) == end
    && Good(entries, requested, limits)
  }

  lemma AcceptableIsDetermined(b: Bytes, requested: Bytes, limits: KeyLimits, end: nat, d: Directory, entries: seq<Entry>)
    ensures Acceptable(b, requested, limits, end, d, entries) <==> Determined(b, requested, limits, end, d, entries)
  {
    hide ReadDirectory, Chain, Good, Number16, Readable;
    if Acceptable(b, requested, limits, end, d, entries) {
      assert Tiles(d.start, Reached(d.start, entries), entries);
      TilesChain(b, d.start, end, entries);
      var found := FindEnd(b, |b| - 22);
      assert found.Some? && end <= found.value && EndRecord(b, found.value);
    }
    if Determined(b, requested, limits, end, d, entries) {
      ChainLength(b, d.start, end, d.count);
      ChainTiles(b, d.start, end, d.count);
      forall q: nat | end < q ensures !EndRecord(b, q) {
        assert q <= |b| - 22 || !EndRecord(b, q);
      }
    }
  }

  /** The entries read so far and what has been collected from them. */
  ghost predicate Gathered(b: Bytes, d: Directory, end: nat, requested: Bytes, limits: KeyLimits, k: nat,
      entries: seq<Entry>, names: set<Bytes>, ranges: seq<Region>, selected: Option<nat>)
  {
    && Chain(b, d.start, end, k) == Some(entries) && |entries| == k
    && names == (set i | 0 <= i < |entries| :: Trim(entries[i].name)) && DistinctTrims(entries)
    && ranges == Regions(entries) && Picked(entries, requested, limits, selected)
  }

  /** The request has been matched by the selected entry alone, within its limits. */
  ghost predicate Picked(entries: seq<Entry>, requested: Bytes, limits: KeyLimits, selected: Option<nat>) {
    && (forall i: nat | Names(entries, requested, i) :: Fits(entries[i], limits) && selected == Some(i))
    && (selected.Some? ==> Names(entries, requested, selected.value))
  }

  lemma PickedIsGood(entries: seq<Entry>, requested: Bytes, limits: KeyLimits, selected: Option<nat>)
    requires DistinctTrims(entries) && Picked(entries, requested, limits, selected)
    ensures Good(entries, requested, limits) <==> AllApart(Regions(entries)) && selected.Some?
  {
    hide DistinctTrims, AllApart, Regions, Fits;
  }

  lemma GatherStep(b: Bytes, d: Directory, end: nat, requested: Bytes, limits: KeyLimits, k: nat,
      entries: seq<Entry>, names: set<Bytes>, ranges: seq<Region>, selected: Option<nat>, e: Entry)
    requires Gathered(b, d, end, requested, limits, k, entries, names, ranges, selected)
    requires ReadEntry(b, Reached(d.start, entries), d.start, end) == Some(e)
    requires Trim(e.name) !in names && (e.name == requested ==> Fits(e, limits))
    ensures Gathered(b, d, end, requested, limits, k + 1, entries + [e], names + {Trim(e.name)},
      ranges + [Region(e.local, e.regionEnd)], if e.name == requested then Some(k) else selected)
  {
    ChainStep(b, d.start, end, k);
    hide ReadEntry, Chain, Trim, Fits;
    var more := entries + [e];
    assert Regions(more) == ranges + [Region(e.local, e.regionEnd)];
    assert more[..k] == entries && more[k] == e;
    var named := set i | 0 <= i < |more| :: Trim(more[i].name);
    forall n ensures n in named <==> n in names + {Trim(e.name)} {
      if n in names {
        var i :| 0 <= i < |entries| && Trim(entries[i].name) == n;
        assert more[i] == entries[i];
      }
    }
    forall i: nat | Names(more, requested, i)
      ensures Fits(more[i], limits) && (if e.name == requested then Some(k) else selected) == Some(i)
    {
      if i < k {
        assert Names(entries, requested, i);
        assert Trim(entries[i].name) in names;
      }
    }
  }

  /** An entry that repeats a name or exceeds its limits spoils every container it is in. */
  lemma SpoiledEntry(b: Bytes, d: Directory, end: nat, requested: Bytes, limits: KeyLimits, k: nat,
      entries: seq<Entry>, names: set<Bytes>, ranges: seq<Region>, selected: Option<nat>, all: seq<Entry>)
    requires Gathered(b, d, end, requested, limits, k, entries, names, ranges, selected) && k < d.count
    requires Chain(b, d.start, end, d.count) == Some(all)
    ensures
      var e := ReadEntry(b, Reached(d.start, entries), d.start, end);
      e.Some? && (Trim(e.value.name) in names || (e.value.name == requested && !Fits(e.value, limits)) ==>
        !Good(all, requested, limits))
  {
    hide ReadEntry, Chain, Trim, Fits, AllApart;
    ChainStep(b, d.start, end, k);
    ChainPrefix(b, d.start, end, k + 1, d.count);
    var e := ReadEntry(b, Reached(d.start, entries), d.start, end).value;
    assert all[..k] == entries && all[k] == e;
    if Trim(e.name) in names {
      var i :| 0 <= i < k && Trim(entries[i].name) == Trim(e.name);
      assert all[i] == entries[i];
    }
    if e.name == requested && !Fits(e, limits) {
      assert Names(all, requested, k);
    }
  }

  ghost predicate NoGoodChain(b: Bytes, d: Directory, end: nat, requested: Bytes, limits: KeyLimits) {
    var all := Chain(b, d.start, end, d.count);
    all.None? || Reached(d.start, all.value) != end || !Good(all.value, requested, limits)
  }

  method ReadEntries(b: Bytes, requested: Bytes, limits: KeyLimits, end: nat, d: Directory)
    returns (r: Result<nat, ZipError>, ghost entries: seq<Entry>)
    requires end <= |b|
    ensures r.Ok? ==>
      && Chain(b, d.start, end, d.count) == Some(entries) && Reached(d.start, entries) == end
      && Good(entries, requested, limits) && Names(entries, requested, r.value)
    ensures r.Err? ==> NoGoodChain(b, d, end, requested, limits)
  {
    var position, names: set<Bytes>, ranges: seq<Region> := d.start, {}, [];
    var selected: Option<nat> := None;
    entries := [];
    var k := 0;
    assert Gathered(b, d, end, requested, limits, 0, [], {}, [], None) by {
      assert Regions([]) == [];
    }
    hide ReadEntry, Chain, Trim, Fits, Gathered, Good;
    while k < d.count
      invariant 0 <= k <= d.count && position == Reached(d.start, entries)
      invariant Gathered(b, d, end, requested, limits, k, entries, names, ranges, selected)
    {
      GatheredChain(b, d, end, requested, limits, k, entries, names, ranges, selected);
      if Chain(b, d.start, end, d.count).Some? {
        SpoiledEntry(b, d, end, requested, limits, k, entries, names, ranges, selected,
          Chain(b, d.start, end, d.count).value);
      }
      var read := CheckEntry(b, position, d.start, end);
      if read.Err? {
        return Err(read.error), entries;
      }
      var e := read.value;
      if Trim(e.name) in names {
        return Err(InvalidContainer), entries;
      }
      if e.name == requested && !Fits(e, limits) {
        return Err(if IsDirectory(e) then InvalidContainer else ResourceLimit), entries;
      }
      EntryPlace(b, position, d.start, end);
      GatherStep(b, d, end, requested, limits, k, entries, names, ranges, selected, e);
      names := names + {Trim(e.name)};
      ranges := ranges + [Region(e.local, e.regionEnd)];
      selected := if e.name == requested then Some(k) else selected;
      entries := entries + [e];
      position := e.next;
      k := k + 1;
    }
    GatheredAll(b, d, end, requested, limits, entries, names, ranges, selected);
    if position != end {
      return Err(InvalidContainer), entries;
    }
    var ok := RegionsApart(ranges);
    if !ok {
      return Err(InvalidContainer), entries;
    }
    r := if selected.None? then Err(SourceUnavailable) else Ok(selected.value);
  }

  lemma GatheredChain(b: Bytes, d: Directory, end: nat, requested: Bytes, limits: KeyLimits, k: nat,
      entries: seq<Entry>, names: set<Bytes>, ranges: seq<Region>, selected: Option<nat>)
    requires Gathered(b, d, end, requested, limits, k, entries, names, ranges, selected)
    ensures Chain(b, d.start, end, k) == Some(entries)
  {
  }

  /** Once all entries are gathered, only the regions and the presence of the request are left
      to decide. */
  lemma GatheredAll(b: Bytes, d: Directory, end: nat, requested: Bytes, limits: KeyLimits,
      entries: seq<Entry>, names: set<Bytes>, ranges: seq<Region>, selected: Option<nat>)
    requires Gathered(b, d, end, requested, limits, d.count, entries, names, ranges, selected)
    ensures Chain(b, d.start, end, d.count) == Some(entries) && NonEmpty(ranges)
    ensures Good(entries, requested, limits) <==> AllApart(ranges) && selected.Some?
    ensures selected.Some? ==> Names(entries, requested, selected.value)
  {
    ChainTiles(b, d.start, end, d.count);
    RegionsNonEmpty(b, d.start, end, entries);
    PickedIsGood(entries, requested, limits, selected);
    hide Chain, Trim, AllApart, Tiles, Readable, Regions, DistinctTrims, Good;
  }

  /** Accepts exactly the key containers, and selects the entry that bears the requested name. */
  method Preflight(b: Bytes, requested: Bytes, limits: KeyLimits) returns (r: Result<nat, ZipError>)
    ensures r.Ok? ==> exists end, d, entries ::
      Acceptable(b, requested, limits, end, d, entries) && Names(entries, requested, r.value)
    ensures r.Err? ==> forall end, d, entries :: !Acceptable(b, requested, limits, end, d, entries)
  {
    forall end, d, entries
      ensures Acceptable(b, requested, limits, end, d, entries) <==> Determined(b, requested, limits, end, d, entries)
    {
      AcceptableIsDetermined(b, requested, limits, end, d, entries);
    }
    hide Acceptable, ReadDirectory, Chain, Good;
    if |b| < 22 {
      return Err(InvalidContainer);
    }
    var found := FindEnd(b, |b| - 22);
    if found.None? {
      return Err(InvalidContainer);
    }
    var end := found.value;
    if !QuietComment(b, end) {
      return Err(InvalidContainer);
    }
    var read := ReadDirectory(b, end, limits);
    if read.Err? {
      return Err(read.error);
    }
    ghost var entries;
    r, entries := ReadEntries(b, requested, limits, end, read.value);
    assert r.Ok? ==> Determined(b, requested, limits, end, read.value, entries);
  }

  /** In a key container no two entries share bytes, locally or in the directory, and exactly
      one entry bears the requested name. */
  lemma ContainerIsUnambiguous(b: Bytes, requested: Bytes, limits: KeyLimits, end: nat, d: Directory,
      entries: seq<Entry>, i: nat, j: nat)
    requires Acceptable(b, requested, limits, end, d, entries) && i < j < |entries|
    ensures d.start <= entries[i].at < entries[i].next <= entries[j].at < end
    ensures entries[i].regionEnd <= entries[j].local || entries[j].regionEnd <= entries[i].local
    ensures entries[i].regionEnd <= d.start && entries[j].regionEnd <= d.start
    ensures !(entries[i].name == requested && entries[j].name == requested)
  {
    assert Apart(Regions(entries)[i], Regions(entries)[j]);
    RegionsNonEmpty(b, d.start, end, entries);
    assert Trim(entries[i].name) != Trim(entries[j].name);
    hide ReadDirectory, ReadEntry, Good, Trim, EndRecord, QuietComment;
    EntriesAscend(b, d.start, end, entries, i, j);
  }

  lemma {:induction false} EntriesAscend(b: Bytes, start: nat, end: nat, entries: seq<Entry>, i: nat, j: nat)
    requires Tiles(start, end, entries) && Readable(b, start, end, entries) && i < j < |entries|
    ensures start <= entries[i].at < entries[i].next <= entries[j].at < end
    decreases j
  {
    hide ReadEntry;
    assert ReadEntry(b, entries[i].at, start, end) == Some(entries[i]);
    assert ReadEntry(b, entries[j].at, start, end) == Some(entries[j]);
    EntryPlace(b, entries[i].at, start, end);
    EntryPlace(b, entries[j].at, start, end);
    assert entries[..j][j - 1] == entries[j - 1];
    if i < j - 1 {
      EntriesAscend(b, start, end, entries, i, j - 1);
      assert ReadEntry(b, entries[j - 1].at, start, end) == Some(entries[j - 1]);
      EntryPlace(b, entries[j - 1].at, start, end);
    }
    EntryAfterStart(b, start, end, entries, i);
  }

  lemma {:induction false} EntryAfterStart(b: Bytes, start: nat, end: nat, entries: seq<Entry>, i: nat)
    requires Tiles(start, end, entries) && Readable(b, start, end, entries) && i < |entries|
    ensures start <= entries[i].at
    decreases i
  {
    hide ReadEntry;
    if i > 0 {
      EntryAfterStart(b, start, end, entries, i - 1);
      assert ReadEntry(b, entries[i - 1].at, start, end) == Some(entries[i - 1]);
      EntryPlace(b, entries[i - 1].at, start, end);
      assert entries[..i][i - 1] == entries[i - 1];
    }
  }
}
