/** The authenticated append-only record store over a file whose appends may stop at any
    byte. Clock, file system and lock failures are one sticky nondeterministic flag. */
module RecordStore {
  import opened Common
  import opened RecordFormat

  const CHUNK := 65536

  /** "age-encryption.org/v1\n" */
  const AGE_INTRO: Bytes :=
    [97, 103, 101, 45, 101, 110, 99, 114, 121, 112, 116, 105, 111, 110, 46, 111, 114, 103, 47, 118, 49, 10]

  /** A deadline or an I/O call may fail at any time; once one has, `faulted` stays set. */
  class Faults {
    var faulted: bool

    constructor ()
      ensures !faulted
    {
      faulted := false;
    }

    method Try() returns (ok: bool)
      modifies this
      ensures ok ==> faulted == old(faulted)
      ensures !ok ==> faulted
    {
      ok := *;
      if !ok {
        faulted := true;
      }
    }
  }

  /** File contents, and how many of its first bytes are known to survive a crash. */
  datatype Disk = Disk(bytes: Bytes, synced: nat)

  /** The locked ciphertext file: bounded reads and appends with a failure latch. */
  class CiphertextFile {
    var bytes: Bytes
    var synced: nat
    var failed: bool

    ghost predicate Valid()
      reads this
    {
      synced <= |bytes|
    }

    ghost function Now(): Disk
      reads this
    {
      Disk(bytes, synced)
    }

    constructor (bytes: Bytes)
      ensures Valid() && this.bytes == bytes && synced == |bytes| && !failed
    {
      this.bytes := bytes;
      synced := |bytes|;
      failed := false;
    }

    method Size(env: Faults) returns (r: Option<nat>)
      modifies env
      ensures old(env.faulted) ==> env.faulted
      ensures r.Some? ==> r.value == |bytes| <= MAX_STORE_BYTES && !failed
      ensures r.None? ==> env.faulted || failed || |bytes| > MAX_STORE_BYTES
    {
      if failed {
        return None;
      }
      var ok := env.Try();
      if !ok || |bytes| > MAX_STORE_BYTES {
        return None;
      }
      return Some(|bytes|);
    }

    method ReadAt(env: Faults, offset: nat, count: nat) returns (r: Option<Bytes>)
      modifies env
      ensures old(env.faulted) ==> env.faulted
      ensures r.Some? ==> offset + count <= |bytes| && r.value == bytes[offset..offset + count]
      ensures r.None? ==> env.faulted || failed || count > CHUNK || offset + count > |bytes|
                          || |bytes| > MAX_STORE_BYTES
    {
      if count > CHUNK {
        return None;
      }
      var size := Size(env);
      if size.None? || offset + count > size.value {
        return None;
      }
      var ok := env.Try();
      if !ok {
        return None;
      }
      return Some(bytes[offset..offset + count]);
    }

    /** The latch is set before the first byte is written and cleared only after the
        complete write was seen in the file size. */
    method Append(env: Faults, expectedSize: nat, chunk: Bytes) returns (ok: bool)
      requires Valid()
      modifies this, env
      ensures Valid() && synced == old(synced)
      ensures old(env.faulted) ==> env.faulted
      ensures ok ==> bytes == old(bytes) + chunk && !failed && |bytes| <= MAX_STORE_BYTES
      ensures ok ==> old(!failed) && expectedSize == old(|bytes|)
      ensures exists k | 0 <= k <= |chunk| :: bytes == old(bytes) + chunk[..k]
      ensures !ok && bytes != old(bytes) ==> failed
      ensures !ok ==> env.faulted || old(failed) || chunk == [] || |chunk| > CHUNK
                      || old(|bytes|) != expectedSize || old(|bytes|) + |chunk| > MAX_STORE_BYTES
    {
      assert bytes == bytes + chunk[..0];
      if chunk == [] || |chunk| > CHUNK {
        return false;
      }
      var size := Size(env);
      if size.None? || size.value != expectedSize || expectedSize + |chunk| > MAX_STORE_BYTES {
        return false;
      }
      failed := true;
      ok := env.Try();
      if !ok {
        var k := *;
        k := if 0 <= k <= |chunk| then k else 0;
        bytes := bytes + chunk[..k];
        return false;
      }
      assert chunk[..|chunk|] == chunk;
      bytes := bytes + chunk;
      ok := env.Try();
      if !ok {
        return false;
      }
      failed := false;
      return true;
    }

    method Synchronize(env: Faults) returns (ok: bool)
      requires Valid()
      modifies this, env
      ensures Valid() && bytes == old(bytes) && synced >= old(synced)
      ensures old(env.faulted) ==> env.faulted
      ensures ok ==> synced == |bytes| && !failed && old(!failed)
      ensures !ok ==> env.faulted || old(failed)
    {
      if failed {
        return false;
      }
      failed := true;
      ok := env.Try();
      if ok {
        synced := |bytes|;
        failed := false;
      }
    }

    /** A crash keeps at least what was synchronized; the file is then opened afresh. */
    method Crash()
      requires Valid()
      modifies this
      ensures Valid() && synced == old(synced) && !failed
      ensures exists n | old(synced) <= n <= |old(bytes)| :: bytes == old(bytes)[..n]
    {
      var n: nat := *;
      n := if synced <= n <= |bytes| then n else |bytes|;
      bytes := bytes[..n];
      failed := false;
    }
  }

  datatype RecordPublication = Durable | NotPublished | Unknown

  datatype ScanResult = ScanResult(size: nat, count: nat, matched: Option<Bytes>)

  /** The ciphertext recorded under exactly this binding. */
  function Lookup(rs: seq<Record>, b: Binding): Option<Bytes> {
    if rs == [] then None
    else if rs[|rs| - 1].binding == b then Some(rs[|rs| - 1].ciphertext)
    else Lookup(rs[..|rs| - 1], b)
  }

  /** No record carries the expected job under a different binding. */
  ghost predicate Agrees(rs: seq<Record>, expected: Option<Binding>) {
    expected.Some? ==> forall r | r in rs :: JobOf(r.binding) == JobOf(expected.value) ==> r.binding == expected.value
  }

  /** What a scan without failures accepts. */
  ghost predicate Readable(digest: Digest, store: Bytes, bytes: Bytes, expected: Option<Binding>)
    requires |store| == 16
  {
    && !AllZero(store)
    && WellFormed(digest, store, bytes)
    && (expected.Some? ==> StoreOf(expected.value) == store)
    && Agrees(Contents(digest, store, bytes), expected)
  }

  ghost function Scanned(digest: Digest, store: Bytes, bytes: Bytes, expected: Option<Binding>): ScanResult
    requires |store| == 16 && WellFormed(digest, store, bytes)
  {
    var rs := Contents(digest, store, bytes);
    ScanResult(|bytes|, |rs|, Matched(rs, expected))
  }

  function Matched(rs: seq<Record>, expected: Option<Binding>): Option<Bytes> {
    if expected.Some? then Lookup(rs, expected.value) else None
  }

  ghost predicate Acceptable(rs: seq<Record>, b: Binding, ciphertext: Bytes) {
    && Lookup(rs, b).None? && |rs| < MAX_RECORDS
    && 1 <= |ciphertext| <= MAX_CIPHERTEXT && AGE_INTRO <= ciphertext
  }

  /** What one publication attempt may do to the file and to the `uncertain` flag. */
  ghost predicate PublishStep(digest: Digest, store: Bytes, b: Binding, ciphertext: Bytes,
                              before: Disk, doubt: bool, r: RecordPublication, after: Disk, doubt': bool)
    requires |store| == 16
  {
    var record := Record(b, ciphertext);
    match r
    case Durable =>
      && !doubt && !doubt' && Appendable(digest, store, before.bytes, record)
      && after.bytes == before.bytes + RecordBytes(digest, record)
      && after.synced == |after.bytes|
    case NotPublished =>
      after == before && !doubt && !doubt' && WellFormed(digest, store, before.bytes)
    case Unknown =>
      && doubt' && after.synced >= before.synced
      && (|| after.bytes == before.bytes
          || (&& !doubt && Appendable(digest, store, before.bytes, record)
              && PartOf(RecordBytes(digest, record), before.bytes, after.bytes)))
  }

  /** `after` is `before` with a first part of `whole` appended. */
  ghost predicate PartOf(whole: Bytes, before: Bytes, after: Bytes) {
    exists k | 0 <= k <= |whole| :: after == before + whole[..k]
  }

  /** The file is a store to which `record` can be added. */
  ghost predicate Appendable(digest: Digest, store: Bytes, bytes: Bytes, record: Record)
    requires |store| == 16
  {
    && WellFormed(digest, store, bytes)
    && ValidRecords(store, Contents(digest, store, bytes) + [record])
    && AGE_INTRO <= record.ciphertext
  }

  ghost predicate ReconcileStep(digest: Digest, store: Bytes, b: Binding, before: Disk, doubt: bool,
                                r: RecordPublication, after: Disk, doubt': bool)
    requires |store| == 16
  {
    && after.bytes == before.bytes && after.synced >= before.synced
    && match r
       case Durable =>
         && !doubt' && after.synced == |after.bytes|
         && WellFormed(digest, store, before.bytes) && Lookup(Contents(digest, store, before.bytes), b).Some?
       case NotPublished => false
       case Unknown => doubt' == doubt
  }

  // ----- What the loop of a scan knows -----

  ghost predicate ScannedTo(digest: Digest, store: Bytes, bytes: Bytes, done: seq<Record>, position: nat)
    requires |store| == 16
  {
    && HEADER <= position <= |bytes|
    && ValidRecords(store, done)
    && bytes[..position] == Image(digest, store, done)
  }

  ghost function Jobs(rs: seq<Record>): set<Bytes> {
    set r | r in rs :: JobOf(r.binding)
  }

  /** If the file is a store at all, the next record of that store comes next. */
  lemma NextRecord(digest: Digest, store: Bytes, bytes: Bytes, done: seq<Record>, position: nat)
    requires |store| == 16 && ScannedTo(digest, store, bytes, done, position)
    requires WellFormed(digest, store, bytes) && position < |bytes|
    ensures
      var rs := Contents(digest, store, bytes);
      && |done| < |rs| && done == rs[..|done|]
      && HeadRecord(digest, store, bytes[position..]) == Some(rs[|done|])
  {
    hide HeadRecord, HeaderBytes, ValidRecord, RecordBytes;
    var rs, rest := Contents(digest, store, bytes), bytes[position..];
    assert bytes == bytes[..position] + rest;
    assert bytes[HEADER..] == Body(digest, done) + rest;
    assert bytes[HEADER..] == Body(digest, rs) + [];
    NothingToRead(digest, store);
    BodyPrefix(digest, store, done, rs, rest, []);
    var more := rs[|done|..];
    assert rest == Body(digest, more);
    assert more != [];
    assert more[0] == rs[|done|] && more[0] in rs;
    assert rest == RecordBytes(digest, more[0]) + Body(digest, more[1..]);
    HeadComplete(digest, store, more[0], Body(digest, more[1..]));
  }

  lemma ScanStep(digest: Digest, store: Bytes, bytes: Bytes, done: seq<Record>, position: nat)
    requires |store| == 16 && ScannedTo(digest, store, bytes, done, position)
    requires HeadRecord(digest, store, bytes[position..]).Some?
    requires |done| < MAX_RECORDS
    requires JobOf(HeadRecord(digest, store, bytes[position..]).value.binding) !in Jobs(done)
    ensures
      var r := HeadRecord(digest, store, bytes[position..]).value;
      ScannedTo(digest, store, bytes, done + [r], position + OVERHEAD + |r.ciphertext|)
  {
    hide HeaderBytes, ValidRecord, ValidRecords;
    var rest := bytes[position..];
    var r := HeadRecord(digest, store, rest).value;
    HeadSound(digest, store, rest);
    hide HeadRecord, RecordBytes;
    var n := OVERHEAD + |r.ciphertext|;
    AppendRecord(store, done, r);
    ImageAppend(digest, store, done, r);
    assert bytes[..position + n] == bytes[..position] + rest[..n];
  }

  lemma AppendRecord(store: Bytes, done: seq<Record>, r: Record)
    requires ValidRecords(store, done) && ValidRecord(store, r)
    ensures ValidRecords(store, done + [r]) <==> |done| < MAX_RECORDS && JobOf(r.binding) !in Jobs(done)
  {
    hide ValidRecord, JobOf;
    var all := done + [r];
    if JobOf(r.binding) in Jobs(done) {
      var x :| x in done && JobOf(x.binding) == JobOf(r.binding);
      var i :| 0 <= i < |done| && done[i] == x;
      assert JobOf(all[i].binding) == JobOf(all[|done|].binding);
    } else {
      forall i, j | 0 <= i < j < |all|
        ensures JobOf(all[i].binding) != JobOf(all[j].binding)
      {
        if j == |done| {
          assert done[i] in done;
        }
      }
    }
  }

  lemma ImageAppend(digest: Digest, store: Bytes, done: seq<Record>, r: Record)
    requires |store| == 16
    ensures Image(digest, store, done + [r]) == Image(digest, store, done) + RecordBytes(digest, r)
  {
    hide RecordBytes, HeaderBytes;
    BodyAppend(digest, done, [r]);
    assert Body(digest, [r]) == RecordBytes(digest, r) by {
      assert Body(digest, []) == [];
      assert [r][1..] == [];
    }
  }

  lemma LookupAppend(rs: seq<Record>, r: Record, b: Binding)
    ensures Lookup(rs + [r], b) == if r.binding == b then Some(r.ciphertext) else Lookup(rs, b)
  {
    assert (rs + [r])[..|rs|] == rs;
  }

  lemma NothingScanned(expected: Option<Binding>)
    ensures Matched([], expected) == None && Jobs([]) == {} && Agrees([], expected)
  {
  }

  lemma MatchedAppend(rs: seq<Record>, r: Record, expected: Option<Binding>)
    requires Agrees(rs + [r], expected)
    ensures Matched(rs + [r], expected) ==
            if expected.Some? && JobOf(expected.value) == JobOf(r.binding) then Some(r.ciphertext)
            else Matched(rs, expected)
  {
    assert r in rs + [r];
    if expected.Some? {
      LookupAppend(rs, r, expected.value);
    }
  }

  /** In a readable file, the next record passes every check of the scan loop. */
  lemma ReadableNext(digest: Digest, store: Bytes, bytes: Bytes, done: seq<Record>, position: nat,
                     expected: Option<Binding>)
    requires |store| == 16 && ScannedTo(digest, store, bytes, done, position) && position < |bytes|
    requires Readable(digest, store, bytes, expected)
    ensures |done| < MAX_RECORDS
    ensures
      var head := HeadRecord(digest, store, bytes[position..]);
      head.Some? && JobOf(head.value.binding) !in Jobs(done) && Agrees([head.value], expected)
  {
    hide HeadRecord, Image, ValidRecord, JobOf;
    var rs := Contents(digest, store, bytes);
    NextRecord(digest, store, bytes, done, position);
    var r := rs[|done|];
    assert r in rs && Agrees([r], expected);
    forall x | x in done
      ensures JobOf(x.binding) != JobOf(r.binding)
    {
      var i :| 0 <= i < |done| && done[i] == x;
      assert JobOf(rs[i].binding) != JobOf(rs[|done|].binding);
    }
  }

  lemma ScanEnds(digest: Digest, store: Bytes, bytes: Bytes, done: seq<Record>, expected: Option<Binding>)
    requires |store| == 16 && !AllZero(store) && ScannedTo(digest, store, bytes, done, |bytes|)
    requires Agrees(done, expected) && (expected.Some? ==> StoreOf(expected.value) == store)
    ensures Readable(digest, store, bytes, expected)
    ensures Scanned(digest, store, bytes, expected) == ScanResult(|bytes|, |done|, Matched(done, expected))
  {
    hide Image;
    assert bytes[..|bytes|] == bytes;
    ContentsOf(digest, store, done);
  }

  lemma ScanBegins(digest: Digest, store: Bytes, bytes: Bytes)
    requires |store| == 16 && |bytes| >= HEADER && bytes[..HEADER] == HeaderBytes(digest, store)
    ensures ScannedTo(digest, store, bytes, [], HEADER)
  {
    hide HeaderBytes;
    assert Image(digest, store, []) == HeaderBytes(digest, store);
  }

  lemma WellFormedStarts(digest: Digest, store: Bytes, bytes: Bytes)
    requires |store| == 16 && WellFormed(digest, store, bytes)
    ensures HEADER <= |bytes| <= MAX_STORE_BYTES && bytes[..HEADER] == HeaderBytes(digest, store)
  {
    hide HeaderBytes, ValidRecords, Body;
    FullStoreFits(digest, store, Contents(digest, store, bytes));
  }

  class RecordStore {
    const io: CiphertextFile
    const env: Faults
    const digest: Digest
    const store: Bytes
    var uncertain: bool

    ghost predicate Valid()
      reads this, io
    {
      && |store| == 16 && io.Valid()
      && (!uncertain ==> WellFormed(digest, store, io.bytes) && !AllZero(store))
    }

    /** Opens an existing file: succeeds only when it reads as a store. */
    constructor FromIo(io: CiphertextFile, env: Faults, digest: Digest, store: Bytes)
      requires |store| == 16 && io.Valid()
      modifies env
      ensures this.io == io && this.env == env && this.digest == digest && this.store == store
      ensures Valid()
      ensures !uncertain ==> Readable(digest, store, io.bytes, None)
      ensures uncertain ==> env.faulted || io.failed || !Readable(digest, store, io.bytes, None)
      ensures old(env.faulted) ==> env.faulted
    {
      this.io, this.env, this.digest, this.store := io, env, digest, store;
      uncertain := true;
      new;
      var scan := Scan(None);
      // A handle whose first scan fails is never handed out; `uncertain` marks it here.
      uncertain := scan.Err?;
    }

    method Read(offset: nat, count: nat) returns (r: Option<Bytes>)
      modifies env
      ensures old(env.faulted) ==> env.faulted
      ensures r.Some? ==> offset + count <= |io.bytes| && r.value == io.bytes[offset..offset + count]
      ensures r.None? ==> env.faulted || io.failed || offset + count > |io.bytes| || |io.bytes| > MAX_STORE_BYTES
    {
      var bytes: Bytes := [];
      while |bytes| < count
        invariant |bytes| <= count
        invariant bytes != [] ==> offset + |bytes| <= |io.bytes| && bytes == io.bytes[offset..offset + |bytes|]
        invariant old(env.faulted) ==> env.faulted
        decreases count - |bytes|
      {
        var take := Min(CHUNK, count - |bytes|);
        var ok := env.Try();
        if !ok {
          return None;
        }
        var chunk := io.ReadAt(env, offset + |bytes|, take);
        if chunk.None? {
          return None;
        }
        ok := env.Try();
        if !ok {
          return None;
        }
        bytes := bytes + chunk.value;
      }
      if count == 0 && offset > |io.bytes| {
        return None;
      }
      return Some(bytes);
    }

    /** The fixed part of the record at `position`. */
    method ReadIntro(position: nat, size: nat) returns (r: Result<(Bytes, Binding, nat), BackupError>)
      requires |store| == 16 && size == |io.bytes| && position <= size
      modifies env
      ensures old(env.faulted) ==> env.faulted
      ensures r.Ok? ==>
                && position + RECORD_HEADER + r.value.2 + TAG <= size
                && r.value.0 == io.bytes[position..][..RECORD_HEADER]
                && Announced(store, r.value.0) == Some((r.value.1, r.value.2))
      ensures r.Err? ==> env.faulted || io.failed || size > MAX_STORE_BYTES
                         || HeadRecord(digest, store, io.bytes[position..]).None?
    {
      if size - position < OVERHEAD {
        return Err(Integrity);
      }
      var intro := Read(position, RECORD_HEADER);
      if intro.None? {
        return Err(Unavailable);
      }
      hide HeadRecord, Announced;
      TakeOfSuffix(io.bytes, position, RECORD_HEADER);
      HeadNeeds(digest, store, io.bytes[position..]);
      var announced := Announced(store, intro.value);
      if announced.None? || announced.value.1 + OVERHEAD > size - position {
        return Err(Integrity);
      }
      return Ok((intro.value, announced.value.0, announced.value.1));
    }

    /** The ciphertext of the record at `position`, once its tag is verified. */
    method ReadSealed(position: nat, intro: Bytes, binding: Binding, count: nat)
      returns (r: Result<Bytes, BackupError>)
      requires |store| == 16 && position + OVERHEAD + count <= |io.bytes|
      requires intro == io.bytes[position..][..RECORD_HEADER]
      requires Announced(store, intro) == Some((binding, count))
      modifies env
      ensures old(env.faulted) ==> env.faulted
      ensures r.Ok? ==> HeadRecord(digest, store, io.bytes[position..]) == Some(Record(binding, r.value))
      ensures r.Ok? ==> |r.value| == count
      ensures r.Err? ==> env.faulted || io.failed || |io.bytes| > MAX_STORE_BYTES
                         || HeadRecord(digest, store, io.bytes[position..]).None?
    {
      hide Announced, HeadRecord, RecordVerified;
      var ciphertext := Read(position + RECORD_HEADER, count);
      if ciphertext.None? {
        return Err(Unavailable);
      }
      var tag := Read(position + RECORD_HEADER + count, TAG);
      if tag.None? {
        return Err(Unavailable);
      }
      VerifiedDecides(digest, store, io.bytes, position, binding, count);
      if !RecordVerified(digest, intro, ciphertext.value, tag.value) {
        return Err(Integrity);
      }
      var ok := env.Try();
      if !ok {
        return Err(Unavailable);
      }
      return Ok(ciphertext.value);
    }

    /** Reads the whole file. Without failures it succeeds exactly on a readable store,
        and then returns its size, its record count and the expected record. */
    method Scan(expected: Option<Binding>) returns (r: Result<ScanResult, BackupError>)
      requires |store| == 16
      modifies env
      ensures old(env.faulted) ==> env.faulted
      ensures r.Ok? ==> Readable(digest, store, io.bytes, expected)
      ensures r.Ok? ==> r.value == Scanned(digest, store, io.bytes, expected)
      ensures r.Err? ==> env.faulted || io.failed || !Readable(digest, store, io.bytes, expected)
    {
      var size, begun := ScanHeader(expected);
      if !begun {
        return Err(Integrity);
      }
      var scanned := ScanRecords(size, expected);
      if scanned.Err? {
        return Err(scanned.error);
      }
      var again := io.Size(env);
      if again != Some(size) {
        return Err(Integrity);
      }
      var ok := env.Try();
      if !ok {
        return Err(Unavailable);
      }
      return scanned;
    }

    method ScanRecords(size: nat, expected: Option<Binding>) returns (r: Result<ScanResult, BackupError>)
      requires |store| == 16 && !AllZero(store) && HEADER <= size == |io.bytes| <= MAX_STORE_BYTES
      requires ScannedTo(digest, store, io.bytes, [], HEADER)
      requires expected.Some? ==> StoreOf(expected.value) == store
      modifies env
      ensures old(env.faulted) ==> env.faulted
      ensures r.Ok? ==> Readable(digest, store, io.bytes, expected)
      ensures r.Ok? ==> r.value == Scanned(digest, store, io.bytes, expected)
      ensures r.Err? ==> env.faulted || io.failed || !Readable(digest, store, io.bytes, expected)
    {
      hide ScannedTo, Scanned, Readable, WellFormed, Matched, Jobs, Agrees, JobOf, Image, Contents;
      var position, jobs, matched: Option<Bytes> := HEADER, {}, None;
      ghost var done: seq<Record> := [];
      NothingScanned(expected);
      while position < size
        invariant HEADER <= position <= size
        invariant ScannedTo(digest, store, io.bytes, done, position)
        invariant jobs == Jobs(done) && |jobs| == |done|
        invariant Agrees(done, expected)
        invariant matched == Matched(done, expected)
        invariant old(env.faulted) ==> env.faulted
        decreases size - position
      {
        var head := ScanRecord(position, size, jobs, expected, done);
        if head.Err? {
          return Err(head.error);
        }
        var record := head.value;
        var next := position + OVERHEAD + |record.ciphertext|;
        ghost var more := done + [record];
        assert ScannedTo(digest, store, io.bytes, more, next) && Agrees(more, expected);
        MatchedAppend(done, record, expected);
        if expected.Some? && JobOf(expected.value) == JobOf(record.binding) {
          matched := Some(record.ciphertext);
        }
        JobsAppend(done, record);
        jobs := jobs + {JobOf(record.binding)};
        done := more;
        position := next;
      }
      ScanEnds(digest, store, io.bytes, done, expected);
      return Ok(ScanResult(size, |jobs|, matched));
    }

    /** One iteration of the scan loop. */
    method ScanRecord(position: nat, size: nat, jobs: set<Bytes>, expected: Option<Binding>,
                      ghost done: seq<Record>) returns (r: Result<Record, BackupError>)
      requires |store| == 16 && position < size == |io.bytes| <= MAX_STORE_BYTES
      requires ScannedTo(digest, store, io.bytes, done, position)
      requires jobs == Jobs(done) && |jobs| == |done| && Agrees(done, expected)
      modifies env
      ensures old(env.faulted) ==> env.faulted
      ensures r.Ok? ==>
                && JobOf(r.value.binding) !in jobs && Agrees(done + [r.value], expected)
                && position + OVERHEAD + |r.value.ciphertext| <= size
                && ScannedTo(digest, store, io.bytes, done + [r.value], position + OVERHEAD + |r.value.ciphertext|)
      ensures r.Err? ==> env.faulted || io.failed || !Readable(digest, store, io.bytes, expected)
    {
      hide Readable, HeadRecord, Announced, Image, ValidRecord, ValidRecords, JobOf;
      if Readable(digest, store, io.bytes, expected) {
        ReadableNext(digest, store, io.bytes, done, position, expected);
      }
      if |jobs| >= MAX_RECORDS {
        return Err(Integrity);
      }
      var intro := ReadIntro(position, size);
      if intro.Err? {
        return Err(intro.error);
      }
      var (bytes, binding, count) := intro.value;
      if JobOf(binding) in jobs {
        HeadBinding(digest, store, io.bytes[position..]);
        return Err(Integrity);
      }
      var sealed := ReadSealed(position, bytes, binding, count);
      if sealed.Err? {
        return Err(sealed.error);
      }
      if expected.Some? && JobOf(expected.value) == JobOf(binding) && expected.value != binding {
        assert Record(binding, sealed.value) in [Record(binding, sealed.value)];
        return Err(Integrity);
      }
      ScanStep(digest, store, io.bytes, done, position);
      return Ok(Record(binding, sealed.value));
    }

    method ScanHeader(expected: Option<Binding>) returns (size: nat, begun: bool)
      requires |store| == 16
      modifies env
      ensures old(env.faulted) ==> env.faulted
      ensures begun ==>
                && HEADER <= size == |io.bytes| <= MAX_STORE_BYTES && !AllZero(store)
                && ScannedTo(digest, store, io.bytes, [], HEADER)
                && (expected.Some? ==> StoreOf(expected.value) == store)
      ensures !begun ==> env.faulted || io.failed || !Readable(digest, store, io.bytes, expected)
    {
      hide Image, ValidRecords, Agrees, HeaderBytes, Contents, RecordVerified, HeaderVerified, TagOf, RecordTag;
      size := 0;
      if WellFormed(digest, store, io.bytes) {
        WellFormedStarts(digest, store, io.bytes);
      }
      var ok := env.Try();
      if !ok {
        return 0, false;
      }
      var found := io.Size(env);
      if found.None? || found.value < HEADER || found.value > MAX_STORE_BYTES {
        return 0, false;
      }
      if expected.Some? && StoreOf(expected.value) != store {
        return 0, false;
      }
      var header := Read(0, HEADER);
      if header.None? {
        return 0, false;
      }
      var h := header.value;
      if h[..8] != STORE_MAGIC || h[8..24] != store || h[24..32] != STORE_PROFILE || AllZero(store) {
        HeaderFields(digest, store);
        return 0, false;
      }
      assert h[..32] == StoreIntro(store) by {
        assert h[..32] == h[..8] + h[8..24] + h[24..32];
      }
      HeaderTagIsMade(digest, h[..32], h[32..]);
      if !HeaderVerified(digest, h[..32], h[32..]) {
        HeaderFields(digest, store);
        return 0, false;
      }
      HeaderFrom(digest, store, h);
      ScanBegins(digest, store, io.bytes);
      ok := env.Try();
      return found.value, ok;
    }

    /** Appends one part in bounded chunks. A failure leaves some first bytes of it. */
    method AppendPart(position: nat, part: Bytes) returns (ok: bool)
      requires |store| == 16 && io.Valid()
      modifies io, env
      ensures io.Valid() && io.synced == old(io.synced)
      ensures old(env.faulted) ==> env.faulted
      ensures ok ==> io.bytes == old(io.bytes) + part && (part != [] ==> !io.failed)
      ensures PartOf(part, old(io.bytes), io.bytes)
      ensures !ok ==> env.faulted || old(io.failed) || position != old(|io.bytes|)
                      || old(|io.bytes|) + |part| > MAX_STORE_BYTES
    {
      var sent := 0;
      assert part[..0] == [];
      assert io.bytes == io.bytes + part[..0];
      while sent < |part|
        invariant sent <= |part| && io.Valid() && io.synced == old(io.synced)
        invariant io.bytes == old(io.bytes) + part[..sent]
        invariant old(env.faulted) ==> env.faulted
        invariant sent > 0 ==> !io.failed && position == old(|io.bytes|)
        invariant sent == 0 ==> io.failed == old(io.failed)
      {
        var take := Min(CHUNK, |part| - sent);
        var chunk := part[sent..sent + take];
        ok := env.Try();
        if !ok {
          return;
        }
        ok := io.Append(env, position + sent, chunk);
        if !ok {
          ghost var k :| 0 <= k <= |chunk| && io.bytes == old(io.bytes) + part[..sent] + chunk[..k];
          TakeJoin(part, sent, sent + take, k);
          assert io.bytes == old(io.bytes) + part[..sent + k];
          return;
        }
        assert part[..sent] + chunk == part[..sent + take];
        sent := sent + take;
        ok := env.Try();
        if !ok {
          return;
        }
      }
      assert part[..|part|] == part;
      ok := true;
    }

    /** One publication attempt: scan, then append and synchronize one whole record. */
    method Publish(binding: Binding, ciphertext: Bytes) returns (r: RecordPublication)
      requires Valid() && ValidBinding(binding)
      modifies this, io, env
      ensures Valid() && (old(env.faulted) ==> env.faulted)
      ensures PublishStep(digest, store, binding, ciphertext, old(io.Now()), old(uncertain), r, io.Now(), uncertain)
      ensures
        !env.faulted && !old(uncertain) && !old(io.failed) && Readable(digest, store, old(io.bytes), Some(binding))
        ==> (r == Durable <==> Acceptable(Contents(digest, store, old(io.bytes)), binding, ciphertext))
            && r != Unknown
    {
      if uncertain {
        return Unknown;
      }
      var scan := Scan(Some(binding));
      if scan.Err? {
        uncertain := true;
        return Unknown;
      }
      if scan.value.matched.Some? || scan.value.count >= MAX_RECORDS
         || ciphertext == [] || |ciphertext| > MAX_CIPHERTEXT || !(AGE_INTRO <= ciphertext) {
        return NotPublished;
      }
      var record := Record(binding, ciphertext);
      var header := RecordIntro(record);
      IntroLength(record);
      RecordTagIsMade(digest, header, ciphertext, []);
      var tag := TagOf(digest, ArtifactRecord, [header, ciphertext]);
      if tag.Err? {
        return NotPublished;
      }
      var ok := env.Try();
      if !ok {
        return NotPublished;
      }
      CanAppend(digest, store, io.bytes, record);
      uncertain := true;
      r := AppendRecordBytes(scan.value.size, record, header, tag.value);
      if r == Durable {
        uncertain := false;
      }
    }

    method AppendRecordBytes(size: nat, record: Record, header: Bytes, tag: Bytes) returns (r: RecordPublication)
      requires |store| == 16 && io.Valid() && size == |io.bytes| && record.ciphertext != []
      requires header == RecordIntro(record) && tag == RecordTag(digest, header, record.ciphertext)
      requires |io.bytes| + |RecordBytes(digest, record)| <= MAX_STORE_BYTES
      modifies io, env
      ensures io.Valid() && (old(env.faulted) ==> env.faulted) && io.synced >= old(io.synced)
      ensures r == Durable || r == Unknown
      ensures r == Durable ==>
                && io.bytes == old(io.bytes) + RecordBytes(digest, record)
                && io.synced == |io.bytes|
      ensures PartOf(RecordBytes(digest, record), old(io.bytes), io.bytes)
      ensures r == Unknown ==> env.faulted || old(io.failed)
    {
      hide Frame, RecordTag, RecordIntro;
      ghost var before := io.bytes;
      var ciphertext := record.ciphertext;
      ghost var whole := RecordBytes(digest, record);
      assert whole == header + ciphertext + tag;
      assert header != [] by {
        IntroLength(record);
      }
      var ok := AppendPart(size, header);
      PartOfPrefix(header, ciphertext + tag, before, io.bytes);
      assert header + (ciphertext + tag) == whole;
      if !ok {
        return Unknown;
      }
      ghost var middle := io.bytes;
      ok := AppendPart(size + |header|, ciphertext);
      PartOfPrefix(ciphertext, tag, middle, io.bytes);
      PartOfSuffix(header, ciphertext + tag, before, middle, io.bytes);
      if !ok {
        return Unknown;
      }
      ghost var late := io.bytes;
      ok := AppendPart(size + |header| + |ciphertext|, tag);
      PartOfSuffix(header + ciphertext, tag, before, late, io.bytes);
      if !ok {
        return Unknown;
      }
      assert io.bytes == before + whole;
      var now := io.Size(env);
      if now != Some(size + |header| + |ciphertext| + |tag|) {
        return Unknown;
      }
      ok := io.Synchronize(env);
      if !ok {
        return Unknown;
      }
      ok := env.Try();
      return if ok then Durable else Unknown;
    }

    /** Confirms that the exact record is present and synchronized. */
    method Reconcile(binding: Binding) returns (r: RecordPublication)
      requires Valid()
      modifies this, io, env
      ensures Valid() && (old(env.faulted) ==> env.faulted)
      ensures ReconcileStep(digest, store, binding, old(io.Now()), old(uncertain), r, io.Now(), uncertain)
      ensures !env.faulted && !old(io.failed) && Readable(digest, store, io.bytes, Some(binding))
              ==> (r == Durable <==> Lookup(Contents(digest, store, io.bytes), binding).Some?)
    {
      var scan := Scan(Some(binding));
      if scan.Err? || scan.value.matched.None? {
        return Unknown;
      }
      var ok := env.Try();
      if !ok {
        return Unknown;
      }
      ok := io.Synchronize(env);
      if !ok {
        return Unknown;
      }
      ok := env.Try();
      if !ok {
        return Unknown;
      }
      uncertain := false;
      return Durable;
    }

    /** The ciphertext recorded under exactly this binding, after a full scan. */
    method AuthenticatedBytes(binding: Binding) returns (r: Result<Bytes, BackupError>)
      requires Valid()
      modifies env
      ensures old(env.faulted) ==> env.faulted
      ensures r.Ok? ==>
                && Readable(digest, store, io.bytes, Some(binding))
                && Lookup(Contents(digest, store, io.bytes), binding) == Some(r.value)
      ensures r.Err? ==>
                || env.faulted || io.failed || !Readable(digest, store, io.bytes, Some(binding))
                || Lookup(Contents(digest, store, io.bytes), binding).None?
    {
      var scan := Scan(Some(binding));
      if scan.Err? {
        return Err(scan.error);
      }
      return if scan.value.matched.Some? then Ok(scan.value.matched.value) else Err(UnknownArtifact);
    }
  }

  lemma IntroLength(r: Record)
    ensures |RecordIntro(r)| == RECORD_HEADER
  {
  }

  lemma AnnouncedLength(store: Bytes, intro: Bytes)
    requires |intro| == RECORD_HEADER
    ensures Announced(store, intro).Some? ==> Announced(store, intro).value.1 <= MAX_CIPHERTEXT
  {
  }

  lemma TakeJoin(s: Bytes, a: nat, b: nat, k: nat)
    requires a <= b <= |s| && k <= b - a
    ensures s[..a] + s[a..b][..k] == s[..a + k]
  {
  }

  lemma PartOfPrefix(a: Bytes, b: Bytes, before: Bytes, after: Bytes)
    requires PartOf(a, before, after)
    ensures PartOf(a + b, before, after)
  {
    var k :| 0 <= k <= |a| && after == before + a[..k];
    assert (a + b)[..k] == a[..k];
  }

  lemma PartOfSuffix(a: Bytes, b: Bytes, before: Bytes, middle: Bytes, after: Bytes)
    requires middle == before + a && PartOf(b, middle, after)
    ensures PartOf(a + b, before, after)
  {
    var k :| 0 <= k <= |b| && after == middle + b[..k];
    assert (a + b)[..|a| + k] == a + b[..k];
    assert after == before + (a + b)[..|a| + k];
  }

  lemma {:induction false} LookupNone(rs: seq<Record>, b: Binding)
    requires Lookup(rs, b).None?
    ensures forall r | r in rs :: r.binding != b
  {
    if rs != [] {
      LookupNone(rs[..|rs| - 1], b);
      assert rs == rs[..|rs| - 1] + [rs[|rs| - 1]];
    }
  }

  /** A store without the job can take one more record, and the result is a store. */
  lemma CanAppend(digest: Digest, store: Bytes, bytes: Bytes, record: Record)
    requires |store| == 16 && ValidBinding(record.binding)
    requires Readable(digest, store, bytes, Some(record.binding))
    requires Acceptable(Contents(digest, store, bytes), record.binding, record.ciphertext)
    ensures Appendable(digest, store, bytes, record)
    ensures WellFormed(digest, store, bytes + RecordBytes(digest, record))
    ensures |bytes| + |RecordBytes(digest, record)| <= MAX_STORE_BYTES
  {
    hide Decode, RecordBytes, HeaderBytes, ValidRecords, Body;
    var rs := Contents(digest, store, bytes);
    LookupNone(rs, record.binding);
    assert JobOf(record.binding) !in Jobs(rs);
    AppendRecord(store, rs, record);
    ImageAppend(digest, store, rs, record);
    FullStoreFits(digest, store, rs + [record]);
  }

  lemma SliceOfSuffix(s: Bytes, p: nat, a: nat, b: nat)
    requires a <= b && p + b <= |s|
    ensures s[p..][a..b] == s[p + a..p + b]
  {
  }

  lemma TakeOfSuffix(s: Bytes, p: nat, n: nat)
    requires p + n <= |s|
    ensures s[p..][..n] == s[p..p + n]
  {
  }

  lemma HeadDecides(digest: Digest, store: Bytes, rest: Bytes, binding: Binding, count: nat)
    requires |rest| >= OVERHEAD + count && Announced(store, rest[..RECORD_HEADER]) == Some((binding, count))
    ensures
      var n := RECORD_HEADER + count;
      var sealed := RecordTag(digest, rest[..RECORD_HEADER], rest[RECORD_HEADER..n]) == rest[n..OVERHEAD + count];
      HeadRecord(digest, store, rest) == if sealed then Some(Record(binding, rest[RECORD_HEADER..n])) else None
  {
    hide Announced, RecordTag;
  }

  /** Verifying the parts of the record at `position` decides whether it is one. */
  lemma VerifiedDecides(digest: Digest, store: Bytes, bytes: Bytes, position: nat, binding: Binding, count: nat)
    requires position + OVERHEAD + count <= |bytes|
    requires Announced(store, bytes[position..][..RECORD_HEADER]) == Some((binding, count))
    ensures
      var start := position + RECORD_HEADER;
      var ciphertext := bytes[start..start + count];
      HeadRecord(digest, store, bytes[position..]) ==
        if RecordVerified(digest, bytes[position..][..RECORD_HEADER], ciphertext, bytes[start + count..start + count + TAG])
        then Some(Record(binding, ciphertext)) else None
  {
    hide Announced, HeadRecord, RecordTag, RecordVerified, TagOf, Decode, FromBigEndian, Frame;
    AnnouncedLength(store, bytes[position..][..RECORD_HEADER]);
    var rest, start := bytes[position..], position + RECORD_HEADER;
    SliceOfSuffix(bytes, position, RECORD_HEADER, RECORD_HEADER + count);
    SliceOfSuffix(bytes, position, RECORD_HEADER + count, OVERHEAD + count);
    HeadDecides(digest, store, rest, binding, count);
    RecordTagIsMade(digest, rest[..RECORD_HEADER], bytes[start..start + count], bytes[start + count..start + count + TAG]);
  }

  lemma HeadNeeds(digest: Digest, store: Bytes, rest: Bytes)
    ensures HeadRecord(digest, store, rest).Some? ==>
              && |rest| >= OVERHEAD && Announced(store, rest[..RECORD_HEADER]).Some?
              && Announced(store, rest[..RECORD_HEADER]).value.1 + OVERHEAD <= |rest|
  {
    hide Announced, RecordTag;
  }

  lemma HeadBinding(digest: Digest, store: Bytes, rest: Bytes)
    ensures HeadRecord(digest, store, rest).Some? ==>
              && |rest| >= OVERHEAD && Announced(store, rest[..RECORD_HEADER]).Some?
              && HeadRecord(digest, store, rest).value.binding == Announced(store, rest[..RECORD_HEADER]).value.0
  {
    hide Announced, RecordTag;
  }

  lemma JobsAppend(rs: seq<Record>, r: Record)
    ensures Jobs(rs + [r]) == Jobs(rs) + {JobOf(r.binding)}
  {
    hide JobOf;
    assert forall x :: x in rs + [r] <==> x in rs || x == r;
  }

  lemma HeaderFrom(digest: Digest, store: Bytes, h: Bytes)
    requires |store| == 16 && |h| == HEADER && h[..32] == StoreIntro(store)
    requires digest(Frame(StoreHeader, [h[..32]])) == h[32..]
    ensures h == HeaderBytes(digest, store)
  {
    hide Frame;
    assert h == h[..32] + h[32..];
  }

  lemma HeaderFields(digest: Digest, store: Bytes)
    requires |store| == 16
    ensures
      var h := HeaderBytes(digest, store);
      && h[..8] == STORE_MAGIC && h[8..24] == store && h[24..32] == STORE_PROFILE
      && h[..32] == StoreIntro(store)
      && h[32..] == digest(Frame(StoreHeader, [h[..32]]))
  {
    hide Frame;
  }
}
