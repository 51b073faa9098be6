/** The on-disk form of the backup record store: bindings, framed authentication input,
    the store header, and records one after another. */
module RecordFormat {
  import opened Common

  const MAX_PLAINTEXT := 131072
  const MAX_CIPHERTEXT := 1048576
  const MAX_STORE_BYTES := 33562688
  const MAX_RECORDS := 32
  const BINDING_BYTES := 88
  const HEADER := 64
  const RECORD_HEADER := 8 + BINDING_BYTES + 8
  const TAG := 32
  const OVERHEAD := RECORD_HEADER + TAG

  datatype BackupError = Invalid | Limit | Unavailable | Integrity | UnknownArtifact

  // ----- Big-endian numbers -----

  function Pow256(w: nat): nat {
    if w == 0 then 1 else 256 * Pow256(w - 1)
  }

  function BigEndian(n: nat, w: nat): (r: Bytes)
    ensures |r| == w
  {
    if w == 0 then [] else BigEndian(n / 256, w - 1) + [(n % 256) as Byte]
  }

  function FromBigEndian(s: Bytes): nat {
    if s == [] then 0 else FromBigEndian(s[..|s| - 1]) * 256 + s[|s| - 1]
  }

  lemma {:induction false} BigEndianRoundTrip(n: nat, w: nat)
    requires n < Pow256(w)
    ensures FromBigEndian(BigEndian(n, w)) == n
  {
    if w > 0 {
      BigEndianRoundTrip(n / 256, w - 1);
      assert BigEndian(n, w)[..w - 1] == BigEndian(n / 256, w - 1);
    }
  }

  lemma {:induction false} FromBigEndianRoundTrip(s: Bytes)
    ensures BigEndian(FromBigEndian(s), |s|) == s
    ensures FromBigEndian(s) < Pow256(|s|)
  {
    if s != [] {
      FromBigEndianRoundTrip(s[..|s| - 1]);
    }
  }

  lemma Pow256Eight()
    ensures Pow256(8) == 0x1_0000_0000_0000_0000
  {
    assert Pow256(4) == 0x1_0000_0000;
    assert Pow256(5) == 256 * Pow256(4) && Pow256(6) == 256 * Pow256(5);
    assert Pow256(7) == 256 * Pow256(6);
  }

  // ----- Artifact bindings -----

  datatype ArchiveFormat = Tar | Gzip

  const SCOPE: Bytes := [83, 89, 83, 118, 48, 48, 49]

  datatype RawBinding = Binding(encoded: Bytes)

  /** A binding is its fixed-size encoding. */
  type Binding = b: RawBinding | |b.encoded| == BINDING_BYTES witness Binding(seq(BINDING_BYTES, _ => 0 as Byte))

  predicate Identity(id: Bytes) {
    |id| == 16 && !AllZero(id)
  }

  function FormatByte(format: ArchiveFormat): Byte {
    if format.Tar? then 0 else 1
  }

  /** Four identities, two lengths, the format and the fixed scope. */
  function Encode(store: Bytes, target: Bytes, boot: Bytes, job: Bytes,
                  fileBytes: nat, sourceBytes: nat, format: ArchiveFormat): (r: Bytes)
    requires |store| == |target| == |boot| == |job| == 16
    ensures |r| == BINDING_BYTES
  {
    store + target + boot + job + BigEndian(fileBytes, 8) + BigEndian(sourceBytes, 8)
    + [FormatByte(format)] + SCOPE
  }

  function System(store: Bytes, target: Bytes, boot: Bytes, job: Bytes,
                  fileBytes: nat, sourceBytes: nat, format: ArchiveFormat): Result<Binding, BackupError>
    requires |store| == |target| == |boot| == |job| == 16
  {
    if AllZero(store) || AllZero(target) || AllZero(boot) || AllZero(job)
       || fileBytes > 65536 || sourceBytes == 0 || sourceBytes > MAX_PLAINTEXT
    then Err(Invalid)
    else Ok(Binding(Encode(store, target, boot, job, fileBytes, sourceBytes, format)))
  }

  function Decode(bytes: Bytes): Result<Binding, BackupError> {
    if |bytes| != BINDING_BYTES || bytes[81..] != SCOPE then Err(Integrity)
    else if bytes[80] > 1 then Err(Integrity)
    else System(bytes[..16], bytes[16..32], bytes[32..48], bytes[48..64],
                FromBigEndian(bytes[64..72]), FromBigEndian(bytes[72..80]),
                if bytes[80] == 0 then Tar else Gzip)
  }

  predicate ValidBinding(b: Binding) {
    Decode(b.encoded) == Ok(b)
  }

  function StoreOf(b: Binding): Bytes
  {
    b.encoded[..16]
  }

  function JobOf(b: Binding): Bytes
  {
    b.encoded[48..64]
  }

  function FileBytes(b: Binding): nat
  {
    FromBigEndian(b.encoded[64..72])
  }

  function SourceBytes(b: Binding): nat
  {
    FromBigEndian(b.encoded[72..80])
  }

  function FormatOf(b: Binding): ArchiveFormat
  {
    if b.encoded[80] == 0 then Tar else Gzip
  }

  lemma EncodeParts(store: Bytes, target: Bytes, boot: Bytes, job: Bytes,
                    fileBytes: nat, sourceBytes: nat, format: ArchiveFormat)
    requires |store| == |target| == |boot| == |job| == 16
    ensures
      var e := Encode(store, target, boot, job, fileBytes, sourceBytes, format);
      && |e| == BINDING_BYTES
      && e[..16] == store && e[16..32] == target && e[32..48] == boot && e[48..64] == job
      && e[64..72] == BigEndian(fileBytes, 8) && e[72..80] == BigEndian(sourceBytes, 8)
      && e[80] == FormatByte(format) && e[81..] == SCOPE
  {
  }

  /** Every accepted binding decodes to itself and gives back each field it was made of. */
  lemma BindingRoundTrip(store: Bytes, target: Bytes, boot: Bytes, job: Bytes,
                         fileBytes: nat, sourceBytes: nat, format: ArchiveFormat)
    requires |store| == |target| == |boot| == |job| == 16
    requires System(store, target, boot, job, fileBytes, sourceBytes, format).Ok?
    ensures
      var b := System(store, target, boot, job, fileBytes, sourceBytes, format).value;
      && ValidBinding(b)
      && StoreOf(b) == store && b.encoded[16..32] == target && b.encoded[32..48] == boot && JobOf(b) == job
      && FileBytes(b) == fileBytes && SourceBytes(b) == sourceBytes && FormatOf(b) == format
  {
    EncodeParts(store, target, boot, job, fileBytes, sourceBytes, format);
    Pow256Eight();
    BigEndianRoundTrip(fileBytes, 8);
    BigEndianRoundTrip(sourceBytes, 8);
  }

  lemma SameFields(a: Bytes, b: Bytes)
    requires |a| == |b| == BINDING_BYTES
    requires a[..16] == b[..16] && a[16..32] == b[16..32] && a[32..48] == b[32..48] && a[48..64] == b[48..64]
    requires a[64..72] == b[64..72] && a[72..80] == b[72..80] && a[80] == b[80] && a[81..] == b[81..]
    ensures a == b
  {
    assert a[..32] == a[..16] + a[16..32] && b[..32] == b[..16] + b[16..32];
    assert a[..64] == a[..32] + a[32..48] + a[48..64] && b[..64] == b[..32] + b[32..48] + b[48..64];
    assert a[..80] == a[..64] + a[64..72] + a[72..80] && b[..80] == b[..64] + b[64..72] + b[72..80];
    assert a == a[..80] + [a[80]] + a[81..] && b == b[..80] + [b[80]] + b[81..];
  }

  /** Decoding accepts only the one encoding of what it returns, and its fields are in range. */
  lemma DecodeExact(bytes: Bytes)
    requires Decode(bytes).Ok?
    ensures Decode(bytes).value == Binding(bytes) && ValidBinding(Binding(bytes))
    ensures Identity(StoreOf(Binding(bytes))) && Identity(JobOf(Binding(bytes)))
    ensures Identity(bytes[16..32]) && Identity(bytes[32..48])
    ensures FileBytes(Binding(bytes)) <= 65536 && 1 <= SourceBytes(Binding(bytes)) <= MAX_PLAINTEXT
  {
    FromBigEndianRoundTrip(bytes[64..72]);
    FromBigEndianRoundTrip(bytes[72..80]);
    hide FromBigEndian, BigEndian, Encode;
    var e := Decode(bytes).value.encoded;
    EncodeParts(bytes[..16], bytes[16..32], bytes[32..48], bytes[48..64],
                FromBigEndian(bytes[64..72]), FromBigEndian(bytes[72..80]),
                if bytes[80] == 0 then Tar else Gzip);
    SameFields(bytes, e);
  }

  // ----- Authentication input -----

  datatype MacPurpose = StoreHeader | ArtifactRecord

  /** "openwrt-mcp/store-header/v1\0" and "openwrt-mcp/artifact-record/v1\0". */
  function Domain(purpose: MacPurpose): Bytes {
    var product := [111, 112, 101, 110, 119, 114, 116, 45, 109, 99, 112, 47];
    match purpose
    case StoreHeader =>
      product + [115, 116, 111, 114, 101, 45, 104, 101, 97, 100, 101, 114, 47, 118, 49, 0]
    case ArtifactRecord =>
      product + [97, 114, 116, 105, 102, 97, 99, 116, 45, 114, 101, 99, 111, 114, 100, 47, 118, 49, 0]
  }

  function Framed(parts: seq<Bytes>): Bytes {
    if parts == [] then [] else BigEndian(|parts[0]|, 8) + parts[0] + Framed(parts[1..])
  }

  /** The exact byte string that is authenticated. */
  function Frame(purpose: MacPurpose, parts: seq<Bytes>): Bytes {
    Domain(purpose) + Framed(parts)
  }

  predicate Frameable(parts: seq<Bytes>) {
    |parts| <= 4 && forall p | p in parts :: |p| <= MAX_CIPHERTEXT
  }

  lemma {:induction false} FramedInjective(a: seq<Bytes>, b: seq<Bytes>)
    requires (forall p | p in a :: |p| <= MAX_CIPHERTEXT) && (forall p | p in b :: |p| <= MAX_CIPHERTEXT)
    requires Framed(a) == Framed(b)
    ensures a == b
    decreases |a|
  {
    if a != [] && b != [] {
      var x, y := Framed(a), Framed(b);
      assert a[0] in a && b[0] in b;
      Pow256Eight();
      BigEndianRoundTrip(|a[0]|, 8);
      BigEndianRoundTrip(|b[0]|, 8);
      assert x[..8] == BigEndian(|a[0]|, 8) && y[..8] == BigEndian(|b[0]|, 8);
      assert x[8..8 + |a[0]|] == a[0] && y[8..8 + |b[0]|] == b[0];
      assert x[8 + |a[0]|..] == Framed(a[1..]) && y[8 + |b[0]|..] == Framed(b[1..]);
      FramedInjective(a[1..], b[1..]);
      assert a == [a[0]] + a[1..] && b == [b[0]] + b[1..];
    }
  }

  /** Different purposes or different parts never authenticate the same byte string. */
  lemma FrameInjective(p: MacPurpose, a: seq<Bytes>, q: MacPurpose, b: seq<Bytes>)
    requires Frameable(a) && Frameable(b) && Frame(p, a) == Frame(q, b)
    ensures p == q && a == b
  {
    DomainsDiffer();
    hide Framed, Domain;
    assert Frame(p, a)[12] == Domain(p)[12] && Frame(q, b)[12] == Domain(q)[12];
    assert p == q;
    var n := |Domain(p)|;
    assert Frame(p, a)[n..] == Framed(a) && Frame(q, b)[n..] == Framed(b);
    FramedInjective(a, b);
  }

  lemma DomainsDiffer()
    ensures |Domain(StoreHeader)| == 28 && |Domain(ArtifactRecord)| == 31
    ensures Domain(StoreHeader)[12] != Domain(ArtifactRecord)[12]
  {
  }

  /** The keyed hash, uninterpreted: any function to 32 bytes. */
  ghost predicate IsDigest(f: Bytes -> Bytes) {
    forall x :: |f(x)| == TAG
  }

  type Digest = f: Bytes -> Bytes | IsDigest(f)
    ghost witness (x: Bytes) => Zeros(TAG)

  /** The tag of framed parts; refused when there are too many or too long parts. */
  function TagOf(digest: Digest, purpose: MacPurpose, parts: seq<Bytes>): (r: Result<Bytes, BackupError>)
    ensures r.Ok? ==> |r.value| == TAG
  {
    if Frameable(parts) then Ok(digest(Frame(purpose, parts))) else Err(Limit)
  }

  // ----- The store image -----

  const STORE_MAGIC: Bytes := [79, 77, 67, 80, 83, 84, 48, 49]
  const STORE_PROFILE: Bytes := [114, 101, 99, 100, 48, 48, 48, 49]
  const RECORD_MAGIC: Bytes := [79, 77, 67, 80, 66, 75, 48, 49]

  function StoreIntro(store: Bytes): Bytes {
    STORE_MAGIC + store + STORE_PROFILE
  }

  /** The provisioned header: magic, identity, profile and their tag. */
  function HeaderBytes(digest: Digest, store: Bytes): (r: Bytes)
    requires |store| == 16
    ensures |r| == HEADER
  {
    StoreIntro(store) + digest(Frame(StoreHeader, [StoreIntro(store)]))
  }

  datatype Record = Record(binding: Binding, ciphertext: Bytes)

  predicate ValidRecord(store: Bytes, r: Record) {
    && ValidBinding(r.binding)
    && StoreOf(r.binding) == store
    && 1 <= |r.ciphertext| <= MAX_CIPHERTEXT
  }

  function RecordIntro(r: Record): Bytes {
    RECORD_MAGIC + r.binding.encoded + BigEndian(|r.ciphertext|, 8)
  }

  function RecordTag(digest: Digest, intro: Bytes, ciphertext: Bytes): (r: Bytes)
    ensures |r| == TAG
  {
    digest(Frame(ArtifactRecord, [intro, ciphertext]))
  }

  predicate HeaderVerified(digest: Digest, intro: Bytes, tag: Bytes) {
    TagOf(digest, StoreHeader, [intro]) == Ok(tag)
  }

  predicate RecordVerified(digest: Digest, intro: Bytes, ciphertext: Bytes, tag: Bytes) {
    TagOf(digest, ArtifactRecord, [intro, ciphertext]) == Ok(tag)
  }

  /** The limits on framed parts never stand in the way of a store header. */
  lemma HeaderTagIsMade(digest: Digest, intro: Bytes, tag: Bytes)
    requires |intro| <= RECORD_HEADER
    ensures HeaderVerified(digest, intro, tag) <==> digest(Frame(StoreHeader, [intro])) == tag
  {
    hide Frame;
    assert Frameable([intro]);
  }

  /** Nor of a record. */
  lemma RecordTagIsMade(digest: Digest, intro: Bytes, ciphertext: Bytes, tag: Bytes)
    requires |intro| <= RECORD_HEADER && |ciphertext| <= MAX_CIPHERTEXT
    ensures TagOf(digest, ArtifactRecord, [intro, ciphertext]) == Ok(RecordTag(digest, intro, ciphertext))
    ensures RecordVerified(digest, intro, ciphertext, tag) <==> RecordTag(digest, intro, ciphertext) == tag
  {
    hide Frame;
    assert Frameable([intro, ciphertext]);
  }

  function RecordBytes(digest: Digest, r: Record): Bytes {
    RecordIntro(r) + r.ciphertext + RecordTag(digest, RecordIntro(r), r.ciphertext)
  }

  function Body(digest: Digest, rs: seq<Record>): Bytes {
    if rs == [] then [] else RecordBytes(digest, rs[0]) + Body(digest, rs[1..])
  }

  function Image(digest: Digest, store: Bytes, rs: seq<Record>): Bytes
    requires |store| == 16
  {
    HeaderBytes(digest, store) + Body(digest, rs)
  }

  ghost predicate ValidRecords(store: Bytes, rs: seq<Record>) {
    && |rs| <= MAX_RECORDS
    && (forall r | r in rs :: ValidRecord(store, r))
    && forall i, j | 0 <= i < j < |rs| :: JobOf(rs[i].binding) != JobOf(rs[j].binding)
  }

  /** The file holds a complete store. */
  ghost predicate WellFormed(digest: Digest, store: Bytes, bytes: Bytes)
    requires |store| == 16
  {
    exists rs :: ValidRecords(store, rs) && bytes == Image(digest, store, rs)
  }

  lemma RecordLength(digest: Digest, store: Bytes, r: Record)
    requires ValidRecord(store, r)
    ensures |RecordIntro(r)| == RECORD_HEADER
    ensures |RecordBytes(digest, r)| == OVERHEAD + |r.ciphertext|
    ensures |r.ciphertext| <= MAX_CIPHERTEXT
  {
  }

  lemma {:induction false} BodyLength(digest: Digest, store: Bytes, rs: seq<Record>)
    requires forall r | r in rs :: ValidRecord(store, r)
    ensures |Body(digest, rs)| <= |rs| * (OVERHEAD + MAX_CIPHERTEXT)
  {
    hide ValidRecord, RecordBytes;
    if rs != [] {
      assert rs[0] in rs;
      RecordLength(digest, store, rs[0]);
      BodyLength(digest, store, rs[1..]);
    }
  }

  /** A full store of the largest records stays within the store limit. */
  lemma FullStoreFits(digest: Digest, store: Bytes, rs: seq<Record>)
    requires |store| == 16 && ValidRecords(store, rs)
    ensures HEADER <= |Image(digest, store, rs)| <= MAX_STORE_BYTES
  {
    hide ValidRecord, Body;
    BodyLength(digest, store, rs);
  }

  // ----- Reading one record -----

  /** The binding and the ciphertext length announced by a record's first bytes. */
  function Announced(store: Bytes, intro: Bytes): Option<(Binding, nat)>
    requires |intro| == RECORD_HEADER
  {
    if intro[..8] != RECORD_MAGIC || Decode(intro[8..96]).Err? then None
    else
      var binding, count := Decode(intro[8..96]).value, FromBigEndian(intro[96..]);
      if StoreOf(binding) != store || count < 1 || count > MAX_CIPHERTEXT then None
      else Some((binding, count))
  }

  /** The record at the front of `rest`, when every check on it passes. */
  function HeadRecord(digest: Digest, store: Bytes, rest: Bytes): Option<Record> {
    if |rest| < OVERHEAD || Announced(store, rest[..RECORD_HEADER]).None? then None
    else
      var (binding, count) := Announced(store, rest[..RECORD_HEADER]).value;
      if count + OVERHEAD > |rest| then None
      else
        var n := RECORD_HEADER + count;
        if RecordTag(digest, rest[..RECORD_HEADER], rest[RECORD_HEADER..n]) != rest[n..n + TAG] then None
        else Some(Record(binding, rest[RECORD_HEADER..n]))
  }

  lemma AnnouncedSound(store: Bytes, intro: Bytes)
    requires |intro| == RECORD_HEADER && Announced(store, intro).Some?
    ensures
      var (binding, count) := Announced(store, intro).value;
      && ValidBinding(binding) && StoreOf(binding) == store && 1 <= count <= MAX_CIPHERTEXT
      && intro == RECORD_MAGIC + binding.encoded + BigEndian(count, 8)
  {
    DecodeExact(intro[8..96]);
    FromBigEndianRoundTrip(intro[96..]);
    hide Decode, FromBigEndian, BigEndian;
    assert intro == intro[..8] + intro[8..96] + intro[96..];
  }

  lemma AnnouncedComplete(store: Bytes, r: Record)
    requires ValidRecord(store, r)
    ensures |RecordIntro(r)| == RECORD_HEADER
    ensures Announced(store, RecordIntro(r)) == Some((r.binding, |r.ciphertext|))
  {
    Pow256Eight();
    BigEndianRoundTrip(|r.ciphertext|, 8);
    hide Decode, FromBigEndian, BigEndian, Pow256;
    var intro := RecordIntro(r);
    assert intro[..8] == RECORD_MAGIC;
    assert intro[8..96] == r.binding.encoded;
    assert intro[96..] == BigEndian(|r.ciphertext|, 8);
  }

  lemma Slices(a: Bytes, b: Bytes, c: Bytes, more: Bytes)
    ensures
      var s, n := a + b + c + more, |a| + |b|;
      && s[..|a|] == a && s[|a|..n] == b && s[n..n + |c|] == c
      && s[..n + |c|] == a + b + c && s[n + |c|..] == more
  {
  }

  lemma HeadSound(digest: Digest, store: Bytes, rest: Bytes)
    requires HeadRecord(digest, store, rest).Some?
    ensures
      var r := HeadRecord(digest, store, rest).value;
      var n := OVERHEAD + |r.ciphertext|;
      ValidRecord(store, r) && n <= |rest| && rest[..n] == RecordBytes(digest, r)
  {
    hide Decode, BigEndian, FromBigEndian, Frame, RecordTag;
    var intro := rest[..RECORD_HEADER];
    AnnouncedSound(store, intro);
    hide Announced, ValidBinding;
    var r := HeadRecord(digest, store, rest).value;
    var n := RECORD_HEADER + |r.ciphertext|;
    assert r.ciphertext == rest[RECORD_HEADER..n] && intro == RecordIntro(r);
    var tag := rest[n..n + TAG];
    assert tag == RecordTag(digest, intro, r.ciphertext);
    hide HeadRecord, RecordIntro;
    assert rest[..n + TAG] == intro + r.ciphertext + tag;
  }

  /** Whenever a record's bytes come first, that record is read. */
  lemma HeadComplete(digest: Digest, store: Bytes, r: Record, more: Bytes)
    requires ValidRecord(store, r)
    ensures HeadRecord(digest, store, RecordBytes(digest, r) + more) == Some(r)
  {
    RecordLength(digest, store, r);
    AnnouncedComplete(store, r);
    hide HeadRecord, Announced, RecordIntro, RecordTag, ValidRecord;
    var intro := RecordIntro(r);
    var tag := RecordTag(digest, intro, r.ciphertext);
    var rest := intro + r.ciphertext + tag + more;
    Slices(intro, r.ciphertext, tag, more);
    HeadFrom(digest, store, rest, r, tag);
  }

  lemma HeadFrom(digest: Digest, store: Bytes, rest: Bytes, r: Record, tag: Bytes)
    requires |rest| >= OVERHEAD + |r.ciphertext|
    requires Announced(store, rest[..RECORD_HEADER]) == Some((r.binding, |r.ciphertext|))
    requires
      var n := RECORD_HEADER + |r.ciphertext|;
      && rest[RECORD_HEADER..n] == r.ciphertext && rest[n..n + TAG] == tag
      && tag == RecordTag(digest, rest[..RECORD_HEADER], r.ciphertext)
    ensures HeadRecord(digest, store, rest) == Some(r)
  {
    hide Announced, RecordTag;
  }

  /** A record that was cut off anywhere is never read as a record. */
  lemma TornHead(digest: Digest, store: Bytes, r: Record, k: nat)
    requires ValidRecord(store, r) && k < |RecordBytes(digest, r)|
    ensures HeadRecord(digest, store, RecordBytes(digest, r)[..k]).None?
  {
    RecordLength(digest, store, r);
    AnnouncedComplete(store, r);
    hide Announced, RecordIntro, RecordTag, ValidRecord;
    var torn := RecordBytes(digest, r)[..k];
    if k >= OVERHEAD {
      assert torn[..RECORD_HEADER] == RecordIntro(r);
    }
  }

  // ----- Reading a whole body is unambiguous -----

  lemma {:induction false} BodyAppend(digest: Digest, a: seq<Record>, b: seq<Record>)
    ensures Body(digest, a + b) == Body(digest, a) + Body(digest, b)
  {
    if a == [] {
      assert a + b == b;
    } else {
      assert (a + b)[0] == a[0] && (a + b)[1..] == a[1..] + b;
      BodyAppend(digest, a[1..], b);
    }
  }

  /** If one body, followed by anything, starts like another body followed by a rest in
      which no record can be read, then the first records are a prefix of the second. */
  lemma {:induction false} BodyPrefix(digest: Digest, store: Bytes, a: seq<Record>, b: seq<Record>,
                                      x: Bytes, y: Bytes)
    requires forall r | r in a :: ValidRecord(store, r)
    requires forall r | r in b :: ValidRecord(store, r)
    requires Body(digest, a) + x == Body(digest, b) + y
    requires HeadRecord(digest, store, y).None?
    ensures a <= b && x == Body(digest, b[|a|..]) + y
    decreases |a|
  {
    hide HeadRecord, ValidRecord, RecordBytes;
    if a == [] {
      assert b[0..] == b;
    } else {
      var whole := Body(digest, a) + x;
      assert b == [] ==> whole == y;
      assert a[0] in a;
      assert whole == RecordBytes(digest, a[0]) + (Body(digest, a[1..]) + x);
      HeadComplete(digest, store, a[0], Body(digest, a[1..]) + x);
      if b == [] {
        assert false;
      } else {
        assert b[0] in b;
        assert whole == RecordBytes(digest, b[0]) + (Body(digest, b[1..]) + y);
        HeadComplete(digest, store, b[0], Body(digest, b[1..]) + y);
        assert a[0] == b[0];
        var n := |RecordBytes(digest, a[0])|;
        assert whole[n..] == Body(digest, a[1..]) + x == Body(digest, b[1..]) + y;
        BodyPrefix(digest, store, a[1..], b[1..], x, y);
        assert a == [a[0]] + a[1..] && b == [b[0]] + b[1..];
        assert b[|a|..] == b[1..][|a| - 1..];
      }
    }
  }

  lemma NothingToRead(digest: Digest, store: Bytes)
    ensures HeadRecord(digest, store, []).None?
  {
  }

  /** A file is a well-formed store in at most one way. */
  lemma ImageInjective(digest: Digest, store: Bytes, a: seq<Record>, b: seq<Record>)
    requires |store| == 16 && ValidRecords(store, a) && ValidRecords(store, b)
    requires Image(digest, store, a) == Image(digest, store, b)
    ensures a == b
  {
    hide HeadRecord, HeaderBytes, Body, ValidRecord;
    var x, y := Body(digest, a), Body(digest, b);
    assert x == Image(digest, store, a)[HEADER..] && y == Image(digest, store, b)[HEADER..];
    NothingToRead(digest, store);
    assert x + [] == y + [];
    BodyPrefix(digest, store, a, b, [], []);
    BodyPrefix(digest, store, b, a, [], []);
  }

  /** The records of a well-formed store. */
  ghost function Contents(digest: Digest, store: Bytes, bytes: Bytes): (rs: seq<Record>)
    requires |store| == 16 && WellFormed(digest, store, bytes)
    ensures ValidRecords(store, rs) && bytes == Image(digest, store, rs)
  {
    var rs :| ValidRecords(store, rs) && bytes == Image(digest, store, rs);
    rs
  }

  lemma ContentsOf(digest: Digest, store: Bytes, rs: seq<Record>)
    requires |store| == 16 && ValidRecords(store, rs)
    ensures WellFormed(digest, store, Image(digest, store, rs))
    ensures Contents(digest, store, Image(digest, store, rs)) == rs
  {
    ImageInjective(digest, store, rs, Contents(digest, store, Image(digest, store, rs)));
  }
}
