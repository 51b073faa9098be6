/** A writer of the tar profile: the partner of the header reader, and the reason why every
    manifest of short names has an archive that is accepted. */
module TarWriter {
  import opened Common
  import opened TarFormat
  import V = TarValidator
  import R = TarRefinement

  function Pow8(w: nat): nat {
    if w == 0 then 1 else 8 * Pow8(w - 1)
  }

  /** A number as w octal digits. */
  function OctalDigits(n: nat, w: nat): (r: Bytes)
    ensures |r| == w
  {
    if w == 0 then [] else OctalDigits(n / 8, w - 1) + [(48 + n % 8) as Byte]
  }

  /** A numeric field: digits, then one NUL. */
  function NumberField(n: nat, w: nat): (r: Bytes)
    requires w > 0
    ensures |r| == w
  {
    OctalDigits(n, w - 1) + [0]
  }

  lemma {:induction false} DigitsRead(n: nat, w: nat)
    requires n < Pow8(w)
    ensures forall i | 0 <= i < w :: OctalDigit(OctalDigits(n, w)[i])
    ensures OctalNumber(OctalDigits(n, w)) == n
  {
    if w > 0 {
      var shown := OctalDigits(n, w);
      DigitsRead(n / 8, w - 1);
      assert shown[..w - 1] == OctalDigits(n / 8, w - 1);
      assert shown[w - 1] == (48 + n % 8) as Byte;
    }
  }

  /** Digits followed by filler are read as the number they write. */
  lemma FieldReads(n: nat, w: nat, filler: Bytes)
    requires w > 0 && n < Pow8(w) && n <= U64_MAX && filler != []
    requires forall i | 0 <= i < |filler| :: Filler(filler[i])
    ensures Octal(OctalDigits(n, w) + filler) == Some(n)
  {
    var digits := OctalDigits(n, w);
    var field := digits + filler;
    DigitsRead(n, w);
    assert field[0] == digits[0] && OctalDigit(digits[0]);
    RunLengthUnique(IsSpace, field, 0);
    assert field[0..] == field && field[w] == filler[0];
    forall i | 0 <= i < w ensures OctalDigit(field[i]) {
      assert field[i] == digits[i];
    }
    RunLengthUnique(OctalDigit, field, w);
    assert field[..w] == digits;
    forall i | w <= i < |field| ensures Filler(field[i]) {
      assert field[i] == filler[i - w];
    }
    hide OctalNumber, OctalDigits, RunLength;
    OctalParts(field, 0, w);
  }

  lemma NumberReads(n: nat, w: nat)
    requires w > 1 && n < Pow8(w - 1) && n <= U64_MAX
    ensures Octal(NumberField(n, w)) == Some(n)
  {
    FieldReads(n, w - 1, [0]);
  }

  lemma Powers()
    ensures Pow8(6) == 262_144 && Pow8(7) == 2_097_152 && Pow8(11) == 8_589_934_592
  {
    assert Pow8(3) == 512;
    assert Pow8(6) == 512 * Pow8(3);
    assert Pow8(9) == 512 * Pow8(6);
  }

  // ----- Writing a header -----

  /** Everything before the checksum: name, mode, owner, group, size and time. */
  function Front(path: Bytes, size: nat): (front: Bytes)
    requires |path| <= 100
    ensures |front| == 148
  {
    hide NumberField;
    path + Zeros(100 - |path|) + NumberField(0x1A4, 8) + NumberField(0, 8) + NumberField(0, 8)
    + NumberField(size, 12) + NumberField(0, 12)
  }

  /** Everything after the checksum: a regular file, no link, the POSIX form, nothing more. */
  function Back(): (back: Bytes)
    ensures |back| == 356
  {
    [ZERO] + Zeros(100) + POSIX_MAGIC + Zeros(247)
  }

  function Write(path: Bytes, size: nat): (block: Bytes)
    requires |path| <= 100
    ensures |block| == BLOCK_BYTES
  {
    Front(path, size) + (OctalDigits(Sum(Front(path, size)) + 8 * 32 + Sum(Back()), 6) + [0, SPACE]) + Back()
  }

  lemma {:induction false} SumBound(s: Bytes)
    ensures Sum(s) <= 255 * |s|
  {
    if s != [] {
      SumBound(s[1..]);
    }
  }

  lemma FrontParts(path: Bytes, size: nat)
    requires |path| <= 100
    ensures
      var f := Front(path, size);
      && |f| == 148 && f[..100] == path + Zeros(100 - |path|) && f[100..108] == NumberField(0x1A4, 8)
      && f[108..116] == NumberField(0, 8) && f[116..124] == NumberField(0, 8)
      && f[124..136] == NumberField(size, 12) && f[136..148] == NumberField(0, 12)
  {
    hide NumberField;
  }

  lemma BackParts()
    ensures
      var b := Back();
      && |b| == 356 && b[0] == ZERO && AllZero(b[1..101]) && b[101..109] == POSIX_MAGIC && AllZero(b[109..])
  {
  }

  /** A slice of one of three parts. */
  lemma SliceFront(a: Bytes, b: Bytes, c: Bytes, i: nat, j: nat)
    requires i <= j <= |a|
    ensures (a + b + c)[i..j] == a[i..j]
  {
  }

  lemma SliceBack(a: Bytes, b: Bytes, c: Bytes, i: nat, j: nat)
    requires i <= j <= |c|
    ensures (a + b + c)[|a| + |b| + i..|a| + |b| + j] == c[i..j]
  {
  }

  lemma ZeroText(s: Bytes)
    requires AllZero(s)
    ensures Text(s) == Some([])
  {
    RunLengthUnique(NonZero, s, 0);
    assert s[0..] == s && s[..0] == [];
  }

  lemma PaddedText(path: Bytes, n: nat)
    requires 0 !in path
    ensures Text(path + Zeros(n)) == Some(path)
  {
    var field := path + Zeros(n);
    forall i | 0 <= i < |path| ensures NonZero(field[i]) {
      assert field[i] == path[i] && path[i] in path;
    }
    RunLengthUnique(NonZero, field, |path|);
    assert field[|path|..] == Zeros(n) && field[..|path|] == path;
  }

  lemma PathHasNoZero(path: Bytes)
    requires ValidPath(path)
    ensures 0 !in path && path != [] && |path| <= MAX_PATH_BYTES
  {
    forall i | 0 <= i < |path| ensures path[i] != 0 {
      assert PathByte(path[i]);
    }
  }

  /** Where the three parts of a block lie. */
  lemma FrontOfBlock(a: Bytes, b: Bytes, c: Bytes)
    requires |a| == 148 && |b| == 8 && |c| == 356
    ensures
      var w := a + b + c;
      && w[..100] == a[..100] && w[100..108] == a[100..108] && w[108..116] == a[108..116]
      && w[116..124] == a[116..124] && w[124..136] == a[124..136] && w[136..148] == a[136..148]
  {
    SliceFront(a, b, c, 100, 108);
    SliceFront(a, b, c, 108, 116);
    SliceFront(a, b, c, 116, 124);
    SliceFront(a, b, c, 124, 136);
    SliceFront(a, b, c, 136, 148);
  }

  lemma BackOfBlock(a: Bytes, b: Bytes, c: Bytes)
    requires |a| == 148 && |b| == 8 && |c| == 356
    ensures
      var w := a + b + c;
      w[156] == c[0] && w[157..257] == c[1..101] && w[257..265] == c[101..109] && w[265..] == c[109..]
  {
    SliceBack(a, b, c, 1, 101);
    SliceBack(a, b, c, 101, 109);
  }

  /** The parts of a written header, at the places where the reader looks. */
  lemma WrittenFront(path: Bytes, size: nat)
    requires |path| <= 100
    ensures
      var w := Write(path, size);
      && w[..100] == path + Zeros(100 - |path|) && w[100..108] == NumberField(0x1A4, 8)
      && w[108..116] == NumberField(0, 8) && w[116..124] == NumberField(0, 8)
      && w[124..136] == NumberField(size, 12) && w[136..148] == NumberField(0, 12)
  {
    var front, back := Front(path, size), Back();
    FrontParts(path, size);
    hide Front, Back, NumberField, OctalDigits, Zeros, Sum, AllZero, POSIX_MAGIC;
    FrontOfBlock(front, OctalDigits(Sum(front) + 8 * 32 + Sum(back), 6) + [0, SPACE], back);
  }

  lemma WrittenBack(path: Bytes, size: nat)
    requires |path| <= 100
    ensures
      var w := Write(path, size);
      w[156] == ZERO && AllZero(w[157..257]) && w[257..265] == POSIX_MAGIC && AllZero(w[265..])
  {
    BackParts();
    var front, back := Front(path, size), Back();
    var check := OctalDigits(Sum(front) + 8 * 32 + Sum(back), 6) + [0, SPACE];
    assert Write(path, size) == front + check + back;
    hide Write, Front, Back, OctalDigits, Sum, AllZero, POSIX_MAGIC;
    BackOfBlock(front, check, back);
  }

  lemma ChecksumOfParts(front: Bytes, check: Bytes, back: Bytes)
    requires |front| == 148 && |check| == 8 && |back| == 356
    ensures
      var w := front + check + back;
      w[148..156] == check && Checksum(w) == Sum(front) + 8 * 32 + Sum(back)
  {
    hide Sum;
    var w := front + check + back;
    assert w[..148] == front && w[148..156] == check && w[156..] == back;
  }

  /** The checksum field holds the checksum of the block. */
  lemma WrittenChecksum(path: Bytes, size: nat)
    requires |path| <= 100
    ensures Write(path, size)[148..156] == OctalDigits(Checksum(Write(path, size)), 6) + [0, SPACE]
  {
    var front, back := Front(path, size), Back();
    hide Front, Back, NumberField, OctalDigits, Zeros, Sum, AllZero, POSIX_MAGIC, Checksum;
    ChecksumOfParts(front, OctalDigits(Sum(front) + 8 * 32 + Sum(back), 6) + [0, SPACE], back);
  }

  lemma SubZero(s: Bytes, i: nat, j: nat)
    requires i <= j <= |s| && AllZero(s)
    ensures AllZero(s[i..j])
  {
  }

  /** The fields of a block that is a plain header of the profile. */
  ghost predicate PlainHeader(w: Bytes, path: Bytes, size: nat)
    requires |w| == BLOCK_BYTES
  {
    && Octal(w[148..156]) == Some(Checksum(w)) && Prefix(w) == Some([])
    && w[156] == ZERO && AllZero(w[157..257])
    && Octal(w[100..108]) == Some(0x1A4) && Octal(w[108..116]) == Some(0) && Octal(w[116..124]) == Some(0)
    && Octal(w[124..136]) == Some(size) && Octal(w[136..148]) == Some(0)
    && AllZero(w[329..337]) && AllZero(w[337..345])
    && Text(w[265..297]) == Some([]) && Text(w[297..329]) == Some([]) && Text(w[..100]) == Some(path)
  }

  lemma PlainHeaderParses(w: Bytes, path: Bytes, size: nat)
    requires |w| == BLOCK_BYTES && PlainHeader(w, path, size)
    requires ValidPath(path) && path != [] && |path| <= MAX_PATH_BYTES && size <= MAX_FILE_BYTES
    ensures Parse(w) == Ok(Header(path, size))
  {
    hide Octal, Checksum, Prefix, AllZero, Text, ValidPath;
    assert Join([], path) == path;
  }

  lemma WrittenTexts(w: Bytes, path: Bytes)
    requires |w| == BLOCK_BYTES && |path| <= 100 && 0 !in path
    requires w[..100] == path + Zeros(100 - |path|) && w[257..265] == POSIX_MAGIC && AllZero(w[265..])
    ensures Prefix(w) == Some([]) && AllZero(w[329..337]) && AllZero(w[337..345])
    ensures Text(w[265..297]) == Some([]) && Text(w[297..329]) == Some([]) && Text(w[..100]) == Some(path)
  {
    var rest := w[265..];
    SubZero(rest, 0, 32);
    SubZero(rest, 32, 64);
    SubZero(rest, 64, 72);
    SubZero(rest, 72, 80);
    SubZero(rest, 80, 235);
    SubZero(rest, 235, 247);
    PaddedText(path, 100 - |path|);
    hide Text, AllZero, Zeros;
    assert w[265..297] == rest[0..32] && w[297..329] == rest[32..64] && w[329..337] == rest[64..72];
    assert w[337..345] == rest[72..80] && w[345..500] == rest[80..235] && w[500..] == rest[235..247];
    ZeroText(w[265..297]);
    ZeroText(w[297..329]);
    ZeroText(w[345..500]);
  }

  lemma WrittenNumbers(size: nat, check: nat)
    requires size <= MAX_FILE_BYTES && check < 262_144
    ensures Octal(OctalDigits(check, 6) + [0, SPACE]) == Some(check)
    ensures Octal(NumberField(0x1A4, 8)) == Some(0x1A4) && Octal(NumberField(0, 8)) == Some(0)
    ensures Octal(NumberField(size, 12)) == Some(size) && Octal(NumberField(0, 12)) == Some(0)
  {
    Powers();
    hide Octal, OctalDigits, NumberField, Pow8;
    FieldReads(check, 6, [0, SPACE]);
    NumberReads(0x1A4, 8);
    NumberReads(0, 8);
    NumberReads(size, 12);
    NumberReads(0, 12);
  }

  /** The reader of a written header finds the path and the size that were written. */
  lemma HeaderRoundTrip(path: Bytes, size: nat)
    requires ValidPath(path) && |path| <= 100 && size <= MAX_FILE_BYTES
    ensures Parse(Write(path, size)) == Ok(Header(path, size))
  {
    var w := Write(path, size);
    PathHasNoZero(path);
    SumBound(w[..148]);
    SumBound(w[156..]);
    WrittenFront(path, size);
    WrittenBack(path, size);
    WrittenChecksum(path, size);
    WrittenNumbers(size, Checksum(w));
    WrittenTexts(w, path);
    hide Write, Octal, Text, AllZero, Checksum, NumberField, OctalDigits, Zeros, ValidPath, Prefix;
    PlainHeaderParses(w, path, size);
  }

  // ----- Writing an archive -----

  function Written(f: File): Entry
    requires |f.path| <= 100
  {
    Entry(Write(f.path, f.size), Zeros(f.size))
  }

  function Entries(files: seq<File>): (r: seq<Entry>)
    requires forall i | 0 <= i < |files| :: |files[i].path| <= 100
    ensures |r| == |files|
  {
    seq(|files|, i requires 0 <= i < |files| => Written(files[i]))
  }

  lemma WrittenMember(f: File)
    requires ValidPath(f.path) && |f.path| <= 100 && f.size <= MAX_FILE_BYTES
    ensures MemberFor(f, Written(f))
  {
    HeaderRoundTrip(f.path, f.size);
    hide Write, Parse, ValidPath;
  }

  /** An archive of a manifest of short names, here with empty bodies of the right sizes. */
  function WriteArchive(files: seq<File>): Bytes
    requires forall i | 0 <= i < |files| :: |files[i].path| <= 100
  {
    Layout(Entries(files)) + Zeros(2 * BLOCK_BYTES)
  }

  lemma EntriesFit(files: seq<File>)
    requires forall i | 0 <= i < |files| :: |files[i].path| <= 100
    requires forall i | 0 <= i < |files| :: ValidPath(files[i].path) && files[i].size <= MAX_FILE_BYTES
    ensures forall i | 0 <= i < |files| :: MemberFor(files[i], Entries(files)[i])
  {
    hide Written, MemberFor, ValidPath;
    forall i | 0 <= i < |files| ensures MemberFor(files[i], Entries(files)[i]) {
      WrittenMember(files[i]);
    }
  }

  lemma ArchiveConforms(order: seq<File>, entries: seq<Entry>, tail: nat)
    requires |entries| == |order| && ValidTail(tail)
    requires forall i | 0 <= i < |order| :: MemberFor(order[i], entries[i])
    ensures Conforms(multiset(order), Layout(entries) + Zeros(tail))
  {
    hide MemberFor, Layout, Zeros, ValidTail;
    assert IsArchive(order, entries, tail, Layout(entries) + Zeros(tail));
  }

  lemma WrittenConforms(files: seq<File>)
    requires ValidManifest(files) && forall i | 0 <= i < |files| :: |files[i].path| <= 100
    ensures Conforms(multiset(files), WriteArchive(files))
  {
    EntriesFit(files);
    hide Conforms, MemberFor, Entries, Layout, Zeros, StrictlySortedBy, NoAncestors, ValidPath, TotalSize;
    ArchiveConforms(files, Entries(files), 2 * BLOCK_BYTES);
  }

  /** Every manifest of names up to 100 bytes has an archive, and the checker accepts it in
      whatever chunks it comes. */
  lemma EveryManifestHasAnArchive(files: seq<File>, chunks: seq<Bytes>)
    requires ValidManifest(files) && forall i | 0 <= i < |files| :: |files[i].path| <= 100
    requires Concat(chunks) == WriteArchive(files) && forall c | c in chunks :: |c| <= MAX_CHUNK_BYTES
    ensures V.Validate(files, chunks) == Ok(V.Summary(|files|, TotalSize(files), |WriteArchive(files)|))
  {
    hide ValidManifest, WriteArchive, Conforms, V.Validate;
    WrittenConforms(files);
    R.ValidateExact(files, chunks);
  }
}
