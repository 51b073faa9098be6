/** The check of a captured archive: exactly one file, in a tar or a gzip stream, over pieces
    of any size. */
module ArchiveCheck {
  import opened Common
  import opened RecordFormat
  import opened RecordStore
  import opened SealTrace
  import T = TarFormat
  import V = TarValidator
  import R = TarRefinement

  const ETC: Bytes := [101, 116, 99]
  const CONFIG: Bytes := [99, 111, 110, 102, 105, 103]
  const SYSTEM: Bytes := [115, 121, 115, 116, 101, 109]

  /** "etc/config/system", the one file a capture contains. */
  const SYSTEM_PATH: Bytes := ETC + [SLASH] + (CONFIG + [SLASH] + SYSTEM)

  function Expected(b: Binding): seq<T.File> {
    [T.File(SYSTEM_PATH, FileBytes(b))]
  }

  /** The expectation built from any valid binding is an accepted manifest. */
  lemma ExpectedIsManifest(b: Binding)
    requires ValidBinding(b)
    ensures T.ValidManifest(Expected(b)) && T.TotalSize(Expected(b)) == FileBytes(b)
  {
    DecodeExact(b.encoded);
    SystemPathIsValid();
    hide Decode, BigEndian, FromBigEndian, T.ValidPath, SYSTEM_PATH, LexBelow;
    var files := Expected(b);
    assert files[1..] == [] && T.TotalSize([]) == 0;
    assert forall f | f in files :: f == files[0];
    assert StrictlySortedBy(T.PathKey, files);
  }

  lemma OneFileIsSorted(b: Binding)
    ensures StrictlySortedBy(T.PathKey, Expected(b))
  {
  }

  lemma SystemPathIsValid()
    ensures T.ValidPath(SYSTEM_PATH)
  {
    assert T.ValidComponent(ETC) && T.ValidComponent(CONFIG) && T.ValidComponent(SYSTEM);
    assert PathBytes(ETC) && PathBytes(CONFIG) && PathBytes(SYSTEM);
    assert |ETC| == 3 && |CONFIG| == |SYSTEM| == 6;
    SystemComponents();
    hide ETC, CONFIG, SYSTEM, Components, T.ValidComponent;
    PathBytesJoin(CONFIG, SYSTEM);
    PathBytesJoin(ETC, CONFIG + [SLASH] + SYSTEM);
  }

  lemma SystemComponents()
    ensures Components(SYSTEM_PATH) == [ETC, CONFIG, SYSTEM]
  {
    ComponentsPlain(ETC);
    ComponentsPlain(CONFIG);
    ComponentsPlain(SYSTEM);
    hide ETC, CONFIG, SYSTEM, Components;
    ComponentsJoin(ETC, CONFIG + [SLASH] + SYSTEM);
    ComponentsJoin(CONFIG, SYSTEM);
  }

  predicate PathBytes(s: Bytes) {
    forall i | 0 <= i < |s| :: T.PathByte(s[i])
  }

  lemma PathBytesJoin(a: Bytes, b: Bytes)
    requires PathBytes(a) && PathBytes(b)
    ensures PathBytes(a + [SLASH] + b)
  {
  }

  /** The gzip check as a function of the whole compressed stream. */
  type GzipCheck = Bytes -> Option<CheckCounts>

  /** What the archive check reports after being fed these pieces. */
  function Verdict(b: Binding, gzip: GzipCheck, pieces: seq<Bytes>): Option<CheckCounts> {
    if FormatOf(b).Tar? then
      match V.Validate(Expected(b), pieces)
      case Err(_) => None
      case Ok(s) => Some(CheckCounts(s.archiveBytes, s.archiveBytes, s.payloadBytes, s.files))
    else gzip(Concat(pieces))
  }

  predicate Bounded(pieces: seq<Bytes>) {
    forall p | p in pieces :: |p| <= T.MAX_CHUNK_BYTES
  }

  /** The check does not depend on how the stream was cut. */
  lemma VerdictSplit(b: Binding, gzip: GzipCheck, x: seq<Bytes>, y: seq<Bytes>)
    requires ValidBinding(b) && Bounded(x) && Bounded(y) && Concat(x) == Concat(y)
    ensures Verdict(b, gzip, x) == Verdict(b, gzip, y)
  {
    ExpectedIsManifest(b);
    hide V.Validate, T.ValidManifest, Decode;
    if FormatOf(b).Tar? {
      R.SplitIndependent(Expected(b), x, y);
    }
  }

  /** `plain` cut into full chunks and a rest. */
  function Pieces(plain: Bytes): seq<Bytes>
    decreases |plain|
  {
    if plain == [] then []
    else
      var n := Min(T.MAX_CHUNK_BYTES, |plain|);
      [plain[..n]] + Pieces(plain[n..])
  }

  lemma {:induction false} PiecesExact(plain: Bytes)
    ensures Concat(Pieces(plain)) == plain && Bounded(Pieces(plain))
    decreases |plain|
  {
    if plain != [] {
      var n := Min(T.MAX_CHUNK_BYTES, |plain|);
      PiecesExact(plain[n..]);
      assert Pieces(plain)[1..] == Pieces(plain[n..]);
      assert plain == plain[..n] + plain[n..];
    }
  }

  /** Where the tar machine stands after these pieces. */
  function TarAfter(b: Binding, pieces: seq<Bytes>): V.Checker {
    V.FeedAll(Expected(b), V.Active(V.Start(Expected(b)), 0), pieces)
  }

  /** Once the tar machine failed, no further piece changes the verdict. */
  lemma FailedVerdict(b: Binding, gzip: GzipCheck, fed: seq<Bytes>, more: seq<Bytes>)
    requires FormatOf(b).Tar? && TarAfter(b, fed).Failed?
    ensures Verdict(b, gzip, fed + more).None?
  {
    var start := V.Active(V.Start(Expected(b)), 0);
    R.FeedAllJoins(Expected(b), start, fed, more);
    R.FailedStaysFailed(Expected(b), TarAfter(b, fed).error, more);
  }

  /** The program's checker object over either validator, with the deadline looked at around
      every call. */
  class Check {
    const binding: Binding
    const gzip: GzipCheck
    const env: Faults
    const tar: V.ArchiveValidator
    var held: Bytes
    /** What the validator was fed. */
    ghost var pieces: seq<Bytes>

    ghost predicate Valid()
      reads this, tar, tar.header
    {
      && tar.Valid() && tar.files == Expected(binding)
      && (FormatOf(binding).Tar? ==> tar.Checked() == TarAfter(binding, pieces))
      && (FormatOf(binding).Gzip? ==> held == Concat(pieces))
    }

    constructor (binding: Binding, gzip: GzipCheck, env: Faults)
      ensures Valid() && fresh(tar) && fresh(tar.header) && pieces == []
      ensures this.binding == binding && this.gzip == gzip && this.env == env
    {
      OneFileIsSorted(binding);
      this.binding, this.gzip, this.env := binding, gzip, env;
      tar := new V.ArchiveValidator(Expected(binding));
      held, pieces := [], [];
    }

    method Feed(input: Bytes) returns (r: Answer<Nothing>)
      requires Valid()
      modifies this, tar, tar.header, env
      ensures Valid() && r != Panicked
      ensures old(env.faulted) ==> env.faulted
      ensures r.Done? ==> pieces == old(pieces) + [input]
      ensures r.Failed? ==>
                env.faulted || (FormatOf(binding).Tar? && TarAfter(binding, old(pieces) + [input]).Failed?)
    {
      var ok := env.Try();
      if !ok {
        return Failed;
      }
      pieces := pieces + [input];
      if FormatOf(binding).Tar? {
        R.FeedAllSnoc(tar.files, V.Active(V.Start(tar.files), 0), old(pieces), input);
        var failure := tar.Feed(input);
        if failure.Some? {
          return Failed;
        }
      } else {
        ConcatSnoc(old(pieces), input);
        held := held + input;
      }
      ok := env.Try();
      return if ok then Done(Nothing) else Failed;
    }

    method Finish() returns (r: Answer<CheckCounts>)
      requires Valid()
      modifies env
      ensures r != Panicked && (old(env.faulted) ==> env.faulted)
      ensures r.Done? ==> Verdict(binding, gzip, pieces) == Some(r.value)
      ensures r.Failed? ==> env.faulted || Verdict(binding, gzip, pieces).None?
    {
      var ok := env.Try();
      if !ok {
        return Failed;
      }
      var counts: CheckCounts;
      if FormatOf(binding).Tar? {
        var summary := tar.Finish();
        if summary.Err? {
          return Failed;
        }
        var s := summary.value;
        counts := CheckCounts(s.archiveBytes, s.archiveBytes, s.payloadBytes, s.files);
      } else {
        var checked := gzip(held);
        if checked.None? {
          return Failed;
        }
        counts := checked.value;
      }
      ok := env.Try();
      return if ok then Done(counts) else Failed;
    }
  }
}
