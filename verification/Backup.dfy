/** Sealing a captured archive into the record store and restoring it again: the sealing
    workflow over the ports of a capture, and the inspection of what was stored. */
module Backup {
  import opened Common
  import opened RecordFormat
  import opened RecordStore
  import opened SealTrace
  import opened SealPorts
  import opened Sealing
  import opened SealWorkflow
  import opened ArchiveCheck
  import opened CapturePorts
  import T = TarFormat
  import V = TarValidator
  import Runs = StoreRuns

  datatype Inspection = Inspection(sourceBytes: nat, payloadBytes: nat, files: nat)

  type Decryptor = Bytes -> Option<Bytes>

  /** A restore without failures succeeds, with inspection `i`. */
  ghost predicate Restorable(digest: Digest, store: Bytes, bytes: Bytes, b: Binding,
                             decrypt: Decryptor, gzip: GzipCheck, i: Inspection)
    requires |store| == 16
  {
    && Readable(digest, store, bytes, Some(b))
    && var found := Lookup(Contents(digest, store, bytes), b);
       && found.Some? && Opens(b, decrypt, gzip, found.value, i)
  }

  /** The ciphertext decrypts to an archive of the bound length that passes the check. */
  ghost predicate Opens(b: Binding, decrypt: Decryptor, gzip: GzipCheck, ciphertext: Bytes, i: Inspection) {
    var plain := decrypt(ciphertext);
    && plain.Some? && |plain.value| == SourceBytes(b)
    && var c := Verdict(b, gzip, Pieces(plain.value));
       c.Some? && i == Inspection(c.value.sourceBytes, c.value.payloadBytes, c.value.files)
  }

  // ----- Sealing -----

  /** A capture whose producer delivered exactly the bound bytes. */
  datatype Captured = Captured(binding: Binding, bytes: Bytes)

  predicate Complete(c: Captured) {
    ValidBinding(c.binding) && |c.bytes| == SourceBytes(c.binding)
  }

  function Completed(binding: Binding, bytes: Bytes, producerBytes: nat): Result<Captured, BackupError>
    requires ValidBinding(binding)
  {
    if |bytes| != SourceBytes(binding) || producerBytes != SourceBytes(binding) || |bytes| > MAX_PLAINTEXT
    then Err(Integrity)
    else Ok(Captured(binding, bytes))
  }

  /** A capture exists exactly if the bytes that arrived and those that the producer counted are
      as many as were bound; the limit on plaintext never decides. */
  lemma CompletedExactly(binding: Binding, bytes: Bytes, producerBytes: nat)
    requires ValidBinding(binding)
    ensures Completed(binding, bytes, producerBytes).Ok? <==> |bytes| == producerBytes == SourceBytes(binding)
    ensures Completed(binding, bytes, producerBytes).Ok? ==>
              Complete(Completed(binding, bytes, producerBytes).value)
  {
    DecodeExact(binding.encoded);
  }

  datatype BackupFailure = BackupFailure(cause: BackupError, publication: RecordPublication)

  datatype CaptureOutcome =
    | CaptureSealed(inspection: Inspection)
    | CaptureFailed(failure: BackupFailure)
    | CaptureUnwound

  function RecordOutcome(p: Publication): RecordPublication {
    match p
    case Published => RecordPublication.Durable
    case PublicationUnknown => RecordPublication.Unknown
    case NotAttempted => RecordPublication.NotPublished
    case NotPublished => RecordPublication.NotPublished
  }

  /** When the cipher reports success at the end of its input, what it staged decrypts to
      what it was handed. */
  ghost predicate HonestCipher(t: Trace, decrypt: Decryptor) {
    forall i | 0 <= i < |t| && t[i].CipherReturned? && t[i].report.Done? && AtEof(t[..i]) ::
      decrypt(Staged(t[..i])) == Some(Concat(HandedOver(t[..i])))
  }

  /** The store made exactly the step that is reported. */
  ghost predicate StoreMoved(digest: Digest, store: Bytes, b: Binding, ciphertext: Bytes, p: RecordPublication,
                             w: Runs.World, w': Runs.World)
    requires |store| == 16
  {
    if p == RecordPublication.NotPublished then w' == w
    else Runs.Step(digest, store, w, Runs.Published(b, ciphertext, p), w')
  }

  // ----- What a sealed body says -----

  lemma SilentAppend(t: Trace, e: Event)
    requires !e.ReadSource? && !e.FedCheck? && !e.WroteStage?
    ensures Offered(t + [e]) == Offered(t) && Accepted(t + [e]) == Accepted(t)
    ensures Staged(t + [e]) == Staged(t) && ReadBytes(t + [e]) == ReadBytes(t)
  {
    assert (t + [e])[..|t|] == t;
    assert Offered(t) + [] == Offered(t) && Accepted(t) + [] == Accepted(t);
    assert Staged(t) + [] == Staged(t) && ReadBytes(t) + [] == ReadBytes(t);
  }

  lemma FiveEvents(pre: Trace, e1: Event, e2: Event, e3: Event, e4: Event, e5: Event)
    ensures
      var t := pre + [e1, e2, e3, e4] + [e5];
      && t[..|pre|] == pre && t[|pre|] == e1 && t[|pre| + 1] == e2 && t[|pre| + 2] == e3 && t[|pre| + 3] == e4
      && t[..|pre| + 1] == pre + [e1]
      && t == pre + [e1] + [e2] + [e3] + [e4] + [e5]
  {
    var t := pre + [e1, e2, e3, e4] + [e5];
    assert t[..|pre|] == pre && t[|pre|..] == [e1, e2, e3, e4, e5];
    assert pre + [e1] + [e2] + [e3] + [e4] + [e5] == pre + [e1, e2, e3, e4, e5];
  }

  /** Reports after the stream part change nothing about the bytes. */
  lemma ReportsAreSilent(pre: Trace, e1: Event, e2: Event, e3: Event, e4: Event, e5: Event)
    requires e1.CipherReturned? && e2.CheckFinished? && e3.SourceCompleted? && e4.FlushedStage? && e5.Publishing?
    ensures Offered(pre + [e1]) == Offered(pre) && Accepted(pre + [e1]) == Accepted(pre)
    ensures Staged(pre + [e1] + [e2] + [e3] + [e4] + [e5]) == Staged(pre)
  {
    hide Offered, Accepted, Staged, ReadBytes;
    SilentAppend(pre, e1);
    SilentAppend(pre + [e1], e2);
    SilentAppend(pre + [e1] + [e2], e3);
    SilentAppend(pre + [e1] + [e2] + [e3], e4);
    SilentAppend(pre + [e1] + [e2] + [e3] + [e4], e5);
  }

  lemma {:induction false} QuietPieces(t: Trace)
    requires Quiet(t)
    ensures Bounded(Offered(t))
  {
    if t != [] {
      var init := t[..|t| - 1];
      forall i | 0 <= i < |init|
        ensures init[i] == t[i]
      {
      }
      QuietPieces(init);
    }
  }

  lemma {:induction false} CursorPrefix(t: Trace, data: Bytes, m: nat)
    requires CursorSource(t, data) && m <= |t|
    ensures CursorSource(t[..m], data)
    decreases |t|
  {
    hide CursorAnswer, ReadBytes;
    if m == |t| {
      assert t[..m] == t;
    } else {
      CursorPrefix(t[..|t| - 1], data, m);
      assert t[..|t| - 1][..m] == t[..m];
    }
  }

  /** At the end of its input the cursor has read everything. */
  lemma {:induction false} CursorReads(t: Trace, data: Bytes)
    requires CursorSource(t, data)
    ensures ReadBytes(t) <= data && (AtEof(t) ==> ReadBytes(t) == data)
  {
    if t != [] {
      CursorReads(t[..|t| - 1], data);
    }
  }

  lemma {:induction false} FinishedCheck(t: Trace, b: Binding, gzip: GzipCheck, i: nat)
    requires CheckedArchive(t, b, gzip) && i < |t|
    requires t[i].CheckFinished? && t[i].summary.Done? && Offered(t[..i]) == Accepted(t[..i])
    ensures Verdict(b, gzip, Offered(t[..i])) == Some(t[i].summary.value)
    decreases |t|
  {
    hide Verdict, Offered, Accepted;
    if i < |t| - 1 {
      assert t[..|t| - 1][..i] == t[..i];
      FinishedCheck(t[..|t| - 1], b, gzip, i);
    }
  }

  /** The sealing run ended with this publication. */
  ghost predicate SealedAs(body: Trace, counts: SealedCounts) {
    SafeBody(body) && body != [] && body[|body| - 1] == Publishing(counts, Done(OutcomePublished))
  }

  /** A sealed body, taken apart. */
  lemma SealedParts(body: Trace, counts: SealedCounts) returns (pre: Trace, report: CipherCounts, summary: CheckCounts)
    requires SealedAs(body, counts)
    ensures Justified(pre, report, summary, counts)
    ensures |pre| + 5 == |body| && body[..|pre|] == pre && body[..|pre| + 1] == pre + [body[|pre|]]
    ensures body[|pre|] == CipherReturned(Done(report)) && body[|pre| + 1] == CheckFinished(Done(summary))
    ensures body[|pre| + 2].SourceCompleted? && body[|pre| + 3].FlushedStage?
    ensures Offered(body[..|pre| + 1]) == Offered(pre) && Accepted(body[..|pre| + 1]) == Accepted(pre)
    ensures Staged(body) == Staged(pre)
  {
    hide Justified, Offered, Accepted, Staged;
    var n := |body| - 1;
    assert Ready(body[..n], counts);
    pre, report, summary :|
      && Justified(pre, report, summary, counts)
      && body[..n] == pre + [CipherReturned(Done(report)), CheckFinished(Done(summary)),
                             SourceCompleted(Done(counts.sourceBytes)), FlushedStage(Done(Nothing))];
    assert body == body[..n] + [body[n]];
    FiveEvents(pre, CipherReturned(Done(report)), CheckFinished(Done(summary)),
               SourceCompleted(Done(counts.sourceBytes)), FlushedStage(Done(Nothing)), body[n]);
    ReportsAreSilent(pre, CipherReturned(Done(report)), CheckFinished(Done(summary)),
                     SourceCompleted(Done(counts.sourceBytes)), FlushedStage(Done(Nothing)), body[n]);
  }

  /** The record of an honest cipher opens to the captured bytes, with the sealed counts. */
  lemma SealedOpens(body: Trace, counts: SealedCounts, c: Captured, decrypt: Decryptor, gzip: GzipCheck)
    requires SealedAs(body, counts) && Complete(c) && HonestCipher(body, decrypt)
    requires CursorSource(body, c.bytes) && CheckedArchive(body, c.binding, gzip)
    ensures decrypt(Staged(body)) == Some(c.bytes)
    ensures Opens(c.binding, decrypt, gzip, Staged(body),
                  Inspection(counts.sourceBytes, counts.payloadBytes, counts.files))
  {
    hide SealedAs, Offered, Accepted, Staged, ReadBytes, HandedOver, AtEof, Verdict, Quiet, CheckedFirst, Decode;
    var pre, report, summary := SealedParts(body, counts);
    var m := |pre|;
    CursorPrefix(body, c.bytes, m);
    CursorReads(pre, c.bytes);
    FinishedCheck(body, c.binding, gzip, m + 1);
    QuietPieces(pre);
    PiecesExact(c.bytes);
    VerdictSplit(c.binding, gzip, Offered(pre), Pieces(c.bytes));
  }

  /** Some decryptor always makes the cipher of a sealed run honest: honesty excludes no run,
      it only names the decryptor. */
  lemma HonestyIsPossible(body: Trace, counts: SealedCounts)
    requires SealedAs(body, counts)
    ensures exists decrypt :: HonestCipher(body, decrypt)
  {
    hide Offered, Accepted, Staged, HandedOver, AtEof, ReadBytes;
    var pre, report, summary := SealedParts(body, counts);
    var n := |body| - 1;
    var decrypt: Decryptor := _ => Some(Concat(HandedOver(pre)));
    forall i | 0 <= i < |body| && i != |pre|
      ensures !body[i].CipherReturned?
    {
      if i < |pre| {
        assert pre[i] == body[i];
      }
    }
    assert HonestCipher(body, decrypt);
  }

  lemma SealedIsUncleaned(body: Trace, counts: SealedCounts)
    requires SealedAs(body, counts)
    ensures Uncleaned(body) && PublicationOf(body) == Published
  {
    hide Ready;
  }

  lemma BoundCounts(b: Binding, counts: SealedCounts, ciphertext: Bytes)
    requires Bound(b, counts, ciphertext)
    ensures Inspection(counts.sourceBytes, counts.payloadBytes, counts.files)
            == Inspection(SourceBytes(b), FileBytes(b), 1)
  {
  }

  /** Cleanup moves no store. */
  lemma BodyMoves(body: Trace, t: Trace, digest: Digest, store: Bytes, b: Binding, w: Runs.World, w': Runs.World)
    requires |store| == 16 && CleanedUp(body, t) && StoreMoves(t, digest, store, b, w, w')
    ensures StoreMoves(body, digest, store, b, w, w')
  {
    hide PublishedAs, Uncleaned, Unpublished, Confirmed, PublicationOf;
    var c, a :| t == body + CleanupTail(body, c, a);
    var tail := CleanupTail(body, c, a);
    assert |tail| <= 2 && forall i | 0 <= i < |tail| :: !tail[i].Publishing?;
    if |tail| == 2 {
      assert t[..|t| - 1] == body + tail[..1];
      assert t[..|t| - 1][..|body|] == body;
    } else if |tail| == 1 {
      assert t[..|t| - 1] == body;
    } else {
      assert t == body;
    }
  }

  /** The reported publication is the step that the store made. */
  lemma ReportedMoves(body: Trace, digest: Digest, store: Bytes, b: Binding, w: Runs.World, w': Runs.World)
    requires |store| == 16 && SafeBody(body) && StoreMoves(body, digest, store, b, w, w')
    ensures StoreMoved(digest, store, b, Staged(body), RecordOutcome(PublicationOf(body)), w, w')
    ensures PublicationOf(body) == Published ==> Bound(b, body[|body| - 1].counts, Staged(body))
  {
    hide Runs.Step, Ready;
    if body == [] || !body[|body| - 1].Publishing? {
      UnpublishedStays(body, digest, store, b, w, w');
    } else {
      var init, e := body[..|body| - 1], body[|body| - 1];
      assert forall i | 0 <= i < |init| :: init[i] == body[i];
      assert Unpublished(init) && Uncleaned(init);
      assert body == init + [e];
      SilentAppend(init, e);
    }
  }

  // ----- Sealing a capture -----

  /** The sealing workflow over the ports of a capture. */
  method SealThrough(ports: Ports) returns (outcome: Outcome, ghost body: Trace)
    requires ports.Valid() && ports.plug.Capture? && ports.trace == []
    modifies ports.repr
    ensures ports.Valid() && ports.plug.stage.records.Valid()
    ensures
      var g := ports.plug.stage;
      && (outcome.Refused? ==>
            StoreMoved(g.records.digest, g.records.store, g.binding, Staged(body),
                       RecordOutcome(outcome.report.publication), g.first, WorldOf(g.records)))
      && (outcome.Sealed? ==>
            StoreMoved(g.records.digest, g.records.store, g.binding, Staged(body), RecordPublication.Durable,
                       g.first, WorldOf(g.records)))
    ensures outcome.Sealed? ==>
              && SealedAs(body, outcome.counts) && Bound(ports.plug.stage.binding, outcome.counts, Staged(body))
              && CursorSource(body, ports.plug.source.whole)
              && CheckedArchive(body, ports.plug.check.binding, ports.plug.check.gzip)
  {
    hide MemoryTells, StoreMoves, WorldOf, CursorSource, CheckedArchive, StoreMoved, SafeBody, Staged, Contradicts;
    hide CleanedUp, Confirmed, Bound, Source.Valid, Check.Valid;
    var sealer := new ArchiveSealer(MAX_PLAINTEXT, MAX_CIPHERTEXT, 30000);
    var sealed, events, _ := sealer.Seal(ports);
    outcome, body := sealed, events;
    ghost var g := ports.plug.stage;
    BodyMoves(body, ports.trace, g.records.digest, g.records.store, g.binding, g.first, WorldOf(g.records));
    ReportedMoves(body, g.records.digest, g.records.store, g.binding, g.first, WorldOf(g.records));
    if outcome.Sealed? {
      SealedIsUncleaned(body, outcome.counts);
    }
  }

  /** The source, the check and the stage of a capture. */
  method PortsOf(capture: Captured, records: RecordStore, gzip: GzipCheck) returns (ports: Ports)
    requires records.Valid() && Complete(capture)
    ensures ports.Valid() && ports.plug.Capture? && ports.trace == []
    ensures ports.plug.source.whole == capture.bytes && ports.plug.stage.binding == capture.binding
    ensures ports.plug.check.binding == capture.binding && ports.plug.check.gzip == gzip
    ensures ports.plug.stage.records == records && ports.plug.stage.first == WorldOf(records)
    ensures fresh(ports.repr - {records, records.io, records.env})
  {
    hide ValidBinding, WorldOf, Ports.Valid, TarAfter, WellFormed;
    var check := new Check(capture.binding, gzip, records.env);
    var source := new Source(capture.bytes, records.env);
    var stage := new Stage(records, capture.binding);
    ports := new Ports.ForCapture(source, check, stage);
  }

  /** Seals a capture through its own ports. Whatever the cipher does, the store made exactly
      the reported step; a sealed capture was checked, its inspection is the bound one, and an
      honest cipher's record opens to the captured bytes. */
  method SealCapture(capture: Captured, records: RecordStore, gzip: GzipCheck, ghost decrypt: Decryptor)
    returns (r: CaptureOutcome, ghost body: Trace)
    requires records.Valid() && Complete(capture)
    modifies records, records.io, records.env
    ensures records.Valid()
    ensures r.CaptureSealed? ==>
              && r.inspection == Inspection(SourceBytes(capture.binding), FileBytes(capture.binding), 1)
              && StoreMoved(records.digest, records.store, capture.binding, Staged(body), RecordPublication.Durable,
                            old(WorldOf(records)), WorldOf(records))
    ensures r.CaptureSealed? && HonestCipher(body, decrypt) ==>
              && decrypt(Staged(body)) == Some(capture.bytes)
              && Opens(capture.binding, decrypt, gzip, Staged(body), r.inspection)
    ensures r.CaptureFailed? ==>
              StoreMoved(records.digest, records.store, capture.binding, Staged(body), r.failure.publication,
                         old(WorldOf(records)), WorldOf(records))
  {
    hide ValidBinding, Opens, HonestCipher, WorldOf, Runs.Step, CursorSource, CheckedArchive, SealedAs, Staged, Bound;
    hide Ports.Valid, RecordStore.Valid, Source.Valid, Check.Valid;
    body := [];
    var env := records.env;
    var ok := env.Try();
    if !ok {
      return CaptureFailed(BackupFailure(Unavailable, RecordPublication.NotPublished)), [];
    }
    ok := env.Try();
    if !ok {
      return CaptureFailed(BackupFailure(Unavailable, RecordPublication.NotPublished)), [];
    }
    // The expectation of a valid binding is always a manifest, so the check always exists.
    var b := capture.binding;
    var ports := PortsOf(capture, records, gzip);
    var outcome, events := SealThrough(ports);
    body := events;
    if outcome.Unwound? {
      return CaptureUnwound, body;
    }
    if outcome.Refused? {
      ok := env.Try();
      return CaptureFailed(BackupFailure(if ok then Integrity else Unavailable,
                                         RecordOutcome(outcome.report.publication))), body;
    }
    var counts := outcome.counts;
    BoundCounts(b, counts, Staged(body));
    if HonestCipher(body, decrypt) {
      SealedOpens(body, counts, capture, decrypt, gzip);
    }
    return CaptureSealed(Inspection(counts.sourceBytes, counts.payloadBytes, counts.files)), body;
  }

  // ----- Restoring -----

  /** End to end: what was sealed durably is restorable with the same inspection from every
      later state of every run - failed, crashed and interleaved with other jobs - in which
      the file is a complete store. */
  lemma SealThenRestore(b: Binding, ciphertext: Bytes, i: Inspection, decrypt: Decryptor, gzip: GzipCheck,
                        digest: Digest, store: Bytes, ws: seq<Runs.World>, es: seq<Runs.Event>, k: nat, j: nat)
    requires |store| == 16 && Runs.Run(digest, store, ws, es) && Runs.Inv(digest, store, ws[0])
    requires k < |es| && es[k] == Runs.Published(b, ciphertext, Durable)
    requires Opens(b, decrypt, gzip, ciphertext, i)
    requires k < j < |ws| && WellFormed(digest, store, ws[j].disk.bytes)
    ensures Restorable(digest, store, ws[j].disk.bytes, b, decrypt, gzip, i)
  {
    hide Runs.Inv, Runs.Durably, Opens;
    var r := Record(b, ciphertext);
    assert Runs.Step(digest, store, ws[k], es[k], ws[k + 1]);
    Runs.PublishedIsDurable(digest, store, ws[k], b, ciphertext, ws[k + 1], r);
    Runs.DurableRun(digest, store, ws, es, k + 1, j, r);
    Runs.DurableIsRead(digest, store, ws[j].disk, r);
    HeldIsReadable(digest, store, r, ws[j].disk.bytes);
  }

  /** A complete store that holds the record is readable for its binding. */
  lemma HeldIsReadable(digest: Digest, store: Bytes, r: Record, bytes: Bytes)
    requires |store| == 16 && WellFormed(digest, store, bytes) && r in Contents(digest, store, bytes)
    ensures Readable(digest, store, bytes, Some(r.binding))
  {
    hide HeaderBytes, Body, Decode, JobOf;
    var rs := Contents(digest, store, bytes);
    assert ValidRecord(store, r);
    DecodeExact(r.binding.encoded);
    forall x | x in rs && JobOf(x.binding) == JobOf(r.binding)
      ensures x.binding == r.binding
    {
      var i :| 0 <= i < |rs| && rs[i] == x;
      var k :| 0 <= k < |rs| && rs[k] == r;
      assert i == k;
    }
  }

  /** Decrypts into staging in writes of any size up to 64 KiB. */
  method DecryptToStaging(decrypt: Decryptor, ciphertext: Bytes, staging: Memory, env: Faults) returns (ok: bool)
    requires staging.bytes == []
    modifies staging, env
    ensures old(env.faulted) ==> env.faulted
    ensures ok ==> decrypt(ciphertext) == Some(staging.bytes) && |staging.bytes| <= staging.maximum
    ensures !ok ==> env.faulted || decrypt(ciphertext).None? || |decrypt(ciphertext).value| > staging.maximum
  {
    var plain := decrypt(ciphertext);
    if plain.None? {
      return false;
    }
    var sent := 0;
    while sent < |plain.value|
      invariant sent <= |plain.value| && staging.bytes == plain.value[..sent] && sent <= staging.maximum
      invariant old(env.faulted) ==> env.faulted
    {
      var n: nat := *;
      n := if 1 <= n <= 65536 && n <= |plain.value| - sent then n else 1;
      ok := staging.Write(env, plain.value[sent..sent + n]);
      if !ok {
        return;
      }
      assert plain.value[..sent] + plain.value[sent..sent + n] == plain.value[..sent + n];
      sent := sent + n;
    }
    assert plain.value[..sent] == plain.value;
    ok := env.Try();
  }

  lemma PiecesStep(s: Bytes)
    ensures s == [] ==> Pieces(s) == []
    ensures s != [] ==>
              var n := Min(T.MAX_CHUNK_BYTES, |s|);
              Pieces(s) == [s[..n]] + Pieces(s[n..])
  {
  }

  /** Runs the archive check over full chunks of the plaintext. */
  method CheckArchive(b: Binding, gzip: GzipCheck, plain: Bytes, env: Faults) returns (r: Option<CheckCounts>)
    modifies env
    ensures old(env.faulted) ==> env.faulted
    ensures r.Some? ==> r == Verdict(b, gzip, Pieces(plain))
    ensures r.None? ==> env.faulted || Verdict(b, gzip, Pieces(plain)).None?
  {
    hide Verdict, TarAfter, Pieces, Check.Valid;
    var check := new Check(b, gzip, env);
    var rest := plain;
    PiecesStep(plain);
    assert [] + Pieces(plain) == Pieces(plain);
    while rest != []
      invariant check.Valid() && check.binding == b && check.gzip == gzip && check.env == env
      invariant check.pieces + Pieces(rest) == Pieces(plain)
      invariant old(env.faulted) ==> env.faulted
      invariant fresh(check) && fresh(check.tar) && fresh(check.tar.header)
      decreases |rest|
    {
      var n := Min(T.MAX_CHUNK_BYTES, |rest|);
      ghost var fed := check.pieces;
      PiecesStep(rest);
      assert fed + Pieces(rest) == (fed + [rest[..n]]) + Pieces(rest[n..]);
      var taken := check.Feed(rest[..n]);
      if taken.Failed? {
        if !env.faulted {
          FailedVerdict(b, gzip, fed + [rest[..n]], Pieces(rest[n..]));
        }
        return None;
      }
      rest := rest[n..];
    }
    PiecesStep(rest);
    assert check.pieces + [] == check.pieces;
    var counts := check.Finish();
    return if counts.Done? then Some(counts.value) else None;
  }

  /** Authenticates, decrypts completely, and only then inspects. Without failures it
      succeeds exactly when the artifact is restorable, with that inspection. */
  method RestoreInspect(records: RecordStore, b: Binding, decrypt: Decryptor, gzip: GzipCheck)
    returns (r: Result<Inspection, BackupError>)
    requires records.Valid()
    modifies records.env
    ensures old(records.env.faulted) ==> records.env.faulted
    ensures r.Ok? ==> Restorable(records.digest, records.store, records.io.bytes, b, decrypt, gzip, r.value)
    ensures r.Err? ==>
              || records.env.faulted || records.io.failed
              || forall i :: !Restorable(records.digest, records.store, records.io.bytes, b, decrypt, gzip, i)
  {
    hide Verdict, WellFormed, Agrees;
    var env := records.env;
    var ok := env.Try();
    if !ok {
      return Err(Unavailable);
    }
    var found := records.AuthenticatedBytes(b);
    if found.Err? {
      return Err(found.error);
    }
    var staging := new Memory(SourceBytes(b));
    ok := DecryptToStaging(decrypt, found.value, staging, env);
    if !ok {
      return Err(Integrity);
    }
    ok := env.Try();
    if !ok {
      return Err(Unavailable);
    }
    if |staging.bytes| != SourceBytes(b) {
      return Err(Integrity);
    }
    ok := env.Try();
    if !ok {
      return Err(Unavailable);
    }
    var counts := CheckArchive(b, gzip, staging.bytes, env);
    if counts.None? {
      return Err(Integrity);
    }
    ok := env.Try();
    if !ok {
      return Err(Unavailable);
    }
    return Ok(Inspection(counts.value.sourceBytes, counts.value.payloadBytes, counts.value.files));
  }

  // ----- Both together -----

  /** Any number of other operations on the store: publications and reconciliations of other
      jobs, and crashes after which the store is opened again, if it can be. */
  method Meanwhile(records: RecordStore)
    returns (later: RecordStore, open: bool, ghost ws: seq<Runs.World>, ghost es: seq<Runs.Event>)
    requires records.Valid()
    modifies records, records.io, records.env
    ensures later.Valid() && later.digest == records.digest && later.store == records.store
    ensures later.io == records.io && later.env == records.env
    ensures Runs.Run(records.digest, records.store, ws, es) && ws[0] == old(WorldOf(records))
    ensures ws[|es|].disk == later.io.Now()
    ensures !open ==> later.env.faulted || later.io.failed || !Readable(later.digest, later.store, later.io.bytes, None)
  {
    hide Readable, WellFormed, PublishStep, ReconcileStep, ValidBinding, Runs.Run;
    later, open := records, true;
    ws, es := [WorldOf(records)], [];
    RunBegins(records.digest, records.store, WorldOf(records));
    var steps: nat := *;
    while steps > 0
      invariant later.Valid() && later.digest == records.digest && later.store == records.store
      invariant later.io == records.io && later.env == records.env
      invariant later == records || fresh(later)
      invariant |ws| == |es| + 1 && Runs.Run(records.digest, records.store, ws, es) && ws[0] == old(WorldOf(records))
      invariant ws[|es|] == WorldOf(later)
    {
      var kind: nat := *;
      var b: Binding := *;
      if kind == 0 && ValidBinding(b) {
        var ciphertext: Bytes := *;
        var outcome := later.Publish(b, ciphertext);
        Runs.RunExtends(later.digest, later.store, ws, es, Runs.Published(b, ciphertext, outcome), WorldOf(later));
        ws, es := ws + [WorldOf(later)], es + [Runs.Published(b, ciphertext, outcome)];
      } else if kind == 1 {
        var outcome := later.Reconcile(b);
        Runs.RunExtends(later.digest, later.store, ws, es, Runs.Reconciled(b, outcome), WorldOf(later));
        ws, es := ws + [WorldOf(later)], es + [Runs.Reconciled(b, outcome)];
      } else {
        var io := later.io;
        io.Crash();
        ghost var crash, closed := Runs.Crashed(|io.bytes|), Runs.World(io.Now(), Runs.Closed);
        Runs.RunExtends(later.digest, later.store, ws, es, crash, closed);
        ws, es := ws + [closed], es + [crash];
        later := new RecordStore.FromIo(io, later.env, later.digest, later.store);
        if later.uncertain {
          open := false;
          return;
        }
        Runs.RunExtends(later.digest, later.store, ws, es, Runs.Opened, WorldOf(later));
        ws, es := ws + [WorldOf(later)], es + [Runs.Opened];
      }
      steps := steps - 1;
    }
  }

  lemma RunBegins(digest: Digest, store: Bytes, w: Runs.World)
    requires |store| == 16
    ensures Runs.Run(digest, store, [w], [])
  {
  }

  lemma RunFrom(digest: Digest, store: Bytes, w: Runs.World, e: Runs.Event, ws: seq<Runs.World>, es: seq<Runs.Event>)
    requires |store| == 16 && Runs.Run(digest, store, ws, es) && Runs.Step(digest, store, w, e, ws[0])
    ensures Runs.Run(digest, store, [w] + ws, [e] + es)
  {
    hide Runs.Step;
    var vs, ds := [w] + ws, [e] + es;
    forall i | 0 <= i < |ds|
      ensures Runs.Step(digest, store, vs[i], ds[i], vs[i + 1])
    {
      if i > 0 {
        assert vs[i] == ws[i - 1] && vs[i + 1] == ws[i] && ds[i] == es[i - 1];
      }
    }
  }

  /** A restorable artifact has one inspection, and its file can be opened. */
  lemma RestorableOnce(digest: Digest, store: Bytes, bytes: Bytes, b: Binding, decrypt: Decryptor, gzip: GzipCheck,
                       i: Inspection)
    requires |store| == 16 && Restorable(digest, store, bytes, b, decrypt, gzip, i)
    ensures forall j :: Restorable(digest, store, bytes, b, decrypt, gzip, j) ==> j == i
    ensures Readable(digest, store, bytes, None)
  {
    hide WellFormed, Verdict, Agrees;
    assert Agrees(Contents(digest, store, bytes), None) by {
      NothingExpected(Contents(digest, store, bytes));
    }
  }

  lemma NothingExpected(rs: seq<Record>)
    ensures Agrees(rs, None)
  {
  }

  /** Whatever happened after sealing, a complete file restores to the sealed inspection and
      no other. */
  lemma SealedComesBack(b: Binding, ciphertext: Bytes, i: Inspection, decrypt: Decryptor, gzip: GzipCheck,
                        digest: Digest, store: Bytes, w: Runs.World, ws: seq<Runs.World>, es: seq<Runs.Event>,
                        bytes: Bytes)
    requires |store| == 16 && Runs.Run(digest, store, ws, es) && Runs.Inv(digest, store, w)
    requires StoreMoved(digest, store, b, ciphertext, RecordPublication.Durable, w, ws[0])
    requires Opens(b, decrypt, gzip, ciphertext, i)
    requires bytes == ws[|es|].disk.bytes
    ensures WellFormed(digest, store, bytes) ==>
              Restorable(digest, store, bytes, b, decrypt, gzip, i) && Readable(digest, store, bytes, None)
    ensures forall j :: Restorable(digest, store, bytes, b, decrypt, gzip, j) ==> j == i
  {
    hide Opens, Runs.Inv, Runs.Step, WellFormed, Agrees;
    var e := Runs.Published(b, ciphertext, Durable);
    RunFrom(digest, store, w, e, ws, es);
    var vs, ds := [w] + ws, [e] + es;
    assert vs[|es| + 1] == ws[|es|];
    if WellFormed(digest, store, bytes) {
      SealThenRestore(b, ciphertext, i, decrypt, gzip, digest, store, vs, ds, 0, |es| + 1);
      RestorableOnce(digest, store, bytes, b, decrypt, gzip, i);
    }
  }

  /** Seals, lets anything happen to the store, and restores: what is inspected is what was
      sealed, and only a failure or a torn file can prevent it. */
  method RoundTrip(capture: Captured, records: RecordStore, gzip: GzipCheck, decrypt: Decryptor)
    returns (sealed: CaptureOutcome, restored: Result<Inspection, BackupError>, ghost body: Trace)
    requires records.Valid() && Complete(capture)
    requires Runs.Inv(records.digest, records.store, WorldOf(records))
    modifies records, records.io, records.env
    ensures sealed.CaptureSealed? && HonestCipher(body, decrypt) && restored.Ok? ==> restored.value == sealed.inspection
    ensures sealed.CaptureSealed? && HonestCipher(body, decrypt) && restored.Err? ==>
              || records.env.faulted || records.io.failed
              || !WellFormed(records.digest, records.store, records.io.bytes)
  {
    hide Readable, WellFormed, Opens, HonestCipher, Runs.Inv, Runs.Run, Runs.Step, StoreMoved, Staged, Restorable;
    hide ValidBinding;
    ghost var w := WorldOf(records);
    ghost var events;
    sealed, events := SealCapture(capture, records, gzip, decrypt);
    body := events;
    if !sealed.CaptureSealed? {
      return sealed, Err(Unavailable), body;
    }
    var later, open, ws, es := Meanwhile(records);
    if HonestCipher(body, decrypt) {
      SealedComesBack(capture.binding, Staged(body), sealed.inspection, decrypt, gzip, later.digest, later.store,
                      w, ws, es, later.io.bytes);
    }
    if !open {
      return sealed, Err(Unavailable), body;
    }
    restored := RestoreInspect(later, capture.binding, decrypt, gzip);
  }
}
