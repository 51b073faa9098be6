/** The program's own source, staging memory and stage for sealing one capture, and what each
    of their answers says in the trace. */
module CapturePorts {
  import opened Common
  import opened RecordFormat
  import opened RecordStore
  import opened SealTrace
  import opened ArchiveCheck
  import Runs = StoreRuns

  // ----- Source -----

  /** A read returns the next bytes of `data`, as many as fit. */
  predicate CursorAnswer(data: Bytes, position: nat, size: nat, count: nat, buffer: Bytes) {
    && position <= |data| && count == Min(size, |data| - position) && count <= |buffer|
    && buffer[..count] == data[position..position + count]
  }

  /** A cursor over the captured bytes. */
  class Source {
    const env: Faults
    ghost const whole: Bytes
    var data: Bytes
    var position: nat

    ghost predicate Valid()
      reads this
    {
      position <= |whole| && (data == whole || data == [])
    }

    constructor (data: Bytes, env: Faults)
      ensures Valid() && this.env == env && this.data == whole == data && position == 0
    {
      this.env, this.data, whole, position := env, data, data, 0;
    }

    /** Fills the front of a buffer of `size` bytes; the rest stays as it was. */
    method Read(size: nat) returns (r: Answer<(nat, Bytes)>)
      requires Valid()
      modifies this`position, env
      ensures Valid() && r != Panicked && (old(env.faulted) ==> env.faulted)
      ensures r.Done? ==> |r.value.1| == size && position == old(position) + r.value.0
      ensures r.Done? && data == whole ==> CursorAnswer(whole, old(position), size, r.value.0, r.value.1)
      ensures r.Failed? ==> env.faulted && position == old(position)
    {
      var ok := env.Try();
      if !ok {
        return Failed;
      }
      var count := if position <= |data| then Min(size, |data| - position) else 0;
      var buffer := Zeros(size);
      if count > 0 {
        buffer := data[position..position + count] + Zeros(size - count);
        assert buffer[..count] == data[position..position + count];
      }
      position := position + count;
      return Done((count, buffer));
    }

    method Complete() returns (r: Answer<nat>)
      modifies env
      ensures r != Panicked && (old(env.faulted) ==> env.faulted)
      ensures r.Done? ==> r.value == |data|
    {
      var ok := env.Try();
      return if ok then Done(|data|) else Failed;
    }

    method Cancel() returns (r: CleanupOutcome)
      requires Valid()
      modifies this`data
      ensures Valid() && data == [] && r == OutcomeCleaned
    {
      data := [];
      return OutcomeCleaned;
    }
  }

  // ----- Staging memory -----

  /** Bounded staging memory: one write at most 64 KiB, never beyond `maximum`. */
  class Memory {
    var bytes: Bytes
    const maximum: nat

    constructor (maximum: nat)
      ensures bytes == [] && this.maximum == maximum
    {
      bytes := [];
      this.maximum := maximum;
    }

    method Write(env: Faults, input: Bytes) returns (ok: bool)
      requires |bytes| <= maximum
      modifies this, env
      ensures |bytes| <= maximum && (old(env.faulted) ==> env.faulted)
      ensures bytes == if ok then old(bytes) + input else old(bytes)
      ensures !ok ==> env.faulted || |input| > 65536 || |old(bytes)| + |input| > maximum
    {
      ok := env.Try();
      if !ok || |input| > 65536 || |input| > maximum - |bytes| {
        return false;
      }
      bytes := bytes + input;
    }
  }

  // ----- Stage -----

  ghost function WorldOf(records: RecordStore): Runs.World
    reads records, records.io
  {
    Runs.World(records.io.Now(), Runs.Open(records.uncertain))
  }

  /** The counts are those of the binding, and the ciphertext has the counted length. */
  predicate Bound(b: Binding, counts: SealedCounts, ciphertext: Bytes) {
    && counts.sourceBytes == SourceBytes(b) && counts.payloadBytes == FileBytes(b)
    && counts.files == 1 && counts.ciphertextBytes == |ciphertext|
  }

  /** How the record store moved for an answer of the stage. */
  ghost predicate PublishedAs(digest: Digest, store: Bytes, b: Binding, ciphertext: Bytes, counts: SealedCounts,
                              answer: Answer<PublishOutcome>, w: Runs.World, w': Runs.World)
    requires |store| == 16
  {
    match answer
    case Done(OutcomePublished) =>
      Bound(b, counts, ciphertext) && Runs.Step(digest, store, w, Runs.Published(b, ciphertext, Durable), w')
    case Done(OutcomeNotPublished) => w' == w
    case Done(OutcomeUnknown) => Runs.Step(digest, store, w, Runs.Published(b, ciphertext, Unknown), w')
    case _ => false
  }

  function Answered(r: RecordPublication): PublishOutcome {
    match r
    case Durable => OutcomePublished
    case NotPublished => OutcomeNotPublished
    case Unknown => OutcomeUnknown
  }

  lemma StageAnswers(digest: Digest, store: Bytes, b: Binding, ciphertext: Bytes, counts: SealedCounts,
                     r: RecordPublication, w: Runs.World, w': Runs.World)
    requires |store| == 16 && Bound(b, counts, ciphertext) && ValidBinding(b)
    requires w.handle.Open? && w'.handle.Open? && w'.disk.synced <= |w'.disk.bytes|
    requires PublishStep(digest, store, b, ciphertext, w.disk, w.handle.doubt, r, w'.disk, w'.handle.doubt)
    ensures PublishedAs(digest, store, b, ciphertext, counts, Done(Answered(r)), w, w')
  {
    hide WellFormed, Appendable, PartOf, RecordBytes, ValidBinding, Bound;
  }

  /** Private memory in front of the record store. */
  class Stage {
    const memory: Memory
    const records: RecordStore
    const binding: Binding
    /** The store when the stage was made. */
    ghost const first: Runs.World

    ghost predicate Valid()
      reads this, memory, records, records.io
    {
      && |memory.bytes| <= memory.maximum
      && records.Valid() && ValidBinding(binding)
    }

    constructor (records: RecordStore, binding: Binding)
      requires records.Valid() && ValidBinding(binding)
      ensures Valid() && fresh(memory) && memory.bytes == []
      ensures this.records == records && this.binding == binding && first == WorldOf(records)
    {
      memory := new Memory(MAX_CIPHERTEXT);
      this.records, this.binding, first := records, binding, WorldOf(records);
    }

    method Write(input: Bytes) returns (r: Answer<nat>)
      requires Valid()
      modifies memory, records.env
      ensures Valid() && r != Panicked && (old(records.env.faulted) ==> records.env.faulted)
      ensures r.Done? ==> r.value == |input| && memory.bytes == old(memory.bytes) + input
      ensures r.Failed? ==> memory.bytes == old(memory.bytes)
      ensures r.Failed? ==>
                || records.env.faulted || |input| > 65536
                || |old(memory.bytes)| + |input| > memory.maximum
    {
      var ok := memory.Write(records.env, input);
      return if ok then Done(|input|) else Failed;
    }

    method Flush() returns (r: Answer<Nothing>)
      modifies records.env
      ensures r != Panicked && (old(records.env.faulted) ==> records.env.faulted)
      ensures r.Failed? ==> records.env.faulted
    {
      var ok := records.env.Try();
      return if ok then Done(Nothing) else Failed;
    }

    /** Publishes exactly its memory, under its binding, and only with the bound counts. */
    method Publish(counts: SealedCounts) returns (r: PublishOutcome)
      requires Valid()
      modifies records, records.io, records.env
      ensures Valid() && (old(records.env.faulted) ==> records.env.faulted)
      ensures PublishedAs(records.digest, records.store, binding, memory.bytes, counts, Done(r),
                          old(WorldOf(records)), WorldOf(records))
      ensures !Bound(binding, counts, memory.bytes) ==> r == OutcomeNotPublished
    {
      if counts.sourceBytes != SourceBytes(binding) || counts.payloadBytes != FileBytes(binding)
         || counts.files != 1 || counts.ciphertextBytes != |memory.bytes| {
        return OutcomeNotPublished;
      }
      hide WellFormed, Readable, Acceptable, PublishStep, PublishedAs, ValidBinding, SourceBytes, FileBytes;
      ghost var before := WorldOf(records);
      var published := records.Publish(binding, memory.bytes);
      StageAnswers(records.digest, records.store, binding, memory.bytes, counts, published, before, WorldOf(records));
      r := Answered(published);
    }

    method Abort() returns (r: CleanupOutcome)
      requires Valid()
      modifies memory
      ensures Valid() && memory.bytes == [] && r == OutcomeCleaned
    {
      memory.bytes := [];
      return OutcomeCleaned;
    }
  }

  // ----- What the answers of these ports say in a trace -----

  predicate Uncleaned(t: Trace) {
    forall i | 0 <= i < |t| :: !t[i].CancelledSource? && !t[i].AbortedStage?
  }

  predicate Unpublished(t: Trace) {
    forall i | 0 <= i < |t| :: !t[i].Publishing?
  }

  /** Each source read returned the next bytes of `data`. */
  ghost predicate CursorSource(t: Trace, data: Bytes) {
    t != [] ==>
      var init, e := t[..|t| - 1], t[|t| - 1];
      && CursorSource(init, data)
      && (e.ReadSource? && e.got.Done? ==>
            CursorAnswer(data, |ReadBytes(init)|, e.size, e.got.value.0, e.got.value.1))
  }

  /** The check's finish answers for everything it was offered, if it refused none of it. */
  ghost predicate CheckedArchive(t: Trace, b: Binding, gzip: GzipCheck) {
    t != [] ==>
      var init, e := t[..|t| - 1], t[|t| - 1];
      && CheckedArchive(init, b, gzip)
      && (e.CheckFinished? && e.summary.Done? && Offered(init) == Accepted(init) ==>
            Verdict(b, gzip, Offered(init)) == Some(e.summary.value))
  }

  /** The store moves only at a publication. The first one moves it as the stage answers,
      with the bytes staged until then. */
  ghost predicate StoreMoves(t: Trace, digest: Digest, store: Bytes, b: Binding, w: Runs.World, w': Runs.World)
    requires |store| == 16
  {
    if t == [] then w' == w
    else
      var init, e := t[..|t| - 1], t[|t| - 1];
      if !e.Publishing? then StoreMoves(init, digest, store, b, w, w')
      else Unpublished(init) && Uncleaned(init) ==>
             PublishedAs(digest, store, b, Staged(init), e.counts, e.published, w, w')
  }

  /** Where the cursor stands. */
  ghost predicate SourceTells(t: Trace, whole: Bytes, data: Bytes, position: nat) {
    Uncleaned(t) ==> CursorSource(t, whole) && position == |ReadBytes(t)| && data == whole
  }

  /** What the checker holds. */
  ghost predicate CheckTells(t: Trace, b: Binding, gzip: GzipCheck, pieces: seq<Bytes>) {
    && CheckedArchive(t, b, gzip)
    && (Offered(t) == Accepted(t) ==> pieces == Offered(t))
  }

  /** What the memory holds. */
  ghost predicate MemoryTells(t: Trace, bytes: Bytes) {
    Uncleaned(t) ==> bytes == Staged(t)
  }

  // ----- One event at a time -----

  lemma LastOf(t: Trace, e: Event)
    ensures
      var u := Append(t, e);
      && u != [] && u[..|u| - 1] == t && u[|u| - 1] == e
      && (Uncleaned(u) <==> Uncleaned(t) && !e.CancelledSource? && !e.AbortedStage?)
      && (Unpublished(u) <==> Unpublished(t) && !e.Publishing?)
  {
    var u := Append(t, e);
    assert forall i | 0 <= i < |t| :: u[i] == u[..|t|][i] == t[i];
  }

  lemma SourceReads(t: Trace, size: nat, got: Answer<(nat, Bytes)>, whole: Bytes, data: Bytes, p: nat, q: nat)
    requires SourceTells(t, whole, data, p)
    requires got.Done? ==>
               q == p + got.value.0 && (data == whole ==> CursorAnswer(whole, p, size, got.value.0, got.value.1))
    requires !got.Done? ==> q == p
    ensures SourceTells(Append(t, ReadSource(size, got)), whole, data, q)
  {
    var e := ReadSource(size, got);
    LastOf(t, e);
    AppendSays(t, e);
    hide ReadBytes, Uncleaned;
  }

  lemma SourceSilent(t: Trace, e: Event, whole: Bytes, data: Bytes, position: nat)
    requires SourceTells(t, whole, data, position) && !e.ReadSource?
    ensures SourceTells(Append(t, e), whole, data, position)
  {
    LastOf(t, e);
    AppendSays(t, e);
    assert ReadBytes(t) + [] == ReadBytes(t);
    hide ReadBytes, Uncleaned;
  }

  lemma SourceEnds(t: Trace, e: Event, whole: Bytes, data: Bytes, position: nat)
    requires e.CancelledSource?
    ensures SourceTells(Append(t, e), whole, data, position)
  {
    LastOf(t, e);
  }

  lemma MemoryTakes(t: Trace, e: Event, bytes: Bytes)
    requires MemoryTells(t, bytes)
    ensures MemoryTells(Append(t, e), bytes + StagedOf(e))
    ensures StagedOf(e) == [] ==> MemoryTells(Append(t, e), bytes)
  {
    LastOf(t, e);
    AppendSays(t, e);
    assert Staged(t) + [] == Staged(t);
    hide Staged, Uncleaned;
  }

  lemma MemoryEnds(t: Trace, e: Event, bytes: Bytes)
    requires e.AbortedStage?
    ensures MemoryTells(Append(t, e), bytes)
  {
    LastOf(t, e);
  }

  lemma {:induction false} NoMoreAccepted(t: Trace)
    ensures |Accepted(t)| <= |Offered(t)|
  {
    if t != [] {
      NoMoreAccepted(t[..|t| - 1]);
    }
  }

  /** If everything offered was accepted, the same held one event before. */
  lemma AllAcceptedBefore(t: Trace, e: Event)
    requires Offered(Append(t, e)) == Accepted(Append(t, e))
    ensures Offered(t) == Accepted(t) && !(e.FedCheck? && !e.checked.Done?)
  {
    AppendSays(t, e);
    NoMoreAccepted(t);
    var x, y := Offered(Append(t, e)), Accepted(Append(t, e));
    hide Offered, Accepted;
    assert x[..|Offered(t)|] == Offered(t);
    assert |x| == |y|;
    assert y[..|Accepted(t)|] == Accepted(t);
  }

  lemma CheckMoves(t: Trace, e: Event, b: Binding, gzip: GzipCheck, p: seq<Bytes>, q: seq<Bytes>)
    requires CheckTells(t, b, gzip, p)
    requires e.FedCheck? ==> e.checked.Done? ==> q == p + [e.bytes]
    requires !e.FedCheck? ==> q == p
    requires e.CheckFinished? && e.summary.Done? ==> Verdict(b, gzip, p) == Some(e.summary.value)
    ensures CheckTells(Append(t, e), b, gzip, q)
  {
    var u := Append(t, e);
    LastOf(t, e);
    if Offered(u) == Accepted(u) {
      AllAcceptedBefore(t, e);
    }
    AppendSays(t, e);
    assert Offered(t) + [] == Offered(t);
    hide Offered, Accepted, Verdict;
  }

  lemma StoreStays(t: Trace, e: Event, digest: Digest, store: Bytes, b: Binding, w: Runs.World, w': Runs.World)
    requires |store| == 16 && StoreMoves(t, digest, store, b, w, w') && !e.Publishing?
    ensures StoreMoves(Append(t, e), digest, store, b, w, w')
  {
    LastOf(t, e);
    hide PublishedAs, Uncleaned, Unpublished;
  }

  lemma {:induction false} UnpublishedStays(t: Trace, digest: Digest, store: Bytes, b: Binding,
                                            w: Runs.World, w': Runs.World)
    requires |store| == 16 && Unpublished(t) && StoreMoves(t, digest, store, b, w, w')
    ensures w' == w
  {
    if t != [] {
      var init := t[..|t| - 1];
      assert forall i | 0 <= i < |init| :: init[i] == t[i];
      assert !t[|t| - 1].Publishing?;
      UnpublishedStays(init, digest, store, b, w, w');
    }
  }

  /** What one publication does to the moves of the store. */
  lemma PublishMoves(t: Trace, counts: SealedCounts, answer: Answer<PublishOutcome>, digest: Digest, store: Bytes,
                     b: Binding, bytes: Bytes, first: Runs.World, w: Runs.World, w': Runs.World)
    requires |store| == 16 && StoreMoves(t, digest, store, b, first, w) && MemoryTells(t, bytes)
    requires PublishedAs(digest, store, b, bytes, counts, answer, w, w')
    ensures StoreMoves(Append(t, Publishing(counts, answer)), digest, store, b, first, w')
  {
    LastOf(t, Publishing(counts, answer));
    if Unpublished(t) {
      UnpublishedStays(t, digest, store, b, first, w);
    }
    hide PublishedAs, Staged;
  }
}
