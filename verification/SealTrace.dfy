/** The trace of a sealing: every call of a port with its answer, and what such a trace says
    about the bytes that were read, checked, encrypted and staged. */
module SealTrace {
  import opened Common

  const CHUNK := 65536

  datatype SealFailure =
    | StageUnsupported | SourceRead | SourceCompletion | Check | Cipher | StageWrite | StageFlush
    | SourceLimit | CiphertextLimit | InvalidIoCount | ZeroWrite | IncompleteInput | EmptyStream
    | CountMismatch | InvalidSummary | Deadline | ClockReversed | PublicationNotConfirmed

  datatype CheckCounts = CheckCounts(sourceBytes: nat, expandedBytes: nat, payloadBytes: nat, files: nat)

  datatype CipherCounts = CipherCounts(inputBytes: nat, outputBytes: nat)

  datatype SealedCounts = SealedCounts(
    sourceBytes: nat, ciphertextBytes: nat, expandedBytes: nat, payloadBytes: nat, files: nat)

  datatype PublishOutcome = OutcomePublished | OutcomeNotPublished | OutcomeUnknown

  datatype CleanupOutcome = OutcomeCleaned | CleanupUnknown

  datatype Nothing = Nothing

  datatype Answer<+T> = Done(value: T) | Failed | Panicked

  datatype Event =
    | AskedCapabilities(supported: Answer<bool>)
    | ReadSource(size: nat, got: Answer<(nat, Bytes)>)
    | FedCheck(bytes: Bytes, checked: Answer<Nothing>)
    | Handed(bytes: Bytes)
    | WroteStage(offered: Bytes, taken: Answer<nat>)
    | FlushedStage(flushed: Answer<Nothing>)
    | CipherReturned(report: Answer<CipherCounts>)
    | CheckFinished(summary: Answer<CheckCounts>)
    | SourceCompleted(total: Answer<nat>)
    | Publishing(counts: SealedCounts, published: Answer<PublishOutcome>)
    | CancelledSource(outcome: CleanupOutcome)
    | AbortedStage(outcome: CleanupOutcome)

  type Trace = seq<Event>

  // ----- What a trace says about bytes -----

  /** Bytes that the source really returned. */
  function ReadBytes(t: Trace): Bytes {
    if t == [] then []
    else ReadBytes(t[..|t| - 1]) + ReadOf(t[|t| - 1])
  }

  function ReadOf(e: Event): Bytes {
    if e.ReadSource? && e.got.Done? && e.got.value.0 <= |e.got.value.1|
    then e.got.value.1[..e.got.value.0] else []
  }

  /** The pieces that the checker accepted, in order. */
  function Accepted(t: Trace): seq<Bytes> {
    if t == [] then []
    else
      var e := t[|t| - 1];
      Accepted(t[..|t| - 1]) + if e.FedCheck? && e.checked.Done? then [e.bytes] else []
  }

  /** The pieces that the checker was given, accepted or not. */
  function Offered(t: Trace): seq<Bytes> {
    if t == [] then []
    else
      var e := t[|t| - 1];
      Offered(t[..|t| - 1]) + if e.FedCheck? then [e.bytes] else []
  }

  /** The pieces that were handed to the cipher, in order. */
  function HandedOver(t: Trace): seq<Bytes> {
    if t == [] then []
    else
      var e := t[|t| - 1];
      HandedOver(t[..|t| - 1]) + if e.Handed? then [e.bytes] else []
  }

  /** Bytes that the stage took. */
  function Staged(t: Trace): Bytes {
    if t == [] then []
    else Staged(t[..|t| - 1]) + StagedOf(t[|t| - 1])
  }

  function StagedOf(e: Event): Bytes {
    if e.WroteStage? && e.taken.Done? && e.taken.value <= |e.offered| then e.offered[..e.taken.value] else []
  }

  /** The last source read asked for at least one byte and got none. */
  predicate AtEof(t: Trace) {
    if t == [] then false
    else if t[|t| - 1].ReadSource? then EofAnswer(t[|t| - 1])
    else AtEof(t[..|t| - 1])
  }

  predicate EofAnswer(e: Event) {
    e.ReadSource? && e.size > 0 && e.got.Done? && e.got.value.0 == 0
  }

  /** Nothing reaches the cipher that the checker did not accept just before. */
  ghost predicate CheckedFirst(t: Trace) {
    forall i | 0 <= i < |t| && t[i].Handed? :: i > 0 && t[i - 1] == FedCheck(t[i].bytes, Done(Nothing))
  }

  /** Events that the cipher's own reads and writes can cause; pieces are bounded. */
  predicate StreamEvent(e: Event) {
    e.ReadSource? || (e.FedCheck? && |e.bytes| <= CHUNK) || e.Handed? || e.WroteStage? || e.FlushedStage?
  }

  function Append(t: Trace, e: Event): (r: Trace)
    ensures |r| == |t| + 1 && r[..|t|] == t && r[|t|] == e
  {
    t + [e]
  }

  lemma AppendSays(t: Trace, e: Event)
    ensures ReadBytes(Append(t, e)) == ReadBytes(t) + ReadOf(e)
    ensures Accepted(Append(t, e)) == Accepted(t) + if e.FedCheck? && e.checked.Done? then [e.bytes] else []
    ensures Offered(Append(t, e)) == Offered(t) + if e.FedCheck? then [e.bytes] else []
    ensures HandedOver(Append(t, e)) == HandedOver(t) + if e.Handed? then [e.bytes] else []
    ensures Staged(Append(t, e)) == Staged(t) + StagedOf(e)
    ensures AtEof(Append(t, e)) <==> if e.ReadSource? then EofAnswer(e) else AtEof(t)
  {
  }
}
