/** The sealing run and its cleanup guard, with the safety of every trace they produce. */
module SealWorkflow {
  import opened Common
  import opened SealPorts
  import opened SealTrace
  import opened Sealing

  datatype CleanupState = NotRequired | Cleaned | Uncertain

  function StateOf(outcome: CleanupOutcome): CleanupState {
    if outcome.OutcomeCleaned? then Cleaned else Uncertain
  }

  datatype Report = Report(
    cause: SealFailure, publication: Publication, sourceCleanup: CleanupState, stageCleanup: CleanupState)

  datatype Outcome = Sealed(counts: SealedCounts) | Refused(report: Report) | Unwound

  datatype RunResult = RunOk(counts: SealedCounts) | RunErr(cause: SealFailure) | RunPanic

  /** Neither publication nor cleanup so far. */
  ghost predicate Plain(t: Trace) {
    forall i | 0 <= i < |t| :: !t[i].Publishing? && !Cleanup(t[i])
  }

  /** What cleanup records: cancel unless completion was confirmed, abort unless something
      was, or may have been, published. */
  function CleanupOf(complete: bool, publication: Publication, cancelled: CleanupOutcome, aborted: CleanupOutcome): Trace {
    (if complete then [] else [CancelledSource(cancelled)])
    + (if publication in {NotAttempted, NotPublished} then [AbortedStage(aborted)] else [])
  }

  /** What the guard does about a run that produced `body`, given the ports' answers. */
  ghost function CleanupTail(body: Trace, cancelled: CleanupOutcome, aborted: CleanupOutcome): Trace {
    CleanupOf(Confirmed(body), PublicationOf(body), cancelled, aborted)
  }

  /** The whole trace is the body with the one cleanup it needs. */
  ghost predicate CleanedUp(body: Trace, t: Trace) {
    exists c, a :: t == body + CleanupTail(body, c, a)
  }

  lemma QuietIsPlain(t: Trace)
    requires Quiet(t)
    ensures Plain(t) && !Confirmed(t)
  {
  }

  lemma PlainAppend(t: Trace, e: Event)
    requires Plain(t) && !e.Publishing? && !Cleanup(e)
    ensures Plain(Append(t, e))
    ensures Confirmed(Append(t, e)) <==> Confirmed(t) || (e.SourceCompleted? && e.total.Done?)
  {
    var u := Append(t, e);
    forall i | 0 <= i < |t|
      ensures u[i] == t[i]
    {
      assert u[..|t|][i] == t[i];
    }
    if Confirmed(t) {
      var i :| 0 <= i < |t| && t[i].SourceCompleted? && t[i].total.Done?;
      assert u[i] == t[i];
    }
    if e.SourceCompleted? && e.total.Done? {
      assert u[|t|] == e;
    }
  }

  lemma PlainIsSafe(t: Trace)
    requires Plain(t)
    ensures SafeBody(t) && PublicationOf(t) == NotAttempted
  {
  }

  lemma PublishIsSafe(t: Trace, counts: SealedCounts, answer: Answer<PublishOutcome>)
    requires Plain(t) && Ready(t, counts)
    ensures SafeBody(Append(t, Publishing(counts, answer)))
    ensures Confirmed(Append(t, Publishing(counts, answer))) <==> Confirmed(t)
  {
    hide Ready;
    var u := Append(t, Publishing(counts, answer));
    forall i | 0 <= i < |t|
      ensures u[i] == t[i]
    {
      assert u[..|t|][i] == t[i];
    }
    assert u[..|u| - 1] == t;
    if Confirmed(t) {
      var i :| 0 <= i < |t| && t[i].SourceCompleted? && t[i].total.Done?;
      assert u[i] == t[i];
    }
  }

  lemma PublishedMeansConfirmed(body: Trace)
    requires SafeBody(body) && body != [] && body[|body| - 1].Publishing?
    ensures Confirmed(body)
  {
    hide Justified;
    var n := |body| - 1;
    var pre, report, summary :|
      && Justified(pre, report, summary, body[n].counts)
      && body[..n] == pre + [CipherReturned(Done(report)), CheckFinished(Done(summary)),
                             SourceCompleted(Done(body[n].counts.sourceBytes)), FlushedStage(Done(Nothing))];
    assert body[..n][|pre| + 2] == body[|pre| + 2];
  }

  lemma MakeReady(pre: Trace, report: CipherCounts, summary: CheckCounts, counts: SealedCounts, t: Trace)
    requires Justified(pre, report, summary, counts)
    requires t == Append(Append(Append(Append(pre, CipherReturned(Done(report))), CheckFinished(Done(summary))),
                                SourceCompleted(Done(counts.sourceBytes))), FlushedStage(Done(Nothing)))
    ensures Ready(t, counts)
  {
    hide Justified;
    assert t == pre + [CipherReturned(Done(report)), CheckFinished(Done(summary)),
                       SourceCompleted(Done(counts.sourceBytes)), FlushedStage(Done(Nothing))];
  }

  lemma CleansUp(body: Trace, c: CleanupOutcome, a: CleanupOutcome)
    ensures CleanedUp(body, body + CleanupOf(Confirmed(body), PublicationOf(body), c, a))
  {
    assert CleanupOf(Confirmed(body), PublicationOf(body), c, a) == CleanupTail(body, c, a);
  }

  lemma NothingToClean(body: Trace, c: CleanupOutcome, a: CleanupOutcome)
    requires Confirmed(body) && PublicationOf(body) == Published
    ensures body + CleanupOf(Confirmed(body), PublicationOf(body), c, a) == body
  {
  }

  /** Cleanup responsibility, established before the first callback. */
  class Guard {
    const ports: Ports
    var sourceComplete: bool
    var sourceCancelled: bool
    var stageAborted: bool
    var publication: Publication
    var sourceCleanup: CleanupState
    var stageCleanup: CleanupState

    constructor (ports: Ports)
      requires ports.Valid()
      ensures this.ports == ports && Untouched() && Apart()
      ensures !sourceComplete && publication == NotAttempted
    {
      this.ports := ports;
      sourceComplete, sourceCancelled, stageAborted := false, false, false;
      publication := NotAttempted;
      sourceCleanup, stageCleanup := NotRequired, NotRequired;
    }

    ghost predicate Untouched()
      reads this
    {
      !sourceCancelled && !stageAborted && sourceCleanup == NotRequired && stageCleanup == NotRequired
    }

    ghost predicate Pending()
      reads this
    {
      || (!sourceComplete && !sourceCancelled)
      || (!stageAborted && publication in {NotAttempted, NotPublished})
    }

    /** The guard lies outside of what the ports may change. */
    ghost predicate Apart()
      reads this, ports, ports.repr
    {
      ports.Valid() && this !in ports.repr
    }

    method DoCleanup() returns (ghost c: CleanupOutcome, ghost a: CleanupOutcome)
      requires Apart()
      modifies this, ports.repr
      ensures Apart()
      ensures sourceComplete == old(sourceComplete) && publication == old(publication)
      ensures !Pending()
      ensures old(!Pending()) ==>
                ports.trace == old(ports.trace)
                && sourceCleanup == old(sourceCleanup) && stageCleanup == old(stageCleanup)
      ensures
        old(Untouched()) ==>
            && ports.trace == old(ports.trace) + CleanupOf(sourceComplete, publication, c, a)
            && sourceCleanup == (if sourceComplete then NotRequired else StateOf(c))
            && stageCleanup == (if publication in {NotAttempted, NotPublished} then StateOf(a) else NotRequired)
    {
      hide Ports.Valid;
      c, a := OutcomeCleaned, OutcomeCleaned;
      if !sourceComplete && !sourceCancelled {
        sourceCancelled := true;
        sourceCleanup := Uncertain;
        var cancelled := ports.Cancel();
        c := cancelled;
        sourceCleanup := StateOf(cancelled);
      }
      if !stageAborted && (publication == NotAttempted || publication == NotPublished) {
        stageAborted := true;
        stageCleanup := Uncertain;
        var aborted := ports.Abort();
        a := aborted;
        stageCleanup := StateOf(aborted);
      }
      if old(Untouched()) {
        assert ports.trace == old(ports.trace) + CleanupOf(sourceComplete, publication, c, a);
      }
    }
  }

  class ArchiveSealer {
    const sourceBytes: nat
    const ciphertextBytes: nat
    const timeout: nat

    constructor (sourceBytes: nat, ciphertextBytes: nat, timeout: nat)
      requires 1 <= sourceBytes <= 75497472 && 1 <= ciphertextBytes <= 76546048 && 1 <= timeout <= 300000
    {
      this.sourceBytes, this.ciphertextBytes, this.timeout := sourceBytes, ciphertextBytes, timeout;
    }

    /** The run under the guard, explicit cleanup on failure, and the guard's drop. */
    method Seal(ports: Ports) returns (r: Outcome, ghost body: Trace, ghost latched: Option<SealFailure>)
      requires ports.Valid() && ports.trace == []
      modifies ports.repr
      ensures ports.Valid() && SafeBody(body)
      ensures CleanedUp(body, ports.trace)
      ensures r.Sealed? ==>
                && body != [] && body[|body| - 1] == Publishing(r.counts, Done(OutcomePublished))
                && ports.trace == body
      // A refusal reports the first error latched by a stream, a port or the clock, or the last
      // answer of a port contradicts the run.
      ensures r.Refused? ==> latched == Some(r.report.cause) || (latched.None? && Contradicts(body))
      ensures r.Refused? ==>
                && r.report.publication == PublicationOf(body)
                && (r.report.sourceCleanup == NotRequired <==> Confirmed(body))
                && (r.report.stageCleanup == NotRequired <==>
                    PublicationOf(body) in {Published, PublicationUnknown})
    {
      var guard := new Guard(ports);
      var budget := new Budget(timeout);
      var result := Run(guard, budget);
      body, latched := ports.trace, budget.error;
      hide Ready, Confirmed, SafeBody, Contradicts, CleanedUp, Ports.Valid, Budget.Valid;
      if result.RunOk? {
        PublishedMeansConfirmed(body);
      }
      r := Settle(guard, result, body);
    }

    /** Explicit cleanup after a failed run, and the guard's drop, which cleans up otherwise. */
    method Settle(guard: Guard, result: RunResult, ghost body: Trace) returns (r: Outcome)
      requires guard.Apart() && guard.Untouched() && guard.ports.trace == body
      requires guard.sourceComplete == Confirmed(body) && guard.publication == PublicationOf(body)
      requires result.RunOk? ==> Confirmed(body) && PublicationOf(body) == Published
      modifies guard, guard.ports.repr
      ensures guard.ports.Valid() && CleanedUp(body, guard.ports.trace)
      ensures match r
        case Sealed(counts) => result == RunOk(counts) && guard.ports.trace == body
        case Refused(report) =>
          && result == RunErr(report.cause) && report.publication == PublicationOf(body)
          && (report.sourceCleanup == NotRequired <==> Confirmed(body))
          && (report.stageCleanup == NotRequired <==> PublicationOf(body) in {Published, PublicationUnknown})
        case Unwound => result.RunPanic?
    {
      hide Ready, Confirmed, SafeBody, CleanupOf, CleanedUp, PublicationOf, Ports.Valid;
      if result.RunErr? {
        ghost var c, a := guard.DoCleanup();
        CleansUp(body, c, a);
        r := Refused(Report(result.cause, guard.publication, guard.sourceCleanup, guard.stageCleanup));
      } else {
        r := if result.RunOk? then Sealed(result.counts) else Unwound;
      }
      ghost var c, a := guard.DoCleanup();
      if !result.RunErr? {
        CleansUp(body, c, a);
      }
      if result.RunOk? {
        NothingToClean(body, c, a);
      }
    }

    /** How the run comes back: a safe trace, guard flags equal to what it shows, success only
        with a confirmed publication, and a refusal with its reason - the first error that any
        stream, port or deadline latched, or an answer that contradicts the run. */
    ghost predicate Explained(guard: Guard, error: Option<SealFailure>, r: RunResult)
      reads guard, guard.ports
    {
      var t := guard.ports.trace;
      && SafeBody(t)
      && guard.publication == PublicationOf(t)
      && (guard.sourceComplete <==> Confirmed(t))
      && (r.RunOk? ==> t != [] && t[|t| - 1] == Publishing(r.counts, Done(OutcomePublished)) && error.None?)
      && (r.RunErr? && error.Some? ==> r.cause == error.value)
      && (r.RunErr? ==> error.Some? || Contradicts(t))
    }

    method Run(guard: Guard, budget: Budget) returns (r: RunResult)
      requires guard.Untouched() && guard.publication == NotAttempted && !guard.sourceComplete
      requires guard.Apart() && budget !in guard.ports.repr
      requires guard.ports.trace == [] && budget.Valid() && budget.error.None?
      modifies guard`sourceComplete, guard`publication, guard.ports.repr, budget
      ensures guard.Apart() && Explained(guard, budget.error, r)
    {
      hide Ready, Streaming, Quiet, CheckedFirst, Agreed, SafeBody, Ports.Valid;
      var ports := guard.ports;
      PlainIsSafe([]);
      var late := budget.Check();
      if late.Some? {
        return RunErr(late.value);
      }
      var supported := ports.Capabilities();
      PlainAppend([], AskedCapabilities(supported));
      PlainIsSafe(ports.trace);
      if supported.Panicked? {
        return RunPanic;
      }
      late := budget.Check();
      if late.Some? {
        return RunErr(late.value);
      }
      if !supported.value {
        assert Contradicts(ports.trace);
        return RunErr(StageUnsupported);
      }
      late := budget.Check();
      if late.Some? {
        return RunErr(late.value);
      }
      StreamsBegin(supported);
      r := Stream(guard, budget);
    }

    /** From the streams to the cipher's report. */
    method Stream(guard: Guard, budget: Budget) returns (r: RunResult)
      requires guard.Untouched() && guard.publication == NotAttempted && !guard.sourceComplete
      requires guard.Apart() && budget !in guard.ports.repr
      requires budget.Valid() && budget.error.None? && Streaming(guard.ports.trace, 0, false, 0, None)
      modifies guard`sourceComplete, guard`publication, guard.ports.repr, budget
      ensures guard.Apart() && Explained(guard, budget.error, r)
    {
      hide Ready, Streaming, Quiet, CheckedFirst, Agreed, SafeBody, Contradicts, Ports.Valid;
      var ports := guard.ports;
      var input := new CheckedRead(ports, budget, sourceBytes);
      var output := new CountedWrite(ports, budget, ciphertextBytes);
      var reported, _, _ := Encrypt(input, output);
      QuietIsPlain(ports.trace);
      PlainIsSafe(ports.trace);
      ghost var pre := ports.trace;
      if reported.Panicked? {
        return RunPanic;
      }
      ports.Returned(reported);
      PlainAppend(pre, CipherReturned(reported));
      PlainIsSafe(ports.trace);
      var late := budget.After(reported.Failed?, Cipher);
      if late.Some? {
        return RunErr(late.value);
      }
      CipherContradicts(pre, input.count, input.eof, output.count, reported.value);
      if !input.eof {
        return RunErr(IncompleteInput);
      }
      if input.count == 0 || output.count == 0 {
        return RunErr(EmptyStream);
      }
      if reported.value.inputBytes != input.count || reported.value.outputBytes != output.count {
        return RunErr(CountMismatch);
      }
      StreamsAgree(pre, input.count, output.count, reported.value);
      r := Complete(guard, budget, pre, reported.value);
    }

    /** The streams ended and the cipher reported exactly what was counted. */
    ghost predicate Agreed(pre: Trace, report: CipherCounts) {
      && Quiet(pre) && CheckedFirst(pre) && AtEof(pre)
      && HandedOver(pre) == Accepted(pre) == Offered(pre) && ReadBytes(pre) == Concat(Accepted(pre))
      && 0 < |ReadBytes(pre)| == report.inputBytes && 0 < |Staged(pre)| == report.outputBytes
    }

    lemma StreamsAgree(pre: Trace, count: nat, written: nat, report: CipherCounts)
      requires Streaming(pre, count, true, written, None)
      requires 0 < count == report.inputBytes && 0 < written == report.outputBytes
      ensures Agreed(pre, report)
    {
    }

    /** Whatever the streams disagree on with the cipher's report contradicts the run. */
    lemma CipherContradicts(pre: Trace, count: nat, eof: bool, written: nat, report: CipherCounts)
      requires Streaming(pre, count, eof, written, None)
      ensures !eof || count == 0 || written == 0 || report.inputBytes != count || report.outputBytes != written ==>
        Contradicts(Append(pre, CipherReturned(Done(report))))
    {
    }

    /** The two reports read nothing from the source. */
    lemma SilentReports(pre: Trace, report: CipherCounts, s: CheckCounts)
      requires Agreed(pre, report)
      ensures |ReadBytes(Append(pre, CipherReturned(Done(report))))| == report.inputBytes
      ensures |ReadBytes(Append(Append(pre, CipherReturned(Done(report))), CheckFinished(Done(s))))| == report.inputBytes
    {
      AppendSays(pre, CipherReturned(Done(report)));
      AppendSays(Append(pre, CipherReturned(Done(report))), CheckFinished(Done(s)));
    }

    /** From the cipher's report to publication. */
    method Complete(guard: Guard, budget: Budget, ghost pre: Trace, report: CipherCounts) returns (r: RunResult)
      requires guard.Untouched() && guard.publication == NotAttempted && !guard.sourceComplete
      requires guard.Apart() && budget !in guard.ports.repr
      requires budget.Valid() && budget.error.None? && Agreed(pre, report)
      requires guard.ports.trace == Append(pre, CipherReturned(Done(report)))
      modifies guard`sourceComplete, guard`publication, guard.ports.repr, budget
      ensures guard.Apart() && Explained(guard, budget.error, r)
    {
      QuietIsPlain(pre);
      PlainAppend(pre, CipherReturned(Done(report)));
      hide Plain, SafeBody, Confirmed, Ready, ReadBytes, Accepted, Offered, HandedOver, Staged, AtEof, Ports.Valid;
      var ports := guard.ports;
      PlainIsSafe(ports.trace);
      var late := budget.Check();
      if late.Some? {
        return RunErr(late.value);
      }
      ghost var t := ports.trace;
      var summary := ports.Finish();
      PlainAppend(t, CheckFinished(summary));
      PlainIsSafe(ports.trace);
      if summary.Panicked? {
        return RunPanic;
      }
      late := budget.After(summary.Failed?, SealFailure.Check);
      if late.Some? {
        return RunErr(late.value);
      }
      var s := summary.value;
      SilentReports(pre, report, s);
      if s.sourceBytes != report.inputBytes {
        return RunErr(CountMismatch);
      }
      if !ValidSummary(s, report.inputBytes) {
        return RunErr(InvalidSummary);
      }
      late := budget.Check();
      if late.Some? {
        return RunErr(late.value);
      }
      r := Conclude(guard, budget, pre, report, s);
    }

    lemma AgreedIsReady(pre: Trace, report: CipherCounts, s: CheckCounts, counts: SealedCounts, t: Trace)
      requires Agreed(pre, report) && ValidSummary(s, report.inputBytes)
      requires counts == SealedCounts(report.inputBytes, report.outputBytes, s.expandedBytes, s.payloadBytes, s.files)
      requires t == Append(Append(Append(Append(pre, CipherReturned(Done(report))), CheckFinished(Done(s))),
                                  SourceCompleted(Done(counts.sourceBytes))), FlushedStage(Done(Nothing)))
      ensures Ready(t, counts)
    {
      hide Ready, Quiet, CheckedFirst, AtEof;
      MakeReady(pre, report, s, counts, t);
    }

    /** Producer completion, flush and the one publication attempt. */
    method Conclude(guard: Guard, budget: Budget, ghost pre: Trace, report: CipherCounts, s: CheckCounts)
      returns (r: RunResult)
      requires guard.Untouched() && guard.publication == NotAttempted && !guard.sourceComplete
      requires guard.Apart() && budget !in guard.ports.repr
      requires budget.Valid() && budget.error.None? && Agreed(pre, report) && ValidSummary(s, report.inputBytes)
      requires guard.ports.trace == Append(Append(pre, CipherReturned(Done(report))), CheckFinished(Done(s)))
      requires Plain(guard.ports.trace) && !Confirmed(guard.ports.trace)
      modifies guard`sourceComplete, guard`publication, guard.ports.repr, budget
      ensures guard.Apart() && Explained(guard, budget.error, r)
    {
      hide Plain, SafeBody, Confirmed, Ready, ReadBytes, Accepted, Offered, HandedOver, Staged, AtEof, Ports.Valid;
      hide Agreed, ValidSummary;
      SilentReports(pre, report, s);
      var ports := guard.ports;
      var late: Option<SealFailure>;
      ghost var t := ports.trace;
      var completed := ports.Complete();
      PlainAppend(t, SourceCompleted(completed));
      PlainIsSafe(ports.trace);
      if completed.Panicked? {
        return RunPanic;
      }
      guard.sourceComplete := completed.Done?;
      late := budget.After(completed.Failed?, SourceCompletion);
      if late.Some? {
        return RunErr(late.value);
      }
      if completed.value != report.inputBytes {
        return RunErr(CountMismatch);
      }
      late := budget.Check();
      if late.Some? {
        return RunErr(late.value);
      }
      t := ports.trace;
      var flushed := ports.Flush();
      PlainAppend(t, FlushedStage(flushed));
      PlainIsSafe(ports.trace);
      if flushed.Panicked? {
        return RunPanic;
      }
      late := budget.After(flushed.Failed?, StageFlush);
      if late.Some? {
        return RunErr(late.value);
      }
      assert flushed.Done? && flushed.value.Nothing?;
      var counts := SealedCounts(report.inputBytes, report.outputBytes, s.expandedBytes, s.payloadBytes, s.files);
      AgreedIsReady(pre, report, s, counts, ports.trace);
      r := Publish(guard, budget, counts);
    }

    /** The one publication attempt. */
    method Publish(guard: Guard, budget: Budget, counts: SealedCounts) returns (r: RunResult)
      requires guard.Untouched() && guard.publication == NotAttempted && guard.sourceComplete
      requires guard.Apart() && budget !in guard.ports.repr && budget.Valid() && budget.error.None?
      requires Plain(guard.ports.trace) && Confirmed(guard.ports.trace) && Ready(guard.ports.trace, counts)
      modifies guard`sourceComplete, guard`publication, guard.ports.repr, budget
      ensures guard.Apart() && Explained(guard, budget.error, r)
    {
      hide Plain, SafeBody, Confirmed, Ready, Ports.Valid;
      var ports := guard.ports;
      PlainIsSafe(ports.trace);
      var late := budget.Check();
      if late.Some? {
        return RunErr(late.value);
      }
      // Set first: an unwind during publication must never lead to an abort.
      guard.publication := PublicationUnknown;
      ghost var t := ports.trace;
      var outcome := ports.Publish(counts);
      PublishIsSafe(t, counts, outcome);
      if outcome.Panicked? {
        return RunPanic;
      }
      guard.publication := match outcome.value
        case OutcomePublished => Published
        case OutcomeNotPublished => NotPublished
        case OutcomeUnknown => PublicationUnknown;
      late := budget.Check();
      if late.Some? {
        return RunErr(late.value);
      }
      if outcome.value != OutcomePublished {
        return RunErr(PublicationNotConfirmed);
      }
      return RunOk(counts);
    }
  }

  lemma StreamsBegin(supported: Answer<bool>)
    ensures Streaming(Append([], AskedCapabilities(supported)), 0, false, 0, None)
  {
    AppendSays([], AskedCapabilities(supported));
  }

  // ----- What the trace of any sealing means -----

  /** For every outcome, panics included: one publication at most and only when ready; one
      cancellation at most and never after confirmed completion; one abort at most and
      only if nothing was, or may have been, published. */
  lemma TraceSafety(t: Trace, body: Trace, c: CleanupOutcome, a: CleanupOutcome)
    requires SafeBody(body) && t == body + CleanupTail(body, c, a)
    ensures forall i, j | 0 <= i < |t| && 0 <= j < |t| && t[i].Publishing? && t[j].Publishing? :: i == j
    ensures forall i | 0 <= i < |t| && t[i].Publishing? :: Ready(t[..i], t[i].counts)
    ensures forall i, j | 0 <= i < |t| && 0 <= j < |t| && t[i].CancelledSource? && t[j].CancelledSource? :: i == j
    ensures forall i, j | 0 <= i < |t| && 0 <= j < |t| && t[i].AbortedStage? && t[j].AbortedStage? :: i == j
    ensures (exists i | 0 <= i < |t| :: t[i].CancelledSource?) ==> !Confirmed(t)
    ensures forall i, j | 0 <= i < |t| && 0 <= j < |t| && t[i].AbortedStage? && t[j].Publishing? ::
              t[j].published == Done(OutcomeNotPublished)
  {
    hide Ready;
    var tail, n := CleanupTail(body, c, a), |body|;
    assert forall i | 0 <= i < n :: t[i] == body[i];
    forall i | n <= i < |t|
      ensures Cleanup(t[i])
    {
      assert t[i] == tail[i - n];
    }
    forall i | 0 <= i < |t| && t[i].Publishing?
      ensures i == n - 1 && t[..i] == body[..i]
    {
      assert i < n;
    }
    if Confirmed(t) {
      var i :| 0 <= i < |t| && t[i].SourceCompleted? && t[i].total.Done?;
      assert i < n && body[i] == t[i];
    }
  }
}
