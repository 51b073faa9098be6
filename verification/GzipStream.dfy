/** The gzip wrapper around the archive checker: a decoding loop over an arbitrary inflater
    whose counters are checked, and what a finished stream guarantees. */
module GzipStream {
  import opened Common
  import opened GzipHeader
  import T = TarFormat
  import V = TarValidator
  import R = TarRefinement

  const MAX_CHUNK_BYTES := 65536
  const MAX_SOURCE_BYTES := 72 * 1024 * 1024
  const OUTPUT_BUFFER_BYTES := 4096
  const MAX_EXPANSION_RATIO := 128
  const EXPANSION_SLACK_BYTES := 1024 * 1024

  datatype GzipSummary = GzipSummary(compressedBytes: nat, files: nat, payloadBytes: nat, archiveBytes: nat)

  /** What one call of the inflater reports: the buffer it filled, and whether it is done. */
  datatype Inflated = Inflated(buffer: Bytes, streamEnd: bool)

  /** One answer of the inflater, with its counters after the call. */
  datatype Report = Report(answer: Option<Inflated>, totalIn: nat, totalOut: nat)

  const NO_REPORT := Report(None, 0, 0)

  function Last(reports: seq<Report>): Report {
    if reports == [] then NO_REPORT else reports[|reports| - 1]
  }

  predicate Filled(reports: seq<Report>) {
    forall i | 0 <= i < |reports| && reports[i].answer.Some? :: |reports[i].answer.value.buffer| == OUTPUT_BUFFER_BYTES
  }

  /** Any inflater at all: it may fail, fill its buffer with anything and set its counters to
      anything. It may also follow a script, for as long as that lasts. */
  class Inflater {
    const script: seq<Report>
    var totalIn: nat
    var totalOut: nat
    var reports: seq<Report>

    ghost predicate Valid()
      reads this
    {
      && Filled(script) && Filled(reports)
      && (forall i | 0 <= i < |script| && i < |reports| :: reports[i] == script[i])
      && totalIn == Last(reports).totalIn && totalOut == Last(reports).totalOut
    }

    constructor (script: seq<Report>)
      requires Filled(script)
      ensures Valid() && this.script == script && reports == []
    {
      this.script := script;
      totalIn, totalOut, reports := 0, 0, [];
    }

    /** A new stream. */
    method Reset()
      requires Valid()
      modifies this
      ensures Valid() && reports == []
    {
      totalIn, totalOut, reports := 0, 0, [];
    }

    method Decompress(input: Bytes) returns (r: Option<Inflated>)
      requires Valid()
      modifies this
      ensures Valid() && reports == old(reports) + [Report(r, totalIn, totalOut)]
    {
      totalIn, totalOut := *, *;
      r := *;
      if r.Some? && |r.value.buffer| != OUTPUT_BUFFER_BYTES {
        r := None;
      }
      if |reports| < |script| {
        var next := script[|reports|];
        r, totalIn, totalOut := next.answer, next.totalIn, next.totalOut;
      }
      reports := reports + [Report(r, totalIn, totalOut)];
    }
  }

  // ----- What the answers of an inflater amount to -----

  /** The counters move forward, within the bytes fed so far and the output buffer. */
  predicate Sane(prev: Report, now: Report, fed: nat) {
    && now.answer.Some? && |now.answer.value.buffer| == OUTPUT_BUFFER_BYTES
    && prev.totalIn <= now.totalIn <= fed
    && prev.totalOut <= now.totalOut <= prev.totalOut + OUTPUT_BUFFER_BYTES
  }

  function Output(prev: Report, now: Report): Bytes {
    if prev.totalOut <= now.totalOut && now.answer.Some? && now.totalOut - prev.totalOut <= |now.answer.value.buffer|
    then now.answer.value.buffer[..now.totalOut - prev.totalOut] else []
  }

  predicate Ended(now: Report) {
    now.answer.Some? && now.answer.value.streamEnd
  }

  /** All input is used and the output buffer was not filled: the next feed goes on. */
  predicate Pauses(prev: Report, now: Report, fed: nat) {
    now.totalIn == fed && now.totalOut < prev.totalOut + OUTPUT_BUFFER_BYTES
  }

  predicate Stalls(prev: Report, now: Report, fed: nat) {
    now.totalIn == prev.totalIn < fed && now.totalOut == prev.totalOut
  }

  predicate Continues(prev: Report, now: Report, fed: nat) {
    Sane(prev, now, fed) && !Ended(now) && !Pauses(prev, now, fed) && !Stalls(prev, now, fed)
  }

  /** Where the archive checker stands after these outputs. */
  function CheckerAfter(files: seq<T.File>, outputs: seq<Bytes>): V.Checker {
    V.FeedAll(files, V.Active(V.Start(files), 0), outputs)
  }

  /** What the last answer of one decoding means: `fed` bytes were given to the inflater in all,
      out of `source` bytes received. */
  function Judged(files: seq<T.File>, outputs: seq<Bytes>, prev: Report, now: Report,
                  fed: nat, source: nat, header: nat): Option<GzipError> {
    if !Sane(prev, now, fed) then Some(InvalidData)
    else if CheckerAfter(files, outputs + [Output(prev, now)]).Failed? then Some(ArchiveRejected)
    else if !Ended(now) then if Stalls(prev, now, fed) then Some(InvalidData) else None
    else if now.totalIn < fed then Some(TrailingData)
    else if fed != source || now.totalIn <= header + 8 then Some(InvalidData)
    else None
  }

  /** The answer before the next one. */
  function Before(prev: Report, calls: seq<Report>): Report {
    if calls == [] then prev else Last(calls)
  }

  /** Every answer calls for another round. */
  predicate AllContinue(prev: Report, calls: seq<Report>, fed: nat) {
    calls != [] ==>
      var init := calls[..|calls| - 1];
      AllContinue(prev, init, fed) && Continues(Before(prev, init), Last(calls), fed)
  }

  function Outputs(prev: Report, calls: seq<Report>): seq<Bytes> {
    if calls == [] then []
    else
      var init := calls[..|calls| - 1];
      Outputs(prev, init) + [Output(Before(prev, init), Last(calls))]
  }

  /** One decoding: rounds until an answer that decides it. */
  ghost predicate Decoded(files: seq<T.File>, outputs: seq<Bytes>, prev: Report, calls: seq<Report>,
                          fed: nat, source: nat, header: nat, r: Option<GzipError>) {
    && calls != []
    && var init := calls[..|calls| - 1];
       && AllContinue(prev, init, fed)
       && r == Judged(files, outputs + Outputs(prev, init), Before(prev, init), Last(calls), fed, source, header)
       && (r.Some? || Ended(Last(calls)) || Pauses(Before(prev, init), Last(calls), fed))
  }

  lemma OneMore(prev: Report, calls: seq<Report>, now: Report, fed: nat)
    ensures
      var more := calls + [now];
      && more != [] && more[..|more| - 1] == calls && Last(more) == now && Before(prev, more) == now
      && Outputs(prev, more) == Outputs(prev, calls) + [Output(Before(prev, calls), now)]
      && (AllContinue(prev, more, fed) <==> AllContinue(prev, calls, fed) && Continues(Before(prev, calls), now, fed))
  {
    assert (calls + [now])[..|calls|] == calls;
  }

  lemma {:induction false} OutputsJoin(prev: Report, a: seq<Report>, b: seq<Report>)
    ensures Outputs(prev, a + b) == Outputs(prev, a) + Outputs(Before(prev, a), b)
    ensures Before(prev, a + b) == Before(Before(prev, a), b)
    decreases |b|
  {
    if b == [] {
      assert a + b == a;
    } else {
      var init := b[..|b| - 1];
      OutputsJoin(prev, a, init);
      assert (a + b)[..|a + b| - 1] == a + init;
    }
  }

  lemma OutputsGrow(reports: seq<Report>, more: seq<Report>)
    requires reports <= more
    ensures Outputs(NO_REPORT, more) == Outputs(NO_REPORT, reports) + Outputs(Last(reports), more[|reports|..])
  {
    assert more == reports + more[|reports|..];
    OutputsJoin(NO_REPORT, reports, more[|reports|..]);
  }

  lemma NothingYet(prev: Report, fed: nat)
    ensures AllContinue(prev, [], fed) && Outputs(prev, []) == []
  {
  }

  lemma Decides(files: seq<T.File>, outputs: seq<Bytes>, prev: Report, calls: seq<Report>, now: Report,
                fed: nat, source: nat, header: nat)
    requires AllContinue(prev, calls, fed)
    ensures
      var r := Judged(files, outputs + Outputs(prev, calls), Before(prev, calls), now, fed, source, header);
      r.Some? || Ended(now) || Pauses(Before(prev, calls), now, fed) ==>
        Decoded(files, outputs, prev, calls + [now], fed, source, header, r)
  {
    OneMore(prev, calls, now, fed);
  }

  predicate Sized(taken: Bytes, input: Bytes) {
    |input| <= MAX_CHUNK_BYTES && |taken| + |input| <= MAX_SOURCE_BYTES
  }

  /** A chunk of allowed size that completes the header. */
  ghost predicate HeaderEnds(inHeader: bool, taken: Bytes, input: Bytes) {
    && inHeader && Sized(taken, input)
    && Drink(START, taken + input).Ok? && Drink(START, taken + input).value.stage.Done?
  }

  /** The feed that completes the header decodes the header bytes first, and then what is left
      of the chunk, unless the header bytes already failed or ended the stream. */
  ghost predicate FirstDecoded(files: seq<T.File>, reports: seq<Report>, source: nat, header: nat, r: Option<GzipError>) {
    exists n: nat, first: Option<GzipError> :: FirstSplit(files, reports, n, first, source, header, r)
  }

  ghost predicate FirstSplit(files: seq<T.File>, reports: seq<Report>, n: nat, first: Option<GzipError>,
                             source: nat, header: nat, r: Option<GzipError>) {
    && n <= |reports|
    && Decoded(files, [], NO_REPORT, reports[..n], header, source, header, first)
    && if first.Some? then n == |reports| && r == first
       else if Ended(Last(reports[..n])) then n == |reports| && r == Some(InvalidData)
       else Decoded(files, Outputs(NO_REPORT, reports[..n]), Last(reports[..n]), reports[n..], source, source, header, r)
  }

  lemma OnlyFirst(files: seq<T.File>, reports: seq<Report>, source: nat, header: nat, first: Option<GzipError>)
    requires Decoded(files, [], NO_REPORT, reports, header, source, header, first)
    ensures first.Some? ==> FirstDecoded(files, reports, source, header, first)
    ensures first.None? && Ended(Last(reports)) ==> FirstDecoded(files, reports, source, header, Some(InvalidData))
  {
    hide Decoded, Outputs;
    assert reports[..|reports|] == reports;
    assert FirstSplit(files, reports, |reports|, first, source, header, if first.Some? then first else Some(InvalidData))
      || (first.None? && !Ended(Last(reports)));
  }

  lemma FirstThenRest(files: seq<T.File>, reports: seq<Report>, n: nat, source: nat, header: nat, r: Option<GzipError>)
    requires n <= |reports| && !Ended(Last(reports[..n]))
    requires Decoded(files, [], NO_REPORT, reports[..n], header, source, header, None)
    requires Decoded(files, Outputs(NO_REPORT, reports[..n]), Last(reports[..n]), reports[n..], source, source, header, r)
    ensures FirstDecoded(files, reports, source, header, r)
  {
    hide Decoded, Outputs;
    assert FirstSplit(files, reports, n, None, source, header, r);
  }

  /** A chunk of allowed size that does not reach past the header is judged by the header alone. */
  ghost predicate HeaderDecides(inHeader: bool, taken: Bytes, input: Bytes) {
    && inHeader && Sized(taken, input)
    && (Drink(START, taken + input).Err? || !Drink(START, taken + input).value.stage.Done?)
  }

  ghost function HeaderAnswer(taken: Bytes, input: Bytes): Option<GzipError> {
    if Drink(START, taken + input).Err? then Some(Drink(START, taken + input).error) else None
  }

  class GzipArchiveValidator {
    const header: Header
    const decoder: Inflater
    const inner: V.ArchiveValidator
    var inHeader: bool
    var decoding: bool
    var complete: bool
    var sourceBytes: nat
    var headerBytes: nat
    var deflateBytes: nat
    var failure: Option<GzipError>
    /** Every byte of the feeds that succeeded, and every output handed to the checker. */
    ghost var taken: Bytes
    ghost var outputs: seq<Bytes>

    /** The checker has seen exactly the outputs. */
    ghost predicate InnerOk()
      reads `outputs, inner, inner.header
    {
      && inner.Valid() && inner.failure.None?
      && inner.Checked() == CheckerAfter(inner.files, outputs)
      && (forall i | 0 <= i < |outputs| :: |outputs[i]| <= OUTPUT_BUFFER_BYTES)
    }

    ghost predicate Valid()
      reads this, header, header.bytes, decoder, inner, inner.header
    {
      && header.bytes != inner.header && decoder.Valid()
      && (failure.None? ==>
            && InnerOk() && sourceBytes == |taken| <= MAX_SOURCE_BYTES
            && !(inHeader && decoding) && !(inHeader && complete) && !(decoding && complete)
            && (inHeader || decoding || complete)
            && (inHeader ==>
                  header.Valid() && !header.stage.Done? && Drink(START, taken) == Ok(header.Current()) && outputs == [])
            && (!inHeader ==> WholeHeader(taken) == Complete(headerBytes))
            && (!inHeader ==> outputs == Outputs(NO_REPORT, decoder.reports))
            && (!inHeader ==> complete == Ended(Last(decoder.reports)))
            && (decoding ==> decoder.totalIn == sourceBytes)
            && (complete ==> deflateBytes > 0 && sourceBytes == headerBytes + deflateBytes + 8))
    }

    constructor (files: seq<T.File>, decoder: Inflater)
      requires StrictlySortedBy(T.PathKey, files) && decoder.Valid()
      ensures Valid() && failure.None? && inHeader && taken == [] && outputs == [] && inner.files == files
      ensures this.decoder == decoder
      ensures fresh(header) && fresh(header.bytes) && fresh(inner) && fresh(inner.header)
    {
      header := new Header();
      this.decoder := decoder;
      inner := new V.ArchiveValidator(files);
      inHeader, decoding, complete := true, false, false;
      sourceBytes, headerBytes, deflateBytes := 0, 0, 0;
      failure := None;
      taken, outputs := [], [];
    }

    /** Inflates until the input is used up, the stream ends, or something is wrong. Each
        round hands the checker more output, which it accepts only up to its limit, or uses up
        more input. */
    method Decode(input: Bytes, ghost fed: nat) returns (r: Option<GzipError>)
      requires InnerOk() && header.bytes != inner.header && !complete && failure.None? && decoder.Valid()
      requires decoding ==> decoder.totalIn + |input| == fed <= sourceBytes
      modifies `decoding, `complete, `deflateBytes, `outputs, decoder, inner, inner.header
      ensures decoder.Valid() && old(decoder.reports) <= decoder.reports
      ensures !old(decoding) ==> r == Some(InvalidData) && decoder.reports == old(decoder.reports)
      ensures old(decoding) ==>
        Decoded(inner.files, old(outputs), Last(old(decoder.reports)), decoder.reports[|old(decoder.reports)|..],
                fed, sourceBytes, headerBytes, r)
      ensures r.None? ==>
        && InnerOk() && complete == Ended(Last(decoder.reports)) && decoding == !complete
        && outputs == old(outputs) + Outputs(Last(old(decoder.reports)), decoder.reports[|old(decoder.reports)|..])
      ensures r.None? && !complete ==> decoder.totalIn == fed
      ensures r.None? && complete ==>
        fed == sourceBytes && deflateBytes > 0 && sourceBytes == headerBytes + deflateBytes + 8
    {
      hide InnerOk, CheckerAfter, Decoded, Outputs, AllContinue, Output;
      var rest := input;
      ghost var start, calls := decoder.reports, [];
      assert AllContinue(Last(start), calls, fed) && Outputs(Last(start), calls) == [] by {
        NothingYet(Last(start), fed);
      }
      while true
        invariant InnerOk() && !complete && decoding == old(decoding) && decoder.Valid()
        invariant decoder.reports == start + calls && Last(decoder.reports) == Before(Last(start), calls)
        invariant calls != [] ==> old(decoding)
        invariant outputs == old(outputs) + Outputs(Last(start), calls)
        invariant decoding ==> decoder.totalIn + |rest| == fed
        invariant AllContinue(Last(start), calls, fed)
        decreases T.MAX_ARCHIVE_BYTES - inner.total, |rest|
      {
        if !decoding {
          return Some(InvalidData);
        }
        ghost var prev := Last(decoder.reports);
        var error, used, written, ended := Round(rest, fed);
        ghost var now := Last(decoder.reports);
        OneMore(Last(start), calls, now, fed);
        Decides(inner.files, old(outputs), Last(start), calls, now, fed, sourceBytes, headerBytes);
        calls := calls + [now];
        assert decoder.reports[|start|..] == calls;
        if error.Some? {
          return error;
        }
        rest := rest[used..];
        if ended {
          if rest != [] {
            return Some(TrailingData);
          }
          if decoder.totalIn != sourceBytes {
            return Some(InvalidData);
          }
          if decoder.totalIn <= headerBytes + 8 {
            return Some(InvalidData);
          }
          deflateBytes := decoder.totalIn - headerBytes - 8;
          complete := true;
          decoding := false;
          return None;
        }
        if used == 0 && written == 0 {
          return if rest == [] then None else Some(InvalidData);
        }
        if rest == [] && written < OUTPUT_BUFFER_BYTES {
          return None;
        }
      }
    }

    /** One call of the inflater, with the checks on its counters, and its output. */
    method Round(rest: Bytes, ghost fed: nat)
      returns (error: Option<GzipError>, used: nat, written: nat, ended: bool)
      requires InnerOk() && header.bytes != inner.header && decoder.Valid() && decoder.totalIn + |rest| == fed
      modifies `outputs, decoder, inner, inner.header
      ensures decoder.Valid() && decoder.reports == old(decoder.reports) + [Last(decoder.reports)]
      ensures
        var prev, now := Last(old(decoder.reports)), Last(decoder.reports);
        && error == (if !Sane(prev, now, fed) then Some(InvalidData)
                     else if CheckerAfter(inner.files, old(outputs) + [Output(prev, now)]).Failed? then Some(ArchiveRejected)
                     else None)
        && (error.None? ==>
              && InnerOk() && outputs == old(outputs) + [Output(prev, now)]
              && prev.totalIn + used == now.totalIn <= fed && prev.totalOut + written == now.totalOut
              && ended == Ended(now) && inner.total == old(inner.total) + written <= T.MAX_ARCHIVE_BYTES)
    {
      hide InnerOk, CheckerAfter;
      used, written, ended := 0, 0, false;
      ghost var prev := Last(decoder.reports);
      var beforeIn, beforeOut := decoder.totalIn, decoder.totalOut;
      var status := decoder.Decompress(rest);
      if status.None? {
        return Some(InvalidData), 0, 0, false;
      }
      if decoder.totalIn < beforeIn || decoder.totalIn - beforeIn > |rest| {
        return Some(InvalidData), 0, 0, false;
      }
      if decoder.totalOut < beforeOut || decoder.totalOut - beforeOut > OUTPUT_BUFFER_BYTES {
        return Some(InvalidData), 0, 0, false;
      }
      used, written, ended := decoder.totalIn - beforeIn, decoder.totalOut - beforeOut, status.value.streamEnd;
      assert Output(prev, Last(decoder.reports)) == status.value.buffer[..written];
      error := Hand(status.value.buffer[..written]);
    }

    /** Hands one output to the checker. */
    method Hand(output: Bytes) returns (r: Option<GzipError>)
      requires InnerOk() && |output| <= OUTPUT_BUFFER_BYTES
      modifies `outputs, inner, inner.header
      ensures r.None? ==> InnerOk() && outputs == old(outputs) + [output]
      ensures r.None? ==> inner.total == old(inner.total) + |output| <= T.MAX_ARCHIVE_BYTES
      ensures r == if CheckerAfter(inner.files, old(outputs) + [output]).Failed? then Some(ArchiveRejected) else None
    {
      R.FeedAllSnoc(inner.files, V.Active(V.Start(inner.files), 0), outputs, output);
      var error := inner.Feed(output);
      if error.Some? {
        return Some(ArchiveRejected);
      }
      outputs := outputs + [output];
      r := None;
    }

    /** Feeds one chunk; the first error is latched and repeated for ever. A feed that
        succeeds has consumed all of its bytes. The header decides until it is complete, and
        the answers of the inflater decide from then on. */
    method Feed(input: Bytes) returns (r: Option<GzipError>)
      requires Valid()
      modifies this, header, header.bytes, decoder, inner, inner.header
      ensures Valid() && r == failure
      ensures old(failure).Some? ==> failure == old(failure)
      ensures r.None? ==> taken == old(taken) + input && old(outputs) <= outputs
      ensures r.None? && decoding ==> decoder.totalIn == sourceBytes
      ensures old(failure).None? && !Sized(old(taken), input) ==> r == Some(LimitExceeded)
      ensures old(failure).None? && Sized(old(taken), input) && old(complete) ==>
        r == if input == [] then None else Some(TrailingData)
      ensures old(failure).None? && Sized(old(taken), input) && old(decoding) ==>
        && old(decoder.reports) <= decoder.reports
        && Decoded(inner.files, old(outputs), Last(old(decoder.reports)), decoder.reports[|old(decoder.reports)|..],
                   |old(taken)| + |input|, |old(taken)| + |input|, headerBytes, r)
      ensures old(failure).None? && HeaderDecides(old(inHeader), old(taken), input) ==> r == HeaderAnswer(old(taken), input)
      ensures old(failure).None? && HeaderEnds(old(inHeader), old(taken), input) ==>
        && WholeHeader(old(taken) + input).Complete?
        && FirstDecoded(inner.files, decoder.reports, |old(taken)| + |input|, WholeHeader(old(taken) + input).length, r)
    {
      if failure.Some? {
        return failure;
      }
      r := FeedInner(input);
      if r.Some? {
        failure := r;
        inHeader, decoding := false, false;
      }
    }

    method FeedInner(input: Bytes) returns (r: Option<GzipError>)
      requires Valid() && failure.None?
      modifies this, header, header.bytes, decoder, inner, inner.header
      ensures failure.None? && header.bytes != inner.header && decoder.Valid()
      ensures r.None? ==> Valid() && taken == old(taken) + input && old(outputs) <= outputs
      ensures old(failure).None? && !Sized(old(taken), input) ==> r == Some(LimitExceeded)
      ensures old(failure).None? && Sized(old(taken), input) && old(complete) ==>
        r == if input == [] then None else Some(TrailingData)
      ensures old(failure).None? && Sized(old(taken), input) && old(decoding) ==>
        && old(decoder.reports) <= decoder.reports
        && Decoded(inner.files, old(outputs), Last(old(decoder.reports)), decoder.reports[|old(decoder.reports)|..],
                   |old(taken)| + |input|, |old(taken)| + |input|, headerBytes, r)
      ensures old(failure).None? && HeaderDecides(old(inHeader), old(taken), input) ==> r == HeaderAnswer(old(taken), input)
      ensures old(failure).None? && HeaderEnds(old(inHeader), old(taken), input) ==>
        && WholeHeader(old(taken) + input).Complete?
        && FirstDecoded(inner.files, decoder.reports, |old(taken)| + |input|, WholeHeader(old(taken) + input).length, r)
    {
      hide InnerOk, Drink, WholeHeader, Decoded, Outputs;
      if |input| > MAX_CHUNK_BYTES {
        return Some(LimitExceeded);
      }
      if sourceBytes + |input| > MAX_SOURCE_BYTES {
        return Some(LimitExceeded);
      }
      sourceBytes := sourceBytes + |input|;
      if complete {
        if input == [] {
          assert taken + input == taken;
          return None;
        }
        return Some(TrailingData);
      }
      if !inHeader {
        HeaderStays(taken, input);
        taken := taken + input;
        ghost var reports := decoder.reports;
        r := Decode(input, sourceBytes);
        OutputsGrow(reports, decoder.reports);
        return;
      }
      r := FeedHeader(input);
    }

    /** The header phase of a feed. */
    method FeedHeader(input: Bytes) returns (r: Option<GzipError>)
      requires Valid0() && inHeader && Sized(taken, input) && sourceBytes == |taken| + |input|
      modifies this, header, header.bytes, decoder, inner, inner.header
      ensures failure.None? && header.bytes != inner.header && decoder.Valid()
      ensures r.None? ==> Valid() && taken == old(taken) + input
      ensures HeaderDecides(true, old(taken), input) ==> r == HeaderAnswer(old(taken), input)
      ensures HeaderEnds(true, old(taken), input) ==>
        && WholeHeader(old(taken) + input).Complete?
        && FirstDecoded(inner.files, decoder.reports, |old(taken)| + |input|, WholeHeader(old(taken) + input).length, r)
    {
      hide InnerOk, Drink, WholeHeader, Decoded, Outputs;
      WholeAgrees(taken);
      assert header.length == |taken|;
      WholeAgrees(taken + input);
      var rest;
      r, rest := TakeHeader(input);
      if r.None? && !inHeader {
        ghost var first := decoder.reports;
        r := Decode(rest, sourceBytes);
        assert decoder.reports[..|first|] == first;
        OutputsGrow(first, decoder.reports);
        FirstThenRest(inner.files, decoder.reports, |first|, sourceBytes, headerBytes, r);
      }
    }

    /** The state in the header phase, once the chunk was counted. */
    ghost predicate Valid0()
      reads this, header, header.bytes, decoder, inner, inner.header
    {
      && header.bytes != inner.header && decoder.Valid() && failure.None? && InnerOk()
      && !decoding && !complete && header.Valid() && !header.stage.Done?
      && Drink(START, taken) == Ok(header.Current()) && outputs == []
    }

    /** The header phase: keeps header bytes until the header is complete, then starts the
        inflater on exactly those bytes. */
    method TakeHeader(input: Bytes) returns (r: Option<GzipError>, rest: Bytes)
      requires Valid0() && inHeader && header.length == |taken|
      requires sourceBytes == |taken| + |input| <= MAX_SOURCE_BYTES
      modifies this, header, header.bytes, decoder, inner, inner.header
      ensures failure.None? && sourceBytes == old(sourceBytes) && decoder.Valid()
      ensures
        var next := Drink(START, old(taken) + input);
        if next.Err? then r == Some(next.error) else !next.value.stage.Done? ==> r.None? && inHeader
      ensures
        var next := Drink(START, old(taken) + input);
        next.Ok? && next.value.stage.Done? ==>
          && WholeHeader(old(taken) + input) == Complete(headerBytes)
          && (r.Some? ==> FirstDecoded(inner.files, decoder.reports, sourceBytes, headerBytes, r))
          && (r.None? ==>
                && !inHeader && outputs == Outputs(NO_REPORT, decoder.reports)
                && Decoded(inner.files, [], NO_REPORT, decoder.reports, headerBytes, sourceBytes, headerBytes, None)
                && !Ended(Last(decoder.reports)))
      ensures r.None? ==> InnerOk() && taken == old(taken) + input
      ensures r.None? && inHeader ==>
        && !decoding && !complete && outputs == [] && header.Valid() && !header.stage.Done?
        && Drink(START, taken) == Ok(header.Current())
      ensures r.None? && !inHeader ==>
        && WholeHeader(taken) == Complete(headerBytes) && !complete && decoding
        && decoder.totalIn + |rest| == sourceBytes
    {
      DrinkSplit(START, taken, input);
      hide InnerOk, Drink, WholeHeader, Decoded, Outputs, FirstDecoded;
      var consumed := header.Feed(input);
      if consumed.Err? {
        return Some(consumed.error), [];
      }
      rest := input[consumed.value..];
      taken := taken + input;
      if !header.stage.Done? {
        return None, rest;
      }
      WholeAgrees(taken);
      inHeader := false;
      headerBytes := header.length;
      r := DecodeHeader();
    }

    /** Starts the inflater on exactly the bytes of the header. */
    method DecodeHeader() returns (r: Option<GzipError>)
      requires InnerOk() && header.bytes != inner.header && decoder.Valid() && outputs == [] && failure.None?
      requires !complete && header.Valid() && header.length == headerBytes <= sourceBytes
      modifies `decoding, `complete, `deflateBytes, `outputs, decoder, inner, inner.header
      ensures decoder.Valid()
      ensures r.Some? ==> FirstDecoded(inner.files, decoder.reports, sourceBytes, headerBytes, r)
      ensures r.None? ==>
        && InnerOk() && decoding && !complete && decoder.totalIn == headerBytes
        && outputs == Outputs(NO_REPORT, decoder.reports) && !Ended(Last(decoder.reports))
        && Decoded(inner.files, [], NO_REPORT, decoder.reports, headerBytes, sourceBytes, headerBytes, None)
    {
      hide InnerOk, Decoded, Outputs, FirstDecoded;
      decoder.Reset();
      decoding := true;
      r := Decode(header.bytes[..header.length], headerBytes);
      assert decoder.reports[0..] == decoder.reports;
      OnlyFirst(inner.files, decoder.reports, sourceBytes, headerBytes, r);
      // A stream that ends inside its header leaves no inflater for what follows.
      if r.None? && complete {
        r := Some(InvalidData);
      }
    }

    /** Accepts a complete stream whose archive conforms and did not expand too much. */
    method Finish() returns (r: Result<GzipSummary, GzipError>)
      requires Valid()
      ensures failure.Some? ==> r == Err(failure.value)
      ensures failure.None? ==>
        var checked := V.Validate(inner.files, outputs);
        && (r.Ok? <==>
              && complete && checked.Ok?
              && checked.value.archiveBytes <= deflateBytes * MAX_EXPANSION_RATIO + EXPANSION_SLACK_BYTES)
        && (r.Ok? ==>
              r.value == GzipSummary(|taken|, checked.value.files, checked.value.payloadBytes, checked.value.archiveBytes))
    {
      if failure.Some? {
        return Err(failure.value);
      }
      if !complete {
        return Err(IncompleteStream);
      }
      var summary := inner.Finish();
      if summary.Err? {
        return Err(ArchiveRejected);
      }
      if summary.value.archiveBytes > deflateBytes * MAX_EXPANSION_RATIO + EXPANSION_SLACK_BYTES {
        return Err(LimitExceeded);
      }
      r := Ok(GzipSummary(sourceBytes, summary.value.files, summary.value.payloadBytes, summary.value.archiveBytes));
    }

    /** What a finished stream guarantees: its first bytes are exactly one header, the rest is
        the deflate data and an eight-byte trailer, and the decompressed bytes are a conforming
        archive no more than 128 times the deflate data plus one MiB. */
    method FinishedStream() returns (r: Result<GzipSummary, GzipError>)
      requires Valid() && T.ValidManifest(inner.files)
      ensures r.Ok? ==>
        && WholeHeader(taken) == Complete(headerBytes)
        && |taken| == headerBytes + deflateBytes + 8 && deflateBytes > 0
        && T.Conforms(multiset(inner.files), Concat(outputs))
        && r.value == GzipSummary(|taken|, |inner.files|, T.TotalSize(inner.files), |Concat(outputs)|)
        && |Concat(outputs)| <= 128 * deflateBytes + 1024 * 1024
    {
      r := Finish();
      if r.Ok? {
        R.ValidateExact(inner.files, outputs);
      }
    }
  }

  /** Bytes after a complete header do not change it. */
  lemma HeaderStays(s: Bytes, more: Bytes)
    ensures WholeHeader(s).Complete? ==> WholeHeader(s + more) == WholeHeader(s)
  {
    WholeAgrees(s);
    WholeAgrees(s + more);
    DrinkSplit(START, s, more);
  }

  /** The machine's completed header is the whole-string parser's. */
  lemma WholeAgrees(s: Bytes)
    ensures Agrees(Drink(START, s), WholeHeader(s), s)
  {
    ChunksAgree([s]);
    assert Concat([s]) == s;
    DrinkAllIsDrink(START, [s]);
  }
}
