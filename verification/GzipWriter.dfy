/** Gzip streams that the wrapper accepts: any conforming archive of up to one MiB, delivered
    by an inflater in full output buffers. */
module GzipWriter {
  import opened Common
  import opened GzipHeader
  import opened GzipStream
  import T = TarFormat
  import V = TarValidator
  import R = TarRefinement

  /** A header without optional fields, one byte of data and the trailer. */
  const STREAM: Bytes := [0x1f, 0x8b, 8, 0, 0, 0, 0, 0, 0, 255, 3, 0, 0, 0, 0, 0, 0, 0, 0]

  function Reached(archive: Bytes, k: nat): nat {
    Min(OUTPUT_BUFFER_BYTES * k, |archive|)
  }

  function Piece(archive: Bytes, k: nat): (piece: Bytes)
    requires k > 0
    ensures |piece| == Reached(archive, k) - Reached(archive, k - 1) <= OUTPUT_BUFFER_BYTES
  {
    archive[Reached(archive, k - 1)..Reached(archive, k)]
  }

  /** The inflater's `k`-th answer: nothing for the header, then one full buffer at a time. */
  function Answer(archive: Bytes, k: nat): Report {
    if k == 0 then Report(Some(Inflated(Zeros(OUTPUT_BUFFER_BYTES), false)), 10, 0)
    else
      var piece := Piece(archive, k);
      Report(Some(Inflated(piece + Zeros(OUTPUT_BUFFER_BYTES - |piece|), Reached(archive, k) == |archive|)),
             |STREAM|, Reached(archive, k))
  }

  /** How many buffers the archive fills. */
  function Buffers(archive: Bytes): nat {
    (|archive| + OUTPUT_BUFFER_BYTES - 1) / OUTPUT_BUFFER_BYTES
  }

  lemma AnswerPuts(archive: Bytes, k: nat)
    ensures k == 0 ==> Output(NO_REPORT, Answer(archive, k)) == []
    ensures k > 0 ==> Output(Answer(archive, k - 1), Answer(archive, k)) == Piece(archive, k)
  {
    if k > 0 {
      var piece := Piece(archive, k);
      var buffer := piece + Zeros(OUTPUT_BUFFER_BYTES - |piece|);
      assert buffer[..|piece|] == piece;
    }
  }

  lemma PiecesJoin(archive: Bytes, k: nat)
    ensures k == 0 ==> archive[..Reached(archive, k)] == []
    ensures k > 0 ==> archive[..Reached(archive, k)] == archive[..Reached(archive, k - 1)] + Piece(archive, k)
  {
  }

  /** The answers up to the `k`-th. */
  function Upto(archive: Bytes, k: nat): (reports: seq<Report>)
    ensures |reports| == k + 1 && reports[k] == Answer(archive, k)
  {
    if k == 0 then [Answer(archive, 0)] else Upto(archive, k - 1) + [Answer(archive, k)]
  }

  lemma UptoStep(archive: Bytes, k: nat)
    ensures Upto(archive, k) == (if k == 0 then [] else Upto(archive, k - 1)) + [Answer(archive, k)]
  {
    hide Answer;
  }

  /** What the inflater has put out after `k` buffers is the archive so far. */
  lemma {:induction false} UptoPuts(archive: Bytes, k: nat)
    ensures Concat(Outputs(NO_REPORT, Upto(archive, k))) == archive[..Reached(archive, k)]
    ensures forall p | p in Outputs(NO_REPORT, Upto(archive, k)) :: |p| <= OUTPUT_BUFFER_BYTES
  {
    hide Answer, Output, Outputs, Concat, Reached, Upto, Piece;
    UptoStep(archive, k);
    AnswerPuts(archive, k);
    PiecesJoin(archive, k);
    NothingYet(NO_REPORT, 0);
    if k == 0 {
      OneMore(NO_REPORT, [], Answer(archive, 0), 0);
      assert Upto(archive, 0) == [] + [Answer(archive, 0)];
      assert Outputs(NO_REPORT, Upto(archive, 0)) == [[]];
      ConcatSnoc<Byte>([], []);
      assert Concat<Byte>([]) == [] by {
        NothingConcats();
      }
    } else {
      UptoPuts(archive, k - 1);
      var before := Upto(archive, k - 1);
      OneMore(NO_REPORT, before, Answer(archive, k), 0);
      ConcatSnoc(Outputs(NO_REPORT, before), Piece(archive, k));
    }
  }

  lemma NothingConcats()
    ensures Concat<Byte>([]) == []
  {
  }

  lemma {:induction false} UptoIs(archive: Bytes, reports: seq<Report>)
    requires reports != [] && forall i | 0 <= i < |reports| :: reports[i] == Answer(archive, i)
    ensures reports == Upto(archive, |reports| - 1)
  {
    hide Answer, Upto;
    UptoStep(archive, |reports| - 1);
    var init := reports[..|reports| - 1];
    if init != [] {
      UptoIs(archive, init);
      assert reports == init + [reports[|reports| - 1]];
    }
  }

  lemma {:induction false} ContinuesAt(prev: Report, calls: seq<Report>, fed: nat, k: nat)
    requires AllContinue(prev, calls, fed) && k < |calls|
    ensures Continues(if k == 0 then prev else calls[k - 1], calls[k], fed)
    decreases |calls|
  {
    hide Continues;
    if k < |calls| - 1 {
      ContinuesAt(prev, calls[..|calls| - 1], fed, k);
    }
  }

  /** All answers but the last fill the buffer; the last ends the stream. */
  lemma AnswersFill(archive: Bytes, k: nat)
    requires 0 < k <= Buffers(archive)
    ensures Sane(Answer(archive, k - 1), Answer(archive, k), |STREAM|)
    ensures !Stalls(Answer(archive, k - 1), Answer(archive, k), |STREAM|)
    ensures Answer(archive, k).totalIn == |STREAM| == 19
    ensures Ended(Answer(archive, k)) <==> k == Buffers(archive)
    ensures k < Buffers(archive) ==> !Pauses(Answer(archive, k - 1), Answer(archive, k), |STREAM|)
  {
    BuffersReach(archive, k);
  }

  lemma BuffersReach(archive: Bytes, k: nat)
    requires 0 < k <= Buffers(archive)
    ensures Reached(archive, k - 1) == OUTPUT_BUFFER_BYTES * (k - 1) < |archive|
    ensures k < Buffers(archive) ==> Reached(archive, k) == OUTPUT_BUFFER_BYTES * k < |archive|
    ensures k == Buffers(archive) ==> Reached(archive, k) == |archive|
  {
  }

  /** No first part of a conforming archive is refused. */
  lemma UptoAccepted(files: seq<T.File>, archive: Bytes, k: nat)
    requires T.ValidManifest(files) && T.Conforms(multiset(files), archive) && k <= Buffers(archive)
    ensures !CheckerAfter(files, Outputs(NO_REPORT, Upto(archive, k))).Failed?
  {
    hide T.ValidManifest, T.Conforms, V.FeedAll, Answer;
    var n := Buffers(archive);
    UptoPuts(archive, n);
    WholeArchive(archive);
    var all := Outputs(NO_REPORT, Upto(archive, n));
    R.ValidateExact(files, all);
    FirstPart(archive, k, n);
    OutputsGrow(Upto(archive, k), Upto(archive, n));
    var start := V.Active(V.Start(files), 0);
    var part := Outputs(NO_REPORT, Upto(archive, k));
    var more := Outputs(Last(Upto(archive, k)), Upto(archive, n)[|Upto(archive, k)|..]);
    R.FeedAllJoins(files, start, part, more);
    if CheckerAfter(files, part).Failed? {
      R.FailedStaysFailed(files, CheckerAfter(files, part).error, more);
    }
  }

  lemma WholeArchive(archive: Bytes)
    ensures archive[..Reached(archive, Buffers(archive))] == archive
  {
  }

  lemma {:induction false} FirstPart(archive: Bytes, k: nat, n: nat)
    requires k <= n
    ensures Upto(archive, k) <= Upto(archive, n)
    decreases n
  {
    hide Answer, Upto;
    UptoStep(archive, n);
    if k < n {
      FirstPart(archive, k, n - 1);
    }
  }

  /** The scripted answers decide a feed of the whole stream: it is accepted, and everything
      was put out. */
  lemma ScriptDecides(files: seq<T.File>, archive: Bytes, reports: seq<Report>, e: Option<GzipError>)
    requires T.ValidManifest(files) && T.Conforms(multiset(files), archive) && archive != []
    requires FirstDecoded(files, reports, |STREAM|, 10, e)
    requires forall i | 0 <= i < |reports| && i <= Buffers(archive) :: reports[i] == Answer(archive, i)
    ensures e.None? && reports == Upto(archive, Buffers(archive))
  {
    hide T.ValidManifest, T.Conforms, CheckerAfter, Outputs, Judged, Reached, Answer, Upto, AllContinue;
    var n: nat, first: Option<GzipError> :| FirstSplit(files, reports, n, first, |STREAM|, 10, e);
    HeaderRound(files, archive, reports[..n], first);
    assert n == |reports[..n]| == 1;
    DataRounds(files, archive, reports, e);
  }

  lemma HeaderRound(files: seq<T.File>, archive: Bytes, calls: seq<Report>, first: Option<GzipError>)
    requires T.ValidManifest(files) && T.Conforms(multiset(files), archive)
    requires Decoded(files, [], NO_REPORT, calls, 10, |STREAM|, 10, first) && calls[0] == Answer(archive, 0)
    ensures first.None? && calls == [Answer(archive, 0)] && !Ended(Answer(archive, 0))
  {
    hide T.ValidManifest, T.Conforms, CheckerAfter, Outputs;
    var answer := Answer(archive, 0);
    if |calls| > 1 {
      ContinuesAt(NO_REPORT, calls[..|calls| - 1], 10, 0);
    }
    assert calls == [answer] && calls[..0] == [];
    UptoAccepted(files, archive, 0);
    NothingYet(NO_REPORT, 10);
    assert [] + [answer] == Upto(archive, 0);
    OneMore(NO_REPORT, [], answer, 10);
    assert Outputs(NO_REPORT, Upto(archive, 0)) == ([] + Outputs(NO_REPORT, calls[..0])) + [Output(NO_REPORT, answer)];
  }

  lemma DataRounds(files: seq<T.File>, archive: Bytes, reports: seq<Report>, e: Option<GzipError>)
    requires T.ValidManifest(files) && T.Conforms(multiset(files), archive) && archive != [] && reports != []
    requires Decoded(files, Outputs(NO_REPORT, reports[..1]), Last(reports[..1]), reports[1..], |STREAM|, |STREAM|, 10, e)
    requires forall i | 0 <= i < |reports| && i <= Buffers(archive) :: reports[i] == Answer(archive, i)
    ensures e.None? && reports == Upto(archive, Buffers(archive))
  {
    hide T.ValidManifest, T.Conforms, CheckerAfter, Outputs, Reached, Answer, Upto, AllContinue, Buffers;
    var n, last := Buffers(archive), |reports| - 1;
    assert n > 0 by {
      SomeBuffers(archive);
    }
    var calls := reports[1..];
    var init := calls[..|calls| - 1];
    if last > n {
      ContinuesAt(Last(reports[..1]), init, |STREAM|, n - 1);
      assert init[n - 1] == reports[n];
      AnswersFill(archive, n);
    } else {
      UptoIs(archive, reports);
      assert reports[..last] + [reports[last]] == reports && reports[..1] + init == reports[..last];
      OutputsJoin(NO_REPORT, reports[..1], init);
      OneMore(NO_REPORT, reports[..last], reports[last], |STREAM|);
      UptoAccepted(files, archive, last);
      AnswersFill(archive, last);
      var prev := Before(Last(reports[..1]), init);
      assert Last(calls) == reports[last] && prev == Last(reports[..last]) == reports[last - 1];
      assert Outputs(NO_REPORT, reports)
             == (Outputs(NO_REPORT, reports[..1]) + Outputs(Last(reports[..1]), init)) + [Output(prev, reports[last])];
    }
  }

  lemma SomeBuffers(archive: Bytes)
    requires archive != []
    ensures Buffers(archive) > 0
  {
  }

  lemma StreamHeader()
    ensures WholeHeader(STREAM) == Complete(10) && HeaderEnds(true, [], STREAM)
  {
    assert STREAM[..3] == [0x1f, 0x8b, 8] && STREAM[3] == 0 && |STREAM| == 19;
    assert Sections(0) == [];
    assert WholeHeader(STREAM) == Complete(10);
    assert [] + STREAM == STREAM;
    WholeAgrees(STREAM);
  }

  lemma AnswerFilled(archive: Bytes, k: nat)
    ensures Answer(archive, k).answer.Some? && |Answer(archive, k).answer.value.buffer| == OUTPUT_BUFFER_BYTES
  {
  }

  lemma {:induction false} UptoFilled(archive: Bytes, k: nat)
    ensures Filled(Upto(archive, k))
    ensures forall i | 0 <= i <= k :: Upto(archive, k)[i] == Answer(archive, i)
  {
    hide Answer, Upto;
    AnswerFilled(archive, k);
    UptoStep(archive, k);
    if k > 0 {
      UptoFilled(archive, k - 1);
    }
  }

  /** Every conforming archive of up to one MiB comes out of some stream that is accepted, with
      its exact summary. */
  method AcceptArchive(files: seq<T.File>, archive: Bytes)
    returns (v: GzipArchiveValidator, e: Option<GzipError>, r: Result<GzipSummary, GzipError>)
    requires T.ValidManifest(files) && T.Conforms(multiset(files), archive) && |archive| <= EXPANSION_SLACK_BYTES
    ensures e.None? && Concat(v.outputs) == archive
    ensures r == Ok(GzipSummary(|STREAM|, |files|, T.TotalSize(files), |archive|))
  {
    hide T.Conforms, Drink, WholeHeader, FirstDecoded, Outputs, Answer, Upto, V.Validate;
    assert StrictlySortedBy(T.PathKey, files);
    hide T.ValidManifest;
    UptoFilled(archive, Buffers(archive));
    var inflater := new Inflater(Upto(archive, Buffers(archive)));
    v := new GzipArchiveValidator(files, inflater);
    StreamHeader();
    assert [] + STREAM == STREAM;
    e := v.Feed(STREAM);
    ArchiveIsLong(files, archive);
    ScriptDecides(files, archive, v.decoder.reports, e);
    UptoPuts(archive, Buffers(archive));
    WholeArchive(archive);
    R.ValidateExact(files, v.outputs);
    AnswersFill(archive, Buffers(archive));
    r := v.Finish();
  }

  lemma ArchiveIsLong(files: seq<T.File>, archive: Bytes)
    requires T.Conforms(multiset(files), archive)
    ensures archive != [] && Buffers(archive) > 0
  {
    hide T.MemberFor;
  }
}
