/** The sealing workflow over arbitrary ports: checked reads, counted writes, the run up to
    publication, and the guard that cleans up on every exit, unwinding included. */
module Sealing {
  import opened Common
  import opened SealPorts
  import opened SealTrace

  // ----- What a run guarantees about its trace -----

  /** Only capabilities and stream events: nothing was completed or published yet. */
  ghost predicate Quiet(t: Trace) {
    forall i | 0 <= i < |t| :: t[i].AskedCapabilities? || StreamEvent(t[i])
  }

  predicate ValidSummary(s: CheckCounts, source: nat) {
    && s.sourceBytes == source
    && 1 <= s.files <= 4096 && 1 <= s.expandedBytes <= 75497472
    && s.payloadBytes <= 67108864 && s.payloadBytes <= s.expandedBytes
  }

  /** Everything the two streams have counted and latched so far. */
  ghost predicate Streaming(t: Trace, count: nat, eof: bool, written: nat, error: Option<SealFailure>) {
    && Quiet(t) && CheckedFirst(t)
    && count == |Concat(HandedOver(t))|
    && written <= |Staged(t)|
    && (eof ==> AtEof(t))
    && (error.None? ==>
          && written == |Staged(t)| && HandedOver(t) == Accepted(t) == Offered(t)
          && ReadBytes(t) == Concat(Accepted(t)) && (AtEof(t) ==> eof))
  }

  /** The last answer of a port is why the run cannot go on: it contradicts what was counted,
      or it says no. */
  ghost predicate Contradicts(t: Trace) {
    t != [] &&
    var e, before := t[|t| - 1], t[..|t| - 1];
    || e == AskedCapabilities(Done(false))
    || (e.CipherReturned? && e.report.Done?
        && !(AtEof(before) && 0 < |ReadBytes(before)| == e.report.value.inputBytes
             && 0 < |Staged(before)| == e.report.value.outputBytes))
    || (e.CheckFinished? && e.summary.Done? && !ValidSummary(e.summary.value, |ReadBytes(before)|))
    || (e.SourceCompleted? && e.total.Done? && e.total.value != |ReadBytes(before)|)
    || (e.Publishing? && e.published.Done? && e.published.value != OutcomePublished)
  }

  /** The stream part `pre` and the two reports agree on every count. */
  ghost predicate Justified(pre: Trace, report: CipherCounts, summary: CheckCounts, counts: SealedCounts) {
    && Quiet(pre) && CheckedFirst(pre) && AtEof(pre)
    && HandedOver(pre) == Accepted(pre) == Offered(pre) && ReadBytes(pre) == Concat(Accepted(pre))
    && 0 < counts.sourceBytes == |ReadBytes(pre)| == report.inputBytes
    && 0 < counts.ciphertextBytes == |Staged(pre)| == report.outputBytes
    && ValidSummary(summary, counts.sourceBytes)
    && counts.expandedBytes == summary.expandedBytes
    && counts.payloadBytes == summary.payloadBytes && counts.files == summary.files
  }

  /** End of input, checker finish, producer completion and flush all succeeded, in this
      order and with equal counts, and nothing happened since. */
  ghost predicate Ready(t: Trace, counts: SealedCounts) {
    exists pre, report, summary ::
      && Justified(pre, report, summary, counts)
      && t == pre + [CipherReturned(Done(report)), CheckFinished(Done(summary)),
                     SourceCompleted(Done(counts.sourceBytes)), FlushedStage(Done(Nothing))]
  }

  ghost predicate Cleanup(e: Event) {
    e.CancelledSource? || e.AbortedStage?
  }

  ghost predicate Confirmed(t: Trace) {
    exists i | 0 <= i < |t| :: t[i].SourceCompleted? && t[i].total.Done?
  }

  /** Before cleanup: at most one publication, as the last event, and only when ready. */
  ghost predicate SafeBody(t: Trace) {
    forall i | 0 <= i < |t| ::
      && !Cleanup(t[i])
      && (t[i].Publishing? ==> i == |t| - 1 && Ready(t[..i], t[i].counts))
  }

  datatype Publication = NotAttempted | NotPublished | Published | PublicationUnknown

  function PublicationOf(t: Trace): Publication {
    if t == [] || !t[|t| - 1].Publishing? then NotAttempted
    else match t[|t| - 1].published
      case Done(OutcomePublished) => Published
      case Done(OutcomeNotPublished) => NotPublished
      case _ => PublicationUnknown
  }

  // ----- Streams -----

  /** The piece that a read gave to the cipher, if any. */
  function Received(r: Answer<Bytes>): seq<Bytes> {
    if r.Done? && r.value != [] then [r.value] else []
  }

  class CheckedRead {
    const ports: Ports
    const budget: Budget
    const limit: nat
    var count: nat
    var eof: bool

    constructor (ports: Ports, budget: Budget, limit: nat)
      ensures this.ports == ports && this.budget == budget && this.limit == limit && count == 0 && !eof
    {
      this.ports, this.budget, this.limit := ports, budget, limit;
      count, eof := 0, false;
    }

    /** The stream and its budget lie outside of what the ports may change. */
    ghost predicate Apart()
      reads this, ports, ports.repr
    {
      ports.Valid() && this !in ports.repr && budget !in ports.repr
    }

    /** One read by the cipher into a buffer of `capacity` bytes. What it receives is the next
        piece that the trace says was handed over. */
    method Read(capacity: nat, ghost written: nat) returns (r: Answer<Bytes>)
      requires Apart() && budget.Valid() && count <= limit
      requires Streaming(ports.trace, count, eof, written, budget.error)
      modifies this, ports.repr, budget
      ensures Apart() && budget.Valid() && count <= limit
      ensures Quiet(ports.trace) && CheckedFirst(ports.trace)
      ensures !r.Panicked? ==> Streaming(ports.trace, count, eof, written, budget.error)
      ensures r.Done? ==> |r.value| <= capacity
      ensures HandedOver(ports.trace) == old(HandedOver(ports.trace)) + Received(r)
      ensures Staged(ports.trace) == old(Staged(ports.trace))
      ensures old(budget.error).Some? ==>
                budget.error == old(budget.error) && ports.trace == old(ports.trace) && r == Failed
      ensures r == Failed ==> budget.error.Some?
    {
      hide Quiet, CheckedFirst, ReadBytes, Accepted, Offered, HandedOver, Staged, AtEof, Ports.Valid;
      var late := budget.Check();
      if late.Some? {
        return Failed;
      }
      if capacity == 0 || eof {
        return Done([]);
      }
      if count == limit {
        r := Probe(written);
        return;
      }
      var size := Min(Min(capacity, CHUNK), limit - count);
      var before := ports.trace;
      var got := ports.Read(size);
      ReadStreams(before, size, got, count, eof, written);
      if got.Panicked? {
        return Panicked;
      }
      late := budget.After(got.Failed?, SourceRead);
      if late.Some? {
        return Failed;
      }
      if got.value.0 > size {
        var e := budget.Fail(InvalidIoCount);
        return Failed;
      }
      if got.value.0 == 0 {
        eof := true;
        return Done([]);
      }
      // The counter stays below the limit, so the overflow check of the program cannot fire.
      var bytes := got.value.1[..got.value.0];
      r := Check(before, size, got, bytes, written);
    }

    /** At the exact limit one more byte tells the end of input from an oversized source. */
    method Probe(ghost written: nat) returns (r: Answer<Bytes>)
      requires Apart() && budget.Valid() && count == limit && !eof && budget.error.None?
      requires Streaming(ports.trace, count, eof, written, budget.error)
      modifies this, ports.repr, budget
      ensures Apart() && budget.Valid() && count == limit
      ensures Quiet(ports.trace) && CheckedFirst(ports.trace)
      ensures !r.Panicked? ==> Streaming(ports.trace, count, eof, written, budget.error)
      ensures r.Done? ==> r.value == []
      ensures HandedOver(ports.trace) == old(HandedOver(ports.trace)) + Received(r)
      ensures Staged(ports.trace) == old(Staged(ports.trace))
      ensures r == Failed ==> budget.error.Some?
    {
      hide Quiet, CheckedFirst, ReadBytes, Accepted, Offered, HandedOver, Staged, AtEof, Ports.Valid;
      var before := ports.trace;
      var got := ports.Read(1);
      ReadStreams(before, 1, got, count, eof, written);
      if got.Panicked? {
        return Panicked;
      }
      var late := budget.After(got.Failed?, SourceRead);
      if late.Some? {
        return Failed;
      }
      if got.value.0 != 0 {
        var e := budget.Fail(if got.value.0 > 1 then InvalidIoCount else SourceLimit);
        return Failed;
      }
      eof := true;
      return Done([]);
    }

    /** Bytes go to the checker first and reach the cipher only once it accepted them. */
    method Check(before: Trace, size: nat, got: Answer<(nat, Bytes)>, bytes: Bytes, ghost written: nat)
      returns (r: Answer<Bytes>)
      requires Apart() && budget.Valid() && budget.error.None? && count + |bytes| <= limit && !eof
      requires ports.trace == Append(before, ReadSource(size, got))
      requires Streaming(before, count, eof, written, None)
      requires got.Done? && |got.value.1| == size && 0 < got.value.0 <= size <= CHUNK
      requires bytes == got.value.1[..got.value.0]
      modifies this, ports.repr, budget
      ensures Apart() && budget.Valid() && count <= limit
      ensures Quiet(ports.trace) && CheckedFirst(ports.trace)
      ensures !r.Panicked? ==> Streaming(ports.trace, count, eof, written, budget.error)
      ensures r.Done? ==> r.value == bytes
      ensures HandedOver(ports.trace) == HandedOver(before) + Received(r) && Staged(ports.trace) == Staged(before)
      ensures r == Failed ==> budget.error.Some?
    {
      hide Quiet, CheckedFirst, ReadBytes, Accepted, Offered, HandedOver, Staged, AtEof, Ports.Valid;
      var checked := ports.Feed(bytes);
      FeedStreams(before, size, got, bytes, checked, count, written);
      if checked.Panicked? {
        return Panicked;
      }
      var late := budget.After(checked.Failed?, SealFailure.Check);
      if late.Some? {
        return Failed;
      }
      assert checked.Done? && checked.value.Nothing?;
      ports.Hand(bytes);
      HandStreams(before, size, got, bytes, count, written);
      count := count + |bytes|;
      return Done(bytes);
    }
  }

  lemma QuietAppend(t: Trace, e: Event)
    requires Quiet(t) && StreamEvent(e)
    ensures Quiet(Append(t, e))
  {
    forall i | 0 <= i < |t|
      ensures t[i] == Append(t, e)[i]
    {
      assert Append(t, e)[..|t|][i] == t[i];
    }
  }

  lemma CheckedFirstAppend(t: Trace, e: Event)
    requires CheckedFirst(t)
    requires e.Handed? ==> t != [] && t[|t| - 1] == FedCheck(e.bytes, Done(Nothing))
    ensures CheckedFirst(Append(t, e))
  {
    forall i | 0 <= i < |t|
      ensures t[i] == Append(t, e)[i]
    {
      assert Append(t, e)[..|t|][i] == t[i];
    }
  }

  /** After any source read: still consistent if nothing was returned, and otherwise
      consistent once an error is latched. */
  lemma ReadStreams(t: Trace, size: nat, got: Answer<(nat, Bytes)>, count: nat, eof: bool, written: nat)
    requires Streaming(t, count, eof, written, None) && !eof
    ensures
      var u := Append(t, ReadSource(size, got));
      && Quiet(u) && CheckedFirst(u)
      && (forall e :: Streaming(u, count, false, written, Some(e)))
      && (got.Failed? || got.Panicked? ==> Streaming(u, count, false, written, None))
      && (got.Done? && got.value.0 == 0 && size > 0 ==> Streaming(u, count, true, written, None))
      && HandedOver(u) == HandedOver(t) && Staged(u) == Staged(t)
  {
    var e := ReadSource(size, got);
    AppendSays(t, e);
    QuietAppend(t, e);
    CheckedFirstAppend(t, e);
    if got.Done? && got.value.0 == 0 {
      assert ReadOf(e) == [];
    }
    assert ReadBytes(t) + [] == ReadBytes(t);
    assert Accepted(t) + [] == Accepted(t) && Offered(t) + [] == Offered(t) && HandedOver(t) + [] == HandedOver(t) && Staged(t) + [] == Staged(t);
  }

  lemma FeedStreams(t: Trace, size: nat, got: Answer<(nat, Bytes)>, bytes: Bytes, checked: Answer<Nothing>,
                    count: nat, written: nat)
    requires Streaming(t, count, false, written, None) && |bytes| <= CHUNK
    ensures
      var u := Append(Append(t, ReadSource(size, got)), FedCheck(bytes, checked));
      && Quiet(u) && CheckedFirst(u) && (forall e :: Streaming(u, count, false, written, Some(e)))
      && HandedOver(u) == HandedOver(t) && Staged(u) == Staged(t)
  {
    var a, b := ReadSource(size, got), FedCheck(bytes, checked);
    var m := Append(t, a);
    AppendSays(t, a);
    QuietAppend(t, a);
    CheckedFirstAppend(t, a);
    AppendSays(m, b);
    QuietAppend(m, b);
    CheckedFirstAppend(m, b);
    assert HandedOver(t) + [] == HandedOver(t) && Staged(t) + [] == Staged(t);
  }

  lemma HandStreams(t: Trace, size: nat, got: Answer<(nat, Bytes)>, bytes: Bytes, count: nat, written: nat)
    requires Streaming(t, count, false, written, None)
    requires got.Done? && |got.value.1| == size && 0 < got.value.0 <= size <= CHUNK && bytes == got.value.1[..got.value.0]
    ensures
      var u := Append(Append(Append(t, ReadSource(size, got)), FedCheck(bytes, Done(Nothing))), Handed(bytes));
      && Streaming(u, count + |bytes|, false, written, None)
      && HandedOver(u) == HandedOver(t) + [bytes] && Staged(u) == Staged(t)
  {
    var a, b, c := ReadSource(size, got), FedCheck(bytes, Done(Nothing)), Handed(bytes);
    var m, n := Append(t, a), Append(Append(t, a), b);
    AppendSays(t, a);
    QuietAppend(t, a);
    CheckedFirstAppend(t, a);
    AppendSays(m, b);
    QuietAppend(m, b);
    CheckedFirstAppend(m, b);
    AppendSays(n, c);
    QuietAppend(n, c);
    CheckedFirstAppend(n, c);
    assert ReadOf(a) == bytes;
    ConcatSnoc(HandedOver(t), bytes);
    assert forall s: seq<Bytes> :: s + [] == s;
    assert forall s: Bytes :: s + [] == s;
  }

  class CountedWrite {
    const ports: Ports
    const budget: Budget
    const limit: nat
    var count: nat

    constructor (ports: Ports, budget: Budget, limit: nat)
      ensures this.ports == ports && this.budget == budget && this.limit == limit && count == 0
    {
      this.ports, this.budget, this.limit := ports, budget, limit;
      count := 0;
    }

    /** The stream and its budget lie outside of what the ports may change. */
    ghost predicate Apart()
      reads this, ports, ports.repr
    {
      ports.Valid() && this !in ports.repr && budget !in ports.repr
    }

    /** One write by the cipher; only what the stage took is counted. */
    method Write(input: Bytes, ghost read: nat, ghost eof: bool) returns (r: Answer<nat>)
      requires Apart() && budget.Valid() && count <= limit
      requires Streaming(ports.trace, read, eof, count, budget.error)
      modifies this, ports.repr, budget
      ensures Apart() && budget.Valid() && count <= limit
      ensures Quiet(ports.trace) && CheckedFirst(ports.trace)
      ensures !r.Panicked? ==> Streaming(ports.trace, read, eof, count, budget.error)
      ensures count == old(count) + if r.Done? then r.value else 0
      ensures r.Done? ==>
                r.value <= |input| && Staged(ports.trace) == old(Staged(ports.trace)) + input[..r.value]
      ensures r.Done? && r.value == 0 ==> input == []
      ensures HandedOver(ports.trace) == old(HandedOver(ports.trace))
      ensures old(budget.error).Some? ==>
                budget.error == old(budget.error) && ports.trace == old(ports.trace) && r == Failed
      ensures r == Failed ==> budget.error.Some?
    {
      hide Quiet, CheckedFirst, ReadBytes, Accepted, Offered, HandedOver, Staged, AtEof, Ports.Valid;
      var late := budget.Check();
      if late.Some? {
        return Failed;
      }
      if input == [] {
        return Done(0);
      }
      if count == limit {
        var e := budget.Fail(CiphertextLimit);
        return Failed;
      }
      var size := Min(Min(|input|, CHUNK), limit - count);
      ghost var before := ports.trace;
      var taken := ports.Write(input[..size]);
      WriteStreams(before, input[..size], taken, read, eof, count);
      if taken.Panicked? {
        return Panicked;
      }
      late := budget.After(taken.Failed?, StageWrite);
      if late.Some? {
        return Failed;
      }
      if taken.value > size {
        var e := budget.Fail(InvalidIoCount);
        return Failed;
      }
      if taken.value == 0 {
        var e := budget.Fail(ZeroWrite);
        return Failed;
      }
      count := count + taken.value;
      return Done(taken.value);
    }

    method Flush(ghost read: nat, ghost eof: bool) returns (r: Answer<Nothing>)
      requires Apart() && budget.Valid() && count <= limit
      requires Streaming(ports.trace, read, eof, count, budget.error)
      modifies ports.repr, budget
      ensures Apart() && budget.Valid()
      ensures Quiet(ports.trace) && CheckedFirst(ports.trace)
      ensures !r.Panicked? ==> Streaming(ports.trace, read, eof, count, budget.error)
      ensures HandedOver(ports.trace) == old(HandedOver(ports.trace)) && Staged(ports.trace) == old(Staged(ports.trace))
      ensures old(budget.error).Some? ==> budget.error == old(budget.error)
      ensures r == Failed ==> budget.error.Some?
    {
      hide Quiet, CheckedFirst, ReadBytes, Accepted, Offered, HandedOver, Staged, AtEof, Ports.Valid;
      var late := budget.Check();
      if late.Some? {
        return Failed;
      }
      ghost var before := ports.trace;
      var flushed := ports.Flush();
      FlushStreams(before, flushed, read, eof, count);
      if flushed.Panicked? {
        return Panicked;
      }
      late := budget.After(flushed.Failed?, StageFlush);
      return if late.Some? then Failed else Done(Nothing);
    }
  }

  lemma WriteStreams(t: Trace, offered: Bytes, taken: Answer<nat>, read: nat, eof: bool, count: nat)
    requires Streaming(t, read, eof, count, None)
    ensures
      var u := Append(t, WroteStage(offered, taken));
      var n := if taken.Done? && taken.value <= |offered| then taken.value else 0;
      && Quiet(u) && CheckedFirst(u)
      && Streaming(u, read, eof, count + n, None)
      && Staged(u) == Staged(t) + offered[..n] && HandedOver(u) == HandedOver(t)
      && forall e :: Streaming(u, read, eof, count, Some(e))
  {
    var e := WroteStage(offered, taken);
    AppendSays(t, e);
    QuietAppend(t, e);
    CheckedFirstAppend(t, e);
    assert ReadBytes(t) + [] == ReadBytes(t);
    assert Accepted(t) + [] == Accepted(t) && Offered(t) + [] == Offered(t) && HandedOver(t) + [] == HandedOver(t);
  }

  lemma FlushStreams(t: Trace, flushed: Answer<Nothing>, read: nat, eof: bool, count: nat)
    requires Streaming(t, read, eof, count, None)
    ensures
      var u := Append(t, FlushedStage(flushed));
      && Quiet(u) && CheckedFirst(u)
      && Streaming(u, read, eof, count, None)
      && (forall e :: Streaming(u, read, eof, count, Some(e)))
      && HandedOver(u) == HandedOver(t) && Staged(u) == Staged(t)
  {
    var e := FlushedStage(flushed);
    AppendSays(t, e);
    QuietAppend(t, e);
    CheckedFirstAppend(t, e);
    assert ReadBytes(t) + [] == ReadBytes(t) && Staged(t) + [] == Staged(t);
    assert Accepted(t) + [] == Accepted(t) && Offered(t) + [] == Offered(t) && HandedOver(t) + [] == HandedOver(t);
  }

  /** Any cipher at all: some number of reads, writes and flushes in any order, and then
      any report. A panic of a port unwinds through it. The pieces it received are exactly
      those the trace says were handed over, and without an error the bytes that its writes
      were told to be taken are exactly those the trace says were staged. */
  method Encrypt(input: CheckedRead, output: CountedWrite)
    returns (r: Answer<CipherCounts>, ghost received: seq<Bytes>, ghost sent: Bytes)
    requires input.ports == output.ports && input.budget == output.budget && input.budget.Valid()
    requires input.Apart() && output.Apart()
    requires input.count <= input.limit && output.count <= output.limit
    requires Streaming(input.ports.trace, input.count, input.eof, output.count, input.budget.error)
    modifies input, output, input.ports.repr, input.budget
    ensures input.Apart() && input.budget.Valid() && input.count <= input.limit && output.count <= output.limit
    ensures Quiet(input.ports.trace) && CheckedFirst(input.ports.trace)
    ensures !r.Panicked? ==>
              Streaming(input.ports.trace, input.count, input.eof, output.count, input.budget.error)
    ensures HandedOver(input.ports.trace) == old(HandedOver(input.ports.trace)) + received
    ensures !r.Panicked? && input.budget.error.None? ==>
              Staged(input.ports.trace) == old(Staged(input.ports.trace)) + sent
  {
    hide Streaming, HandedOver, Staged, Ports.Valid;
    received, sent := [], [];
    var steps: nat := *;
    assert Quiet(input.ports.trace) && CheckedFirst(input.ports.trace) by {
      StreamingIsQuiet(input.ports.trace, input.count, input.eof, output.count, input.budget.error);
    }
    while steps > 0
      invariant input.Apart() && output.Apart()
      invariant input.budget.Valid() && input.count <= input.limit && output.count <= output.limit
      invariant Quiet(input.ports.trace) && CheckedFirst(input.ports.trace)
      invariant Streaming(input.ports.trace, input.count, input.eof, output.count, input.budget.error)
      invariant HandedOver(input.ports.trace) == old(HandedOver(input.ports.trace)) + received
      invariant input.budget.error.None? ==>
                  Staged(input.ports.trace) == old(Staged(input.ports.trace)) + sent
    {
      var kind: nat := *;
      if kind == 0 {
        var capacity: nat := *;
        var bytes := input.Read(capacity, output.count);
        received := received + Received(bytes);
        if bytes.Panicked? {
          return Panicked, received, sent;
        }
      } else if kind == 1 {
        var bytes: Bytes := *;
        var taken := output.Write(bytes, input.count, input.eof);
        sent := sent + if taken.Done? then bytes[..taken.value] else [];
        if taken.Panicked? {
          return Panicked, received, sent;
        }
      } else {
        var flushed := output.Flush(input.count, input.eof);
        if flushed.Panicked? {
          return Panicked, received, sent;
        }
      }
      steps := steps - 1;
    }
    var outcome: nat, a: nat, b: nat := *, *, *;
    r := if outcome == 0 then Done(CipherCounts(a, b)) else if outcome == 1 then Failed else Panicked;
  }

  lemma StreamingIsQuiet(t: Trace, count: nat, eof: bool, written: nat, error: Option<SealFailure>)
    requires Streaming(t, count, eof, written, error)
    ensures Quiet(t) && CheckedFirst(t)
  {
  }
}
