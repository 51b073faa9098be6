/** The ports of the sealing workflow: any ports at all, which may answer anything, fail or
    panic, or the program's own ports for a capture. Every call is recorded in one trace,
    which is what the theorems speak of. */
module SealPorts {
  import opened Common
  import opened SealTrace
  import C = CapturePorts
  import A = ArchiveCheck

  datatype Plug = Anything | Capture(source: C.Source, check: A.Check, stage: C.Stage)

  class Ports {
    const plug: Plug
    /** Everything a port call may change. */
    ghost const repr: set<object>
    var trace: Trace

    ghost predicate Valid()
      reads this, repr
    {
      && this in repr
      && (plug.Capture? ==>
            var s, c, g := plug.source, plug.check, plug.stage;
            && s in repr && s.env in repr && c in repr && c.tar in repr && c.tar.header in repr
            && g in repr && g.memory in repr && g.records in repr && g.records.io in repr
            && s.env == c.env == g.records.env
            && s.Valid() && c.Valid() && g.Valid()
            && AtSource(trace) && AtCheck(trace) && AtMemory(trace) && AtStore(trace))
    }

    constructor ()
      ensures Valid() && trace == [] && plug == Anything && repr == {this}
    {
      plug, trace := Anything, [];
      repr := {this};
    }

    constructor ForCapture(source: C.Source, check: A.Check, stage: C.Stage)
      requires source.Valid() && check.Valid() && stage.Valid()
      requires source.data == source.whole && source.position == 0
      requires check.pieces == [] && stage.memory.bytes == [] && stage.first == C.WorldOf(stage.records)
      requires source.env == check.env == stage.records.env
      ensures Valid() && trace == [] && plug == Capture(source, check, stage)
      ensures repr == {this, source, source.env, check, check.tar, check.tar.header, stage, stage.memory,
                       stage.records, stage.records.io, stage.records.env}
    {
      plug, trace := Capture(source, check, stage), [];
      repr := {this, source, source.env, check, check.tar, check.tar.header, stage, stage.memory,
               stage.records, stage.records.io, stage.records.env};
    }

    ghost predicate AtSource(t: Trace)
      requires plug.Capture?
      reads plug.source
    {
      C.SourceTells(t, plug.source.whole, plug.source.data, plug.source.position)
    }

    ghost predicate AtCheck(t: Trace)
      requires plug.Capture?
      reads plug.check
    {
      C.CheckTells(t, plug.check.binding, plug.check.gzip, plug.check.pieces)
    }

    ghost predicate AtMemory(t: Trace)
      requires plug.Capture?
      reads plug.stage.memory
    {
      C.MemoryTells(t, plug.stage.memory.bytes)
    }

    ghost predicate AtStore(t: Trace)
      requires plug.Capture? && plug.stage.Valid()
      reads plug.stage, plug.stage.memory, plug.stage.records, plug.stage.records.io
    {
      var g := plug.stage;
      C.StoreMoves(t, g.records.digest, g.records.store, g.binding, g.first, C.WorldOf(g.records))
    }

    /** An event says nothing new about the parts of a capture that it does not concern. */
    lemma Silent(e: Event)
      requires plug.Capture? && plug.source.Valid() && plug.check.Valid() && plug.stage.Valid()
      requires !e.ReadSource? && !e.CancelledSource? ==> AtSource(trace)
      requires !e.FedCheck? && !e.CheckFinished? ==> AtCheck(trace)
      requires !e.WroteStage? && !e.AbortedStage? ==> AtMemory(trace)
      requires !e.Publishing? ==> AtStore(trace)
      ensures !e.ReadSource? && !e.CancelledSource? ==> AtSource(Append(trace, e))
      ensures !e.FedCheck? && !e.CheckFinished? ==> AtCheck(Append(trace, e))
      ensures !e.WroteStage? && !e.AbortedStage? ==> AtMemory(Append(trace, e))
      ensures !e.Publishing? ==> AtStore(Append(trace, e))
    {
      var s, c, g := plug.source, plug.check, plug.stage;
      hide C.SourceTells, C.CheckTells, C.MemoryTells, C.StoreMoves, C.WorldOf, Append;
      hide C.Source.Valid, C.Stage.Valid, A.Check.Valid;
      if !e.ReadSource? && !e.CancelledSource? {
        C.SourceSilent(trace, e, s.whole, s.data, s.position);
      }
      if !e.FedCheck? && !e.CheckFinished? {
        C.CheckMoves(trace, e, c.binding, c.gzip, c.pieces, c.pieces);
      }
      if !e.WroteStage? && !e.AbortedStage? {
        C.MemoryTakes(trace, e, g.memory.bytes);
      }
      if !e.Publishing? {
        C.StoreStays(trace, e, g.records.digest, g.records.store, g.binding, g.first, C.WorldOf(g.records));
      }
    }

    /** The program's stage has every capability. */
    method Capabilities() returns (r: Answer<bool>)
      requires Valid()
      modifies repr
      ensures Valid() && trace == Append(old(trace), AskedCapabilities(r)) && r != Failed
    {
      hide C.SourceTells, C.CheckTells, C.MemoryTells, C.StoreMoves, C.WorldOf, Append;
      hide C.Source.Valid, C.Stage.Valid, A.Check.Valid;
      r := Done(true);
      if plug.Anything? {
        var supported := *;
        var panics := *;
        r := if panics then Panicked else Done(supported);
      }
      if plug.Capture? {
        Silent(AskedCapabilities(r));
      }
      trace := Append(trace, AskedCapabilities(r));
    }

    /** Fills a buffer of `size` bytes and reports any count at all. */
    method Read(size: nat) returns (r: Answer<(nat, Bytes)>)
      requires Valid()
      modifies repr
      ensures Valid() && trace == Append(old(trace), ReadSource(size, r))
      ensures r.Done? ==> |r.value.1| == size
    {
      hide C.SourceTells, C.CheckTells, C.MemoryTells, C.StoreMoves, C.WorldOf, Append;
      hide C.Source.Valid, C.Stage.Valid, A.Check.Valid;
      if plug.Anything? {
        var kind: nat := *;
        var count: nat := *;
        var buffer: Bytes := *;
        buffer := if |buffer| == size then buffer else Zeros(size);
        r := if kind == 0 then Done((count, buffer)) else if kind == 1 then Failed else Panicked;
      } else {
        ghost var s, p := plug.source, plug.source.position;
        r := plug.source.Read(size);
        C.SourceReads(trace, size, r, s.whole, s.data, p, s.position);
        Silent(ReadSource(size, r));
      }
      trace := Append(trace, ReadSource(size, r));
    }

    method Feed(bytes: Bytes) returns (r: Answer<Nothing>)
      requires Valid()
      modifies repr
      ensures Valid() && trace == Append(old(trace), FedCheck(bytes, r))
    {
      hide C.SourceTells, C.CheckTells, C.MemoryTells, C.StoreMoves, C.WorldOf, Append;
      hide C.Source.Valid, C.Stage.Valid, A.Check.Valid;
      if plug.Anything? {
        var kind: nat := *;
        r := if kind == 0 then Done(Nothing) else if kind == 1 then Failed else Panicked;
      } else {
        ghost var c, p := plug.check, plug.check.pieces;
        r := plug.check.Feed(bytes);
        C.CheckMoves(trace, FedCheck(bytes, r), c.binding, c.gzip, p, c.pieces);
        Silent(FedCheck(bytes, r));
      }
      trace := Append(trace, FedCheck(bytes, r));
    }

    method Hand(bytes: Bytes)
      requires Valid()
      modifies repr
      ensures Valid() && trace == Append(old(trace), Handed(bytes))
    {
      hide C.SourceTells, C.CheckTells, C.MemoryTells, C.StoreMoves, C.WorldOf, Append;
      hide C.Source.Valid, C.Stage.Valid, A.Check.Valid;
      if plug.Capture? {
        Silent(Handed(bytes));
      }
      trace := Append(trace, Handed(bytes));
    }

    method Write(bytes: Bytes) returns (r: Answer<nat>)
      requires Valid()
      modifies repr
      ensures Valid() && trace == Append(old(trace), WroteStage(bytes, r))
    {
      hide C.SourceTells, C.CheckTells, C.MemoryTells, C.StoreMoves, C.WorldOf, Append;
      hide C.Source.Valid, C.Stage.Valid, A.Check.Valid;
      if plug.Anything? {
        var kind: nat := *;
        var count: nat := *;
        r := if kind == 0 then Done(count) else if kind == 1 then Failed else Panicked;
      } else {
        ghost var m := plug.stage.memory.bytes;
        r := plug.stage.Write(bytes);
        assert bytes[..|bytes|] == bytes;
        C.MemoryTakes(trace, WroteStage(bytes, r), m);
        Silent(WroteStage(bytes, r));
      }
      trace := Append(trace, WroteStage(bytes, r));
    }

    method Flush() returns (r: Answer<Nothing>)
      requires Valid()
      modifies repr
      ensures Valid() && trace == Append(old(trace), FlushedStage(r))
    {
      hide C.SourceTells, C.CheckTells, C.MemoryTells, C.StoreMoves, C.WorldOf, Append;
      hide C.Source.Valid, C.Stage.Valid, A.Check.Valid;
      if plug.Anything? {
        var kind: nat := *;
        r := if kind == 0 then Done(Nothing) else if kind == 1 then Failed else Panicked;
      } else {
        r := plug.stage.Flush();
      }
      if plug.Capture? {
        Silent(FlushedStage(r));
      }
      trace := Append(trace, FlushedStage(r));
    }

    /** Records how the cipher's `encrypt` call came back. */
    method Returned(r: Answer<CipherCounts>)
      requires Valid()
      modifies repr
      ensures Valid() && trace == Append(old(trace), CipherReturned(r))
    {
      hide C.SourceTells, C.CheckTells, C.MemoryTells, C.StoreMoves, C.WorldOf, Append;
      hide C.Source.Valid, C.Stage.Valid, A.Check.Valid;
      if plug.Capture? {
        Silent(CipherReturned(r));
      }
      trace := Append(trace, CipherReturned(r));
    }

    method Finish() returns (r: Answer<CheckCounts>)
      requires Valid()
      modifies repr
      ensures Valid() && trace == Append(old(trace), CheckFinished(r))
    {
      hide C.SourceTells, C.CheckTells, C.MemoryTells, C.StoreMoves, C.WorldOf, Append;
      hide C.Source.Valid, C.Stage.Valid, A.Check.Valid;
      if plug.Anything? {
        var kind: nat := *;
        var a: nat, b: nat, c: nat, d: nat := *, *, *, *;
        r := if kind == 0 then Done(CheckCounts(a, b, c, d)) else if kind == 1 then Failed else Panicked;
      } else {
        ghost var c := plug.check;
        r := plug.check.Finish();
        C.CheckMoves(trace, CheckFinished(r), c.binding, c.gzip, c.pieces, c.pieces);
        Silent(CheckFinished(r));
      }
      trace := Append(trace, CheckFinished(r));
    }

    method Complete() returns (r: Answer<nat>)
      requires Valid()
      modifies repr
      ensures Valid() && trace == Append(old(trace), SourceCompleted(r))
    {
      hide C.SourceTells, C.CheckTells, C.MemoryTells, C.StoreMoves, C.WorldOf, Append;
      hide C.Source.Valid, C.Stage.Valid, A.Check.Valid;
      if plug.Anything? {
        var kind: nat := *;
        var count: nat := *;
        r := if kind == 0 then Done(count) else if kind == 1 then Failed else Panicked;
      } else {
        r := plug.source.Complete();
      }
      if plug.Capture? {
        Silent(SourceCompleted(r));
      }
      trace := Append(trace, SourceCompleted(r));
    }

    method Publish(counts: SealedCounts) returns (r: Answer<PublishOutcome>)
      requires Valid()
      modifies repr
      ensures Valid() && trace == Append(old(trace), Publishing(counts, r)) && r != Failed
    {
      hide C.SourceTells, C.CheckTells, C.MemoryTells, C.StoreMoves, C.WorldOf, Append;
      hide C.Source.Valid, A.Check.Valid;
      if plug.Anything? {
        var kind: nat := *;
        r := if kind == 0 then Done(OutcomePublished) else if kind == 1 then Done(OutcomeNotPublished)
             else if kind == 2 then Done(OutcomeUnknown) else Panicked;
      } else {
        var g := plug.stage;
        ghost var w := C.WorldOf(g.records);
        var outcome := g.Publish(counts);
        r := Done(outcome);
        C.PublishMoves(trace, counts, r, g.records.digest, g.records.store, g.binding, g.memory.bytes, g.first,
                       w, C.WorldOf(g.records));
        Silent(Publishing(counts, r));
      }
      trace := Append(trace, Publishing(counts, r));
    }

    /** Cleanup calls must not panic. */
    method Cancel() returns (r: CleanupOutcome)
      requires Valid()
      modifies repr
      ensures Valid() && trace == Append(old(trace), CancelledSource(r))
    {
      hide C.SourceTells, C.CheckTells, C.MemoryTells, C.StoreMoves, C.WorldOf, Append;
      hide C.Source.Valid, C.Stage.Valid, A.Check.Valid;
      if plug.Anything? {
        var clean := *;
        r := if clean then OutcomeCleaned else CleanupUnknown;
      } else {
        r := plug.source.Cancel();
        C.SourceEnds(trace, CancelledSource(r), plug.source.whole, plug.source.data, plug.source.position);
        Silent(CancelledSource(r));
      }
      trace := Append(trace, CancelledSource(r));
    }

    method Abort() returns (r: CleanupOutcome)
      requires Valid()
      modifies repr
      ensures Valid() && trace == Append(old(trace), AbortedStage(r))
    {
      hide C.SourceTells, C.CheckTells, C.MemoryTells, C.StoreMoves, C.WorldOf, Append;
      hide C.Source.Valid, C.Stage.Valid, A.Check.Valid;
      if plug.Anything? {
        var clean := *;
        r := if clean then OutcomeCleaned else CleanupUnknown;
      } else {
        r := plug.stage.Abort();
        C.MemoryEnds(trace, AbortedStage(r), plug.stage.memory.bytes);
        Silent(AbortedStage(r));
      }
      trace := Append(trace, AbortedStage(r));
    }
  }

  /** The deadline with its first-error latch; the clock may even run backwards. */
  class Budget {
    const start: nat
    const timeout: nat
    var last: nat
    var error: Option<SealFailure>

    ghost predicate Valid()
      reads this
    {
      start <= last
    }

    constructor (timeout: nat)
      ensures Valid() && error == None
    {
      var now: nat := *;
      start, last := now, now;
      this.timeout := timeout;
      error := None;
    }

    /** Latches the first error and always returns it. */
    method Fail(e: SealFailure) returns (first: SealFailure)
      requires Valid()
      modifies this`error
      ensures Valid() && error == Some(first)
      ensures first == if old(error).Some? then old(error).value else e
    {
      first := if error.Some? then error.value else e;
      error := Some(first);
    }

    method Check() returns (r: Option<SealFailure>)
      requires Valid()
      modifies this
      ensures Valid() && r == error && last >= old(last)
      ensures old(error).Some? ==> error == old(error)
      ensures old(error).None? && error.Some? ==> error.value in {Deadline, ClockReversed}
      ensures error.None? ==> last - start < timeout
    {
      if error.Some? {
        return error;
      }
      var now: nat := *;
      if now < last {
        var e := Fail(ClockReversed);
        return Some(e);
      }
      last := now;
      if now - start >= timeout {
        var e := Fail(Deadline);
        return Some(e);
      }
      return None;
    }

    /** After a port call: a failed call latches `e`; then the deadline is looked at. */
    method After(failed: bool, e: SealFailure) returns (r: Option<SealFailure>)
      requires Valid()
      modifies this
      ensures Valid() && r == error
      ensures old(error).Some? ==> error == old(error)
      ensures failed ==> error.Some?
      ensures failed && old(error).None? ==> error == Some(e)
    {
      if failed {
        var first := Fail(e);
        return Some(first);
      }
      r := Check();
    }
  }
}
