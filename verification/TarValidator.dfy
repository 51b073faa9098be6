/** The streaming archive validator. `Consume` is its pure machine, the class is the
    object that is fed chunk by chunk, and the refinement theorems tie both to the
    declarative profile `TarFormat.Conforms`. */
module TarValidator {
  import opened Common
  import opened TarFormat

  datatype Stage =
    | AtHeader
    | InBody(remaining: nat, padding: nat)
    | InPadding(left: nat)
    | AtEnd(bytes: nat)

  /** Which files were seen, the header bytes held so far, and the position. */
  datatype State = State(seen: seq<bool>, held: Bytes, stage: Stage)

  datatype Summary = Summary(files: nat, payloadBytes: nat, archiveBytes: nat)

  function Start(files: seq<File>): State {
    State(seq(|files|, _ => false), [], AtHeader)
  }

  ghost predicate ValidState(files: seq<File>, s: State) {
    && |s.seen| == |files|
    && |s.held| < BLOCK_BYTES
    && (s.held != [] ==> s.stage == AtHeader)
    && (s.stage.InBody? ==> s.stage.remaining > 0 && s.stage.padding < BLOCK_BYTES)
    && (s.stage.InPadding? ==> 0 < s.stage.left < BLOCK_BYTES)
    && (s.stage.AtEnd? ==> BLOCK_BYTES <= s.stage.bytes <= MAX_TAIL_BYTES)
  }

  function AfterBody(padding: nat): Stage {
    if padding > 0 then InPadding(padding) else AtHeader
  }

  /** What a complete 512-byte block does at a header position. */
  function Accept(files: seq<File>, seen: seq<bool>, block: Bytes): Result<State, ArchiveError>
    requires |seen| == |files| && |block| == BLOCK_BYTES
  {
    if AllZero(block) then Ok(State(seen, [], AtEnd(BLOCK_BYTES)))
    else match Parse(block)
      case Err(e) => Err(e)
      case Ok(h) =>
        match IndexOf(files, h.path)
        case None => Err(ManifestMismatch)
        case Some(i) =>
          if seen[i] || files[i].size != h.size then Err(ManifestMismatch)
          else Ok(State(seen[i := true], [],
                        if h.size > 0 then InBody(h.size, Padding(h.size)) else AtHeader))
  }

  lemma AcceptIsValid(files: seq<File>, seen: seq<bool>, block: Bytes)
    requires |seen| == |files| && |block| == BLOCK_BYTES
    ensures Accept(files, seen, block).Ok? ==> ValidState(files, Accept(files, seen, block).value)
  {
    hide Parse, IndexOf;
  }

  /** The machine over one chunk. Tail bytes are judged per chunk: the length limit is
      looked at before the contents. */
  function Consume(files: seq<File>, s: State, input: Bytes): (r: Result<State, ArchiveError>)
    requires ValidState(files, s)
    ensures r.Ok? ==> ValidState(files, r.value)
    decreases |input|
  {
    hide Accept;
    if input == [] then Ok(s)
    else match s.stage
      case AtHeader =>
        var held := s.held + [input[0]];
        if |held| < BLOCK_BYTES then Consume(files, s.(held := held), input[1..])
        else (
          AcceptIsValid(files, s.seen, held);
          match Accept(files, s.seen, held)
          case Err(e) => Err(e)
          case Ok(t) => Consume(files, t, input[1..]))
      case InBody(remaining, padding) =>
        var stage := if remaining > 1 then InBody(remaining - 1, padding) else AfterBody(padding);
        Consume(files, s.(stage := stage), input[1..])
      case InPadding(left) =>
        if input[0] != 0 then Err(InvalidPadding)
        else Consume(files, s.(stage := if left > 1 then InPadding(left - 1) else AtHeader), input[1..])
      case AtEnd(bytes) =>
        if bytes + |input| > MAX_TAIL_BYTES then Err(LimitExceeded)
        else if !AllZero(input) then Err(InvalidPadding)
        else Ok(s.(stage := AtEnd(bytes + |input|)))
  }

  // ----- Whole blocks at a time -----

  lemma {:induction false} ConsumeHeader(files: seq<File>, s: State, input: Bytes, take: nat)
    requires ValidState(files, s) && s.stage == AtHeader
    requires take <= |input| && |s.held| + take < BLOCK_BYTES
    ensures Consume(files, s, input) ==
            Consume(files, s.(held := s.held + input[..take]), input[take..])
    decreases take
  {
    if take == 0 {
      assert s.held + input[..0] == s.held && input[0..] == input;
    } else {
      var t := s.(held := s.held + [input[0]]);
      ConsumeHeader(files, t, input[1..], take - 1);
      assert t.held + input[1..][..take - 1] == s.held + input[..take];
      assert input[1..][take - 1..] == input[take..];
    }
  }

  lemma ConsumeBlock(files: seq<File>, s: State, input: Bytes, take: nat)
    requires ValidState(files, s) && s.stage == AtHeader
    requires 0 < take <= |input| && |s.held| + take == BLOCK_BYTES
    ensures
      var accepted := Accept(files, s.seen, s.held + input[..take]);
      if accepted.Err? then Consume(files, s, input) == Err(accepted.error)
      else
        && ValidState(files, accepted.value)
        && Consume(files, s, input) == Consume(files, accepted.value, input[take..])
  {
    hide Accept;
    var t := s.(held := s.held + input[..take - 1]);
    ConsumeHeader(files, s, input, take - 1);
    assert t.held + [input[take - 1..][0]] == s.held + input[..take];
    assert input[take - 1..][1..] == input[take..];
    ConsumeLastHeaderByte(files, t, input[take - 1..]);
  }

  lemma ConsumeLastHeaderByte(files: seq<File>, s: State, input: Bytes)
    requires ValidState(files, s) && s.stage == AtHeader
    requires input != [] && |s.held| + 1 == BLOCK_BYTES
    ensures
      var accepted := Accept(files, s.seen, s.held + [input[0]]);
      if accepted.Err? then Consume(files, s, input) == Err(accepted.error)
      else
        && ValidState(files, accepted.value)
        && Consume(files, s, input) == Consume(files, accepted.value, input[1..])
  {
  }

  lemma {:induction false} ConsumeBody(files: seq<File>, s: State, input: Bytes, take: nat)
    requires ValidState(files, s) && s.stage.InBody?
    requires 0 < take <= |input| && take <= s.stage.remaining
    ensures
      var left := s.stage.remaining - take;
      var t := s.(stage := if left > 0 then InBody(left, s.stage.padding) else AfterBody(s.stage.padding));
      ValidState(files, t) && Consume(files, s, input) == Consume(files, t, input[take..])
    decreases take
  {
    if take > 1 {
      ConsumeBody(files, s.(stage := InBody(s.stage.remaining - 1, s.stage.padding)), input[1..], take - 1);
      assert input[1..][take - 1..] == input[take..];
    }
  }

  lemma {:induction false} ConsumePadding(files: seq<File>, s: State, input: Bytes, take: nat)
    requires ValidState(files, s) && s.stage.InPadding?
    requires 0 < take <= |input| && take <= s.stage.left
    ensures
      var t := s.(stage := if s.stage.left > take then InPadding(s.stage.left - take) else AtHeader);
      && ValidState(files, t)
      && Consume(files, s, input) ==
         if AllZero(input[..take]) then Consume(files, t, input[take..]) else Err(InvalidPadding)
    decreases take
  {
    assert input[..take] == [input[0]] + input[1..][..take - 1];
    if take > 1 && input[0] == 0 {
      ConsumePadding(files, s.(stage := InPadding(s.stage.left - 1)), input[1..], take - 1);
      assert input[1..][take - 1..] == input[take..];
    }
    if take == 1 && input[0] == 0 {
      assert AllZero(input[..1]);
    }
    if input[0] != 0 {
      assert input[..take][0] != 0;
    }
  }

  // ----- Chunk boundaries do not matter -----

  /** Feeding `a` then `b` succeeds exactly when feeding `a + b` does, in the same state. */
  lemma {:induction false} ConsumeSplit(files: seq<File>, s: State, a: Bytes, b: Bytes)
    requires ValidState(files, s)
    ensures
      var first := Consume(files, s, a);
      var whole := Consume(files, s, a + b);
      if first.Ok? && Consume(files, first.value, b).Ok?
      then whole == Consume(files, first.value, b)
      else whole.Err?
    decreases |a|
  {
    hide Parse;
    if a == [] {
      assert a + b == b;
    } else if b == [] {
      assert a + b == a;
    } else {
      assert (a + b)[0] == a[0] && (a + b)[1..] == a[1..] + b;
      match s.stage
      case AtHeader =>
        var held := s.held + [a[0]];
        if |held| < BLOCK_BYTES {
          ConsumeSplit(files, s.(held := held), a[1..], b);
        } else if Accept(files, s.seen, held).Ok? {
          ConsumeSplit(files, Accept(files, s.seen, held).value, a[1..], b);
        }
      case InBody(remaining, padding) =>
        var stage := if remaining > 1 then InBody(remaining - 1, padding) else AfterBody(padding);
        ConsumeSplit(files, s.(stage := stage), a[1..], b);
      case InPadding(left) =>
        if a[0] == 0 {
          ConsumeSplit(files, s.(stage := if left > 1 then InPadding(left - 1) else AtHeader), a[1..], b);
        }
      case AtEnd(bytes) =>
        assert AllZero(a + b) <==> AllZero(a) && AllZero(b) by {
          assert forall i | 0 <= i < |a| :: (a + b)[i] == a[i];
          assert forall i | 0 <= i < |b| :: (a + b)[|a| + i] == b[i];
        }
    }
  }

  // ----- The validator object as a value -----

  /** A validator that has latched an error answers nothing else. */
  datatype Checker = Failed(error: ArchiveError) | Active(state: State, total: nat)

  ghost predicate ValidChecker(files: seq<File>, c: Checker) {
    c.Active? ==> ValidState(files, c.state) && c.total <= MAX_ARCHIVE_BYTES
  }

  function FeedChunk(files: seq<File>, c: Checker, input: Bytes): (r: Checker)
    requires ValidChecker(files, c)
    ensures ValidChecker(files, r)
  {
    if c.Failed? then c
    else if |input| > MAX_CHUNK_BYTES then Failed(LimitExceeded)
    else if c.total + |input| > MAX_ARCHIVE_BYTES then Failed(LimitExceeded)
    else match Consume(files, c.state, input)
      case Err(e) => Failed(e)
      case Ok(t) => Active(t, c.total + |input|)
  }

  function FinishCheck(files: seq<File>, c: Checker): Result<Summary, ArchiveError>
    requires ValidChecker(files, c)
  {
    if c.Failed? then Err(c.error)
    else if !(c.state.stage.AtEnd? && ValidTail(c.state.stage.bytes)) then Err(IncompleteArchive)
    else if exists i | 0 <= i < |c.state.seen| :: !c.state.seen[i] then Err(ManifestMismatch)
    else Ok(Summary(|files|, TotalSize(files), c.total))
  }

  function FeedAll(files: seq<File>, c: Checker, chunks: seq<Bytes>): (r: Checker)
    requires ValidChecker(files, c)
    ensures ValidChecker(files, r)
    decreases |chunks|
  {
    if chunks == [] then c else FeedAll(files, FeedChunk(files, c, chunks[0]), chunks[1..])
  }

  /** Feed every chunk in turn, then finish. */
  function Validate(files: seq<File>, chunks: seq<Bytes>): Result<Summary, ArchiveError> {
    FinishCheck(files, FeedAll(files, Active(Start(files), 0), chunks))
  }

  class ArchiveValidator {
    const files: seq<File>
    const header: array<Byte>
    var seen: seq<bool>
    var filled: nat
    var stage: Stage
    var total: nat
    var failure: Option<ArchiveError>

    ghost predicate Valid()
      reads this, header
    {
      && header.Length == BLOCK_BYTES
      && filled < BLOCK_BYTES
      && |seen| == |files|
      && StrictlySortedBy(PathKey, files)
      && total <= MAX_ARCHIVE_BYTES
      && (failure.None? ==> ValidState(files, Current()))
    }

    ghost function Current(): State
      reads this, header
      requires header.Length == BLOCK_BYTES && filled <= BLOCK_BYTES
    {
      State(seen, header[..filled], stage)
    }

    /** The value this object stands for. */
    ghost function Checked(): (c: Checker)
      reads this, header
      requires Valid()
      ensures ValidChecker(files, c)
    {
      if failure.Some? then Failed(failure.value) else Active(Current(), total)
    }

    constructor (files: seq<File>)
      requires StrictlySortedBy(PathKey, files)
      ensures Valid() && fresh(header) && this.files == files
      ensures Checked() == Active(Start(files), 0)
    {
      this.files := files;
      seen := seq(|files|, _ => false);
      header := new Byte[BLOCK_BYTES](_ => 0);
      filled := 0;
      stage := AtHeader;
      total := 0;
      failure := None;
    }

    /** Feeds one chunk; the first error is latched and repeated for ever. */
    method Feed(input: Bytes) returns (r: Option<ArchiveError>)
      requires Valid()
      modifies this, header
      ensures Valid()
      ensures Checked() == FeedChunk(files, old(Checked()), input)
      ensures r == if Checked().Failed? then Some(Checked().error) else None
      ensures total >= old(total)
      ensures r.None? ==> total == old(total) + |input|
    {
      if failure.Some? {
        return failure;
      }
      r := FeedInner(input);
      if r.Some? {
        failure := r;
        Zeroize();
        filled := 0;
      }
    }

    method Zeroize()
      requires header.Length == BLOCK_BYTES
      modifies header
      ensures AllZero(header[..])
    {
      for i := 0 to header.Length
        invariant forall k | 0 <= k < i :: header[k] == 0
      {
        header[i] := 0;
      }
    }

    method FeedInner(input: Bytes) returns (r: Option<ArchiveError>)
      requires Valid() && failure.None?
      modifies this, header
      ensures header.Length == BLOCK_BYTES && filled <= BLOCK_BYTES && |seen| == |files|
      ensures failure.None? && old(total) <= total <= MAX_ARCHIVE_BYTES
      ensures r.None? ==> Valid()
      ensures r.None? ==> Checked() == FeedChunk(files, old(Checked()), input)
      ensures r.None? ==> total == old(total) + |input|
      ensures r.Some? ==> FeedChunk(files, old(Checked()), input) == Failed(r.value)
    {
      if |input| > MAX_CHUNK_BYTES {
        return Some(LimitExceeded);
      }
      if total + |input| > MAX_ARCHIVE_BYTES {
        return Some(LimitExceeded);
      }
      hide Accept;
      ghost var goal := Consume(files, Current(), input);
      total := total + |input|;
      var rest := input;
      while rest != []
        invariant Valid() && failure.None? && total == old(total) + |input|
        invariant goal == Consume(files, Current(), rest)
        decreases |rest|
      {
        match stage
        case AtHeader =>
          r, rest := FillHeader(rest);
          if r.Some? {
            return;
          }
        case InBody(remaining, padding) =>
          var take := Min(remaining, |rest|);
          ConsumeBody(files, Current(), rest, take);
          var left := remaining - take;
          stage := if left > 0 then InBody(left, padding)
                   else if padding > 0 then InPadding(padding)
                   else AtHeader;
          rest := rest[take..];
        case InPadding(left) =>
          var take := Min(left, |rest|);
          ConsumePadding(files, Current(), rest, take);
          if !AllZero(rest[..take]) {
            return Some(InvalidPadding);
          }
          stage := if left == take then AtHeader else InPadding(left - take);
          rest := rest[take..];
        case AtEnd(bytes) =>
          if bytes + |rest| > MAX_TAIL_BYTES {
            return Some(LimitExceeded);
          }
          if !AllZero(rest) {
            return Some(InvalidPadding);
          }
          stage := AtEnd(bytes + |rest|);
          rest := [];
      }
      return None;
    }

    /** Copies as much of `input` as the header block still needs. */
    method FillHeader(input: Bytes) returns (r: Option<ArchiveError>, rest: Bytes)
      requires Valid() && failure.None? && stage == AtHeader && input != []
      modifies this`seen, this`stage, this`filled, header
      ensures filled <= BLOCK_BYTES && |seen| == |files|
      ensures r.None? ==> Valid() && |rest| < |input|
      ensures r.None? ==> Consume(files, old(Current()), input) == Consume(files, Current(), rest)
      ensures r.Some? ==> Consume(files, old(Current()), input) == Err(r.value)
    {
      var take := Min(|input|, BLOCK_BYTES - filled);
      ghost var before := Current();
      forall k | 0 <= k < take {
        header[filled + k] := input[k];
      }
      assert header[..filled + take] == before.held + input[..take];
      rest := input[take..];
      filled := filled + take;
      if filled == BLOCK_BYTES {
        ConsumeBlock(files, before, input, take);
        assert header[..] == before.held + input[..take];
        r := AcceptHeader();
      } else {
        ConsumeHeader(files, before, input, take);
        r := None;
      }
    }

    method AcceptHeader() returns (r: Option<ArchiveError>)
      requires header.Length == BLOCK_BYTES && filled == BLOCK_BYTES && |seen| == |files|
      requires stage == AtHeader && StrictlySortedBy(PathKey, files)
      modifies this`seen, this`stage, this`filled, header
      ensures |seen| == |files| && filled <= BLOCK_BYTES
      ensures
        var accepted := Accept(files, old(seen), old(header[..]));
        if accepted.Err? then r == Some(accepted.error)
        else r == None && accepted.value == Current() && filled == 0
    {
      var block := header[..];
      if AllZero(block) {
        stage := AtEnd(BLOCK_BYTES);
      } else {
        var entry := Parse(block);
        if entry.Err? {
          return Some(entry.error);
        }
        var index := FindPath(files, entry.value.path);
        if index.None? {
          return Some(ManifestMismatch);
        }
        var i := index.value;
        if seen[i] || files[i].size != entry.value.size {
          return Some(ManifestMismatch);
        }
        seen := seen[i := true];
        if entry.value.size > 0 {
          stage := InBody(entry.value.size, (BLOCK_BYTES - entry.value.size % BLOCK_BYTES) % BLOCK_BYTES);
        }
      }
      Zeroize();
      filled := 0;
      return None;
    }

    /** Succeeds only on a latched-error-free, complete, fully covered archive. */
    method Finish() returns (r: Result<Summary, ArchiveError>)
      requires Valid()
      ensures r == FinishCheck(files, Checked())
    {
      if failure.Some? {
        return Err(failure.value);
      }
      if !(stage.AtEnd? && stage.bytes >= 2 * BLOCK_BYTES && stage.bytes % BLOCK_BYTES == 0) {
        return Err(IncompleteArchive);
      }
      if exists i | 0 <= i < |seen| :: !seen[i] {
        return Err(ManifestMismatch);
      }
      return Ok(Summary(|files|, TotalSize(files), total));
    }
  }
}
