/** The gzip member header (section 2.3 of RFC 1952): a byte-by-byte machine, and the
    whole-string parser it agrees with however the bytes arrive. */
module GzipHeader {
  import opened Common

  const MAX_HEADER_BYTES := 4096
  const MAX_EXTRA_BYTES := 4084
  const MAX_NAME_BYTES := 1024
  const MAX_COMMENT_BYTES := 1024

  datatype GzipError =
    | LimitExceeded
    | InvalidHeader
    | InvalidData
    | TrailingData
    | IncompleteStream
    | ArchiveRejected

  // ----- The parser of a whole string -----

  datatype Parsed = Complete(length: nat) | Truncated | Bad(error: GzipError)

  function Bit(flags: nat, weight: nat): bool
    requires weight > 0
  {
    flags / weight % 2 == 1
  }

  /** A field of n bytes at pos. */
  function Skip(s: Bytes, pos: nat, n: nat): Parsed {
    if pos + n <= |s| && pos + n <= MAX_HEADER_BYTES then Complete(pos + n)
    else if |s| > MAX_HEADER_BYTES then Bad(LimitExceeded)
    else Truncated
  }

  function Little(low: Byte, high: Byte): nat {
    (low as int) + 256 * (high as int)
  }

  /** The length-prefixed extra field. */
  function Extra(s: Bytes, pos: nat): Parsed {
    var prefix := Skip(s, pos, 2);
    if !prefix.Complete? then prefix
    else
      var n := Little(s[pos], s[pos + 1]);
      if n > MAX_EXTRA_BYTES then Bad(LimitExceeded) else Skip(s, pos + 2, n)
  }

  /** Text ended by a zero byte, which counts towards its limit. */
  function Text(s: Bytes, pos: nat, left: nat): Parsed
    decreases left
  {
    if left == 0 then if pos < |s| then Bad(LimitExceeded) else Truncated
    else if pos >= |s| then Truncated
    else if pos >= MAX_HEADER_BYTES then Bad(LimitExceeded)
    else if s[pos] == 0 then Complete(pos + 1)
    else Text(s, pos + 1, left - 1)
  }

  datatype Section = ExtraField | NameField | CommentField | CrcField

  /** The optional fields named by the flags, in their order. */
  function Sections(flags: nat): seq<Section> {
    (if Bit(flags, 4) then [ExtraField] else []) + (if Bit(flags, 8) then [NameField] else [])
    + (if Bit(flags, 16) then [CommentField] else []) + (if Bit(flags, 2) then [CrcField] else [])
  }

  function Field(s: Bytes, pos: nat, section: Section): Parsed {
    match section
    case ExtraField => Extra(s, pos)
    case NameField => Text(s, pos, MAX_NAME_BYTES)
    case CommentField => Text(s, pos, MAX_COMMENT_BYTES)
    case CrcField => Skip(s, pos, 2)
  }

  function Fields(s: Bytes, pos: nat, sections: seq<Section>): Parsed
    decreases |sections|
  {
    if sections == [] then Complete(pos)
    else
      var first := Field(s, pos, sections[0]);
      if first.Complete? then Fields(s, first.length, sections[1..]) else first
  }

  /** The header at the start of a string. */
  function WholeHeader(s: Bytes): Parsed {
    if |s| < 10 then Truncated
    else if s[..3] != [0x1f, 0x8b, 8] || s[3] >= 32 then Bad(InvalidHeader)
    else Fields(s, 10, Sections(s[3]))
  }

  // ----- The byte machine -----

  datatype Stage =
    | Fixed
    | ExtraLength(low: Option<Byte>)
    | ExtraBytes(left: nat)
    | Name(count: nat)
    | Comment(count: nat)
    | Crc(left: nat)
    | Done

  /** The bytes kept so far, the flags not yet dealt with, and the stage. */
  datatype Head = Head(held: Bytes, flags: nat, stage: Stage)

  const START := Head([], 0, Fixed)

  /** The next field the remaining flags ask for. */
  function Advanced(held: Bytes, flags: nat): Head {
    if Bit(flags, 4) then Head(held, flags - 4, ExtraLength(None))
    else if Bit(flags, 8) then Head(held, flags - 8, Name(0))
    else if Bit(flags, 16) then Head(held, flags - 16, Comment(0))
    else if Bit(flags, 2) then Head(held, flags - 2, Crc(2))
    else Head(held, flags, Done)
  }

  function Step(h: Head, b: Byte): Result<Head, GzipError>
    requires !h.stage.Done?
  {
    if |h.held| >= MAX_HEADER_BYTES then Err(LimitExceeded)
    else
      var held := h.held + [b];
      match h.stage
      case Fixed =>
        if |held| != 10 then Ok(Head(held, h.flags, Fixed))
        else if held[..3] != [0x1f, 0x8b, 8] || held[3] >= 32 then Err(InvalidHeader)
        else Ok(Advanced(held, held[3]))
      case ExtraLength(low) =>
        if low.None? then Ok(Head(held, h.flags, ExtraLength(Some(b))))
        else
          var n := Little(low.value, b);
          if n > MAX_EXTRA_BYTES then Err(LimitExceeded)
          else if n == 0 then Ok(Advanced(held, h.flags))
          else Ok(Head(held, h.flags, ExtraBytes(n)))
      case ExtraBytes(left) =>
        if left <= 1 then Ok(Advanced(held, h.flags)) else Ok(Head(held, h.flags, ExtraBytes(left - 1)))
      case Crc(left) =>
        if left <= 1 then Ok(Advanced(held, h.flags)) else Ok(Head(held, h.flags, Crc(left - 1)))
      case Name(count) =>
        if count + 1 > MAX_NAME_BYTES then Err(LimitExceeded)
        else if b == 0 then Ok(Advanced(held, h.flags))
        else Ok(Head(held, h.flags, Name(count + 1)))
      case Comment(count) =>
        if count + 1 > MAX_COMMENT_BYTES then Err(LimitExceeded)
        else if b == 0 then Ok(Advanced(held, h.flags))
        else Ok(Head(held, h.flags, Comment(count + 1)))
  }

  /** Takes bytes until the header is complete or the input ends. */
  function Drink(h: Head, input: Bytes): Result<Head, GzipError>
    decreases |input|
  {
    if h.stage.Done? || input == [] then Ok(h)
    else
      var next := Step(h, input[0]);
      if next.Err? then next else Drink(next.value, input[1..])
  }

  /** Chunks in turn; what follows a complete header is not touched. */
  function DrinkAll(h: Head, chunks: seq<Bytes>): Result<Head, GzipError>
    decreases |chunks|
  {
    if chunks == [] then Ok(h)
    else
      var next := Drink(h, chunks[0]);
      if next.Err? then next else DrinkAll(next.value, chunks[1..])
  }

  lemma {:induction false} DrinkSplit(h: Head, a: Bytes, b: Bytes)
    ensures Drink(h, a + b) == if Drink(h, a).Err? then Drink(h, a) else Drink(Drink(h, a).value, b)
    decreases |a|
  {
    if a == [] {
      assert a + b == b;
    } else if !h.stage.Done? {
      assert (a + b)[0] == a[0] && (a + b)[1..] == a[1..] + b;
      if Step(h, a[0]).Ok? {
        DrinkSplit(Step(h, a[0]).value, a[1..], b);
      }
    }
  }

  lemma {:induction false} DrinkAllIsDrink(h: Head, chunks: seq<Bytes>)
    ensures DrinkAll(h, chunks) == Drink(h, Concat(chunks))
    decreases |chunks|
  {
    if chunks != [] {
      DrinkSplit(h, chunks[0], Concat(chunks[1..]));
      if Drink(h, chunks[0]).Ok? {
        DrinkAllIsDrink(Drink(h, chunks[0]).value, chunks[1..]);
      }
    }
  }

  // ----- The machine agrees with the parser -----

  /** The machine's result says the same as the parser about the whole string. */
  ghost predicate Agrees(r: Result<Head, GzipError>, p: Parsed, s: Bytes) {
    match p
    case Complete(n) => n <= |s| && r.Ok? && r.value.stage.Done? && r.value.held == s[..n]
    case Truncated => r.Ok? && !r.value.stage.Done? && r.value.held == s
    case Bad(e) => r == Err(e)
  }

  /** After a field the machine stands where the remaining flags send it. */
  ghost predicate Leads(r: Result<Head, GzipError>, p: Parsed, s: Bytes, flags: nat) {
    if p.Complete?
    then p.length <= |s| && p.length <= MAX_HEADER_BYTES && r == Drink(Advanced(s[..p.length], flags), s[p.length..])
    else Agrees(r, p, s)
  }

  lemma DrinkStep(s: Bytes, pos: nat, h: Head)
    requires pos < |s| && h.held == s[..pos] && !h.stage.Done?
    ensures Drink(h, s[pos..]) ==
      if Step(h, s[pos]).Err? then Step(h, s[pos]) else Drink(Step(h, s[pos]).value, s[pos + 1..])
    ensures s[..pos] + [s[pos]] == s[..pos + 1]
  {
    assert s[pos..][0] == s[pos] && s[pos..][1..] == s[pos + 1..];
  }

  lemma DrinkEnd(s: Bytes, h: Head)
    requires h.held == s
    ensures Drink(h, s[|s|..]) == Ok(h)
  {
  }

  function Skipping(n: nat, crc: bool): Stage {
    if crc then Crc(n) else ExtraBytes(n)
  }

  lemma SkipStep(s: Bytes, pos: nat, n: nat, flags: nat, crc: bool)
    requires pos < |s| && pos <= MAX_HEADER_BYTES && n > 0
    ensures Step(Head(s[..pos], flags, Skipping(n, crc)), s[pos]) ==
      if pos >= MAX_HEADER_BYTES then Err(LimitExceeded)
      else if n == 1 then Ok(Advanced(s[..pos + 1], flags))
      else Ok(Head(s[..pos + 1], flags, Skipping(n - 1, crc)))
  {
    assert s[..pos] + [s[pos]] == s[..pos + 1];
  }

  lemma {:induction false} SkipLeads(s: Bytes, pos: nat, n: nat, flags: nat, crc: bool)
    requires pos <= |s| && pos <= MAX_HEADER_BYTES && n > 0
    ensures Leads(Drink(Head(s[..pos], flags, Skipping(n, crc)), s[pos..]), Skip(s, pos, n), s, flags)
    decreases n
  {
    var h := Head(s[..pos], flags, Skipping(n, crc));
    if pos == |s| {
      assert s[..pos] == s;
      DrinkEnd(s, h);
    } else {
      DrinkStep(s, pos, h);
      SkipStep(s, pos, n, flags, crc);
      hide Drink, Advanced, Step, Skipping;
      if pos < MAX_HEADER_BYTES && n > 1 {
        assert Skip(s, pos, n) == Skip(s, pos + 1, n - 1);
        hide Skip, Leads;
        SkipLeads(s, pos + 1, n - 1, flags, crc);
      } else {
        assert Skip(s, pos, n) == if n == 1 && pos < MAX_HEADER_BYTES then Complete(pos + 1) else Bad(LimitExceeded);
      }
    }
  }

  lemma {:induction false} TextLeads(s: Bytes, pos: nat, left: nat, flags: nat, comment: bool)
    requires pos <= |s| && pos <= MAX_HEADER_BYTES && left <= MAX_NAME_BYTES
    ensures
      var stage := if comment then Comment(MAX_COMMENT_BYTES - left) else Name(MAX_NAME_BYTES - left);
      Leads(Drink(Head(s[..pos], flags, stage), s[pos..]), Text(s, pos, left), s, flags)
    decreases left
  {
    var h := Head(s[..pos], flags, if comment then Comment(MAX_COMMENT_BYTES - left) else Name(MAX_NAME_BYTES - left));
    if pos == |s| {
      assert s[..pos] == s;
      DrinkEnd(s, h);
    } else {
      DrinkStep(s, pos, h);
      hide Drink, Advanced;
      if pos < MAX_HEADER_BYTES && left > 0 && s[pos] != 0 {
        assert Text(s, pos, left) == Text(s, pos + 1, left - 1);
        hide Text, Leads;
        TextLeads(s, pos + 1, left - 1, flags, comment);
      }
    }
  }

  lemma ExtraLeads(s: Bytes, pos: nat, flags: nat)
    requires pos <= |s| && pos <= MAX_HEADER_BYTES
    ensures Leads(Drink(Head(s[..pos], flags, ExtraLength(None)), s[pos..]), Extra(s, pos), s, flags)
  {
    var h := Head(s[..pos], flags, ExtraLength(None));
    if pos == |s| {
      assert s[..pos] == s;
      DrinkEnd(s, h);
      return;
    }
    DrinkStep(s, pos, h);
    if pos < MAX_HEADER_BYTES {
      var low := Head(s[..pos + 1], flags, ExtraLength(Some(s[pos])));
      hide Little;
      if pos + 1 == |s| {
        assert s[..pos + 1] == s;
        DrinkEnd(s, low);
        return;
      }
      DrinkStep(s, pos + 1, low);
      var n := Little(s[pos], s[pos + 1]);
      if pos + 2 <= MAX_HEADER_BYTES && 0 < n <= MAX_EXTRA_BYTES {
        SkipLeads(s, pos + 2, n, flags, false);
      }
    }
  }

  // Taking one flag away leaves the other three as they were.

  lemma WithoutExtra(flags: nat)
    requires flags < 32 && Bit(flags, 4)
    ensures flags >= 4 && !Bit(flags - 4, 4)
    ensures Bit(flags - 4, 8) == Bit(flags, 8) && Bit(flags - 4, 16) == Bit(flags, 16) && Bit(flags - 4, 2) == Bit(flags, 2)
  {
  }

  lemma WithoutName(flags: nat)
    requires flags < 32 && Bit(flags, 8)
    ensures flags >= 8 && !Bit(flags - 8, 8)
    ensures Bit(flags - 8, 4) == Bit(flags, 4) && Bit(flags - 8, 16) == Bit(flags, 16) && Bit(flags - 8, 2) == Bit(flags, 2)
  {
  }

  lemma WithoutComment(flags: nat)
    requires flags < 32 && Bit(flags, 16)
    ensures flags >= 16 && !Bit(flags - 16, 16)
    ensures Bit(flags - 16, 4) == Bit(flags, 4) && Bit(flags - 16, 8) == Bit(flags, 8) && Bit(flags - 16, 2) == Bit(flags, 2)
  {
  }

  lemma WithoutCrc(flags: nat)
    requires flags < 32 && Bit(flags, 2)
    ensures flags >= 2 && !Bit(flags - 2, 2)
    ensures Bit(flags - 2, 4) == Bit(flags, 4) && Bit(flags - 2, 8) == Bit(flags, 8) && Bit(flags - 2, 16) == Bit(flags, 16)
  {
  }

  function StageOf(section: Section): Stage {
    match section
    case ExtraField => ExtraLength(None)
    case NameField => Name(0)
    case CommentField => Comment(0)
    case CrcField => Crc(2)
  }

  /** The flags left after the next field are one bit fewer. */
  lemma AdvancedSections(held: Bytes, flags: nat)
    requires flags < 32
    ensures
      var h := Advanced(held, flags);
      if Sections(flags) == [] then h.stage.Done?
      else
        && h.flags < 32 && Sections(flags) == [Sections(flags)[0]] + Sections(h.flags)
        && h.stage == StageOf(Sections(flags)[0])
  {
    if Bit(flags, 4) {
      WithoutExtra(flags);
    } else if Bit(flags, 8) {
      WithoutName(flags);
    } else if Bit(flags, 16) {
      WithoutComment(flags);
    } else if Bit(flags, 2) {
      WithoutCrc(flags);
    }
    hide Bit;
  }

  lemma FieldLeads(s: Bytes, pos: nat, flags: nat)
    requires pos <= |s| && pos <= MAX_HEADER_BYTES && flags < 32 && Sections(flags) != []
    ensures
      var h := Advanced(s[..pos], flags);
      Leads(Drink(h, s[pos..]), Field(s, pos, Sections(flags)[0]), s, h.flags)
  {
    AdvancedSections(s[..pos], flags);
    var rest := Advanced(s[..pos], flags).flags;
    hide Sections, Advanced, Drink, Leads, Text, Skip, Extra;
    match Sections(flags)[0]
    case ExtraField => ExtraLeads(s, pos, rest);
    case NameField => TextLeads(s, pos, MAX_NAME_BYTES, rest, false);
    case CommentField => TextLeads(s, pos, MAX_COMMENT_BYTES, rest, true);
    case CrcField => SkipLeads(s, pos, 2, rest, true);
  }

  lemma {:induction false} FieldsAgree(s: Bytes, pos: nat, flags: nat)
    requires pos <= |s| && pos <= MAX_HEADER_BYTES && flags < 32
    ensures Agrees(Drink(Advanced(s[..pos], flags), s[pos..]), Fields(s, pos, Sections(flags)), s)
    decreases |Sections(flags)|
  {
    AdvancedSections(s[..pos], flags);
    if Sections(flags) != [] {
      FieldLeads(s, pos, flags);
      var h := Advanced(s[..pos], flags);
      var first := Field(s, pos, Sections(flags)[0]);
      assert Sections(flags)[1..] == Sections(h.flags);
      if first.Complete? {
        FieldsAgree(s, first.length, h.flags);
      }
    }
  }

  lemma {:induction false} FixedAgrees(s: Bytes, pos: nat)
    requires pos <= |s| && pos < 10
    ensures Agrees(Drink(Head(s[..pos], 0, Fixed), s[pos..]), WholeHeader(s), s)
    decreases 10 - pos
  {
    var h := Head(s[..pos], 0, Fixed);
    if pos == |s| {
      assert s[..pos] == s;
      DrinkEnd(s, h);
    } else {
      DrinkStep(s, pos, h);
      if pos < 9 {
        FixedAgrees(s, pos + 1);
      } else {
        assert s[..10][..3] == s[..3] && s[..10][3] == s[3];
        if s[3] < 32 {
          FieldsAgree(s, 10, s[3]);
        }
      }
    }
  }

  /** However the bytes are cut into chunks, the machine completes after exactly the bytes of
      the header, waits for more, or fails with the error of the whole-string parser. */
  lemma ChunksAgree(chunks: seq<Bytes>)
    ensures Agrees(DrinkAll(START, chunks), WholeHeader(Concat(chunks)), Concat(chunks))
  {
    var s := Concat(chunks);
    DrinkAllIsDrink(START, chunks);
    assert s[..0] == [] && s[0..] == s;
    FixedAgrees(s, 0);
  }

  // ----- The header object -----

  class Header {
    const bytes: array<Byte>
    var length: nat
    var flags: nat
    var stage: Stage

    ghost predicate Valid()
      reads this, bytes
    {
      bytes.Length == MAX_HEADER_BYTES && length <= MAX_HEADER_BYTES && (stage.Fixed? ==> length < 10)
    }

    ghost function Current(): Head
      reads this, bytes
      requires Valid()
    {
      Head(bytes[..length], flags, stage)
    }

    constructor ()
      ensures Valid() && fresh(bytes) && Current() == START
    {
      bytes := new Byte[MAX_HEADER_BYTES](_ => 0);
      length, flags, stage := 0, 0, Fixed;
    }

    /** Moves to the next field that the flags ask for. */
    method Advance()
      requires Valid()
      modifies `flags, `stage
      ensures Valid() && Current() == Advanced(bytes[..length], old(flags))
    {
      if Bit(flags, 4) {
        flags, stage := flags - 4, ExtraLength(None);
      } else if Bit(flags, 8) {
        flags, stage := flags - 8, Name(0);
      } else if Bit(flags, 16) {
        flags, stage := flags - 16, Comment(0);
      } else if Bit(flags, 2) {
        flags, stage := flags - 2, Crc(2);
      } else {
        stage := Done;
      }
    }

    method Take(b: Byte) returns (r: Option<GzipError>)
      requires Valid() && !stage.Done?
      modifies this, bytes
      ensures r.None? ==> Valid()
      ensures
        var next := Step(old(Current()), b);
        if next.Err? then r == Some(next.error) else r == None && Current() == next.value
    {
      if length == MAX_HEADER_BYTES {
        return Some(LimitExceeded);
      }
      ghost var before := bytes[..length];
      bytes[length] := b;
      length := length + 1;
      assert bytes[..length] == before + [b];
      match stage {
        case Fixed =>
          if length == 10 {
            if bytes[..3] != [0x1f, 0x8b, 8] || bytes[3] >= 32 {
              assert bytes[..length][..3] == bytes[..3];
              return Some(InvalidHeader);
            }
            assert bytes[..length][..3] == bytes[..3];
            flags := bytes[3];
            stage := Done;
            Advance();
          }
        case ExtraLength(low) =>
          if low.None? {
            stage := ExtraLength(Some(b));
          } else {
            var n := Little(low.value, b);
            if n > MAX_EXTRA_BYTES {
              return Some(LimitExceeded);
            }
            if n == 0 {
              Advance();
            } else {
              stage := ExtraBytes(n);
            }
          }
        case ExtraBytes(left) =>
          if left <= 1 {
            Advance();
          } else {
            stage := ExtraBytes(left - 1);
          }
        case Crc(left) =>
          if left <= 1 {
            Advance();
          } else {
            stage := Crc(left - 1);
          }
        case Name(count) =>
          if count + 1 > MAX_NAME_BYTES {
            return Some(LimitExceeded);
          }
          if b == 0 {
            Advance();
          } else {
            stage := Name(count + 1);
          }
        case Comment(count) =>
          if count + 1 > MAX_COMMENT_BYTES {
            return Some(LimitExceeded);
          }
          if b == 0 {
            Advance();
          } else {
            stage := Comment(count + 1);
          }
      }
      r := None;
    }

    /** Consumes bytes up to the end of the header. */
    method Feed(input: Bytes) returns (r: Result<nat, GzipError>)
      requires Valid()
      modifies this, bytes
      ensures r.Ok? ==> Valid()
      ensures
        var next := Drink(old(Current()), input);
        if next.Err? then r == Err(next.error)
        else
          && r.Ok? && Current() == next.value
          && r.value == length - old(length) <= |input|
          && bytes[..length] == old(bytes[..length]) + input[..r.value]
          && (!stage.Done? ==> r.value == |input|)
    {
      ghost var start := Current();
      var consumed := 0;
      assert input[0..] == input && start.held + input[..0] == start.held;
      while consumed < |input| && !stage.Done?
        invariant Valid() && 0 <= consumed <= |input| && length == |start.held| + consumed
        invariant bytes[..length] == start.held + input[..consumed]
        invariant Drink(start, input) == Drink(Current(), input[consumed..])
        decreases |input| - consumed
      {
        assert input[consumed..][0] == input[consumed] && input[consumed..][1..] == input[consumed + 1..];
        assert input[..consumed + 1] == input[..consumed] + [input[consumed]];
        hide Step;
        ghost var before := Current();
        HeldGrows(before, input[consumed]);
        var error := Take(input[consumed]);
        if error.Some? {
          return Err(error.value);
        }
        consumed := consumed + 1;
      }
      r := Ok(consumed);
    }
  }

  /** A step keeps the byte it takes. */
  lemma HeldGrows(h: Head, b: Byte)
    requires !h.stage.Done?
    ensures Step(h, b).Ok? ==> Step(h, b).value.held == h.held + [b]
  {
  }
}
