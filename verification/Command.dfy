/** Commands for a remote shell: every argument is quoted so that the shell reads it back
    exactly, and a compiled command always fits the buffer it is encoded into. */
module Command {
  import opened Common
  import opened Json

  const MAX_COMMAND_BYTES := 256 * 1024

  const SPACE: Byte := 32
  const TAB: Byte := 9
  const NEWLINE: Byte := 10
  const APOSTROPHE: Byte := 39

  /** "exec" */
  const EXEC: Bytes := [101, 120, 101, 99]
  /** "/bin/ubus" */
  const UBUS: Bytes := [47, 98, 105, 110, 47, 117, 98, 117, 115]
  /** "-S" */
  const SIMPLE: Bytes := [45, 83]
  /** "call" */
  const CALL: Bytes := [99, 97, 108, 108]

  datatype CodecError = InvalidAction

  datatype CommandSpec = CommandSpec(program: Bytes, arguments: seq<Bytes>)

  datatype PreparedAction =
    | PackagePage
    | Ubus(service: Bytes, procedure: Bytes, values: Value)
    | Process(path: Bytes, args: seq<Bytes>)

  // ----- How a POSIX shell splits a line (sections 2.2.1, 2.2.2 and 2.3) -----

  /** Unquoted bytes that no shell gives a meaning of their own. */
  predicate PlainByte(b: Byte) {
    48 <= b <= 57 || 65 <= b <= 90 || 97 <= b <= 122 || b == SLASH || b == 95 || b == 46 || b == 45
  }

  datatype Lexer =
    | Between
    | InWord(word: Bytes)
    | InQuotes(word: Bytes)
    | Escaped(pending: Option<Bytes>)

  /** The lexer after one byte, and the word that byte ends. */
  datatype Lexed = Lexed(next: Lexer, ended: Option<Bytes>)

  function More(pending: Option<Bytes>, b: Byte): Lexer {
    InWord((if pending.None? then [] else pending.value) + [b])
  }

  /** A byte outside quotes, inside a word or between words. */
  function ReadUnquoted(pending: Option<Bytes>, b: Byte): Option<Lexed> {
    if b == SPACE || b == TAB then Some(Lexed(Between, pending))
    else if b == APOSTROPHE then Some(Lexed(InQuotes(if pending.None? then [] else pending.value), None))
    else if b == 92 then Some(Lexed(Escaped(pending), None))
    else if PlainByte(b) then Some(Lexed(More(pending, b), None))
    else None
  }

  function ReadByte(state: Lexer, b: Byte): Option<Lexed> {
    match state
    case Between => ReadUnquoted(None, b)
    case InWord(w) => ReadUnquoted(Some(w), b)
    case InQuotes(w) => Some(Lexed(if b == APOSTROPHE then InWord(w) else InQuotes(w + [b]), None))
    case Escaped(pending) =>
      var next := if b != NEWLINE then More(pending, b) else if pending.None? then Between else InWord(pending.value);
      Some(Lexed(next, None))
  }

  /** The words of a simple command, or None when the line is unfinished or has a byte the
      shell would interpret. */
  function Words(state: Lexer, line: Bytes): Option<seq<Bytes>>
    decreases |line|
  {
    if line == [] then
      match state
      case Between => Some([])
      case InWord(w) => Some([w])
      case _ => None
    else
      var read := ReadByte(state, line[0]);
      if read.None? then None
      else
        var more := Words(read.value.next, line[1..]);
        if more.None? || read.value.ended.None? then more else Some([read.value.ended.value] + more.value)
  }

  // ----- Quoting -----

  /** One argument between single quotes; each quote inside leaves them, is escaped, and
      enters them again. */
  function EscapeQuotes(value: Bytes): Bytes {
    if value == [] then []
    else if value[0] == APOSTROPHE then [APOSTROPHE, 92, APOSTROPHE, APOSTROPHE] + EscapeQuotes(value[1..])
    else [value[0]] + EscapeQuotes(value[1..])
  }

  function Quoted(value: Bytes): Bytes {
    [SPACE, APOSTROPHE] + EscapeQuotes(value) + [APOSTROPHE]
  }

  function AllQuoted(values: seq<Bytes>): Bytes {
    if values == [] then [] else AllQuoted(values[..|values| - 1]) + Quoted(values[|values| - 1])
  }

  function Encoding(c: CommandSpec): Bytes {
    EXEC + AllQuoted([c.program] + c.arguments)
  }

  function Quotes(value: Bytes): (n: nat)
    ensures n <= |value|
  {
    if value == [] then 0 else Quotes(value[1..]) + if value[0] == APOSTROPHE then 1 else 0
  }

  lemma {:induction false} QuotedLength(value: Bytes)
    ensures |EscapeQuotes(value)| == |value| + 3 * Quotes(value)
    ensures |Quoted(value)| == |value| + 3 + 3 * Quotes(value)
  {
    if value != [] {
      QuotedLength(value[1..]);
    }
  }

  lemma {:induction false} EscapeQuotesAppend(a: Bytes, b: Bytes)
    ensures EscapeQuotes(a + b) == EscapeQuotes(a) + EscapeQuotes(b)
  {
    if a == [] {
      assert a + b == b;
    } else {
      assert (a + b)[1..] == a[1..] + b;
      EscapeQuotesAppend(a[1..], b);
    }
  }

  lemma {:induction false} NoQuotesNoEscape(value: Bytes)
    requires APOSTROPHE !in value
    ensures EscapeQuotes(value) == value
  {
    if value != [] {
      NoQuotesNoEscape(value[1..]);
    }
  }

  // ----- The shell reads back what was quoted -----

  lemma WordsStep(state: Lexer, b: Byte, rest: Bytes)
    requires ReadByte(state, b).Some? && ReadByte(state, b).value.ended.None?
    ensures Words(state, [b] + rest) == Words(ReadByte(state, b).value.next, rest)
  {
    assert ([b] + rest)[1..] == rest;
  }

  /** Inside quotes, the escaped text is read as the text. */
  lemma {:induction false} QuotesRead(word: Bytes, value: Bytes, rest: Bytes)
    ensures Words(InQuotes(word), EscapeQuotes(value) + rest) == Words(InQuotes(word + value), rest)
    decreases |value|
  {
    if value == [] {
      assert EscapeQuotes(value) + rest == rest && word + value == word;
    } else {
      var b, more := value[0], EscapeQuotes(value[1..]) + rest;
      QuotesRead(word + [b], value[1..], rest);
      assert word + [b] + value[1..] == word + value;
      hide Words;
      if b == APOSTROPHE {
        assert EscapeQuotes(value) + rest == [APOSTROPHE, 92, APOSTROPHE, APOSTROPHE] + more;
        QuoteRead(word, more);
      } else {
        assert EscapeQuotes(value) + rest == [b] + more;
        WordsStep(InQuotes(word), b, more);
      }
    }
  }

  /** The four bytes for a quote read as one. */
  lemma QuoteRead(word: Bytes, more: Bytes)
    ensures Words(InQuotes(word), [APOSTROPHE, 92, APOSTROPHE, APOSTROPHE] + more) == Words(InQuotes(word + [APOSTROPHE]), more)
  {
    hide Words;
    var two, three := [APOSTROPHE] + more, [APOSTROPHE] + ([APOSTROPHE] + more);
    assert [APOSTROPHE, 92, APOSTROPHE, APOSTROPHE] + more == [APOSTROPHE] + ([92] + three);
    WordsStep(InQuotes(word), APOSTROPHE, [92] + three);
    WordsStep(InWord(word), 92, three);
    WordsStep(Escaped(Some(word)), APOSTROPHE, two);
    WordsStep(InWord(word + [APOSTROPHE]), APOSTROPHE, more);
  }

  /** A quoted argument ends the word before it and is one word itself. */
  lemma QuotedRead(before: Bytes, value: Bytes, rest: Bytes)
    ensures
      var more := Words(InWord(value), rest);
      Words(InWord(before), Quoted(value) + rest) == if more.None? then None else Some([before] + more.value)
  {
    var inner := EscapeQuotes(value) + ([APOSTROPHE] + rest);
    var line := Quoted(value) + rest;
    assert line == [SPACE, APOSTROPHE] + inner;
    assert line[1..] == [APOSTROPHE] + inner && line[1..][1..] == inner;
    QuotesRead([], value, [APOSTROPHE] + rest);
    assert [] + value == value && ([APOSTROPHE] + rest)[1..] == rest;
    assert Words(InQuotes([]), inner) == Words(InWord(value), rest);
    assert Words(Between, [APOSTROPHE] + inner) == Words(InQuotes([]), inner);
  }

  lemma {:induction false} AllQuotedFirst(values: seq<Bytes>)
    requires values != []
    ensures AllQuoted(values) == Quoted(values[0]) + AllQuoted(values[1..])
    decreases |values|
  {
    var n := |values| - 1;
    if n > 0 {
      AllQuotedFirst(values[..n]);
      assert values[..n][1..] == values[1..][..n - 1];
    }
  }

  lemma {:induction false} AllQuotedRead(before: Bytes, values: seq<Bytes>)
    ensures Words(InWord(before), AllQuoted(values)) == Some([before] + values)
    decreases |values|
  {
    if values == [] {
      assert [before] + values == [before];
    } else {
      AllQuotedFirst(values);
      AllQuotedRead(values[0], values[1..]);
      QuotedRead(before, values[0], AllQuoted(values[1..]));
      assert [values[0]] + values[1..] == values;
    }
  }

  /** The shell reads an encoded command as "exec", the program, and the exact arguments,
      whatever bytes they contain. */
  lemma ShellReadsBack(c: CommandSpec)
    ensures Words(Between, Encoding(c)) == Some([EXEC, c.program] + c.arguments)
  {
    var tail := AllQuoted([c.program] + c.arguments);
    var line := Encoding(c);
    assert line == [EXEC[0]] + (EXEC[1..] + tail);
    PlainRead([EXEC[0]], EXEC[1..], tail);
    assert [EXEC[0]] + EXEC[1..] == EXEC;
    assert Words(Between, line) == Words(InWord([EXEC[0]]), EXEC[1..] + tail) by {
      assert line[1..] == EXEC[1..] + tail && [] + [EXEC[0]] == [EXEC[0]];
      hide AllQuoted;
    }
    AllQuotedRead(EXEC, [c.program] + c.arguments);
    assert [EXEC] + ([c.program] + c.arguments) == [EXEC, c.program] + c.arguments;
  }

  lemma {:induction false} PlainRead(word: Bytes, plain: Bytes, rest: Bytes)
    requires forall i | 0 <= i < |plain| :: PlainByte(plain[i])
    ensures Words(InWord(word), plain + rest) == Words(InWord(word + plain), rest)
    decreases |plain|
  {
    if plain == [] {
      assert plain + rest == rest && word + plain == word;
    } else {
      var line := plain + rest;
      assert PlainByte(plain[0]) && line[0] == plain[0] && line[1..] == plain[1..] + rest;
      assert word + [plain[0]] + plain[1..] == word + plain;
      PlainRead(word + [plain[0]], plain[1..], rest);
    }
  }

  // ----- The bounded buffer -----

  class CommandBuffer {
    var bytes: Bytes

    constructor (initial: Bytes)
      ensures bytes == initial
    {
      bytes := initial;
    }

    method Append(more: Bytes) returns (ok: bool)
      requires |bytes| <= MAX_COMMAND_BYTES
      modifies this
      ensures ok <==> |old(bytes)| + |more| <= MAX_COMMAND_BYTES
      ensures bytes == if ok then old(bytes) + more else old(bytes)
    {
      if |more| > MAX_COMMAND_BYTES - |bytes| {
        return false;
      }
      bytes := bytes + more;
      ok := true;
    }

    /** Appends a piece, and what stands for the quote after it. */
    method Piece(piece: Bytes, quote: bool) returns (ok: bool)
      requires |bytes| <= MAX_COMMAND_BYTES
      modifies this
      ensures
        var whole := piece + if quote then [APOSTROPHE, 92, APOSTROPHE, APOSTROPHE] else [];
        (ok <==> |old(bytes)| + |whole| <= MAX_COMMAND_BYTES) && (ok ==> bytes == old(bytes) + whole)
      ensures |bytes| <= MAX_COMMAND_BYTES
    {
      ok := Append(piece);
      if ok && quote {
        ok := Append([APOSTROPHE, 92, APOSTROPHE, APOSTROPHE]);
      }
    }

    /** Appends one argument piece by piece; each piece ends at a quote. */
    method Argument(value: Bytes) returns (ok: bool)
      requires |bytes| <= MAX_COMMAND_BYTES
      modifies this
      ensures ok <==> |old(bytes)| + |Quoted(value)| <= MAX_COMMAND_BYTES
      ensures ok ==> bytes == old(bytes) + Quoted(value)
      ensures |bytes| <= MAX_COMMAND_BYTES
    {
      ghost var start := bytes;
      ok := Append([SPACE, APOSTROPHE]);
      if !ok {
        return;
      }
      var i := 0;
      assert value[..0] == [] && EscapeQuotes([]) == [];
      ghost var open := start + [SPACE, APOSTROPHE];
      ghost var size := |Quoted(value)|;
      assert size == 3 + |EscapeQuotes(value)|;
      assert open + EscapeQuotes(value) + [APOSTROPHE] == start + Quoted(value);
      assert bytes == open + EscapeQuotes(value[..i]);
      hide EscapeQuotes, Quoted;
      while i < |value|
        invariant 0 <= i <= |value| && |bytes| <= MAX_COMMAND_BYTES
        invariant bytes == open + EscapeQuotes(value[..i])
      {
        var j := EndOfPiece(value, i);
        var quote := j < |value|;
        var k := if quote then j + 1 else j;
        PieceStep(open, value, i, j, quote);
        ok := Piece(value[i..j], quote);
        if !ok {
          return;
        }
        i := k;
      }
      assert value[..i] == value;
      ok := Append([APOSTROPHE]);
    }
  }

  /** The next quote, or the end. */
  method EndOfPiece(value: Bytes, i: nat) returns (j: nat)
    requires i <= |value|
    ensures i <= j <= |value| && APOSTROPHE !in value[i..j]
    ensures j < |value| ==> value[j] == APOSTROPHE
    ensures i < |value| ==> j > i || value[i] == APOSTROPHE
  {
    j := i;
    while j < |value| && value[j] != APOSTROPHE
      invariant i <= j <= |value| && APOSTROPHE !in value[i..j]
    {
      j := j + 1;
    }
  }

  lemma PieceEscapes(value: Bytes, i: nat, j: nat)
    requires i <= j <= |value| && APOSTROPHE !in value[i..j]
    ensures EscapeQuotes(value[..j]) == EscapeQuotes(value[..i]) + value[i..j]
    ensures j < |value| && value[j] == APOSTROPHE ==>
      EscapeQuotes(value[..j + 1]) == EscapeQuotes(value[..j]) + [APOSTROPHE, 92, APOSTROPHE, APOSTROPHE]
  {
    assert value[..j] == value[..i] + value[i..j];
    EscapeQuotesAppend(value[..i], value[i..j]);
    NoQuotesNoEscape(value[i..j]);
    if j < |value| && value[j] == APOSTROPHE {
      assert value[..j + 1] == value[..j] + [APOSTROPHE];
      EscapeQuotesAppend(value[..j], [APOSTROPHE]);
      assert EscapeQuotes([APOSTROPHE]) == [APOSTROPHE, 92, APOSTROPHE, APOSTROPHE] + EscapeQuotes([]);
    }
  }

  lemma PieceStep(open: Bytes, value: Bytes, i: nat, j: nat, quote: bool)
    requires i <= j <= |value| && APOSTROPHE !in value[i..j]
    requires quote == (j < |value|) && (quote ==> value[j] == APOSTROPHE)
    ensures
      var whole := value[i..j] + if quote then [APOSTROPHE, 92, APOSTROPHE, APOSTROPHE] else [];
      var k := if quote then j + 1 else j;
      && open + EscapeQuotes(value[..k]) == open + EscapeQuotes(value[..i]) + whole
      && |EscapeQuotes(value[..i])| + |whole| <= |EscapeQuotes(value)|
  {
    PieceEscapes(value, i, j);
    EscapedPrefix(value, if quote then j + 1 else j);
  }

  lemma EscapedPrefix(value: Bytes, k: nat)
    requires k <= |value|
    ensures |EscapeQuotes(value[..k])| <= |EscapeQuotes(value)|
  {
    assert value == value[..k] + value[k..];
    EscapeQuotesAppend(value[..k], value[k..]);
  }

  // ----- Compiling and encoding -----

  predicate Identifier(value: Bytes, maximum: nat) {
    && value != [] && |value| <= maximum && (65 <= value[0] <= 90 || 97 <= value[0] <= 122)
    && forall i | 0 <= i < |value| :: PlainByte(value[i]) && value[i] != SLASH
  }

  predicate ArgumentName(value: Bytes) {
    Identifier(value, 64) && 46 !in value && 45 !in value
  }

  predicate ArgumentsValid(values: Value) {
    && values.Obj? && |values.fields| <= 64
    && forall i | 0 <= i < |values.fields| ::
      var v := values.fields[i].value;
      && ArgumentName(values.fields[i].key)
      && ((v.Str? && |v.text| <= 1024 && 0 !in v.text)
          || (v.Num? && v.number.Int? && -0x8000_0000 <= v.number.n <= 0x7FFF_FFFF)
          || v.Bool?)
  }

  predicate ProgramPath(value: Bytes) {
    && value != [] && value[0] == SLASH && value[|value| - 1] != SLASH && |value| <= 256
    && (forall i | 0 <= i < |value| :: PlainByte(value[i]))
    && [46] !in Components(value) && [46, 46] !in Components(value)
  }

  /** The command a valid action stands for, before its size is checked. */
  function Meant(action: PreparedAction): Option<CommandSpec> {
    match action
    case PackagePage => None
    case Ubus(service, procedure, values) =>
      if !Identifier(service, 128) || !Identifier(procedure, 128) || !ArgumentsValid(values)
         || |Print(values)| > MAX_COMMAND_BYTES then None
      else Some(CommandSpec(UBUS, [SIMPLE, CALL, service, procedure, Print(values)]))
    case Process(path, args) =>
      if !ProgramPath(path) || |args| > 64
         || (exists i | 0 <= i < |args| :: |args[i]| > 1024 || 0 in args[i]) then None
      else Some(CommandSpec(path, args))
  }

  lemma AllQuotedStep(values: seq<Bytes>, i: nat)
    requires i < |values|
    ensures |AllQuoted(values[..i + 1])| == |AllQuoted(values[..i])| + |values[i]| + 3 + 3 * Quotes(values[i])
    ensures AllQuoted(values[..i + 1]) == AllQuoted(values[..i]) + Quoted(values[i])
    ensures |AllQuoted(values[..i + 1])| <= |AllQuoted(values)|
  {
    assert values[..i + 1][..i] == values[..i];
    QuotedLength(values[i]);
    AllQuotedPrefix(values, i + 1);
  }

  lemma {:induction false} AllQuotedPrefix(values: seq<Bytes>, k: nat)
    requires k <= |values|
    ensures |AllQuoted(values[..k])| <= |AllQuoted(values)|
    decreases |values|
  {
    if k < |values| {
      AllQuotedPrefix(values[..|values| - 1], k);
      assert values[..|values| - 1][..k] == values[..k];
    } else {
      assert values[..k] == values;
    }
  }

  /** The size of the encoding, computed without encoding. */
  method EncodedSize(c: CommandSpec) returns (size: nat)
    ensures size == |Encoding(c)|
  {
    var values := [c.program] + c.arguments;
    size := 4;
    var i := 0;
    assert AllQuoted(values[..0]) == [];
    hide AllQuoted;
    while i < |values|
      invariant 0 <= i <= |values| && size == 4 + |AllQuoted(values[..i])|
    {
      AllQuotedStep(values, i);
      size := size + |values[i]| + 3 + 3 * Quotes(values[i]);
      i := i + 1;
    }
    assert values[..i] == values;
  }

  /** Compiles exactly the valid actions whose encoding fits. */
  method CompileAction(action: PreparedAction) returns (r: Result<CommandSpec, CodecError>)
    ensures r.Ok? <==> Meant(action).Some? && |Encoding(Meant(action).value)| <= MAX_COMMAND_BYTES
    ensures r.Ok? ==> r.value == Meant(action).value
  {
    var command := Meant(action);
    if command.None? {
      return Err(InvalidAction);
    }
    var size := EncodedSize(command.value);
    r := if size > MAX_COMMAND_BYTES then Err(InvalidAction) else Ok(command.value);
  }

  /** Encodes a command, or fails exactly when the encoding does not fit. */
  method EncodeRemote(c: CommandSpec) returns (r: Result<Bytes, CodecError>)
    ensures r.Ok? <==> |Encoding(c)| <= MAX_COMMAND_BYTES
    ensures r.Ok? ==> r.value == Encoding(c)
  {
    var values := [c.program] + c.arguments;
    var output := new CommandBuffer(EXEC);
    var i := 0;
    assert AllQuoted(values[..0]) == [] && EXEC + [] == EXEC;
    hide AllQuoted, Quoted, Quotes, Encoding;
    while i < |values|
      invariant 0 <= i <= |values| && output.bytes == EXEC + AllQuoted(values[..i])
      invariant |output.bytes| <= MAX_COMMAND_BYTES
    {
      AllQuotedStep(values, i);
      var ok := output.Argument(values[i]);
      if !ok {
        return Err(InvalidAction);
      }
      i := i + 1;
    }
    assert values[..i] == values;
    r := Ok(output.bytes);
  }

  /** Encoding a compiled action never fails, and the shell reads back its exact words. */
  method CompileAndEncode(action: PreparedAction) returns (r: Result<Bytes, CodecError>)
    ensures r.Ok? <==> Meant(action).Some? && |Encoding(Meant(action).value)| <= MAX_COMMAND_BYTES
    ensures r.Ok? ==>
      var command := Meant(action).value;
      Words(Between, r.value) == Some([EXEC, command.program] + command.arguments)
  {
    hide Meant, Encoding, Words;
    var compiled := CompileAction(action);
    if compiled.Err? {
      return Err(compiled.error);
    }
    ShellReadsBack(compiled.value);
    r := EncodeRemote(compiled.value);
  }
}
