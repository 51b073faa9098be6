/** Capability requirements judged against an observed input signature. */
module Capability {
  import opened Common
  import opened Json

  datatype ReviewedObject =
    | SystemObject
    | NetworkDevice
    | NetworkInterface
    | NetworkInterfaceLan
    | NetworkInterfaceWan
    | Iwinfo
    | Service
    | Luci
    | LuciRpc
    | Uci

  function FromName(name: string): Option<ReviewedObject> {
    match name
    case "system" => Some(SystemObject)
    case "network.device" => Some(NetworkDevice)
    case "network.interface" => Some(NetworkInterface)
    case "network.interface.lan" => Some(NetworkInterfaceLan)
    case "network.interface.wan" => Some(NetworkInterfaceWan)
    case "iwinfo" => Some(Iwinfo)
    case "service" => Some(Service)
    case "luci" => Some(Luci)
    case "luci-rpc" => Some(LuciRpc)
    case "uci" => Some(Uci)
    case _ => None
  }

  datatype Kind = StringKind | IntegerKind | BooleanKind

  datatype ArgumentType = StringType | IntegerType | BooleanType | ArrayType | TableType | UnknownType

  /** Declared arguments; the names of one requirement differ. */
  datatype Declared = Declared(name: string, kind: Kind)

  datatype Requirement =
    | ApkInstalledQuery
    | OpkgRootStatusFile
    | UbusMethod(objectName: string, methodName: string, arguments: seq<Declared>, contract: string)
    | Unverified

  type Signature = map<string, ArgumentType>

  datatype UnknownReason =
    | NotObservedOrHidden
    | IncompleteSignature
    | UnrecognizedType
    | UnreviewedProbe
    | ProbeUnavailable
    | InvalidObservation
    | StaleObservation

  datatype Seen = Nothing(reason: UnknownReason) | Ubus(reviewed: ReviewedObject, methods: map<string, Signature>)

  datatype Incompatibility = ArgumentTypeMismatch | InvalidPreparedAction

  datatype Verdict = Compatible | Incompatible(why: Incompatibility) | Unknown(because: UnknownReason)

  /** A prepared call with the arguments it transmits, if they form an object. */
  datatype Prepared =
    | UbusCall(target: string, procedure: string, transmitted: Option<map<string, Value>>)
    | OtherAction

  predicate Alphabetic(c: char) {
    'a' <= c <= 'z' || 'A' <= c <= 'Z'
  }

  predicate Digit(c: char) {
    '0' <= c <= '9'
  }

  predicate Identifier(s: string) {
    && s != "" && |s| <= 64 && Alphabetic(s[0])
    && forall i | 0 <= i < |s| :: Alphabetic(s[i]) || Digit(s[i]) || s[i] == '_'
  }

  predicate UbusIdentifier(s: string) {
    && s != "" && |s| <= 128 && Alphabetic(s[0])
    && forall i | 0 <= i < |s| :: Alphabetic(s[i]) || Digit(s[i]) || s[i] in "_.-"
  }

  /** Where the last ".v" starts. */
  function LastVersionMark(s: string): Option<nat> {
    if |s| < 2 then None
    else if s[|s| - 2] == '.' && s[|s| - 1] == 'v' then Some(|s| - 2)
    else LastVersionMark(s[..|s| - 1])
  }

  function VersionNumber(s: string): nat
    requires forall i | 0 <= i < |s| :: Digit(s[i])
  {
    if s == "" then 0
    else
      assert Digit(s[|s| - 1]);
      10 * VersionNumber(s[..|s| - 1]) + (s[|s| - 1] as int - '0' as int)
  }

  predicate ResponseIdentifier(s: string) {
    var at := LastVersionMark(s);
    && at.Some? && at.value + 2 <= |s| <= 128 && UbusIdentifier(s[..at.value])
    && var version := s[at.value + 2..];
       && version != "" && version[0] != '0'
       && (forall i | 0 <= i < |version| :: Digit(version[i])) && VersionNumber(version) < 0x1_0000_0000
  }

  const MAX_OBSERVED_METHODS := 128
  const MAX_OBSERVED_ARGUMENTS := 64

  predicate ValidShape(r: Requirement) {
    r.UbusMethod? ==>
      && UbusIdentifier(r.objectName) && UbusIdentifier(r.methodName) && |r.arguments| <= MAX_OBSERVED_ARGUMENTS
      && (forall i | 0 <= i < |r.arguments| :: Identifier(r.arguments[i].name)) && ResponseIdentifier(r.contract)
  }

  predicate ValidSeen(seen: Seen) {
    seen.Ubus? ==>
      && |seen.methods| <= MAX_OBSERVED_METHODS
      && forall m | m in seen.methods ::
        && UbusIdentifier(m) && |seen.methods[m]| <= MAX_OBSERVED_ARGUMENTS
        && forall a | a in seen.methods[m] :: |a| <= 64 && UbusIdentifier(a)
  }

  function ProbeObject(r: Requirement): Option<ReviewedObject> {
    if r.UbusMethod? then FromName(r.objectName) else None
  }

  function Expected(k: Kind): ArgumentType {
    match k
    case StringKind => StringType
    case IntegerKind => IntegerType
    case BooleanKind => BooleanType
  }

  predicate ValueMatches(v: Value, k: Kind) {
    match k
    case StringKind => v.Str? && |v.text| <= 1024 && 0 !in v.text
    case IntegerKind => v.Num? && v.number.Int? && -0x8000_0000 <= v.number.n <= 0x7FFF_FFFF
    case BooleanKind => v.Bool?
  }

  /** The declared arguments a call will transmit, or all of them without a call. */
  predicate Considered(a: Declared, actual: Option<map<string, Value>>) {
    actual.Some? ==> a.name in actual.value
  }

  /** Every transmitted value is declared and of its declared kind. */
  predicate DeclaredValues(arguments: seq<Declared>, actual: map<string, Value>) {
    && |actual| <= |arguments|
    && forall name | name in actual :: DeclaredAs(arguments, name, actual[name])
  }

  predicate DeclaredAs(arguments: seq<Declared>, name: string, v: Value) {
    exists i | 0 <= i < |arguments| :: arguments[i].name == name && ValueMatches(v, arguments[i].kind)
  }

  predicate Agrees(a: Declared, signature: Signature) {
    a.name in signature && signature[a.name] == Expected(a.kind)
  }

  predicate Conflicts(a: Declared, signature: Signature) {
    a.name in signature && !signature[a.name].UnknownType? && signature[a.name] != Expected(a.kind)
  }

  /** What the considered arguments say together: a known conflict weighs most, then a
      missing argument, then an unrecognized type. */
  function JudgeArguments(arguments: seq<Declared>, signature: Signature, actual: Option<map<string, Value>>): Verdict {
    if exists i | 0 <= i < |arguments| :: Considered(arguments[i], actual) && Conflicts(arguments[i], signature)
    then Incompatible(ArgumentTypeMismatch)
    else if exists i | 0 <= i < |arguments| :: Considered(arguments[i], actual) && arguments[i].name !in signature
    then Unknown(IncompleteSignature)
    else if forall i | 0 <= i < |arguments| :: Considered(arguments[i], actual) ==> Agrees(arguments[i], signature)
    then Compatible
    else Unknown(UnrecognizedType)
  }

  method EvaluateArguments(arguments: seq<Declared>, signature: Signature, actual: Option<map<string, Value>>)
    returns (v: Verdict)
    ensures v == JudgeArguments(arguments, signature, actual)
  {
    var unknownType, incomplete := false, false;
    var i := 0;
    while i < |arguments|
      invariant 0 <= i <= |arguments|
      invariant forall j | 0 <= j < i :: Considered(arguments[j], actual) ==> !Conflicts(arguments[j], signature)
      invariant incomplete <==>
        exists j | 0 <= j < i :: Considered(arguments[j], actual) && arguments[j].name !in signature
      invariant unknownType <==>
        exists j | 0 <= j < i ::
          Considered(arguments[j], actual) && arguments[j].name in signature && !Agrees(arguments[j], signature)
    {
      var a := arguments[i];
      i := i + 1;
      if Considered(a, actual) {
        if a.name !in signature {
          incomplete := true;
        } else if signature[a.name].UnknownType? {
          unknownType := true;
        } else if signature[a.name] != Expected(a.kind) {
          assert Conflicts(arguments[i - 1], signature);
          return Incompatible(ArgumentTypeMismatch);
        }
      }
    }
    if incomplete {
      return Unknown(IncompleteSignature);
    }
    v := if unknownType then Unknown(UnrecognizedType) else Compatible;
  }

  /** The verdict on an observation, for a prepared call or for the requirement in general. */
  function Judge(r: Requirement, seen: Seen, prepared: Option<Prepared>): Verdict {
    if !r.UbusMethod? then Unknown(UnreviewedProbe)
    else if !ValidShape(r) then Unknown(InvalidObservation)
    else if ProbeObject(r).None? then Unknown(UnreviewedProbe)
    else if prepared.Some? && !Transmittable(r, prepared.value) then Incompatible(InvalidPreparedAction)
    else if seen.Nothing? then Unknown(seen.reason)
    else if seen.reviewed != ProbeObject(r).value || !ValidSeen(seen) then Unknown(InvalidObservation)
    else if r.methodName !in seen.methods then Unknown(NotObservedOrHidden)
    else
      JudgeArguments(r.arguments, seen.methods[r.methodName],
        if prepared.None? then None else prepared.value.transmitted)
  }

  predicate Transmittable(r: Requirement, p: Prepared)
    requires r.UbusMethod?
  {
    && p.UbusCall? && p.target == r.objectName && p.procedure == r.methodName
    && p.transmitted.Some? && DeclaredValues(r.arguments, p.transmitted.value)
  }

  method Evaluate(r: Requirement, seen: Seen, prepared: Option<Prepared>) returns (v: Verdict)
    ensures v == Judge(r, seen, prepared)
  {
    if !r.UbusMethod? {
      return Unknown(UnreviewedProbe);
    }
    if !ValidShape(r) {
      return Unknown(InvalidObservation);
    }
    if ProbeObject(r).None? {
      return Unknown(UnreviewedProbe);
    }
    if prepared.Some? && !Transmittable(r, prepared.value) {
      return Incompatible(InvalidPreparedAction);
    }
    if seen.Nothing? {
      return Unknown(seen.reason);
    }
    if seen.reviewed != ProbeObject(r).value || !ValidSeen(seen) {
      return Unknown(InvalidObservation);
    }
    if r.methodName !in seen.methods {
      return Unknown(NotObservedOrHidden);
    }
    v := EvaluateArguments(r.arguments, seen.methods[r.methodName],
      if prepared.None? then None else prepared.value.transmitted);
  }

  /** A call is judged compatible exactly when it is the reviewed call, a valid observation of
      its object lists the method, and each transmitted value has the kind declared for it and
      every declaration of a transmitted name is of the observed type. */
  lemma CompatibleCall(r: Requirement, seen: Seen, p: Prepared)
    ensures Judge(r, seen, Some(p)) == Compatible <==>
      && r.UbusMethod? && ValidShape(r) && FromName(r.objectName).Some?
      && p.UbusCall? && p.target == r.objectName && p.procedure == r.methodName && p.transmitted.Some?
      && |p.transmitted.value| <= |r.arguments|
      && seen.Ubus? && ValidSeen(seen) && Some(seen.reviewed) == FromName(r.objectName) && r.methodName in seen.methods
      && (forall name | name in p.transmitted.value :: DeclaredAs(r.arguments, name, p.transmitted.value[name]))
      && (forall i | 0 <= i < |r.arguments| && r.arguments[i].name in p.transmitted.value ::
            Agrees(r.arguments[i], seen.methods[r.methodName]))
  {
    hide JudgeArguments, ValidShape, ValidSeen, FromName, DeclaredAs, Agrees;
    if r.UbusMethod? && p.UbusCall? && p.transmitted.Some? && seen.Ubus? && r.methodName in seen.methods {
      CompatibleArguments(r.arguments, seen.methods[r.methodName], p.transmitted);
      assert forall i | 0 <= i < |r.arguments| ::
        Considered(r.arguments[i], p.transmitted) <==> r.arguments[i].name in p.transmitted.value;
    }
  }

  /** A call is judged incompatible exactly when it is not the reviewed call with declared
      values, whatever was observed, or a valid observation of its object gives a transmitted
      argument a known type other than the declared one. */
  lemma IncompatibleCall(r: Requirement, seen: Seen, p: Prepared)
    ensures Judge(r, seen, Some(p)) == Incompatible(InvalidPreparedAction) <==>
      && r.UbusMethod? && ValidShape(r) && FromName(r.objectName).Some?
      && !(&& p.UbusCall? && p.target == r.objectName && p.procedure == r.methodName && p.transmitted.Some?
           && |p.transmitted.value| <= |r.arguments|
           && forall name | name in p.transmitted.value :: DeclaredAs(r.arguments, name, p.transmitted.value[name]))
    ensures Judge(r, seen, Some(p)) == Incompatible(ArgumentTypeMismatch) <==>
      && r.UbusMethod? && ValidShape(r) && FromName(r.objectName).Some? && Transmittable(r, p)
      && seen.Ubus? && ValidSeen(seen) && Some(seen.reviewed) == FromName(r.objectName) && r.methodName in seen.methods
      && exists i | 0 <= i < |r.arguments| ::
           && r.arguments[i].name in p.transmitted.value
           && Conflicts(r.arguments[i], seen.methods[r.methodName])
  {
    hide ValidShape, ValidSeen, FromName, DeclaredAs;
    if r.UbusMethod? && p.UbusCall? && p.transmitted.Some? && seen.Ubus? && r.methodName in seen.methods {
      assert forall i | 0 <= i < |r.arguments| ::
        Considered(r.arguments[i], p.transmitted) <==> r.arguments[i].name in p.transmitted.value;
    }
  }

  /** The verdict on a requirement in general speaks for every call of it: what is compatible
      in general is compatible for each call, and a call that conflicts conflicts in general. */
  lemma GeneralVerdictCovers(r: Requirement, seen: Seen, p: Prepared)
    requires r.UbusMethod? && Transmittable(r, p)
    ensures Judge(r, seen, None) == Compatible ==> Judge(r, seen, Some(p)) == Compatible
    ensures Judge(r, seen, Some(p)) == Incompatible(ArgumentTypeMismatch) ==>
              Judge(r, seen, None) == Incompatible(ArgumentTypeMismatch)
  {
    hide ValidShape, ValidSeen, FromName, Agrees, Conflicts;
    if seen.Ubus? && r.methodName in seen.methods {
      var all, sent := JudgeArguments(r.arguments, seen.methods[r.methodName], None),
                       JudgeArguments(r.arguments, seen.methods[r.methodName], p.transmitted);
      CompatibleArguments(r.arguments, seen.methods[r.methodName], None);
      CompatibleArguments(r.arguments, seen.methods[r.methodName], p.transmitted);
    }
  }

  lemma CompatibleArguments(arguments: seq<Declared>, signature: Signature, actual: Option<map<string, Value>>)
    ensures JudgeArguments(arguments, signature, actual) == Compatible <==>
      forall i | 0 <= i < |arguments| :: Considered(arguments[i], actual) ==> Agrees(arguments[i], signature)
  {
  }
}
