/** Concurrent requests as interleaved steps: admission permits, the audit gate with its
    waiters and its failure latch, deadlines, and calls into the backend. */
module Dispatcher {
  import opened Common

  datatype Limits = Limits(maxConcurrent: nat, timeout: nat)

  datatype Work = Invocation | Paged | Status

  /** What a request asks the audit sink to record. */
  datatype What = Rejection | Start | Finish(success: bool)

  datatype AuditStage = Entering | Waiting | Writing | Woken(ok: bool)

  /** Where one request stands. */
  datatype Place =
    | Arriving
    | Allowed(work: Work)
    | Auditing(stage: AuditStage, what: What, work: Work)
    | Observing(work: Work, called: bool, deadline: nat)
    | Judging(deadline: nat)
    | Cleared(deadline: nat)
    | Executing(deadline: nat)
    | Capturing(called: bool, deadline: nat)
    | Replied(served: bool)
    | Dropped

  /** The only owner of the audit gate: a worker writing one event, whoever still waits. */
  datatype Worker = Worker(id: nat, what: What, written: Option<bool>)

  /** What a request visibly does. */
  datatype Act =
    | Arrive
    | Authorize(work: Work)
    | Refuse
    | Admit
    | Record(what: What)
    | Probe
    | Judge(compatible: bool)
    | Execute
    | Capture
    | Answer(at: nat, due: nat)
    | Reply(served: bool)

  datatype Event = Event(id: nat, act: Act)

  datatype System = System(
    limits: Limits,
    requests: map<nat, Place>,
    next: nat,
    now: nat,
    permits: int,
    waiters: int,
    failed: bool,
    gate: Option<Worker>,
    trace: seq<Event>)

  /** What a request may do next. */
  datatype Deed =
    | Decide(allowed: Option<Work>)
    | Enter(valid: bool)
    | Drop
    | JoinAudit
    | TakeGate
    | Wake(kept: bool)
    | GiveUp
    | CallProbe
    | Observed(ok: bool)
    | GetVerdict(compatible: bool)
    | CallExecute
    | CallCapture
    | Complete(ok: bool)
    | Expire

  /** One atomic step of the clock, of a client, of the gate's worker, or of some request. */
  datatype Move = Tick(elapsed: nat) | Come | Write(ok: bool) | Release | Panic | By(id: nat, deed: Deed)

  predicate HoldsPermit(p: Place) {
    || (p.Auditing? && !p.what.Rejection?)
    || p.Observing? || p.Judging? || p.Cleared? || p.Executing? || p.Capturing?
  }

  predicate HoldsWaiter(p: Place) {
    p.Auditing? && !p.stage.Entering?
  }

  function One(b: bool): int {
    if b then 1 else 0
  }

  function PlaceOf(s: System, id: nat): Place {
    if id in s.requests then s.requests[id] else Dropped
  }

  /** A request changes place; guards are acquired and dropped with it. */
  function Go(s: System, id: nat, to: Place, acts: seq<Act>): System {
    var from := PlaceOf(s, id);
    s.(requests := s.requests[id := to],
       permits := s.permits + One(HoldsPermit(from)) - One(HoldsPermit(to)),
       waiters := s.waiters + One(HoldsWaiter(from)) - One(HoldsWaiter(to)),
       trace := s.trace + Events(id, acts))
  }

  function Events(id: nat, acts: seq<Act>): (r: seq<Event>)
    ensures |r| == |acts|
  {
    seq(|acts|, i requires 0 <= i < |acts| => Event(id, acts[i]))
  }

  function Initial(limits: Limits): System {
    System(limits, map[], 1, 0, limits.maxConcurrent, limits.maxConcurrent + 1, false, None, [])
  }

  /** What one deed does: the next place, the acts shown, whether it sets the latch or takes
      the gate. */
  datatype Effect = Effect(to: Place, acts: seq<Act>, latches: bool, takes: bool)

  function To(to: Place, acts: seq<Act>): Effect {
    Effect(to, acts, false, false)
  }

  /** The record was not confirmed: the request is answered with an error. */
  function Unrecorded(latches: bool): Effect {
    Effect(Replied(false), [Reply(false)], latches, false)
  }

  /** The record is confirmed: a rejection is answered, a start begins the body, and a finish
      answers with the body's result. */
  function Confirmed(s: System, p: Place, kept: bool): Effect
    requires p.Auditing?
  {
    match p.what
    case Rejection => To(Replied(false), [Reply(false)])
    case Start =>
      var deadline := s.now + s.limits.timeout;
      To(if p.work.Paged? then Capturing(false, deadline) else Observing(p.work, false, deadline), [])
    case Finish(ok) =>
      var served := ok && (p.work.Paged? ==> kept);
      To(Replied(served), [Reply(served)])
  }

  function CloseBody(ok: bool, work: Work, acts: seq<Act>): Effect {
    To(Auditing(Entering, Finish(ok), work), acts)
  }

  predicate InBody(p: Place) {
    p.Observing? || p.Judging? || p.Cleared? || p.Executing? || p.Capturing?
  }

  function WorkOf(p: Place): Work
    requires InBody(p)
  {
    if p.Observing? then p.work else if p.Capturing? then Paged else Invocation
  }

  function Due(p: Place): nat
    requires InBody(p)
  {
    match p
    case Observing(_, _, d) => d
    case Judging(d) => d
    case Cleared(d) => d
    case Executing(d) => d
    case Capturing(_, d) => d
  }

  /** The place from which a body may answer. */
  predicate MayAnswer(p: Place) {
    p.Executing? || p.Capturing? || (p.Observing? && p.work.Status?)
  }

  /** The effect of one move, or None when it is not enabled. */
  function Step(s: System, m: Move): Option<System> {
    match m
    case Tick(d) => Some(s.(now := s.now + d))
    case Come => Some(Go(s.(next := s.next + 1), s.next, Arriving, [Arrive]))
    case Write(ok) => StepWrite(s, ok)
    case Release => StepRelease(s)
    case Panic => StepPanic(s)
    case By(id, deed) =>
      if id !in s.requests then None
      else
        var p := s.requests[id];
        match EffectOf(s, deed, p)
        case None => None
        case Some(e) => Some(Applied(s, id, p, e))
  }

  function Applied(s: System, id: nat, p: Place, e: Effect): System {
    Go(s.(failed := s.failed || e.latches,
          gate := if e.takes && p.Auditing? then Some(Worker(id, p.what, None)) else s.gate),
       id, e.to, e.acts)
  }

  function EffectOf(s: System, deed: Deed, p: Place): Option<Effect> {
    match deed
    case Decide(allowed) =>
      if !p.Arriving? then None
      else if allowed.None? then Some(To(Auditing(Entering, Rejection, Invocation), [Refuse]))
      else Some(To(Allowed(allowed.value), [Authorize(allowed.value)]))
    case Enter(valid) =>
      if !p.Allowed? then None
      else if !valid || s.permits == 0 then Some(To(Auditing(Entering, Rejection, p.work), [Refuse]))
      else Some(To(Auditing(Entering, Start, p.work), [Admit]))
    case Drop => if p.Replied? then None else Some(To(Dropped, []))
    case JoinAudit =>
      if !(p.Auditing? && p.stage.Entering?) then None
      else if s.failed || s.waiters == 0 then Some(Unrecorded(false))
      else Some(To(p.(stage := Waiting), []))
    case TakeGate =>
      if !(p.Auditing? && p.stage.Waiting?) || s.gate.Some? then None
      else if s.failed then Some(Unrecorded(true))
      else Some(Effect(p.(stage := Writing), [], false, true))
    case Wake(kept) =>
      if !(p.Auditing? && p.stage.Woken?) then None
      else if p.stage.ok then Some(Confirmed(s, p, kept))
      else Some(Unrecorded(true))
    case GiveUp =>
      if !(p.Auditing? && (p.stage.Waiting? || p.stage.Writing?)) then None
      else Some(Unrecorded(true))
    case _ => if InBody(p) then BodyEffect(s, deed, p) else None
  }

  /** The worker's write returns; a failed write sets the latch before the gate opens. */
  function StepWrite(s: System, ok: bool): Option<System> {
    if s.gate.None? || s.gate.value.written.Some? then None
    else
      var w := s.gate.value;
      Some(s.(gate := Some(w.(written := Some(ok))),
              failed := s.failed || !ok,
              trace := s.trace + if ok then [Event(w.id, Record(w.what))] else []))
  }

  function StepRelease(s: System): Option<System> {
    if s.gate.None? || s.gate.value.written.None? then None
    else
      var w := s.gate.value;
      var p := PlaceOf(s, w.id);
      var open := s.(gate := None);
      Some(if p.Auditing? && p.stage.Writing? then Go(open, w.id, p.(stage := Woken(w.written.value)), []) else open)
  }

  /** A write that panics opens the gate first; the latch is left to the request that waits. */
  function StepPanic(s: System): Option<System> {
    if s.gate.None? || s.gate.value.written.Some? then None
    else
      var w := s.gate.value;
      var p := PlaceOf(s, w.id);
      var open := s.(gate := None);
      Some(if p.Auditing? && p.stage.Writing? then Go(open, w.id, p.(stage := Woken(false)), []) else open)
  }

  function BodyEffect(s: System, deed: Deed, p: Place): Option<Effect>
    requires InBody(p)
  {
    match deed
    case CallProbe =>
      if !p.Observing? || p.called then None else Some(To(Observing(p.work, true, p.deadline), [Probe]))
    case Observed(ok) =>
      if !p.Observing? then None
      else if !ok || s.now >= p.deadline then Some(CloseBody(false, p.work, []))
      else if p.work.Invocation? then Some(To(Judging(p.deadline), []))
      else None
    case GetVerdict(compatible) =>
      if !p.Judging? then None
      else if compatible then Some(To(Cleared(p.deadline), [Judge(true)]))
      else Some(CloseBody(false, Invocation, [Judge(false)]))
    case CallExecute =>
      if !p.Cleared? then None
      else if s.now >= p.deadline then Some(CloseBody(false, Invocation, []))
      else Some(To(Executing(p.deadline), [Execute]))
    case CallCapture =>
      if !p.Capturing? || p.called then None else Some(To(Capturing(true, p.deadline), [Capture]))
    case Complete(ok) =>
      if !MayAnswer(p) then None
      else if !ok || s.now >= Due(p) then Some(CloseBody(false, WorkOf(p), []))
      else Some(CloseBody(true, WorkOf(p), [Answer(s.now, Due(p))]))
    case Expire => if s.now < Due(p) then None else Some(CloseBody(false, WorkOf(p), []))
    case _ => None
  }

  /** A run: every move enabled where it is taken. */
  function Run(s: System, moves: seq<Move>): Option<System> {
    if moves == [] then Some(s)
    else match Run(s, moves[..|moves| - 1])
      case None => None
      case Some(t) => Step(t, moves[|moves| - 1])
  }

  // ----- The audit bracket of one request -----

  /** How far the visible story of one request has come. */
  datatype Chapter =
    | Unseen
    | Arrived
    | Authorized(work: Work)
    | Refused
    | Rejected
    | Admitted(work: Work)
    | Started(work: Work)
    | Probed(work: Work)
    | Found
    | Blocked
    | Executed
    | Captured
    | Answered(work: Work)
    | Closed(work: Work)
    | Failed
    | Served(work: Work)

  /** The bracket automaton: authorization and admission before the recorded start, the start
      before any backend call, a compatible verdict before execution, an answer before its
      deadline, and the recorded success before an Ok reply. */
  function Turn(c: Chapter, a: Act): Option<Chapter> {
    match a
    case Arrive => if c.Unseen? then Some(Arrived) else None
    case Authorize(w) => if c.Arrived? then Some(Authorized(w)) else None
    case Refuse => if c.Arrived? || c.Authorized? then Some(Refused) else None
    case Admit => if c.Authorized? then Some(Admitted(c.work)) else None
    case Record(Rejection) => if c.Refused? then Some(Rejected) else None
    case Record(Start) => if c.Admitted? then Some(Started(c.work)) else None
    case Record(Finish(true)) => if c.Answered? then Some(Closed(c.work)) else None
    case Record(Finish(false)) => if Unanswered(c) then Some(Failed) else None
    case Probe => if c.Started? && !c.work.Paged? then Some(Probed(c.work)) else None
    case Judge(ok) =>
      if (c.Started? || c.Probed?) && c.work.Invocation? then Some(if ok then Found else Blocked) else None
    case Execute => if c.Found? then Some(Executed) else None
    case Capture => if c == Started(Paged) then Some(Captured) else None
    case Answer(at, due) =>
      if at >= due then None
      else if c.Executed? then Some(Answered(Invocation))
      else if c.Captured? || c == Started(Paged) then Some(Answered(Paged))
      else if c == Started(Status) || c == Probed(Status) then Some(Answered(Status))
      else None
    case Reply(served) => if !served then Some(c) else if c.Closed? then Some(Served(c.work)) else None
  }

  predicate Unanswered(c: Chapter) {
    c.Started? || c.Probed? || c.Found? || c.Blocked? || c.Executed? || c.Captured?
  }

  /** The acts of one request, in order. */
  function Story(trace: seq<Event>, id: nat): seq<Act> {
    if trace == [] then []
    else
      var e := trace[|trace| - 1];
      Story(trace[..|trace| - 1], id) + if e.id == id then [e.act] else []
  }

  function Read(acts: seq<Act>): Option<Chapter> {
    if acts == [] then Some(Unseen)
    else
      var c := Read(acts[..|acts| - 1]);
      if c.None? then None else Turn(c.value, acts[|acts| - 1])
  }

  function ChapterOf(trace: seq<Event>, id: nat): Option<Chapter> {
    Read(Story(trace, id))
  }
}
