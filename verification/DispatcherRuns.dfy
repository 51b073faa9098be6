/** Safety of every interleaving: bounded admission, audit brackets, and the failure latch. */
module DispatcherRuns {
  import opened Common
  import opened Dispatcher

  // ----- Stories -----

  lemma StoryOfOne(trace: seq<Event>, id: nat, act: Act, j: nat)
    ensures Story(trace + [Event(id, act)], j) == Story(trace, j) + if j == id then [act] else []
  {
    assert (trace + [Event(id, act)])[..|trace|] == trace;
  }

  /** The chapter after at most one more act. */
  function Later(c: Option<Chapter>, acts: seq<Act>): Option<Chapter>
    requires |acts| <= 1
  {
    if acts == [] || c.None? then c else Turn(c.value, acts[0])
  }

  lemma ChapterLater(trace: seq<Event>, id: nat, acts: seq<Act>, j: nat)
    requires |acts| <= 1
    ensures ChapterOf(trace + Events(id, acts), j) == if j == id then Later(ChapterOf(trace, id), acts) else ChapterOf(trace, j)
  {
    if acts == [] {
      assert trace + Events(id, acts) == trace;
    } else {
      assert Events(id, acts) == [Event(id, acts[0])];
      StoryOfOne(trace, id, acts[0], j);
      var told := Story(trace, j);
      assert told + [] == told;
      assert (told + [acts[0]])[..|told|] == told;
    }
  }

  // ----- The invariant -----

  function Holders(requests: map<nat, Place>): set<nat> {
    set id | id in requests && HoldsPermit(requests[id])
  }

  function Waiters(requests: map<nat, Place>): set<nat> {
    set id | id in requests && HoldsWaiter(requests[id])
  }

  /** The semaphores count the requests that hold their guards. */
  ghost predicate Balanced(s: System) {
    && s.permits + |Holders(s.requests)| == s.limits.maxConcurrent
    && s.waiters + |Waiters(s.requests)| == s.limits.maxConcurrent + 1
    && s.permits >= 0 && s.waiters >= 0
  }

  predicate Before(what: What, c: Chapter) {
    match what
    case Rejection => c.Refused?
    case Start => c.Admitted?
    case Finish(ok) => if ok then c.Answered? else Unanswered(c)
  }

  predicate After(what: What, c: Chapter) {
    match what
    case Rejection => c.Rejected?
    case Start => c.Started?
    case Finish(ok) => if ok then c.Closed? else c.Failed?
  }

  predicate Written(gate: Option<Worker>, stage: AuditStage) {
    stage == Woken(true) || (stage.Writing? && gate.Some? && gate.value.written == Some(true))
  }

  /** The chapter of a request agrees with its place. */
  predicate Fits(gate: Option<Worker>, p: Place, c: Chapter) {
    match p
    case Arriving => c.Arrived?
    case Allowed(w) => c == Authorized(w)
    case Auditing(stage, what, w) =>
      && (if Written(gate, stage) then After(what, c) else Before(what, c))
      && (what.Start? ==> c == Admitted(w) || c == Started(w))
    case Observing(w, called, _) => !w.Paged? && c == if called then Probed(w) else Started(w)
    case Judging(_) => c == Started(Invocation) || c == Probed(Invocation)
    case Cleared(_) => c.Found?
    case Executing(_) => c.Executed?
    case Capturing(called, _) => c == if called then Captured else Started(Paged)
    case Replied(served) => served ==> c.Served?
    case Dropped => true
  }

  ghost predicate RequestOk(s: System, id: nat) {
    var c := ChapterOf(s.trace, id);
    && c.Some?
    && (if id in s.requests
        then
          var p := s.requests[id];
          && id < s.next && Fits(s.gate, p, c.value)
          && (p.Auditing? && p.stage.Writing? ==>
                s.gate.Some? && s.gate.value.id == id && s.gate.value.what == p.what)
        else c.value.Unseen?)
  }

  /** The worker's event is still due until it is written; its request waits or has left. */
  ghost predicate GateOk(s: System) {
    s.gate.Some? ==>
      var w := s.gate.value;
      var c := ChapterOf(s.trace, w.id);
      && w.id in s.requests && c.Some?
      && (w.written.None? ==> Before(w.what, c.value))
      && (w.written == Some(false) ==> s.failed)
      && var p := s.requests[w.id];
         p.Replied? || p.Dropped? || (p.Auditing? && p.stage.Writing?)
  }

  ghost predicate Inv(s: System) {
    && Balanced(s) && GateOk(s)
    && forall id: nat :: RequestOk(s, id)
  }

  lemma CountStep(requests: map<nat, Place>, id: nat, to: Place)
    ensures
      var from := if id in requests then requests[id] else Dropped;
      && |Holders(requests[id := to])| == |Holders(requests)| - One(HoldsPermit(from)) + One(HoldsPermit(to))
      && |Waiters(requests[id := to])| == |Waiters(requests)| - One(HoldsWaiter(from)) + One(HoldsWaiter(to))
  {
    var moved := requests[id := to];
    var from := if id in requests then requests[id] else Dropped;
    assert !HoldsPermit(Dropped) && !HoldsWaiter(Dropped);
    hide HoldsPermit, HoldsWaiter;
    SwapCount(Holders(requests), Holders(moved), id, HoldsPermit(from), HoldsPermit(to));
    SwapCount(Waiters(requests), Waiters(moved), id, HoldsWaiter(from), HoldsWaiter(to));
  }

  lemma SwapCount(a: set<nat>, b: set<nat>, id: nat, was: bool, now: bool)
    requires forall j: nat | j != id :: j in a <==> j in b
    requires (id in a <==> was) && (id in b <==> now)
    ensures |b| == |a| - One(was) + One(now)
  {
    var rest := a - {id};
    assert b - {id} == rest;
    assert a == if was then rest + {id} else rest;
    assert b == if now then rest + {id} else rest;
  }

  /** What a request must show to move on without disturbing the others. */
  lemma GoKeeps(s: System, t: System, id: nat, to: Place, acts: seq<Act>)
    requires Inv(s) && |acts| <= 1 && (id in s.requests || s.next == id == t.next - 1)
    requires t == s.(next := t.next, failed := t.failed, gate := t.gate) && (s.failed ==> t.failed) && t.next >= s.next
    requires t.gate == s.gate
      || (s.gate.None? && t.gate.Some? && t.gate.value.id == id)
      || (t.gate.None? && s.gate.Some? && s.gate.value.id == id)
    requires
      var c := Later(ChapterOf(s.trace, id), acts);
      && c.Some? && Fits(t.gate, to, c.value)
      && (to.Auditing? && to.stage.Writing? ==> t.gate.Some? && t.gate.value.id == id && t.gate.value.what == to.what)
      && (t.gate.Some? && t.gate.value.id == id ==>
            && (t.gate.value.written.None? ==> Before(t.gate.value.what, c.value))
            && (t.gate.value.written == Some(false) ==> t.failed)
            && (to.Replied? || to.Dropped? || (to.Auditing? && to.stage.Writing?)))
    requires
      var from := PlaceOf(s, id);
      && s.permits + One(HoldsPermit(from)) >= One(HoldsPermit(to))
      && s.waiters + One(HoldsWaiter(from)) >= One(HoldsWaiter(to))
    ensures Inv(Go(t, id, to, acts))
  {
    var u := Go(t, id, to, acts);
    CountStep(s.requests, id, to);
    assert RequestOk(s, id);
    forall j: nat ensures RequestOk(u, j) {
      ChapterLater(s.trace, id, acts, j);
      assert RequestOk(s, j);
    }
    if t.gate.Some? {
      ChapterLater(s.trace, id, acts, t.gate.value.id);
    }
  }

  // ----- Every step keeps the invariant -----

  lemma WriteKeeps(s: System, ok: bool)
    requires Inv(s) && StepWrite(s, ok).Some?
    ensures Inv(StepWrite(s, ok).value)
  {
    var w, t := s.gate.value, StepWrite(s, ok).value;
    var acts := if ok then [Record(w.what)] else [];
    assert Events(w.id, acts) == if ok then [Event(w.id, Record(w.what))] else [];
    assert RequestOk(s, w.id);
    forall j: nat ensures RequestOk(t, j) {
      ChapterLater(s.trace, w.id, acts, j);
      assert RequestOk(s, j);
    }
    ChapterLater(s.trace, w.id, acts, w.id);
  }

  lemma ReleaseKeeps(s: System)
    requires Inv(s) && StepRelease(s).Some?
    ensures Inv(StepRelease(s).value)
  {
    var w := s.gate.value;
    var p := s.requests[w.id];
    assert RequestOk(s, w.id);
    if p.Auditing? && p.stage.Writing? {
      GoKeeps(s, s.(gate := None), w.id, p.(stage := Woken(w.written.value)), []);
    } else {
      var t := StepRelease(s).value;
      forall j: nat ensures RequestOk(t, j) {
        assert RequestOk(s, j);
      }
    }
  }

  lemma PanicKeeps(s: System)
    requires Inv(s) && StepPanic(s).Some?
    ensures Inv(StepPanic(s).value)
  {
    var w := s.gate.value;
    var p := s.requests[w.id];
    assert RequestOk(s, w.id);
    if p.Auditing? && p.stage.Writing? {
      GoKeeps(s, s.(gate := None), w.id, p.(stage := Woken(false)), []);
    } else {
      var t := StepPanic(s).value;
      forall j: nat ensures RequestOk(t, j) {
        assert RequestOk(s, j);
      }
    }
  }

  lemma ComeKeeps(s: System)
    requires Inv(s)
    ensures Inv(Step(s, Come).value)
  {
    assert RequestOk(s, s.next);
    GoKeeps(s, s.(next := s.next + 1), s.next, Arriving, [Arrive]);
  }

  /** A request inside its body concerns nobody else. */
  lemma BodyMove(s: System, id: nat, to: Place, acts: seq<Act>)
    requires Inv(s) && |acts| <= 1 && id in s.requests && InBody(s.requests[id])
    requires InBody(to) || (to.Auditing? && to.stage.Entering? && to.what.Finish?)
    requires Later(ChapterOf(s.trace, id), acts).Some? && Fits(None, to, Later(ChapterOf(s.trace, id), acts).value)
    ensures Inv(Go(s, id, to, acts))
  {
    assert RequestOk(s, id);
    GoKeeps(s, s, id, to, acts);
  }

  lemma BodyKeeps(s: System, id: nat, deed: Deed)
    requires Inv(s) && id in s.requests && InBody(s.requests[id]) && BodyEffect(s, deed, s.requests[id]).Some?
    ensures
      var e := BodyEffect(s, deed, s.requests[id]).value;
      && !e.latches && !e.takes && Inv(Go(s, id, e.to, e.acts))
  {
    var p := s.requests[id];
    assert RequestOk(s, id);
    var c := ChapterOf(s.trace, id);
    assert Later(c, []) == c;
    var e := BodyEffect(s, deed, p).value;
    BodyTurns(s, p, deed, c.value);
    hide Inv, RequestOk, GateOk, ChapterOf, Go, BodyEffect;
    BodyMove(s, id, e.to, e.acts);
  }

  /** Inside the body every deed turns the story to the chapter of the next place. */
  lemma BodyTurns(s: System, p: Place, deed: Deed, c: Chapter)
    requires InBody(p) && Fits(s.gate, p, c) && BodyEffect(s, deed, p).Some?
    ensures
      var e := BodyEffect(s, deed, p).value;
      && |e.acts| <= 1 && !e.latches && !e.takes
      && (InBody(e.to) || (e.to.Auditing? && e.to.stage.Entering? && e.to.what.Finish?))
      && Later(Some(c), e.acts).Some? && Fits(None, e.to, Later(Some(c), e.acts).value)
  {
  }

  /** The record is refused or lost: the request leaves with an error, whoever still writes. */
  lemma LeaveKeeps(s: System, failed: bool, id: nat, to: Place, acts: seq<Act>)
    requires Inv(s) && id in s.requests && (s.failed ==> failed)
    requires (to.Dropped? && acts == []) || (to == Replied(false) && acts == [Reply(false)])
    ensures Inv(Go(s.(failed := failed), id, to, acts))
  {
    assert RequestOk(s, id);
    GoKeeps(s, s.(failed := failed), id, to, acts);
  }

  lemma ConfirmKeeps(s: System, id: nat, kept: bool)
    requires Inv(s) && id in s.requests && s.requests[id].Auditing? && s.requests[id].stage == Woken(true)
    ensures
      var e := Confirmed(s, s.requests[id], kept);
      Inv(Go(s, id, e.to, e.acts))
  {
    var p := s.requests[id];
    assert RequestOk(s, id);
    var c := ChapterOf(s.trace, id);
    assert Later(c, []) == c;
    var e := Confirmed(s, p, kept);
    GoKeeps(s, s, id, e.to, e.acts);
  }

  lemma AuditKeeps(s: System, id: nat, deed: Deed)
    requires Inv(s) && id in s.requests && s.requests[id].Auditing? && EffectOf(s, deed, s.requests[id]).Some?
    requires !(deed.TakeGate? && !s.failed)
    ensures Inv(Applied(s, id, s.requests[id], EffectOf(s, deed, s.requests[id]).value))
  {
    var p := s.requests[id];
    assert RequestOk(s, id);
    var c := ChapterOf(s.trace, id);
    assert Later(c, []) == c;
    var e := EffectOf(s, deed, p).value;
    if deed.JoinAudit? && !s.failed && s.waiters != 0 {
      GoKeeps(s, s, id, p.(stage := Waiting), []);
    } else if deed.Wake? && p.stage.ok {
      ConfirmKeeps(s, id, deed.kept);
    } else {
      LeaveKeeps(s, s.failed || e.latches, id, e.to, e.acts);
    }
  }

  lemma TakeKeeps(s: System, id: nat)
    requires Inv(s) && id in s.requests && s.requests[id].Auditing? && EffectOf(s, TakeGate, s.requests[id]).Some?
    requires !s.failed
    ensures Inv(Applied(s, id, s.requests[id], EffectOf(s, TakeGate, s.requests[id]).value))
  {
    var p := s.requests[id];
    assert RequestOk(s, id);
    var c := ChapterOf(s.trace, id);
    assert Later(c, []) == c;
    GoKeeps(s, s.(gate := Some(Worker(id, p.what, None))), id, p.(stage := Writing), []);
  }

  lemma ArrivalKeeps(s: System, id: nat, deed: Deed)
    requires Inv(s) && id in s.requests && (s.requests[id].Arriving? || s.requests[id].Allowed?)
    requires EffectOf(s, deed, s.requests[id]).Some? && !deed.Drop?
    ensures Inv(Applied(s, id, s.requests[id], EffectOf(s, deed, s.requests[id]).value))
  {
    var p := s.requests[id];
    assert RequestOk(s, id);
    var e := EffectOf(s, deed, p).value;
    GoKeeps(s, s, id, e.to, e.acts);
  }

  lemma DeedKeeps(s: System, id: nat, deed: Deed)
    requires Inv(s) && id in s.requests && EffectOf(s, deed, s.requests[id]).Some?
    ensures Inv(Applied(s, id, s.requests[id], EffectOf(s, deed, s.requests[id]).value))
  {
    var p := s.requests[id];
    if deed.Drop? {
      LeaveKeeps(s, s.failed, id, Dropped, []);
    } else if p.Arriving? || p.Allowed? {
      ArrivalKeeps(s, id, deed);
    } else if p.Auditing? {
      if deed.TakeGate? && !s.failed {
        TakeKeeps(s, id);
      } else {
        AuditKeeps(s, id, deed);
      }
    } else {
      BodyKeeps(s, id, deed);
    }
  }

  lemma StepKeeps(s: System, m: Move)
    requires Inv(s) && Step(s, m).Some?
    ensures Inv(Step(s, m).value)
  {
    match m
    case Tick(d) =>
      var t := s.(now := s.now + d);
      forall id: nat ensures RequestOk(t, id) {
        assert RequestOk(s, id);
      }
    case Come => ComeKeeps(s);
    case Write(ok) => WriteKeeps(s, ok);
    case Release => ReleaseKeeps(s);
    case Panic => PanicKeeps(s);
    case By(id, deed) => DeedKeeps(s, id, deed);
  }

  /** Every state of every interleaving keeps the semaphores balanced, every story inside its
      bracket, and every request where its story says it is. */
  lemma {:induction false} RunKeeps(limits: Limits, moves: seq<Move>)
    requires Run(Initial(limits), moves).Some?
    ensures Inv(Run(Initial(limits), moves).value) && Run(Initial(limits), moves).value.limits == limits
    decreases |moves|
  {
    if moves == [] {
      var s := Initial(limits);
      assert Holders(s.requests) == {} && Waiters(s.requests) == {};
    } else {
      RunKeeps(limits, moves[..|moves| - 1]);
      StepKeeps(Run(Initial(limits), moves[..|moves| - 1]).value, moves[|moves| - 1]);
    }
  }
}
