/** What every interleaving of requests guarantees to its operator. */
module DispatcherSafety {
  import opened Common
  import opened Dispatcher
  import opened DispatcherRuns

  /** The semaphores bound what is in flight, in every reachable state. */
  lemma AdmissionIsBounded(limits: Limits, moves: seq<Move>)
    requires Run(Initial(limits), moves).Some?
    ensures
      var s := Run(Initial(limits), moves).value;
      |Holders(s.requests)| <= limits.maxConcurrent && |Waiters(s.requests)| <= limits.maxConcurrent + 1
  {
    RunKeeps(limits, moves);
  }

  // ----- Brackets -----

  /** The acts of the pattern occur in this order among the acts. */
  predicate Embeds(pattern: seq<Act>, acts: seq<Act>) {
    if pattern == [] then true
    else if acts == [] then false
    else if pattern[|pattern| - 1] == acts[|acts| - 1]
    then Embeds(pattern[..|pattern| - 1], acts[..|acts| - 1])
    else Embeds(pattern, acts[..|acts| - 1])
  }

  lemma {:induction false} EmbedsMore(pattern: seq<Act>, acts: seq<Act>, a: Act)
    requires Embeds(pattern, acts)
    ensures Embeds(pattern, acts + [a])
    decreases |acts|, 1
  {
    assert (acts + [a])[..|acts|] == acts;
    if pattern != [] && pattern[|pattern| - 1] == a {
      EmbedsLess(pattern, acts);
    }
  }

  lemma {:induction false} EmbedsLess(pattern: seq<Act>, acts: seq<Act>)
    requires pattern != [] && Embeds(pattern, acts)
    ensures Embeds(pattern[..|pattern| - 1], acts)
    decreases |acts|, 0
  {
    var n := |acts| - 1;
    assert acts[..n] + [acts[n]] == acts;
    if pattern[|pattern| - 1] == acts[n] {
      EmbedsMore(pattern[..|pattern| - 1], acts[..n], acts[n]);
    } else {
      EmbedsLess(pattern, acts[..n]);
      EmbedsMore(pattern[..|pattern| - 1], acts[..n], acts[n]);
    }
  }

  function Opening(w: Work): seq<Act> {
    [Authorize(w), Admit, Record(Start)]
  }

  function Middle(w: Work): seq<Act> {
    if w.Invocation? then Opening(w) + [Judge(true), Execute] else Opening(w)
  }

  /** What must have happened, in this order, for a story to have come so far. */
  function Needs(c: Chapter): seq<Act> {
    match c
    case Authorized(w) => [Authorize(w)]
    case Admitted(w) => [Authorize(w), Admit]
    case Started(w) => Opening(w)
    case Probed(w) => Opening(w)
    case Found => Opening(Invocation) + [Judge(true)]
    case Executed => Middle(Invocation)
    case Captured => Opening(Paged)
    case Answered(w) => Middle(w)
    case Closed(w) => Middle(w) + [Record(Finish(true))]
    case Served(w) => Middle(w) + [Record(Finish(true))]
    case _ => []
  }

  lemma EmbedsLast(pattern: seq<Act>, acts: seq<Act>, a: Act)
    requires Embeds(pattern, acts)
    ensures Embeds(pattern + [a], acts + [a])
  {
    assert (pattern + [a])[..|pattern|] == pattern && (acts + [a])[..|acts|] == acts;
  }

  /** A turn adds at most its own act to what is needed. */
  lemma TurnNeeds(c: Chapter, a: Act)
    requires Turn(c, a).Some?
    ensures
      var more := Needs(Turn(c, a).value);
      more == [] || more == Needs(c) || more == Needs(c) + [a]
  {
  }

  lemma {:induction false} NeedsAreMet(acts: seq<Act>)
    requires Read(acts).Some?
    ensures Embeds(Needs(Read(acts).value), acts)
    decreases |acts|
  {
    if acts != [] {
      var before, a := acts[..|acts| - 1], acts[|acts| - 1];
      var c, d := Read(before).value, Read(acts).value;
      assert acts == before + [a] && Turn(c, a) == Some(d);
      NeedsAreMet(before);
      EmptyEmbeds(acts);
      TurnNeeds(c, a);
      EmbedsMore(Needs(c), before, a);
      EmbedsLast(Needs(c), before, a);
    }
  }

  lemma EmptyEmbeds(acts: seq<Act>)
    ensures Embeds([], acts)
  {
  }

  lemma {:induction false} StoryPrefix(trace: seq<Event>, k: nat, id: nat)
    requires k <= |trace|
    ensures Story(trace[..k], id) <= Story(trace, id)
    decreases |trace|
  {
    if k < |trace| {
      StoryPrefix(trace[..|trace| - 1], k, id);
      assert trace[..|trace| - 1][..k] == trace[..k];
    } else {
      assert trace[..k] == trace;
    }
  }

  lemma {:induction false} ReadPrefix(part: seq<Act>, acts: seq<Act>)
    requires part <= acts && Read(acts).Some?
    ensures Read(part).Some?
    decreases |acts|
  {
    if |part| < |acts| {
      ReadPrefix(part, acts[..|acts| - 1]);
    } else {
      assert part == acts;
    }
  }

  lemma TurnedAt(trace: seq<Event>, k: nat)
    requires k < |trace| && ChapterOf(trace, trace[k].id).Some?
    ensures
      var c := ChapterOf(trace[..k], trace[k].id);
      c.Some? && Turn(c.value, trace[k].act).Some? && Embeds(Needs(c.value), Story(trace[..k], trace[k].id))
  {
    var id, act := trace[k].id, trace[k].act;
    var told := Story(trace[..k], id);
    StoryPrefix(trace, k + 1, id);
    ReadPrefix(Story(trace[..k + 1], id), Story(trace, id));
    assert trace[..k + 1] == trace[..k] + [Event(id, act)];
    StoryOfOne(trace[..k], id, act, id);
    assert (told + [act])[..|told|] == told;
    hide Turn, Embeds, Story, Needs;
    NeedsAreMet(told);
  }

  /** The chapter in which a request acts. */
  lemma ActsInBracket(limits: Limits, moves: seq<Move>, k: nat)
    requires Run(Initial(limits), moves).Some? && k < |Run(Initial(limits), moves).value.trace|
    ensures
      var s := Run(Initial(limits), moves).value;
      var e := s.trace[k];
      var c := ChapterOf(s.trace[..k], e.id);
      c.Some? && Turn(c.value, e.act).Some? && Embeds(Needs(c.value), Story(s.trace[..k], e.id))
  {
    var s := Run(Initial(limits), moves).value;
    RunKeeps(limits, moves);
    assert RequestOk(s, s.trace[k].id);
    hide Run, Turn, Embeds, Story, Needs, Fits, Inv;
    TurnedAt(s.trace, k);
  }

  /** Every execution follows its own request's authorization, admission, recorded start and
      compatible verdict. */
  lemma ExecutionIsBracketed(limits: Limits, moves: seq<Move>, k: nat, id: nat)
    requires Run(Initial(limits), moves).Some? && k < |Run(Initial(limits), moves).value.trace|
    requires Run(Initial(limits), moves).value.trace[k] == Event(id, Execute)
    ensures
      var s := Run(Initial(limits), moves).value;
      Embeds([Authorize(Invocation), Admit, Record(Start), Judge(true)], Story(s.trace[..k], id))
  {
    ActsInBracket(limits, moves, k);
    hide Run, Embeds, Story, ChapterOf;
    assert Needs(Found) == [Authorize(Invocation), Admit, Record(Start), Judge(true)];
  }

  predicate CallsBackend(a: Act) {
    a.Probe? || a.Execute? || a.Capture?
  }

  /** No call of any kind reaches the backend before its request's start is recorded. */
  lemma CallsFollowRecordedStart(limits: Limits, moves: seq<Move>, k: nat)
    requires Run(Initial(limits), moves).Some? && k < |Run(Initial(limits), moves).value.trace|
    requires CallsBackend(Run(Initial(limits), moves).value.trace[k].act)
    ensures
      var s := Run(Initial(limits), moves).value;
      exists w :: Embeds([Authorize(w), Admit, Record(Start)], Story(s.trace[..k], s.trace[k].id))
  {
    var s := Run(Initial(limits), moves).value;
    ActsInBracket(limits, moves, k);
    var c := ChapterOf(s.trace[..k], s.trace[k].id).value;
    if c.Found? {
      assert Needs(c)[..3] == Opening(Invocation);
      EmbedsLess(Needs(c), Story(s.trace[..k], s.trace[k].id));
      assert Embeds(Opening(Invocation), Story(s.trace[..k], s.trace[k].id));
    } else {
      assert Embeds(Opening(c.work), Story(s.trace[..k], s.trace[k].id));
    }
  }

  /** An Ok reply follows the recorded start and the recorded success, and for an invocation
      the compatible verdict and the execution between them. */
  lemma OkRepliesAreRecorded(limits: Limits, moves: seq<Move>, k: nat, id: nat)
    requires Run(Initial(limits), moves).Some? && k < |Run(Initial(limits), moves).value.trace|
    requires Run(Initial(limits), moves).value.trace[k] == Event(id, Reply(true))
    ensures
      var s := Run(Initial(limits), moves).value;
      exists w :: Embeds(Middle(w) + [Record(Finish(true))], Story(s.trace[..k], id))
  {
    var s := Run(Initial(limits), moves).value;
    ActsInBracket(limits, moves, k);
    var c := ChapterOf(s.trace[..k], id).value;
    assert Embeds(Middle(c.work) + [Record(Finish(true))], Story(s.trace[..k], id));
  }

  /** A story that is answered, closed or served holds an answer given before its deadline. */
  lemma {:induction false} AnsweredInTime(acts: seq<Act>)
    requires Read(acts).Some? && (var c := Read(acts).value; c.Answered? || c.Closed? || c.Served?)
    ensures exists at, due :: at < due && Answer(at, due) in acts
    decreases |acts|
  {
    var before, a := acts[..|acts| - 1], acts[|acts| - 1];
    assert a in acts && forall x | x in before :: x in acts;
    if !a.Answer? {
      AnsweredInTime(before);
    }
  }

  /** An Ok reply carries a result that the body produced before its deadline, however late the
      reply itself is. */
  lemma OkRepliesAreInTime(limits: Limits, moves: seq<Move>, k: nat, id: nat)
    requires Run(Initial(limits), moves).Some? && k < |Run(Initial(limits), moves).value.trace|
    requires Run(Initial(limits), moves).value.trace[k] == Event(id, Reply(true))
    ensures
      var s := Run(Initial(limits), moves).value;
      exists at, due :: at < due && Answer(at, due) in Story(s.trace[..k], id)
  {
    ActsInBracket(limits, moves, k);
    AnsweredInTime(Story(Run(Initial(limits), moves).value.trace[..k], id));
  }

  // ----- The latch -----

  predicate Recorded(e: Event) {
    e.act.Record?
  }

  /** Since the latch was set, only the record that already held the gate can have been made,
      and at most once. */
  ghost predicate Sealed(s: System, t: System) {
    && t.failed && s.trace <= t.trace
    && (if t.gate == s.gate && s.gate.Some? && s.gate.value.written.None?
        then forall k | |s.trace| <= k < |t.trace| :: !Recorded(t.trace[k])
        else
          && (t.gate.Some? ==> t.gate.value.written.Some?)
          && (forall k | |s.trace| <= k < |t.trace| && Recorded(t.trace[k]) ::
                && s.gate.Some? && s.gate.value.written.None?
                && t.trace[k] == Event(s.gate.value.id, Record(s.gate.value.what)))
          && (forall j, k | |s.trace| <= j < k < |t.trace| :: !Recorded(t.trace[j]) || !Recorded(t.trace[k])))
  }

  lemma SealedStep(s: System, t: System, m: Move)
    requires Sealed(s, t) && Step(t, m).Some?
    ensures Sealed(s, Step(t, m).value)
  {
    var u := Step(t, m).value;
    assert t.trace <= u.trace;
    if m.Write? {
      assert u.trace == t.trace || u.trace == t.trace + [Event(t.gate.value.id, Record(t.gate.value.what))];
    } else {
      NoRecord(t, m);
    }
  }

  lemma NoRecord(t: System, m: Move)
    requires t.failed && Step(t, m).Some? && !m.Write?
    ensures
      var u := Step(t, m).value;
      && u.failed && t.trace <= u.trace
      && (forall k | |t.trace| <= k < |u.trace| :: !Recorded(u.trace[k]))
      && (u.gate == t.gate || u.gate.None?)
  {
    hide HoldsPermit, HoldsWaiter;
    match m
    case By(id, deed) =>
      var p := t.requests[id];
      var e := EffectOf(t, deed, p).value;
      assert forall i | 0 <= i < |e.acts| :: !e.acts[i].Record? by {
        PlainActs(t, deed, p);
      }
      assert e.takes ==> !t.failed;
    case _ =>
  }

  /** What a deed shows: at most one act, never a record. */
  lemma PlainActs(s: System, deed: Deed, p: Place)
    requires EffectOf(s, deed, p).Some?
    ensures |EffectOf(s, deed, p).value.acts| <= 1
    ensures forall i | 0 <= i < |EffectOf(s, deed, p).value.acts| :: !EffectOf(s, deed, p).value.acts[i].Record?
    ensures EffectOf(s, deed, p).value.takes ==> !s.failed
  {
  }

  /** Once set, the latch stays set, and at most the current gate holder's record can still
      succeed. */
  lemma {:induction false} LatchSeals(s: System, moves: seq<Move>)
    requires s.failed && Run(s, moves).Some?
    ensures Sealed(s, Run(s, moves).value)
    decreases |moves|
  {
    if moves != [] {
      LatchSeals(s, moves[..|moves| - 1]);
      SealedStep(s, Run(s, moves[..|moves| - 1]).value, moves[|moves| - 1]);
    }
  }

  /** A request whose start is neither recorded nor being written. */
  predicate Barred(s: System, id: nat) {
    id in s.requests ==> BarredPlace(s.requests[id])
  }

  predicate BarredPlace(p: Place) {
    !InBody(p) && (p.Auditing? && p.what.Start? ==> p.stage.Entering? || p.stage.Waiting? || p.stage == Woken(false))
  }

  lemma BarredStep(t: System, m: Move, id: nat)
    requires t.failed && Barred(t, id) && Step(t, m).Some?
    ensures
      var u := Step(t, m).value;
      && u.failed && Barred(u, id) && t.trace <= u.trace
      && (forall k | |t.trace| <= k < |u.trace| && u.trace[k].id == id :: !CallsBackend(u.trace[k].act))
  {
    hide HoldsPermit, HoldsWaiter;
    match m
    case By(j, deed) => BarredDeed(t, j, deed, id);
    case _ =>
  }

  lemma BarredDeed(t: System, j: nat, deed: Deed, id: nat)
    requires t.failed && Barred(t, id) && j in t.requests && EffectOf(t, deed, t.requests[j]).Some?
    ensures
      var u := Applied(t, j, t.requests[j], EffectOf(t, deed, t.requests[j]).value);
      && u.failed && Barred(u, id) && t.trace <= u.trace
      && (forall k | |t.trace| <= k < |u.trace| && u.trace[k].id == id :: !CallsBackend(u.trace[k].act))
  {
    var p := t.requests[j];
    var e := EffectOf(t, deed, p).value;
    hide HoldsPermit, HoldsWaiter;
    if j == id {
      BarredEffect(t, deed, p);
    }
    hide EffectOf;
    forall k | |t.trace| <= k < |t.trace + Events(j, e.acts)| && (t.trace + Events(j, e.acts))[k].id == id
      ensures !CallsBackend((t.trace + Events(j, e.acts))[k].act)
    {
      assert j == id;
    }
  }

  /** A barred place stays barred once the latch is set, and shows no backend call. */
  lemma BarredEffect(s: System, deed: Deed, p: Place)
    requires s.failed && BarredPlace(p) && EffectOf(s, deed, p).Some?
    ensures
      var e := EffectOf(s, deed, p).value;
      && BarredPlace(e.to) && (forall i | 0 <= i < |e.acts| :: !CallsBackend(e.acts[i]))
  {
  }

  /** After the latch, a request without a start in hand never reaches the backend: in
      particular no request that comes later. */
  lemma {:induction false} LatchStopsLateRequests(s: System, moves: seq<Move>, id: nat)
    requires s.failed && Barred(s, id) && Run(s, moves).Some?
    ensures
      var t := Run(s, moves).value;
      && t.failed && Barred(t, id) && s.trace <= t.trace
      && (forall k | |s.trace| <= k < |t.trace| && t.trace[k].id == id :: !CallsBackend(t.trace[k].act))
    decreases |moves|
  {
    if moves != [] {
      LatchStopsLateRequests(s, moves[..|moves| - 1], id);
      BarredStep(Run(s, moves[..|moves| - 1]).value, moves[|moves| - 1], id);
    }
  }

  // ----- The guarantees are not empty -----

  lemma RunSnoc(s: System, moves: seq<Move>, m: Move)
    requires Run(s, moves).Some? && Step(Run(s, moves).value, m).Some?
    ensures Run(s, moves + [m]) == Step(Run(s, moves).value, m)
  {
    assert (moves + [m])[..|moves|] == moves;
  }

  /** The state of a run with one request, the gate free and the latch clear. */
  function Solo(limits: Limits, place: Place, gate: Option<Worker>, trace: seq<Event>): System {
    System(limits, map[1 := place], 2, 0, limits.maxConcurrent - One(HoldsPermit(place)),
      limits.maxConcurrent + 1 - One(HoldsWaiter(place)), false, gate, trace)
  }

  lemma SoloGoes(limits: Limits, place: Place, gate: Option<Worker>, trace: seq<Event>, to: Place, acts: seq<Act>)
    ensures Go(Solo(limits, place, gate, trace), 1, to, acts) == Solo(limits, to, gate, trace + Events(1, acts))
  {
    assert map[1 := place][1 := to] == map[1 := to];
  }

  /** One deed that neither takes the gate nor sets the latch. */
  lemma SoloMoves(s: System, moves: seq<Move>, limits: Limits, place: Place, trace: seq<Event>, deed: Deed, e: Effect)
    returns (more: seq<Move>)
    requires Run(s, moves) == Some(Solo(limits, place, None, trace))
    requires EffectOf(Solo(limits, place, None, trace), deed, place) == Some(e) && !e.takes && !e.latches
    ensures Run(s, more) == Some(Solo(limits, e.to, None, trace + Events(1, e.acts)))
  {
    var v := Solo(limits, place, None, trace);
    more := moves + [By(1, deed)];
    hide EffectOf, HoldsPermit, HoldsWaiter, Run;
    SoloGoes(limits, place, None, trace, e.to, e.acts);
    assert Step(v, By(1, deed)) == Some(Go(v, 1, e.to, e.acts)) by {
      assert v.(failed := v.failed || e.latches, gate := v.gate) == v;
    }
    RunSnoc(s, moves, By(1, deed));
  }

  lemma SoloTakes(limits: Limits, what: What, work: Work, trace: seq<Event>)
    ensures
      var v := Solo(limits, Auditing(Waiting, what, work), None, trace);
      Step(v, By(1, TakeGate)) ==
      Some(Solo(limits, Auditing(Writing, what, work), Some(Worker(1, what, None)), trace))
  {
    SoloGoes(limits, Auditing(Waiting, what, work), Some(Worker(1, what, None)), trace, Auditing(Writing, what, work), []);
    assert trace + Events(1, []) == trace;
  }

  lemma SoloReleases(limits: Limits, what: What, work: Work, trace: seq<Event>)
    ensures
      var v := Solo(limits, Auditing(Writing, what, work), Some(Worker(1, what, Some(true))), trace);
      Step(v, Release) == Some(Solo(limits, Auditing(Woken(true), what, work), None, trace))
  {
    SoloGoes(limits, Auditing(Writing, what, work), None, trace, Auditing(Woken(true), what, work), []);
    assert trace + Events(1, []) == trace;
  }

  /** A request that is alone at the audit gate gets its event recorded. */
  lemma SoloAudits(s: System, moves: seq<Move>, limits: Limits, what: What, work: Work, trace: seq<Event>)
    returns (more: seq<Move>)
    requires Run(s, moves) == Some(Solo(limits, Auditing(Entering, what, work), None, trace))
    ensures Run(s, more) == Some(Solo(limits, Auditing(Woken(true), what, work), None, trace + [Event(1, Record(what))]))
  {
    assert trace + Events(1, []) == trace;
    more := SoloMoves(s, moves, limits, Auditing(Entering, what, work), trace, JoinAudit, To(Auditing(Waiting, what, work), []));
    var worker := Worker(1, what, None);
    var v := Solo(limits, Auditing(Writing, what, work), Some(worker), trace);
    SoloTakes(limits, what, work, trace);
    var written := trace + [Event(1, Record(what))];
    assert Step(v, Write(true)) == Some(Solo(limits, Auditing(Writing, what, work), Some(Worker(1, what, Some(true))), written));
    SoloReleases(limits, what, work, written);
    hide Step, Run, Solo;
    RunSnoc(s, more, By(1, TakeGate));
    more := more + [By(1, TakeGate)];
    RunSnoc(s, more, Write(true));
    more := more + [Write(true)];
    RunSnoc(s, more, Release);
    more := more + [Release];
  }

  /** From arrival to the place where the start is recorded. */
  lemma SoloEnters(limits: Limits) returns (moves: seq<Move>, trace: seq<Event>)
    requires limits.maxConcurrent > 0
    ensures Run(Initial(limits), moves) == Some(Solo(limits, Auditing(Entering, Start, Invocation), None, trace))
  {
    var s := Initial(limits);
    trace := [] + Events(1, [Arrive]);
    assert Run(s, []) == Some(s);
    RunSnoc(s, [], Come);
    moves := [] + [Come];
    assert Step(s, Come) == Some(Solo(limits, Arriving, None, trace)) by {
      assert map[][1 := Arriving] == map[1 := Arriving];
    }
    moves := SoloMoves(s, moves, limits, Arriving, trace, Decide(Some(Invocation)),
      To(Allowed(Invocation), [Authorize(Invocation)]));
    trace := trace + Events(1, [Authorize(Invocation)]);
    moves := SoloMoves(s, moves, limits, Allowed(Invocation), trace, Enter(true),
      To(Auditing(Entering, Start, Invocation), [Admit]));
    trace := trace + Events(1, [Admit]);
  }

  /** The body of an invocation whose backend answers in time. */
  lemma SoloAnswers(s: System, moves: seq<Move>, limits: Limits, trace: seq<Event>)
    returns (more: seq<Move>, told: seq<Event>)
    requires limits.timeout > 0
    requires Run(s, moves) == Some(Solo(limits, Observing(Invocation, false, limits.timeout), None, trace))
    ensures Run(s, more) == Some(Solo(limits, Auditing(Entering, Finish(true), Invocation), None, told))
  {
    var due := limits.timeout;
    hide Run;
    more := SoloMoves(s, moves, limits, Observing(Invocation, false, due), trace, Observed(true), To(Judging(due), []));
    told := trace + Events(1, []);
    more := SoloMoves(s, more, limits, Judging(due), told, GetVerdict(true), To(Cleared(due), [Judge(true)]));
    told := told + Events(1, [Judge(true)]);
    more := SoloMoves(s, more, limits, Cleared(due), told, CallExecute, To(Executing(due), [Execute]));
    told := told + Events(1, [Execute]);
    more := SoloMoves(s, more, limits, Executing(due), told, Complete(true),
      To(Auditing(Entering, Finish(true), Invocation), [Answer(0, due)]));
    told := told + Events(1, [Answer(0, due)]);
  }

  ghost predicate Serves(limits: Limits, moves: seq<Move>) {
    var end := Run(Initial(limits), moves);
    end.Some? && Event(1, Reply(true)) in end.value.trace
  }

  /** The guarantees are not empty: with a permit and some time, an invocation can be recorded,
      executed and answered with Ok. */
  lemma AnInvocationCanSucceed(limits: Limits)
    requires limits.maxConcurrent > 0 && limits.timeout > 0
    ensures exists moves :: Serves(limits, moves)
  {
    var s, due := Initial(limits), limits.timeout;
    var moves, trace := SoloEnters(limits);
    moves := SoloAudits(s, moves, limits, Start, Invocation, trace);
    trace := trace + [Event(1, Record(Start))];
    moves := SoloMoves(s, moves, limits, Auditing(Woken(true), Start, Invocation), trace, Wake(true),
      To(Observing(Invocation, false, due), []));
    trace := trace + Events(1, []);
    moves, trace := SoloAnswers(s, moves, limits, trace);
    moves := SoloAudits(s, moves, limits, Finish(true), Invocation, trace);
    trace := trace + [Event(1, Record(Finish(true)))];
    moves := SoloMoves(s, moves, limits, Auditing(Woken(true), Finish(true), Invocation), trace, Wake(true),
      To(Replied(true), [Reply(true)]));
    trace := trace + Events(1, [Reply(true)]);
    assert trace[|trace| - 1] == Event(1, Reply(true));
    assert Serves(limits, moves);
  }
}
