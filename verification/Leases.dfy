/** Evidence leases: observations shared by clone, revoked together, and cached per object. */
module Leases {
  import opened Common
  import opened Capability

  const TTL := 30_000

  /** The validity shared by every clone of one observation. */
  class Flag {
    var valid: bool

    constructor ()
      ensures valid
    {
      valid := true;
    }
  }

  datatype Observation = Observation(value: Seen, epoch: Option<nat>, started: nat, flag: Flag)

  /** An observation handed out as evidence about an object. */
  datatype Issue = Issue(about: ReviewedObject, evidence: Observation)

  /** The clock and the backend's connection epoch, which move on their own. */
  class World {
    var now: nat
    var epoch: Option<nat>

    method Pass()
      modifies this
      ensures now >= old(now)
    {
      var elapsed: nat, next: Option<nat> := *, *;
      now, epoch := now + elapsed, next;
    }

    /** A probe takes time and answers anything; None is a failure or a cancellation. */
    method Probe() returns (answer: Option<Seen>)
      modifies this
      ensures now >= old(now)
    {
      Pass();
      answer := *;
    }
  }

  predicate Fresh(o: Observation, world: World)
    reads o.flag, world
  {
    && o.epoch.Some? && o.flag.valid && o.epoch == world.epoch
    && (world.now >= o.started ==> world.now - o.started < TTL)
  }

  function VerdictOf(o: Observation, world: World, r: Requirement, prepared: Option<Prepared>): Verdict
    reads o.flag, world
  {
    if o.epoch.Some? && !Fresh(o, world) then Unknown(StaleObservation) else Judge(r, o.value, prepared)
  }

  /** Only evidence with an epoch can say more than unknown. */
  predicate Sound(o: Observation) {
    o.epoch.None? ==> o.value.Nothing?
  }

  /** A compatible verdict rests on current, unrevoked evidence less than thirty seconds old
      that covers every transmitted argument. */
  lemma CompatibleVerdict(o: Observation, world: World, r: Requirement, p: Prepared)
    requires Sound(o) && VerdictOf(o, world, r, Some(p)) == Compatible
    ensures o.epoch.Some? && o.epoch == world.epoch && o.flag.valid
    ensures world.now >= o.started ==> world.now - o.started < TTL
    ensures r.UbusMethod? && p.UbusCall? && p.transmitted.Some? && o.value.Ubus? && r.methodName in o.value.methods
    ensures Some(o.value.reviewed) == FromName(r.objectName) && p.target == r.objectName && p.procedure == r.methodName
    ensures forall name | name in p.transmitted.value ::
      exists i | 0 <= i < |r.arguments| ::
        && r.arguments[i].name == name && ValueMatches(p.transmitted.value[name], r.arguments[i].kind)
        && Agrees(r.arguments[i], o.value.methods[r.methodName])
  {
    hide Judge;
    CompatibleCall(r, o.value, p);
    forall name | name in p.transmitted.value
      ensures exists i | 0 <= i < |r.arguments| ::
        && r.arguments[i].name == name && ValueMatches(p.transmitted.value[name], r.arguments[i].kind)
        && Agrees(r.arguments[i], o.value.methods[r.methodName])
    {
      assert DeclaredAs(r.arguments, name, p.transmitted.value[name]);
    }
  }

  /** Evidence gathered from `started` on still speaks of the present connection. */
  predicate Current(before: Option<nat>, now: Option<nat>, age: nat) {
    now.Some? && (before.None? || before == now) && age < TTL
  }

  /** What is kept of a probe's answer about an object. */
  function Admitted(answer: Seen, about: ReviewedObject): Seen {
    if answer.Ubus? && (answer.reviewed != about || !ValidSeen(answer)) then Nothing(InvalidObservation) else answer
  }

  /** What is kept about an object is a valid observation of that object, or unknown. */
  lemma AdmittedIsAbout(answer: Seen, about: ReviewedObject)
    ensures
      var seen := Admitted(answer, about);
      && (seen.Ubus? ==> seen.reviewed == about && ValidSeen(seen))
      && (answer.Ubus? && answer.reviewed == about && ValidSeen(answer) ==> seen == answer)
  {
  }

  /** What comes back from a probe: an error exactly when it failed, and evidence exactly when
      neither the connection nor the time has moved on, holding what the probe said. */
  ghost predicate Answers(about: ReviewedObject, answer: Option<Seen>, result: Result<Observation, RuntimeError>,
                          started: nat, before: Option<nat>, world: World)
    reads world, if result.Ok? then {result.value.flag} else {}
  {
    && (result.Ok? <==> answer.Some?)
    && world.now >= started
    && (result.Ok? ==>
          && (result.value.epoch.Some? <==> Current(before, world.epoch, world.now - started))
          && (result.value.epoch.None? ==>
                result.value.value == Nothing(if world.epoch.None? then ProbeUnavailable else StaleObservation))
          && (result.value.epoch.Some? ==>
                && Fresh(result.value, world) && result.value.started == started
                && result.value.value == Admitted(answer.value, about)))
  }

  datatype RuntimeError = BackendFailed

  class CapabilityCache {
    var entries: map<ReviewedObject, Observation>
    /** Every observation with an epoch ever handed out; callers keep clones of them. */
    var issued: set<Issue>

    ghost var flags: set<Flag>

    /** For each object at most one piece of evidence is valid, and it is the cached one. */
    ghost predicate Valid()
      reads this, flags
    {
      && (forall about | about in entries :: Issue(about, entries[about]) in issued)
      && (forall i | i in issued :: i.evidence.epoch.Some? && i.evidence.flag in flags)
      && (forall i, j | i in issued && j in issued && i.evidence.flag == j.evidence.flag :: i == j)
      && (forall i | i in issued && i.evidence.flag.valid ::
            i.about in entries && entries[i.about] == i.evidence)
    }

    /** No evidence about an object is valid. */
    ghost predicate NoneValid(about: ReviewedObject)
      reads this, flags
      requires Valid()
    {
      forall i | i in issued && i.about == about :: !i.evidence.flag.valid
    }

    constructor ()
      ensures Valid() && entries == map[] && issued == {} && flags == {}
    {
      entries, issued, flags := map[], {}, {};
    }

    /** A request past its deadline revokes every clone of the evidence it was issued. */
    method Revoke(i: Issue)
      requires Valid() && i in issued
      modifies i.evidence.flag
      ensures Valid() && !i.evidence.flag.valid
    {
      i.evidence.flag.valid := false;
    }

    /** While a probe is awaited, other requests may revoke what they hold. */
    method OthersRevoke()
      requires Valid()
      modifies flags
      ensures Valid()
      ensures forall f: Flag | f in flags :: f.valid ==> old(f.valid)
    {
      var late: set<Issue> := *;
      late := late * issued;
      forall i | i in late {
        i.evidence.flag.valid := false;
      }
    }

    /** Drops an entry and revokes every clone of it. */
    method Evict(about: ReviewedObject)
      requires Valid() && about in entries
      modifies `entries, entries[about].flag
      ensures Valid() && NoneValid(about) && entries == old(entries) - {about}
      ensures !old(entries[about]).flag.valid
    {
      var previous := entries[about];
      assert Issue(about, previous) in issued;
      entries := entries - {about};
      previous.flag.valid := false;
    }

    /** Caches new evidence about an object that has none. */
    method Insert(about: ReviewedObject, entry: Observation)
      requires Valid() && NoneValid(about) && about !in entries
      requires entry.epoch.Some? && entry.flag !in flags
      modifies `entries, `issued, `flags
      ensures Valid() && entries == old(entries)[about := entry]
      ensures issued == old(issued) + {Issue(about, entry)} && flags == old(flags) + {entry.flag}
    {
      entries := entries[about := entry];
      issued := issued + {Issue(about, entry)};
      flags := flags + {entry.flag};
    }

    /** Entries never share a flag. */
    lemma FlagsDiffer(about: ReviewedObject)
      requires Valid() && about in entries
      ensures entries[about].flag in flags
      ensures forall other | other in entries && other != about :: entries[other].flag != entries[about].flag
    {
      assert Issue(about, entries[about]) in issued;
      forall other | other in entries && other != about ensures entries[other].flag != entries[about].flag {
        assert Issue(other, entries[other]) in issued;
      }
    }

    /** Looks at one entry: it stays exactly if it is fresh, and no other entry is touched. */
    method Sweep(about: ReviewedObject, world: World)
      requires Valid() && about in entries
      modifies `entries, flags
      ensures Valid()
      ensures entries == if old(Fresh(entries[about], world)) then old(entries) else old(entries) - {about}
      ensures forall other | other in entries :: Fresh(entries[other], world) == old(Fresh(entries[other], world))
      ensures forall f | f in flags :: f.valid ==> old(f.valid)
    {
      hide Valid;
      if !Fresh(entries[about], world) {
        FlagsDiffer(about);
        Evict(about);
      }
    }

    /** Keeps the fresh entries and revokes the others. */
    method Retain(world: World)
      requires Valid()
      modifies `entries, flags
      ensures Valid()
      ensures entries.Keys <= old(entries.Keys) && forall about | about in entries :: entries[about] == old(entries)[about]
      ensures forall about | about in old(entries) :: about in entries <==> old(Fresh(entries[about], world))
      ensures forall about | about in entries :: Fresh(entries[about], world)
      ensures forall f | f in flags :: f.valid ==> old(f.valid)
    {
      hide Valid, Fresh;
      var left := entries.Keys;
      while left != {}
        invariant Valid()
        invariant left <= entries.Keys <= old(entries.Keys)
        invariant forall about | about in entries :: entries[about] == old(entries)[about]
        invariant forall about | about in entries :: Fresh(entries[about], world) == old(Fresh(entries[about], world))
        invariant forall about | about in old(entries) && about !in left ::
                    about in entries <==> old(Fresh(entries[about], world))
        invariant forall f | f in flags :: f.valid ==> old(f.valid)
        decreases |left|
      {
        var about :| about in left;
        left := left - {about};
        Sweep(about, world);
      }
    }

    /** Caches what a probe said unless the connection or the time has moved on. */
    method Consider(about: ReviewedObject, started: nat, previousEpoch: Option<nat>, answer: Seen, world: World)
      returns (o: Observation)
      requires Valid() && NoneValid(about) && about !in entries && started <= world.now
      modifies this
      ensures Valid() && fresh(flags - old(flags)) && old(flags) <= flags
      ensures o.epoch.Some? <==> Current(previousEpoch, world.epoch, world.now - started)
      ensures
        if o.epoch.Some?
        then
          && o == Observation(Admitted(answer, about), world.epoch, started, o.flag) && o.flag.valid
          && fresh(o.flag) && entries == old(entries)[about := o] && issued == old(issued) + {Issue(about, o)}
        else
          && o.value == Nothing(if world.epoch.None? then ProbeUnavailable else StaleObservation)
          && entries == old(entries) && issued == old(issued) && flags == old(flags)
    {
      hide Valid, NoneValid, ValidSeen;
      var flag := new Flag();
      if world.epoch.None? {
        return Observation(Nothing(ProbeUnavailable), None, world.now, flag);
      }
      if previousEpoch.Some? && previousEpoch != world.epoch {
        return Observation(Nothing(StaleObservation), None, world.now, flag);
      }
      if world.now - started >= TTL {
        return Observation(Nothing(StaleObservation), None, world.now, flag);
      }
      var seen := answer;
      if seen.Ubus? && (seen.reviewed != about || !ValidSeen(seen)) {
        seen := Nothing(InvalidObservation);
      }
      o := Observation(seen, world.epoch, started, flag);
      Insert(about, o);
    }

    /** Probes an object whose evidence has been dropped, and caches what the probe says
        unless the connection or the time has moved on. */
    method ProbeAgain(about: ReviewedObject, world: World)
      returns (result: Result<Observation, RuntimeError>, ghost answer: Option<Seen>)
      requires Valid() && NoneValid(about) && about !in entries
      modifies this, world, flags
      ensures Valid() && fresh(flags - old(flags)) && old(issued) <= issued && old(flags) <= flags
      ensures forall f | f in old(flags) :: f.valid ==> old(f.valid)
      ensures Answers(about, answer, result, old(world.now), old(world.epoch), world)
      ensures
        if result.Ok? && result.value.epoch.Some?
        then issued == old(issued) + {Issue(about, result.value)} && entries == old(entries)[about := result.value]
        else issued == old(issued) && entries == old(entries)
    {
      var started, previousEpoch := world.now, world.epoch;
      var seen := world.Probe();
      assert NoneValid(about);
      OthersRevoke();
      assert NoneValid(about);
      hide Valid, NoneValid, ValidSeen;
      answer := seen;
      if seen.None? {
        return Err(BackendFailed), answer;
      }
      var o := Consider(about, started, previousEpoch, seen.value, world);
      result := Ok(o);
    }

    /** Serves cached evidence, or probes and caches new evidence. The evidence before a probe
        is revoked first, so a failed or cancelled probe leaves none behind. */
    method Observe(r: Requirement, refresh: bool, world: World)
      returns (result: Result<Observation, RuntimeError>, ghost answer: Option<Seen>)
      requires Valid()
      modifies this, world, flags
      ensures Valid() && fresh(flags - old(flags)) && old(issued) <= issued
      ensures forall f | f in old(flags) :: f.valid ==> old(f.valid)
      ensures ProbeObject(r).None? ==> result.Ok? && !result.value.epoch.Some? && Sound(result.value) && issued == old(issued)
      ensures
        var about := ProbeObject(r);
        about.Some? ==>
          if !refresh && about.value in old(entries) && old(Fresh(entries[about.value], world))
          then result == Ok(old(entries)[about.value]) && issued == old(issued) && world.now == old(world.now)
          else Answers(about.value, answer, result, old(world.now), old(world.epoch), world)
      ensures result.Ok? ==> Sound(result.value)
      ensures result.Ok? && result.value.epoch.Some? ==>
        && ProbeObject(r).Some? && Issue(ProbeObject(r).value, result.value) in issued
        && Fresh(result.value, world) && ProbeObject(r).value in entries && entries[ProbeObject(r).value] == result.value
      ensures ProbeObject(r).Some? && (refresh || result.Err? || result.value.epoch.None?) ==>
        forall i | i in old(issued) && i.about == ProbeObject(r).value :: !i.evidence.flag.valid
      ensures ProbeObject(r).Some? && (result.Err? || result.value.epoch.None?) ==> ProbeObject(r).value !in entries
    {
      hide Valid, NoneValid, Fresh, ProbeObject, Admitted, Current;
      answer := None;
      var target := ProbeObject(r);
      if target.None? {
        var flag := new Flag();
        return Ok(Observation(Nothing(UnreviewedProbe), None, world.now, flag)), None;
      }
      var about := target.value;
      Retain(world);
      if !refresh && about in entries {
        CachedIsIssued(about);
        return Ok(entries[about]), None;
      }
      Clear(about);
      RevokedAbout(about);
      var probed, seen := ProbeAgain(about, world);
      result, answer := probed, seen;
    }

    lemma CachedIsIssued(about: ReviewedObject)
      requires Valid() && about in entries
      ensures Issue(about, entries[about]) in issued && entries[about].epoch.Some? && Sound(entries[about])
    {
      assert Issue(about, entries[about]) in issued;
    }

    lemma RevokedAbout(about: ReviewedObject)
      requires Valid() && NoneValid(about)
      ensures forall i | i in issued && i.about == about :: i.evidence.flag in flags && !i.evidence.flag.valid
    {
    }

    /** Removes what is cached about an object before it is probed again. */
    method Clear(about: ReviewedObject)
      requires Valid()
      modifies `entries, flags
      ensures Valid() && NoneValid(about) && about !in entries
      ensures forall f | f in flags :: f.valid ==> old(f.valid)
    {
      if about in entries {
        FlagsDiffer(about);
        Evict(about);
      }
    }
  }
}
