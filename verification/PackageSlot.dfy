/** The one paged snapshot a dispatcher keeps: captured under a lease, kept only by completed
    requests, and continued only by its own cursors while it is fresh. */
module PackageSlot {
  import opened Common
  import opened Json
  import opened Packages
  import Leases

  const SNAPSHOT_TTL := 120_000

  datatype SlotError =
    | Busy
    | BadCursor
    | EntropyUnavailable
    | CapabilityUnknown
    | WrongProfile
    | CaptureFailed
    | Timeout
    | Incomplete

  datatype Snapshot = Snapshot(observed: Observation, nonce: Nonce, operation: string, epoch: nat, started: nat)

  /** One page served to a client. */
  datatype Served = Served(nonce: Nonce, offset: nat, page: Value)

  predicate Live(s: Snapshot, world: Leases.World)
    reads world
  {
    Some(s.epoch) == world.epoch && (world.now >= s.started ==> world.now - s.started < SNAPSHOT_TTL)
  }

  ghost predicate DistinctNonces(captures: seq<Snapshot>) {
    forall i, j | 0 <= i < j < |captures| :: captures[i].nonce != captures[j].nonce
  }

  /** A page of some capture. */
  ghost predicate PageOf(captures: seq<Snapshot>, s: Served) {
    exists i | 0 <= i < |captures| ::
      && captures[i].nonce == s.nonce && PageStart(captures[i].observed, s.offset)
      && s.page == PageValue(captures[i].observed, s.nonce, s.offset)
  }

  ghost predicate Usable(s: Snapshot) {
    ValidObservation(s.observed) && s.nonce != Zeros(16)
  }

  /** The entropy source answers anything, or fails. */
  method AnyToken() returns (token: Option<Nonce>)
  {
    token := *;
  }

  /** A backend reports any validated observation, or fails. */
  method AnyCapture() returns (captured: Option<Observation>)
    ensures captured.Some? ==> ValidObservation(captured.value)
  {
    captured := *;
    if captured.Some? && !ValidObservation(captured.value) {
      captured := None;
    }
  }

  /** A valid cursor of the snapshot that names one of its pages. */
  ghost predicate NamesPage(s: Snapshot, c: Cursor, text: Bytes) {
    ValidCursor(c) && Encode(c.nonce, c.offset) == text && c.nonce == s.nonce && PageStart(s.observed, c.offset)
  }

  /** A snapshot slot, with every capture ever kept. */
  datatype SlotState = SlotState(slot: Option<Snapshot>, captures: seq<Snapshot>)

  /** What one request does: captures only grow, what is kept is the last of them, and an
      answered continuation is the page that its cursor names in the kept snapshot. */
  ghost predicate Requested(s: SlotState, cursor: Option<Bytes>, r: Result<Value, SlotError>, t: SlotState) {
    && s.captures <= t.captures
    && (t.slot.Some? ==> t.captures != [] && t.slot.value == t.captures[|t.captures| - 1])
    && (r.Ok? ==> t.slot.Some?)
    && (r.Ok? && cursor.None? ==> |t.captures| == |s.captures| + 1)
    && (r.Ok? && cursor.Some? ==>
          && t == s
          && exists c: Cursor :: ValidCursor(c) && HonouredBy(t.slot.value, c, cursor.value, r.value))
  }

  class Slot {
    var slot: Option<Snapshot>
    var locked: bool
    /** Every capture ever kept, and every page ever served. */
    ghost var captures: seq<Snapshot>
    ghost var served: seq<Served>

    ghost predicate Valid()
      reads this
    {
      && (slot.Some? ==> captures != [] && slot.value == captures[|captures| - 1] && Usable(slot.value))
      && (forall i | 0 <= i < |served| :: PageOf(captures, served[i]))
    }

    ghost function State(): SlotState
      reads this
    {
      SlotState(slot, captures)
    }

    constructor ()
      ensures Valid() && slot.None? && !locked && captures == [] && served == []
    {
      slot, locked := None, false;
      captures, served := [], [];
    }

    /** Only one request at a time may hold the slot. */
    method TryLease() returns (ok: bool)
      modifies `locked
      ensures ok == !old(locked) && locked
    {
      ok := !locked;
      locked := true;
    }

    /** A lease that is dropped takes the private state with it. */
    method DropLease()
      requires Valid() && locked
      modifies `slot, `locked
      ensures Valid() && slot.None? && !locked
    {
      slot, locked := None, false;
    }

    /** After a completed request the snapshot is kept, if it is still live. */
    method Preserve(world: Leases.World) returns (ok: bool)
      requires Valid() && locked
      modifies `slot, `locked
      ensures Valid() && !locked
      ensures ok == (old(slot).Some? && Live(old(slot).value, world))
      ensures slot == if ok then old(slot) else None
    {
      ok := slot.Some? && Live(slot.value, world);
      if !ok {
        slot := None;
      }
      locked := false;
    }

    /** Replaces the snapshot by a new capture, unless anything on the way fails. */
    method Capture(operation: string, profile: Profile, world: Leases.World, deadline: nat) returns (error: Option<SlotError>)
      requires Valid() && locked
      modifies `slot, `captures, world
      ensures Valid()
      ensures error.Some? ==> slot.None? && captures == old(captures)
      ensures error.None? ==>
        && slot.Some? && captures == old(captures) + [slot.value]
        && slot.value.operation == operation && slot.value.observed.profile == profile && Live(slot.value, world)
        && slot.value.started == old(world.now)
    {
      slot := None;
      var started := world.now;
      world.Pass();
      var token := AnyToken();
      if token.None? {
        return Some(EntropyUnavailable);
      }
      if world.now >= deadline {
        return Some(Timeout);
      }
      if token.value == Zeros(16) {
        return Some(EntropyUnavailable);
      }
      var previous := world.epoch;
      world.Pass();
      var captured := AnyCapture();
      if captured.None? {
        return Some(CaptureFailed);
      }
      if captured.value.profile != profile {
        return Some(WrongProfile);
      }
      if world.epoch.None? {
        return Some(CapabilityUnknown);
      }
      if world.now >= deadline {
        return Some(Timeout);
      }
      if (previous.Some? && previous != world.epoch) || world.now - started >= SNAPSHOT_TTL {
        return Some(BadCursor);
      }
      var snapshot := Snapshot(captured.value, token.value, operation, world.epoch.value, started);
      slot := Some(snapshot);
      captures := captures + [snapshot];
      PagesStay(old(captures), snapshot, served);
      error := None;
    }

    /** The page a request asks for: the first of a new capture, or the one its cursor names in
        the live snapshot. */
    method PageFor(operation: string, profile: Profile, cursor: Option<Bytes>, world: Leases.World, deadline: nat)
      returns (r: Result<Value, SlotError>, nonce: Nonce, offset: nat)
      requires Valid() && locked
      modifies `slot, `captures, world
      ensures Valid()
      ensures cursor.Some? ==> slot == old(slot) && captures == old(captures)
      ensures r.Err? && cursor.None? ==> slot.None? && captures == old(captures)
      ensures r.Ok? ==>
        && slot.Some? && nonce == slot.value.nonce && PageStart(slot.value.observed, offset)
        && r.value == PageValue(slot.value.observed, nonce, offset)
        && slot.value.operation == operation && slot.value.observed.profile == profile && Live(slot.value, world)
      ensures r.Ok? && cursor.Some? ==>
        Encode(nonce, offset) == cursor.value && ValidCursor(Cursor(nonce, offset))
      ensures r.Ok? && cursor.None? ==> offset == 0 && captures == old(captures) + [slot.value]
      ensures r.Err? && cursor.Some? ==>
        slot.None? || !Live(slot.value, world) || slot.value.operation != operation
        || slot.value.observed.profile != profile
        || forall c: Cursor :: !NamesPage(slot.value, c, cursor.value)
    {
      nonce, offset := Zeros(16), 0;
      hide PageValue, ValidCursor, Encode;
      if cursor.Some? {
        var parsed := ParseCursor(cursor.value);
        forall c: Cursor | slot.Some? && NamesPage(slot.value, c, cursor.value)
          ensures parsed.Ok? && parsed.value == c && c.nonce == slot.value.nonce && PageStart(slot.value.observed, c.offset)
        {
          if parsed.Ok? {
            EncodeInjective(parsed.value, c);
          }
        }
        if parsed.Err? || slot.None? {
          return Err(BadCursor), nonce, offset;
        }
        if parsed.value.nonce != slot.value.nonce || profile != slot.value.observed.profile
           || operation != slot.value.operation || !Live(slot.value, world) {
          return Err(BadCursor), nonce, offset;
        }
        offset := parsed.value.offset;
      } else {
        var error := Capture(operation, profile, world, deadline);
        if error.Some? {
          return Err(error.value), nonce, offset;
        }
      }
      nonce := slot.value.nonce;
      var page := Page(slot.value.observed, nonce, offset);
      r := if page.Ok? then Ok(page.value) else Err(BadCursor);
    }

    /** A whole request: lease, page, deadline and completion audit, then keep or drop. */
    method Serve(operation: string, profile: Profile, cursor: Option<Bytes>, world: Leases.World, deadline: nat, audited: bool)
      returns (r: Result<Value, SlotError>)
      requires Valid()
      modifies this, world
      ensures Valid() && old(served) <= served && Requested(old(State()), cursor, r, State())
      ensures old(locked) ==> r == Err(Busy) && slot == old(slot) && locked && captures == old(captures)
      ensures !old(locked) ==> !locked && (r.Err? ==> slot.None?)
      ensures r.Ok? ==> slot.Some? && slot.value.operation == operation && slot.value.observed.profile == profile
      ensures r.Ok? ==> Live(slot.value, world) && |served| == |old(served)| + 1
      ensures r.Ok? && cursor.None? ==>
        captures == old(captures) + [slot.value] && r.value == PageValue(slot.value.observed, slot.value.nonce, 0)
      ensures r.Ok? && cursor.Some? ==>
        && slot == old(slot) && captures == old(captures)
        && exists c: Cursor :: ValidCursor(c) && HonouredBy(slot.value, c, cursor.value, r.value)
    {
      hide PageValue, PageOf, ValidCursor, Live;
      var free := TryLease();
      if !free {
        return Err(Busy);
      }
      var page, nonce, offset := PageFor(operation, profile, cursor, world, deadline);
      if page.Err? {
        DropLease();
        return page;
      }
      world.Pass();
      if world.now >= deadline {
        DropLease();
        return Err(Timeout);
      }
      if !audited {
        DropLease();
        return Err(Incomplete);
      }
      var kept := Preserve(world);
      if !kept {
        return Err(BadCursor);
      }
      served := served + [Served(nonce, offset, page.value)];
      ServedFromLast(captures, slot.value, Served(nonce, offset, page.value));
      assert cursor.Some? ==> HonouredBy(slot.value, Cursor(nonce, offset), cursor.value, page.value);
      r := page;
    }
  }

  /** The snapshot's own cursor, and the page it names. */
  ghost predicate HonouredBy(s: Snapshot, c: Cursor, text: Bytes, page: Value) {
    && c.nonce == s.nonce && Encode(c.nonce, c.offset) == text && PageStart(s.observed, c.offset)
    && page == PageValue(s.observed, c.nonce, c.offset)
  }

  lemma PagesStay(captures: seq<Snapshot>, more: Snapshot, served: seq<Served>)
    requires forall i | 0 <= i < |served| :: PageOf(captures, served[i])
    ensures forall i | 0 <= i < |served| :: PageOf(captures + [more], served[i])
  {
    hide PageValue;
    forall i | 0 <= i < |served| ensures PageOf(captures + [more], served[i]) {
      var k :| 0 <= k < |captures|
        && captures[k].nonce == served[i].nonce && PageStart(captures[k].observed, served[i].offset)
        && served[i].page == PageValue(captures[k].observed, served[i].nonce, served[i].offset);
      assert (captures + [more])[k] == captures[k];
    }
  }

  lemma ServedFromLast(captures: seq<Snapshot>, last: Snapshot, s: Served)
    requires captures != [] && captures[|captures| - 1] == last
    requires last.nonce == s.nonce && PageStart(last.observed, s.offset)
    requires s.page == PageValue(last.observed, s.nonce, s.offset)
    ensures PageOf(captures, s)
  {
    hide PageValue;
  }

  /** Given distinct nonces, all pages ever served under one nonce are pages of one capture: no
      page of an older or newer capture is mixed in, in any run. */
  lemma PagesAreOfOneCapture(captures: seq<Snapshot>, served: seq<Served>, nonce: Nonce)
    requires DistinctNonces(captures) && forall i | 0 <= i < |served| :: PageOf(captures, served[i])
    requires exists i | 0 <= i < |served| :: served[i].nonce == nonce
    ensures exists k | 0 <= k < |captures| ::
      && captures[k].nonce == nonce
      && forall i | 0 <= i < |served| && served[i].nonce == nonce ::
        && PageStart(captures[k].observed, served[i].offset)
        && served[i].page == PageValue(captures[k].observed, nonce, served[i].offset)
  {
    hide PageValue, PageStart;
    var i :| 0 <= i < |served| && served[i].nonce == nonce;
    assert PageOf(captures, served[i]);
    var k :| 0 <= k < |captures| && captures[k].nonce == nonce;
    forall j | 0 <= j < |served| && served[j].nonce == nonce
      ensures PageStart(captures[k].observed, served[j].offset)
        && served[j].page == PageValue(captures[k].observed, nonce, served[j].offset)
    {
      assert PageOf(captures, served[j]);
      var m :| 0 <= m < |captures|
        && captures[m].nonce == nonce && PageStart(captures[m].observed, served[j].offset)
        && served[j].page == PageValue(captures[m].observed, nonce, served[j].offset);
      SameNonce(captures, k, m);
    }
  }

  lemma SameNonce(captures: seq<Snapshot>, k: nat, m: nat)
    requires DistinctNonces(captures) && k < |captures| && m < |captures| && captures[k].nonce == captures[m].nonce
    ensures k == m
  {
  }

  // ----- Sequences of requests -----

  /** One request and its answer. */
  datatype Exchange = Exchange(cursor: Option<Bytes>, answer: Result<Value, SlotError>)

  ghost predicate Session(states: seq<SlotState>, exchanges: seq<Exchange>) {
    && |states| == |exchanges| + 1
    && forall k | 0 <= k < |exchanges| ::
         Requested(states[k], exchanges[k].cursor, exchanges[k].answer, states[k + 1])
  }

  lemma {:induction false} CapturesGrow(states: seq<SlotState>, exchanges: seq<Exchange>, a: nat, b: nat)
    requires Session(states, exchanges) && a <= b < |states|
    ensures states[a].captures <= states[b].captures
    decreases b
  {
    hide HonouredBy, ValidCursor;
    if a < b {
      CapturesGrow(states, exchanges, a, b - 1);
      assert Requested(states[b - 1], exchanges[b - 1].cursor, exchanges[b - 1].answer, states[b]);
    }
  }

  /** Given distinct nonces, once a newer capture was made no later request of the session that
      sends a cursor of an older one is answered. */
  lemma OldCursorsAreDead(states: seq<SlotState>, exchanges: seq<Exchange>, a: nat, k: nat, i: nat, c: Cursor)
    requires Session(states, exchanges) && DistinctNonces(states[|exchanges|].captures)
    requires a <= k < |exchanges| && i + 1 < |states[a].captures| && c.nonce == states[a].captures[i].nonce
    requires ValidCursor(c) && exchanges[k].cursor == Some(Encode(c.nonce, c.offset))
    ensures exchanges[k].answer.Err?
  {
    hide PageValue, ValidCursor, Encode, PageStart;
    var t := states[k + 1];
    CapturesGrow(states, exchanges, a, k + 1);
    CapturesGrow(states, exchanges, k + 1, |exchanges|);
    assert Requested(states[k], exchanges[k].cursor, exchanges[k].answer, t);
    if exchanges[k].answer.Ok? {
      var d: Cursor :| ValidCursor(d) && HonouredBy(t.slot.value, d, exchanges[k].cursor.value, exchanges[k].answer.value);
      EncodeInjective(c, d);
    }
  }
}
