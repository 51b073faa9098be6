/** Whole runs of the record store: any sequence of opening, publishing, reconciling,
    reading and crashing, where an append may stop at any byte and a crash may cut the
    file at any byte that was not synchronized. */
module StoreRuns {
  import opened Common
  import opened RecordFormat
  import opened RecordStore

  datatype Handle = Closed | Open(doubt: bool)

  datatype World = World(disk: Disk, handle: Handle)

  datatype Event =
    | Opened
    | Dropped
    | Published(b: Binding, ciphertext: Bytes, outcome: RecordPublication)
    | Reconciled(b: Binding, outcome: RecordPublication)
    | ReadBack(b: Binding, ciphertext: Bytes)
    | Crashed(length: nat)

  /** One event. The relations for publishing, reconciling and reading are exactly what
      the methods of the store class establish. */
  ghost predicate Step(digest: Digest, store: Bytes, w: World, e: Event, w': World)
    requires |store| == 16
  {
    match e
    case Opened =>
      Readable(digest, store, w.disk.bytes, None) && w' == World(w.disk, Open(false))
    case Dropped =>
      w' == World(w.disk, Closed)
    case Published(b, ciphertext, outcome) =>
      && w.handle.Open? && w'.handle.Open? && ValidBinding(b)
      && w'.disk.synced <= |w'.disk.bytes|
      && PublishStep(digest, store, b, ciphertext, w.disk, w.handle.doubt, outcome, w'.disk, w'.handle.doubt)
    case Reconciled(b, outcome) =>
      && w.handle.Open? && w'.handle.Open? && w'.disk.synced <= |w'.disk.bytes|
      && ReconcileStep(digest, store, b, w.disk, w.handle.doubt, outcome, w'.disk, w'.handle.doubt)
    case ReadBack(b, ciphertext) =>
      && w' == w && Readable(digest, store, w.disk.bytes, Some(b))
      && Lookup(Contents(digest, store, w.disk.bytes), b) == Some(ciphertext)
    case Crashed(length) =>
      && w.disk.synced <= length <= |w.disk.bytes|
      && w' == World(Disk(w.disk.bytes[..length], w.disk.synced), Closed)
  }

  ghost predicate Run(digest: Digest, store: Bytes, ws: seq<World>, es: seq<Event>)
    requires |store| == 16
  {
    && |ws| == |es| + 1
    && forall i | 0 <= i < |es| :: Step(digest, store, ws[i], es[i], ws[i + 1])
  }

  lemma RunExtends(digest: Digest, store: Bytes, ws: seq<World>, es: seq<Event>, e: Event, w: World)
    requires |store| == 16 && Run(digest, store, ws, es) && Step(digest, store, ws[|es|], e, w)
    ensures Run(digest, store, ws + [w], es + [e])
  {
    hide Step;
    var vs, ds := ws + [w], es + [e];
    forall i | 0 <= i < |ds|
      ensures Step(digest, store, vs[i], ds[i], vs[i + 1])
    {
      if i < |es| {
        assert vs[i] == ws[i] && vs[i + 1] == ws[i + 1] && ds[i] == es[i];
      }
    }
  }

  /** A proper first part of one record that could come next. */
  ghost predicate Torn(digest: Digest, store: Bytes, rs: seq<Record>, r: Record, torn: Bytes) {
    && ValidRecords(store, rs + [r])
    && |torn| < |RecordBytes(digest, r)| && torn == RecordBytes(digest, r)[..|torn|]
  }

  /** A complete store followed by at most one torn record. */
  ghost predicate Shaped(digest: Digest, store: Bytes, bytes: Bytes, rs: seq<Record>, torn: Bytes)
    requires |store| == 16
  {
    && ValidRecords(store, rs)
    && bytes == Image(digest, store, rs) + torn
    && (torn != [] ==> exists r :: Torn(digest, store, rs, r, torn))
  }

  ghost predicate Inv(digest: Digest, store: Bytes, w: World)
    requires |store| == 16
  {
    && HEADER <= w.disk.synced <= |w.disk.bytes|
    && (exists rs, torn :: Shaped(digest, store, w.disk.bytes, rs, torn))
    && (w.handle == Open(false) ==> WellFormed(digest, store, w.disk.bytes))
  }

  /** A provisioned empty store is a correct start. */
  lemma Provisioned(digest: Digest, store: Bytes)
    requires |store| == 16
    ensures Inv(digest, store, World(Disk(HeaderBytes(digest, store), HEADER), Closed))
    ensures WellFormed(digest, store, HeaderBytes(digest, store))
  {
    hide HeaderBytes;
    assert Image(digest, store, []) == HeaderBytes(digest, store);
    assert ValidRecords(store, []);
    assert Shaped(digest, store, HeaderBytes(digest, store), [], []);
  }

  lemma WholeIsShaped(digest: Digest, store: Bytes, bytes: Bytes)
    requires |store| == 16 && WellFormed(digest, store, bytes)
    ensures Shaped(digest, store, bytes, Contents(digest, store, bytes), [])
  {
    hide Image;
  }

  /** A torn store is never mistaken for a complete one, so it can never be opened. */
  lemma TornIsNotWellFormed(digest: Digest, store: Bytes, bytes: Bytes, rs: seq<Record>, torn: Bytes)
    requires |store| == 16 && Shaped(digest, store, bytes, rs, torn) && torn != []
    ensures !WellFormed(digest, store, bytes)
  {
    hide HeaderBytes, HeadRecord, RecordBytes, ValidRecord;
    var r :| Torn(digest, store, rs, r, torn);
    assert (rs + [r])[|rs|] == r && r in rs + [r];
    TornHead(digest, store, r, |torn|);
    NothingToRead(digest, store);
    if WellFormed(digest, store, bytes) {
      var all := Contents(digest, store, bytes);
      TornMeansMore(digest, store, bytes, rs, torn, all);
    }
  }

  lemma TornMeansMore(digest: Digest, store: Bytes, bytes: Bytes, rs: seq<Record>, torn: Bytes, all: seq<Record>)
    requires |store| == 16 && ValidRecords(store, rs) && ValidRecords(store, all)
    requires bytes == Image(digest, store, rs) + torn == Image(digest, store, all) && torn != []
    ensures HeadRecord(digest, store, torn).Some?
  {
    hide HeaderBytes, HeadRecord, RecordBytes, ValidRecord;
    NothingToRead(digest, store);
    assert bytes[HEADER..] == Body(digest, rs) + torn == Body(digest, all) + [];
    BodyPrefix(digest, store, rs, all, torn, []);
    var more := all[|rs|..];
    assert more != [] && more[0] in all;
    assert torn == RecordBytes(digest, more[0]) + Body(digest, more[1..]);
    HeadComplete(digest, store, more[0], Body(digest, more[1..]));
  }

  /** Appending a first part of a record to a complete store keeps the shape. */
  lemma PartKeepsShape(digest: Digest, store: Bytes, before: Bytes, r: Record, after: Bytes)
    requires |store| == 16 && Appendable(digest, store, before, r)
    requires PartOf(RecordBytes(digest, r), before, after)
    ensures exists rs, torn :: Shaped(digest, store, after, rs, torn)
  {
    hide HeaderBytes, RecordBytes, ValidRecords;
    var rs, whole := Contents(digest, store, before), RecordBytes(digest, r);
    var k :| 0 <= k <= |whole| && after == before + whole[..k];
    if k == |whole| {
      ImageAppend(digest, store, rs, r);
      assert whole[..k] == whole;
      assert Shaped(digest, store, after, rs + [r], []);
    } else {
      assert Torn(digest, store, rs, r, whole[..k]);
      assert Shaped(digest, store, after, rs, whole[..k]);
    }
  }

  /** Cutting a shaped file anywhere after its header keeps the shape. */
  lemma {:induction false} CutKeepsShape(digest: Digest, store: Bytes, bytes: Bytes, rs: seq<Record>, torn: Bytes, n: nat)
    requires |store| == 16 && Shaped(digest, store, bytes, rs, torn) && HEADER <= n <= |bytes|
    ensures exists rs', torn' :: Shaped(digest, store, bytes[..n], rs', torn')
    decreases |rs|
  {
    hide HeaderBytes, RecordBytes;
    var image := Image(digest, store, rs);
    assert |image| == HEADER + |Body(digest, rs)|;
    if n >= |image| {
      var k := n - |image|;
      assert bytes[..n] == image + torn[..k];
      if torn != [] {
        var r :| Torn(digest, store, rs, r, torn);
        assert torn[..k] == RecordBytes(digest, r)[..k];
        assert Torn(digest, store, rs, r, torn[..k]);
      } else {
        assert torn[..k] == [];
      }
      assert Shaped(digest, store, bytes[..n], rs, torn[..k]);
    } else {
      assert rs != [];
      var init, last := rs[..|rs| - 1], rs[|rs| - 1];
      assert rs == init + [last];
      ImageAppend(digest, store, init, last);
      ValidPrefix(store, init, last);
      assert bytes[..n] == image[..n];
      var start := Image(digest, store, init);
      if n >= |start| {
        var k := n - |start|;
        assert image[..n] == start + RecordBytes(digest, last)[..k];
        assert Torn(digest, store, init, last, RecordBytes(digest, last)[..k]);
        assert Shaped(digest, store, bytes[..n], init, RecordBytes(digest, last)[..k]);
      } else {
        assert image[..n] == start[..n];
        assert start + [] == start;
        assert Shaped(digest, store, start, init, []);
        CutKeepsShape(digest, store, start, init, [], n);
      }
    }
  }

  lemma ValidPrefix(store: Bytes, rs: seq<Record>, r: Record)
    requires ValidRecords(store, rs + [r])
    ensures ValidRecords(store, rs)
  {
    hide ValidRecord, JobOf;
    var all := rs + [r];
    assert forall x | x in rs :: x in all;
    forall i, j | 0 <= i < j < |rs|
      ensures JobOf(rs[i].binding) != JobOf(rs[j].binding)
    {
      assert JobOf(all[i].binding) != JobOf(all[j].binding);
    }
  }

  /** Every event keeps the invariant. */
  lemma StepKeepsInv(digest: Digest, store: Bytes, w: World, e: Event, w': World)
    requires |store| == 16 && Inv(digest, store, w) && Step(digest, store, w, e, w')
    ensures Inv(digest, store, w')
  {
    hide HeaderBytes, RecordBytes, Image, ValidRecords, Torn;
    match e
    case Opened =>
    case Dropped =>
    case Published(b, ciphertext, outcome) =>
      PublishKeepsInv(digest, store, w, b, ciphertext, outcome, w');
    case Reconciled(b, outcome) =>
    case ReadBack(b, ciphertext) =>
    case Crashed(length) =>
      var rs, torn :| Shaped(digest, store, w.disk.bytes, rs, torn);
      CutKeepsShape(digest, store, w.disk.bytes, rs, torn, length);
  }

  lemma PublishKeepsInv(digest: Digest, store: Bytes, w: World, b: Binding, ciphertext: Bytes,
                        outcome: RecordPublication, w': World)
    requires |store| == 16 && Inv(digest, store, w)
    requires Step(digest, store, w, Published(b, ciphertext, outcome), w')
    ensures Inv(digest, store, w')
  {
    hide HeaderBytes, RecordBytes, ValidRecords, Torn;
    var r := Record(b, ciphertext);
    var before, after := w.disk.bytes, w'.disk.bytes;
    match outcome
    case Durable =>
      var rs := Contents(digest, store, before);
      ImageAppend(digest, store, rs, r);
      assert WellFormed(digest, store, after);
      WholeIsShaped(digest, store, after);
    case NotPublished =>
    case Unknown =>
      if after != before {
        PartKeepsShape(digest, store, before, r, after);
      }
  }

  /** In every run the file stays a complete store plus at most one torn record, and a
      handle without doubt stands over a complete store. */
  lemma {:induction false} RunsStayShaped(digest: Digest, store: Bytes, ws: seq<World>, es: seq<Event>, i: nat)
    requires |store| == 16 && Run(digest, store, ws, es) && Inv(digest, store, ws[0]) && i < |ws|
    ensures Inv(digest, store, ws[i])
  {
    hide Inv, Step;
    if i > 0 {
      RunsStayShaped(digest, store, ws, es, i - 1);
      assert Step(digest, store, ws[i - 1], es[i - 1], ws[i]);
      StepKeepsInv(digest, store, ws[i - 1], es[i - 1], ws[i]);
    }
  }

  // ----- Durability -----

  /** The record lies inside the part of the file that survives every crash. */
  ghost predicate Durably(digest: Digest, store: Bytes, disk: Disk, r: Record)
    requires |store| == 16
  {
    exists rs :: SurvivesWith(digest, store, disk, rs) && r in rs
  }

  ghost predicate SurvivesWith(digest: Digest, store: Bytes, disk: Disk, rs: seq<Record>)
    requires |store| == 16
  {
    && ValidRecords(store, rs)
    && |Image(digest, store, rs)| <= disk.synced
    && Image(digest, store, rs) <= disk.bytes
  }

  lemma DurableStep(digest: Digest, store: Bytes, w: World, e: Event, w': World, r: Record)
    requires |store| == 16 && Inv(digest, store, w) && Step(digest, store, w, e, w')
    requires Durably(digest, store, w.disk, r)
    ensures Durably(digest, store, w'.disk, r)
  {
    hide HeaderBytes, RecordBytes, Image, ValidRecords, WellFormed, Readable, Appendable;
    var rs :| SurvivesWith(digest, store, w.disk, rs) && r in rs;
    assert w'.disk.synced >= w.disk.synced;
    assert w.disk.bytes[..w.disk.synced] <= w'.disk.bytes;
    assert SurvivesWith(digest, store, w'.disk, rs);
  }

  lemma {:induction false} DurableRun(digest: Digest, store: Bytes, ws: seq<World>, es: seq<Event>,
                                      i: nat, j: nat, r: Record)
    requires |store| == 16 && Run(digest, store, ws, es) && Inv(digest, store, ws[0])
    requires i <= j < |ws| && Durably(digest, store, ws[i].disk, r)
    ensures Durably(digest, store, ws[j].disk, r)
  {
    hide Durably, Step, Inv;
    if i < j {
      DurableRun(digest, store, ws, es, i, j - 1, r);
      RunsStayShaped(digest, store, ws, es, j - 1);
      assert Step(digest, store, ws[j - 1], es[j - 1], ws[j]);
      DurableStep(digest, store, ws[j - 1], es[j - 1], ws[j], r);
    }
  }

  /** A successful publication makes its record and every earlier one durable. */
  lemma PublishedIsDurable(digest: Digest, store: Bytes, w: World, b: Binding, ciphertext: Bytes, w': World, r: Record)
    requires |store| == 16 && Step(digest, store, w, Published(b, ciphertext, Durable), w')
    requires r == Record(b, ciphertext) || r in Contents(digest, store, w.disk.bytes)
    ensures Durably(digest, store, w'.disk, r)
  {
    hide HeaderBytes, RecordBytes, ValidRecords;
    var rs, record := Contents(digest, store, w.disk.bytes), Record(b, ciphertext);
    ImageAppend(digest, store, rs, record);
    hide Image;
    assert SurvivesWith(digest, store, w'.disk, rs + [record]);
    assert r in rs + [record];
  }

  lemma {:induction false} LookupMember(rs: seq<Record>, b: Binding)
    requires Lookup(rs, b).Some?
    ensures Record(b, Lookup(rs, b).value) in rs
  {
    if rs[|rs| - 1].binding != b {
      LookupMember(rs[..|rs| - 1], b);
    }
  }

  lemma {:induction false} MemberLookup(store: Bytes, rs: seq<Record>, r: Record)
    requires ValidRecords(store, rs) && r in rs
    ensures Lookup(rs, r.binding) == Some(r.ciphertext)
    decreases |rs|
  {
    hide ValidRecord;
    var init, last := rs[..|rs| - 1], rs[|rs| - 1];
    assert rs == init + [last];
    if last != r {
      assert r in init;
      var i :| 0 <= i < |init| && init[i] == r;
      assert JobOf(rs[i].binding) != JobOf(rs[|rs| - 1].binding);
      ValidPrefix(store, init, last);
      MemberLookup(store, init, r);
    }
  }

  /** Reconciling confirms the record it found, and everything before it. */
  lemma ReconciledIsDurable(digest: Digest, store: Bytes, w: World, b: Binding, w': World)
    requires |store| == 16 && Step(digest, store, w, Reconciled(b, Durable), w')
    ensures
      var found := Lookup(Contents(digest, store, w.disk.bytes), b);
      found.Some? && Durably(digest, store, w'.disk, Record(b, found.value))
  {
    hide Image, ValidRecords;
    var rs := Contents(digest, store, w.disk.bytes);
    LookupMember(rs, b);
    assert SurvivesWith(digest, store, w'.disk, rs);
  }

  /** Whenever the file is a complete store, a durable record is in it, byte for byte. */
  lemma DurableIsRead(digest: Digest, store: Bytes, disk: Disk, r: Record)
    requires |store| == 16 && Durably(digest, store, disk, r) && WellFormed(digest, store, disk.bytes)
    ensures r in Contents(digest, store, disk.bytes)
    ensures Lookup(Contents(digest, store, disk.bytes), r.binding) == Some(r.ciphertext)
  {
    hide HeaderBytes, HeadRecord, RecordBytes, ValidRecord, Body;
    var rs :| SurvivesWith(digest, store, disk, rs) && r in rs;
    var all, image := Contents(digest, store, disk.bytes), Image(digest, store, rs);
    var rest := disk.bytes[|image|..];
    assert disk.bytes == image + rest;
    assert disk.bytes[HEADER..] == Body(digest, rs) + rest == Body(digest, all) + [];
    NothingToRead(digest, store);
    BodyPrefix(digest, store, rs, all, rest, []);
    assert r in all;
    MemberLookup(store, all, r);
  }

  /** Once published durably, a record is returned by every later successful read, in
      every run, whatever failed or crashed in between. */
  lemma DurableForever(digest: Digest, store: Bytes, ws: seq<World>, es: seq<Event>, i: nat, j: nat,
                       b: Binding, ciphertext: Bytes, later: Bytes)
    requires |store| == 16 && Run(digest, store, ws, es) && Inv(digest, store, ws[0])
    requires i < j < |es|
    requires es[i] == Published(b, ciphertext, Durable) && es[j] == ReadBack(b, later)
    ensures later == ciphertext
  {
    hide Inv, Durably;
    var r := Record(b, ciphertext);
    assert Step(digest, store, ws[i], es[i], ws[i + 1]);
    PublishedIsDurable(digest, store, ws[i], b, ciphertext, ws[i + 1], r);
    DurableRun(digest, store, ws, es, i + 1, j, r);
    assert Step(digest, store, ws[j], es[j], ws[j + 1]);
    DurableIsRead(digest, store, ws[j].disk, r);
  }

  /** No job is ever published durably twice. */
  lemma JobsPublishOnce(digest: Digest, store: Bytes, ws: seq<World>, es: seq<Event>, i: nat, j: nat,
                        b: Binding, x: Bytes, c: Binding, y: Bytes)
    requires |store| == 16 && Run(digest, store, ws, es) && Inv(digest, store, ws[0])
    requires i < j < |es| && es[i] == Published(b, x, Durable) && es[j] == Published(c, y, Durable)
    ensures JobOf(b) != JobOf(c)
  {
    hide Inv, Durably, ValidRecord, RecordBytes, Image, JobOf;
    var r := Record(b, x);
    assert Step(digest, store, ws[i], es[i], ws[i + 1]);
    PublishedIsDurable(digest, store, ws[i], b, x, ws[i + 1], r);
    DurableRun(digest, store, ws, es, i + 1, j, r);
    assert Step(digest, store, ws[j], es[j], ws[j + 1]);
    DurableIsRead(digest, store, ws[j].disk, r);
    var rs, last := Contents(digest, store, ws[j].disk.bytes), Record(c, y);
    var k :| 0 <= k < |rs| && rs[k] == r;
    assert ValidRecords(store, rs + [last]);
    assert (rs + [last])[k] == r && (rs + [last])[|rs|] == last;
  }
}
