/** The validator accepts a byte string exactly when it is an archive of the expected
    files, however the bytes were cut into chunks. */
module TarRefinement {
  import opened Common
  import opened TarFormat
  import opened TarValidator

  /** The files of the manifest that have not been seen yet. */
  function Unseen(files: seq<File>, seen: seq<bool>): multiset<File>
    requires |files| == |seen|
  {
    if files == [] then multiset{}
    else (if seen[0] then multiset{} else multiset{files[0]}) + Unseen(files[1..], seen[1..])
  }

  lemma {:induction false} UnseenMark(files: seq<File>, seen: seq<bool>, i: nat)
    requires |files| == |seen| && i < |files| && !seen[i]
    ensures Unseen(files, seen) == Unseen(files, seen[i := true]) + multiset{files[i]}
  {
    if i == 0 {
      assert seen[0 := true][1..] == seen[1..];
    } else {
      UnseenMark(files[1..], seen[1..], i - 1);
      assert seen[i := true][1..] == seen[1..][i - 1 := true];
    }
  }

  lemma {:induction false} UnseenMember(files: seq<File>, seen: seq<bool>, f: File) returns (i: nat)
    requires |files| == |seen| && f in Unseen(files, seen)
    ensures i < |files| && files[i] == f && !seen[i]
  {
    if !seen[0] && files[0] == f {
      i := 0;
    } else {
      i := UnseenMember(files[1..], seen[1..], f);
      i := i + 1;
    }
  }

  lemma {:induction false} UnseenNone(files: seq<File>, seen: seq<bool>)
    requires |files| == |seen|
    ensures Unseen(files, seen) == multiset{} <==> forall i | 0 <= i < |seen| :: seen[i]
  {
    if files != [] {
      UnseenNone(files[1..], seen[1..]);
      if !seen[0] {
        assert files[0] in Unseen(files, seen);
      } else if forall i | 0 <= i < |seen| - 1 :: seen[1..][i] {
        assert forall i | 1 <= i < |seen| :: seen[i] == seen[1..][i - 1];
      }
    }
  }

  lemma {:induction false} UnseenAll(files: seq<File>, seen: seq<bool>)
    requires |files| == |seen| && forall i | 0 <= i < |seen| :: !seen[i]
    ensures Unseen(files, seen) == multiset(files)
  {
    if files != [] {
      UnseenAll(files[1..], seen[1..]);
      assert files == [files[0]] + files[1..];
    }
  }

  function MemberLength(size: nat): nat {
    BLOCK_BYTES + size + Padding(size)
  }

  /** Reads whole members: the profile as a recursive recogniser. */
  predicate Accepts(left: multiset<File>, bytes: Bytes)
    decreases |bytes|
  {
    |bytes| >= BLOCK_BYTES &&
    if AllZero(bytes[..BLOCK_BYTES]) then
      left == multiset{} && ValidTail(|bytes|) && AllZero(bytes)
    else match Parse(bytes[..BLOCK_BYTES])
      case Err(_) => false
      case Ok(h) =>
        var f, n := File(h.path, h.size), MemberLength(h.size);
        && f in left && n <= |bytes|
        && AllZero(bytes[BLOCK_BYTES + h.size..n])
        && Accepts(left - multiset{f}, bytes[n..])
  }

  // ----- The machine recognises what the recogniser accepts -----

  /** The run from a header position ends finishable. */
  predicate Completes(files: seq<File>, s: State, bytes: Bytes)
    requires ValidState(files, s)
  {
    var r := Consume(files, s, bytes);
    && r.Ok? && r.value.stage.AtEnd? && ValidTail(r.value.stage.bytes)
    && forall i | 0 <= i < |r.value.seen| :: r.value.seen[i]
  }

  lemma AllZeroSplit(s: Bytes, k: nat)
    requires k <= |s|
    ensures AllZero(s) <==> AllZero(s[..k]) && AllZero(s[k..])
  {
    assert s == s[..k] + s[k..];
  }

  lemma CompletesTail(files: seq<File>, seen: seq<bool>, bytes: Bytes)
    requires |seen| == |files| && |bytes| >= BLOCK_BYTES && AllZero(bytes[..BLOCK_BYTES])
    ensures Completes(files, State(seen, [], AtHeader), bytes) <==>
            Unseen(files, seen) == multiset{} && ValidTail(|bytes|) && AllZero(bytes)
  {
    hide Parse, IndexOf, Unseen;
    var s := State(seen, [], AtHeader);
    assert [] + bytes[..BLOCK_BYTES] == bytes[..BLOCK_BYTES];
    ConsumeBlock(files, s, bytes, BLOCK_BYTES);
    AllZeroSplit(bytes, BLOCK_BYTES);
    UnseenNone(files, seen);
  }

  /** From inside a body, completion needs the rest of the body and zero padding. */
  lemma CompletesBody(files: seq<File>, seen: seq<bool>, size: nat, bytes: Bytes)
    requires |seen| == |files| && size > 0
    ensures
      var s := State(seen, [], InBody(size, Padding(size)));
      var n := size + Padding(size);
      Completes(files, s, bytes) <==>
        && n <= |bytes| && AllZero(bytes[size..n])
        && Completes(files, State(seen, [], AtHeader), bytes[n..])
  {
    hide Accept;
    var s := State(seen, [], InBody(size, Padding(size)));
    var n, pad := size + Padding(size), Padding(size);
    if |bytes| < size {
      if bytes != [] {
        ConsumeBody(files, s, bytes, |bytes|);
        assert bytes[|bytes|..] == [];
      }
    } else {
      ConsumeBody(files, s, bytes, size);
      var t, rest := State(seen, [], AfterBody(pad)), bytes[size..];
      if pad == 0 {
        assert bytes[size..n] == [];
      } else if |rest| < pad {
        if rest != [] {
          ConsumePadding(files, t, rest, |rest|);
          assert rest[|rest|..] == [];
        }
      } else {
        ConsumePadding(files, t, rest, pad);
        assert rest[..pad] == bytes[size..n] && rest[pad..] == bytes[n..];
      }
    }
  }

  /** A header block is accepted exactly if it names a file that has not been seen yet. */
  lemma AcceptsUnseen(files: seq<File>, seen: seq<bool>, block: Bytes)
    requires StrictlySortedBy(PathKey, files)
    requires |seen| == |files| && |block| == BLOCK_BYTES && !AllZero(block)
    ensures
      var accepted, h := Accept(files, seen, block), Parse(block);
      && (accepted.Ok? <==> h.Ok? && File(h.value.path, h.value.size) in Unseen(files, seen))
      && (accepted.Ok? ==>
            && IndexOf(files, h.value.path).Some?
            && accepted.value == InMember(seen[IndexOf(files, h.value.path).value := true], h.value.size))
  {
    hide Parse, StrictlySortedBy;
    var h := Parse(block);
    if h.Ok? {
      var f := File(h.value.path, h.value.size);
      var at := IndexOf(files, f.path);
      if f in Unseen(files, seen) {
        var i := UnseenMember(files, seen, f);
        IndexOfUnique(files, i);
      }
      if at.Some? && !seen[at.value] && files[at.value] == f {
        UnseenMark(files, seen, at.value);
      }
    }
  }

  /** The bytes hold a header block, `size` bytes of body, and zero padding. */
  predicate WholeMember(size: nat, bytes: Bytes) {
    MemberLength(size) <= |bytes| && AllZero(bytes[BLOCK_BYTES + size..MemberLength(size)])
  }

  /** Where the machine stands after the header of a member. */
  function InMember(seen: seq<bool>, size: nat): State {
    State(seen, [], if size > 0 then InBody(size, Padding(size)) else AtHeader)
  }

  lemma CompletesInMember(files: seq<File>, seen: seq<bool>, size: nat, bytes: Bytes)
    requires |seen| == |files|
    ensures
      var n := size + Padding(size);
      Completes(files, InMember(seen, size), bytes) <==>
        && n <= |bytes| && AllZero(bytes[size..n])
        && Completes(files, State(seen, [], AtHeader), bytes[n..])
  {
    hide Completes;
    if size > 0 {
      CompletesBody(files, seen, size, bytes);
    } else {
      assert Padding(size) == 0 && bytes[0..] == bytes;
    }
  }

  lemma CompletesMember(files: seq<File>, seen: seq<bool>, bytes: Bytes)
    requires StrictlySortedBy(PathKey, files)
    requires |seen| == |files| && |bytes| >= BLOCK_BYTES && !AllZero(bytes[..BLOCK_BYTES])
    ensures
      var s, h := State(seen, [], AtHeader), Parse(bytes[..BLOCK_BYTES]);
      Completes(files, s, bytes) <==>
        && h.Ok?
        && File(h.value.path, h.value.size) in Unseen(files, seen)
        && WholeMember(h.value.size, bytes)
        && IndexOf(files, h.value.path).Some?
        && Completes(files, State(seen[IndexOf(files, h.value.path).value := true], [], AtHeader),
                     bytes[MemberLength(h.value.size)..])
  {
    hide Parse, Accept, Unseen, StrictlySortedBy, AllZero, IndexOf;
    var s, block, rest := State(seen, [], AtHeader), bytes[..BLOCK_BYTES], bytes[BLOCK_BYTES..];
    assert [] + block == block;
    ConsumeBlock(files, s, bytes, BLOCK_BYTES);
    AcceptsUnseen(files, seen, block);
    var h := Parse(block);
    hide Consume;
    if h.Ok? && File(h.value.path, h.value.size) in Unseen(files, seen) {
      var size, n := h.value.size, MemberLength(h.value.size);
      CompletesInMember(files, seen[IndexOf(files, h.value.path).value := true], size, rest);
      if n <= |bytes| {
        assert rest[size..n - BLOCK_BYTES] == bytes[BLOCK_BYTES + size..n];
        assert rest[n - BLOCK_BYTES..] == bytes[n..];
      }
    }
  }

  lemma CompletesShort(files: seq<File>, seen: seq<bool>, bytes: Bytes)
    requires |seen| == |files| && |bytes| < BLOCK_BYTES
    ensures !Completes(files, State(seen, [], AtHeader), bytes)
  {
    ConsumeHeader(files, State(seen, [], AtHeader), bytes, |bytes|);
    assert bytes[|bytes|..] == [];
  }

  lemma {:induction false} CompletesAccepts(files: seq<File>, seen: seq<bool>, bytes: Bytes)
    requires StrictlySortedBy(PathKey, files) && |seen| == |files|
    ensures Completes(files, State(seen, [], AtHeader), bytes) <==> Accepts(Unseen(files, seen), bytes)
    decreases |bytes|
  {
    hide Parse, Consume;
    if |bytes| < BLOCK_BYTES {
      CompletesShort(files, seen, bytes);
    } else if AllZero(bytes[..BLOCK_BYTES]) {
      CompletesTail(files, seen, bytes);
    } else {
      CompletesMember(files, seen, bytes);
      var h := Parse(bytes[..BLOCK_BYTES]);
      if h.Ok? && File(h.value.path, h.value.size) in Unseen(files, seen)
         && MemberLength(h.value.size) <= |bytes| {
        var f := File(h.value.path, h.value.size);
        var i := UnseenMember(files, seen, f);
        IndexOfUnique(files, i);
        UnseenMark(files, seen, i);
        assert Unseen(files, seen[i := true]) == Unseen(files, seen) - multiset{f};
        CompletesAccepts(files, seen[i := true], bytes[MemberLength(f.size)..]);
      }
    }
  }

  // ----- The recogniser accepts exactly the declared layouts -----

  /** The first member of accepted bytes, as an entry. */
  lemma AcceptsFirst(left: multiset<File>, bytes: Bytes) returns (f: File, e: Entry, n: nat)
    requires Accepts(left, bytes) && !AllZero(bytes[..BLOCK_BYTES])
    ensures f in left && 0 < n <= |bytes| && MemberFor(f, e) && EntryBytes(e) == bytes[..n]
    ensures Accepts(left - multiset{f}, bytes[n..])
  {
    hide Parse;
    var h := Parse(bytes[..BLOCK_BYTES]).value;
    f, n := File(h.path, h.size), MemberLength(h.size);
    hide Accepts;
    e := Entry(bytes[..BLOCK_BYTES], bytes[BLOCK_BYTES..BLOCK_BYTES + h.size]);
    AllZeroIsZeros(bytes[BLOCK_BYTES + h.size..n]);
    assert bytes[..n] == bytes[..BLOCK_BYTES] + bytes[BLOCK_BYTES..BLOCK_BYTES + h.size] + bytes[BLOCK_BYTES + h.size..n];
  }

  lemma {:induction false} AcceptsLayout(left: multiset<File>, bytes: Bytes)
    returns (order: seq<File>, entries: seq<Entry>, tail: nat)
    requires Accepts(left, bytes)
    ensures multiset(order) == left && IsArchive(order, entries, tail, bytes)
    decreases |bytes|
  {
    hide Parse, MemberFor, EntryBytes;
    if AllZero(bytes[..BLOCK_BYTES]) {
      order, entries, tail := [], [], |bytes|;
      AllZeroIsZeros(bytes);
      assert Layout([]) + Zeros(tail) == bytes;
    } else {
      var f, e, n := AcceptsFirst(left, bytes);
      hide Accepts, IsArchive;
      var os, es, t := AcceptsLayout(left - multiset{f}, bytes[n..]);
      IsArchiveCons(f, e, os, es, t, bytes[n..]);
      assert bytes == bytes[..n] + bytes[n..];
      order, entries, tail := [f] + os, [e] + es, t;
    }
  }

  lemma IsArchiveCons(f: File, e: Entry, order: seq<File>, entries: seq<Entry>, tail: nat, rest: Bytes)
    requires MemberFor(f, e) && IsArchive(order, entries, tail, rest)
    ensures IsArchive([f] + order, [e] + entries, tail, EntryBytes(e) + rest)
  {
    hide Parse, EntryBytes;
    var all := [e] + entries;
    assert all[0] == e && all[1..] == entries;
    assert Layout(all) + Zeros(tail) == EntryBytes(e) + (Layout(entries) + Zeros(tail));
  }

  lemma AcceptsMember(f: File, e: Entry, left: multiset<File>, rest: Bytes)
    requires MemberFor(f, e) && f in left
    ensures Accepts(left, EntryBytes(e) + rest) <==> Accepts(left - multiset{f}, rest)
  {
    hide Parse;
    var bytes, n := EntryBytes(e) + rest, MemberLength(f.size);
    assert bytes[..BLOCK_BYTES] == e.header;
    if AllZero(e.header) {
      ZeroBlockIsNoHeader(e.header);
    }
    assert bytes[BLOCK_BYTES + f.size..n] == Zeros(Padding(f.size));
    assert bytes[n..] == rest;
    assert File(f.path, f.size) == f;
  }

  lemma TailAccepts(tail: nat)
    requires ValidTail(tail)
    ensures Accepts(multiset{}, Zeros(tail))
  {
    hide Parse;
  }

  lemma {:induction false} LayoutAccepts(order: seq<File>, entries: seq<Entry>, tail: nat, bytes: Bytes)
    requires IsArchive(order, entries, tail, bytes)
    ensures Accepts(multiset(order), bytes)
    decreases |order|
  {
    hide Accepts, EntryBytes, MemberFor;
    if order == [] {
      TailAccepts(tail);
      assert bytes == Zeros(tail);
    } else {
      var rest := Layout(entries[1..]) + Zeros(tail);
      assert bytes == EntryBytes(entries[0]) + rest;
      LayoutAccepts(order[1..], entries[1..], tail, rest);
      assert order == [order[0]] + order[1..];
      assert multiset(order) - multiset{order[0]} == multiset(order[1..]);
      assert MemberFor(order[0], entries[0]);
      AcceptsMember(order[0], entries[0], multiset(order), rest);
    }
  }

  lemma AcceptsConforms(left: multiset<File>, bytes: Bytes)
    ensures Accepts(left, bytes) <==> Conforms(left, bytes)
  {
    if Accepts(left, bytes) {
      var order, entries, tail := AcceptsLayout(left, bytes);
    }
    if Conforms(left, bytes) {
      var order, entries, tail :| multiset(order) == left && IsArchive(order, entries, tail, bytes);
      LayoutAccepts(order, entries, tail, bytes);
    }
  }

  // ----- The archive limit -----

  lemma {:induction false} LayoutLength(order: seq<File>, entries: seq<Entry>)
    requires |entries| == |order| && forall i | 0 <= i < |order| :: MemberFor(order[i], entries[i])
    ensures |Layout(entries)| <= TotalSize(order) + |order| * (2 * BLOCK_BYTES - 1)
  {
    hide Parse;
    if order != [] {
      assert MemberFor(order[0], entries[0]);
      LayoutLength(order[1..], entries[1..]);
    }
  }

  /** No archive of an accepted manifest can reach the total limit. */
  lemma ConformingFits(files: seq<File>, bytes: Bytes)
    requires ValidManifest(files) && Conforms(multiset(files), bytes)
    ensures |bytes| <= MAX_ARCHIVE_BYTES
  {
    hide Parse, MemberFor, Layout, NoAncestors, StrictlySortedBy, ValidPath;
    var order, entries, tail :| multiset(order) == multiset(files) && IsArchive(order, entries, tail, bytes);
    LayoutLength(order, entries);
    TotalSizePermutation(order, files);
    assert |bytes| == |Layout(entries)| + tail;
  }

  // ----- Chunked feeding -----

  lemma {:induction false} FeedAllJoins(files: seq<File>, c: Checker, a: seq<Bytes>, b: seq<Bytes>)
    requires ValidChecker(files, c)
    ensures FeedAll(files, c, a + b) == FeedAll(files, FeedAll(files, c, a), b)
    decreases |a|
  {
    hide FeedChunk;
    if a == [] {
      assert a + b == b;
    } else {
      assert (a + b)[0] == a[0] && (a + b)[1..] == a[1..] + b;
      FeedAllJoins(files, FeedChunk(files, c, a[0]), a[1..], b);
    }
  }

  lemma FeedAllSnoc(files: seq<File>, c: Checker, chunks: seq<Bytes>, last: Bytes)
    requires ValidChecker(files, c)
    ensures FeedAll(files, c, chunks + [last]) == FeedChunk(files, FeedAll(files, c, chunks), last)
  {
    hide FeedChunk;
    FeedAllJoins(files, c, chunks, [last]);
    assert [last][1..] == [];
  }

  lemma {:induction false} FailedStaysFailed(files: seq<File>, e: ArchiveError, chunks: seq<Bytes>)
    ensures FeedAll(files, Failed(e), chunks) == Failed(e)
    decreases |chunks|
  {
    if chunks != [] {
      FailedStaysFailed(files, e, chunks[1..]);
    }
  }

  /** Feeding chunk by chunk is one pass of the machine over the concatenation. */
  lemma {:induction false} FeedAllConsumes(files: seq<File>, s: State, total: nat, chunks: seq<Bytes>)
    requires ValidState(files, s) && total <= MAX_ARCHIVE_BYTES
    requires forall c | c in chunks :: |c| <= MAX_CHUNK_BYTES
    ensures
      var r, all := FeedAll(files, Active(s, total), chunks), Concat(chunks);
      if Consume(files, s, all).Ok? && total + |all| <= MAX_ARCHIVE_BYTES
      then r == Active(Consume(files, s, all).value, total + |all|)
      else r.Failed?
    decreases |chunks|
  {
    hide Accept;
    if chunks != [] {
      var c, rest := chunks[0], chunks[1..];
      assert c in chunks;
      ConsumeSplit(files, s, c, Concat(rest));
      var next := FeedChunk(files, Active(s, total), c);
      if next.Active? {
        FeedAllConsumes(files, next.state, next.total, rest);
      } else {
        FailedStaysFailed(files, next.error, rest);
      }
    }
  }

  /** The refinement theorem: success is exactly conformance of the concatenated bytes,
      and the summary counts the manifest and the bytes. */
  lemma ValidateExact(files: seq<File>, chunks: seq<Bytes>)
    requires ValidManifest(files) && forall c | c in chunks :: |c| <= MAX_CHUNK_BYTES
    ensures Validate(files, chunks).Ok? <==> Conforms(multiset(files), Concat(chunks))
    ensures Validate(files, chunks).Ok? ==>
              Validate(files, chunks).value == Summary(|files|, TotalSize(files), |Concat(chunks)|)
  {
    hide Consume, Conforms, Accepts, FeedAll, NoAncestors, StrictlySortedBy, ValidPath, TotalSize;
    var all, s := Concat(chunks), Start(files);
    FeedAllConsumes(files, s, 0, chunks);
    UnseenAll(files, s.seen);
    CompletesAccepts(files, s.seen, all);
    AcceptsConforms(multiset(files), all);
    if Conforms(multiset(files), all) {
      ConformingFits(files, all);
    }
  }

  /** Cutting the same bytes differently changes neither success nor the summary. */
  lemma SplitIndependent(files: seq<File>, a: seq<Bytes>, b: seq<Bytes>)
    requires ValidManifest(files) && Concat(a) == Concat(b)
    requires forall c | c in a :: |c| <= MAX_CHUNK_BYTES
    requires forall c | c in b :: |c| <= MAX_CHUNK_BYTES
    ensures Validate(files, a).Ok? <==> Validate(files, b).Ok?
    ensures Validate(files, a).Ok? ==> Validate(files, a) == Validate(files, b)
  {
    ValidateExact(files, a);
    ValidateExact(files, b);
  }
}
