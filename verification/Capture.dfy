/** src/capture.rs: the serializer that cuts image files into chunks and spreads them over shards. */
module Capture {
  import opened Wrappers
  import opened Wire
  import opened Image
  import opened Reassembly
  import opened Schedule

  /** The sending end of a shard. Its pipe holds `stream[consumed..]`; the uploader at the other end
      consumes it at any time. */
  datatype Shard = Shard(fd: int, stream: Bytes, consumed: nat, remainingSpace: int, bytesWritten: nat) {
    function InPipe(): int {
      |stream| - consumed
    }

    /** The order of the heap: least estimated space first, ties by file descriptor. */
    predicate AtMost(that: Shard) {
      remainingSpace < that.remainingSpace || (remainingSpace == that.remainingSpace && fd <= that.fd)
    }
  }

  /** The one has less estimated space than the other, or as much and no greater descriptor. */
  predicate TieByFd(a: Shard, b: Shard) {
    if a.remainingSpace == b.remainingSpace then a.fd <= b.fd else a.remainingSpace < b.remainingSpace
  }

  function Max(a: int, b: int): (m: int)
    ensures m >= a && m >= b && (m == a || m == b)
  {
    if a < b then b else a
  }

  /** A quarter of the pipe less the page of the marker, but at least a page. */
  function ChunkSize(capacity: nat, pageSize: nat): (r: nat)
    requires pageSize > 0
    ensures pageSize <= r && pageSize + r == Max(capacity / 4, 2 * pageSize)
  {
    Max(capacity / 4 - pageSize, pageSize)
  }

  function SetupOf(isSmall: string -> bool, json: Codec<seq<string>>, capacity: nat, pageSize: nat): Setup
    requires pageSize > 0
  {
    Setup(isSmall, json, ChunkSize(capacity, pageSize))
  }

  // ---- what may happen to the pipes ----

  predicate CanConsume(slots: seq<Shard>, consumed: seq<nat>) {
    |consumed| == |slots| && forall i | 0 <= i < |slots| :: slots[i].consumed <= consumed[i] <= |slots[i].stream|
  }

  ghost predicate PipesFit(slots: seq<Shard>, capacity: nat) {
    forall i | 0 <= i < |slots| :: 0 <= slots[i].InPipe() <= capacity
  }

  /** The consumer may have read from the pipe, and `bytes` have been appended to it. */
  ghost predicate Appended(before: Shard, after: Shard, bytes: Bytes) {
    && before.consumed <= after.consumed <= |after.stream|
    && after == before.(consumed := after.consumed, stream := after.stream)
    && after.stream == before.stream + bytes
  }

  /** The shard has been measured while its consumer was reading: its estimate is its free space at
      some moment in between. */
  ghost predicate Measured(before: Shard, after: Shard, capacity: nat) {
    && before.consumed <= after.consumed <= |before.stream|
    && after == before.(consumed := after.consumed, remainingSpace := after.remainingSpace)
    && capacity - before.InPipe() <= after.remainingSpace <= capacity - after.InPipe()
  }

  /** `bytes` have been written to pipe `j`, nothing to the others. */
  ghost predicate Wrote(before: seq<Shard>, after: seq<Shard>, j: nat, bytes: Bytes) {
    && |after| == |before|
    && forall i | 0 <= i < |before| :: Appended(before[i], after[i], if i == j then bytes else [])
  }

  /** The main shards below `n` have been measured. */
  ghost predicate Refreshed(before: seq<Shard>, after: seq<Shard>, n: nat, capacity: nat) {
    && |after| == |before|
    && forall i | 0 <= i < |before| ::
         if 1 <= i < n then Measured(before[i], after[i], capacity) else Appended(before[i], after[i], [])
  }

  lemma WroteTwice(a: seq<Shard>, b: seq<Shard>, c: seq<Shard>, j: nat, x: Bytes, y: Bytes)
    requires Wrote(a, b, j, x) && Wrote(b, c, j, y)
    ensures Wrote(a, c, j, x + y)
  {
    forall i | 0 <= i < |a| ensures Appended(a[i], c[i], if i == j then x + y else []) {
      assert a[i].stream + (x + y) == a[i].stream + x + y;
    }
  }

  /** The accounting that ends a write: `size` bytes have gone to shard `j`, estimated at `estimate`. */
  function Charged(slots: seq<Shard>, j: nat, size: nat, estimate: nat): seq<Shard>
    requires j < |slots|
  {
    slots[j := slots[j].(
      bytesWritten := slots[j].bytesWritten + size,
      remainingSpace := slots[j].remainingSpace - estimate)]
  }

  // ---- what holds of the shards ----

  /** The shard carries exactly `stream` and counts it; its pipe holds no more than it can. */
  ghost predicate Carries(s: Shard, stream: Bytes, capacity: nat) {
    s.stream == stream && s.bytesWritten == |stream| && 0 <= s.InPipe() <= capacity
  }

  /** The estimate stays within fixed limits; it is a lower bound of the free space when every marker
      written took at most a page (`paged`). */
  ghost predicate Estimated(s: Shard, capacity: nat, pageSize: nat, paged: bool) {
    && -Max(capacity / 4, 2 * pageSize) <= s.remainingSpace <= capacity
    && (paged ==> s.remainingSpace <= capacity - s.InPipe())
  }

  ghost predicate Paged(c: Codec<Marker>, main: seq<Item>, pageSize: nat)
    requires AllSendable(c, main)
  {
    forall it <- main :: |Frame(c, it.marker)| <= pageSize
  }

  /** What has been issued, and the shard each main item went to. */
  ghost predicate Issued(c: Codec<Marker>, n: nat, small: seq<Item>, main: seq<Item>, route: seq<nat>) {
    && n >= 2 && AllSendable(c, small) && AllSendable(c, main) && |route| == |main|
    && forall to <- route :: 1 <= to < n
  }

  /** What holds between any two operations of the serializer. */
  ghost predicate Consistent(c: Codec<Marker>, slots: seq<Shard>, small: seq<Item>, main: seq<Item>, route: seq<nat>,
                             capacity: nat, pageSize: nat)
  {
    && pageSize > 0 && Issued(c, |slots|, small, main, route)
    && Carries(slots[0], Sent(c, small, Zeros(|small|), 0, 0), capacity)
    && forall i | 1 <= i < |slots| ::
         && Carries(slots[i], Sent(c, main, route, i, 0), capacity)
         && Estimated(slots[i], capacity, pageSize, Paged(c, main, pageSize))
  }

  ghost predicate MarkersFit(c: Codec<Marker>, l: Logs) {
    AllSendable(c, l.small) && AllSendable(c, l.main)
  }

  lemma EmitFits(c: Codec<Marker>, l: Logs, toSmall: bool, body: Body, payload: Bytes)
    ensures MarkersFit(c, l.Emit(toSmall, body, payload)) <==> MarkersFit(c, l) && c.Fits(Marker(|l.Of(toSmall)|, Some(body)))
  {
    var it := Item(Marker(|l.Of(toSmall)|, Some(body)), payload);
    SendableSnoc(c, l.Of(toSmall), it);
    assert MarkersFit(c, l) <==> AllSendable(c, l.Of(toSmall)) && AllSendable(c, l.Of(!toSmall));
  }

  lemma SendableSnoc(c: Codec<Marker>, items: seq<Item>, it: Item)
    ensures AllSendable(c, items + [it]) <==> AllSendable(c, items) && Sendable(c, it)
  {
    assert forall x <- items :: x in items + [it];
    assert it in items + [it];
  }

  /** An oversized marker among those issued so far is one among those issued in the end. */
  lemma UnfitStays(c: Codec<Marker>, l: Logs, toSmall: bool, pieces: seq<Bytes>, d: Drain)
    requires !MarkersFit(c, l)
    ensures !MarkersFit(c, EndFile(EmitPieces(l, toSmall, pieces), toSmall, d))
  {
    var emitted := EmitPieces(l, toSmall, pieces);
    EmitPiecesGrow(l, toSmall, true, pieces);
    EmitPiecesGrow(l, toSmall, false, pieces);
    assert l.small == emitted.small[..|l.small|] && l.main == emitted.main[..|l.main|];
    assert !MarkersFit(c, emitted);
    if d.AtEof() {
      EmitFits(c, emitted.(metadata := emitted.metadata + [d.name]), toSmall, FileEof(true), []);
    }
  }

  lemma UnfitInTheEnd(c: Codec<Marker>, ds: seq<Drain>, k: nat, s: Setup)
    requires s.chunk > 0 && k <= |ds| && !MarkersFit(c, CaptureLogs(ds[..k], s))
    ensures !MarkersFit(c, FinishLogs(CaptureLogs(ds, s), s.json))
  {
    var part, all := CaptureLogs(ds[..k], s), CaptureLogs(ds, s);
    LogsGrow(ds, s, true, k);
    LogsGrow(ds, s, false, k);
    var final := FinishLogs(all, s.json);
    assert part.small == final.small[..|part.small|] && part.main == final.main[..|part.main|];
  }

  // ---- one write to a main shard ----

  /** The shards among which a write of `need` bytes is placed: as they are when some estimate is
      enough, freshly measured otherwise. */
  ghost predicate Candidates(before: seq<Shard>, picked: seq<Shard>, need: nat, capacity: nat) {
    if exists i | 1 <= i < |before| :: before[i].remainingSpace >= need
    then picked == before
    else Refreshed(before, picked, |before|, capacity)
  }

  /** Shard `j` had the greatest estimate of the candidates, and paid for the write. */
  ghost predicate Picked(
      before: seq<Shard>, picked: seq<Shard>, after: seq<Shard>, j: nat, need: nat, capacity: nat) {
    && Candidates(before, picked, need, capacity)
    && |picked| == |after| && 1 <= j < |after|
    && forall i | 1 <= i < |picked| ::
         && picked[i].AtMost(picked[j])
         && after[i].remainingSpace == picked[i].remainingSpace - if i == j then need else 0
  }

  /** Every main shard was measured for this write, and none had room for it. */
  ghost predicate NoRoom(before: seq<Shard>, picked: seq<Shard>, need: nat, capacity: nat) {
    && Refreshed(before, picked, |before|, capacity)
    && forall i | 1 <= i < |picked| :: picked[i].remainingSpace < need
  }

  /** The shard picked never has a negative estimate, and no estimate is out of bounds. */
  lemma CandidateEstimates(before: seq<Shard>, picked: seq<Shard>, j: nat, need: nat, i: nat,
                           capacity: nat, pageSize: nat, paged: bool)
    requires PipesFit(before, capacity) && Candidates(before, picked, need, capacity)
    requires forall k | 1 <= k < |before| :: Estimated(before[k], capacity, pageSize, paged)
    requires 1 <= j < |before| && forall k | 1 <= k < |picked| :: picked[k].AtMost(picked[j])
    requires 1 <= i < |before|
    ensures |picked| == |before| && Estimated(picked[i], capacity, pageSize, paged) && picked[j].remainingSpace >= 0
    ensures picked[i].stream == before[i].stream && picked[i].bytesWritten == before[i].bytesWritten
  {
    if picked != before {
      assert Measured(before[i], picked[i], capacity);
      assert Measured(before[j], picked[j], capacity);
    }
  }

  /** One shard across a write; `mine` says that the write went to it. */
  lemma ShardAfterWrite(picked: Shard, after: Shard, final: Shard, bytes: Bytes, mine: bool, need: nat,
                        capacity: nat, pageSize: nat, paged: bool, paged': bool)
    requires Appended(picked, after, if mine then bytes else []) && 0 <= after.InPipe() <= capacity
    requires Estimated(picked, capacity, pageSize, paged) && picked.bytesWritten == |picked.stream|
    requires mine ==> picked.remainingSpace >= 0 && need <= Max(capacity / 4, 2 * pageSize)
    requires paged' ==> paged && |bytes| <= need
    requires final == if mine then Charged([after], 0, |bytes|, need)[0] else after
    ensures Carries(final, picked.stream + if mine then bytes else [], capacity)
    ensures Estimated(final, capacity, pageSize, paged')
  {
  }

  /** A write placed by estimate: `picked` are the candidates, `after` the shards once it is done. */
  ghost predicate Placed(
      c: Codec<Marker>, before: seq<Shard>, picked: seq<Shard>, after: seq<Shard>, j: nat, it: Item,
      capacity: nat, pageSize: nat)
  {
    && Sendable(c, it) && pageSize + |it.payload| <= Max(capacity / 4, 2 * pageSize)
    && Candidates(before, picked, pageSize + |it.payload|, capacity)
    && 1 <= j < |before| && (forall i | 1 <= i < |picked| :: picked[i].AtMost(picked[j]))
    && PipesFit(after, capacity) && Wrote(picked, after, j, ItemBytes(c, it))
  }

  function Settled(c: Codec<Marker>, after: seq<Shard>, j: nat, it: Item, pageSize: nat): seq<Shard>
    requires j < |after| && Sendable(c, it)
  {
    Charged(after, j, |ItemBytes(c, it)|, pageSize + |it.payload|)
  }

  lemma MainShardAfterWrite(
      c: Codec<Marker>, before: seq<Shard>, picked: seq<Shard>, after: seq<Shard>, j: nat,
      small: seq<Item>, main: seq<Item>, route: seq<nat>, it: Item, capacity: nat, pageSize: nat, i: nat)
    requires Consistent(c, before, small, main, route, capacity, pageSize)
    requires Placed(c, before, picked, after, j, it, capacity, pageSize)
    requires AllSendable(c, main + [it]) && 1 <= i < |after|
    ensures Carries(Settled(c, after, j, it, pageSize)[i], Sent(c, main + [it], route + [j], i, 0), capacity)
    ensures Estimated(Settled(c, after, j, it, pageSize)[i], capacity, pageSize, Paged(c, main + [it], pageSize))
  {
    var paged, paged' := Paged(c, main, pageSize), Paged(c, main + [it], pageSize);
    PagedGrows(c, main, it, pageSize);
    CandidateEstimates(before, picked, j, pageSize + |it.payload|, i, capacity, pageSize, paged);
    assert Appended(picked[i], after[i], if i == j then ItemBytes(c, it) else []);
    ShardAfterWrite(picked[i], after[i], Settled(c, after, j, it, pageSize)[i], ItemBytes(c, it), i == j,
                    pageSize + |it.payload|, capacity, pageSize, paged, paged');
    SentAppend(c, main, route, it, j, i, 0);
    assert before[i].stream + [] == before[i].stream;
  }

  lemma MainChunkWritten(
      c: Codec<Marker>, before: seq<Shard>, picked: seq<Shard>, after: seq<Shard>, j: nat,
      small: seq<Item>, main: seq<Item>, route: seq<nat>, it: Item, capacity: nat, pageSize: nat)
    requires Consistent(c, before, small, main, route, capacity, pageSize)
    requires Placed(c, before, picked, after, j, it, capacity, pageSize)
    ensures Consistent(c, Settled(c, after, j, it, pageSize), small, main + [it], route + [j], capacity, pageSize)
  {
    PagedGrows(c, main, it, pageSize);
    var final := Settled(c, after, j, it, pageSize);
    forall i | 1 <= i < |final|
      ensures Carries(final[i], Sent(c, main + [it], route + [j], i, 0), capacity)
      ensures Estimated(final[i], capacity, pageSize, Paged(c, main + [it], pageSize))
    {
      MainShardAfterWrite(c, before, picked, after, j, small, main, route, it, capacity, pageSize, i);
    }
    assert Appended(picked[0], after[0], []);
    assert picked == before || Appended(before[0], picked[0], []);
    assert before[0].stream + [] == before[0].stream;
  }

  /** The guarantee: with markers of at most a page, a write that does not fit at once went through a
      refresh, and no main shard had room for it when it was measured. */
  lemma BlocksOnlyWithoutRoom(
      c: Codec<Marker>, before: seq<Shard>, picked: seq<Shard>, after: seq<Shard>, j: nat,
      small: seq<Item>, main: seq<Item>, route: seq<nat>, it: Item, capacity: nat, pageSize: nat)
    requires Consistent(c, before, small, main, route, capacity, pageSize)
    requires Placed(c, before, picked, after, j, it, capacity, pageSize)
    requires AllSendable(c, main + [it]) && Paged(c, main + [it], pageSize)
    requires |ItemBytes(c, it)| > capacity - picked[j].InPipe()
    ensures NoRoom(before, picked, pageSize + |it.payload|, capacity)
  {
    PagedGrows(c, main, it, pageSize);
    var need := pageSize + |it.payload|;
    if picked == before {
      assert Estimated(before[j], capacity, pageSize, true);
    } else {
      assert Measured(before[j], picked[j], capacity);
    }
    assert picked[j].remainingSpace < need;
    forall i | 1 <= i < |picked| ensures picked[i].remainingSpace < need {
      assert picked[i].AtMost(picked[j]);
    }
  }

  lemma SmallChunkWritten(
      c: Codec<Marker>, before: seq<Shard>, after: seq<Shard>, small: seq<Item>, main: seq<Item>, route: seq<nat>,
      it: Item, estimate: nat, capacity: nat, pageSize: nat)
    requires Consistent(c, before, small, main, route, capacity, pageSize) && Sendable(c, it)
    requires PipesFit(after, capacity) && Wrote(before, after, 0, ItemBytes(c, it))
    ensures Consistent(c, Charged(after, 0, |ItemBytes(c, it)|, estimate), small + [it], main, route, capacity, pageSize)
  {
    SentAppend(c, small, Zeros(|small|), it, 0, 0, 0);
    assert Zeros(|small| + 1) == Zeros(|small|) + [0];
    assert Appended(before[0], after[0], ItemBytes(c, it));
    forall i | 1 <= i < |after|
      ensures Carries(after[i], Sent(c, main, route, i, 0), capacity)
      ensures Estimated(after[i], capacity, pageSize, Paged(c, main, pageSize))
    {
      assert Appended(before[i], after[i], []);
      assert before[i].stream + [] == before[i].stream;
    }
  }

  lemma PickedAfterWrite(
      c: Codec<Marker>, before: seq<Shard>, picked: seq<Shard>, after: seq<Shard>, j: nat, it: Item,
      capacity: nat, pageSize: nat)
    requires Placed(c, before, picked, after, j, it, capacity, pageSize)
    ensures Picked(before, picked, Settled(c, after, j, it, pageSize), j, pageSize + |it.payload|, capacity)
  {
    forall i | 1 <= i < |after|
      ensures Settled(c, after, j, it, pageSize)[i].remainingSpace ==
              picked[i].remainingSpace - if i == j then pageSize + |it.payload| else 0
    {
      assert Appended(picked[i], after[i], if i == j then ItemBytes(c, it) else []);
    }
  }

  /** All of it: the invariant, the choice, and the guarantee. */
  lemma MainChunkOutcome(
      c: Codec<Marker>, before: seq<Shard>, picked: seq<Shard>, after: seq<Shard>, j: nat,
      small: seq<Item>, main: seq<Item>, route: seq<nat>, it: Item, capacity: nat, pageSize: nat)
    requires Consistent(c, before, small, main, route, capacity, pageSize)
    requires Placed(c, before, picked, after, j, it, capacity, pageSize)
    ensures j < |after| == |picked| == |before|
    ensures Consistent(c, Settled(c, after, j, it, pageSize), small, main + [it], route + [j], capacity, pageSize)
    ensures Picked(before, picked, Settled(c, after, j, it, pageSize), j, pageSize + |it.payload|, capacity)
    ensures AllSendable(c, main + [it])
    ensures |ItemBytes(c, it)| > capacity - picked[j].InPipe() && Paged(c, main + [it], pageSize) ==>
              NoRoom(before, picked, pageSize + |it.payload|, capacity)
  {
    MainChunkWritten(c, before, picked, after, j, small, main, route, it, capacity, pageSize);
    PickedAfterWrite(c, before, picked, after, j, it, capacity, pageSize);
    if |ItemBytes(c, it)| > capacity - picked[j].InPipe() && Paged(c, main + [it], pageSize) {
      BlocksOnlyWithoutRoom(c, before, picked, after, j, small, main, route, it, capacity, pageSize);
    }
  }

  lemma PagedGrows(c: Codec<Marker>, main: seq<Item>, it: Item, pageSize: nat)
    requires AllSendable(c, main) && Sendable(c, it)
    ensures AllSendable(c, main + [it])
    ensures Paged(c, main + [it], pageSize) <==> Paged(c, main, pageSize) && |Frame(c, it.marker)| <= pageSize
  {
    assert forall x <- main :: x in main + [it];
    assert it in main + [it];
  }

  /** `slots[0]` is the small-file shard; the heap holds the others. */
  class ImageSerializer {
    const codec: Codec<Marker>
    const isSmall: string -> bool
    const json: Codec<seq<string>>
    const capacity: nat
    const pageSize: nat

    var slots: seq<Shard>
    var smallFileSeq: nat
    var seqno: nat
    var currentFilename: Option<string>
    var metadata: seq<string>

    ghost var small: seq<Item>
    ghost var main: seq<Item>
    ghost var route: seq<nat>

    /** What has been written, in order, to both kinds of shards. */
    ghost var dispatches: seq<Dispatch>

    ghost function Log(): Logs
      reads this
    {
      Logs(small, main, currentFilename, metadata)
    }

    ghost function TheSetup(): Setup
      requires pageSize > 0
    {
      SetupOf(isSmall, json, capacity, pageSize)
    }

    function ChunkMaxDataSize(): (r: nat)
      requires pageSize > 0
      ensures pageSize <= r && pageSize + r == Max(capacity / 4, 2 * pageSize)
    {
      ChunkSize(capacity, pageSize)
    }

    ghost predicate Valid()
      reads this
    {
      Consistent(codec, slots, small, main, route, capacity, pageSize) && Dispatched(dispatches, small, main, route)
    }

    /** The next markers get the next numbers. */
    ghost predicate Counted()
      reads this
    {
      smallFileSeq == |small| && seqno == |main| && Numbered(small) && Numbered(main)
    }

    constructor (codec: Codec<Marker>, isSmall: string -> bool, json: Codec<seq<string>>,
                 capacity: nat, pageSize: nat, fds: seq<int>)
      requires |fds| >= 2 && pageSize > 0
      ensures Valid() && Counted() && Log() == NO_LOGS && |slots| == |fds|
      ensures this.codec == codec && this.isSmall == isSmall && this.json == json
      ensures this.capacity == capacity && this.pageSize == pageSize
    {
      this.codec, this.isSmall, this.json := codec, isSmall, json;
      this.capacity, this.pageSize := capacity, pageSize;
      slots := seq(|fds|, i requires 0 <= i < |fds| => Shard(fds[i], [], 0, 0, 0));
      smallFileSeq, seqno, currentFilename, metadata := 0, 0, None, [];
      small, main, route, dispatches := [], [], [], [];
    }

    /** The uploaders run: each reads any part of what its pipe holds. */
    method ConsumersRun()
      requires PipesFit(slots, capacity)
      modifies this`slots
      ensures PipesFit(slots, capacity) && Wrote(old(slots), slots, |slots|, [])
    {
      var s := slots;
      assert CanConsume(s, seq(|s|, i requires 0 <= i < |s| => s[i].consumed));
      var c: seq<nat> :| CanConsume(s, c);
      assert CanConsume(s, c);
      slots := seq(|s|, i requires 0 <= i < |s| => s[i].(consumed := c[i]));
    }

    /** Appends to pipe `j`, waiting for its consumer when there is no room. */
    method PipeWrite(j: nat, bytes: Bytes)
      requires PipesFit(slots, capacity) && j < |slots|
      modifies this`slots
      ensures PipesFit(slots, capacity) && Wrote(old(slots), slots, j, bytes)
    {
      ConsumersRun();
      var stream := slots[j].stream + bytes;
      var c: nat :| slots[j].consumed <= c <= |stream| && |stream| - c <= capacity;
      slots := slots[j := slots[j].(stream := stream, consumed := c)];
    }

    /** Peeks at the heap. */
    method Peek() returns (j: nat)
      requires |slots| >= 2
      ensures 1 <= j < |slots| && forall i | 1 <= i < |slots| :: slots[i].AtMost(slots[j])
      ensures forall i | 1 <= i < |slots| :: TieByFd(slots[i], slots[j])
    {
      j := 1;
      for n := 2 to |slots|
        invariant 1 <= j < n
        invariant forall i | 1 <= i < n :: slots[i].AtMost(slots[j])
      {
        if slots[j].AtMost(slots[n]) {
          j := n;
        }
      }
    }

    method RefreshAllShardRemainingSpace()
      requires PipesFit(slots, capacity) && |slots| >= 2
      modifies this`slots
      ensures PipesFit(slots, capacity) && Refreshed(old(slots), slots, |slots|, capacity)
    {
      for n := 1 to |slots|
        invariant |slots| == |old(slots)|
        invariant PipesFit(slots, capacity) && Refreshed(old(slots), slots, n, capacity)
      {
        ConsumersRun();
        slots := slots[n := slots[n].(remainingSpace := capacity - slots[n].InPipe())];
      }
    }

    method PickShard(need: nat) returns (j: nat)
      requires PipesFit(slots, capacity) && |slots| >= 2
      modifies this`slots
      ensures PipesFit(slots, capacity) && Candidates(old(slots), slots, need, capacity)
      ensures 1 <= j < |slots| && forall i | 1 <= i < |slots| :: slots[i].AtMost(slots[j])
    {
      var top := Peek();
      if slots[top].remainingSpace < need {
        assert forall i | 1 <= i < |slots| :: slots[i].AtMost(slots[top]) && slots[i].remainingSpace < need;
        RefreshAllShardRemainingSpace();
      }
      j := Peek();
    }

    /** Writes a marker and its data to pipe `j`. */
    method PutChunk(j: nat, marker: Marker, data: Bytes) returns (r: Result<nat>)
      requires PipesFit(slots, capacity) && j < |slots|
      modifies this`slots
      ensures r.Ok? <==> codec.Fits(marker)
      ensures r.Ok? ==> PipesFit(slots, capacity) && r.value == |Frame(codec, marker)| + |data|
      ensures r.Ok? ==> Wrote(old(slots), slots, j, ItemBytes(codec, Item(marker, data)))
    {
      var frame :- PbWrite(codec, marker);
      PipeWrite(j, frame);
      ghost var halfway := slots;
      PipeWrite(j, data);
      WroteTwice(old(slots), halfway, slots, j, frame, data);
      r := Ok(|frame| + |data|);
    }

    /** Picks a main shard and writes the chunk to it. */
    method PlaceChunk(marker: Marker, data: Bytes)
      returns (r: Result<nat>, j: nat, ghost picked: seq<Shard>)
      requires PipesFit(slots, capacity) && |slots| >= 2 && pageSize > 0
      requires |data| <= ChunkMaxDataSize()
      modifies this`slots
      ensures r.Ok? <==> codec.Fits(marker)
      ensures r.Ok? ==> Placed(codec, old(slots), picked, slots, j, Item(marker, data), capacity, pageSize)
      ensures r.Ok? ==> j < |slots| == |picked| && r.value == |ItemBytes(codec, Item(marker, data))|
    {
      j := PickShard(pageSize + |data|);
      picked := slots;
      r := PutChunk(j, marker, data);
    }

    /** Writes a chunk to a main shard `j` picked among `picked`. */
    method WriteMainChunk(marker: Marker, data: Bytes)
      returns (r: Result<()>, j: nat, ghost picked: seq<Shard>)
      requires Valid() && |data| <= ChunkMaxDataSize()
      modifies this`slots, this`main, this`route, this`dispatches
      ensures r.Ok? <==> codec.Fits(marker)
      ensures r.Ok? ==> Valid() && |slots| == old(|slots|)
      ensures r.Ok? ==> main == old(main) + [Item(marker, data)] && route == old(route) + [j]
      ensures r.Ok? ==> dispatches == old(dispatches) + [Dispatch(Item(marker, data), j)]
      ensures r.Ok? ==> Picked(old(slots), picked, slots, j, pageSize + |data|, capacity)
      // the scheduling guarantee: the write fits the pipe picked, and so need not wait, unless no shard had
      // enough room when measured
      ensures r.Ok? && Paged(codec, main, pageSize) ==>
                || |ItemBytes(codec, Item(marker, data))| <= capacity - picked[j].InPipe()
                || NoRoom(old(slots), picked, pageSize + |data|, capacity)
    {
      var size: Result<nat>;
      size, j, picked := PlaceChunk(marker, data);
      label Placed:
      if size.Err? {
        return Err(size.error), j, picked;
      }
      ghost var it := Item(marker, data);
      MainChunkOutcome(codec, old(slots), picked, slots, j, small, main, route, it, capacity, pageSize);
      slots := Charged(slots, j, size.value, pageSize + |data|);
      assert slots == Settled(codec, old@Placed(slots), j, it, pageSize);
      DispatchedSnoc(dispatches, small, main, route, it, j);
      main, route, dispatches := main + [it], route + [j], dispatches + [Dispatch(it, j)];
      r := Ok(());
    }

    /** Writes a chunk to the small-file shard, whose estimate nothing reads. */
    method WriteSmallChunk(marker: Marker, data: Bytes, estimate: nat) returns (r: Result<()>)
      requires Valid()
      modifies this`slots, this`small, this`dispatches
      ensures r.Ok? <==> codec.Fits(marker)
      ensures r.Ok? ==> Valid() && |slots| == old(|slots|) && small == old(small) + [Item(marker, data)]
      ensures r.Ok? ==> dispatches == old(dispatches) + [Dispatch(Item(marker, data), 0)]
    {
      var size := PutChunk(0, marker, data);
      if size.Err? {
        return Err(size.error);
      }
      SmallChunkWritten(codec, old(slots), slots, small, main, route, Item(marker, data), estimate, capacity, pageSize);
      slots := Charged(slots, 0, size.value, estimate);
      DispatchedSnoc(dispatches, small, main, route, Item(marker, data), 0);
      small, dispatches := small + [Item(marker, data)], dispatches + [Dispatch(Item(marker, data), 0)];
      r := Ok(());
    }

    method GenMarker(body: Body, toSmall: bool) returns (marker: Marker)
      modifies this`smallFileSeq, this`seqno
      ensures marker == Marker(if toSmall then old(smallFileSeq) else old(seqno), Some(body))
      ensures smallFileSeq == old(smallFileSeq) + if toSmall then 1 else 0
      ensures seqno == old(seqno) + if toSmall then 0 else 1
    {
      if toSmall {
        marker := Marker(smallFileSeq, Some(body));
        smallFileSeq := smallFileSeq + 1;
      } else {
        marker := Marker(seqno, Some(body));
        seqno := seqno + 1;
      }
    }

    /** Generates a marker and writes it with its data. */
    method WriteChunk(body: Body, data: Bytes, toSmall: bool) returns (r: Result<()>)
      requires Valid() && Counted() && |data| <= ChunkMaxDataSize()
      modifies this`slots, this`smallFileSeq, this`seqno
      modifies this`small, this`main, this`route, this`dispatches
      ensures r.Ok? <==> codec.Fits(Marker(|old(Log()).Of(toSmall)|, Some(body)))
      ensures r.Ok? ==> Valid() && Counted() && |slots| == old(|slots|)
      ensures r.Ok? ==> Log() == old(Log()).Emit(toSmall, body, data)
    {
      var marker := GenMarker(body, toSmall);
      if toSmall {
        r := WriteSmallChunk(marker, data, pageSize + |data|);
      } else {
        ghost var picked;
        var j;
        r, j, picked := WriteMainChunk(marker, data);
      }
    }

    method MaybeWriteFilenameMarker(name: string, toSmall: bool) returns (r: Result<()>)
      requires Valid() && Counted()
      modifies this
      ensures r.Ok? <==> MarkersFit(codec, NameFile(old(Log()), toSmall, name))
      ensures r.Ok? ==> Valid() && Counted() && |slots| == old(|slots|)
      ensures r.Ok? ==> Log() == NameFile(old(Log()), toSmall, name)
    {
      if currentFilename == Some(name) {
        return Ok(());
      }
      currentFilename := Some(name);
      EmitFits(codec, Log(), toSmall, Filename(name), []);
      r := WriteChunk(Filename(name), [], toSmall);
    }

    /** `d` is the file and what its pipe holds. Returns whether the file has more to come. */
    method DrainImgFile(d: Drain) returns (r: Result<bool>)
      requires Valid() && Counted()
      modifies this
      ensures r.Ok? <==> MarkersFit(codec, DrainLogs(old(Log()), d, TheSetup()))
      ensures r.Ok? ==> Valid() && Counted() && |slots| == old(|slots|) && r.value == !d.AtEof()
      ensures r.Ok? ==> Log() == DrainLogs(old(Log()), d, TheSetup())
    {
      var toSmall := isSmall(d.name);
      var readable := d.data;
      var isEof := |readable| == 0;
      ghost var chunk := ChunkMaxDataSize();
      ghost var named := NameFile(Log(), toSmall, d.name);
      if !MarkersFit(codec, named) {
        UnfitStays(codec, named, toSmall, Pieces(readable, chunk), d);
      }
      var begun := MaybeWriteFilenameMarker(d.name, toSmall);
      if begun.Err? {
        return Err(begun.error);
      }
      while |readable| > 0
        invariant Valid() && Counted() && |slots| == old(|slots|)
        invariant EndFile(EmitPieces(Log(), toSmall, Pieces(readable, chunk)), toSmall, d) ==
                  DrainLogs(old(Log()), d, TheSetup())
        decreases |readable|
      {
        var size := if |readable| <= ChunkMaxDataSize() then |readable| else ChunkMaxDataSize();
        ghost var written := Log().Emit(toSmall, FileData(size), readable[..size]);
        FirstPiece(readable, chunk);
        EmitFits(codec, Log(), toSmall, FileData(size), readable[..size]);
        if !MarkersFit(codec, written) {
          UnfitStays(codec, written, toSmall, Pieces(readable[size..], chunk), d);
        }
        var more := WriteChunk(FileData(size), readable[..size], toSmall);
        if more.Err? {
          return Err(more.error);
        }
        readable := readable[size..];
      }
      if isEof {
        metadata := metadata + [d.name];
        EmitFits(codec, Log(), toSmall, FileEof(true), []);
        var ended := WriteChunk(FileEof(true), [], toSmall);
        if ended.Err? {
          return Err(ended.error);
        }
      }
      r := Ok(!isEof);
    }

    /** The metadata bytes are written directly: they come from no pipe. */
    method WriteMetadataToSmallShard() returns (r: Result<()>)
      requires Valid() && Counted()
      modifies this
      ensures r.Ok? <==> MarkersFit(codec, MetadataLogs(old(Log()), json))
      ensures r.Ok? ==> Valid() && Counted() && |slots| == old(|slots|) && Log() == MetadataLogs(old(Log()), json)
    {
      var bytes := json.encode(metadata);
      var size := |bytes| % 0x1_0000_0000;
      ghost var l1 := Log().Emit(true, Filename(METADATA_FILE), []);
      ghost var l2 := l1.Emit(true, FileData(size), bytes);
      EmitFits(codec, Log(), true, Filename(METADATA_FILE), []);
      EmitFits(codec, l1, true, FileData(size), bytes);
      EmitFits(codec, l2, true, FileEof(true), []);
      var _ :- WriteChunk(Filename(METADATA_FILE), [], true);
      var marker := GenMarker(FileData(size), true);
      var _ :- WriteSmallChunk(marker, bytes, 0);
      assert Log() == l2;
      var _ :- WriteChunk(FileEof(true), [], true);
      r := Ok(());
    }

    method WriteImageEof() returns (r: Result<()>)
      requires Valid() && Counted()
      modifies this
      ensures r.Ok? <==> MarkersFit(codec, FinishLogs(old(Log()), json))
      ensures r.Ok? ==> Valid() && Counted() && |slots| == old(|slots|) && Log() == FinishLogs(old(Log()), json)
    {
      EmitFits(codec, MetadataLogs(Log(), json), false, ImageEof(true), []);
      var _ :- WriteMetadataToSmallShard();
      var _ :- WriteChunk(ImageEof(true), [], false);
      r := Ok(());
    }
  }

  /** The main loop of a capture. `ds` is what the poller and the client make of it: the files drained,
      in order, each with the bytes found in its pipe. */
  method CaptureImage(codec: Codec<Marker>, isSmall: string -> bool, json: Codec<seq<string>>,
                      capacity: nat, pageSize: nat, fds: seq<int>, ds: seq<Drain>)
    returns (r: Result<()>, s: ImageSerializer)
    requires |fds| >= 2 && pageSize > 0
    ensures fresh(s) && s.codec == codec && s.isSmall == isSmall && s.json == json
    ensures s.capacity == capacity && s.pageSize == pageSize
    ensures r.Ok? == MarkersFit(codec, FinishLogs(CaptureLogs(ds, SetupOf(isSmall, json, capacity, pageSize)), json))
    ensures r.Ok? ==> s.Valid() && s.Counted() && |s.slots| == |fds|
    ensures r.Ok? ==> s.Log() == FinishLogs(CaptureLogs(ds, SetupOf(isSmall, json, capacity, pageSize)), json)
  {
    s := new ImageSerializer(codec, isSmall, json, capacity, pageSize, fds);
    ghost var setup := SetupOf(isSmall, json, capacity, pageSize);
    for k := 0 to |ds|
      invariant fresh(s) && s.Valid() && s.Counted() && |s.slots| == |fds|
      invariant s.Log() == CaptureLogs(ds[..k], setup)
    {
      assert ds[..k + 1][..k] == ds[..k];
      if !MarkersFit(codec, CaptureLogs(ds[..k + 1], setup)) {
        UnfitInTheEnd(codec, ds, k + 1, setup);
      }
      var _ :- s.DrainImgFile(ds[k]);
    }
    assert ds[..|ds|] == ds;
    r := s.WriteImageEof();
  }
}
