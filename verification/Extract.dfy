/** src/extract.rs:80-375: the deserializer that puts the markers of all shards back in order. */
module Extract {
  import opened Wrappers
  import opened Sequences
  import opened Wire
  import opened Image
  import opened Reassembly
  import opened Delivery

  /** The receiving end of a shard: what is left to read. Its writer is done. */
  datatype Shard = Shard(pipe: Bytes, bytesRead: nat)

  // ---- the image on its way ----

  /** An image as the main shards carry it: `log[k]` went to shard `route[k]`; the pass over
      them starts from the output `start`. */
  datatype Shipment = Shipment(log: seq<Item>, route: seq<nat>, start: Output)

  ghost predicate Shippable(c: Codec<Marker>, n: nat, s: Shipment) {
    match s
    case Shipment(log, route, start) =>
      && c.Lawful() && AllSendable(c, log) && AllSized(log) && Numbered(log)
      && |route| == |log| && forall to <- route :: 1 <= to < n
  }

  /** Its items can be processed in issue order, and only the last one ends the image. */
  ghost predicate Processable(json: Codec<seq<string>>, s: Shipment) {
    ProcessAll(false, json, s.start, s.log).Ok? && EndsOnce(json, s.start, s.log)
  }

  /** Where shard `i` is once the items before `seqno` have been processed: at its end (`finished`), at
      the payload of the next item it carries when the marker of that item is pending, and else at the
      start of its next marker. */
  ghost predicate ShardAligned(c: Codec<Marker>, s: Shipment, i: nat, pipe: Bytes,
                               pending: Option<Marker>, finished: bool, seqno: nat)
    requires AllSendable(c, s.log) && |s.route| == |s.log| && seqno <= |s.log|
  {
    var k := NextFor(s.route, i, seqno);
    match pending
    case Some(m) => !finished && k < |s.log| && m == s.log[k].marker
                    && pipe == s.log[k].payload + Sent(c, s.log, s.route, i, k + 1)
    case None => if finished then k == |s.log| else pipe == Sent(c, s.log, s.route, i, seqno)
  }

  function At(pending: map<nat, Marker>, i: nat): Option<Marker> {
    if i in pending then Some(pending[i]) else None
  }

  /** The items before `seqno` have been processed, with output `o`, and every shard is where it should be. */
  ghost predicate Aligned(c: Codec<Marker>, json: Codec<seq<string>>, s: Shipment, slots: seq<Shard>,
                          pending: map<nat, Marker>, finished: set<nat>, seqno: nat, o: Output)
  {
    match s
    case Shipment(log, route, start) =>
      && Shippable(c, |slots|, s)
      && seqno <= |log| && ProcessAll(false, json, start, log[..seqno]) == Ok(o) && Unended(json, start, log, seqno)
      && (forall i <- pending :: 1 <= i < |slots|)
      && forall i | 1 <= i < |slots| :: ShardAligned(c, s, i, slots[i].pipe, At(pending, i), i in finished, seqno)
  }

  /** `after` differs from `before` in shard `i` only, where `pipe` is left to read. */
  ghost predicate Moved(before: seq<Shard>, after: seq<Shard>, i: nat, pipe: Bytes) {
    && i < |before| == |after| && after[i].pipe == pipe
    && forall j | 0 <= j < |before| && j != i :: after[j] == before[j]
  }

  /** Processing a marker whose payload is at the start of `pipe`. */
  function ProcessAt(o: Output, marker: Marker, pipe: Bytes, idle: bool): Result<Output> {
    if DataSize(marker) > |pipe| then
      Err(if o.current.None? then UnexpectedMarker else UnexpectedEof)
    else
      Process(o, marker.body, pipe[..DataSize(marker)], idle)
  }

  /** Once its payload has arrived, a marker is processed as it would be with all of the shard at hand. */
  lemma ProcessesAsItGrows(o: Output, marker: Marker, part: Bytes, more: Bytes, idle: bool)
    requires DataSize(marker) <= |part|
    ensures ProcessAt(o, marker, part + more, idle) == ProcessAt(o, marker, part, idle)
    ensures (part + more)[DataSize(marker)..] == part[DataSize(marker)..] + more
  {
    assert (part + more)[..DataSize(marker)] == part[..DataSize(marker)];
  }

  // ---- one shard ----

  lemma ShardRead(c: Codec<Marker>, s: Shipment, i: nat, pipe: Bytes, seqno: nat)
    requires c.Lawful() && AllSendable(c, s.log) && |s.route| == |s.log| && seqno <= |s.log|
    requires ShardAligned(c, s, i, pipe, None, false, seqno)
    ensures match PbReadNext(c, pipe)
            case Broken(_) => false
            case Eof => ShardAligned(c, s, i, pipe, None, true, seqno)
            case Got(v, rest) => seqno < |s.log| && ShardAligned(c, s, i, rest, Some(v.0), false, seqno)
  {
    var k := NextFor(s.route, i, seqno);
    SentFromNext(c, s.log, s.route, i, seqno);
    if k < |s.log| {
      assert Sendable(c, s.log[k]);
      var after := s.log[k].payload + Sent(c, s.log, s.route, i, k + 1);
      assert pipe == Frame(c, s.log[k].marker) + after;
      ReadsBackOne(c, s.log[k].marker, after);
    }
  }

  lemma ShardNotDue(c: Codec<Marker>, s: Shipment, i: nat, pipe: Bytes, pending: Option<Marker>, finished: bool, seqno: nat)
    requires AllSendable(c, s.log) && |s.route| == |s.log| && seqno < |s.log| && s.route[seqno] != i
    requires ShardAligned(c, s, i, pipe, pending, finished, seqno)
    ensures ShardAligned(c, s, i, pipe, pending, finished, seqno + 1)
  {
  }

  lemma ShardDue(c: Codec<Marker>, s: Shipment, i: nat, pipe: Bytes, m: Marker, seqno: nat)
    requires AllSendable(c, s.log) && AllSized(s.log) && Numbered(s.log) && |s.route| == |s.log| && seqno <= |s.log|
    requires ShardAligned(c, s, i, pipe, Some(m), false, seqno) && m.seqno == seqno
    ensures seqno < |s.log| && s.route[seqno] == i && m == s.log[seqno].marker
    ensures DataSize(m) <= |pipe| && pipe[..DataSize(m)] == s.log[seqno].payload
    ensures ShardAligned(c, s, i, pipe[DataSize(m)..], None, false, seqno + 1)
  {
    assert |s.log[seqno].payload| == DataSize(m);
  }

  // ---- all shards ----

  /** Reading a shard gives its next marker, or the end when it has none: payload bytes are never
      parsed as a marker, and nothing follows the end of an image that can be processed. */
  lemma AlignedRead(c: Codec<Marker>, json: Codec<seq<string>>, s: Shipment, slots: seq<Shard>, slots': seq<Shard>,
                    pending: map<nat, Marker>, finished: set<nat>, seqno: nat, o: Output, i: nat)
    requires Aligned(c, json, s, slots, pending, finished, seqno, o)
    requires 1 <= i < |slots| && i !in pending && i !in finished
    ensures match PbReadNext(c, slots[i].pipe)
            case Broken(_) => false
            case Eof => Aligned(c, json, s, slots, pending, finished + {i}, seqno, o)
            case Got(v, rest) =>
              && (Processable(json, s) ==> !o.imageEof)
              && (Moved(slots, slots', i, rest) ==> Aligned(c, json, s, slots', pending[i := v.0], finished, seqno, o))
  {
    assert ShardAligned(c, s, i, slots[i].pipe, None, false, seqno);
    ShardRead(c, s, i, slots[i].pipe, seqno);
  }

  lemma DueShard(c: Codec<Marker>, json: Codec<seq<string>>, s: Shipment, slots: seq<Shard>,
                 pending: map<nat, Marker>, finished: set<nat>, seqno: nat, o: Output, i: nat)
    requires Aligned(c, json, s, slots, pending, finished, seqno, o)
    requires i in pending && pending[i].seqno == seqno
    ensures seqno < |s.log| && s.route[seqno] == i && pending[i] == s.log[seqno].marker
    ensures DataSize(pending[i]) <= |slots[i].pipe| && slots[i].pipe[..DataSize(pending[i])] == s.log[seqno].payload
    ensures ShardAligned(c, s, i, slots[i].pipe[DataSize(pending[i])..], None, false, seqno + 1)
  {
    assert ShardAligned(c, s, i, slots[i].pipe, At(pending, i), i in finished, seqno);
    ShardDue(c, s, i, slots[i].pipe, pending[i], seqno);
  }

  /** A pending marker other than the one due comes later. */
  lemma PendingIsLater(c: Codec<Marker>, json: Codec<seq<string>>, s: Shipment, slots: seq<Shard>,
                       pending: map<nat, Marker>, finished: set<nat>, seqno: nat, o: Output, i: nat)
    requires Aligned(c, json, s, slots, pending, finished, seqno, o) && i in pending
    ensures seqno <= pending[i].seqno < |s.log|
    ensures s.route[pending[i].seqno] == i
  {
    assert ShardAligned(c, s, i, slots[i].pipe, At(pending, i), i in finished, seqno);
  }

  /** The marker due is what the fold processes next. */
  lemma DueMarkerFolds(c: Codec<Marker>, json: Codec<seq<string>>, s: Shipment, slots: seq<Shard>,
                       pending: map<nat, Marker>, finished: set<nat>, seqno: nat, o: Output, i: nat)
    requires Aligned(c, json, s, slots, pending, finished, seqno, o)
    requires i in pending && pending[i].seqno == seqno
    ensures seqno < |s.log|
    ensures ProcessAll(false, json, s.start, s.log[..seqno + 1]) == ProcessAt(o, pending[i], slots[i].pipe, true)
  {
    DueShard(c, json, s, slots, pending, finished, seqno, o, i);
    TakeNext(s.log, seqno);
    ProcessSnoc(false, json, s.start, s.log[..seqno], s.log[seqno]);
  }

  /** That no marker may be pending at the end of the image is the one check the fold does not make. */
  lemma IdleMatters(o: Output, m: Marker, pipe: Bytes, idle: bool)
    ensures var r, r' := ProcessAt(o, m, pipe, idle), ProcessAt(o, m, pipe, true);
            && (r.Ok? ==> r' == r)
            && (r'.Ok? && (m.body == Some(ImageEof(true)) ==> idle) ==> r == r')
  {
  }

  /** The end of an image that can be processed comes when no other marker is pending. */
  lemma EndComesAlone(c: Codec<Marker>, json: Codec<seq<string>>, s: Shipment, slots: seq<Shard>,
                      pending: map<nat, Marker>, finished: set<nat>, seqno: nat, o: Output, i: nat)
    requires Aligned(c, json, s, slots, pending, finished, seqno, o) && Processable(json, s)
    requires i in pending && pending[i].seqno == seqno && pending[i].body == Some(ImageEof(true))
    ensures pending - {i} == map[]
  {
    DueMarkerFolds(c, json, s, slots, pending, finished, seqno, o, i);
    PrefixProcesses(false, json, s.start, s.log, seqno + 1);
    assert ProcessAll(false, json, s.start, s.log[..seqno + 1]).value.imageEof;
    assert seqno + 1 == |s.log|;
    forall j <- pending ensures j == i {
      PendingIsLater(c, json, s, slots, pending, finished, seqno, o, j);
    }
  }

  /** The marker due is accepted as the fold accepts it. In an image that can be processed it is. */
  lemma DueMarkerAccepted(c: Codec<Marker>, json: Codec<seq<string>>, s: Shipment, slots: seq<Shard>,
                          pending: map<nat, Marker>, finished: set<nat>, seqno: nat, o: Output, i: nat)
    requires Aligned(c, json, s, slots, pending, finished, seqno, o)
    requires i in pending && pending[i].seqno == seqno
    ensures seqno < |s.log|
    ensures var r := ProcessAt(o, pending[i], slots[i].pipe, pending - {i} == map[]);
            && (r.Ok? ==> ProcessAll(false, json, s.start, s.log[..seqno + 1]) == r)
            && (Processable(json, s) ==> r.Ok?)
  {
    DueMarkerFolds(c, json, s, slots, pending, finished, seqno, o, i);
    IdleMatters(o, pending[i], slots[i].pipe, pending - {i} == map[]);
    if Processable(json, s) {
      PrefixProcesses(false, json, s.start, s.log, seqno + 1);
      if pending[i].body == Some(ImageEof(true)) {
        EndComesAlone(c, json, s, slots, pending, finished, seqno, o, i);
      }
    }
  }

  /** Only the shard of the marker due moves, and every shard is then aligned with the next number. */
  lemma AlignedProcess(c: Codec<Marker>, json: Codec<seq<string>>, s: Shipment, slots: seq<Shard>, slots': seq<Shard>,
                       pending: map<nat, Marker>, finished: set<nat>, seqno: nat, o: Output, o': Output, i: nat)
    requires Aligned(c, json, s, slots, pending, finished, seqno, o)
    requires i in pending && pending[i].seqno == seqno < |s.log| && DataSize(pending[i]) <= |slots[i].pipe|
    requires ProcessAll(false, json, s.start, s.log[..seqno + 1]) == Ok(o') && !o.imageEof
    requires Moved(slots, slots', i, slots[i].pipe[DataSize(pending[i])..])
    ensures Aligned(c, json, s, slots', pending - {i}, finished, seqno + 1, o')
  {
    DueShard(c, json, s, slots, pending, finished, seqno, o, i);
    assert ShardAligned(c, s, i, slots[i].pipe, At(pending, i), i in finished, seqno);
    forall j | 1 <= j < |slots'|
      ensures ShardAligned(c, s, j, slots'[j].pipe, At(pending - {i}, j), j in finished, seqno + 1)
    {
      if j != i {
        assert slots'[j] == slots[j];
        ShardNotDue(c, s, j, slots[j].pipe, At(pending, j), j in finished, seqno);
      }
    }
  }

  /** The next item needed is never stuck: its shard is not at its end, and if its marker is pending
      then it is the one due. */
  lemma NextIsWithinReach(c: Codec<Marker>, json: Codec<seq<string>>, s: Shipment, slots: seq<Shard>,
                          pending: map<nat, Marker>, finished: set<nat>, seqno: nat, o: Output)
    requires Aligned(c, json, s, slots, pending, finished, seqno, o) && seqno < |s.log|
    ensures var i := s.route[seqno];
            && 1 <= i < |slots| && i !in finished
            && (i in pending ==> pending[i].seqno == seqno)
  {
    var i := s.route[seqno];
    assert i in s.route;
    assert ShardAligned(c, s, i, slots[i].pipe, At(pending, i), i in finished, seqno);
  }

  /** No false stall: when no shard can be read and no marker is due, the whole image is done. */
  lemma NoStall(c: Codec<Marker>, json: Codec<seq<string>>, s: Shipment, slots: seq<Shard>,
                pending: map<nat, Marker>, finished: set<nat>, seqno: nat, o: Output)
    requires Aligned(c, json, s, slots, pending, finished, seqno, o)
    requires forall i | 1 <= i < |slots| :: i in pending || i in finished
    requires forall i <- pending :: pending[i].seqno != seqno
    ensures seqno == |s.log| && pending == map[]
    ensures Ok(o) == ProcessAll(false, json, s.start, s.log) && Processable(json, s)
  {
    assert s.log[..|s.log|] == s.log;
    if seqno < |s.log| {
      NextIsWithinReach(c, json, s, slots, pending, finished, seqno, o);
    } else if pending != map[] {
      var i :| i in pending;
      PendingIsLater(c, json, s, slots, pending, finished, seqno, o, i);
    }
  }

  lemma AlignedAtStart(c: Codec<Marker>, json: Codec<seq<string>>, s: Shipment, slots: seq<Shard>)
    requires Shippable(c, |slots|, s)
    requires forall i | 1 <= i < |slots| :: slots[i].pipe == Sent(c, s.log, s.route, i, 0)
    ensures Aligned(c, json, s, slots, map[], {}, 0, s.start)
  {
    assert s.log[..0] == [];
  }

  // ---- the small-file shard ----

  /** The payload of `n` bytes at the start of `pipe`, or what there is of it. */
  function Payload(pipe: Bytes, n: nat): Bytes {
    if n <= |pipe| then pipe[..n] else pipe
  }

  function Rest(pipe: Bytes, n: nat): Bytes {
    if n <= |pipe| then pipe[n..] else []
  }

  /** Processing a marker of the small-file shard whose payload is at the start of `pipe`. */
  function ProcessSmallAt(o: Output, marker: Marker, pipe: Bytes, json: Codec<seq<string>>): Result<Output> {
    if DataSize(marker) > |pipe| && o.current != Some(METADATA_FILE) then
      Err(if o.current.None? then UnexpectedMarker else UnexpectedEof)
    else
      ProcessSmall(o, marker.body, Payload(pipe, DataSize(marker)), json)
  }

  /** The small-file shard carries `items`, and `tail` after them. */
  datatype Parcel = Parcel(items: seq<Item>, tail: Bytes, start: Output)

  ghost predicate SmallReady(c: Codec<Marker>, p: Parcel) {
    c.Lawful() && AllSendable(c, p.items) && AllSized(p.items) && Numbered(p.items)
  }

  ghost function SmallStream(c: Codec<Marker>, p: Parcel, k: nat): Bytes
    requires AllSendable(c, p.items) && k <= |p.items|
  {
    Sent(c, p.items, Zeros(|p.items|), 0, k) + p.tail
  }

  /** The first `k` items of the small-file shard have been processed. */
  ghost predicate SmallAt(c: Codec<Marker>, json: Codec<seq<string>>, p: Parcel,
                          k: nat, pipe: Bytes, seqno: nat, o: Output)
    requires AllSendable(c, p.items)
  {
    && k <= |p.items| && seqno == k && pipe == SmallStream(c, p, k)
    && ProcessAll(true, json, p.start, p.items[..k]) == Ok(o)
  }

  /** The next item is read where the last one ended, and processed as the fold does. */
  lemma SmallRead(c: Codec<Marker>, json: Codec<seq<string>>, p: Parcel, k: nat, pipe: Bytes, seqno: nat, o: Output)
    requires SmallReady(c, p) && SmallAt(c, json, p, k, pipe, seqno, o) && k < |p.items|
    ensures PbReadNext(c, pipe).Got?
    ensures var m, rest := PbReadNext(c, pipe).value.0, PbReadNext(c, pipe).rest;
            && m.seqno == k && DataSize(m) <= |rest|
            && ProcessSmallAt(o, m, rest, json) == ProcessAll(true, json, p.start, p.items[..k + 1])
            && Rest(rest, DataSize(m)) == SmallStream(c, p, k + 1)
  {
    var it := p.items[k];
    assert Sendable(c, it) && |it.payload| == DataSize(it.marker) by {
      assert it in p.items;
    }
    var later := SmallStream(c, p, k + 1);
    SmallStreamNext(c, p, k);
    ReadsBackOne(c, it.marker, it.payload + later);
    assert Payload(it.payload + later, |it.payload|) == it.payload && Rest(it.payload + later, |it.payload|) == later;
    TakeNext(p.items, k);
    ProcessSnoc(true, json, p.start, p.items[..k], it);
  }

  lemma SmallStreamNext(c: Codec<Marker>, p: Parcel, k: nat)
    requires AllSendable(c, p.items) && k < |p.items| && Sendable(c, p.items[k])
    ensures SmallStream(c, p, k) == Frame(c, p.items[k].marker) + (p.items[k].payload + SmallStream(c, p, k + 1))
  {
    var later := Sent(c, p.items, Zeros(|p.items|), 0, k + 1);
    AssociateFour(Frame(c, p.items[k].marker), p.items[k].payload, later, p.tail);
  }

  // ---- how much is left to read ----

  /** What has been counted as read has been read. */
  ghost predicate BytesCounted(before: seq<Shard>, after: seq<Shard>) {
    && |after| == |before|
    && forall i | 0 <= i < |before| ::
         && |after[i].pipe| <= |before[i].pipe|
         && after[i].bytesRead + |after[i].pipe| == before[i].bytesRead + |before[i].pipe|
  }

  function Unread(slots: seq<Shard>): nat {
    if slots == [] then 0 else |slots[0].pipe| + Unread(slots[1..])
  }

  lemma {:induction false} UnreadAfterMove(before: seq<Shard>, after: seq<Shard>, i: nat, pipe: Bytes)
    requires Moved(before, after, i, pipe)
    ensures Unread(after) == Unread(before) - |before[i].pipe| + |pipe|
  {
    if i == 0 {
      assert after[1..] == before[1..];
    } else {
      assert Moved(before[1..], after[1..], i - 1, pipe);
      UnreadAfterMove(before[1..], after[1..], i - 1, pipe);
    }
  }

  lemma {:induction false} UnreadAccounted(before: seq<Shard>, after: seq<Shard>)
    requires BytesCounted(before, after)
    ensures Unread(after) <= Unread(before)
  {
    if before == [] {
    } else {
      assert |after[0].pipe| <= |before[0].pipe|;
      UnreadAccounted(before[1..], after[1..]);
    }
  }

  lemma {:induction false} MinPending(pending: map<nat, Marker>) returns (i: nat)
    requires pending != map[]
    ensures i in pending && forall j <- pending :: pending[i].seqno <= pending[j].seqno
    decreases |pending|
  {
    i :| i in pending;
    var rest := pending - {i};
    assert forall j <- pending :: j == i || (j in rest && rest[j] == pending[j]);
    if rest == map[] {
    } else {
      var k := MinPending(rest);
      if pending[k].seqno < pending[i].seqno {
        i := k;
      }
    }
  }

  // ---- which shard is where ----

  /** The places main shards can be in. `hand` is the shard a method is working on. */
  datatype Places = Places(
    shards: seq<nat>, readable: seq<nat>, pending: set<nat>, finished: set<nat>, hand: Option<nat>)
  {
    ghost function Count(i: nat): nat {
      multiset(shards)[i] + multiset(readable)[i] + (if i in pending then 1 else 0)
      + (if i in finished then 1 else 0) + if hand == Some(i) then 1 else 0
    }

    /** Each of the `n` shards but the small-file shard is in exactly one place. */
    ghost predicate Partition(n: nat) {
      forall i: nat :: Count(i) == if 1 <= i < n then 1 else 0
    }

    lemma Located(n: nat, i: nat)
      requires Partition(n)
      ensures i in pending || i in finished || hand == Some(i) || i in shards || i in readable <==> 1 <= i < n
      ensures i in pending ==> i !in finished && hand != Some(i)
      ensures i in finished ==> hand != Some(i)
    {
      assert Count(i) == if 1 <= i < n then 1 else 0;
    }

    /** Places with the same counts partition the same shards. */
    lemma Recount(that: Places, n: nat)
      requires Partition(n) && forall i: nat :: Count(i) == that.Count(i)
      ensures that.Partition(n)
    {
      forall i: nat ensures that.Count(i) == if 1 <= i < n then 1 else 0 {
        assert Count(i) == that.Count(i);
      }
    }

    lemma TakePending(n: nat, i: nat)
      requires Partition(n) && i in pending && hand == None
      ensures this.(pending := pending - {i}, hand := Some(i)).Partition(n)
    {
      Recount(this.(pending := pending - {i}, hand := Some(i)), n);
    }

    lemma PutPending(n: nat, i: nat)
      requires Partition(n) && hand == Some(i)
      ensures this.(pending := pending + {i}, hand := None).Partition(n)
    {
      Located(n, i);
      Recount(this.(pending := pending + {i}, hand := None), n);
    }

    lemma Finish(n: nat, i: nat)
      requires Partition(n) && hand == Some(i)
      ensures this.(finished := finished + {i}, hand := None).Partition(n)
    {
      Located(n, i);
      Recount(this.(finished := finished + {i}, hand := None), n);
    }

    lemma PutShard(n: nat, i: nat)
      requires Partition(n) && hand == Some(i)
      ensures this.(shards := shards + [i], hand := None).Partition(n)
    {
      Recount(this.(shards := shards + [i], hand := None), n);
    }

    lemma TakeShard(n: nat)
      requires Partition(n) && |shards| == 1 && hand == None
      ensures this.(shards := [], hand := Some(shards[0])).Partition(n)
    {
      assert shards == [shards[0]];
      Recount(this.(shards := [], hand := Some(shards[0])), n);
    }

    lemma TakeReadable(n: nat)
      requires Partition(n) && readable != [] && hand == None
      ensures this.(readable := readable[..|readable| - 1], hand := Some(readable[|readable| - 1])).Partition(n)
    {
      assert readable == readable[..|readable| - 1] + [readable[|readable| - 1]];
      Recount(this.(readable := readable[..|readable| - 1], hand := Some(readable[|readable| - 1])), n);
    }

    lemma Split(n: nat, rest: seq<nat>, ready: seq<nat>)
      requires Partition(n) && readable == [] && multiset(rest) + multiset(ready) == multiset(shards)
      ensures this.(shards := rest, readable := ready).Partition(n)
    {
      forall i: nat ensures Count(i) == this.(shards := rest, readable := ready).Count(i) {
        assert (multiset(rest) + multiset(ready))[i] == multiset(shards)[i];
      }
      Recount(this.(shards := rest, readable := ready), n);
    }
  }

  /** The first `k` shards have been divided into those that are ready and the rest. */
  ghost predicate Divided(all: seq<nat>, ready: seq<bool>, k: nat, rest: seq<nat>, chosen: seq<nat>)
    requires k <= |ready| == |all|
  {
    var whole := multiset(rest) + multiset(chosen) == multiset(all[..k]);
    var sizes := |rest| + |chosen| == k;
    var right := forall j | 0 <= j < k :: all[j] in if ready[j] then chosen else rest;
    whole && sizes && right
  }

  lemma DivideNext(all: seq<nat>, ready: seq<bool>, k: nat, rest: seq<nat>, chosen: seq<nat>)
    requires k < |ready| == |all| && Divided(all, ready, k, rest, chosen)
    ensures if ready[k] then Divided(all, ready, k + 1, rest, chosen + [all[k]])
            else Divided(all, ready, k + 1, rest + [all[k]], chosen)
  {
    TakeNext(all, k);
    OneMore(rest, chosen, all[..k], all[k]);
    KeepMembers(rest, all[k]);
    KeepMembers(chosen, all[k]);
  }

  lemma KeepMembers(s: seq<nat>, x: nat)
    ensures x in s + [x] && forall y <- s :: y in s + [x]
  {
  }

  lemma OneMore(a: seq<nat>, b: seq<nat>, all: seq<nat>, x: nat)
    requires multiset(a) + multiset(b) == multiset(all)
    ensures multiset(a + [x]) + multiset(b) == multiset(all + [x]) == multiset(a) + multiset(b + [x])
  {
  }

  lemma CountedAfterMove(before: seq<Shard>, after: seq<Shard>, i: nat, n: nat)
    requires i < |before| && n <= |before[i].pipe| && Moved(before, after, i, before[i].pipe[n..])
    requires after[i].bytesRead == before[i].bytesRead + n
    ensures BytesCounted(before, after)
  {
  }

  /** The positions of the main shards. */
  function UpTo(n: nat): seq<nat> {
    if n == 0 then [] else UpTo(n - 1) + [n]
  }

  lemma AddOne(s: seq<nat>, x: nat, i: nat)
    ensures multiset(s + [x])[i] == multiset(s)[i] + if i == x then 1 else 0
  {
  }

  lemma {:induction false} OneOfEach(n: nat, i: nat)
    ensures multiset(UpTo(n))[i] == if 1 <= i <= n then 1 else 0
  {
    if n == 0 {
    } else {
      OneOfEach(n - 1, i);
      AddOne(UpTo(n - 1), n, i);
    }
  }

  lemma AllInShards(n: nat)
    requires n > 0
    ensures Places(UpTo(n - 1), [], {}, {}, None).Partition(n)
  {
    var places := Places(UpTo(n - 1), [], {}, {}, None);
    forall i: nat ensures places.Count(i) == if 1 <= i < n then 1 else 0 {
      OneOfEach(n - 1, i);
    }
  }

  predicate IsTop(pending: map<nat, Marker>, i: nat) {
    i in pending && forall j <- pending :: pending[i].seqno <= pending[j].seqno
  }

  /** A shard is known by its position in `slots`, the slice the caller handed over: position 0 is the
      small-file shard. */
  class ImageDeserializer {
    const codec: Codec<Marker>
    const json: Codec<seq<string>>

    var slots: seq<Shard>
    var smallFileSeq: nat
    var metadata: Option<seq<string>>
    var shards: seq<nat>
    var readableShards: seq<nat>
    var pendingMarkers: map<nat, Marker>
    var seqno: nat
    var imgFiles: set<string>
    var currentImgFile: Option<string>
    var imageEof: bool

    /** The calls made on the image store. */
    var calls: seq<Call>

    ghost var finished: set<nat>

    ghost function Out(): Output
      reads `currentImgFile, `imgFiles, `calls, `imageEof, `metadata
    {
      Output(currentImgFile, imgFiles, calls, imageEof, metadata)
    }

    ghost function PlacesWith(hand: Option<nat>): Places
      reads `shards, `readableShards, `pendingMarkers, `finished
    {
      Places(shards, readableShards, pendingMarkers.Keys, finished, hand)
    }

    /** Each main shard is in exactly one place. */
    ghost predicate Owned(hand: Option<nat>)
      reads `slots, `shards, `readableShards, `pendingMarkers, `finished
    {
      |slots| >= 2 && PlacesWith(hand).Partition(|slots|)
    }

    ghost predicate OnTrack(s: Shipment)
      reads `slots, `pendingMarkers, `finished, `seqno
      reads `currentImgFile, `imgFiles, `calls, `imageEof, `metadata
    {
      Aligned(codec, json, s, slots, pendingMarkers, finished, seqno, Out())
    }

    /** What is promised of an operation on an aligned image: it keeps it aligned, and it does not fail when
        the image can be processed. */
    ghost predicate Follows(s: Shipment, ok: bool)
      reads `slots, `pendingMarkers, `finished, `seqno
      reads `currentImgFile, `imgFiles, `calls, `imageEof, `metadata
    {
      (ok ==> OnTrack(s)) && (Processable(json, s) ==> ok)
    }

    /** Between two shards, no marker that is due is left pending. */
    ghost predicate NoneDue()
      reads `pendingMarkers, `seqno
    {
      forall i <- pendingMarkers :: pendingMarkers[i].seqno != seqno
    }

    constructor (codec: Codec<Marker>, json: Codec<seq<string>>, pipes: seq<Bytes>)
      requires |pipes| >= 2
      ensures this.codec == codec && this.json == json
      ensures slots == seq(|pipes|, i requires 0 <= i < |pipes| => Shard(pipes[i], 0))
      ensures Owned(None) && finished == {} && pendingMarkers == map[]
      ensures Out() == START && smallFileSeq == 0 && seqno == 0
    {
      this.codec, this.json := codec, json;
      slots := seq(|pipes|, i requires 0 <= i < |pipes| => Shard(pipes[i], 0));
      smallFileSeq, seqno, metadata := 0, 0, None;
      shards := UpTo(|pipes| - 1);
      readableShards, pendingMarkers, finished := [], map[], {};
      imgFiles, currentImgFile, imageEof, calls := {}, None, false, [];
      new;
      AllInShards(|pipes|);
      assert pendingMarkers.Keys == {};
    }

    method SelectImgFile(filename: string)
      modifies this`imgFiles, this`currentImgFile, this`calls
      ensures Out() == Reassembly.SelectImgFile(old(Out()), filename)
    {
      if currentImgFile.Some? {
        imgFiles := imgFiles + {currentImgFile.value};
      }
      if filename in imgFiles {
        imgFiles := imgFiles - {filename};
      } else {
        calls := calls + [Create(filename)];
      }
      currentImgFile := Some(filename);
    }

    method MarkImageEof() returns (r: Result<()>)
      modifies this`imageEof
      ensures r.Ok? <==> imgFiles == {} && pendingMarkers == map[]
      ensures r.Ok? ==> imageEof
      ensures r.Err? ==> r == Err(UnexpectedImageEof)
    {
      if imgFiles != {} || pendingMarkers != map[] {
        return Err(UnexpectedImageEof);
      }
      imageEof := true;
      r := Ok(());
    }

    /** Reads `n` payload bytes of shard `i` into the current file. */
    method WriteAllFromPipe(name: string, i: nat, n: nat) returns (r: Result<()>)
      requires i < |slots|
      modifies this`slots, this`calls
      ensures r.Ok? <==> n <= |old(slots)[i].pipe|
      ensures |slots| == |old(slots)|
      ensures r.Ok? ==> Moved(old(slots), slots, i, old(slots)[i].pipe[n..])
      ensures r.Ok? ==> slots[i].bytesRead == old(slots)[i].bytesRead
      ensures r.Ok? ==> calls == old(calls) + [Write(name, old(slots)[i].pipe[..n])]
      ensures r.Err? ==> r == Err(UnexpectedEof)
    {
      if n > |slots[i].pipe| {
        return Err(UnexpectedEof);
      }
      calls := calls + [Write(name, slots[i].pipe[..n])];
      slots := slots[i := slots[i].(pipe := slots[i].pipe[n..])];
      r := Ok(());
    }

    method ProcessMarker(marker: Marker, i: nat) returns (r: Result<()>)
      requires i < |slots|
      modifies this`slots, this`imgFiles, this`currentImgFile, this`calls, this`imageEof
      ensures var o := ProcessAt(old(Out()), marker, old(slots)[i].pipe, pendingMarkers == map[]);
              if o.Err? then r == Err(o.error) else r == Ok(()) && Out() == o.value
      ensures var n, pipe := DataSize(marker), old(slots)[i].pipe;
              r.Ok? ==> n <= |pipe| && Moved(old(slots), slots, i, pipe[n..])
                        && slots[i].bytesRead == old(slots)[i].bytesRead + n
      ensures r.Ok? && imageEof ==> old(imageEof) || pendingMarkers == map[]
    {
      match marker.body {
        case Some(Filename(filename)) =>
          SelectImgFile(filename);
        case Some(FileData(size)) =>
          if currentImgFile.None? {
            return Err(UnexpectedMarker);
          }
          var _ :- WriteAllFromPipe(currentImgFile.value, i, size);
          slots := slots[i := slots[i].(bytesRead := slots[i].bytesRead + size)];
        case Some(FileEof(true)) =>
          if currentImgFile.None? {
            return Err(UnexpectedMarker);
          }
          calls := calls + [Insert(currentImgFile.value)];
          currentImgFile := None;
        case Some(ImageEof(true)) =>
          var _ :- MarkImageEof();
        case _ =>
          return Err(Malformed);
      }
      r := Ok(());
    }

    /** Peeks at the heap, whose top is the marker of lowest number, and pops it if it is due. */
    method GetNextInOrderMarker(ghost s: Shipment) returns (r: Option<(nat, Marker)>)
      modifies this`pendingMarkers
      ensures match r
              case None =>
                pendingMarkers == old(pendingMarkers) && (OnTrack(s) ==> NoneDue())
              case Some((i, m)) =>
                && i in old(pendingMarkers) && m == old(pendingMarkers)[i] && m.seqno == seqno
                && pendingMarkers == old(pendingMarkers) - {i}
    {
      if pendingMarkers == map[] {
        return None;
      }
      ghost var least := MinPending(pendingMarkers);
      assert IsTop(pendingMarkers, least);
      var i: nat :| IsTop(pendingMarkers, i);
      assert IsTop(pendingMarkers, i);
      var m := pendingMarkers[i];
      if m.seqno != seqno {
        if OnTrack(s) {
          PendingIsLater(codec, json, s, slots, pendingMarkers, finished, seqno, Out(), i);
        }
        return None;
      }
      pendingMarkers := pendingMarkers - {i};
      r := Some((i, m));
    }

    method GiveBack(i: nat)
      requires Owned(Some(i))
      modifies this`shards
      ensures Owned(None) && shards == old(shards) + [i]
    {
      PlacesWith(Some(i)).PutShard(|slots|, i);
      shards := shards + [i];
    }

    /** Processes the marker just popped. */
    method ProcessInOrder(i: nat, marker: Marker, ghost before: map<nat, Marker>, ghost s: Shipment) returns (r: Result<()>)
      requires i < |slots| && pendingMarkers == before - {i}
      requires i in before && before[i] == marker && marker.seqno == seqno
      requires !imageEof
      modifies this`slots, this`imgFiles, this`currentImgFile, this`calls, this`imageEof, this`seqno
      ensures old(Aligned(codec, json, s, slots, before, finished, seqno, Out())) ==> Follows(s, r.Ok?)
      ensures var n, pipe := DataSize(marker), old(slots)[i].pipe;
              r.Ok? ==> n <= |pipe| && Moved(old(slots), slots, i, pipe[n..])
                        && slots[i].bytesRead == old(slots)[i].bytesRead + n
      ensures r.Ok? && imageEof ==> old(imageEof) || pendingMarkers == map[]
    {
      ghost var slots0, o := slots, Out();
      ghost var aligned := Aligned(codec, json, s, slots, before, finished, seqno, o);
      if aligned {
        DueMarkerAccepted(codec, json, s, slots, before, finished, seqno, o, i);
      }
      var _ :- ProcessMarker(marker, i);
      if aligned {
        AlignedProcess(codec, json, s, slots0, slots, before, finished, seqno, o, Out(), i);
      }
      seqno := seqno + 1;
      r := Ok(());
    }

    /** Processes the marker just popped and gives its shard back. */
    method ProcessDue(i: nat, marker: Marker, ghost before: map<nat, Marker>, ghost s: Shipment) returns (r: Result<()>)
      requires Owned(Some(i)) && 1 <= i < |slots| && pendingMarkers == before - {i}
      requires i in before && before[i] == marker && marker.seqno == seqno
      requires !imageEof
      modifies this`slots, this`imgFiles, this`currentImgFile, this`calls, this`imageEof, this`seqno, this`shards
      ensures old(Aligned(codec, json, s, slots, before, finished, seqno, Out())) ==> Follows(s, r.Ok?)
      ensures r.Ok? ==> Owned(None) && BytesCounted(old(slots), slots)
      ensures r.Ok? && imageEof ==> old(imageEof) || pendingMarkers == map[]
    {
      var _ :- ProcessInOrder(i, marker, before, s);
      CountedAfterMove(old(slots), slots, i, DataSize(marker));
      GiveBack(i);
      r := Ok(());
    }

    /** Processes the marker that is due, if there is one. */
    method ProcessNextInOrder(ghost s: Shipment) returns (r: Result<bool>)
      requires Owned(None) && (imageEof ==> pendingMarkers == map[])
      modifies this`slots, this`imgFiles, this`currentImgFile, this`calls, this`imageEof
      modifies this`pendingMarkers, this`seqno, this`shards
      ensures r.Ok? ==> Owned(None) && BytesCounted(old(slots), slots) && (imageEof ==> pendingMarkers == map[])
      ensures r == Ok(true) ==> |pendingMarkers| < |old(pendingMarkers)|
      ensures old(OnTrack(s)) ==> Follows(s, r.Ok?) && (r == Ok(false) ==> NoneDue())
    {
      ghost var places, before := PlacesWith(None), pendingMarkers;
      var next := GetNextInOrderMarker(s);
      if next.None? {
        return Ok(false);
      }
      var (i, marker) := next.value;
      places.TakePending(|slots|, i);
      PlacesWith(Some(i)).Located(|slots|, i);
      var _ :- ProcessDue(i, marker, before, s);
      r := Ok(true);
    }

    method ProcessPendingMarkers(ghost s: Shipment) returns (r: Result<()>)
      requires Owned(None) && !imageEof
      modifies this`slots, this`imgFiles, this`currentImgFile, this`calls, this`imageEof
      modifies this`pendingMarkers, this`seqno, this`shards
      ensures r.Ok? ==> Owned(None) && BytesCounted(old(slots), slots) && (imageEof ==> pendingMarkers == map[])
      ensures old(OnTrack(s)) ==> Follows(s, r.Ok?) && (r.Ok? ==> NoneDue())
    {
      var more := true;
      while more
        invariant Owned(None) && BytesCounted(old(slots), slots) && (imageEof ==> pendingMarkers == map[])
        invariant old(OnTrack(s)) ==> OnTrack(s) && (more || NoneDue())
        decreases more, |pendingMarkers|
      {
        more :- ProcessNextInOrder(s);
      }
      r := Ok(());
    }

    /** Puts shard `i`, of which `size` bytes have been read as `marker`, with the pending markers. */
    method SetAside(i: nat, marker: Marker, size: nat)
      requires Owned(Some(i)) && 1 <= i < |slots| && 0 < size <= |slots[i].pipe|
      modifies this`slots, this`pendingMarkers
      ensures Owned(None) && BytesCounted(old(slots), slots) && Unread(slots) < Unread(old(slots))
      ensures Moved(old(slots), slots, i, old(slots)[i].pipe[size..])
      ensures pendingMarkers == old(pendingMarkers)[i := marker]
    {
      ghost var places := PlacesWith(Some(i));
      slots := slots[i := Shard(slots[i].pipe[size..], slots[i].bytesRead + size)];
      UnreadAfterMove(old(slots), slots, i, slots[i].pipe);
      CountedAfterMove(old(slots), slots, i, size);
      pendingMarkers := pendingMarkers[i := marker];
      assert pendingMarkers.Keys == places.pending + {i};
      places.PutPending(|slots|, i);
    }

    /** Reads the next marker of shard `i`, which is in hand. At the end of the shard there is none. */
    method ReadMarker(i: nat, ghost s: Shipment) returns (r: Result<bool>)
      requires Owned(Some(i)) && 1 <= i < |slots|
      modifies this`slots, this`pendingMarkers, this`finished
      ensures r.Ok? ==> Owned(None) && BytesCounted(old(slots), slots)
      ensures r == Ok(false) ==>
                && finished == old(finished) + {i} && slots == old(slots) && slots[i].pipe == []
                && pendingMarkers == old(pendingMarkers)
      ensures r == Ok(true) ==>
                finished == old(finished) && !imageEof && Unread(slots) < Unread(old(slots))
      ensures old(OnTrack(s)) ==> Follows(s, r.Ok?)
    {
      ghost var places, slots0, pending0, onTrack := PlacesWith(Some(i)), slots, pendingMarkers, OnTrack(s);
      places.Located(|slots|, i);
      if onTrack {
        AlignedRead(codec, json, s, slots, slots, pendingMarkers, finished, seqno, Out(), i);
      }
      match PbReadNext(codec, slots[i].pipe) {
        case Broken(e) =>
          return Err(e);
        case Eof =>
          finished := finished + {i};
          places.Finish(|slots|, i);
          return Ok(false);
        case Got((marker, markerSize), _) =>
          if imageEof {
            return Err(UnexpectedData);
          }
          SetAside(i, marker, markerSize);
          if onTrack {
            AlignedRead(codec, json, s, slots0, slots, pending0, finished, seqno, Out(), i);
          }
          return Ok(true);
      }
    }

    /** Shard `i` is in hand. It ends up pending, back in `shards`, or finished. */
    method DrainShard(i: nat, ghost s: Shipment) returns (r: Result<()>)
      requires Owned(Some(i)) && 1 <= i < |slots| && (imageEof ==> pendingMarkers == map[])
      modifies this
      ensures r.Ok? ==> Owned(None) && BytesCounted(old(slots), slots) && (imageEof ==> pendingMarkers == map[])
      ensures r.Ok? ==>
                || (finished == old(finished) && Unread(slots) < Unread(old(slots)))
                || (&& finished == old(finished) + {i} && slots == old(slots) && slots[i].pipe == []
                    && shards == old(shards) && readableShards == old(readableShards))
      ensures old(OnTrack(s) && NoneDue()) ==> Follows(s, r.Ok?) && (r.Ok? ==> NoneDue())
    {
      var more :- ReadMarker(i, s);
      if !more {
        return Ok(());
      }
      ghost var read := slots;
      r := ProcessPendingMarkers(s);
      if r.Ok? {
        UnreadAccounted(read, slots);
      }
    }

    /** `poll()`: reports at least one of the `n` shards, whichever they are. */
    method Poll(n: nat) returns (ready: seq<bool>)
      requires n > 0
      ensures |ready| == n && true in ready
    {
      var all := seq(n, _ => true);
      assert all[0];
      ready :| |ready| == n && (ready == all || true in ready);
    }

    method GetNextReadableShard() returns (r: Option<nat>)
      requires Owned(None)
      modifies this`shards, this`readableShards
      ensures match r
              case None =>
                Owned(None) && shards == readableShards == []
              case Some(i) =>
                && Owned(Some(i)) && 1 <= i < |slots|
                && |shards| + |readableShards| + 1 == old(|shards| + |readableShards|)
                && (old(readableShards) != [] ==>
                      old(readableShards) == readableShards + [i] && shards == old(shards))
    {
      if readableShards == [] {
        if |shards| <= 1 {
          if shards == [] {
            return None;
          }
          var i := shards[0];
          PlacesWith(None).TakeShard(|slots|);
          shards := [];
          PlacesWith(Some(i)).Located(|slots|, i);
          return Some(i);
        }
        var ready := Poll(|shards|);
        SplitReadable(ready);
      }
      var last := |readableShards| - 1;
      var i := readableShards[last];
      PlacesWith(None).TakeReadable(|slots|);
      readableShards := readableShards[..last];
      PlacesWith(Some(i)).Located(|slots|, i);
      r := Some(i);
    }

    /** Moves the shards reported by `poll()`, and no others, to `readableShards`. */
    method SplitReadable(ready: seq<bool>)
      requires Owned(None) && readableShards == [] && |ready| == |shards| && true in ready
      modifies this`shards, this`readableShards
      ensures Owned(None) && readableShards != []
      ensures |shards| + |readableShards| == old(|shards|)
      ensures forall j | 0 <= j < |ready| :: old(shards)[j] in if ready[j] then readableShards else shards
    {
      ghost var places := PlacesWith(None);
      var all := shards;
      shards := [];
      for k := 0 to |all|
        invariant Divided(all, ready, k, shards, readableShards)
      {
        DivideNext(all, ready, k, shards, readableShards);
        if ready[k] {
          readableShards := readableShards + [all[k]];
        } else {
          shards := shards + [all[k]];
        }
      }
      assert all[..|all|] == all;
      places.Split(|slots|, shards, readableShards);
    }

    /** The main loop. On any input at all, when it succeeds every main shard has been read to its end
        and every byte of it counted. On shards that carry an image it succeeds if and only if the markers
        can be processed in the order in which they were issued, the last one alone ending the image, and
        then its output is theirs. */
    method DrainAll(ghost s: Shipment) returns (r: Result<()>)
      requires Owned(None) && finished == {} && !imageEof
      modifies this
      ensures r.Ok? ==> imageEof && BytesCounted(old(slots), slots)
      ensures r.Ok? ==> forall i | 1 <= i < |slots| :: slots[i].pipe == []
      ensures var final := ProcessAll(false, json, s.start, s.log);
              old(OnTrack(s) && NoneDue()) ==>
                && (r.Ok? <==> Processable(json, s) && final.value.imageEof)
                && (r.Ok? ==> Out() == final.value)
                && (Processable(json, s) && !final.value.imageEof ==> r == Err(NoShards))
    {
      while true
        invariant Owned(None) && BytesCounted(old(slots), slots)
        invariant imageEof ==> pendingMarkers == map[]
        invariant forall i <- finished :: i < |slots| && slots[i].pipe == []
        invariant old(OnTrack(s) && NoneDue()) ==> OnTrack(s) && NoneDue()
        decreases Unread(slots), |shards| + |readableShards|
      {
        var next := GetNextReadableShard();
        if next.None? {
          break;
        }
        var _ :- DrainShard(next.value, s);
      }
      forall i | 1 <= i < |slots| ensures i in pendingMarkers || i in finished {
        PlacesWith(None).Located(|slots|, i);
      }
      if old(OnTrack(s) && NoneDue()) {
        NoStall(codec, json, s, slots, pendingMarkers, finished, seqno, Out());
      }
      if !imageEof {
        return Err(NoShards);
      }
      r := Ok(());
    }

    /** A marker of the small-file shard. The payload of the metadata file is whatever is left when that
        is less than announced; for any other file that is an error. */
    method ProcessSmallFileMarker(marker: Marker) returns (r: Result<()>)
      requires slots != []
      modifies this`slots, this`imgFiles, this`currentImgFile, this`calls, this`metadata
      ensures |slots| == |old(slots)|
      ensures marker.seqno != smallFileSeq ==> r == Err(Panicked)
      ensures marker.seqno == smallFileSeq ==>
                var o := ProcessSmallAt(old(Out()), marker, old(slots)[0].pipe, json);
                if o.Err? then r == Err(o.error) else r == Ok(()) && Out() == o.value
      ensures r.Ok? ==> Moved(old(slots), slots, 0, Rest(old(slots)[0].pipe, DataSize(marker)))
      ensures r.Ok? ==> slots[0].bytesRead == old(slots)[0].bytesRead + DataSize(marker)
    {
      if marker.seqno != smallFileSeq {
        return Err(Panicked);
      }
      match marker.body {
        case Some(Filename(filename)) =>
          SelectImgFile(filename);
        case Some(FileData(size)) =>
          if currentImgFile.None? {
            return Err(UnexpectedMarker);
          }
          if currentImgFile == Some(METADATA_FILE) {
            var names := json.decode(Payload(slots[0].pipe, size));
            if names.None? {
              return Err(DecodeFailed);
            }
            slots := slots[0 := slots[0].(pipe := Rest(slots[0].pipe, size))];
            metadata := names;
          } else {
            var _ :- WriteAllFromPipe(currentImgFile.value, 0, size);
          }
          slots := slots[0 := slots[0].(bytesRead := slots[0].bytesRead + size)];
        case Some(FileEof(true)) =>
          if currentImgFile.None? {
            return Err(UnexpectedMarker);
          }
          if currentImgFile != Some(METADATA_FILE) {
            calls := calls + [Insert(currentImgFile.value)];
          }
          currentImgFile := None;
        case _ =>
          return Err(Malformed);
      }
      r := Ok(());
    }

    ghost predicate SmallOnTrackAt(p: Parcel, k: nat)
      reads `slots, `smallFileSeq
      reads `currentImgFile, `imgFiles, `calls, `imageEof, `metadata
    {
      slots != [] && SmallReady(codec, p) && SmallAt(codec, json, p, k, slots[0].pipe, smallFileSeq, Out())
    }

    /** Reads and processes one marker of the small-file shard; false at the end of the shard. */
    method DrainSmallMarker(ghost p: Parcel, ghost k: nat) returns (r: Result<bool>)
      requires slots != []
      modifies this`slots, this`imgFiles, this`currentImgFile, this`calls, this`metadata, this`smallFileSeq
      ensures r == Ok(false) <==> old(slots)[0].pipe == []
      ensures r == Ok(false) ==> slots == old(slots) && Out() == old(Out())
      ensures |slots| == |old(slots)|
      ensures r == Ok(true) ==> Moved(old(slots), slots, 0, slots[0].pipe) && |slots[0].pipe| < |old(slots)[0].pipe|
      ensures old(SmallOnTrackAt(p, k)) && k < |p.items| ==>
                && (r == Ok(true) <==> ProcessAll(true, json, p.start, p.items[..k + 1]).Ok?)
                && (r.Ok? ==> SmallOnTrackAt(p, k + 1))
                && (r.Ok? ==> slots[0].bytesRead + |slots[0].pipe| == old(slots[0].bytesRead + |slots[0].pipe|))
    {
      if SmallOnTrackAt(p, k) && k < |p.items| {
        SmallRead(codec, json, p, k, slots[0].pipe, smallFileSeq, Out());
      }
      match PbReadNext(codec, slots[0].pipe) {
        case Broken(e) =>
          return Err(e);
        case Eof =>
          return Ok(false);
        case Got((marker, markerSize), rest) =>
          slots := slots[0 := Shard(rest, slots[0].bytesRead + markerSize)];
          var _ :- ProcessSmallFileMarker(marker);
          smallFileSeq := smallFileSeq + 1;
          return Ok(true);
      }
    }

    /** Reads the small-file shard to its end and returns the metadata. When it carries `p`, the shard is
        refused if an item of it cannot be processed; when nothing follows these items, it is accepted if
        and only if they can be processed and one of them was the metadata, and every byte is counted. */
    method DrainSmallFileShard(ghost p: Parcel) returns (r: Result<seq<string>>)
      requires slots != []
      modifies this`slots, this`imgFiles, this`currentImgFile, this`calls, this`metadata, this`smallFileSeq
      ensures r.Ok? ==> Moved(old(slots), slots, 0, []) && metadata == None
      ensures var end := ProcessAll(true, json, p.start, p.items);
              old(SmallOnTrackAt(p, 0)) ==>
                && (r.Ok? ==> end.Ok?)
                && (p.tail == [] ==> (r.Ok? <==> end.Ok? && end.value.metadata.Some?))
                && (p.tail == [] && r.Ok? ==>
                      && r.value == end.value.metadata.value && Out() == end.value.(metadata := None)
                      && slots[0].bytesRead == old(slots[0].bytesRead + |slots[0].pipe|))
    {
      ghost var k, onTrack := 0, SmallOnTrackAt(p, 0);
      assert p.items[..|p.items|] == p.items;
      while true
        invariant |slots| == |old(slots)| && Moved(old(slots), slots, 0, slots[0].pipe)
        invariant 0 <= k <= |p.items|
        invariant onTrack && (k < |p.items| || p.tail == []) ==> SmallOnTrackAt(p, k)
        invariant onTrack && k == |p.items| ==> ProcessAll(true, json, p.start, p.items).Ok?
        invariant onTrack && (k < |p.items| || p.tail == []) ==>
                    slots[0].bytesRead + |slots[0].pipe| == old(slots[0].bytesRead + |slots[0].pipe|)
        decreases |slots[0].pipe|
      {
        if onTrack && k < |p.items| {
          ItemsRefused(json, p, k);
        }
        var more :- DrainSmallMarker(p, k);
        if !more {
          break;
        }
        k := if k < |p.items| then k + 1 else k;
      }
      if metadata.None? {
        return Err(Panicked);
      }
      r := Ok(metadata.value);
      metadata := None;
    }
  }

  lemma ItemsRefused(json: Codec<seq<string>>, p: Parcel, k: nat)
    requires k < |p.items|
    ensures ProcessAll(true, json, p.start, p.items[..k + 1]).Err? ==> ProcessAll(true, json, p.start, p.items).Err?
  {
    if ProcessAll(true, json, p.start, p.items).Ok? {
      PrefixProcesses(true, json, p.start, p.items, k + 1);
    }
  }

  /** The shards carry an image: the parcel on the small-file shard, the shipment on the others. The pass
      over these starts with the output of the pass over the first. */
  ghost predicate Carried(c: Codec<Marker>, json: Codec<seq<string>>, pipes: seq<Bytes>, p: Parcel, s: Shipment) {
    && SmallReady(c, p) && p.start == START
    && |pipes| >= 2 && pipes[0] == SmallStream(c, p, 0)
    && (var small := ProcessAll(true, json, START, p.items);
        p.tail == [] && small.Ok? ==> s.start == small.value.(metadata := None))
    && Shippable(c, |pipes|, s)
    && forall i | 1 <= i < |pipes| :: pipes[i] == Sent(c, s.log, s.route, i, 0)
  }

  /** Both streams can be processed, with the metadata in the first and the end of the image last in the
      second. */
  ghost predicate Extractable(json: Codec<seq<string>>, p: Parcel, s: Shipment) {
    var small, main := ProcessAll(true, json, START, p.items), ProcessAll(false, json, s.start, s.log);
    small.Ok? && small.value.metadata.Some? && Processable(json, s) && main.value.imageEof
  }

  /** Both passes over the shards, as `serve` and `extract` make them. */
  method ExtractShards(codec: Codec<Marker>, json: Codec<seq<string>>, pipes: seq<Bytes>,
                       ghost p: Parcel, ghost s: Shipment)
    returns (r: Result<seq<string>>, sink: ImageDeserializer)
    requires |pipes| >= 2
    ensures fresh(sink)
    ensures r.Ok? ==> |sink.slots| == |pipes| && forall i | 1 <= i < |pipes| :: sink.slots[i].bytesRead == |pipes[i]|
    ensures Carried(codec, json, pipes, p, s) && r.Ok? ==> ProcessAll(true, json, START, p.items).Ok?
    ensures Carried(codec, json, pipes, p, s) && p.tail == [] ==> (r.Ok? <==> Extractable(json, p, s))
    ensures Carried(codec, json, pipes, p, s) && p.tail == [] && r.Ok? ==>
              && r.value == ProcessAll(true, json, START, p.items).value.metadata.value
              && sink.Out() == ProcessAll(false, json, s.start, s.log).value
              && sink.slots[0].bytesRead == |pipes[0]|
  {
    sink := new ImageDeserializer(codec, json, pipes);
    assert p.items[..0] == [];
    var metadata :- sink.DrainSmallFileShard(p);
    ghost var before := sink.slots;
    if Carried(codec, json, pipes, p, s) && p.tail == [] {
      AlignedAtStart(codec, json, s, sink.slots);
    }
    var _ :- sink.DrainAll(s);
    r := Ok(metadata);
  }
}
