/** Capture followed by extraction, whatever the drain order, the consumers of the shards, the shards
    picked and the order in which they become readable. */
module RoundTrip {
  import opened Wrappers
  import opened Wire
  import opened Image
  import opened Reassembly
  import opened Schedule
  import opened Delivery
  import Capture
  import Extract
  import Connected

  lemma SizedSnoc(items: seq<Item>, it: Item)
    requires AllSized(items) && |it.payload| == DataSize(it.marker)
    ensures AllSized(items + [it])
  {
  }

  lemma {:induction false} EmitPiecesSized(l: Logs, toSmall: bool, pieces: seq<Bytes>)
    requires AllSized(l.small) && AllSized(l.main)
    ensures var r := EmitPieces(l, toSmall, pieces);
            AllSized(r.small) && AllSized(r.main)
    decreases |pieces|
  {
    if pieces == [] {
    } else {
      var l' := l.Emit(toSmall, FileData(|pieces[0]|), pieces[0]);
      SizedSnoc(l.Of(toSmall), l'.Of(toSmall)[|l.Of(toSmall)|]);
      EmitPiecesSized(l', toSmall, pieces[1..]);
    }
  }

  lemma {:induction false} CaptureSized(ds: seq<Drain>, s: Setup)
    requires s.chunk > 0
    ensures AllSized(CaptureLogs(ds, s).small) && AllSized(CaptureLogs(ds, s).main)
  {
    if ds == [] {
    } else {
      var before, d := CaptureLogs(ds[..|ds| - 1], s), ds[|ds| - 1];
      CaptureSized(ds[..|ds| - 1], s);
      var toSmall := s.isSmall(d.name);
      EmitPiecesSized(NameFile(before, toSmall, d.name), toSmall, Pieces(d.data, s.chunk));
    }
  }

  /** The metadata must fit the 32-bit size field of its marker. */
  predicate MetadataFits(ds: seq<Drain>, json: Codec<seq<string>>) {
    |json.encode(EofOrder(ds))| < 0x1_0000_0000
  }

  /** Files that are drained at EOF only, empty as they are, one for each number. */
  function EmptyFiles(name: nat -> string, k: nat): seq<Drain> {
    seq(k, i requires 0 <= i < k => Drain(name(i), []))
  }

  lemma {:induction false} EmptyFilesEnd(name: nat -> string, k: nat)
    requires forall i: nat, j: nat :: i != j ==> name(i) != name(j)
    ensures |EofOrder(EmptyFiles(name, k))| == k && Live(EmptyFiles(name, k)) == {}
  {
    if k == 0 {
    } else {
      EmptyFilesEnd(name, k - 1);
      assert EmptyFiles(name, k)[..k - 1] == EmptyFiles(name, k - 1);
    }
  }

  /** With enough files the list of their names outgrows the field: here 2 to the power 32 empty ones, of which
      each name takes at least a byte. */
  lemma ManyFilesExample(json: Codec<seq<string>>, name: nat -> string)
    requires forall names :: |json.encode(names)| >= |names|
    requires forall i: nat, j: nat :: i != j ==> name(i) != name(j)
    requires forall i: nat :: name(i) != METADATA_FILE
    ensures var ds := EmptyFiles(name, 0x1_0000_0000);
            Complete(ds) && !MetadataFits(ds, json)
  {
    EmptyFilesEnd(name, 0x1_0000_0000);
  }

  lemma EmitSized(l: Logs, toSmall: bool, body: Body, payload: Bytes)
    requires AllSized(l.small) && AllSized(l.main) && |payload| == if body.FileData? then body.size else 0
    ensures AllSized(l.Emit(toSmall, body, payload).small) && AllSized(l.Emit(toSmall, body, payload).main)
  {
    SizedSnoc(l.Of(toSmall), Item(Marker(|l.Of(toSmall)|, Some(body)), payload));
    assert AllSized(l.Of(!toSmall));
  }

  /** The size field is written without a check: every marker tells the size of its payload exactly
      when the metadata fits. */
  lemma FinishSized(ds: seq<Drain>, s: Setup)
    requires s.chunk > 0
    ensures var l := FinishLogs(CaptureLogs(ds, s), s.json);
            AllSized(l.small) && AllSized(l.main) <==> MetadataFits(ds, s.json)
  {
    CaptureSized(ds, s);
    CaptureKeepsTrack(ds, s);
    FinishLogsSized(CaptureLogs(ds, s), s.json);
  }

  lemma FinishLogsSized(l: Logs, json: Codec<seq<string>>)
    requires AllSized(l.small) && AllSized(l.main)
    ensures var final := FinishLogs(l, json);
            AllSized(final.small) && AllSized(final.main) <==> |json.encode(l.metadata)| < 0x1_0000_0000
  {
    var bytes := json.encode(l.metadata);
    var size := |bytes| % 0x1_0000_0000;
    var l1 := l.Emit(true, Filename(METADATA_FILE), []);
    var l2 := l1.Emit(true, FileData(size), bytes);
    var l3 := l2.Emit(true, FileEof(true), []);
    EmitSized(l, true, Filename(METADATA_FILE), []);
    if |bytes| < 0x1_0000_0000 {
      EmitSized(l1, true, FileData(size), bytes);
      EmitSized(l2, true, FileEof(true), []);
      EmitSized(l3, false, ImageEof(true), []);
    } else {
      var it := l2.small[|l2.small| - 1];
      assert it in l3.small && |it.payload| != DataSize(it.marker);
    }
  }

  /** What the main shards of a finished capture carry. */
  ghost function ShipmentOf(ds: seq<Drain>, s: Setup, route: seq<nat>): Extract.Shipment
    requires s.chunk > 0
  {
    Extract.Shipment(FinishLogs(CaptureLogs(ds, s), s.json).main, route, AfterSmall(ds, s).(metadata := None))
  }

  // ---- metadata that does not fit its size field ----

  function CutSize(l: Logs, json: Codec<seq<string>>): (n: nat)
    ensures n <= |json.encode(l.metadata)| && (n == |json.encode(l.metadata)| <==> |json.encode(l.metadata)| < 0x1_0000_0000)
  {
    |json.encode(l.metadata)| % 0x1_0000_0000
  }

  /** The items up to the metadata, of which no more is read than its marker says. */
  function CutItems(l: Logs, json: Codec<seq<string>>): seq<Item> {
    var named := l.Emit(true, Filename(METADATA_FILE), []).small;
    var n := CutSize(l, json);
    named + [Item(Marker(|named|, Some(FileData(n))), json.encode(l.metadata)[..n])]
  }

  /** The item that ends the metadata file. */
  function MetadataEnd(l: Logs): Item {
    Item(Marker(|l.small| + 2, Some(FileEof(true))), [])
  }

  /** The small-file shard as its reader takes it: after the bytes that are read as the metadata come the
      rest of the metadata and its end. */
  ghost function CutParcel(l: Logs, json: Codec<seq<string>>, c: Codec<Marker>): Extract.Parcel
    requires Sendable(c, MetadataEnd(l))
  {
    Extract.Parcel(CutItems(l, json), json.encode(l.metadata)[CutSize(l, json)..] + ItemBytes(c, MetadataEnd(l)), START)
  }

  lemma FinishSmall(l: Logs, json: Codec<seq<string>>)
    ensures var named, n := l.Emit(true, Filename(METADATA_FILE), []).small, CutSize(l, json);
            var whole := Item(Marker(|named|, Some(FileData(n))), json.encode(l.metadata));
            FinishLogs(l, json).small == named + [whole] + [MetadataEnd(l)]
  {
  }

  lemma SentSnoc(c: Codec<Marker>, items: seq<Item>, it: Item)
    requires AllSendable(c, items) && Sendable(c, it)
    ensures AllSendable(c, items + [it])
    ensures Sent(c, items + [it], Zeros(|items + [it]|), 0, 0) == Sent(c, items, Zeros(|items|), 0, 0) + ItemBytes(c, it)
  {
    SentAppend(c, items, Zeros(|items|), it, 0, 0, 0);
    assert Zeros(|items + [it]|) == Zeros(|items|) + [0];
  }

  lemma CutStream(l: Logs, json: Codec<seq<string>>, c: Codec<Marker>)
    requires AllSendable(c, FinishLogs(l, json).small)
    ensures Sendable(c, MetadataEnd(l)) && AllSendable(c, CutItems(l, json))
    ensures var small := FinishLogs(l, json).small;
            Sent(c, small, Zeros(|small|), 0, 0) == Extract.SmallStream(c, CutParcel(l, json, c), 0)
  {
    var named, n := l.Emit(true, Filename(METADATA_FILE), []).small, CutSize(l, json);
    var bytes, last := json.encode(l.metadata), MetadataEnd(l);
    var whole := Item(Marker(|named|, Some(FileData(n))), bytes);
    var cut := Item(whole.marker, bytes[..n]);
    FinishSmall(l, json);
    AllButLast(c, named + [whole], last);
    AllButLast(c, named, whole);
    SentSnoc(c, named, whole);
    SentSnoc(c, named, cut);
    SentSnoc(c, named + [whole], last);
    CutBytes(Sent(c, named, Zeros(|named|), 0, 0), Frame(c, whole.marker), bytes, n, ItemBytes(c, last));
  }

  lemma AllButLast(c: Codec<Marker>, items: seq<Item>, it: Item)
    requires AllSendable(c, items + [it])
    ensures AllSendable(c, items) && Sendable(c, it)
  {
    Capture.SendableSnoc(c, items, it);
  }

  lemma CutBytes(before: Bytes, frame: Bytes, bytes: Bytes, n: nat, last: Bytes)
    requires n <= |bytes|
    ensures before + (frame + bytes) + last == before + (frame + bytes[..n]) + (bytes[n..] + last)
  {
    assert bytes == bytes[..n] + bytes[n..];
  }

  /** Metadata cut short is no metadata, so the shard is refused at that point if not before. */
  lemma CutRefused(ds: seq<Drain>, s: Setup)
    requires s.Valid() && s.json.SelfDelimiting() && Unreserved(ds) && !MetadataFits(ds, s.json)
    ensures ProcessAll(true, s.json, START, CutItems(CaptureLogs(ds, s), s.json)).Err?
  {
    var l := CaptureLogs(ds, s);
    var items, n := CutItems(l, s.json), CutSize(l, s.json);
    CaptureKeepsTrack(ds, s);
    assert l.small <= items;
    if ProcessAll(true, s.json, START, l.small).Err? {
      ErrorStays(true, s.json, START, l.small, items);
    } else {
      var o := ProcessAll(true, s.json, START, l.small).value;
      var named := l.Emit(true, Filename(METADATA_FILE), []);
      EmitProcesses(l, true, s.json, START, o, Filename(METADATA_FILE), []);
      EmitProcesses(named, true, s.json, START, SelectImgFile(o, METADATA_FILE), FileData(n),
                    s.json.encode(l.metadata)[..n]);
    }
  }

  // ---- what extraction finds ----

  ghost function ParcelOf(ds: seq<Drain>, s: Setup, c: Codec<Marker>): Extract.Parcel
    requires s.chunk > 0 && AllSendable(c, FinishLogs(CaptureLogs(ds, s), s.json).small)
  {
    var l := CaptureLogs(ds, s);
    if MetadataFits(ds, s.json) then Extract.Parcel(FinishLogs(l, s.json).small, [], START)
    else
      CutStream(l, s.json, c);
      CutParcel(l, s.json, c)
  }

  lemma ParcelReady(ds: seq<Drain>, s: Setup, c: Codec<Marker>)
    requires s.chunk > 0 && c.Lawful()
    requires var small := FinishLogs(CaptureLogs(ds, s), s.json).small;
             AllSendable(c, small) && Numbered(small)
    ensures Extract.SmallReady(c, ParcelOf(ds, s, c))
    ensures var small := FinishLogs(CaptureLogs(ds, s), s.json).small;
            Extract.SmallStream(c, ParcelOf(ds, s, c), 0) == Sent(c, small, Zeros(|small|), 0, 0)
  {
    var l := CaptureLogs(ds, s);
    var small := FinishLogs(l, s.json).small;
    CaptureSized(ds, s);
    if MetadataFits(ds, s.json) {
      FinishSized(ds, s);
      assert Sent(c, small, Zeros(|small|), 0, 0) + [] == Sent(c, small, Zeros(|small|), 0, 0);
    } else {
      CutStream(l, s.json, c);
      FinishSmall(l, s.json);
      CutNumbered(l, s.json);
      var named := l.Emit(true, Filename(METADATA_FILE), []);
      EmitSized(l, true, Filename(METADATA_FILE), []);
      SizedSnoc(named.small, CutItems(l, s.json)[|named.small|]);
    }
  }

  lemma CutNumbered(l: Logs, json: Codec<seq<string>>)
    requires Numbered(FinishLogs(l, json).small)
    ensures Numbered(CutItems(l, json))
  {
    var small, items := FinishLogs(l, json).small, CutItems(l, json);
    FinishSmall(l, json);
    assert forall k | 0 <= k < |items| :: items[k].marker == small[k].marker;
  }

  lemma MainSized(ds: seq<Drain>, s: Setup)
    requires s.chunk > 0
    ensures AllSized(FinishLogs(CaptureLogs(ds, s), s.json).main)
  {
    var l := CaptureLogs(ds, s);
    CaptureSized(ds, s);
    SizedSnoc(l.main, Item(Marker(|l.main|, Some(ImageEof(true))), []));
  }

  /** A finished capture carries its image, for whatever routing. Both streams can be processed if and only
      if no name is reused at once and the metadata fits its size field. */
  lemma CaptureCarries(ds: seq<Drain>, s: Setup, c: Codec<Marker>, slots: seq<Capture.Shard>,
                       route: seq<nat>, capacity: nat, pageSize: nat)
    requires s.Valid() && c.Lawful() && s.json.Lawful() && Unreserved(ds) && Live(ds) == {}
    requires var l := FinishLogs(CaptureLogs(ds, s), s.json);
             && Numbered(l.small) && Numbered(l.main)
             && Capture.Consistent(c, slots, l.small, l.main, route, capacity, pageSize)
    ensures Extract.Carried(c, s.json, Streams(slots), ParcelOf(ds, s, c), ShipmentOf(ds, s, route))
  {
    var l := FinishLogs(CaptureLogs(ds, s), s.json);
    ParcelReady(ds, s, c);
    MainSized(ds, s);
    if MetadataFits(ds, s.json) {
      SmallStreamExactly(ds, s);
    }
    forall i | 1 <= i < |slots| ensures Streams(slots)[i] == Sent(c, l.main, route, i, 0) {
      assert Capture.Carries(slots[i], Sent(c, l.main, route, i, 0), capacity);
    }
  }

  /** What extraction makes of it: with metadata that fits, both streams can be processed if and only if
      no name is reused at once, and then the calls made are those of the image. */
  lemma ExtractableExactly(ds: seq<Drain>, s: Setup, c: Codec<Marker>, route: seq<nat>)
    requires s.Valid() && s.json.Lawful() && s.json.SelfDelimiting() && Unreserved(ds) && Live(ds) == {}
    requires AllSendable(c, FinishLogs(CaptureLogs(ds, s), s.json).small)
    ensures var p, shipment := ParcelOf(ds, s, c), ShipmentOf(ds, s, route);
            if MetadataFits(ds, s.json) then
              && p.tail == [] && (Extract.Extractable(s.json, p, shipment) <==> NoImmediateReuse(ds))
              && (NoImmediateReuse(ds) ==>
                    && ProcessAll(true, s.json, START, p.items) == Ok(AfterSmall(ds, s))
                    && ProcessAll(false, s.json, shipment.start, shipment.log) == Ok(AfterImage(ds, s)))
            else
              ProcessAll(true, s.json, START, p.items).Err?
  {
    if MetadataFits(ds, s.json) {
      SmallStreamExactly(ds, s);
      MainStreamExactly(ds, s);
      ReuseIsInOneStream(ds, s);
    } else {
      CutRefused(ds, s);
    }
  }

  datatype Restored = Restored(calls: seq<Call>, metadata: seq<string>, bytesRead: seq<nat>, bytesWritten: seq<nat>)

  function BytesRead(slots: seq<Extract.Shard>): seq<nat> {
    seq(|slots|, i requires 0 <= i < |slots| => slots[i].bytesRead)
  }

  function BytesWritten(slots: seq<Capture.Shard>): seq<nat> {
    seq(|slots|, i requires 0 <= i < |slots| => slots[i].bytesWritten)
  }

  function Streams(slots: seq<Capture.Shard>): seq<Bytes> {
    seq(|slots|, i requires 0 <= i < |slots| => slots[i].stream)
  }

  function Lengths(pipes: seq<Bytes>): seq<nat> {
    seq(|pipes|, i requires 0 <= i < |pipes| => |pipes[i]|)
  }

  lemma WrittenIsCounted(c: Codec<Marker>, slots: seq<Capture.Shard>, small: seq<Item>, main: seq<Item>,
                         route: seq<nat>, capacity: nat, pageSize: nat)
    requires Capture.Consistent(c, slots, small, main, route, capacity, pageSize)
    ensures BytesWritten(slots) == Lengths(Streams(slots))
  {
    forall i | 0 <= i < |slots| ensures slots[i].bytesWritten == |slots[i].stream| {
      assert i > 0 ==> Capture.Carries(slots[i], Sent(c, main, route, i, 0), capacity);
    }
  }

  lemma ReadIsCounted(slots: seq<Extract.Shard>, pipes: seq<Bytes>)
    requires |slots| == |pipes| >= 2 && slots[0].bytesRead == |pipes[0]|
    requires forall i | 1 <= i < |pipes| :: slots[i].bytesRead == |pipes[i]|
    ensures BytesRead(slots) == Lengths(pipes)
  {
  }

  /** Extraction of the streams of a finished capture. */
  method ExtractPipes(codec: Codec<Marker>, json: Codec<seq<string>>, pipes: seq<Bytes>, written: seq<nat>,
                      ghost ds: seq<Drain>, ghost s: Setup, ghost route: seq<nat>) returns (r: Result<Restored>)
    requires s.Valid() && json == s.json && json.Lawful() && json.SelfDelimiting() && Unreserved(ds) && Live(ds) == {}
    requires AllSendable(codec, FinishLogs(CaptureLogs(ds, s), json).small) && written == Lengths(pipes)
    requires Extract.Carried(codec, json, pipes, ParcelOf(ds, s, codec), ShipmentOf(ds, s, route))
    ensures r.Ok? <==> NoImmediateReuse(ds) && MetadataFits(ds, json)
    ensures r.Ok? ==> r.value == Restored(ImageCalls(ds, s), EofOrder(ds), Lengths(pipes), written)
  {
    ExtractableExactly(ds, s, codec, route);
    var metadata, sink := Extract.ExtractShards(codec, json, pipes, ParcelOf(ds, s, codec), ShipmentOf(ds, s, route));
    if metadata.Err? {
      return Err(metadata.error);
    }
    ReadIsCounted(sink.slots, pipes);
    assert sink.Out() == AfterImage(ds, s);
    r := Ok(Restored(sink.calls, metadata.value, BytesRead(sink.slots), written));
  }

  /** The bytes counted are those of all markers and payloads: of the small files on the first shard, of all else
      on the others together. */
  ghost predicate AddsUp(c: Codec<Marker>, l: Logs, bytes: seq<nat>) {
    && AllSendable(c, l.small) && AllSendable(c, l.main) && |bytes| > 0
    && bytes[0] == Connected.ItemsBytes(c, l.small) && Connected.SumTo(bytes, |bytes|) == Connected.ItemsBytes(c, l.main)
  }

  /** Extraction of what a serializer has written; as many bytes are read from each shard. */
  method ExtractStreams(source: Capture.ImageSerializer, ghost ds: seq<Drain>, ghost s: Setup) returns (r: Result<Restored>)
    requires s.Valid() && source.codec.Lawful() && s.json.Lawful() && s.json.SelfDelimiting()
    requires Unreserved(ds) && Live(ds) == {}
    requires source.json == s.json && source.Valid() && source.Counted()
    requires source.Log() == FinishLogs(CaptureLogs(ds, s), s.json)
    ensures r.Ok? <==> NoImmediateReuse(ds) && MetadataFits(ds, s.json)
    ensures r.Ok? ==> r.value.calls == ImageCalls(ds, s) && r.value.metadata == EofOrder(ds)
    ensures r.Ok? ==> |r.value.bytesRead| == |source.slots| && r.value.bytesRead == r.value.bytesWritten
    ensures r.Ok? ==> AddsUp(source.codec, source.Log(), r.value.bytesWritten)
  {
    CaptureCarries(ds, s, source.codec, source.slots, source.route, source.capacity, source.pageSize);
    WrittenIsCounted(source.codec, source.slots, source.small, source.main, source.route, source.capacity, source.pageSize);
    r := ExtractPipes(source.codec, source.json, Streams(source.slots), BytesWritten(source.slots), ds, s, source.route);
    Connected.StreamsAddUp(source.codec, source.slots, source.small, source.main, source.route, source.dispatches,
                           source.capacity, source.pageSize, BytesWritten(source.slots));
  }

  /** The image has been restored from `n` shards: each file created once, inserted once, with exactly
      its bytes; the metadata in EOF order; as many bytes read from each shard as were written to it. */
  ghost predicate Faithful(ds: seq<Drain>, n: nat, r: Restored) {
    && StoreOf(r.calls) == Contents(ds) && Ordered(r.calls)
    && (forall f :: Create(f) in r.calls <==> f in Files(ds) || f == "metadata.json")
    && r.metadata == EofOrder(ds)
    && |r.bytesRead| == n && r.bytesRead == r.bytesWritten
  }

  lemma FaithfulCalls(ds: seq<Drain>, s: Setup, n: nat, r: Restored)
    requires s.Valid() && Complete(ds) && r.calls == ImageCalls(ds, s) && r.metadata == EofOrder(ds)
    requires |r.bytesRead| == n && r.bytesRead == r.bytesWritten
    ensures Faithful(ds, n, r)
  {
    ImageDelivers(ds, s);
  }

  /** The round trip, for all files drained to their end and none named as the metadata. It succeeds if
      and only if every marker fits the message limit, the metadata fits its size field, and no name is
      reused right after its file ended. Then the store has seen exactly the calls it should; when files
      are distinct it holds each of them with exactly its bytes, the metadata lists them in EOF order, and
      both ends count the same bytes shard by shard. */
  method CaptureThenExtract(codec: Codec<Marker>, isSmall: string -> bool, json: Codec<seq<string>>,
                            capacity: nat, pageSize: nat, fds: seq<int>, ds: seq<Drain>)
    returns (r: Result<Restored>)
    requires |fds| >= 2 && pageSize > 0 && codec.Lawful() && json.Lawful() && json.SelfDelimiting()
    requires isSmall(METADATA_FILE) && Unreserved(ds) && Live(ds) == {}
    ensures var s := Capture.SetupOf(isSmall, json, capacity, pageSize);
            && (r.Ok? <==> Capture.MarkersFit(codec, FinishLogs(CaptureLogs(ds, s), json))
                           && MetadataFits(ds, json) && NoImmediateReuse(ds))
            && (r.Ok? ==> r.value.calls == ImageCalls(ds, s) && r.value.metadata == EofOrder(ds))
    ensures r.Ok? ==> Legal(r.value.calls)
    ensures r.Ok? ==>
              && |r.value.bytesRead| == |fds| && r.value.bytesRead == r.value.bytesWritten
              && AddsUp(codec, FinishLogs(CaptureLogs(ds, Capture.SetupOf(isSmall, json, capacity, pageSize)), json),
                        r.value.bytesWritten)
    ensures r.Ok? && Distinct(ds) ==> Faithful(ds, |fds|, r.value)
  {
    var captured, source := Capture.CaptureImage(codec, isSmall, json, capacity, pageSize, fds, ds);
    if captured.Err? {
      return Err(captured.error);
    }
    ghost var s := Capture.SetupOf(isSmall, json, capacity, pageSize);
    r := ExtractStreams(source, ds, s);
    ImageLegal(ds, s);
    if r.Ok? && Distinct(ds) {
      FaithfulCalls(ds, s, |fds|, r.value);
    }
  }
}
