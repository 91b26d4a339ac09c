/** What a whole captured image delivers: each file once, with exactly its bytes. */
module Delivery {
  import opened Wrappers
  import opened Sequences
  import opened Wire
  import opened Image
  import opened Reassembly
  import opened Schedule
  import opened Elision

  /** Files have distinct names: nothing is drained under a name that has been at EOF. */
  ghost predicate Distinct(ds: seq<Drain>) {
    forall i, j | 0 <= i < j < |ds| && ds[i].AtEof() :: ds[i].name != ds[j].name
  }

  /** The bytes that went through the pipe of file `name`. */
  function Content(ds: seq<Drain>, name: string): Bytes {
    if ds == [] then []
    else Content(ds[..|ds| - 1], name) + if ds[|ds| - 1].name == name then ds[|ds| - 1].data else []
  }

  function Files(ds: seq<Drain>): set<string> {
    set d <- ds :: d.name
  }

  function Contents(ds: seq<Drain>): map<string, Bytes> {
    map n <- Files(ds) :: Content(ds, n)
  }

  /** The images capture is meant for: distinct files, none with the reserved name, all at EOF. */
  ghost predicate Complete(ds: seq<Drain>) {
    Distinct(ds) && Unreserved(ds) && Live(ds) == {}
  }

  // ---- one drain ----

  lemma WritesCons(name: string, pieces: seq<Bytes>)
    requires pieces != []
    ensures Writes(name, pieces) == [Write(name, pieces[0])] + Writes(name, pieces[1..])
    ensures Create(name) !in Writes(name, pieces[1..])
  {
  }

  lemma OneWrite(name: string, data: Bytes)
    ensures FileBytes([Write(name, data)], name) == data
  {
    assert [Write(name, data)][..0] == [];
    assert [] + data == data;
  }

  lemma {:induction false} FileBytesOfWrites(name: string, pieces: seq<Bytes>)
    ensures FileBytes(Writes(name, pieces), name) == Flatten(pieces)
  {
    if pieces == [] {
    } else {
      var rest := pieces[1..];
      FileBytesOfWrites(name, rest);
      WritesCons(name, pieces);
      OneWrite(name, pieces[0]);
      FileBytesConcat([Write(name, pieces[0])], Writes(name, rest), name);
    }
  }

  lemma DrainCallsBytes(d: Drain, isNew: bool, chunk: nat)
    requires chunk > 0
    ensures FileBytes(DrainCalls(d, isNew, chunk), d.name) == d.data
    ensures Create(d.name) in DrainCalls(d, isNew, chunk) <==> isNew
    ensures Insert(d.name) in DrainCalls(d, isNew, chunk) <==> d.AtEof()
    ensures forall c <- DrainCalls(d, isNew, chunk) :: c.name == d.name
  {
    var start := if isNew then [Create(d.name)] else [];
    var writes := Writes(d.name, Pieces(d.data, chunk));
    var end := if d.AtEof() then [Insert(d.name)] else [];
    assert FileBytes(writes, d.name) == d.data by {
      FileBytesOfWrites(d.name, Pieces(d.data, chunk));
      PiecesFlatten(d.data, chunk);
    }
    DrainPartsBytes(start, writes, end, d.name);
    assert forall c <- writes :: c.Write? && c.name == d.name;
  }

  lemma DrainPartsBytes(start: seq<Call>, writes: seq<Call>, end: seq<Call>, name: string)
    requires |start| <= 1 && (forall c <- start :: c.Create?) && |end| <= 1 && (forall c <- end :: c.Insert?)
    requires Create(name) !in writes
    ensures FileBytes(start + writes + end, name) == FileBytes(writes, name)
  {
    FileBytesConcat(start, writes, name);
    FileBytesConcat(start + writes, end, name);
    NoBytes(start, name);
    NoBytes(end, name);
    var bytes := FileBytes(writes, name);
    assert [] + bytes + [] == bytes;
  }

  lemma NoBytes(calls: seq<Call>, name: string)
    requires |calls| <= 1 && forall c <- calls :: !c.Write?
    ensures FileBytes(calls, name) == []
  {
    assert calls != [] ==> calls[..0] == [];
  }

  lemma {:induction false} WritesOrdered(before: seq<Call>, name: string, pieces: seq<Bytes>)
    requires Ordered(before) && Create(name) in before && Insert(name) !in before
    ensures Ordered(before + Writes(name, pieces))
  {
    if pieces == [] {
      assert before + Writes(name, pieces) == before;
    } else {
      var front, last := pieces[..|pieces| - 1], pieces[|pieces| - 1];
      WritesOrdered(before, name, front);
      OrderedSnoc(before + Writes(name, front), Write(name, last));
      assert Writes(name, pieces) == Writes(name, front) + [Write(name, last)];
      Associate(before, Writes(name, front), [Write(name, last)]);
    }
  }

  lemma DrainCallsOrdered(before: seq<Call>, d: Drain, isNew: bool, chunk: nat)
    requires chunk > 0 && Ordered(before) && Insert(d.name) !in before
    requires if isNew then forall c <- before :: c.name != d.name else Create(d.name) in before
    ensures Ordered(before + DrainCalls(d, isNew, chunk))
  {
    var start := if isNew then [Create(d.name)] else [];
    var writes := Writes(d.name, Pieces(d.data, chunk));
    var end := if d.AtEof() then [Insert(d.name)] else [];
    OrderedSnocIf(before, isNew, Create(d.name));
    assert Create(d.name) in before + start && Insert(d.name) !in before + start;
    WritesOrdered(before + start, d.name, Pieces(d.data, chunk));
    assert Create(d.name) in before + start + writes && Insert(d.name) !in before + start + writes;
    OrderedSnocIf(before + start + writes, d.AtEof(), Insert(d.name));
    AssociateLast(before, start, writes, end);
  }

  lemma OrderedSnocIf(before: seq<Call>, b: bool, call: Call)
    requires Ordered(before) && (b ==> Allowed(before, call))
    ensures Ordered(before + if b then [call] else [])
  {
    if b {
      OrderedSnoc(before, call);
    } else {
      assert before + [] == before;
    }
  }

  // ---- one stream ----

  lemma {:induction false} LiveMeans(ds: seq<Drain>, name: string)
    requires Distinct(ds)
    ensures name in Live(ds) <==> name in Files(ds) && Drain(name, []) !in ds
  {
    if ds == [] {
    } else {
      var before, d := ds[..|ds| - 1], ds[|ds| - 1];
      LiveMeans(before, name);
      assert ds == before + [d];
      assert Drain(d.name, []) !in before;
    }
  }

  /** The calls create file `name`, write its bytes and insert it, as far as the drains say so. */
  ghost predicate Delivered(calls: seq<Call>, ds: seq<Drain>, name: string) {
    var bytes := FileBytes(calls, name) == Content(ds, name);
    var created := Create(name) in calls <==> name in Files(ds);
    var inserted := Insert(name) in calls <==> Drain(name, []) in ds;
    bytes && created && inserted
  }

  lemma ContentSnoc(ds: seq<Drain>, d: Drain, name: string)
    ensures Content(ds + [d], name) == Content(ds, name) + if d.name == name then d.data else []
  {
    SplitLast(ds, d);
  }

  lemma DeliveredOwn(calls: seq<Call>, before: seq<Drain>, d: Drain, chunk: nat)
    requires chunk > 0 && Distinct(before + [d]) && Delivered(calls, before, d.name)
    ensures Delivered(calls + DrainCalls(d, d.name !in Live(before), chunk), before + [d], d.name)
  {
    DistinctBefore(before, d);
    LiveMeans(before, d.name);
    FreshIsEmpty(before, d.name);
    DrainDelivers(calls, d, d.name !in Live(before), chunk);
    ContentSnoc(before, d, d.name);
    FilesSnoc(before, d);
  }

  lemma DeliveredOther(calls: seq<Call>, before: seq<Drain>, d: Drain, isNew: bool, chunk: nat, name: string)
    requires chunk > 0 && d.name != name && Delivered(calls, before, name)
    ensures Delivered(calls, before + [d], name)
    ensures Delivered(calls + DrainCalls(d, isNew, chunk), before + [d], name)
  {
    OtherDrainDelivers(calls, d, isNew, chunk, name);
    ContentSnoc(before, d, name);
    FilesSnoc(before, d);
  }

  lemma DistinctBefore(before: seq<Drain>, d: Drain)
    requires Distinct(before + [d])
    ensures Distinct(before) && Drain(d.name, []) !in before
  {
    var ds := before + [d];
    assert forall i | 0 <= i < |before| :: before[i] == ds[i];
    assert forall i | 0 <= i < |before| && ds[i].AtEof() :: ds[i].name != ds[|before|].name;
  }

  /** The reference calls of one stream, for distinct files. */
  lemma {:induction false} RefCallsDeliver(ds: seq<Drain>, s: Setup, small: bool, name: string)
    requires s.chunk > 0 && Distinct(ds) && s.isSmall(name) == small
    ensures Delivered(RefCalls(ds, s, small), ds, name)
  {
    if ds == [] {
    } else {
      var before, d := ds[..|ds| - 1], ds[|ds| - 1];
      assert ds == before + [d];
      RefCallsDeliver(before, s, small, name);
      var calls := RefCalls(before, s, small);
      if d.name == name {
        DeliveredOwn(calls, before, d, s.chunk);
      } else {
        DeliveredOther(calls, before, d, d.name !in Live(before), s.chunk, name);
        assert calls + [] == calls;
      }
    }
  }

  lemma DrainDelivers(calls: seq<Call>, d: Drain, isNew: bool, chunk: nat)
    requires chunk > 0 && (isNew ==> FileBytes(calls, d.name) == [])
    ensures var r := calls + DrainCalls(d, isNew, chunk);
            && FileBytes(r, d.name) == FileBytes(calls, d.name) + d.data
            && (Create(d.name) in r <==> isNew || Create(d.name) in calls)
            && (Insert(d.name) in r <==> d.AtEof() || Insert(d.name) in calls)
  {
    DrainCallsBytes(d, isNew, chunk);
    FileBytesConcat(calls, DrainCalls(d, isNew, chunk), d.name);
  }

  lemma OtherDrainDelivers(calls: seq<Call>, d: Drain, isNew: bool, chunk: nat, name: string)
    requires chunk > 0 && name != d.name
    ensures var r := calls + DrainCalls(d, isNew, chunk);
            && FileBytes(r, name) == FileBytes(calls, name)
            && (Create(name) in r <==> Create(name) in calls)
            && (Insert(name) in r <==> Insert(name) in calls)
  {
    DrainCallsBytes(d, isNew, chunk);
    FileBytesConcat(calls, DrainCalls(d, isNew, chunk), name);
    FileBytesOfOthers(DrainCalls(d, isNew, chunk), name);
  }

  lemma {:induction false} FreshIsEmpty(ds: seq<Drain>, name: string)
    ensures name !in Files(ds) ==> Content(ds, name) == []
  {
    if ds == [] {
    } else {
      FreshIsEmpty(ds[..|ds| - 1], name);
    }
  }

  lemma FilesSnoc(ds: seq<Drain>, d: Drain)
    ensures Files(ds + [d]) == Files(ds) + {d.name}
  {
    assert forall x <- ds :: x in ds + [d];
    assert d in ds + [d];
  }

  lemma {:induction false} RefCallsNames(ds: seq<Drain>, s: Setup, small: bool)
    requires s.chunk > 0
    ensures forall c <- RefCalls(ds, s, small) :: c.name in Files(ds) && s.isSmall(c.name) == small
  {
    if ds == [] {
    } else {
      var before, d := ds[..|ds| - 1], ds[|ds| - 1];
      RefCallsNames(before, s, small);
      DrainCallsBytes(d, d.name !in LiveIn(before, s, small), s.chunk);
      FilesSnoc(before, d);
      RefCallsSnoc(before, d, s, small);
      assert ds == before + [d];
    }
  }

  lemma {:induction false} RefCallsOrdered(ds: seq<Drain>, s: Setup, small: bool)
    requires s.chunk > 0 && Distinct(ds)
    ensures Ordered(RefCalls(ds, s, small))
  {
    if ds == [] {
    } else {
      var before, d := ds[..|ds| - 1], ds[|ds| - 1];
      assert ds == before + [d];
      RefCallsOrdered(before, s, small);
      if s.isSmall(d.name) == small {
        RefCallsDeliver(before, s, small, d.name);
        RefCallsNames(before, s, small);
        LiveMeans(before, d.name);
        assert Drain(d.name, []) !in before;
        DrainCallsOrdered(RefCalls(before, s, small), d, d.name !in Live(before), s.chunk);
      } else {
        assert RefCalls(ds, s, small) == RefCalls(before, s, small);
      }
    }
  }

  // ---- the whole image ----

  /** Every call an extraction of the image makes: the small files, the metadata file (created, and
      never inserted), the large files. */
  function ImageCalls(ds: seq<Drain>, s: Setup): seq<Call>
    requires s.chunk > 0
  {
    RefCalls(ds, s, true) + [Create(METADATA_FILE)] + RefCalls(ds, s, false)
  }

  lemma {:induction false} WritesLegal(before: seq<Call>, name: string, pieces: seq<Bytes>)
    requires Legal(before) && name in OpenAfter(before)
    ensures Legal(before + Writes(name, pieces)) && OpenAfter(before + Writes(name, pieces)) == OpenAfter(before)
  {
    if pieces == [] {
      assert before + Writes(name, pieces) == before;
    } else {
      var front, last := pieces[..|pieces| - 1], pieces[|pieces| - 1];
      WritesLegal(before, name, front);
      LegalSnoc(before + Writes(name, front), Write(name, last));
      assert Writes(name, pieces) == Writes(name, front) + [Write(name, last)];
      Associate(before, Writes(name, front), [Write(name, last)]);
    }
  }

  lemma DrainCallsLegal(before: seq<Call>, d: Drain, isNew: bool, chunk: nat)
    requires chunk > 0 && Legal(before) && (isNew <==> d.name !in OpenAfter(before))
    ensures Legal(before + DrainCalls(d, isNew, chunk))
    ensures OpenAfter(before + DrainCalls(d, isNew, chunk)) ==
              if d.AtEof() then OpenAfter(before) - {d.name} else OpenAfter(before) + {d.name}
  {
    var start := if isNew then [Create(d.name)] else [];
    var writes := Writes(d.name, Pieces(d.data, chunk));
    var end := if d.AtEof() then [Insert(d.name)] else [];
    if isNew {
      LegalSnoc(before, Create(d.name));
    } else {
      assert before + start == before;
    }
    WritesLegal(before + start, d.name, Pieces(d.data, chunk));
    if d.AtEof() {
      LegalSnoc(before + start + writes, Insert(d.name));
    } else {
      assert before + start + writes + end == before + start + writes;
    }
    AssociateLast(before, start, writes, end);
  }

  /** Also where names are used again: a store is asked nothing it may not be asked, and the files left open
      are those still being drained. */
  lemma {:induction false} RefCallsLegal(ds: seq<Drain>, s: Setup, small: bool)
    requires s.chunk > 0
    ensures Legal(RefCalls(ds, s, small)) && OpenAfter(RefCalls(ds, s, small)) == LiveIn(ds, s, small)
  {
    if ds == [] {
    } else {
      var before, d := ds[..|ds| - 1], ds[|ds| - 1];
      var calls := RefCalls(before, s, small);
      assert ds == before + [d];
      RefCallsLegal(before, s, small);
      LiveSnoc(before, d, s, small);
      RefCallsSnoc(before, d, s, small);
      if s.isSmall(d.name) == small {
        DrainCallsLegal(calls, d, d.name !in OpenAfter(calls), s.chunk);
      } else {
        assert calls + [] == calls;
      }
    }
  }

  /** The calls of a whole image are legal, distinct files or not. */
  lemma ImageLegal(ds: seq<Drain>, s: Setup)
    requires s.Valid() && Unreserved(ds) && Live(ds) == {}
    ensures Legal(ImageCalls(ds, s)) && OpenAfter(ImageCalls(ds, s)) == {METADATA_FILE}
  {
    var a, b := RefCalls(ds, s, true), RefCalls(ds, s, false);
    assert LiveIn(ds, s, true) == {} && LiveIn(ds, s, false) == {};
    RefCallsLegal(ds, s, true);
    RefCallsLegal(ds, s, false);
    assert OpenAfter(a) == OpenAfter(b) == {};
    LegalSnoc(a, Create(METADATA_FILE));
    assert forall c <- b :: c.name != METADATA_FILE by { RefCallsNames(ds, s, false); }
    LegalConcat(a + [Create(METADATA_FILE)], b);
  }

  lemma ImageOrdered(ds: seq<Drain>, s: Setup)
    requires s.Valid() && Distinct(ds) && Unreserved(ds)
    ensures Ordered(ImageCalls(ds, s))
  {
    var a, b := RefCalls(ds, s, true), RefCalls(ds, s, false);
    RefCallsOrdered(ds, s, true);
    RefCallsOrdered(ds, s, false);
    RefCallsNames(ds, s, true);
    RefCallsNames(ds, s, false);
    assert forall c <- a :: c.name != METADATA_FILE;
    OrderedSnoc(a, Create(METADATA_FILE));
    OrderedConcat(a + [Create(METADATA_FILE)], b);
  }

  lemma ImageDeliversOne(ds: seq<Drain>, s: Setup, name: string)
    requires s.Valid() && Complete(ds)
    ensures var calls := ImageCalls(ds, s);
            && (Create(name) in calls <==> name in Files(ds) || name == METADATA_FILE)
            && (Insert(name) in calls <==> name in Files(ds))
            && FileBytes(calls, name) == Content(ds, name)
  {
    var a, m, b := RefCalls(ds, s, true), [Create(METADATA_FILE)], RefCalls(ds, s, false);
    RefCallsDeliver(ds, s, s.isSmall(name), name);
    RefCallsNames(ds, s, true);
    RefCallsNames(ds, s, false);
    LiveMeans(ds, name);
    FreshIsEmpty(ds, name);
    FileBytesConcat(a, m, name);
    FileBytesConcat(a + m, b, name);
    assert FileBytes(m, name) == [] by { assert m[..0] == []; }
    if s.isSmall(name) {
      FileBytesOfOthers(b, name);
    } else {
      FileBytesOfOthers(a, name);
    }
  }

  /** Delivery: each file is created once and inserted once, with its writes in between, and its
      bytes in the store are exactly the bytes that were captured. */
  lemma ImageDelivers(ds: seq<Drain>, s: Setup)
    requires s.Valid() && Complete(ds)
    ensures Ordered(ImageCalls(ds, s))
    ensures StoreOf(ImageCalls(ds, s)) == Contents(ds)
    ensures forall n :: Create(n) in ImageCalls(ds, s) <==> n in Files(ds) || n == METADATA_FILE
  {
    ImageOrdered(ds, s);
    forall n
      ensures Create(n) in ImageCalls(ds, s) <==> n in Files(ds) || n == METADATA_FILE
      ensures Insert(n) in ImageCalls(ds, s) <==> n in Files(ds)
      ensures n in Files(ds) ==> FileBytes(ImageCalls(ds, s), n) == Content(ds, n)
    {
      ImageDeliversOne(ds, s, n);
    }
  }

  /** What a deserializer holds after the small-file shard, and after the whole image. */
  function AfterSmall(ds: seq<Drain>, s: Setup): Output
    requires s.chunk > 0
  {
    Output(None, {}, RefCalls(ds, s, true) + [Create(METADATA_FILE)], false, Some(EofOrder(ds)))
  }

  function AfterImage(ds: seq<Drain>, s: Setup): Output
    requires s.chunk > 0
  {
    Output(None, {}, ImageCalls(ds, s), true, None)
  }

  lemma SmallStreamProcesses(ds: seq<Drain>, s: Setup)
    requires s.Valid() && s.json.Lawful() && Unreserved(ds) && NoReuseIn(ds, s, true) && Live(ds) == {}
    ensures var l := FinishLogs(CaptureLogs(ds, s), s.json);
            ProcessAll(true, s.json, START, l.small) == Ok(AfterSmall(ds, s))
  {
    var l := CaptureLogs(ds, s);
    var o := StreamProcesses(ds, s, true, START);
    assert LiveIn(ds, s, true) == {};
    CaptureKeepsTrack(ds, s);
    FinishSmallProcesses(l, s.json, START, o);
    assert START.calls + RefCalls(ds, s, true) == RefCalls(ds, s, true);
  }

  lemma FinishSmallProcesses(l: Logs, json: Codec<seq<string>>, o0: Output, o: Output)
    requires json.Lawful() && ProcessAll(true, json, o0, l.small) == Ok(o)
    requires Idle(o)
    ensures ProcessAll(true, json, o0, FinishLogs(l, json).small) ==
            Ok(o.(calls := o.calls + [Create(METADATA_FILE)], metadata := Some(l.metadata)))
  {
    assert o.Held() == {};
    var bytes := json.encode(l.metadata);
    var l1 := l.Emit(true, Filename(METADATA_FILE), []);
    var o1 := o.(current := Some(METADATA_FILE), calls := o.calls + [Create(METADATA_FILE)]);
    EmitProcesses(l, true, json, o0, o, Filename(METADATA_FILE), []);
    var size := |bytes| % 0x1_0000_0000;
    EmitProcesses(l1, true, json, o0, o1, FileData(size), bytes);
    var l2 := l1.Emit(true, FileData(size), bytes);
    EmitProcesses(l2, true, json, o0, o1.(metadata := Some(l.metadata)), FileEof(true), []);
  }

  lemma MainStreamProcesses(ds: seq<Drain>, s: Setup)
    requires s.Valid() && Unreserved(ds) && NoReuseIn(ds, s, false) && Live(ds) == {}
    ensures var o, items := AfterSmall(ds, s).(metadata := None), FinishLogs(CaptureLogs(ds, s), s.json).main;
            ProcessAll(false, s.json, o, items) == Ok(AfterImage(ds, s)) && EndsOnce(s.json, o, items)
  {
    var l, o0 := CaptureLogs(ds, s), AfterSmall(ds, s).(metadata := None);
    var o := StreamProcesses(ds, s, false, o0);
    assert o.Held() == {} by { assert LiveIn(ds, s, false) == {}; }
    FinishMainProcesses(l, s.json, o0, o);
    assert o.open == {} && o.current == None;
  }

  /** The image is not at EOF before the last marker. */
  ghost predicate EndsOnce(json: Codec<seq<string>>, o: Output, items: seq<Item>) {
    Unended(json, o, items, |items|)
  }

  lemma FinishMainProcesses(l: Logs, json: Codec<seq<string>>, o0: Output, o: Output)
    requires ProcessAll(false, json, o0, l.main) == Ok(o) && o.Held() == {} && !o.imageEof
    ensures var items := FinishLogs(l, json).main;
            ProcessAll(false, json, o0, items) == Ok(o.(imageEof := true)) && EndsOnce(json, o0, items)
  {
    assert o.open == {};
    EmitProcesses(l, false, json, o0, o, ImageEof(true), []);
    var items := FinishLogs(l, json).main;
    forall k | 0 <= k < |items|
      ensures var before := ProcessAll(false, json, o0, items[..k]);
              before.Ok? && !before.value.imageEof
    {
      assert items[..k] == l.main[..k];
      NoEofYet(json, o0, l.main, k);
    }
  }

  lemma NoEofYet(json: Codec<seq<string>>, o0: Output, items: seq<Item>, k: nat)
    requires k <= |items| && ProcessAll(false, json, o0, items).Ok?
    requires !ProcessAll(false, json, o0, items).value.imageEof
    ensures var before := ProcessAll(false, json, o0, items[..k]);
            before.Ok? && !before.value.imageEof
  {
    PrefixProcesses(false, json, o0, items, k);
    if ProcessAll(false, json, o0, items[..k]).value.imageEof {
      ImageEofStays(json, o0, items, k);
      assert false;
    }
  }

  /** Each stream of a finished capture can be processed exactly when no name of its files is reused at
      once. */
  lemma SmallStreamExactly(ds: seq<Drain>, s: Setup)
    requires s.Valid() && s.json.Lawful() && Unreserved(ds) && Live(ds) == {}
    ensures var r := ProcessAll(true, s.json, START, FinishLogs(CaptureLogs(ds, s), s.json).small);
            if NoReuseIn(ds, s, true) then r == Ok(AfterSmall(ds, s)) else r.Err?
  {
    if NoReuseIn(ds, s, true) {
      SmallStreamProcesses(ds, s);
    } else {
      var l := CaptureLogs(ds, s);
      ExtractableExactlyWithoutImmediateReuse(ds, s, true, START);
      FinishGrows(l, s.json);
      ErrorStays(true, s.json, START, l.small, FinishLogs(l, s.json).small);
    }
  }

  lemma MainStreamExactly(ds: seq<Drain>, s: Setup)
    requires s.Valid() && Unreserved(ds) && Live(ds) == {}
    ensures var o, items := AfterSmall(ds, s).(metadata := None), FinishLogs(CaptureLogs(ds, s), s.json).main;
            var r := ProcessAll(false, s.json, o, items);
            if NoReuseIn(ds, s, false) then r == Ok(AfterImage(ds, s)) && EndsOnce(s.json, o, items) else r.Err?
  {
    if NoReuseIn(ds, s, false) {
      MainStreamProcesses(ds, s);
    } else {
      var l, o := CaptureLogs(ds, s), AfterSmall(ds, s).(metadata := None);
      ExtractableExactlyWithoutImmediateReuse(ds, s, false, o);
      FinishGrows(l, s.json);
      ErrorStays(false, s.json, o, l.main, FinishLogs(l, s.json).main);
    }
  }

  lemma FinishGrows(l: Logs, json: Codec<seq<string>>)
    ensures l.small <= FinishLogs(l, json).small && l.main <= FinishLogs(l, json).main
  {
  }

  lemma DistinctNoReuse(ds: seq<Drain>)
    requires Distinct(ds)
    ensures NoImmediateReuse(ds)
  {
  }

  // ---- the reserved name ----

  lemma {:induction false} MetadataNeverInserted(json: Codec<seq<string>>, o0: Output, items: seq<Item>)
    requires Insert(METADATA_FILE) !in o0.calls && ProcessAll(true, json, o0, items).Ok?
    ensures Insert(METADATA_FILE) !in ProcessAll(true, json, o0, items).value.calls
  {
    if items == [] {
    } else {
      MetadataNeverInserted(json, o0, items[..|items| - 1]);
    }
  }

  /** A file captured under the name of the metadata is taken for it: the small-file shard can be
      processed with every small file reaching the store exactly when none has that name. */
  lemma AllStoredIffUnreserved(ds: seq<Drain>, s: Setup)
    requires s.Valid() && s.json.Lawful() && Distinct(ds) && Live(ds) == {}
    ensures var r := ProcessAll(true, s.json, START, FinishLogs(CaptureLogs(ds, s), s.json).small);
            (r.Ok? && forall n <- Files(ds) | s.isSmall(n) :: Insert(n) in r.value.calls) <==> Unreserved(ds)
  {
    var items := FinishLogs(CaptureLogs(ds, s), s.json).small;
    if Unreserved(ds) {
      DistinctNoReuse(ds);
      SmallStreamProcesses(ds, s);
      forall n <- Files(ds) | s.isSmall(n) ensures Insert(n) in AfterSmall(ds, s).calls {
        RefCallsDeliver(ds, s, true, n);
        LiveMeans(ds, n);
      }
    } else {
      var d :| d in ds && d.name == METADATA_FILE;
      assert METADATA_FILE in Files(ds);
      if ProcessAll(true, s.json, START, items).Ok? {
        MetadataNeverInserted(s.json, START, items);
      }
    }
  }

  /** What capture issues for a file of that name whose bytes make one chunk. */
  lemma ReservedLogs(s: Setup, bytes: Bytes)
    requires s.Valid() && 0 < |bytes| <= s.chunk
    ensures var l1 := NO_LOGS.(current := Some(METADATA_FILE)).Emit(true, Filename(METADATA_FILE), []);
            var l2 := l1.Emit(true, FileData(|bytes|), bytes);
            CaptureLogs([Drain(METADATA_FILE, bytes), Drain(METADATA_FILE, [])], s) ==
              l2.(metadata := [METADATA_FILE]).Emit(true, FileEof(true), [])
  {
    var first, last := Drain(METADATA_FILE, bytes), Drain(METADATA_FILE, []);
    var l1 := NameFile(NO_LOGS, true, METADATA_FILE);
    var l2 := l1.Emit(true, FileData(|bytes|), bytes);
    var pieces := Pieces(bytes, s.chunk);
    assert pieces == [bytes] && pieces[1..] == [];
    assert EmitPieces(l1, true, pieces) == EmitPieces(l2, true, []);
    assert DrainLogs(NO_LOGS, first, s) == l2;
    assert DrainLogs(l2, last, s) == EndFile(l2, true, last);
    assert [first][..0] == [] && [first, last][..1] == [first];
    assert CaptureLogs([first], s) == l2;
    assert CaptureLogs([first, last], s) == DrainLogs(l2, last, s);
  }

  lemma ReservedProcesses(s: Setup)
    requires s.Valid() && s.json.Lawful() && 0 < |s.json.encode([])| <= s.chunk
    ensures var ds := [Drain(METADATA_FILE, s.json.encode([])), Drain(METADATA_FILE, [])];
            var o := SelectImgFile(START, METADATA_FILE).(metadata := Some([]), current := None);
            ProcessAll(true, s.json, START, CaptureLogs(ds, s).small) == Ok(o)
  {
    var bytes := s.json.encode([]);
    ReservedLogs(s, bytes);
    var l0 := NO_LOGS.(current := Some(METADATA_FILE));
    var l1 := l0.Emit(true, Filename(METADATA_FILE), []);
    var l2 := l1.Emit(true, FileData(|bytes|), bytes).(metadata := [METADATA_FILE]);
    var o1 := SelectImgFile(START, METADATA_FILE);
    EmitProcesses(l0, true, s.json, START, START, Filename(METADATA_FILE), []);
    EmitProcesses(l1, true, s.json, START, o1, FileData(|bytes|), bytes);
    EmitProcesses(l2, true, s.json, START, o1.(metadata := Some([])), FileEof(true), []);
  }

  /** Such a file is lost without an error when it can be parsed: here it holds an empty list. */
  lemma ReservedExample(s: Setup)
    requires s.Valid() && s.json.Lawful() && 0 < |s.json.encode([])| <= s.chunk
    ensures var ds := [Drain(METADATA_FILE, s.json.encode([])), Drain(METADATA_FILE, [])];
            var r := ProcessAll(true, s.json, START, FinishLogs(CaptureLogs(ds, s), s.json).small);
            && Distinct(ds) && Live(ds) == {} && METADATA_FILE in Files(ds)
            && r.Ok? && Insert(METADATA_FILE) !in r.value.calls
  {
    var first, last := Drain(METADATA_FILE, s.json.encode([])), Drain(METADATA_FILE, []);
    var l := CaptureLogs([first, last], s);
    assert Live([first, last]) == {} by {
      assert [first][..0] == [] && [first, last][..1] == [first];
      assert Live([first]) == {} + {METADATA_FILE};
      assert Live([first, last]) == Live([first]) - {METADATA_FILE};
    }
    assert first in [first, last];
    ReservedProcesses(s);
    FinishSmallProcesses(l, s.json, START, SelectImgFile(START, METADATA_FILE).(metadata := Some([]), current := None));
    MetadataNeverInserted(s.json, START, FinishLogs(l, s.json).small);
  }
}
