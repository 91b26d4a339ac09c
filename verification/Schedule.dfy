/** What a capture issues, as a function of the order in which image files are drained, and what
    extraction makes of it. No shard appears here: routing is the business of the serializer. */
module Schedule {
  import opened Wrappers
  import opened Sequences
  import opened Wire
  import opened Image
  import opened Reassembly

  /** One call of `drain_img_file`: the bytes that were readable, none of them at EOF. */
  datatype Drain = Drain(name: string, data: Bytes) {
    predicate AtEof() {
      data == []
    }
  }

  /** How capture is set up. Both ends share the classifier `isSmall`. */
  datatype Setup = Setup(isSmall: string -> bool, json: Codec<seq<string>>, chunk: nat) {
    ghost predicate Valid() {
      chunk > 0 && isSmall(METADATA_FILE)
    }
  }

  // ---- the markers capture issues ----

  datatype Logs = Logs(small: seq<Item>, main: seq<Item>, current: Option<string>, metadata: seq<string>) {
    function Of(toSmall: bool): seq<Item> {
      if toSmall then small else main
    }

    function Emit(toSmall: bool, body: Body, payload: Bytes): (r: Logs)
      ensures r.current == current && r.metadata == metadata && r.Of(!toSmall) == Of(!toSmall)
      ensures r.Of(toSmall) == Of(toSmall) + [Item(Marker(|Of(toSmall)|, Some(body)), payload)]
    {
      var it := Item(Marker(|Of(toSmall)|, Some(body)), payload);
      if toSmall then this.(small := small + [it]) else this.(main := main + [it])
    }
  }

  const NO_LOGS := Logs([], [], None, [])

  function Pieces(data: Bytes, chunk: nat): seq<Bytes>
    requires chunk > 0
  {
    if data == [] then []
    else if |data| <= chunk then [data]
    else [data[..chunk]] + Pieces(data[chunk..], chunk)
  }

  lemma FirstPiece(data: Bytes, chunk: nat)
    requires chunk > 0 && data != []
    ensures var n := if |data| <= chunk then |data| else chunk;
            Pieces(data, chunk) == [data[..n]] + Pieces(data[n..], chunk)
  {
    if |data| <= chunk {
      assert data[..|data|] == data && data[|data|..] == [];
    }
  }

  /** All pieces but the last are of the full size. */
  ghost predicate AllButLastFull(pieces: seq<Bytes>, chunk: nat) {
    forall i: nat | i + 1 < |pieces| :: |pieces[i]| == chunk
  }

  lemma {:induction false} PiecesAreFull(data: Bytes, chunk: nat)
    requires chunk > 0
    ensures AllButLastFull(Pieces(data, chunk), chunk)
  {
    if |data| <= chunk {
    } else {
      PiecesAreFull(data[chunk..], chunk);
    }
  }

  lemma {:induction false} PiecesFlatten(data: Bytes, chunk: nat)
    requires chunk > 0
    ensures Flatten(Pieces(data, chunk)) == data
  {
    if |data| > chunk {
      var head, tail := data[..chunk], data[chunk..];
      PiecesFlatten(tail, chunk);
      var more := Pieces(tail, chunk);
      assert ([head] + more)[1..] == more;
      assert head + tail == data;
    } else if data != [] {
      assert [data][1..] == [];
    }
  }

  function EmitPieces(l: Logs, toSmall: bool, pieces: seq<Bytes>): Logs
    decreases |pieces|
  {
    if pieces == [] then l
    else EmitPieces(l.Emit(toSmall, FileData(|pieces[0]|), pieces[0]), toSmall, pieces[1..])
  }

  function NameFile(l: Logs, toSmall: bool, name: string): Logs {
    if l.current == Some(name) then l
    else l.(current := Some(name)).Emit(toSmall, Filename(name), [])
  }

  function EndFile(l: Logs, toSmall: bool, d: Drain): Logs {
    if d.AtEof() then l.(metadata := l.metadata + [d.name]).Emit(toSmall, FileEof(true), []) else l
  }

  function DrainLogs(l: Logs, d: Drain, s: Setup): Logs
    requires s.chunk > 0
  {
    var toSmall := s.isSmall(d.name);
    EndFile(EmitPieces(NameFile(l, toSmall, d.name), toSmall, Pieces(d.data, s.chunk)), toSmall, d)
  }

  function CaptureLogs(ds: seq<Drain>, s: Setup): Logs
    requires s.chunk > 0
  {
    if ds == [] then NO_LOGS else DrainLogs(CaptureLogs(ds[..|ds| - 1], s), ds[|ds| - 1], s)
  }

  /** The metadata file. Its size goes through a 32-bit field. */
  function MetadataLogs(l: Logs, json: Codec<seq<string>>): Logs {
    var bytes := json.encode(l.metadata);
    l.Emit(true, Filename(METADATA_FILE), [])
     .Emit(true, FileData(|bytes| % 0x1_0000_0000), bytes)
     .Emit(true, FileEof(true), [])
  }

  function FinishLogs(l: Logs, json: Codec<seq<string>>): Logs {
    MetadataLogs(l, json).Emit(false, ImageEof(true), [])
  }

  // ---- the reference: no markers, no sequence numbers, no elision ----

  /** Names drained at least once since they were last at EOF. */
  function Live(ds: seq<Drain>): set<string> {
    if ds == [] then {}
    else
      var d := ds[|ds| - 1];
      if d.AtEof() then Live(ds[..|ds| - 1]) - {d.name} else Live(ds[..|ds| - 1]) + {d.name}
  }

  function LiveIn(ds: seq<Drain>, s: Setup, small: bool): set<string> {
    set n <- Live(ds) | s.isSmall(n) == small
  }

  function Writes(name: string, pieces: seq<Bytes>): seq<Call> {
    seq(|pieces|, i requires 0 <= i < |pieces| => Write(name, pieces[i]))
  }

  function DrainCalls(d: Drain, isNew: bool, chunk: nat): seq<Call>
    requires chunk > 0
  {
    (if isNew then [Create(d.name)] else [])
    + Writes(d.name, Pieces(d.data, chunk))
    + if d.AtEof() then [Insert(d.name)] else []
  }

  /** The calls a store should see from one stream: each file is created when first drained, written
      as it is drained, and inserted at its EOF. */
  function RefCalls(ds: seq<Drain>, s: Setup, small: bool): seq<Call>
    requires s.chunk > 0
  {
    if ds == [] then []
    else
      var before, d := ds[..|ds| - 1], ds[|ds| - 1];
      RefCalls(before, s, small)
      + if s.isSmall(d.name) == small then DrainCalls(d, d.name !in Live(before), s.chunk) else []
  }

  /** The names of the files in the order in which they reached EOF. */
  function EofOrder(ds: seq<Drain>): seq<string> {
    if ds == [] then []
    else EofOrder(ds[..|ds| - 1]) + if ds[|ds| - 1].AtEof() then [ds[|ds| - 1].name] else []
  }

  /** No file is captured under the reserved name. */
  ghost predicate Unreserved(ds: seq<Drain>) {
    forall d <- ds :: d.name != METADATA_FILE
  }

  /** No file is drained right after a file of the same name was at EOF. */
  ghost predicate NoImmediateReuse(ds: seq<Drain>) {
    forall i | 0 < i < |ds| && ds[i - 1].AtEof() :: ds[i].name != ds[i - 1].name
  }

  /** The same for the files of one stream. */
  ghost predicate NoReuseIn(ds: seq<Drain>, s: Setup, small: bool) {
    forall i | 0 < i < |ds| && ds[i - 1].AtEof() && s.isSmall(ds[i].name) == small :: ds[i].name != ds[i - 1].name
  }

  /** A name that is reused is reused within its stream. */
  lemma ReuseIsInOneStream(ds: seq<Drain>, s: Setup)
    ensures NoImmediateReuse(ds) <==> NoReuseIn(ds, s, true) && NoReuseIn(ds, s, false)
  {
  }

  // ---- the elided log means the reference calls ----

  lemma {:induction false} PiecesSizes(data: Bytes, chunk: nat)
    requires chunk > 0
    ensures forall p <- Pieces(data, chunk) :: 0 < |p| <= chunk
  {
    if |data| <= chunk {
    } else {
      PiecesSizes(data[chunk..], chunk);
    }
  }

  lemma {:induction false} EmitPiecesProcesses(
      l: Logs, small: bool, toSmall: bool, json: Codec<seq<string>>, o0: Output, o: Output, name: string, pieces: seq<Bytes>)
    requires ProcessAll(small, json, o0, l.Of(small)) == Ok(o)
    requires small == toSmall ==> o.current == Some(name) && (small ==> name != METADATA_FILE)
    ensures var r := EmitPieces(l, toSmall, pieces);
            && r.current == l.current && r.metadata == l.metadata
            && ProcessAll(small, json, o0, r.Of(small)) ==
                 Ok(if small == toSmall then o.(calls := o.calls + Writes(name, pieces)) else o)
    decreases |pieces|
  {
    if pieces == [] {
      assert o.calls + Writes(name, []) == o.calls;
    } else {
      var l' := l.Emit(toSmall, FileData(|pieces[0]|), pieces[0]);
      var o' := if small == toSmall then o.(calls := o.calls + [Write(name, pieces[0])]) else o;
      if small == toSmall {
        ProcessSnoc(small, json, o0, l.Of(small), l'.Of(small)[|l.Of(small)|]);
      }
      EmitPiecesProcesses(l', small, toSmall, json, o0, o', name, pieces[1..]);
      assert o.calls + Writes(name, pieces) == o.calls + [Write(name, pieces[0])] + Writes(name, pieces[1..]);
    }
  }

  /** What holds of each stream after every drain. `o` is the state of a deserializer that has
      processed the whole stream so far, starting from `o0`. */
  ghost predicate Agrees(ds: seq<Drain>, s: Setup, small: bool, o0: Output, o: Output)
    requires s.chunk > 0
  {
    var called := o.calls == o0.calls + RefCalls(ds, s, small);
    var kept := o.imageEof == o0.imageEof && o.metadata == o0.metadata;
    var held := o.Held() == LiveIn(ds, s, small) && (o.current.Some? ==> o.current.value !in o.open);
    var atHand := ds == [] || s.isSmall(ds[|ds| - 1].name) != small
                  || o.current == if ds[|ds| - 1].AtEof() then None else Some(ds[|ds| - 1].name);
    called && kept && held && atHand
  }

  /** A deserializer with no file at hand, as at the start of either pass. */
  ghost predicate Idle(o: Output) {
    o.current == None && o.open == {}
  }

  lemma {:induction false} EmitPiecesGrow(l: Logs, toSmall: bool, small: bool, pieces: seq<Bytes>)
    ensures l.Of(small) <= EmitPieces(l, toSmall, pieces).Of(small)
    decreases |pieces|
  {
    if pieces == [] {
    } else {
      EmitPiecesGrow(l.Emit(toSmall, FileData(|pieces[0]|), pieces[0]), toSmall, small, pieces[1..]);
    }
  }

  lemma SplitLast(ds: seq<Drain>, d: Drain)
    ensures (ds + [d])[..|ds|] == ds
  {
  }

  lemma EmitProcesses(
      l: Logs, small: bool, json: Codec<seq<string>>, o0: Output, o: Output, body: Body, payload: Bytes)
    requires ProcessAll(small, json, o0, l.Of(small)) == Ok(o)
    ensures ProcessAll(small, json, o0, l.Emit(small, body, payload).Of(small)) ==
            if small then ProcessSmall(o, Some(body), payload, json) else Process(o, Some(body), payload, true)
  {
    ProcessSnoc(small, json, o0, l.Of(small), Item(Marker(|l.Of(small)|, Some(body)), payload));
  }

  lemma NameFileProcesses(l: Logs, small: bool, json: Codec<seq<string>>, o0: Output, o: Output, name: string)
    requires ProcessAll(small, json, o0, l.Of(small)) == Ok(o)
    requires l.current == Some(name) ==> o.current == Some(name)
    requires o.current.Some? ==> o.current.value !in o.open
    ensures var r := NameFile(l, small, name);
            && r.current == Some(name) && r.metadata == l.metadata
            && ProcessAll(small, json, o0, r.Of(small)) == Ok(SelectImgFile(o, name))
  {
    if l.current != Some(name) {
      EmitProcesses(l.(current := Some(name)), small, json, o0, o, Filename(name), []);
    } else {
      assert SelectImgFile(o, name) == o;
    }
  }

  lemma EndFileProcesses(l: Logs, small: bool, json: Codec<seq<string>>, o0: Output, o: Output, d: Drain)
    requires ProcessAll(small, json, o0, l.Of(small)) == Ok(o)
    requires o.current == Some(d.name) && d.name != METADATA_FILE
    ensures ProcessAll(small, json, o0, EndFile(l, small, d).Of(small)) ==
            Ok(if d.AtEof() then o.(current := None, calls := o.calls + [Insert(d.name)]) else o)
  {
    if d.AtEof() {
      EmitProcesses(l.(metadata := l.metadata + [d.name]), small, json, o0, o, FileEof(true), []);
    }
  }

  /** One drain, seen from the stream it does not write to. */
  lemma OtherDrainProcesses(l: Logs, d: Drain, s: Setup, small: bool)
    requires s.chunk > 0 && s.isSmall(d.name) != small
    ensures DrainLogs(l, d, s).Of(small) == l.Of(small)
  {
    EmitPiecesOther(NameFile(l, !small, d.name), small, Pieces(d.data, s.chunk));
  }

  lemma {:induction false} EmitPiecesOther(l: Logs, small: bool, pieces: seq<Bytes>)
    ensures var r := EmitPieces(l, !small, pieces);
            r.Of(small) == l.Of(small) && r.current == l.current && r.metadata == l.metadata
    decreases |pieces|
  {
    if pieces == [] {
    } else {
      EmitPiecesOther(l.Emit(!small, FileData(|pieces[0]|), pieces[0]), small, pieces[1..]);
    }
  }

  /** The effect of one drain on a deserializer that follows its stream. */
  function DrainOutput(o: Output, d: Drain, chunk: nat): Output
    requires chunk > 0
  {
    var named := SelectImgFile(o, d.name);
    var written := named.(calls := named.calls + Writes(d.name, Pieces(d.data, chunk)));
    if d.AtEof() then written.(current := None, calls := written.calls + [Insert(d.name)]) else written
  }

  lemma DrainOutputMeans(o: Output, d: Drain, chunk: nat)
    requires chunk > 0 && (o.current.Some? ==> o.current.value !in o.open)
    ensures var r := DrainOutput(o, d, chunk);
            && r.calls == o.calls + DrainCalls(d, d.name !in o.Held(), chunk)
            && r.Held() == (if d.AtEof() then o.Held() - {d.name} else o.Held() + {d.name})
            && r.current == (if d.AtEof() then None else Some(d.name))
            && (r.current.Some? ==> r.current.value !in r.open)
            && r.imageEof == o.imageEof && r.metadata == o.metadata
  {
  }

  /** One drain, seen from the stream it writes to: its elided markers have that effect. */
  lemma OwnDrainProcesses(l: Logs, d: Drain, s: Setup, small: bool, o0: Output, o: Output)
    requires s.chunk > 0 && s.isSmall(d.name) == small && d.name != METADATA_FILE
    requires ProcessAll(small, s.json, o0, l.Of(small)) == Ok(o)
    requires l.current == Some(d.name) ==> o.current == Some(d.name)
    requires o.current.Some? ==> o.current.value !in o.open
    ensures ProcessAll(small, s.json, o0, DrainLogs(l, d, s).Of(small)) == Ok(DrainOutput(o, d, s.chunk))
  {
    var pieces := Pieces(d.data, s.chunk);
    NameFileProcesses(l, small, s.json, o0, o, d.name);
    var l1, o1 := NameFile(l, small, d.name), SelectImgFile(o, d.name);
    EmitPiecesProcesses(l1, small, small, s.json, o0, o1, d.name, pieces);
    var l2, o2 := EmitPieces(l1, small, pieces), o1.(calls := o1.calls + Writes(d.name, pieces));
    EndFileProcesses(l2, small, s.json, o0, o2, d);
  }

  lemma LiveSnoc(ds: seq<Drain>, d: Drain, s: Setup, small: bool)
    ensures LiveIn(ds + [d], s, small) ==
            if s.isSmall(d.name) != small then LiveIn(ds, s, small)
            else if d.AtEof() then LiveIn(ds, s, small) - {d.name}
            else LiveIn(ds, s, small) + {d.name}
  {
    SplitLast(ds, d);
  }

  lemma RefCallsSnoc(ds: seq<Drain>, d: Drain, s: Setup, small: bool)
    requires s.chunk > 0
    ensures RefCalls(ds + [d], s, small) ==
            RefCalls(ds, s, small)
            + if s.isSmall(d.name) == small then DrainCalls(d, d.name !in LiveIn(ds, s, small), s.chunk) else []
  {
    SplitLast(ds, d);
  }

  lemma AgreesAfterOwn(ds: seq<Drain>, d: Drain, s: Setup, small: bool, o0: Output, o: Output)
    requires s.chunk > 0 && Agrees(ds, s, small, o0, o) && s.isSmall(d.name) == small
    ensures Agrees(ds + [d], s, small, o0, DrainOutput(o, d, s.chunk))
  {
    LiveSnoc(ds, d, s, small);
    RefCallsSnoc(ds, d, s, small);
    DrainOutputMeans(o, d, s.chunk);
    Associate(o0.calls, RefCalls(ds, s, small), DrainCalls(d, d.name !in o.Held(), s.chunk));
    assert (ds + [d])[|ds|] == d;
  }

  lemma AgreesAfterOther(ds: seq<Drain>, d: Drain, s: Setup, small: bool, o0: Output, o: Output)
    requires s.chunk > 0 && Agrees(ds, s, small, o0, o) && s.isSmall(d.name) != small
    ensures Agrees(ds + [d], s, small, o0, o)
  {
    LiveSnoc(ds, d, s, small);
    RefCallsSnoc(ds, d, s, small);
    assert RefCalls(ds, s, small) + [] == RefCalls(ds, s, small);
    assert (ds + [d])[|ds|] == d;
  }

  lemma {:induction false} CaptureKeepsTrack(ds: seq<Drain>, s: Setup)
    requires s.chunk > 0
    ensures CaptureLogs(ds, s).current == if ds == [] then None else Some(ds[|ds| - 1].name)
    ensures CaptureLogs(ds, s).metadata == EofOrder(ds)
  {
    if ds == [] {
    } else {
      var before, d := ds[..|ds| - 1], ds[|ds| - 1];
      CaptureKeepsTrack(before, s);
      var toSmall := s.isSmall(d.name);
      EmitPiecesOther(NameFile(CaptureLogs(before, s), toSmall, d.name), !toSmall, Pieces(d.data, s.chunk));
    }
  }

  lemma AgreesAtStart(s: Setup, small: bool, o0: Output)
    requires s.chunk > 0 && Idle(o0)
    ensures Agrees([], s, small, o0, o0)
  {
    assert LiveIn([], s, small) == {} == o0.Held();
  }

  /** One drain, whichever stream it writes to. */
  lemma DrainProcesses(ds: seq<Drain>, d: Drain, s: Setup, small: bool, l: Logs, o0: Output, o: Output)
    returns (o': Output)
    requires s.chunk > 0 && d.name != METADATA_FILE && Agrees(ds, s, small, o0, o)
    requires ProcessAll(small, s.json, o0, l.Of(small)) == Ok(o)
    requires s.isSmall(d.name) == small && l.current == Some(d.name) ==> o.current == Some(d.name)
    ensures ProcessAll(small, s.json, o0, DrainLogs(l, d, s).Of(small)) == Ok(o')
    ensures Agrees(ds + [d], s, small, o0, o')
  {
    if s.isSmall(d.name) == small {
      OwnDrainProcesses(l, d, s, small, o0, o);
      AgreesAfterOwn(ds, d, s, small, o0, o);
      o' := DrainOutput(o, d, s.chunk);
    } else {
      OtherDrainProcesses(l, d, s, small);
      AgreesAfterOther(ds, d, s, small, o0, o);
      o' := o;
    }
  }

  /** Elision is sound: processing either stream of elided markers makes exactly the reference calls. */
  lemma {:induction false} StreamProcesses(ds: seq<Drain>, s: Setup, small: bool, o0: Output) returns (o: Output)
    requires s.chunk > 0 && Unreserved(ds) && NoReuseIn(ds, s, small) && Idle(o0)
    ensures ProcessAll(small, s.json, o0, CaptureLogs(ds, s).Of(small)) == Ok(o)
    ensures Agrees(ds, s, small, o0, o)
  {
    if ds == [] {
      o := o0;
      AgreesAtStart(s, small, o0);
    } else {
      var before, d := ds[..|ds| - 1], ds[|ds| - 1];
      assert ds == before + [d];
      var b := StreamProcesses(before, s, small, o0);
      ElidedNameIsCurrent(before, d, s, small, o0, b);
      o := DrainProcesses(before, d, s, small, CaptureLogs(before, s), o0, b);
    }
  }

  /** When a name is left out, the deserializer that follows the stream has that file at hand. */
  lemma ElidedNameIsCurrent(ds: seq<Drain>, d: Drain, s: Setup, small: bool, o0: Output, o: Output)
    requires s.chunk > 0 && Agrees(ds, s, small, o0, o) && NoReuseIn(ds + [d], s, small)
    ensures s.isSmall(d.name) == small && CaptureLogs(ds, s).current == Some(d.name) ==> o.current == Some(d.name)
  {
    CaptureKeepsTrack(ds, s);
    if ds != [] {
      var last := ds[|ds| - 1];
      assert (ds + [d])[|ds| - 1] == last && (ds + [d])[|ds|] == d;
      SplitLast(ds[..|ds| - 1], last);
      assert ds == ds[..|ds| - 1] + [last];
      LiveSnoc(ds[..|ds| - 1], last, s, small);
    }
  }

  lemma DrainGrows(l: Logs, d: Drain, s: Setup, small: bool)
    requires s.chunk > 0
    ensures l.Of(small) <= DrainLogs(l, d, s).Of(small)
  {
    var toSmall := s.isSmall(d.name);
    EmitPiecesGrow(NameFile(l, toSmall, d.name), toSmall, small, Pieces(d.data, s.chunk));
  }

  lemma {:induction false} LogsGrow(ds: seq<Drain>, s: Setup, small: bool, k: nat)
    requires s.chunk > 0 && k <= |ds|
    ensures CaptureLogs(ds[..k], s).Of(small) <= CaptureLogs(ds, s).Of(small)
  {
    if k < |ds| {
      var before := ds[..|ds| - 1];
      assert before[..k] == ds[..k];
      LogsGrow(before, s, small, k);
      DrainGrows(CaptureLogs(before, s), ds[|ds| - 1], s, small);
    } else {
      assert ds[..k] == ds;
    }
  }
}
