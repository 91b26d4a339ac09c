/** src/image_store/fs_parallel.rs: the image store whose files are sent, chunk by chunk, to the thread
    that serves them. */
module FsParallel {
  import opened Wrappers
  import opened Sequences
  import opened Wire
  import opened Reassembly
  import opened Schedule

  const CHUNK_SIZE := 10 * 1024 * 1024

  datatype FileContent = FileEnd | Chunk(data: Bytes)

  datatype Message = Message(name: string, content: FileContent)

  /** What a file of the store does for the memory of its chunks. */
  datatype Event = Acquired(size: nat) | SentOn(message: Message)

  /** Each chunk of a large file has its memory acquired before it is sent. */
  function LargeEvents(name: string, pieces: seq<Bytes>): seq<Event> {
    if pieces == [] then []
    else [Acquired(|pieces[0]|), SentOn(Message(name, Chunk(pieces[0])))] + LargeEvents(name, pieces[1..])
  }

  function ChunkMessages(name: string, pieces: seq<Bytes>): seq<Message> {
    seq(|pieces|, i requires 0 <= i < |pieces| => Message(name, Chunk(pieces[i])))
  }

  /** What one call on the store sends. */
  function CallMessages(call: Call): seq<Message> {
    match call
    case Create(_) => []
    case Write(name, data) => ChunkMessages(name, Pieces(data, CHUNK_SIZE))
    case Insert(name) => [Message(name, FileEnd)]
  }

  /** What the calls on files of one kind send. */
  function Messages(calls: seq<Call>, isSmall: string -> bool, small: bool): seq<Message> {
    if calls == [] then []
    else
      Messages(calls[..|calls| - 1], isSmall, small)
      + if isSmall(calls[|calls| - 1].name) == small then CallMessages(calls[|calls| - 1]) else []
  }

  /** What the store is promised: once a large file has been created, no small file is created or
      inserted any more. */
  ghost predicate SmallFirst(calls: seq<Call>, isSmall: string -> bool) {
    forall i, j | 0 <= i < j < |calls| && calls[i].Create? && !isSmall(calls[i].name) && !calls[j].Write? ::
      !isSmall(calls[j].name)
  }

  ghost predicate LargeCreated(calls: seq<Call>, isSmall: string -> bool) {
    exists c <- calls :: c.Create? && !isSmall(c.name)
  }

  lemma SmallFirstSnoc(calls: seq<Call>, call: Call, isSmall: string -> bool)
    ensures SmallFirst(calls + [call], isSmall) <==>
            SmallFirst(calls, isSmall) && (LargeCreated(calls, isSmall) && !call.Write? ==> !isSmall(call.name))
    ensures LargeCreated(calls + [call], isSmall) <==>
            LargeCreated(calls, isSmall) || (call.Create? && !isSmall(call.name))
  {
    var all := calls + [call];
    assert forall k | 0 <= k < |calls| :: all[k] == calls[k];
    assert all[|calls|] == call;
    if SmallFirst(all, isSmall) {
      assert SmallFirst(calls, isSmall);
      if c :| c in calls && c.Create? && !isSmall(c.name) {
        var i :| 0 <= i < |calls| && calls[i] == c;
        assert all[i] == c;
      }
    }
    if c :| c in calls && c.Create? && !isSmall(c.name) {
      assert c in all;
    }
    assert call in all;
  }

  lemma SmallFirstPrefix(calls: seq<Call>, k: nat, isSmall: string -> bool)
    requires k <= |calls|
    ensures SmallFirst(calls, isSmall) ==> SmallFirst(calls[..k], isSmall)
  {
  }

  /** Where the store stands after `calls`: what it has sent, and whether the small-file sender is still
      open. */
  ghost predicate Performed(calls: seq<Call>, isSmall: string -> bool, open: bool, smallSent: seq<Message>, sent: seq<Message>) {
    && SmallFirst(calls, isSmall) && (open <==> !LargeCreated(calls, isSmall))
    && smallSent == Messages(calls, isSmall, true) && sent == Messages(calls, isSmall, false)
  }

  /** Whether one more call is accepted. */
  predicate Accepts(open: bool, call: Call, isSmall: string -> bool) {
    match call
    case Create(n) => !isSmall(n) || open
    case Write(_, _) => true
    case Insert(n) => isSmall(n) == open
  }

  lemma PerformedSnoc(calls: seq<Call>, call: Call, isSmall: string -> bool, open: bool, smallSent: seq<Message>, sent: seq<Message>)
    requires Performed(calls, isSmall, open, smallSent, sent) && Allowed(calls, call)
    ensures Accepts(open, call, isSmall) <==> SmallFirst(calls + [call], isSmall)
    ensures Accepts(open, call, isSmall) ==>
              Performed(calls + [call], isSmall, open && !(call.Create? && !isSmall(call.name)),
                        smallSent + if isSmall(call.name) then CallMessages(call) else [],
                        sent + if isSmall(call.name) then [] else CallMessages(call))
  {
    SmallFirstSnoc(calls, call, isSmall);
    assert (calls + [call])[..|calls|] == calls;
    if call.Insert? && !isSmall(call.name) {
      assert Create(call.name) in calls;
    }
  }

  lemma PerformedNext(calls: seq<Call>, k: nat, isSmall: string -> bool, open: bool, smallSent: seq<Message>, sent: seq<Message>)
    requires Ordered(calls) && k < |calls| && Performed(calls[..k], isSmall, open, smallSent, sent)
    ensures SmallFirst(calls, isSmall) ==> Accepts(open, calls[k], isSmall)
    ensures Accepts(open, calls[k], isSmall) ==>
              Performed(calls[..k + 1], isSmall, open && !(calls[k].Create? && !isSmall(calls[k].name)),
                        smallSent + if isSmall(calls[k].name) then CallMessages(calls[k]) else [],
                        sent + if isSmall(calls[k].name) then [] else CallMessages(calls[k]))
  {
    TakeNext(calls, k);
    AllowedAt(calls, k);
    PerformedSnoc(calls[..k], calls[k], isSmall, open, smallSent, sent);
    SmallFirstPrefix(calls, k + 1, isSmall);
  }


  lemma FirstMessage(filename: string, toSend: Bytes, done: seq<Message>)
    requires toSend != []
    ensures var size := if |toSend| <= CHUNK_SIZE then |toSend| else CHUNK_SIZE;
            done + CallMessages(Write(filename, toSend)) ==
            done + [Message(filename, Chunk(toSend[..size]))] + CallMessages(Write(filename, toSend[size..]))
  {
    var size := if |toSend| <= CHUNK_SIZE then |toSend| else CHUNK_SIZE;
    var piece, rest := toSend[..size], Pieces(toSend[size..], CHUNK_SIZE);
    FirstPiece(toSend, CHUNK_SIZE);
    ChunkMessagesCons(filename, piece, rest);
    Associate(done, [Message(filename, Chunk(piece))], ChunkMessages(filename, rest));
  }

  /** Chunks of 10 MiB, but for the last, which is not empty and no larger. */
  lemma ChunkSizes(name: string, data: Bytes)
    ensures var ms := CallMessages(Write(name, data));
            && (forall i | 0 <= i < |ms| :: ms[i].name == name && ms[i].content.Chunk? && 0 < |ms[i].content.data| <= 10485760)
            && (forall i | 0 <= i < |ms| - 1 :: |ms[i].content.data| == 10485760)
  {
    var pieces, ms := Pieces(data, CHUNK_SIZE), CallMessages(Write(name, data));
    PiecesSizes(data, CHUNK_SIZE);
    PiecesAreFull(data, CHUNK_SIZE);
    forall i | 0 <= i < |ms|
      ensures ms[i] == Message(name, Chunk(pieces[i])) && 0 < |pieces[i]| <= 10485760
      ensures i < |ms| - 1 ==> |pieces[i]| == 10485760
    {
      assert pieces[i] in pieces;
    }
  }

  lemma FirstEvents(filename: string, toSend: Bytes, made: seq<Event>)
    requires toSend != []
    ensures var size := if |toSend| <= CHUNK_SIZE then |toSend| else CHUNK_SIZE;
            var first := [Acquired(size), SentOn(Message(filename, Chunk(toSend[..size])))];
            made + LargeEvents(filename, Pieces(toSend, CHUNK_SIZE)) ==
            made + first + LargeEvents(filename, Pieces(toSend[size..], CHUNK_SIZE))
  {
    var size := if |toSend| <= CHUNK_SIZE then |toSend| else CHUNK_SIZE;
    var piece, rest := toSend[..size], Pieces(toSend[size..], CHUNK_SIZE);
    FirstPiece(toSend, CHUNK_SIZE);
    LargeEventsCons(filename, piece, rest);
    Associate(made, [Acquired(size), SentOn(Message(filename, Chunk(piece)))], LargeEvents(filename, rest));
  }

  lemma LargeEventsCons(name: string, piece: Bytes, rest: seq<Bytes>)
    ensures LargeEvents(name, [piece] + rest) ==
            [Acquired(|piece|), SentOn(Message(name, Chunk(piece)))] + LargeEvents(name, rest)
  {
    TailOfConcat([piece], rest);
    assert [piece][1..] + rest == rest;
  }

  lemma ChunkMessagesCons(name: string, piece: Bytes, rest: seq<Bytes>)
    ensures ChunkMessages(name, [piece] + rest) == [Message(name, Chunk(piece))] + ChunkMessages(name, rest)
  {
  }

  /** The two senders are `None` once dropped. A file keeps a clone of the sender it was created with,
      which for the life of that file does the same as the original. */
  class FileSender {
    const isSmall: string -> bool
    var sender: bool
    var smallFileSender: bool

    /** What has gone into the two channels. */
    var sent: seq<Message>
    var smallSent: seq<Message>

    /** The chunks of large files, with the memory acquired for them. */
    var events: seq<Event>

    constructor (isSmall: string -> bool)
      ensures this.isSmall == isSmall && sender && smallFileSender && sent == smallSent == [] && events == []
    {
      this.isSmall := isSmall;
      sender, smallFileSender, sent, smallSent, events := true, true, [], [], [];
    }

    method CloseSenders()
      modifies this`sender, this`smallFileSender
      ensures !sender && !smallFileSender
    {
      sender, smallFileSender := false, false;
    }

    method Create(filename: string) returns (r: Result<()>)
      modifies this`smallFileSender
      ensures r.Ok? <==> if isSmall(filename) then old(smallFileSender) else sender
      ensures r.Ok? ==> smallFileSender == (old(smallFileSender) && isSmall(filename))
      ensures r.Err? ==> r == Err(Panicked)
    {
      if isSmall(filename) {
        if !smallFileSender {
          return Err(Panicked);
        }
      } else {
        if !sender {
          return Err(Panicked);
        }
        smallFileSender := false;
      }
      r := Ok(());
    }

    method Insert(filename: string) returns (r: Result<()>)
      modifies this`sent, this`smallSent
      ensures r.Ok? <==> if isSmall(filename) then smallFileSender else !smallFileSender && sender
      ensures r.Ok? ==> smallSent == old(smallSent) + if isSmall(filename) then [Message(filename, FileEnd)] else []
      ensures r.Ok? ==> sent == old(sent) + if isSmall(filename) then [] else [Message(filename, FileEnd)]
      ensures r.Err? ==> r == Err(Panicked)
    {
      if isSmall(filename) {
        if !smallFileSender {
          return Err(Panicked);
        }
        smallSent := smallSent + [Message(filename, FileEnd)];
      } else {
        if smallFileSender || !sender {
          return Err(Panicked);
        }
        sent := sent + [Message(filename, FileEnd)];
      }
      r := Ok(());
    }

    /** A chunk goes to the channel of the kind of its file; that of a large file acquires its memory first. */
    method SendChunk(filename: string, chunk: Bytes)
      modifies this`sent, this`smallSent, this`events
      ensures var m := Message(filename, Chunk(chunk));
              if isSmall(filename) then
                smallSent == old(smallSent) + [m] && sent == old(sent) && events == old(events)
              else
                smallSent == old(smallSent) && sent == old(sent) + [m]
                && events == old(events) + [Acquired(|chunk|), SentOn(m)]
    {
      var m := Message(filename, Chunk(chunk));
      if isSmall(filename) {
        smallSent := smallSent + [m];
      } else {
        events := events + [Acquired(|chunk|)];
        sent, events := sent + [m], events + [SentOn(m)];
        assert events == old(events) + [Acquired(|chunk|), SentOn(m)];
      }
    }

    /** Sends `data` in chunks of at most `CHUNK_SIZE`. The memory of each chunk of a large file is acquired
        before the chunk is read; the waiting for it is in the module Serve. */
    method WriteAllFromPipe(filename: string, data: Bytes)
      modifies this`sent, this`smallSent, this`events
      ensures smallSent == old(smallSent) + if isSmall(filename) then CallMessages(Write(filename, data)) else []
      ensures sent == old(sent) + if isSmall(filename) then [] else CallMessages(Write(filename, data))
      ensures events == old(events) + if isSmall(filename) then [] else LargeEvents(filename, Pieces(data, CHUNK_SIZE))
    {
      ghost var sent0, small0, events0 := sent, smallSent, events;
      var toSend := data;
      ghost var done: seq<Message>, made: seq<Event> := [], [];
      while |toSend| > 0
        invariant done + CallMessages(Write(filename, toSend)) == CallMessages(Write(filename, data))
        invariant made + LargeEvents(filename, Pieces(toSend, CHUNK_SIZE)) == LargeEvents(filename, Pieces(data, CHUNK_SIZE))
        invariant smallSent == if isSmall(filename) then small0 + done else small0
        invariant sent == if isSmall(filename) then sent0 else sent0 + done
        invariant events == if isSmall(filename) then events0 else events0 + made
        decreases |toSend|
      {
        var size := if |toSend| <= CHUNK_SIZE then |toSend| else CHUNK_SIZE;
        FirstMessage(filename, toSend, done);
        FirstEvents(filename, toSend, made);
        ghost var m := Message(filename, Chunk(toSend[..size]));
        ghost var first := [Acquired(size), SentOn(m)];
        SendChunk(filename, toSend[..size]);
        toSend := toSend[size..];
        Associate(small0, done, [m]);
        Associate(sent0, done, [m]);
        Associate(events0, made, first);
        done, made := done + [m], made + first;
      }
      assert CallMessages(Write(filename, [])) == [];
    }

    method PerformOne(call: Call) returns (r: Result<()>)
      requires sender
      modifies this`smallFileSender, this`sent, this`smallSent, this`events
      ensures r.Ok? <==> Accepts(old(smallFileSender), call, isSmall)
      ensures r.Ok? ==> smallSent == old(smallSent) + if isSmall(call.name) then CallMessages(call) else []
      ensures r.Ok? ==> sent == old(sent) + if isSmall(call.name) then [] else CallMessages(call)
      ensures r.Ok? ==> smallFileSender == (old(smallFileSender) && !(call.Create? && !isSmall(call.name)))
      ensures r.Err? ==> r == Err(Panicked)
    {
      match call {
        case Create(name) =>
          var _ :- Create(name);
        case Write(name, data) =>
          WriteAllFromPipe(name, data);
        case Insert(name) =>
          var _ :- Insert(name);
      }
      r := Ok(());
    }

    /** Makes the calls of an extraction. The `unwrap`s and the `assert` hold exactly when the calls come
        small files first. */
    method Perform(calls: seq<Call>) returns (r: Result<()>)
      requires sender && smallFileSender && sent == smallSent == [] && Ordered(calls)
      modifies this
      ensures r.Ok? <==> SmallFirst(calls, isSmall)
      ensures r.Ok? ==> smallSent == Messages(calls, isSmall, true) && sent == Messages(calls, isSmall, false)
      ensures r.Ok? ==> sender && (smallFileSender <==> !LargeCreated(calls, isSmall))
      ensures r.Err? ==> r == Err(Panicked)
    {
      for k := 0 to |calls|
        invariant sender && Performed(calls[..k], isSmall, smallFileSender, smallSent, sent)
      {
        PerformedNext(calls, k, isSmall, smallFileSender, smallSent, sent);
        var _ :- PerformOne(calls[k]);
      }
      assert calls[..|calls|] == calls;
      r := Ok(());
    }
  }

  // ---- the messages of one file ----

  function Of(msgs: seq<Message>, name: string): seq<FileContent> {
    if msgs == [] then []
    else (if msgs[0].name == name then [msgs[0].content] else []) + Of(msgs[1..], name)
  }

  function Data(contents: seq<FileContent>): Bytes {
    if contents == [] then []
    else (match contents[0] case Chunk(data) => data case FileEnd => []) + Data(contents[1..])
  }

  /** Chunks, then one end-of-file, and nothing after it. */
  ghost predicate WholeFile(contents: seq<FileContent>) {
    && contents != [] && contents[|contents| - 1] == FileEnd
    && Chunks(contents[..|contents| - 1])
  }

  ghost predicate Chunks(contents: seq<FileContent>) {
    FileEnd !in contents
  }

  lemma {:induction false} OfConcat(a: seq<Message>, b: seq<Message>, name: string)
    ensures Of(a + b, name) == Of(a, name) + Of(b, name)
  {
    if a == [] {
      assert a + b == b;
    } else {
      OfConcat(a[1..], b, name);
      TailOfConcat(a, b);
    }
  }

  lemma {:induction false} DataConcat(a: seq<FileContent>, b: seq<FileContent>)
    ensures Data(a + b) == Data(a) + Data(b)
  {
    if a == [] {
      assert a + b == b;
    } else {
      DataConcat(a[1..], b);
      TailOfConcat(a, b);
    }
  }

  lemma {:induction false} OfChunkMessages(name: string, pieces: seq<Bytes>, n: string)
    ensures var cs := Of(ChunkMessages(name, pieces), n);
            Chunks(cs) && (if n == name then Data(cs) == Flatten(pieces) else cs == [])
  {
    if pieces == [] {
    } else {
      var ms, rest := ChunkMessages(name, pieces), ChunkMessages(name, pieces[1..]);
      assert ms[0] == Message(name, Chunk(pieces[0])) && ms[1..] == rest;
      OfChunkMessages(name, pieces[1..], n);
      if n == name {
        assert Of(ms, n)[1..] == Of(rest, n);
      }
    }
  }

  lemma OfCallMessages(call: Call, n: string)
    ensures var cs := Of(CallMessages(call), n);
            if call.name != n then cs == []
            else match call
                 case Create(_) => cs == []
                 case Write(_, data) => Chunks(cs) && Data(cs) == data
                 case Insert(_) => cs == [FileEnd]
  {
    match call {
      case Create(_) =>
      case Write(name, data) =>
        OfChunkMessages(name, Pieces(data, CHUNK_SIZE), n);
        PiecesFlatten(data, CHUNK_SIZE);
      case Insert(name) =>
        assert CallMessages(call)[1..] == [];
    }
  }

  lemma {:induction false} NoCallsNoMessages(calls: seq<Call>, isSmall: string -> bool, small: bool, n: string)
    requires isSmall(n) != small || forall c <- calls :: c.name == n ==> c.Create?
    ensures Of(Messages(calls, isSmall, small), n) == []
  {
    if calls == [] {
    } else {
      var before, call := calls[..|calls| - 1], calls[|calls| - 1];
      NoCallsNoMessages(before, isSmall, small, n);
      OfCallMessages(call, n);
      OfConcat(Messages(before, isSmall, small), if isSmall(call.name) == small then CallMessages(call) else [], n);
    }
  }

  /** The messages of a file carry exactly its bytes, and end with the file. */
  lemma {:induction false} FileMessages(calls: seq<Call>, isSmall: string -> bool, n: string)
    requires Ordered(calls)
    ensures var cs := Of(Messages(calls, isSmall, isSmall(n)), n);
            && Data(cs) == FileBytes(calls, n)
            && (if Insert(n) in calls then WholeFile(cs) else Chunks(cs))
  {
    if calls == [] {
    } else {
      var before, call := calls[..|calls| - 1], calls[|calls| - 1];
      FileMessages(before, isSmall, n);
      assert calls == before + [call];
      MessagesSnoc(before, call, isSmall, n);
      if call.name == n {
        OneMoreCall(before, call, isSmall, Of(Messages(before, isSmall, isSmall(n)), n));
      }
    }
  }

  lemma MessagesSnoc(calls: seq<Call>, call: Call, isSmall: string -> bool, n: string)
    ensures var cs := Of(Messages(calls, isSmall, isSmall(n)), n);
            Of(Messages(calls + [call], isSmall, isSmall(n)), n) ==
              if call.name == n then cs + Of(CallMessages(call), n) else cs
  {
    var more := if isSmall(call.name) == isSmall(n) then CallMessages(call) else [];
    assert (calls + [call])[..|calls|] == calls;
    OfConcat(Messages(calls, isSmall, isSmall(n)), more, n);
    OfCallMessages(call, n);
    var cs := Of(Messages(calls, isSmall, isSmall(n)), n);
    assert cs + [] == cs;
  }

  lemma OneMoreCall(calls: seq<Call>, call: Call, isSmall: string -> bool, cs: seq<FileContent>)
    requires cs == Of(Messages(calls, isSmall, isSmall(call.name)), call.name)
    requires Data(cs) == FileBytes(calls, call.name) && Allowed(calls, call)
    requires Insert(call.name) !in calls ==> Chunks(cs)
    ensures var cs' := cs + Of(CallMessages(call), call.name);
            && Data(cs') == FileBytes(calls + [call], call.name)
            && if call.Insert? then WholeFile(cs') else Chunks(cs')
  {
    var more := Of(CallMessages(call), call.name);
    assert (calls + [call])[..|calls|] == calls;
    OfCallMessages(call, call.name);
    DataConcat(cs, more);
    match call {
      case Create(n) => NoCallsNoMessages(calls, isSmall, isSmall(n), n);
      case Write(_, _) =>
      case Insert(_) =>
        assert (cs + [FileEnd])[..|cs|] == cs;
        assert Data([FileEnd]) == [];
    }
  }
}
