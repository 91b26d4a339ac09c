/** Serving a captured image: the store of the extract thread and the serving thread together. */
module ServeImage {
  import opened Sequences
  import opened Wire
  import opened Reassembly
  import opened Schedule
  import opened Delivery
  import FsParallel
  import Flow
  import Semaphores
  import Patcher
  import Serve

  /** Extraction makes its calls small files first, so no `unwrap` of the store fails. */
  lemma ImageSmallFirst(ds: seq<Drain>, s: Setup)
    requires s.Valid()
    ensures FsParallel.SmallFirst(ImageCalls(ds, s), s.isSmall)
  {
    RefCallsNames(ds, s, true);
    RefCallsNames(ds, s, false);
    var calls := ImageCalls(ds, s);
    var n := |RefCalls(ds, s, true)|;
    forall i | 0 <= i < |calls| ensures s.isSmall(calls[i].name) <==> i <= n {
      if i < n {
        assert calls[i] in RefCalls(ds, s, true);
      } else if i > n {
        assert calls[i] in RefCalls(ds, s, false);
      }
    }
  }

  lemma {:induction false} MessagesOfKind(calls: seq<Call>, isSmall: string -> bool, small: bool)
    ensures forall m <- FsParallel.Messages(calls, isSmall, small) :: isSmall(m.name) == small
  {
    if calls == [] {
    } else {
      MessagesOfKind(calls[..|calls| - 1], isSmall, small);
    }
  }

  /** The messages of the image, small files first. */
  function ImageMessages(ds: seq<Drain>, s: Setup): seq<FsParallel.Message>
    requires s.chunk > 0
  {
    FsParallel.Messages(ImageCalls(ds, s), s.isSmall, true) + FsParallel.Messages(ImageCalls(ds, s), s.isSmall, false)
  }

  /** Each captured file is sent in full, and nothing else is sent. */
  lemma ImageMessagesOf(ds: seq<Drain>, s: Setup, n: string)
    requires s.Valid() && Complete(ds)
    ensures var cs := FsParallel.Of(ImageMessages(ds, s), n);
            if n in Files(ds) then FsParallel.WholeFile(cs) && FsParallel.Data(cs) == Content(ds, n) else cs == []
  {
    var calls := ImageCalls(ds, s);
    var own, other := FsParallel.Messages(calls, s.isSmall, s.isSmall(n)), FsParallel.Messages(calls, s.isSmall, !s.isSmall(n));
    ImageOrdered(ds, s);
    ImageDeliversOne(ds, s, n);
    FsParallel.OfConcat(own, other, n);
    FsParallel.OfConcat(other, own, n);
    FsParallel.NoCallsNoMessages(calls, s.isSmall, !s.isSmall(n), n);
    FsParallel.FileMessages(calls, s.isSmall, n);
    var cs := FsParallel.Of(own, n);
    assert cs + [] == cs == [] + cs;
    if n !in Files(ds) {
      RefCallsNames(ds, s, true);
      RefCallsNames(ds, s, false);
      FsParallel.NoCallsNoMessages(calls, s.isSmall, s.isSmall(n), n);
    }
  }

  lemma ImageMessagesWhole(ds: seq<Drain>, s: Setup)
    requires s.Valid() && Complete(ds)
    ensures Serve.AllWhole(ImageMessages(ds, s))
  {
    forall n ensures var cs := FsParallel.Of(ImageMessages(ds, s), n); cs != [] ==> FsParallel.WholeFile(cs) {
      ImageMessagesOf(ds, s, n);
    }
  }

  lemma {:induction false} DataOfLog(written: seq<Bytes>, ended: bool)
    ensures FsParallel.Data(Flow.Pipe(written, ended).Log()) == Flatten(written)
  {
    var log := Flow.Pipe(written, ended).Log();
    if written == [] {
      assert ended ==> log[1..] == [];
    } else {
      DataOfLog(written[1..], ended);
      assert log[1..] == Flow.Pipe(written[1..], ended).Log();
    }
  }

  lemma ServedPart(p: Flow.Pipe, cs: seq<FsParallel.FileContent>)
    requires p.Log() <= cs
    ensures Flatten(p.written) <= FsParallel.Data(cs)
    ensures p.Log() == cs && FsParallel.WholeFile(cs) ==> p.ended && Flatten(p.written) == FsParallel.Data(cs)
  {
    DataOfLog(p.written, p.ended);
    var rest := cs[|p.Log()|..];
    assert cs == p.Log() + rest;
    FsParallel.DataConcat(p.Log(), rest);
  }

  lemma {:induction false} EofOrderNames(ds: seq<Drain>)
    ensures forall n <- EofOrder(ds) :: n in Files(ds)
  {
    if ds == [] {
    } else {
      EofOrderNames(ds[..|ds| - 1]);
      assert ds == ds[..|ds| - 1] + [ds[|ds| - 1]];
    }
  }

  /** What is to be sent of a captured file, and that it is sent in full. */
  lemma Due(ds: seq<Drain>, s: Setup, c: Codec<Patcher.FileEntry>, pairs: seq<(nat, nat)>,
            all: seq<FsParallel.Message>, n: string)
    requires s.Valid() && Complete(ds) && n in Files(ds) && Serve.AllWhole(all)
    requires Serve.AsRequested(c, pairs, s.isSmall, ImageMessages(ds, s), all)
    ensures FsParallel.WholeFile(FsParallel.Of(all, n))
    ensures Whole(ds, s, c, pairs, n, FsParallel.Data(FsParallel.Of(all, n)))
  {
    ImageMessagesOf(ds, s, n);
    assert FsParallel.Of(all, n) != [] by {
      assert FsParallel.Data([]) == [];
    }
  }

  /** What the client has received of a file is a part of what it should receive, or all of it. */
  lemma Received(ds: seq<Drain>, s: Setup, c: Codec<Patcher.FileEntry>, pairs: seq<(nat, nat)>, n: string,
                 cs: seq<FsParallel.FileContent>, p: Flow.Pipe)
    requires s.chunk > 0 && p.Log() <= cs && FsParallel.WholeFile(cs) && Whole(ds, s, c, pairs, n, FsParallel.Data(cs))
    ensures Partial(ds, s, c, pairs, n, Flatten(p.written))
    ensures p.Log() == cs ==> p.ended && Whole(ds, s, c, pairs, n, Flatten(p.written))
  {
    ServedPart(p, cs);
    var sent, data := Flatten(p.written), FsParallel.Data(cs);
    assert sent + data[|sent|..] == data;
  }

  predicate IsPatched(s: Setup, pairs: seq<(nat, nat)>, n: string) {
    n == "files.img" && pairs != [] && s.isSmall(n)
  }

  /** The bytes of file `n`, or the patched image of them. */
  ghost predicate Whole(ds: seq<Drain>, s: Setup, c: Codec<Patcher.FileEntry>, pairs: seq<(nat, nat)>, n: string, sent: Bytes) {
    if IsPatched(s, pairs, n) then Patcher.PatchOf(c, Content(ds, n), sent, pairs) else sent == Content(ds, n)
  }

  ghost predicate Partial(ds: seq<Drain>, s: Setup, c: Codec<Patcher.FileEntry>, pairs: seq<(nat, nat)>, n: string, sent: Bytes) {
    exists more :: Whole(ds, s, c, pairs, n, sent + more)
  }

  /** The ports are to be moved in a captured files image in which they cannot be. */
  ghost predicate Unpatchable(ds: seq<Drain>, s: Setup, c: Codec<Patcher.FileEntry>, pairs: seq<(nat, nat)>) {
    && IsPatched(s, pairs, "files.img") && "files.img" in Files(ds)
    && !Patcher.Patchable(c, Content(ds, "files.img"), pairs)
  }

  lemma UnpatchableMeans(ds: seq<Drain>, s: Setup, c: Codec<Patcher.FileEntry>, pairs: seq<(nat, nat)>)
    requires s.Valid() && Complete(ds)
    ensures Serve.CannotPatch(c, pairs, s.isSmall, ImageMessages(ds, s)) <==> Unpatchable(ds, s, c, pairs)
  {
    ImageMessagesOf(ds, s, "files.img");
    assert FsParallel.Data([]) == [];
  }

  lemma {:induction false} AllEnd(ds: seq<Drain>, n: string)
    requires Drain(n, []) in ds
    ensures n in EofOrder(ds)
  {
    var before := ds[..|ds| - 1];
    if Drain(n, []) in before {
      AllEnd(before, n);
    } else {
      assert ds == before + [ds[|ds| - 1]];
    }
  }

  lemma {:induction false} AskedGrows(polls: seq<Serve.Poll>, k: nat, rounds: nat)
    requires k <= rounds <= |polls|
    ensures Serve.Asked(polls[..k]) <= Serve.Asked(polls[..rounds])
  {
    if k == rounds {
    } else {
      AskedGrows(polls, k, rounds - 1);
      Serve.AskedSnoc(polls, rounds - 1);
    }
  }

  /** What is asked for in round `k` is answered by the reply of that place. */
  lemma AskedAt(polls: seq<Serve.Poll>, k: nat, rounds: nat)
    requires k < rounds <= |polls| && polls[k].Request? && polls[k].filename != "stop-listener"
    ensures var i := |Serve.Asked(polls[..k])|;
            i < |Serve.Asked(polls[..rounds])| && Serve.Asked(polls[..rounds])[i] == polls[k].filename
  {
    Serve.AskedSnoc(polls, k);
    AskedGrows(polls, k + 1, rounds);
  }

  /** A request for one file, by its name. */
  predicate AsksFor(poll: Serve.Poll, n: string) {
    poll == Serve.Request(n) && n != "stop-listener" && n != "" && '*' !in n
  }

  /** How the run went: the requests in the rounds that the loop has been through are answered, each in its
      turn, and a captured small file that is asked for in one of them is answered Ready and sent in full. */
  ghost predicate Served(ds: seq<Drain>, s: Setup, c: Codec<Patcher.FileEntry>, pairs: seq<(nat, nat)>,
                         polls: seq<Serve.Poll>, rounds: nat, exit: Serve.Exit, replies: seq<Serve.Reply>,
                         pipes: map<string, Flow.Pipe>)
  {
    if Unpatchable(ds, s, c, pairs) then
      exit.Failed? && rounds == 0 && replies == [] && pipes == map[]
    else
      && Serve.Leaves(EofOrder(ds), polls, rounds, exit, false, pipes.Keys)
      && Serve.Answered(EofOrder(ds), polls[..rounds], replies)
      && (forall k, n | 0 <= k < rounds && n in Files(ds) && s.isSmall(n) && AsksFor(polls[k], n) ::
            SmallServed(ds, s, c, pairs, polls, k, n, replies, pipes))
  }

  ghost predicate SmallServed(ds: seq<Drain>, s: Setup, c: Codec<Patcher.FileEntry>, pairs: seq<(nat, nat)>,
                              polls: seq<Serve.Poll>, k: nat, n: string, replies: seq<Serve.Reply>,
                              pipes: map<string, Flow.Pipe>)
    requires k <= |polls|
  {
    var i := |Serve.Asked(polls[..k])|;
    && i < |replies| && replies[i] == Serve.FileReply(n, Serve.Ready)
    && n in pipes && pipes[n].ended && Whole(ds, s, c, pairs, n, Flatten(pipes[n].written))
  }

  lemma SmallIsServed(ds: seq<Drain>, s: Setup, c: Codec<Patcher.FileEntry>, pairs: seq<(nat, nat)>,
                      polls: seq<Serve.Poll>, rounds: nat, k: nat, n: string, server: Serve.Server)
    requires s.Valid() && Complete(ds) && k < rounds <= |polls| && n in Files(ds) && s.isSmall(n) && AsksFor(polls[k], n)
    requires server.isSmall == s.isSmall && server.fileList == EofOrder(ds) && Serve.AllWhole(server.all)
    requires Serve.AsRequested(c, pairs, s.isSmall, ImageMessages(ds, s), server.all)
    requires Serve.Answered(EofOrder(ds), polls[..rounds], server.replies) && server.NoneNew([])
    requires Serve.AnsweredOnce(server.replies, server.pipes.Keys)
    requires n in server.pipes ==> server.pipes[n].Log() == FsParallel.Of(server.all, n)
    ensures SmallServed(ds, s, c, pairs, polls, k, n, server.replies, server.pipes)
  {
    var i := |Serve.Asked(polls[..k])|;
    AskedAt(polls, k, rounds);
    LiveMeans(ds, n);
    AllEnd(ds, n);
    Due(ds, s, c, pairs, server.all, n);
    assert Serve.IsReply(EofOrder(ds), n, server.replies[i]);
    assert server.replies[i] in server.replies;
    assert FsParallel.Of(server.all, n) != [];
    assert server.replies[i] == Serve.FileReply(n, Serve.Ready);
    Received(ds, s, c, pairs, n, FsParallel.Of(server.all, n), server.pipes[n]);
  }

  /** A whole run of `serve` on a captured image, with `limit` bytes for large files, whatever the client
      asks for and however the two threads interleave. When the serving loop is left for good, every
      file that was answered Ready has been sent to its one pipe, all of it and nothing else. */
  method ServeCaptured(ghost ds: seq<Drain>, ghost s: Setup, isSmall: string -> bool, calls: seq<Call>,
                       metadata: seq<string>, limit: nat, c: Codec<Patcher.FileEntry>, pairs: seq<(nat, nat)>,
                       polls: seq<Serve.Poll>)
    returns (exit: Serve.Exit, rounds: nat, server: Serve.Server)
    requires s.Valid() && Complete(ds) && isSmall == s.isSmall && c.Lawful()
    requires calls == ImageCalls(ds, s) && metadata == EofOrder(ds)
    ensures server.sem.startVal == limit && server.fileList == metadata
    ensures 0 <= server.sem.count <= limit && server.sem.count + server.Taken() == limit
    ensures forall n <- server.pipes :: n in Files(ds) && Partial(ds, s, c, pairs, n, Flatten(server.pipes[n].written))
    ensures exit == Serve.Done ==> forall n <- server.pipes ::
              server.pipes[n].ended && Whole(ds, s, c, pairs, n, Flatten(server.pipes[n].written))
    ensures Serve.AnsweredOnce(server.replies, server.pipes.Keys)
    ensures Served(ds, s, c, pairs, polls, rounds, exit, server.replies, server.pipes)
  {
    ImageSmallFirst(ds, s);
    ImageOrdered(ds, s);
    ImageMessagesWhole(ds, s);
    EofOrderNames(ds);
    UnpatchableMeans(ds, s, c, pairs);
    MessagesOfKind(calls, isSmall, true);
    MessagesOfKind(calls, isSmall, false);
    var sender := new FsParallel.FileSender(isSmall);
    var performed := sender.Perform(calls);
    sender.CloseSenders();
    var sem := new Semaphores.Semaphore(limit);
    server := new Serve.Server(isSmall, metadata, sem, sender.smallSent, sender.sent);
    exit, rounds := server.ServeImg(c, pairs, polls);
    forall n <- server.pipes
      ensures n in Files(ds) && Partial(ds, s, c, pairs, n, Flatten(server.pipes[n].written))
      ensures exit == Serve.Done ==>
                server.pipes[n].ended && Whole(ds, s, c, pairs, n, Flatten(server.pipes[n].written))
    {
      Due(ds, s, c, pairs, server.all, n);
      Received(ds, s, c, pairs, n, FsParallel.Of(server.all, n), server.pipes[n]);
    }
    if !Unpatchable(ds, s, c, pairs) {
      forall k, n | 0 <= k < rounds && n in Files(ds) && s.isSmall(n) && AsksFor(polls[k], n)
        ensures SmallServed(ds, s, c, pairs, polls, k, n, server.replies, server.pipes)
      {
        SmallIsServed(ds, s, c, pairs, polls, rounds, k, n, server);
      }
    }
  }
}
