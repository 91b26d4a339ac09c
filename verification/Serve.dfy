/** src/extract.rs:392-575 and the extract thread that feeds it: the image is served while it is still
    being extracted. */
module Serve {
  import opened Wrappers
  import opened Sequences
  import opened Wire
  import opened FsParallel
  import opened Flow
  import opened Semaphores
  import Glob
  import Patcher

  datatype Status = Ready | NotReady | DoesNotExist

  datatype Reply = FileReply(name: string, status: Status) | ListReply(names: seq<string>)

  /** What `poll()` may report: nothing in time, a new connection, a client that hung up, or a request. */
  datatype Poll = Timeout | Connection | Hangup | Request(filename: string)

  /** How the serving loop stands: still running, left for good, or stopped by an error. */
  datatype Exit = Running | Done | Failed(error: Error)

  const FILES_IMG := "files.img"

  /** The messages `after` are those `before`, but for the files image in which ports are to be moved. */
  ghost predicate AsRequested(c: Codec<Patcher.FileEntry>, pairs: seq<(nat, nat)>, isSmall: string -> bool,
                              before: seq<Message>, after: seq<Message>)
  {
    var others := forall n | n != FILES_IMG :: Of(after, n) == Of(before, n);
    var filesImg :=
      if pairs == [] || !isSmall(FILES_IMG) || Of(before, FILES_IMG) == [] then
        Of(after, FILES_IMG) == Of(before, FILES_IMG)
      else
        Patcher.PatchOf(c, Data(Of(before, FILES_IMG)), Data(Of(after, FILES_IMG)), pairs);
    others && filesImg
  }

  /** The ports are to be moved in a small files image that is there, and cannot be. */
  ghost predicate CannotPatch(c: Codec<Patcher.FileEntry>, pairs: seq<(nat, nat)>, isSmall: string -> bool,
                              all: seq<Message>)
  {
    && pairs != [] && isSmall(FILES_IMG) && Of(all, FILES_IMG) != []
    && !Patcher.Patchable(c, Data(Of(all, FILES_IMG)), pairs)
  }

  datatype Kind = StopRequest | ListRequest | UnknownRequest | FileRequest

  function KindOf(filename: string, fileList: seq<string>): Kind {
    if filename == "stop-listener" then StopRequest
    else if '*' in filename || filename == "" then ListRequest
    else if filename !in fileList then UnknownRequest
    else FileRequest
  }

  /** The names in the requests that are to be answered: all but those to stop. */
  function Asked(polls: seq<Poll>): seq<string> {
    if polls == [] then []
    else
      var before, poll := Asked(polls[..|polls| - 1]), polls[|polls| - 1];
      if poll.Request? && poll.filename != "stop-listener" then before + [poll.filename] else before
  }

  /** `reply` answers a request for `filename`: with the names it selects when it is a pattern, and else with
      the status of the file of that name. */
  ghost predicate IsReply(fileList: seq<string>, filename: string, reply: Reply) {
    if filename == "" || '*' in filename then
      reply == ListReply(Glob.Selected(fileList, filename))
    else
      reply.FileReply? && reply.name == filename && (reply.status == DoesNotExist <==> filename !in fileList)
  }

  /** The replies are the answers to the requests, one after the other. */
  ghost predicate Answered(fileList: seq<string>, polls: seq<Poll>, replies: seq<Reply>) {
    |replies| == |Asked(polls)| && forall k | 0 <= k < |replies| :: IsReply(fileList, Asked(polls)[k], replies[k])
  }

  /** The same of the replies given since `before`. */
  ghost predicate AnsweredSince(fileList: seq<string>, polls: seq<Poll>, before: seq<Reply>, after: seq<Reply>) {
    before <= after && Answered(fileList, polls, after[|before|..])
  }

  lemma FromStart(fileList: seq<string>, polls: seq<Poll>, replies: seq<Reply>)
    ensures AnsweredSince(fileList, polls, [], replies) <==> Answered(fileList, polls, replies)
  {
    assert replies[0..] == replies;
  }

  predicate StopAsked(polls: seq<Poll>) {
    Request("stop-listener") in polls
  }

  /** What becomes of one request, when the files in `ready` have been answered Ready, `stopped` says that a
      request to stop has come, and `open` that a pipe is still open. */
  ghost predicate Handled(fileList: seq<string>, filename: string, ready: set<string>, stopped: bool, open: bool,
                          exit: Exit, before: seq<Reply>, after: seq<Reply>, ready': set<string>, stopped': bool)
  {
    if filename == "stop-listener" then
      && after == before && ready' == ready && stopped'
      && exit == if stopped then Failed(Panicked) else if open then Running else Done
    else if filename == "" || '*' in filename then
      && after == before + [ListReply(Glob.Selected(fileList, filename))]
      && ready' == ready && stopped' == stopped && exit == Running
    else if filename !in fileList then
      && after == before + [FileReply(filename, DoesNotExist)]
      && ready' == ready && stopped' == stopped && exit == Running
    else if filename in ready then
      after == before && ready' == ready && stopped' == stopped && exit == Failed(RequestedTwice)
    else
      && after == before + [FileReply(filename, if filename in ready' then Ready else NotReady)]
      && (ready' == ready || ready' == ready + {filename}) && stopped' == stopped && exit == Running
  }

  /** How a loop that has been through `rounds` of the polls is left: at the end of what the poller reports;
      for good, by a time-out or a request to stop, once that has been asked for; or by an error, in the round
      after those, on a second request to stop or for a file. */
  ghost predicate Leaves(fileList: seq<string>, polls: seq<Poll>, rounds: nat, exit: Exit, stopped: bool, ready: set<string>) {
    && rounds <= |polls|
    && match exit
       case Running => rounds == |polls|
       case Done =>
         && rounds > 0 && (polls[rounds - 1] == Timeout || polls[rounds - 1] == Request("stop-listener"))
         && (stopped || StopAsked(polls[..rounds]))
       case Failed(e) =>
         && rounds < |polls| && polls[rounds].Request?
         && if polls[rounds].filename == "stop-listener" then e == Panicked && (stopped || StopAsked(polls[..rounds]))
            else e == RequestedTwice && polls[rounds].filename in ready
  }

  /** What is `coming` is of large files; each file in `ready` has something to be sent, of which nothing is
      `stored` any more if it is small. */
  ghost predicate ReadyAt(isSmall: string -> bool, all: seq<Message>, ready: set<string>, stored: set<string>,
                          coming: set<string>)
  {
    var large := forall n <- coming :: !isSmall(n);
    var sent := forall n <- ready :: Of(all, n) != [] && (isSmall(n) ==> n !in stored);
    large && sent
  }

  lemma MoreReceived(isSmall: string -> bool, all: seq<Message>, ready: set<string>, stored: set<string>,
                     coming: set<string>, stored': set<string>, coming': set<string>)
    requires ReadyAt(isSmall, all, ready, stored, coming) && stored' <= stored + coming && coming' <= coming
    ensures ReadyAt(isSmall, all, ready, stored', coming')
  {
  }

  lemma OneMoreReady(isSmall: string -> bool, all: seq<Message>, ready: set<string>, stored: set<string>,
                     coming: set<string>, n: string)
    requires ReadyAt(isSmall, all, ready, stored, coming) && Of(all, n) != []
    ensures ReadyAt(isSmall, all, ready + {n}, stored - {n}, coming)
  {
  }

  lemma OtherIsHandled(fileList: seq<string>, kind: Kind, filename: string, ready: set<string>, stopped: bool, open: bool,
                       exit: Exit, before: seq<Reply>, after: seq<Reply>, stopped': bool)
    requires kind == KindOf(filename, fileList) != FileRequest && stopped' == (stopped || kind == StopRequest)
    requires exit == if kind != StopRequest then Running
                     else if stopped then Failed(Panicked) else if open then Running else Done
    requires match kind
             case StopRequest => after == before
             case ListRequest => after == before + [ListReply(Glob.Selected(fileList, filename))]
             case _ => after == before + [FileReply(filename, DoesNotExist)]
    ensures Handled(fileList, filename, ready, stopped, open, exit, before, after, ready, stopped')
  {
  }

  /** What a request for one file makes of the replies, the pipes and what is stored: a second request for a
      file is refused, and a first one is answered Ready when some of the file is stored. */
  ghost predicate FileAnswered(all: seq<Message>, ready: set<string>, stored: set<string>, filename: string, exit: Exit,
                               before: seq<Reply>, after: seq<Reply>, ready': set<string>, stored': set<string>)
  {
    if filename in ready then
      && exit == Failed(RequestedTwice) && after == before
      && ready' == ready && stored' == stored && filename !in stored
    else if filename in stored then
      && exit == Running && after == before + [FileReply(filename, Ready)]
      && ready' == ready + {filename} && stored' == stored - {filename} && Of(all, filename) != []
    else
      && exit == Running && after == before + [FileReply(filename, NotReady)] && ready' == ready && stored' == stored
  }

  lemma FileIsHandled(fileList: seq<string>, filename: string, ready: set<string>, stopped: bool, open: bool,
                      exit: Exit, before: seq<Reply>, after: seq<Reply>, ready': set<string>, there: bool)
    requires KindOf(filename, fileList) == FileRequest
    requires if filename in ready then exit == Failed(RequestedTwice) && after == before && ready' == ready
             else
               && exit == Running && after == before + [FileReply(filename, if there then Ready else NotReady)]
               && ready' == if there then ready + {filename} else ready
    ensures Handled(fileList, filename, ready, stopped, open, exit, before, after, ready', stopped)
  {
  }

  /** A request is answered NotReady only when its file is not sent. */
  lemma NotReadyIsNotSent(fileList: seq<string>, filename: string, ready: set<string>, stopped: bool, open: bool,
                          exit: Exit, before: seq<Reply>, after: seq<Reply>, ready': set<string>, stopped': bool, n: string)
    requires Handled(fileList, filename, ready, stopped, open, exit, before, after, ready', stopped')
    requires FileReply(n, NotReady) in after && FileReply(n, NotReady) !in before
    ensures n == filename && n !in ready' && KindOf(n, fileList) == FileRequest
  {
  }

  /** A request that is not refused is answered. */
  lemma HandledIsAnswered(fileList: seq<string>, filename: string, ready: set<string>, stopped: bool, open: bool,
                          exit: Exit, before: seq<Reply>, after: seq<Reply>, ready': set<string>, stopped': bool)
    requires Handled(fileList, filename, ready, stopped, open, exit, before, after, ready', stopped') && !exit.Failed?
    ensures if filename == "stop-listener" then after == before
            else |after| > 0 && after == before + [after[|after| - 1]] && IsReply(fileList, filename, after[|after| - 1])
  {
  }

  /** None of the first `rounds` polls is a time-out after a request to stop. */
  predicate NoTimeoutAfterStop(polls: seq<Poll>, rounds: nat, stopped: bool)
    requires rounds <= |polls|
  {
    forall k | 0 <= k < rounds && polls[k] == Timeout :: !stopped && !StopAsked(polls[..k])
  }

  lemma AskedSnoc(polls: seq<Poll>, k: nat)
    requires k < |polls|
    ensures var poll := polls[k];
            Asked(polls[..k + 1]) ==
              if poll.Request? && poll.filename != "stop-listener" then Asked(polls[..k]) + [poll.filename] else Asked(polls[..k])
    ensures StopAsked(polls[..k + 1]) <==> StopAsked(polls[..k]) || polls[k] == Request("stop-listener")
  {
    TakeNext(polls, k);
    assert polls[..k + 1][..k] == polls[..k];
  }

  /** One more round: its request is answered, if it is to be. */
  lemma AnsweredNext(fileList: seq<string>, polls: seq<Poll>, k: nat, before: seq<Reply>, replies: seq<Reply>,
                     replies': seq<Reply>, reply: Reply)
    requires k < |polls| && AnsweredSince(fileList, polls[..k], before, replies)
    requires if polls[k].Request? && polls[k].filename != "stop-listener" then
               replies' == replies + [reply] && IsReply(fileList, polls[k].filename, reply)
             else
               replies' == replies
    ensures AnsweredSince(fileList, polls[..k + 1], before, replies')
  {
    AskedSnoc(polls, k);
    if polls[k].Request? && polls[k].filename != "stop-listener" {
      TailOfMore(replies, reply, |before|);
    }
  }

  lemma TailOfMore(s: seq<Reply>, x: Reply, n: nat)
    requires n <= |s|
    ensures (s + [x])[n..] == s[n..] + [x] && (s + [x])[..n] == s[..n]
  {
  }

  ghost function Names(msgs: seq<Message>): set<string> {
    set m <- msgs :: m.name
  }

  lemma NamesConcat(a: seq<Message>, b: seq<Message>)
    ensures Names(a + b) == Names(a) + Names(b)
  {
  }

  lemma NamesOfFirst(msgs: seq<Message>)
    requires msgs != []
    ensures Names(msgs) == {msgs[0].name} + Names(msgs[1..])
  {
    NamesConcat([msgs[0]], msgs[1..]);
    assert Names([msgs[0]]) == {msgs[0].name} && msgs == [msgs[0]] + msgs[1..];
  }

  /** Every file is either announced in full, in order, by the messages, or not at all. */
  ghost predicate AllWhole(all: seq<Message>) {
    forall n :: Of(all, n) != [] ==> WholeFile(Of(all, n))
  }

  predicate NoDuplicates(names: seq<string>) {
    forall i, j | 0 <= i < j < |names| :: names[i] != names[j]
  }

  /** The names whose pipe has not ended yet. */
  function StillOpen(names: seq<string>, pipes: map<string, Pipe>): seq<string> {
    if names == [] then []
    else
      (if names[0] in pipes && pipes[names[0]].ended then [] else [names[0]]) + StillOpen(names[1..], pipes)
  }

  /** The open pipes are those whose file has not ended. */
  ghost predicate Tracks(openPipes: seq<string>, pipes: map<string, Pipe>) {
    NoDuplicates(openPipes) && forall n :: n in openPipes <==> n in pipes && !pipes[n].ended
  }

  lemma KeepTrack(openPipes: seq<string>, before: map<string, Pipe>, after: map<string, Pipe>, n: string)
    requires Tracks(openPipes, before) && n !in before && after.Keys == before.Keys + {n}
    requires forall k <- before :: after[k] == before[k]
    ensures Tracks(openPipes + if after[n].ended then [] else [n], after)
  {
    assert openPipes + [] == openPipes;
    assert n !in openPipes;
  }

  /** The files in `sent`, and no others, have been answered Ready, each of them once. */
  ghost predicate AnsweredOnce(replies: seq<Reply>, sent: set<string>) {
    forall n :: multiset(replies)[FileReply(n, Ready)] == if n in sent then 1 else 0
  }

  lemma AnswerReady(replies: seq<Reply>, sent: set<string>, n: string)
    requires AnsweredOnce(replies, sent) && n !in sent
    ensures AnsweredOnce(replies + [FileReply(n, Ready)], sent + {n})
  {
  }

  lemma AnswerOther(replies: seq<Reply>, sent: set<string>, reply: Reply)
    requires AnsweredOnce(replies, sent) && (reply.FileReply? ==> reply.status != Ready)
    ensures AnsweredOnce(replies + [reply], sent)
  {
  }

  /** Both threads. The extract thread has `todo` still to send; for the first of these it may already
      hold the memory (`held`). Everything else but the semaphore and the channel belongs to the serving
      thread. `hand` is what it has taken out of the store and not sent yet. */
  class Server {
    const isSmall: string -> bool
    const fileList: seq<string>
    const sem: Semaphore

    /** What is left in the channel of the small files, which no sender holds any more. */
    var smallChannel: seq<Message>

    var channel: seq<Message>
    var todo: seq<Message>
    var held: bool

    var store: Store
    var pipes: map<string, Pipe>
    var openPipes: seq<string>
    var sentFiles: set<string>
    var replies: seq<Reply>
    var stopped: bool
    var receiverEof: bool

    ghost var hand: Store

    /** What is in the channel and what has yet to be sent. */
    ghost var traffic: seq<Message>

    /** The messages of all files, in order. */
    ghost var all: seq<Message>

    /** The serving thread starts with an empty store; `smallFiles` has been sent to it in full, and the
        extract thread goes on to send `large`. */
    constructor (isSmall: string -> bool, fileList: seq<string>, sem: Semaphore,
                 smallFiles: seq<Message>, large: seq<Message>)
      ensures this.isSmall == isSmall && this.fileList == fileList && this.sem == sem
      ensures all == smallFiles + large && smallChannel == smallFiles && channel == [] && todo == large && !held && !receiverEof
      ensures store == map[] && pipes == map[] && hand == map[] && openPipes == [] && sentFiles == {}
      ensures replies == [] && !stopped && traffic == large
    {
      this.isSmall, this.fileList, this.sem, all := isSmall, fileList, sem, smallFiles + large;
      smallChannel, traffic := smallFiles, large;
      channel, todo, held, receiverEof, store, pipes, hand := [], large, false, false, map[], map[], map[];
      openPipes, sentFiles, replies, stopped := [], {}, [], false;
    }

    ghost function Where(): Flow.State
      reads `pipes, `hand, `store, `channel, `todo
    {
      State(pipes, hand, store, channel + todo)
    }

    /** The memory the semaphore has given out. */
    ghost function Taken(): nat
      reads `held, `hand, `store, `channel, `todo
    {
      (if held && todo != [] then Cost(isSmall, todo[0].name, [todo[0].content]) else 0)
      + QueueCost(isSmall, channel) + StoreCost(isSmall, store) + StoreCost(isSmall, hand)
    }

    /** Memory is conserved: the count and what has been given out make up the limit. */
    ghost predicate Budgeted()
      reads `held, `hand, `store, `channel, `todo, `traffic, sem
    {
      traffic == channel + todo && sem.count >= 0 && sem.count + Taken() == sem.startVal
    }

    ghost predicate Valid()
      reads `all, `pipes, `held, `hand, `store, `channel, `todo, `traffic, sem
    {
      var conserved := AllWhole(all) && Where().Conserves(all) && forall n <- store :: store[n] != [];
      conserved && Budgeted()
    }

    /** The same while there are small files to be received. */
    ghost predicate Starting()
      reads `all, `pipes, `held, `hand, `store, `smallChannel, `channel, `todo, `traffic, sem
    {
      var queue := smallChannel + (channel + todo);
      var conserved := State(pipes, hand, store, queue).Conserves(all);
      var small := (forall m <- smallChannel :: isSmall(m.name)) && forall n <- store :: store[n] != [] && isSmall(n);
      AllWhole(all) && conserved && small && Budgeted()
    }

    /** What the serving thread knows of the pipes between two requests. */
    ghost predicate Booked()
      reads `openPipes, `pipes, `sentFiles, `replies
    {
      var known := sentFiles == pipes.Keys && forall n <- pipes :: n in fileList;
      var tracked := Tracks(openPipes, pipes) && AnsweredOnce(replies, pipes.Keys);
      known && tracked
    }

    /** What is on its way is of large files; every file that has been answered Ready has something to be sent,
        all of which has been taken out of the store if it is small. */
    ghost predicate Settled()
      reads `all, `pipes, `store, `traffic, `receiverEof
    {
      ReadyAt(isSmall, all, pipes.Keys, store.Keys, Names(traffic)) && (receiverEof ==> traffic == [])
    }

    /** A file of which nothing is left anywhere else has been written to its pipe to the end. */
    lemma NothingLeft(n: string)
      requires Valid() && hand == map[] && Settled() && n in pipes && n !in store && n !in Names(traffic)
      ensures pipes[n].ended && pipes[n].Log() == Of(all, n)
    {
      OfNobody(traffic, n);
      assert Where().At(n) == Of(all, n) && WholeFile(Of(all, n));
      assert pipes[n].Log() + [] == pipes[n].Log();
    }

    /** Small files are not sent by halves: before its request such a file is in the store, and afterwards its
        pipe has ended. */
    lemma SmallIsThere(n: string)
      requires Valid() && hand == map[] && Settled() && isSmall(n) && Of(all, n) != []
      ensures if n in pipes then pipes[n].ended && pipes[n].Log() == Of(all, n) else n in store
    {
      if n in pipes {
        NothingLeft(n);
      } else {
        OfNobody(traffic, n);
        assert Where().At(n) == Of(all, n);
      }
    }

    /** When all has been sent on, and what had arrived has been written, no pipe is left open. */
    lemma AllClosed()
      requires Valid() && hand == map[] && Booked() && Flushed() && Settled() && traffic == []
      ensures openPipes == []
    {
      if openPipes != [] {
        assert openPipes[0] in openPipes;
        NothingLeft(openPipes[0]);
        assert false;
      }
    }

    /** No file being sent has anything in the store. */
    ghost predicate Flushed()
      reads `openPipes, `store
    {
      forall n <- openPipes :: n !in store
    }

    /** The next chunk is one of a large file, and its memory has not been acquired. */
    predicate NeedsMemory()
      requires todo != []
      reads `todo, `held
    {
      todo[0].content.Chunk? && !isSmall(todo[0].name) && !held
    }

    ghost function NextSize(): nat
      requires todo != []
      reads `todo
    {
      |Data([todo[0].content])|
    }

    /** A chunk larger than the memory limit waits for ever. */
    lemma OversizedWaits()
      requires Valid() && todo != [] && NeedsMemory() && NextSize() > sem.startVal
      ensures sem.count < NextSize()
    {
      assert sem.count + Taken() == sem.startVal;
    }

    /** Any other chunk is let through once all memory has been given back. */
    lemma FittingGoes()
      requires Valid() && todo != [] && NeedsMemory() && Taken() == 0
      ensures sem.count >= NextSize() <==> NextSize() <= sem.startVal
    {
      assert sem.count + Taken() == sem.startVal;
    }

    /** One step of the extract thread: it acquires the memory of its next chunk when there is enough of
        it, and then sends the chunk. Other messages need no memory. */
    method ExtractStep()
      requires Budgeted()
      modifies this`channel, this`todo, this`held, sem
      ensures Budgeted() && channel + todo == old(channel + todo) && old(channel) <= channel
      ensures old(todo) == [] ==> channel == old(channel) && held == old(held) && sem.count == old(sem.count)
      ensures old(todo) != [] && old(NeedsMemory()) ==>
                && channel == old(channel) && held == (old(sem.count) >= old(NextSize()))
                && sem.count == old(sem.count) - if held then old(NextSize()) else 0
      ensures old(todo) != [] && !old(NeedsMemory()) ==>
                channel == old(channel + [todo[0]]) && !held && sem.count == old(sem.count)
    {
      if todo == [] {
        return;
      }
      var next := todo[0];
      MessageCost(isSmall, next);
      if NeedsMemory() {
        held := sem.AcquirePass(|next.content.data|);
      } else {
        SendNextMessage();
      }
    }

    method SendNextMessage()
      requires Budgeted() && todo != [] && !NeedsMemory()
      modifies this`channel, this`todo, this`held
      ensures Budgeted() && channel + todo == old(channel + todo)
      ensures channel == old(channel + [todo[0]]) && !held
    {
      var next := todo[0];
      ghost var taken := Taken();
      MessageCost(isSmall, next);
      QueueCostSnoc(isSmall, channel, next);
      assert channel + todo == (channel + [next]) + todo[1..];
      channel := channel + [next];
      todo := todo[1..];
      held := false;
      assert Taken() == taken;
    }

    method ExtractRuns()
      requires Budgeted()
      modifies this`channel, this`todo, this`held, sem
      ensures Budgeted() && channel + todo == old(channel + todo) && old(Arrived()) <= Arrived() && |todo| <= old(|todo|)
    {
      var steps: nat :| true;
      for _ := 0 to steps
        invariant Budgeted() && channel + todo == old(channel + todo) && old(channel) <= channel
      {
        ExtractStep();
      }
      NamesConcat(old(channel), channel[|old(channel)|..]);
      assert channel == old(channel) + channel[|old(channel)|..];
    }

    method Push(m: Message)
      modifies this`store
      ensures store == old(store)[m.name := Get(old(store), m.name) + [m.content]]
    {
      store := store[m.name := (if m.name in store then store[m.name] else []) + [m.content]];
    }

    method ReceiveSmall()
      requires Starting() && smallChannel != []
      modifies this`smallChannel, this`store
      ensures Starting() && smallChannel == old(smallChannel)[1..]
    {
      var m := smallChannel[0];
      TailOfConcat(smallChannel, channel + todo);
      State(pipes, hand, store, smallChannel + (channel + todo)).Receive(all);
      StoreCostPush(isSmall, store, m.name, m.content);
      smallChannel := smallChannel[1..];
      Push(m);
    }

    /** The first loop of `serve_img`, over the channel of the small files, while the extract thread goes on
        to the large files. */
    method ReadSmallFiles()
      requires Starting()
      modifies this`smallChannel, this`channel, this`todo, this`held, this`store, sem
      ensures Valid() && channel + todo == old(channel + todo) && forall n <- store :: isSmall(n)
    {
      while smallChannel != []
        invariant Starting() && channel + todo == old(channel + todo)
        decreases |smallChannel|
      {
        ExtractRuns();
        ReceiveSmall();
      }
      assert [] + (channel + todo) == channel + todo;
    }

    /** Moves the TCP ports in the files image, when it is a small file: all of it is in the store. */
    method PatchFilesImg(c: Codec<Patcher.FileEntry>, pairs: seq<(nat, nat)>) returns (r: Result<()>)
      requires Valid() && Idle() && c.Lawful()
      requires (forall n <- store :: isSmall(n)) && forall m <- channel + todo :: !isSmall(m.name)
      modifies this`store, this`all
      ensures Valid() && Idle()
      ensures r.Ok? ==> AsRequested(c, pairs, isSmall, old(all), all)
      ensures r.Err? <==> CannotPatch(c, pairs, isSmall, old(all))
    {
      assert isSmall(FILES_IMG) ==> Get(store, FILES_IMG) == Of(all, FILES_IMG) by {
        if isSmall(FILES_IMG) {
          OfNobody(channel + todo, FILES_IMG);
          assert Where().At(FILES_IMG) == Of(all, FILES_IMG);
        }
      }
      if pairs == [] || FILES_IMG !in store {
        return Ok(());
      }
      OfNobody(channel + todo, FILES_IMG);
      Patcher.PrefixOfWhole(store[FILES_IMG]);
      var contents :- Patcher.PatchImg(c, store[FILES_IMG], pairs);
      ReplaceSmall(FILES_IMG, contents);
      r := Ok(());
    }

    /** Puts other contents in the place of a small file that has been received in full. */
    method ReplaceSmall(f: string, contents: seq<FileContent>)
      requires Valid() && hand == map[] && f in store && isSmall(f) && f !in pipes && Of(channel + todo, f) == []
      requires WholeFile(contents)
      modifies this`store, this`all
      ensures Valid() && store == old(store)[f := contents]
      ensures forall n :: Of(all, n) == if n == f then contents else Of(old(all), n)
    {
      ghost var where, taken := Where(), Taken();
      where.Replace(all, f, contents);
      StoreCostReplace(isSmall, store, f, contents);
      ReplacedEach(all, f, contents);
      store, all := store[f := contents], Replaced(all, f, contents);
      assert Where() == where.(store := store);
      assert Taken() == taken;
    }

    method ReceiveOne()
      requires Valid() && channel != []
      modifies this`channel, this`store, this`traffic
      ensures Valid() && channel == old(channel)[1..] && traffic == old(traffic)[1..]
      ensures store.Keys == old(store).Keys + {old(channel)[0].name}
    {
      var m := channel[0];
      assert channel + todo == [m] + (channel[1..] + todo);
      ghost var where, taken := Where(), Taken();
      where.Receive(all);
      StoreCostPush(isSmall, store, m.name, m.content);
      channel, traffic := channel[1..], traffic[1..];
      Push(m);
      assert Where() == where.(store := store, queue := channel + todo);
      assert Taken() == taken;
    }

    /** The channel is empty, or disconnected: the extract thread drops its sender some time after its last
        message. */
    method NoticeEof()
      modifies this`receiverEof
      ensures receiverEof ==> todo == []
    {
      receiverEof := *;
      receiverEof := receiverEof && todo == [];
    }

    /** The files of which something has been received or can be. */
    ghost function Arrived(): set<string>
      reads `store, `channel
    {
      store.Keys + Names(channel)
    }

    /** Takes from the channel what is in it, while the extract thread goes on. */
    method ReceiveAll()
      requires Valid()
      modifies this`channel, this`todo, this`held, this`store, this`receiverEof, this`traffic, sem
      ensures Valid() && channel == [] && (receiverEof ==> todo == []) && (old(todo) == [] ==> todo == [])
      ensures old(Arrived()) <= store.Keys <= old(store.Keys + Names(traffic)) && Names(traffic) <= old(Names(traffic))
    {
      var more := true;
      while more
        invariant Valid() && old(Arrived()) <= Arrived() && |todo| <= old(|todo|) && (more || channel == [])
        invariant store.Keys + Names(traffic) <= old(store.Keys + Names(traffic)) && Names(traffic) <= old(Names(traffic))
        decreases |traffic|, more
      {
        more := ReceiveNext();
      }
      NoticeEof();
    }

    /** One turn of that loop: the next message, unless there is none in the channel. */
    method ReceiveNext() returns (more: bool)
      requires Valid()
      modifies this`channel, this`todo, this`held, this`store, this`traffic, sem
      ensures Valid() && old(Arrived()) <= Arrived() && |todo| <= old(|todo|)
      ensures store.Keys + Names(traffic) <= old(store.Keys + Names(traffic)) && Names(traffic) <= old(Names(traffic))
      ensures if more then |traffic| < old(|traffic|) else channel == [] && traffic == old(traffic)
    {
      ExtractRuns();
      more := channel != [];
      if more {
        NamesOfFirst(channel);
        NamesOfFirst(traffic);
        ReceiveOne();
      }
    }

    /** Writes the chunk in hand. The memory of a chunk of a large file is released, and never more than
        was given out: the clamp of the semaphore changes nothing. */
    method SendChunk(filename: string, data: Bytes, ghost rest: seq<FileContent>)
      requires Valid() && hand == map[filename := [Chunk(data)] + rest]
      requires filename in pipes && !pipes[filename].ended
      modifies this`pipes, this`hand, sem
      ensures Valid() && hand == map[filename := rest]
      ensures pipes == old(pipes)[filename := Pipe(old(pipes)[filename].written + [data], false)]
      ensures sem.count == old(sem.count) + if isSmall(filename) then 0 else |data|
    {
      Where().WriteChunk(all, filename, data, rest);
      ChunkCost(isSmall, filename, data, rest);
      pipes := pipes[filename := Pipe(pipes[filename].written + [data], false)];
      hand := map[filename := rest];
      if !isSmall(filename) {
        sem.Release(|data|);
      }
    }

    /** The end of the file is in hand: nothing is left of it. */
    method SendEnd(filename: string, ghost rest: seq<FileContent>)
      requires Valid() && hand == map[filename := [FileEnd] + rest]
      requires filename in pipes && !pipes[filename].ended
      modifies this`pipes, this`hand
      ensures Valid() && hand == map[] && rest == []
      ensures pipes == old(pipes)[filename := old(pipes)[filename].(ended := true)]
      ensures filename !in store
    {
      ghost var where, taken := Where(), Taken();
      where.Close(all, filename, rest);
      EndCost(isSmall, filename, rest);
      pipes := pipes[filename := pipes[filename].(ended := true)];
      hand := map[];
      assert Where() == where.(pipes := pipes, hand := hand);
      assert Taken() == taken;
    }

    /** The first of the contents in hand is sent. Returns whether it was the end of the file. */
    method SendNext(filename: string, left: seq<FileContent>) returns (ended: bool)
      requires Valid() && left != [] && hand == map[filename := left]
      requires filename in pipes && !pipes[filename].ended
      modifies this`channel, this`todo, this`held, this`pipes, this`hand, sem
      ensures Valid() && hand == if ended then map[] else map[filename := left[1..]]
      ensures pipes.Keys == old(pipes.Keys) && pipes[filename].ended == ended
      ensures forall n <- pipes :: n != filename ==> pipes[n] == old(pipes)[n]
    {
      assert left == [left[0]] + left[1..];
      match left[0] {
        case FileEnd =>
          SendEnd(filename, left[1..]);
          ended := true;
        case Chunk(data) =>
          SendChunk(filename, data, left[1..]);
          ExtractRuns();
          ended := false;
      }
    }

    /** The chunks of `filename` are in hand. Returns whether its end has been written. */
    method SendOverChunks(filename: string, chunks: seq<FileContent>) returns (res: bool)
      requires Valid() && hand == map[filename := chunks]
      requires filename in pipes && !pipes[filename].ended
      modifies this`channel, this`todo, this`held, this`pipes, this`hand, sem
      ensures Valid() && hand == map[]
      ensures pipes.Keys == old(pipes.Keys) && pipes[filename].ended == res
      ensures forall n <- pipes :: n != filename ==> pipes[n] == old(pipes)[n]
    {
      var left := chunks;
      res := false;
      while left != [] && !res
        invariant Valid() && hand == if res then map[] else map[filename := left]
        invariant pipes.Keys == old(pipes.Keys) && pipes[filename].ended == res
        invariant forall n <- pipes :: n != filename ==> pipes[n] == old(pipes)[n]
        decreases |left|
      {
        res := SendNext(filename, left);
        left := left[1..];
      }
      if !res {
        DropHand(filename);
      }
    }

    ghost method DropHand(filename: string)
      requires Valid() && hand == map[filename := []]
      modifies this`hand
      ensures Valid() && hand == map[]
    {
      Where().Drop(all, filename);
      HandCost(isSmall, filename, []);
      hand := map[];
    }

    /** `store.remove`: the chunks of a file go from the store to the hand. */
    method TakeFromStore(filename: string) returns (chunks: seq<FileContent>)
      requires Valid() && hand == map[] && filename in store
      modifies this`store, this`hand
      ensures Valid() && hand == map[filename := chunks] && store == old(store) - {filename}
    {
      chunks := store[filename];
      Where().Take(all, filename);
      StoreCostWithout(isSmall, store, filename);
      HandCost(isSmall, filename, chunks);
      store := store - {filename};
      hand := map[filename := chunks];
    }

    /** Sends what has arrived for an open pipe. Returns whether the file has ended. */
    method SendArrived(filename: string) returns (sentAll: bool)
      requires Valid() && hand == map[] && filename in pipes && !pipes[filename].ended
      modifies this`channel, this`todo, this`held, this`store, this`pipes, this`hand, sem
      ensures Valid() && hand == map[] && pipes.Keys == old(pipes.Keys)
      ensures store == old(store) - {filename} && sentAll == pipes[filename].ended
      ensures forall n <- pipes :: n != filename ==> pipes[n] == old(pipes)[n]
    {
      sentAll := false;
      if filename in store {
        var chunks := TakeFromStore(filename);
        sentAll := SendOverChunks(filename, chunks);
      }
    }

    /** One turn of the loop over the open pipes. */
    method AttendOne(i: nat, before: seq<nat>) returns (finished: seq<nat>)
      requires Valid() && hand == map[] && i < |openPipes| && Attended(openPipes, i, store, pipes, before)
      modifies this`channel, this`todo, this`held, this`store, this`pipes, this`hand, sem
      ensures Valid() && hand == map[] && pipes.Keys == old(pipes.Keys)
      ensures Attended(openPipes, i + 1, store, pipes, finished) && store == old(store) - {openPipes[i]}
    {
      var sentAll := SendArrived(openPipes[i]);
      finished := if sentAll then before + [i] else before;
      AttendNext(openPipes, i, old(store), old(pipes), before, store, pipes);
    }

    /** Sends what has arrived for the open pipes, and lists the positions of those that have ended. */
    method SendToOpenPipes() returns (finished: seq<nat>)
      requires Valid() && hand == map[] && Booked()
      modifies this`channel, this`todo, this`held, this`store, this`pipes, this`hand, sem
      ensures Valid() && hand == map[] && pipes.Keys == old(pipes.Keys)
      ensures Attended(openPipes, |openPipes|, store, pipes, finished)
      ensures old(store.Keys) - old(pipes.Keys) <= store.Keys <= old(store.Keys)
    {
      finished := [];
      for i := 0 to |openPipes|
        invariant Valid() && hand == map[] && pipes.Keys == old(pipes.Keys)
        invariant Attended(openPipes, i, store, pipes, finished)
        invariant old(store.Keys) - old(pipes.Keys) <= store.Keys <= old(store.Keys)
      {
        assert openPipes[i] in pipes;
        finished := AttendOne(i, finished);
      }
    }

    /** Removes the positions listed from the open pipes, last first. */
    method RemoveFinished(finished: seq<nat>)
      requires Attended(openPipes, |openPipes|, store, pipes, finished)
      modifies this`openPipes
      ensures openPipes == StillOpen(old(openPipes), pipes)
      ensures Tracks(openPipes, pipes) && Flushed()
    {
      AttendedAll(openPipes, store, pipes, finished);
      ghost var names := openPipes;
      RemovedNone(names, pipes, finished);
      var k := |finished|;
      while k > 0
        invariant 0 <= k <= |finished|
        invariant openPipes == Removed(names, pipes, finished, k)
      {
        k := k - 1;
        var i := finished[k];
        RemoveNext(names, store, pipes, finished, k);
        openPipes := openPipes[..i] + openPipes[i + 1..];
      }
      RemovedAll(names, store, pipes, finished);
    }

    method FlushOpenPipes()
      requires Valid() && hand == map[] && Booked()
      modifies this`channel, this`todo, this`held, this`store, this`pipes, this`hand, this`openPipes, sem
      ensures Booked() && Flushed() && hand == map[] && Valid()
      ensures pipes.Keys == old(pipes.Keys) && old(store.Keys) - old(pipes.Keys) <= store.Keys <= old(store.Keys)
    {
      var finished := SendToOpenPipes();
      label Sent:
      RemoveFinished(finished);
      assert Where() == old@Sent(Where()) && Taken() == old@Sent(Taken());
    }

    /** A file that has been answered Ready has nothing in the store when a request is handled. */
    lemma SentNotStored(n: string)
      requires Valid() && hand == map[] && Booked() && Flushed() && n in pipes
      ensures n !in store
    {
      if pipes[n].ended {
        assert Where().At(n) == Of(all, n) && pipes[n].Log() != [];
        Where().Ended(all, n);
      }
    }

    /** The client hands over the pipe of a file of which it has received nothing yet. */
    method ReceivePipe(filename: string)
      requires Valid() && filename !in pipes
      modifies this`pipes
      ensures Valid() && pipes == old(pipes)[filename := Pipe([], false)]
    {
      Where().OpenPipe(all, filename);
      pipes := pipes[filename := Pipe([], false)];
    }

    /** Sends what there is of a file to a new pipe. Returns whether that was all of it. */
    method SendToNewPipe(filename: string) returns (res: bool)
      requires Valid() && hand == map[] && filename in store && filename !in pipes
      modifies this`channel, this`todo, this`held, this`store, this`pipes, this`hand, sem
      ensures Valid() && hand == map[] && store == old(store) - {filename}
      ensures pipes.Keys == old(pipes).Keys + {filename} && pipes[filename].ended == res
      ensures forall n <- old(pipes) :: pipes[n] == old(pipes)[n]
    {
      var chunks := TakeFromStore(filename);
      ReceivePipe(filename);
      res := SendOverChunks(filename, chunks);
    }

    /** Keeps the new pipe open unless the file has ended. */
    method OpenFile(filename: string)
      requires Valid() && hand == map[] && Tracks(openPipes, pipes) && filename in store && filename !in pipes
      modifies this`channel, this`todo, this`held, this`store, this`pipes, this`hand, this`openPipes, sem
      ensures Valid() && hand == map[] && Tracks(openPipes, pipes)
      ensures pipes.Keys == old(pipes).Keys + {filename} && store == old(store) - {filename}
    {
      var res := SendToNewPipe(filename);
      KeepTrack(openPipes, old(pipes), pipes, filename);
      KeepOpen(filename, res);
    }

    method KeepOpen(filename: string, ended: bool)
      requires Valid()
      modifies this`openPipes
      ensures Valid() && openPipes == old(openPipes) + if ended then [] else [filename]
    {
      if !ended {
        openPipes := openPipes + [filename];
      }
      assert Where() == old(Where()) && Taken() == old(Taken());
    }

    lemma StoredHasSome(n: string)
      requires Valid() && n in store
      ensures Of(all, n) != []
    {
      assert Where().At(n) == Of(all, n);
    }

    /** A request for one file. It is answered Ready when some of it has arrived, and only once: a second
        request for it is an error. */
    method HandleFileRequest(filename: string) returns (exit: Exit)
      requires Valid() && hand == map[] && Booked() && Flushed() && filename in fileList
      modifies this`channel, this`todo, this`held, this`store, this`pipes, this`hand, this`openPipes
      modifies this`sentFiles, this`replies, sem
      ensures Booked() && hand == map[] && Valid()
      ensures FileAnswered(all, old(pipes.Keys), old(store.Keys), filename, exit, old(replies), replies,
                           pipes.Keys, store.Keys)
    {
      if filename in pipes {
        SentNotStored(filename);
      }
      if filename in store {
        AnswerAndSend(filename);
      } else if filename !in sentFiles {
        ReplyOther(FileReply(filename, NotReady));
        assert Where() == old(Where()) && Taken() == old(Taken());
      } else {
        return Failed(RequestedTwice);
      }
      exit := Running;
    }

    method AnswerAndSend(filename: string)
      requires Valid() && hand == map[] && Booked() && filename in fileList && filename in store && filename !in pipes
      modifies this`channel, this`todo, this`held, this`store, this`pipes, this`hand, this`openPipes
      modifies this`sentFiles, this`replies, sem
      ensures Booked() && hand == map[] && Valid()
      ensures replies == old(replies) + [FileReply(filename, Ready)] && Of(all, filename) != []
      ensures pipes.Keys == old(pipes).Keys + {filename} && store == old(store) - {filename}
    {
      StoredHasSome(filename);
      ReplyReady(filename);
      OpenFile(filename);
    }

    method ReplyReady(filename: string)
      requires AnsweredOnce(replies, sentFiles) && filename !in sentFiles
      modifies this`sentFiles, this`replies
      ensures sentFiles == old(sentFiles) + {filename} && AnsweredOnce(replies, sentFiles)
      ensures replies == old(replies) + [FileReply(filename, Ready)]
    {
      AnswerReady(replies, sentFiles, filename);
      sentFiles := sentFiles + {filename};
      replies := replies + [FileReply(filename, Ready)];
    }

    /** The listener leaves the poller. Asked to leave again, it is not there any more. */
    method HandleStop() returns (exit: Exit)
      modifies this`stopped
      ensures stopped
      ensures exit == if old(stopped) then Failed(Panicked) else if openPipes == [] then Done else Running
    {
      if stopped {
        return Failed(Panicked);
      }
      stopped := true;
      exit := if openPipes == [] then Done else Running;
    }

    /** A reply that sends no file. */
    method ReplyOther(reply: Reply)
      requires Booked() && (reply.FileReply? ==> reply.status != Ready)
      modifies this`replies
      ensures Booked() && replies == old(replies) + [reply]
    {
      AnswerOther(replies, pipes.Keys, reply);
      replies := replies + [reply];
    }

    /** A request that sends no file. */
    method HandleOtherRequest(kind: Kind, filename: string) returns (exit: Exit)
      requires Booked() && kind == KindOf(filename, fileList) != FileRequest
      modifies this`stopped, this`replies
      ensures Booked() && stopped == (old(stopped) || kind == StopRequest)
      ensures Handled(fileList, filename, pipes.Keys, old(stopped), openPipes != [], exit,
                      old(replies), replies, pipes.Keys, stopped)
      ensures exit == if kind != StopRequest then Running
                      else if old(stopped) then Failed(Panicked)
                      else if openPipes == [] then Done else Running
      ensures replies == old(replies) + if kind == ListRequest then [ListReply(Glob.Selected(fileList, filename))]
                                        else if kind == UnknownRequest then [FileReply(filename, DoesNotExist)]
                                        else []
    {
      exit := Running;
      match kind {
        case StopRequest =>
          exit := HandleStop();
          assert old(replies) + [] == old(replies);
        case ListRequest =>
          var names := Glob.FilterFiles(fileList, filename);
          ReplyOther(ListReply(names));
        case UnknownRequest =>
          ReplyOther(FileReply(filename, DoesNotExist));
      }
      OtherIsHandled(fileList, kind, filename, pipes.Keys, old(stopped), openPipes != [], exit, old(replies), replies, stopped);
    }

    method HandleRequest(filename: string) returns (exit: Exit)
      requires Valid() && hand == map[] && Booked() && Flushed() && Settled()
      modifies this`channel, this`todo, this`held, this`store, this`pipes, this`hand, this`openPipes
      modifies this`sentFiles, this`replies, this`stopped, sem
      ensures Booked() && hand == map[] && Valid() && Settled()
      ensures Handled(fileList, filename, old(pipes.Keys), old(stopped), openPipes != [], exit,
                      old(replies), replies, pipes.Keys, stopped)
      ensures KindOf(filename, fileList) == FileRequest && filename in old(store) ==> filename in pipes
    {
      var kind := KindOf(filename, fileList);
      if kind == FileRequest {
        exit := HandleFile(filename);
      } else {
        exit := HandleOther(kind, filename);
      }
    }

    method HandleFile(filename: string) returns (exit: Exit)
      requires Valid() && hand == map[] && Booked() && Flushed() && Settled()
      requires KindOf(filename, fileList) == FileRequest
      modifies this`channel, this`todo, this`held, this`store, this`pipes, this`hand, this`openPipes
      modifies this`sentFiles, this`replies, sem
      ensures Booked() && hand == map[] && Valid() && Settled()
      ensures Handled(fileList, filename, old(pipes.Keys), stopped, openPipes != [], exit,
                      old(replies), replies, pipes.Keys, stopped)
      ensures filename in old(store) ==> filename in pipes
    {
      exit := HandleFileRequest(filename);
      FileSettles(old(pipes.Keys), old(store.Keys), filename, exit, old(replies));
    }

    lemma FileSettles(ready: set<string>, stored: set<string>, filename: string, exit: Exit, before: seq<Reply>)
      requires KindOf(filename, fileList) == FileRequest
      requires ReadyAt(isSmall, all, ready, stored, Names(traffic)) && (receiverEof ==> traffic == [])
      requires FileAnswered(all, ready, stored, filename, exit, before, replies, pipes.Keys, store.Keys)
      ensures Settled()
      ensures Handled(fileList, filename, ready, stopped, openPipes != [], exit, before, replies, pipes.Keys, stopped)
      ensures filename in stored ==> filename in pipes
    {
      if filename !in ready && filename in stored {
        OneMoreReady(isSmall, all, ready, stored, Names(traffic), filename);
      }
      FileIsHandled(fileList, filename, ready, stopped, openPipes != [], exit, before, replies, pipes.Keys,
                    filename in stored);
    }

    method HandleOther(kind: Kind, filename: string) returns (exit: Exit)
      requires Valid() && Booked() && Settled() && kind == KindOf(filename, fileList) != FileRequest
      modifies this`stopped, this`replies
      ensures Booked() && Valid() && Settled()
      ensures Handled(fileList, filename, pipes.Keys, old(stopped), openPipes != [], exit,
                      old(replies), replies, pipes.Keys, stopped)
    {
      exit := HandleOtherRequest(kind, filename);
      assert Where() == old(Where()) && Taken() == old(Taken());
    }

    /** Takes from the channel what is in it, unless it is known to be at its end. */
    method ReceiveMore()
      requires Valid() && Settled()
      modifies this`channel, this`todo, this`held, this`store, this`receiverEof, this`traffic, sem
      ensures Valid() && Settled() && old(if receiverEof then store.Keys else Arrived()) <= store.Keys
      ensures old(todo) == [] ==> todo == [] && traffic == []
    {
      if !receiverEof {
        ReceiveAll();
        MoreReceived(isSmall, all, pipes.Keys, old(store.Keys), old(Names(traffic)), store.Keys, Names(traffic));
      }
    }

    /** What comes before each poll: what has arrived is received, and sent on as far as its pipe is open. */
    method Prepare()
      requires Valid() && hand == map[] && Booked() && Settled()
      modifies this`channel, this`todo, this`held, this`store, this`pipes, this`hand, this`openPipes
      modifies this`receiverEof, this`traffic, sem
      ensures Valid() && hand == map[] && Booked() && Flushed() && Settled() && pipes.Keys == old(pipes.Keys)
      ensures old(if receiverEof then store.Keys else Arrived()) - old(pipes.Keys) <= store.Keys
      ensures old(todo) == [] ==> traffic == [] && openPipes == []
    {
      ReceiveMore();
      FlushReady();
      if traffic == [] {
        AllClosed();
      }
    }

    method FlushReady()
      requires Valid() && hand == map[] && Booked() && Settled()
      modifies this`channel, this`todo, this`held, this`store, this`pipes, this`hand, this`openPipes, sem
      ensures Booked() && Flushed() && hand == map[] && Valid() && Settled()
      ensures pipes.Keys == old(pipes.Keys) && old(store.Keys) - old(pipes.Keys) <= store.Keys
    {
      FlushOpenPipes();
      MoreReceived(isSmall, all, pipes.Keys, old(store.Keys), Names(traffic), store.Keys, Names(traffic));
    }

    /** What one poll makes of the loop, when `ready` were the files answered Ready before. */
    ghost predicate Responded(poll: Poll, ready: set<string>, wasStopped: bool, before: seq<Reply>, exit: Exit)
      reads `replies, `pipes, `stopped, `openPipes
    {
      match poll
      case Request(filename) =>
        Handled(fileList, filename, ready, wasStopped, openPipes != [], exit, before, replies, pipes.Keys, stopped)
      case _ =>
        && replies == before && stopped == wasStopped && pipes.Keys == ready
        && exit == if poll == Timeout && stopped && openPipes == [] then Done else Running
    }

    /** Reacts to what the poller reports. */
    method Respond(poll: Poll) returns (exit: Exit)
      requires Valid() && hand == map[] && Booked() && Flushed() && Settled()
      modifies this`channel, this`todo, this`held, this`store, this`pipes, this`hand, this`openPipes
      modifies this`sentFiles, this`replies, this`stopped, sem
      ensures Booked() && hand == map[] && Valid() && Settled() && NoneNew(old(replies))
      ensures Responded(poll, old(pipes.Keys), old(stopped), old(replies), exit)
      ensures poll.Request? && KindOf(poll.filename, fileList) == FileRequest && poll.filename in old(store) ==>
                poll.filename in pipes
      ensures !poll.Request? ==> openPipes == old(openPipes)
    {
      exit := Running;
      match poll {
        case Timeout =>
          if stopped && openPipes == [] {
            exit := Done;
          }
        case Connection =>
        case Hangup =>
        case Request(filename) =>
          exit := HandleOrSend(filename);
      }
    }

    /** One round of the serving loop. A first request for a file of which something has arrived, if only
        in the channel, is answered Ready. A time-out ends the loop once it has been asked to stop and no pipe
        is open, and none is when the extract thread has sent everything. */
    method ServeRound(poll: Poll) returns (exit: Exit)
      requires Valid() && hand == map[] && Booked() && Settled()
      modifies this`channel, this`todo, this`held, this`store, this`pipes, this`hand, this`openPipes
      modifies this`sentFiles, this`replies, this`stopped, this`receiverEof, this`traffic, sem
      ensures Booked() && hand == map[] && Valid() && Settled() && NoneNew(old(replies))
      ensures Responded(poll, old(pipes.Keys), old(stopped), old(replies), exit)
      ensures old(todo) == [] ==> todo == [] && (poll == Timeout && stopped ==> exit == Done)
      ensures poll.Request? && KindOf(poll.filename, fileList) == FileRequest &&
              poll.filename in old(if receiverEof then store.Keys else Arrived()) ==>
                poll.filename in pipes
    {
      Prepare();
      exit := Respond(poll);
      NoneLeft();
    }

    lemma NoneLeft()
      requires Valid()
      ensures traffic == [] ==> todo == []
    {
    }

    /** A small file is always answered Ready. */
    method HandleOrSend(filename: string) returns (exit: Exit)
      requires Valid() && hand == map[] && Booked() && Flushed() && Settled()
      modifies this`channel, this`todo, this`held, this`store, this`pipes, this`hand, this`openPipes
      modifies this`sentFiles, this`replies, this`stopped, sem
      ensures Booked() && hand == map[] && Valid() && Settled()
      ensures Handled(fileList, filename, old(pipes.Keys), old(stopped), openPipes != [], exit,
                      old(replies), replies, pipes.Keys, stopped)
      ensures KindOf(filename, fileList) == FileRequest && filename in old(store) ==> filename in pipes
      ensures NoneNew(old(replies))
    {
      exit := HandleRequest(filename);
      forall n | isSmall(n) && Of(all, n) != [] && FileReply(n, NotReady) in replies
        ensures FileReply(n, NotReady) in old(replies)
      {
        if FileReply(n, NotReady) !in old(replies) {
          NotReadyIsNotSent(fileList, filename, old(pipes.Keys), old(stopped), openPipes != [], exit,
                            old(replies), replies, pipes.Keys, stopped, n);
          SmallIsThere(n);
        }
      }
    }

    /** No small file has been answered NotReady since `before`. */
    ghost predicate NoneNew(before: seq<Reply>)
      reads `all, `replies
    {
      forall n | isSmall(n) && Of(all, n) != [] ::
        FileReply(n, NotReady) in replies ==> FileReply(n, NotReady) in before
    }

    /** Where the loop stands after `rounds` rounds, all of which it went on from. */
    ghost predicate Through(polls: seq<Poll>, rounds: nat, start: seq<Reply>, wasStopped: bool, idle: bool)
      reads `replies, `stopped, `todo, `all
    {
      var round := rounds <= |polls| && AnsweredSince(fileList, polls[..rounds], start, replies) && NoneNew(start);
      var stop := rounds <= |polls| && (stopped <==> wasStopped || StopAsked(polls[..rounds]));
      var out := idle ==> todo == [] && rounds <= |polls| && NoTimeoutAfterStop(polls, rounds, wasStopped);
      round && stop && out
    }

    /** How the loop is left: where it stands, or why it does not go on, with all answers given. */
    ghost predicate Outcome(polls: seq<Poll>, rounds: nat, start: seq<Reply>, wasStopped: bool, idle: bool, exit: Exit)
      reads `replies, `stopped, `todo, `all, `openPipes, `pipes
    {
      var given := rounds <= |polls| && AnsweredSince(fileList, polls[..rounds], start, replies) && NoneNew(start);
      var left := Leaves(fileList, polls, rounds, exit, wasStopped, pipes.Keys);
      var closed := exit == Done ==> stopped && openPipes == [];
      if exit == Running then Through(polls, rounds, start, wasStopped, idle) else given && left && closed
    }

    method ServeRounds(polls: seq<Poll>) returns (exit: Exit, rounds: nat)
      requires Valid() && hand == map[] && Booked() && Settled()
      modifies this`channel, this`todo, this`held, this`store, this`pipes, this`hand, this`openPipes
      modifies this`sentFiles, this`replies, this`stopped, this`receiverEof, this`traffic, sem
      ensures Valid() && hand == map[] && Booked() && Settled()
      ensures Leaves(fileList, polls, rounds, exit, old(stopped), pipes.Keys)
      ensures AnsweredSince(fileList, polls[..rounds], old(replies), replies) && NoneNew(old(replies))
      ensures exit == Done ==> stopped && openPipes == []
      ensures old(todo) == [] && exit == Running ==> NoTimeoutAfterStop(polls, |polls|, old(stopped))
    {
      exit := Running;
      rounds := 0;
      AtStart(polls, todo == []);
      while rounds < |polls| && exit == Running
        invariant Valid() && hand == map[] && Booked() && Settled()
        invariant Outcome(polls, rounds, old(replies), old(stopped), old(todo) == [], exit)
        decreases |polls| - rounds, exit == Running
      {
        exit, rounds := NextRound(polls, rounds, old(replies), old(stopped), old(todo) == []);
      }
      OutcomeMeans(polls, rounds, old(replies), old(stopped), old(todo) == [], exit);
    }

    lemma OutcomeMeans(polls: seq<Poll>, rounds: nat, start: seq<Reply>, wasStopped: bool, idle: bool, exit: Exit)
      requires Outcome(polls, rounds, start, wasStopped, idle, exit) && (exit == Running ==> rounds >= |polls|)
      ensures Leaves(fileList, polls, rounds, exit, wasStopped, pipes.Keys)
      ensures AnsweredSince(fileList, polls[..rounds], start, replies) && NoneNew(start)
      ensures exit == Done ==> stopped && openPipes == []
      ensures idle && exit == Running ==> NoTimeoutAfterStop(polls, |polls|, wasStopped)
    {
    }

    lemma AtStart(polls: seq<Poll>, idle: bool)
      requires idle ==> todo == []
      ensures Through(polls, 0, replies, stopped, idle)
    {
      assert replies[|replies|..] == [] && polls[..0] == [];
    }

    /** The next round of the loop, with what it means for the loop. */
    method NextRound(polls: seq<Poll>, k: nat, ghost start: seq<Reply>, ghost wasStopped: bool, ghost idle: bool)
      returns (exit: Exit, rounds: nat)
      requires Valid() && hand == map[] && Booked() && Settled() && k < |polls|
      requires Through(polls, k, start, wasStopped, idle)
      modifies this`channel, this`todo, this`held, this`store, this`pipes, this`hand, this`openPipes
      modifies this`sentFiles, this`replies, this`stopped, this`receiverEof, this`traffic, sem
      ensures Valid() && hand == map[] && Booked() && Settled()
      ensures Outcome(polls, rounds, start, wasStopped, idle, exit) && rounds == if exit.Failed? then k else k + 1
    {
      exit := ServeRound(polls[k]);
      rounds := if exit.Failed? then k else k + 1;
      RoundOutcome(polls, k, start, wasStopped, idle, old(replies), old(pipes.Keys), old(stopped), exit);
    }

    lemma RoundOutcome(polls: seq<Poll>, k: nat, start: seq<Reply>, wasStopped: bool, idle: bool, before: seq<Reply>,
                       ready: set<string>, stoppedBefore: bool, exit: Exit)
      requires k < |polls| && AnsweredSince(fileList, polls[..k], start, before)
      requires stoppedBefore <==> wasStopped || StopAsked(polls[..k])
      requires NoneNew(before) && forall n | isSmall(n) && Of(all, n) != [] ::
                 FileReply(n, NotReady) in before ==> FileReply(n, NotReady) in start
      requires Responded(polls[k], ready, stoppedBefore, before, exit)
      requires idle ==> todo == [] && NoTimeoutAfterStop(polls, k, wasStopped)
                        && (polls[k] == Timeout && stopped ==> exit == Done)
      ensures Outcome(polls, if exit.Failed? then k else k + 1, start, wasStopped, idle, exit)
    {
      AskedSnoc(polls, k);
      if !exit.Failed? {
        NextAnswers(polls, k, start, before, ready, stoppedBefore, exit);
      }
    }

    /** A round that is not left by an error gives the answer to its request. */
    lemma NextAnswers(polls: seq<Poll>, k: nat, start: seq<Reply>, before: seq<Reply>, ready: set<string>,
                      wasStopped: bool, exit: Exit)
      requires k < |polls| && AnsweredSince(fileList, polls[..k], start, before)
      requires Responded(polls[k], ready, wasStopped, before, exit) && !exit.Failed?
      ensures AnsweredSince(fileList, polls[..k + 1], start, replies)
      ensures stopped <==> wasStopped || polls[k] == Request("stop-listener")
    {
      if polls[k].Request? {
        HandledIsAnswered(fileList, polls[k].filename, ready, wasStopped, openPipes != [], exit,
                          before, replies, pipes.Keys, stopped);
      }
      var reply := if replies == before then ListReply([]) else replies[|replies| - 1];
      AnsweredNext(fileList, polls, k, start, before, replies, reply);
    }

    /** The pipes have received the first messages of their file, in order; all of them when none is
        left open. */
    lemma PipesServed()
      requires Valid() && hand == map[] && Booked()
      ensures forall n <- pipes :: pipes[n].Log() <= Of(all, n)
      ensures openPipes == [] ==> forall n <- pipes :: pipes[n].Log() == Of(all, n)
    {
      forall n <- pipes
        ensures pipes[n].Log() <= Of(all, n)
        ensures openPipes == [] ==> pipes[n].Log() == Of(all, n)
      {
        Where().Prefix(all, n);
        if openPipes == [] {
          assert n !in openPipes;
          assert Where().At(n) == Of(all, n) && pipes[n].Log() != [];
          Where().Ended(all, n);
        }
      }
    }

    /** How the serving thread is started: nothing has been received, no memory has been taken, and the
        messages of the small files are all there. */
    ghost predicate Started()
      reads this, sem
    {
      && store == map[] && pipes == map[] && hand == map[] && channel == [] && !held && !receiverEof
      && openPipes == [] && sentFiles == {} && replies == [] && !stopped && traffic == todo
      && all == smallChannel + todo && AllWhole(all) && sem.count == sem.startVal >= 0
      && (forall m <- smallChannel :: isSmall(m.name)) && forall m <- todo :: !isSmall(m.name)
    }

    lemma StartedIsStarting()
      requires Started()
      ensures Starting() && channel + todo == todo
    {
      assert channel + todo == todo;
      assert forall n :: State(pipes, hand, store, all).At(n) == Of(all, n);
    }

    /** Everything before the serving loop. */
    method ReadAndPatch(c: Codec<Patcher.FileEntry>, pairs: seq<(nat, nat)>) returns (r: Result<()>)
      requires Started() && c.Lawful()
      modifies this`smallChannel, this`channel, this`todo, this`held, this`store, this`all, sem
      ensures Valid() && Settled() && Idle() && |todo| <= old(|todo|)
      ensures r.Ok? ==> AsRequested(c, pairs, isSmall, old(all), all)
      ensures r.Err? <==> CannotPatch(c, pairs, isSmall, old(all))
    {
      ReceiveFirst();
      r := PatchFilesImg(c, pairs);
      NothingReady();
    }

    /** No request has come. */
    ghost predicate Idle()
      reads `pipes, `hand, `openPipes, `sentFiles, `replies, `stopped
    {
      pipes == map[] && hand == map[] && openPipes == [] && sentFiles == {} && replies == [] && !stopped
    }

    lemma NothingServed()
      requires Idle()
      ensures Booked() && NoneNew([])
    {
    }

    /** The small files are received, and the extract thread goes on. */
    method ReceiveFirst()
      requires Started()
      modifies this`smallChannel, this`channel, this`todo, this`held, this`store, sem
      ensures Valid() && Idle() && |todo| <= old(|todo|)
      ensures (forall n <- store :: isSmall(n)) && forall m <- channel + todo :: !isSmall(m.name)
    {
      StartedIsStarting();
      ReadSmallFiles();
      ExtractRuns();
    }

    lemma NothingReady()
      requires pipes == map[] && !receiverEof && forall m <- traffic :: !isSmall(m.name)
      ensures Settled()
    {
    }

    /** `serve_img`, for whatever the poller reports, with the number of its reports that the loop has been
        through. */
    method ServeImg(c: Codec<Patcher.FileEntry>, pairs: seq<(nat, nat)>, polls: seq<Poll>)
      returns (exit: Exit, rounds: nat)
      requires Started() && c.Lawful()
      modifies this, sem
      ensures Valid() && Booked() && hand == map[]
      ensures CannotPatch(c, pairs, isSmall, old(all)) ==> exit.Failed? && rounds == 0 && replies == [] && pipes == map[]
      ensures !CannotPatch(c, pairs, isSmall, old(all)) ==>
                && AsRequested(c, pairs, isSmall, old(all), all)
                && Leaves(fileList, polls, rounds, exit, false, pipes.Keys)
                && Answered(fileList, polls[..rounds], replies)
      ensures forall n <- pipes :: pipes[n].Log() <= Of(all, n)
      ensures exit == Done ==> stopped && forall n <- pipes :: pipes[n].Log() == Of(all, n)
      // a small file that was announced is always answered Ready, and sent in full at once
      ensures NoneNew([])
      ensures forall n <- pipes :: isSmall(n) ==> pipes[n].Log() == Of(all, n)
      ensures old(todo) == [] && exit == Running ==> NoTimeoutAfterStop(polls, |polls|, false)
    {
      var patched := ReadAndPatch(c, pairs);
      NothingServed();
      if patched.Err? {
        exit, rounds := Failed(patched.error), 0;
      } else {
        exit, rounds := ServeAll(polls);
      }
    }

    /** The serving loop, from its start to where it is left. */
    method ServeAll(polls: seq<Poll>) returns (exit: Exit, rounds: nat)
      requires Valid() && hand == map[] && Booked() && Settled() && replies == [] && !stopped
      modifies this`channel, this`todo, this`held, this`store, this`pipes, this`hand, this`openPipes
      modifies this`sentFiles, this`replies, this`stopped, this`receiverEof, this`traffic, sem
      ensures Valid() && Booked() && hand == map[] && NoneNew([])
      ensures Leaves(fileList, polls, rounds, exit, false, pipes.Keys) && Answered(fileList, polls[..rounds], replies)
      ensures forall n <- pipes :: pipes[n].Log() <= Of(all, n)
      ensures exit == Done ==> stopped && forall n <- pipes :: pipes[n].Log() == Of(all, n)
      ensures forall n <- pipes :: isSmall(n) ==> pipes[n].Log() == Of(all, n)
      ensures old(todo) == [] && exit == Running ==> NoTimeoutAfterStop(polls, |polls|, false)
    {
      exit, rounds := ServeRounds(polls);
      PipesServed();
      SmallPipesServed();
      FromStart(fileList, polls[..rounds], replies);
    }

    lemma SmallPipesServed()
      requires Valid() && hand == map[] && Settled()
      ensures forall n <- pipes :: isSmall(n) ==> pipes[n].Log() == Of(all, n)
    {
      forall n <- pipes | isSmall(n) ensures pipes[n].Log() == Of(all, n) {
        SmallIsThere(n);
      }
    }
  }

  lemma MessageCost(isSmall: string -> bool, m: Message)
    ensures Cost(isSmall, m.name, [m.content]) == if m.content.Chunk? && !isSmall(m.name) then |m.content.data| else 0
    ensures m.content.Chunk? ==> |Data([m.content])| == |m.content.data|
  {
    assert Data([]) == [] && [m.content][1..] == [];
  }

  lemma HandCost(isSmall: string -> bool, n: string, cs: seq<FileContent>)
    ensures StoreCost(isSmall, map[n := cs]) == Cost(isSmall, n, cs)
  {
    StoreCostWithout(isSmall, map[n := cs], n);
    assert map[n := cs] - {n} == map[];
  }

  lemma ChunkCost(isSmall: string -> bool, n: string, data: Bytes, rest: seq<FileContent>)
    ensures StoreCost(isSmall, map[n := [Chunk(data)] + rest])
         == StoreCost(isSmall, map[n := rest]) + if isSmall(n) then 0 else |data|
  {
    HandCost(isSmall, n, [Chunk(data)] + rest);
    HandCost(isSmall, n, rest);
    DataConcat([Chunk(data)], rest);
    assert Data([Chunk(data)]) == data;
  }

  lemma EndCost(isSmall: string -> bool, n: string, rest: seq<FileContent>)
    requires rest == []
    ensures StoreCost(isSmall, map[n := [FileEnd] + rest]) == 0
  {
    assert [FileEnd] + rest == [FileEnd];
    HandCost(isSmall, n, [FileEnd]);
  }

  lemma ReplacedEach(all: seq<Message>, f: string, contents: seq<FileContent>)
    ensures forall n :: Of(Replaced(all, f, contents), n) == if n == f then contents else Of(all, n)
  {
    forall n ensures Of(Replaced(all, f, contents), n) == if n == f then contents else Of(all, n) {
      ReplacedMeans(all, f, contents, n);
    }
  }

  predicate Ascending(marks: seq<nat>) {
    forall i, j | 0 <= i < j < |marks| :: marks[i] < marks[j]
  }

  lemma BetweenMarks(marks: seq<nat>, k: nat)
    requires Ascending(marks) && k < |marks|
    ensures forall j | marks[k] < j && (k + 1 < |marks| ==> j < marks[k + 1]) :: j !in marks
  {
    forall j | marks[k] < j && (k + 1 < |marks| ==> j < marks[k + 1]) ensures j !in marks {
      if i :| 0 <= i < |marks| && marks[i] == j {
        assert i <= k ==> marks[i] <= marks[k];
      }
    }
  }

  lemma BeforeMarks(marks: seq<nat>)
    requires Ascending(marks)
    ensures forall j | marks != [] ==> j < marks[0] :: j !in marks
  {
  }

  /** Names `from` to `to` are all open. */
  lemma {:induction false} AllStillOpen(names: seq<string>, pipes: map<string, Pipe>, from: nat, to: nat)
    requires from <= to <= |names|
    requires forall j | from <= j < to :: names[j] in pipes && !pipes[names[j]].ended
    ensures StillOpen(names[from..], pipes) == names[from..to] + StillOpen(names[to..], pipes)
    decreases |names| - from
  {
    if from == to {
    } else {
      AllStillOpen(names, pipes, from + 1, to);
      assert names[from..][1..] == names[from + 1..];
    }
  }

  lemma StillOpenSkips(names: seq<string>, pipes: map<string, Pipe>, i: nat, b: nat)
    requires i < b <= |names| && names[i] in pipes && pipes[names[i]].ended
    requires forall j | i < j < b :: names[j] in pipes && !pipes[names[j]].ended
    ensures var open := names[..b] + StillOpen(names[b..], pipes);
            open[..i] + open[i + 1..] == names[..i] + StillOpen(names[i..], pipes)
  {
    AllStillOpen(names, pipes, i + 1, b);
    assert names[i..][1..] == names[i + 1..];
    CutAt(names, i, b, StillOpen(names[b..], pipes));
  }

  lemma CutAt<T>(names: seq<T>, i: nat, b: nat, rest: seq<T>)
    requires i < b <= |names|
    ensures var all := names[..b] + rest;
            all[..i] + all[i + 1..] == names[..i] + (names[i + 1..b] + rest)
  {
  }

  lemma {:induction false} StillOpenMeans(names: seq<string>, pipes: map<string, Pipe>)
    requires NoDuplicates(names)
    ensures var open := StillOpen(names, pipes);
            NoDuplicates(open) && forall n :: n in open <==> n in names && !(n in pipes && pipes[n].ended)
  {
    if names == [] {
    } else {
      StillOpenMeans(names[1..], pipes);
      assert forall n :: n in names <==> n == names[0] || n in names[1..];
    }
  }

  /** The first `i` open pipes have got what had arrived; `finished` are the positions of those that
      have ended. */
  ghost predicate Attended(names: seq<string>, i: nat, store: Store, pipes: map<string, Pipe>, finished: seq<nat>) {
    var open :=
      && i <= |names| && NoDuplicates(names)
      && (forall j | 0 <= j < |names| :: names[j] in pipes && (j >= i ==> !pipes[names[j]].ended))
      && (forall j | 0 <= j < i :: names[j] !in store)
      && (forall n :: n in pipes && !pipes[n].ended ==> n in names);
    var listed :=
      && Ascending(finished) && (forall j <- finished :: j < i)
      && forall j | 0 <= j < i && j < |names| && names[j] in pipes :: j in finished <==> pipes[names[j]].ended;
    open && listed
  }

  lemma AttendNext(names: seq<string>, i: nat, store: Store, pipes: map<string, Pipe>, finished: seq<nat>,
                   store': Store, pipes': map<string, Pipe>)
    requires Attended(names, i, store, pipes, finished) && i < |names|
    requires pipes'.Keys == pipes.Keys && forall n <- pipes :: n != names[i] ==> pipes'[n] == pipes[n]
    requires store' == store - {names[i]}
    ensures Attended(names, i + 1, store', pipes', if pipes'[names[i]].ended then finished + [i] else finished)
  {
    var finished' := if pipes'[names[i]].ended then finished + [i] else finished;
    assert forall j | 0 <= j < |names| && j != i :: names[j] != names[i] && pipes'[names[j]] == pipes[names[j]];
    forall k | 0 <= k < |finished| ensures finished[k] < i {
      var j := finished[k];
      assert j in finished;
    }
    assert forall j | 0 <= j < i + 1 :: j in finished' <==> pipes'[names[j]].ended;
  }

  /** The names left once those at the positions `finished[k..]` have been removed. */
  ghost function Removed(names: seq<string>, pipes: map<string, Pipe>, finished: seq<nat>, k: nat): seq<string>
    requires k <= |finished|
  {
    var b := if k < |finished| then finished[k] else |names|;
    if b <= |names| then names[..b] + StillOpen(names[b..], pipes) else []
  }

  lemma RemovedNone(names: seq<string>, pipes: map<string, Pipe>, finished: seq<nat>)
    ensures Removed(names, pipes, finished, |finished|) == names
  {
  }

  lemma OpenBetween(names: seq<string>, store: Store, pipes: map<string, Pipe>, finished: seq<nat>, from: nat, to: nat)
    requires Attended(names, |names|, store, pipes, finished) && from <= to <= |names|
    requires forall j | from <= j < to :: j !in finished
    ensures forall j | from <= j < to :: names[j] in pipes && !pipes[names[j]].ended
  {
  }

  lemma RemoveNext(names: seq<string>, store: Store, pipes: map<string, Pipe>, finished: seq<nat>, k: nat)
    requires Attended(names, |names|, store, pipes, finished) && k < |finished|
    ensures var left, i := Removed(names, pipes, finished, k + 1), finished[k];
            i < |left| && left[..i] + left[i + 1..] == Removed(names, pipes, finished, k)
  {
    var i, b := finished[k], if k + 1 < |finished| then finished[k + 1] else |names|;
    assert i in finished && (k + 1 < |finished| ==> finished[k + 1] in finished);
    assert forall j | i < j < b :: j !in finished by { BetweenMarks(finished, k); }
    OpenBetween(names, store, pipes, finished, i + 1, b);
    StillOpenSkips(names, pipes, i, b);
  }

  lemma RemovedAll(names: seq<string>, store: Store, pipes: map<string, Pipe>, finished: seq<nat>)
    requires Attended(names, |names|, store, pipes, finished)
    ensures Removed(names, pipes, finished, 0) == StillOpen(names, pipes)
  {
    var b := if finished == [] then |names| else finished[0];
    assert finished != [] ==> finished[0] in finished;
    assert forall j | 0 <= j < b :: j !in finished by { BeforeMarks(finished); }
    OpenBetween(names, store, pipes, finished, 0, b);
    AllStillOpen(names, pipes, 0, b);
    assert names[0..] == names;
  }

  lemma AttendedAll(names: seq<string>, store: Store, pipes: map<string, Pipe>, finished: seq<nat>)
    requires Attended(names, |names|, store, pipes, finished)
    ensures Tracks(StillOpen(names, pipes), pipes)
    ensures forall n <- StillOpen(names, pipes) :: n !in store
    ensures forall n <- names :: n in pipes
  {
    StillOpenMeans(names, pipes);
    forall n <- names ensures n in pipes && n !in store {
      var j :| 0 <= j < |names| && names[j] == n;
    }
  }
}
