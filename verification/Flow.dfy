/** Where the messages of each file are while the image is served. */
module Flow {
  import opened Sequences
  import opened Wire
  import opened FsParallel

  /** The client's pipe of a file: the chunks written to it, and whether the file has been written to
      its end. */
  datatype Pipe = Pipe(written: seq<Bytes>, ended: bool) {
    function Log(): seq<FileContent> {
      seq(|written|, i requires 0 <= i < |written| => Chunk(written[i])) + if ended then [FileEnd] else []
    }
  }

  lemma EndSplit(log: seq<FileContent>, rest: seq<FileContent>, a: seq<FileContent>, b: seq<FileContent>)
    ensures log + ([FileEnd] + rest) + a + b == log + [FileEnd] + (rest + a + b)
  {
  }

  type Store = map<string, seq<FileContent>>

  function Get(m: Store, n: string): seq<FileContent> {
    if n in m then m[n] else []
  }

  /** `hand` holds the chunks being sent; `queue` is what is in the channel and what has yet to be sent. */
  datatype State = State(pipes: map<string, Pipe>, hand: Store, store: Store, queue: seq<Message>) {
    ghost function At(n: string): seq<FileContent> {
      (if n in pipes then pipes[n].Log() else []) + Get(hand, n) + Get(store, n) + Of(queue, n)
    }

    /** No message is lost, repeated or overtaken. */
    ghost predicate Conserves(all: seq<Message>) {
      forall n :: At(n) == Of(all, n)
    }

    lemma SameAt(that: State, all: seq<Message>)
      requires Conserves(all) && forall n :: At(n) == that.At(n)
      ensures that.Conserves(all)
    {
      forall n ensures that.At(n) == Of(all, n) {
        assert At(n) == that.At(n);
      }
    }

    lemma Receive(all: seq<Message>)
      requires Conserves(all) && queue != []
      ensures var m := queue[0];
              this.(store := store[m.name := Get(store, m.name) + [m.content]], queue := queue[1..]).Conserves(all)
    {
      var m := queue[0];
      var that := this.(store := store[m.name := Get(store, m.name) + [m.content]], queue := queue[1..]);
      forall n ensures At(n) == that.At(n) {
        var before := (if n in pipes then pipes[n].Log() else []) + Get(hand, n);
        if n == m.name {
          AssociateInner(before, Get(store, n), [m.content], Of(queue[1..], n));
        } else {
          assert Get(that.store, n) == Get(store, n);
        }
      }
      SameAt(that, all);
    }

    lemma Take(all: seq<Message>, n: string)
      requires Conserves(all) && n in store && hand == map[]
      ensures this.(store := store - {n}, hand := map[n := store[n]]).Conserves(all)
    {
      var that := this.(store := store - {n}, hand := map[n := store[n]]);
      forall k ensures At(k) == that.At(k) {
      }
      SameAt(that, all);
    }

    lemma OpenPipe(all: seq<Message>, n: string)
      requires Conserves(all) && n !in pipes
      ensures this.(pipes := pipes[n := Pipe([], false)]).Conserves(all)
    {
      var that := this.(pipes := pipes[n := Pipe([], false)]);
      forall k ensures At(k) == that.At(k) {
      }
      SameAt(that, all);
    }

    lemma WriteChunk(all: seq<Message>, n: string, data: Bytes, rest: seq<FileContent>)
      requires Conserves(all) && hand == map[n := [Chunk(data)] + rest] && n in pipes && !pipes[n].ended
      ensures this.(pipes := pipes[n := Pipe(pipes[n].written + [data], false)], hand := map[n := rest]).Conserves(all)
    {
      var p := Pipe(pipes[n].written + [data], false);
      var that := this.(pipes := pipes[n := p], hand := map[n := rest]);
      assert p.Log() == pipes[n].Log() + [Chunk(data)];
      forall k ensures At(k) == that.At(k) {
      }
      SameAt(that, all);
    }

    /** Nothing of a file is left anywhere once its end is reached. */
    lemma NothingAfterEnd(all: seq<Message>, n: string, rest: seq<FileContent>)
      requires Conserves(all) && n in hand && hand[n] == [FileEnd] + rest && WholeFile(Of(all, n))
      ensures rest == [] && Get(store, n) == [] && Of(queue, n) == []
    {
      var log, cs := if n in pipes then pipes[n].Log() else [], Of(all, n);
      var tail := rest + Get(store, n) + Of(queue, n);
      assert At(n) == cs;
      assert cs == log + [FileEnd] + tail by {
        EndSplit(log, rest, Get(store, n), Of(queue, n));
      }
      assert cs[|log|] == FileEnd;
      EndIsLast(cs, |log|);
      assert |tail| == 0;
    }

    /** The end of a file at hand ends its pipe, and is the last of the file. */
    lemma Close(all: seq<Message>, n: string, rest: seq<FileContent>)
      requires Conserves(all) && hand == map[n := [FileEnd] + rest] && n in pipes && !pipes[n].ended
      requires Of(all, n) != [] ==> WholeFile(Of(all, n))
      ensures rest == [] && Get(store, n) == []
      ensures this.(pipes := pipes[n := pipes[n].(ended := true)], hand := map[]).Conserves(all)
    {
      assert At(n) == Of(all, n) != [];
      NothingAfterEnd(all, n, rest);
      assert [FileEnd] + rest == [FileEnd];
      var p := pipes[n].(ended := true);
      var that := this.(pipes := pipes[n := p], hand := map[]);
      assert p.Log() == pipes[n].Log() + [FileEnd];
      forall k ensures At(k) == that.At(k) {
      }
      SameAt(that, all);
    }

    lemma Drop(all: seq<Message>, n: string)
      requires Conserves(all) && hand == map[n := []]
      ensures this.(hand := map[]).Conserves(all)
    {
      var that := this.(hand := map[]);
      forall k ensures At(k) == that.At(k) {
      }
      SameAt(that, all);
    }

    /** The store's contents of a file are replaced, and so is what the file is from then on. */
    lemma Replace(all: seq<Message>, n: string, contents: seq<FileContent>)
      requires Conserves(all) && n in store && n !in pipes && n !in hand && Of(queue, n) == []
      ensures this.(store := store[n := contents]).Conserves(Replaced(all, n, contents))
    {
      var that := this.(store := store[n := contents]);
      forall k ensures that.At(k) == Of(Replaced(all, n, contents), k) {
        ReplacedMeans(all, n, contents, k);
        assert At(k) == Of(all, k);
        assert k != n ==> that.At(k) == At(k);
      }
    }

    /** An ended pipe has received its whole file, and nothing of it is anywhere else. */
    lemma Ended(all: seq<Message>, n: string)
      requires Conserves(all) && n in pipes && pipes[n].ended && WholeFile(Of(all, n))
      ensures pipes[n].Log() == Of(all, n)
      ensures Get(hand, n) == Get(store, n) == Of(queue, n) == []
    {
      var log, cs := pipes[n].Log(), Of(all, n);
      assert At(n) == cs;
      assert log[|log| - 1] == FileEnd && cs[|log| - 1] == FileEnd;
      EndIsLast(cs, |log| - 1);
    }

    /** At any time a pipe has received the first messages of its file, in order. */
    lemma Prefix(all: seq<Message>, n: string)
      requires Conserves(all) && n in pipes
      ensures pipes[n].Log() <= Of(all, n)
    {
      assert At(n) == Of(all, n);
    }
  }

  function Except(msgs: seq<Message>, n: string): seq<Message> {
    if msgs == [] then [] else (if msgs[0].name == n then [] else [msgs[0]]) + Except(msgs[1..], n)
  }

  /** The messages with those of `n` replaced. */
  function Replaced(msgs: seq<Message>, n: string, contents: seq<FileContent>): seq<Message> {
    Except(msgs, n) + seq(|contents|, i requires 0 <= i < |contents| => Message(n, contents[i]))
  }

  lemma {:induction false} OfExcept(msgs: seq<Message>, n: string, k: string)
    ensures Of(Except(msgs, n), k) == if k == n then [] else Of(msgs, k)
  {
    if msgs == [] {
    } else {
      OfExcept(msgs[1..], n, k);
      OfConcat(if msgs[0].name == n then [] else [msgs[0]], Except(msgs[1..], n), k);
      assert [msgs[0]][1..] == [];
    }
  }

  lemma {:induction false} OfOneFile(n: string, contents: seq<FileContent>, k: string)
    ensures Of(seq(|contents|, i requires 0 <= i < |contents| => Message(n, contents[i])), k) ==
            if k == n then contents else []
  {
    var msgs := seq(|contents|, i requires 0 <= i < |contents| => Message(n, contents[i]));
    if contents == [] {
    } else {
      OfOneFile(n, contents[1..], k);
      assert msgs[1..] == seq(|contents[1..]|, i requires 0 <= i < |contents[1..]| => Message(n, contents[1..][i]));
      assert contents == [contents[0]] + contents[1..];
    }
  }

  lemma ReplacedMeans(msgs: seq<Message>, n: string, contents: seq<FileContent>, k: string)
    ensures Of(Replaced(msgs, n, contents), k) == if k == n then contents else Of(msgs, k)
  {
    OfExcept(msgs, n, k);
    OfOneFile(n, contents, k);
    OfConcat(Except(msgs, n), seq(|contents|, i requires 0 <= i < |contents| => Message(n, contents[i])), k);
    assert Of(msgs, k) + [] == Of(msgs, k);
  }

  lemma {:induction false} OfNobody(msgs: seq<Message>, n: string)
    requires forall m <- msgs :: m.name != n
    ensures Of(msgs, n) == []
  {
    if msgs == [] {
    } else {
      OfNobody(msgs[1..], n);
    }
  }

  lemma EndIsLast(cs: seq<FileContent>, k: nat)
    requires WholeFile(cs) && k < |cs| && cs[k] == FileEnd
    ensures k == |cs| - 1
  {
    assert cs == cs[..|cs| - 1] + [FileEnd];
  }

  // ---- the memory taken by buffered chunks ----

  /** What the chunks cost the semaphore: nothing for small files. */
  function Cost(isSmall: string -> bool, n: string, cs: seq<FileContent>): nat {
    if isSmall(n) then 0 else |Data(cs)|
  }

  function QueueCost(isSmall: string -> bool, msgs: seq<Message>): nat {
    if msgs == [] then 0 else Cost(isSmall, msgs[0].name, [msgs[0].content]) + QueueCost(isSmall, msgs[1..])
  }

  lemma {:induction false} QueueCostSnoc(isSmall: string -> bool, msgs: seq<Message>, m: Message)
    ensures QueueCost(isSmall, msgs + [m]) == QueueCost(isSmall, msgs) + Cost(isSmall, m.name, [m.content])
  {
    if msgs == [] {
      assert ([] + [m])[1..] == [];
    } else {
      QueueCostSnoc(isSmall, msgs[1..], m);
      assert (msgs + [m])[1..] == msgs[1..] + [m];
    }
  }

  ghost function StoreCost(isSmall: string -> bool, store: Store): nat
    decreases |store|
  {
    if store == map[] then 0
    else
      var n :| n in store;
      Cost(isSmall, n, store[n]) + StoreCost(isSmall, store - {n})
  }

  lemma {:induction false} StoreCostWithout(isSmall: string -> bool, store: Store, n: string)
    requires n in store
    ensures StoreCost(isSmall, store) == Cost(isSmall, n, store[n]) + StoreCost(isSmall, store - {n})
    decreases |store|
  {
    var k :| k in store && StoreCost(isSmall, store) == Cost(isSmall, k, store[k]) + StoreCost(isSmall, store - {k});
    if k == n {
    } else {
      StoreCostWithout(isSmall, store - {k}, n);
      StoreCostWithout(isSmall, store - {n}, k);
      assert store - {k} - {n} == store - {n} - {k};
    }
  }

  lemma StoreCostReplace(isSmall: string -> bool, store: Store, n: string, contents: seq<FileContent>)
    requires isSmall(n) && n in store
    ensures StoreCost(isSmall, store[n := contents]) == StoreCost(isSmall, store)
  {
    StoreCostWithout(isSmall, store, n);
    StoreCostWithout(isSmall, store[n := contents], n);
    assert store[n := contents] - {n} == store - {n};
  }

  lemma StoreCostPush(isSmall: string -> bool, store: Store, n: string, c: FileContent)
    ensures StoreCost(isSmall, store[n := Get(store, n) + [c]]) ==
            StoreCost(isSmall, store) + Cost(isSmall, n, [c])
  {
    var pushed := store[n := Get(store, n) + [c]];
    StoreCostWithout(isSmall, pushed, n);
    DataConcat(Get(store, n), [c]);
    if n in store {
      StoreCostWithout(isSmall, store, n);
      assert pushed - {n} == store - {n};
    } else {
      assert pushed - {n} == store;
    }
  }
}
