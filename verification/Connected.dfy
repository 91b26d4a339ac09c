/** Captured images on connected pipes: what decides whether capture and extraction get through when they
    run at the same time. */
module Connected {
  import opened Wrappers
  import opened Sequences
  import opened Wire
  import opened Image
  import opened Reassembly
  import opened Schedule
  import opened Delivery
  import opened Migration
  import Capture
  import Classifier

  // ---- the loads of an image ----

  ghost predicate AllSent(c: Codec<Marker>, ds: seq<Dispatch>, n: nat) {
    forall d <- ds :: Sendable(c, d.it) && d.to < n
  }

  function LoadOf(c: Codec<Marker>, d: Dispatch): Load
    requires Sendable(c, d.it)
  {
    Load(|Frame(c, d.it.marker)|, |d.it.payload|, d.to)
  }

  /** What is written to both kinds of shards, in order. */
  ghost function PlanOf(c: Codec<Marker>, ds: seq<Dispatch>, n: nat): (plan: seq<Load>)
    requires AllSent(c, ds, n)
    ensures |plan| == |ds| && forall l <- plan :: l.marker > 0 && l.to < n
  {
    if ds == [] then []
    else
      var before, d := ds[..|ds| - 1], ds[|ds| - 1];
      assert d in ds && AllSent(c, before, n);
      PlanOf(c, before, n) + [LoadOf(c, d)]
  }

  ghost function LineOf(c: Codec<Marker>, ds: seq<Dispatch>, n: nat, capacity: nat): Line
    requires AllSent(c, ds, n)
  {
    Line(PlanOf(c, ds, n), n, capacity)
  }

  /** The stream that shard `i` carries in the end. */
  ghost function StreamOf(c: Codec<Marker>, ds: seq<Dispatch>, i: nat): Bytes
    requires AllSendable(c, SmallOf(ds)) && AllSendable(c, MainOf(ds))
  {
    if i == 0 then Sent(c, SmallOf(ds), Zeros(|SmallOf(ds)|), 0, 0) else Sent(c, MainOf(ds), RouteOf(ds), i, 0)
  }

  lemma {:induction false} SentIsSendable(c: Codec<Marker>, ds: seq<Dispatch>, n: nat)
    requires AllSent(c, ds, n)
    ensures AllSendable(c, SmallOf(ds)) && AllSendable(c, MainOf(ds))
  {
    if ds == [] {
    } else {
      var before, d := ds[..|ds| - 1], ds[|ds| - 1];
      assert d in ds;
      SentIsSendable(c, before, n);
      Capture.SendableSnoc(c, SmallOf(before), d.it);
      Capture.SendableSnoc(c, MainOf(before), d.it);
    }
  }

  /** The loads for a shard make up its stream. */
  lemma {:induction false} PlanFillsStreams(c: Codec<Marker>, ds: seq<Dispatch>, n: nat, capacity: nat, i: nat)
    requires AllSent(c, ds, n) && AllSendable(c, SmallOf(ds)) && AllSendable(c, MainOf(ds))
    ensures LineOf(c, ds, n, capacity).Before(i, |ds|) == |StreamOf(c, ds, i)|
  {
    if ds == [] {
    } else {
      var before, d := ds[..|ds| - 1], ds[|ds| - 1];
      assert d in ds;
      SentIsSendable(c, before, n);
      PlanFillsStreams(c, before, n, capacity, i);
      BeforeSnoc(PlanOf(c, before, n), LoadOf(c, d), n, capacity, i);
      StreamSnoc(c, ds, i);
    }
  }

  lemma StreamSnoc(c: Codec<Marker>, ds: seq<Dispatch>, i: nat)
    requires ds != [] && Sendable(c, ds[|ds| - 1].it)
    requires var before := ds[..|ds| - 1]; AllSendable(c, SmallOf(before)) && AllSendable(c, MainOf(before))
    requires AllSendable(c, SmallOf(ds)) && AllSendable(c, MainOf(ds))
    ensures var before, d := ds[..|ds| - 1], ds[|ds| - 1];
            |StreamOf(c, ds, i)| == |StreamOf(c, before, i)| + if d.to == i then |ItemBytes(c, d.it)| else 0
  {
    var before, d := ds[..|ds| - 1], ds[|ds| - 1];
    var small := SmallOf(before);
    if d.to == 0 {
      SentAppend(c, small, Zeros(|small|), d.it, 0, 0, 0);
      assert Zeros(|small| + 1) == Zeros(|small|) + [0];
    } else {
      SentAppend(c, MainOf(before), RouteOf(before), d.it, d.to, i, 0);
    }
  }

  // ---- how much an image puts on the main shards ----

  ghost function ItemsBytes(c: Codec<Marker>, main: seq<Item>): nat
    requires AllSendable(c, main)
  {
    if main == [] then 0
    else
      var before, it := main[..|main| - 1], main[|main| - 1];
      assert it in main && AllSendable(c, before);
      ItemsBytes(c, before) + |ItemBytes(c, it)|
  }

  lemma {:induction false} TotalIsItemsBytes(c: Codec<Marker>, ds: seq<Dispatch>, n: nat)
    requires AllSent(c, ds, n) && AllSendable(c, MainOf(ds))
    ensures MainTotal(PlanOf(c, ds, n)) == ItemsBytes(c, MainOf(ds))
  {
    if ds == [] {
    } else {
      var before, d := ds[..|ds| - 1], ds[|ds| - 1];
      assert d in ds;
      SentIsSendable(c, before, n);
      TotalIsItemsBytes(c, before, n);
      assert PlanOf(c, ds, n)[..|ds| - 1] == PlanOf(c, before, n);
      assert d.to != 0 ==> MainOf(ds)[..|MainOf(ds)| - 1] == MainOf(before);
    }
  }

  /** Whatever the routing: an image with more than all main pipes hold does not get through. */
  lemma NoRouteFits(c: Codec<Marker>, ds: seq<Dispatch>, n: nat, capacity: nat)
    requires AllSent(c, ds, n) && AllSendable(c, MainOf(ds)) && n > 1 && capacity > 0
    requires ItemsBytes(c, MainOf(ds)) > (n - 1) * capacity
    ensures !Fits(LineOf(c, ds, n, capacity))
  {
    TotalIsItemsBytes(c, ds, n);
    TotalDecides(LineOf(c, ds, n, capacity));
  }

  /** Every main item to one shard. */
  function ToOneShard(main: seq<Item>): seq<Dispatch> {
    seq(|main|, k requires 0 <= k < |main| => Dispatch(main[k], 1))
  }

  lemma {:induction false} MainOfOneShard(main: seq<Item>)
    ensures MainOf(ToOneShard(main)) == main
  {
    if main == [] {
    } else {
      var front := main[..|main| - 1];
      MainOfOneShard(front);
      assert ToOneShard(main)[..|main| - 1] == ToOneShard(front);
    }
  }

  lemma {:induction false} OneShardTakesAll(c: Codec<Marker>, ds: seq<Dispatch>, n: nat, capacity: nat)
    requires AllSent(c, ds, n) && AllSendable(c, MainOf(ds)) && forall d <- ds :: d.to == 1
    ensures LineOf(c, ds, n, capacity).Before(1, |ds|) == ItemsBytes(c, MainOf(ds))
  {
    if ds == [] {
    } else {
      var before, d := ds[..|ds| - 1], ds[|ds| - 1];
      assert d in ds;
      SentIsSendable(c, before, n);
      OneShardTakesAll(c, before, n, capacity);
      BeforeSnoc(PlanOf(c, before, n), LoadOf(c, d), n, capacity, 1);
      assert MainOf(ds)[..|MainOf(ds)| - 1] == MainOf(before);
    }
  }

  /** The routings of an image. */
  ghost predicate Routing(c: Codec<Marker>, main: seq<Item>, n: nat, ds: seq<Dispatch>) {
    AllSent(c, ds, n) && MainOf(ds) == main
  }

  /** An image is sure to get through, however it is routed, if and only if a single pipe holds all that goes
      to the main shards. */
  lemma EveryRouteFitsIffOnePipeDoes(c: Codec<Marker>, main: seq<Item>, n: nat, capacity: nat)
    requires AllSendable(c, main) && n > 1 && capacity > 0
    ensures (forall ds | Routing(c, main, n, ds) :: Fits(LineOf(c, ds, n, capacity))) <==> ItemsBytes(c, main) <= capacity
  {
    if ItemsBytes(c, main) <= capacity {
      forall ds | Routing(c, main, n, ds) ensures Fits(LineOf(c, ds, n, capacity)) {
        TotalIsItemsBytes(c, ds, n);
        TotalDecides(LineOf(c, ds, n, capacity));
      }
    } else {
      var ds := ToOneShard(main);
      MainOfOneShard(main);
      assert forall d <- ds :: d.it in main;
      assert Routing(c, main, n, ds);
      OneShardTakesAll(c, ds, n, capacity);
      assert !Fits(LineOf(c, ds, n, capacity));
    }
  }

  // ---- from the files ----

  function Payloads(items: seq<Item>): nat {
    if items == [] then 0 else Payloads(items[..|items| - 1]) + |items[|items| - 1].payload|
  }

  /** The bytes of all large files. */
  function LargeBytes(ds: seq<Drain>, s: Setup): nat {
    if ds == [] then 0
    else
      var d := ds[|ds| - 1];
      LargeBytes(ds[..|ds| - 1], s) + if s.isSmall(d.name) then 0 else |d.data|
  }

  lemma EmitPayload(l: Logs, toSmall: bool, body: Body, payload: Bytes)
    ensures Payloads(l.Emit(toSmall, body, payload).main) == Payloads(l.main) + if toSmall then 0 else |payload|
  {
    var main := l.Emit(toSmall, body, payload).main;
    assert !toSmall ==> main[..|main| - 1] == l.main;
  }

  lemma {:induction false} EmitPiecesPayload(l: Logs, toSmall: bool, pieces: seq<Bytes>)
    ensures Payloads(EmitPieces(l, toSmall, pieces).main) == Payloads(l.main) + if toSmall then 0 else |Flatten(pieces)|
    decreases |pieces|
  {
    if pieces == [] {
    } else {
      EmitPayload(l, toSmall, FileData(|pieces[0]|), pieces[0]);
      EmitPiecesPayload(l.Emit(toSmall, FileData(|pieces[0]|), pieces[0]), toSmall, pieces[1..]);
    }
  }

  /** Capture puts the bytes of the large files on the main shards. */
  lemma {:induction false} CapturedPayload(ds: seq<Drain>, s: Setup)
    requires s.chunk > 0
    ensures Payloads(CaptureLogs(ds, s).main) == LargeBytes(ds, s)
  {
    if ds == [] {
    } else {
      var before, d := CaptureLogs(ds[..|ds| - 1], s), ds[|ds| - 1];
      var toSmall := s.isSmall(d.name);
      CapturedPayload(ds[..|ds| - 1], s);
      EmitPayload(before.(current := Some(d.name)), toSmall, Filename(d.name), []);
      var named := NameFile(before, toSmall, d.name);
      EmitPiecesPayload(named, toSmall, Pieces(d.data, s.chunk));
      PiecesFlatten(d.data, s.chunk);
      var written := EmitPieces(named, toSmall, Pieces(d.data, s.chunk));
      EmitPayload(written.(metadata := written.metadata + [d.name]), toSmall, FileEof(true), []);
    }
  }

  lemma {:induction false} PayloadsAreBytes(c: Codec<Marker>, main: seq<Item>)
    requires AllSendable(c, main)
    ensures Payloads(main) <= ItemsBytes(c, main)
  {
    if main == [] {
    } else {
      assert main[|main| - 1] in main && AllSendable(c, main[..|main| - 1]);
      PayloadsAreBytes(c, main[..|main| - 1]);
    }
  }

  /** Large files with more bytes than all main pipes hold never get through, whatever the routing and however
      small files come in between. */
  lemma LargeFilesBlock(files: seq<Drain>, s: Setup, c: Codec<Marker>, ds: seq<Dispatch>, n: nat, capacity: nat)
    requires s.chunk > 0 && n > 1 && capacity > 0
    requires AllSent(c, ds, n) && MainOf(ds) == FinishLogs(CaptureLogs(files, s), s.json).main
    requires LargeBytes(files, s) > (n - 1) * capacity
    ensures !Fits(LineOf(c, ds, n, capacity))
  {
    var l := MetadataLogs(CaptureLogs(files, s), s.json);
    SentIsSendable(c, ds, n);
    CapturedPayload(files, s);
    EmitPayload(l, false, ImageEof(true), []);
    PayloadsAreBytes(c, MainOf(ds));
    NoRouteFits(c, ds, n, capacity);
  }

  lemma OneLargeFile(name: string, data: Bytes, s: Setup)
    requires !s.isSmall(name)
    ensures LargeBytes([Drain(name, data), Drain(name, [])], s) == |data|
  {
    var first, last := Drain(name, data), Drain(name, []);
    assert [first, last][..1] == [first] && [first][..0] == [];
    assert LargeBytes([first], s) == |data|;
  }

  /** Such an image: the memory pages of one process, of more bytes than all main pipes hold. */
  lemma PagesExample(data: Bytes, s: Setup, c: Codec<Marker>, ds: seq<Dispatch>, n: nat, capacity: nat)
    requires s.chunk > 0 && s.isSmall == Classifier.IsSmallFile && n > 1 && capacity > 0
    requires |data| > (n - 1) * capacity
    requires var files := [Drain("pages-1.img", data), Drain("pages-1.img", [])];
             AllSent(c, ds, n) && MainOf(ds) == FinishLogs(CaptureLogs(files, s), s.json).main
    ensures !Fits(LineOf(c, ds, n, capacity))
  {
    Classifier.PagesAreLarge("1");
    assert "pages-" + "1" + ".img" == "pages-1.img";
    OneLargeFile("pages-1.img", data, s);
    LargeFilesBlock([Drain("pages-1.img", data), Drain("pages-1.img", [])], s, c, ds, n, capacity);
  }

  // ---- a capture ----

  lemma {:induction false} DispatchesAreSent(c: Codec<Marker>, ds: seq<Dispatch>, n: nat)
    requires AllSendable(c, SmallOf(ds)) && AllSendable(c, MainOf(ds)) && n > 0 && forall to <- RouteOf(ds) :: to < n
    ensures AllSent(c, ds, n)
  {
    if ds == [] {
    } else {
      var before, d := ds[..|ds| - 1], ds[|ds| - 1];
      Capture.SendableSnoc(c, SmallOf(before), d.it);
      Capture.SendableSnoc(c, MainOf(before), d.it);
      assert forall to <- RouteOf(before) :: to in RouteOf(ds);
      assert d.to != 0 ==> RouteOf(ds) == RouteOf(before) + [d.to] && d.to in RouteOf(ds);
      DispatchesAreSent(c, before, n);
      assert ds == before + [d];
    }
  }

  /** What a serializer has written makes a line, with its streams. */
  lemma CapturedLine(c: Codec<Marker>, slots: seq<Capture.Shard>, small: seq<Item>, main: seq<Item>, route: seq<nat>,
                     ds: seq<Dispatch>, own: nat, pageSize: nat, capacity: nat)
    requires Capture.Consistent(c, slots, small, main, route, own, pageSize) && Dispatched(ds, small, main, route)
    requires capacity > 0
    ensures AllSent(c, ds, |slots|) && LineOf(c, ds, |slots|, capacity).Valid()
    ensures forall i | 0 <= i < |slots| ::
              LineOf(c, ds, |slots|, capacity).Before(i, |ds|) == |slots[i].stream|
  {
    DispatchesAreSent(c, ds, |slots|);
    forall i | 0 <= i < |slots|
      ensures LineOf(c, ds, |slots|, capacity).Before(i, |ds|) == |slots[i].stream|
    {
      PlanFillsStreams(c, ds, |slots|, capacity, i);
      assert i > 0 ==> Capture.Carries(slots[i], Sent(c, main, route, i, 0), own);
    }
  }

  // ---- how much is written in all ----

  lemma {:induction false} SmallStreamBytes(c: Codec<Marker>, small: seq<Item>)
    requires AllSendable(c, small)
    ensures |Sent(c, small, Zeros(|small|), 0, 0)| == ItemsBytes(c, small)
  {
    if small == [] {
    } else {
      var before, it := small[..|small| - 1], small[|small| - 1];
      assert small == before + [it] && it in small;
      Capture.SendableSnoc(c, before, it);
      SmallStreamBytes(c, before);
      SentAppend(c, before, Zeros(|before|), it, 0, 0, 0);
      assert Zeros(|small|) == Zeros(|before|) + [0];
    }
  }

  /** The sum of the numbers at the positions from 1 to below `n`. */
  function SumTo(xs: seq<nat>, n: nat): nat
    requires n <= |xs|
  {
    if n <= 1 then 0 else SumTo(xs, n - 1) + xs[n - 1]
  }

  lemma {:induction false} SharesAreSum(line: Line, xs: seq<nat>, n: nat)
    requires n <= |xs| && forall i | 1 <= i < n :: xs[i] == line.Before(i, |line.plan|)
    ensures Shares(line, n) == SumTo(xs, n)
  {
    if n <= 1 {
    } else {
      SharesAreSum(line, xs, n - 1);
    }
  }

  /** However the items were routed, the main streams are as long as all main items together. */
  lemma StreamsAddUp(c: Codec<Marker>, slots: seq<Capture.Shard>, small: seq<Item>, main: seq<Item>, route: seq<nat>,
                     ds: seq<Dispatch>, own: nat, pageSize: nat, lengths: seq<nat>)
    requires Capture.Consistent(c, slots, small, main, route, own, pageSize) && Dispatched(ds, small, main, route)
    requires |lengths| == |slots| && forall i | 0 <= i < |slots| :: lengths[i] == |slots[i].stream|
    ensures lengths[0] == ItemsBytes(c, small) && SumTo(lengths, |slots|) == ItemsBytes(c, main)
  {
    var n := |slots|;
    CapturedLine(c, slots, small, main, route, ds, own, pageSize, 1);
    SmallStreamBytes(c, small);
    TotalIsItemsBytes(c, ds, n);
    SharesMakeTotal(PlanOf(c, ds, n), n, 1);
    SharesAreSum(LineOf(c, ds, n, 1), lengths, n);
  }

  /** The image of a serializer, sent through pipes of `capacity` bytes to an extraction that runs at the same
      time: it gets through if and only if each of its main streams fits its pipe. */
  method MigrateCapture(source: Capture.ImageSerializer, line: Line) returns (done: bool)
    requires source.Valid() && line.capacity > 0 && line.n == |source.slots|
    requires AllSent(source.codec, source.dispatches, line.n)
    requires line == LineOf(source.codec, source.dispatches, line.n, line.capacity)
    ensures done <==> forall i | 1 <= i < |source.slots| :: |source.slots[i].stream| <= line.capacity
  {
    CapturedLine(source.codec, source.slots, source.small, source.main, source.route, source.dispatches,
                 source.capacity, source.pageSize, line.capacity);
    var first, s;
    first, done, s := RunMigration(line);
  }
}
