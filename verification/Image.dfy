/** The markers of proto/image.proto, and the byte streams that carry them through the shards. */
module Image {
  import opened Wrappers
  import opened Wire

  datatype Body =
    | Filename(name: string)
    | FileData(size: nat)
    | FileEof(flag: bool)
    | ImageEof(flag: bool)

  datatype Marker = Marker(seqno: nat, body: Option<Body>)

  /** A marker together with the payload that follows it in its shard. */
  datatype Item = Item(marker: Marker, payload: Bytes)

  function DataSize(m: Marker): nat {
    if m.body.Some? && m.body.value.FileData? then m.body.value.size else 0
  }

  predicate Sendable(c: Codec<Marker>, it: Item) {
    c.Fits(it.marker)
  }

  ghost predicate AllSendable(c: Codec<Marker>, log: seq<Item>) {
    forall it <- log :: Sendable(c, it)
  }

  /** Every payload is as long as its marker says. */
  ghost predicate AllSized(log: seq<Item>) {
    forall it <- log :: |it.payload| == DataSize(it.marker)
  }

  /** Items are numbered in the order they were issued. */
  ghost predicate Numbered(log: seq<Item>) {
    forall k | 0 <= k < |log| :: log[k].marker.seqno == k
  }

  function ItemBytes(c: Codec<Marker>, it: Item): Bytes
    requires Sendable(c, it)
  {
    Frame(c, it.marker) + it.payload
  }

  /** The bytes that shard `i` gets of `log[from..]` when item `k` goes to shard `route[k]`. */
  ghost function Sent(c: Codec<Marker>, log: seq<Item>, route: seq<nat>, i: nat, from: nat): Bytes
    requires |route| == |log| && from <= |log| && AllSendable(c, log)
    decreases |log| - from
  {
    if from == |log| then []
    else if route[from] == i then ItemBytes(c, log[from]) + Sent(c, log, route, i, from + 1)
    else Sent(c, log, route, i, from + 1)
  }

  /** The first item at or after `from` that goes to shard `i`; `|route|` when there is none. */
  ghost function NextFor(route: seq<nat>, i: nat, from: nat): (k: nat)
    requires from <= |route|
    ensures from <= k <= |route|
    ensures forall j | from <= j < k :: route[j] != i
    ensures k < |route| ==> route[k] == i
    decreases |route| - from
  {
    if from == |route| || route[from] == i then from else NextFor(route, i, from + 1)
  }

  lemma {:induction false} SentFromNext(c: Codec<Marker>, log: seq<Item>, route: seq<nat>, i: nat, from: nat)
    requires |route| == |log| && from <= |log| && AllSendable(c, log)
    ensures var k := NextFor(route, i, from);
            Sent(c, log, route, i, from) ==
              if k == |log| then [] else ItemBytes(c, log[k]) + Sent(c, log, route, i, k + 1)
    decreases |log| - from
  {
    if from == |log| || route[from] == i {
    } else {
      SentFromNext(c, log, route, i, from + 1);
    }
  }

  /** Issuing one more item appends its bytes to the shard it goes to and to no other. */
  lemma {:induction false} SentAppend(
      c: Codec<Marker>, log: seq<Item>, route: seq<nat>, it: Item, to: nat, i: nat, from: nat)
    requires |route| == |log| && from <= |log| && AllSendable(c, log) && Sendable(c, it)
    ensures AllSendable(c, log + [it])
    ensures Sent(c, log + [it], route + [to], i, from) ==
            Sent(c, log, route, i, from) + (if to == i then ItemBytes(c, it) else [])
    decreases |log| - from
  {
    if from < |log| {
      SentAppend(c, log, route, it, to, i, from + 1);
      assert (log + [it])[from] == log[from] && (route + [to])[from] == route[from];
    } else {
      assert Sent(c, log + [it], route + [to], i, from + 1) == [];
    }
  }

  /** The route of the small-file shard, which gets all of its own items. */
  function Zeros(n: nat): seq<nat> {
    seq(n, _ => 0)
  }

  // ---- both streams together ----

  /** An item and the shard it goes to; 0 is the small-file shard. */
  datatype Dispatch = Dispatch(it: Item, to: nat)

  function SmallOf(ds: seq<Dispatch>): seq<Item> {
    if ds == [] then []
    else
      var before, d := SmallOf(ds[..|ds| - 1]), ds[|ds| - 1];
      if d.to == 0 then before + [d.it] else before
  }

  function MainOf(ds: seq<Dispatch>): seq<Item> {
    if ds == [] then []
    else
      var before, d := MainOf(ds[..|ds| - 1]), ds[|ds| - 1];
      if d.to == 0 then before else before + [d.it]
  }

  function RouteOf(ds: seq<Dispatch>): (route: seq<nat>)
    ensures |route| == |MainOf(ds)|
  {
    if ds == [] then []
    else
      var before, d := RouteOf(ds[..|ds| - 1]), ds[|ds| - 1];
      if d.to == 0 then before else before + [d.to]
  }

  /** The streams are those of `ds`. */
  ghost predicate Dispatched(ds: seq<Dispatch>, small: seq<Item>, main: seq<Item>, route: seq<nat>) {
    small == SmallOf(ds) && main == MainOf(ds) && route == RouteOf(ds)
  }

  lemma DispatchedSnoc(ds: seq<Dispatch>, small: seq<Item>, main: seq<Item>, route: seq<nat>, it: Item, to: nat)
    requires Dispatched(ds, small, main, route)
    ensures if to == 0 then Dispatched(ds + [Dispatch(it, to)], small + [it], main, route)
            else Dispatched(ds + [Dispatch(it, to)], small, main + [it], route + [to])
  {
    assert (ds + [Dispatch(it, to)])[..|ds|] == ds;
  }
}
