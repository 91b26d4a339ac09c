/** What markers mean to the deserializer: the calls it makes on its image store
    (src/extract.rs:168-214 and 309-343), written as a left fold over the markers in issue order. */
module Reassembly {
  import opened Wrappers
  import opened Wire
  import opened Image

  const METADATA_FILE := "metadata.json"

  /** The use the deserializer makes of an `ImageStore` and of the files it creates. */
  datatype Call =
    | Create(name: string)
    | Write(name: string, data: Bytes)
    | Insert(name: string)

  /** `open` is the key set of `img_files`. A file is known by the name it was created under. */
  datatype Output = Output(
    current: Option<string>,
    open: set<string>,
    calls: seq<Call>,
    imageEof: bool,
    metadata: Option<seq<string>>)
  {
    function Held(): set<string> {
      open + if current.Some? then {current.value} else {}
    }
  }

  const START := Output(None, {}, [], false, None)

  function SelectImgFile(o: Output, name: string): (r: Output)
    ensures r.current == Some(name) && r.Held() == o.Held() + {name} && name !in r.open
    ensures r.calls == o.calls + if name in o.Held() then [] else [Create(name)]
  {
    if name in o.Held() then
      o.(current := Some(name), open := o.Held() - {name})
    else
      o.(current := Some(name), open := o.Held(), calls := o.calls + [Create(name)])
  }

  /** `process_marker`. `idle` says that no marker is pending. */
  function Process(o: Output, body: Option<Body>, data: Bytes, idle: bool): Result<Output> {
    match body
    case Some(Filename(name)) => Ok(SelectImgFile(o, name))
    case Some(FileData(_)) =>
      if o.current.None? then Err(UnexpectedMarker)
      else Ok(o.(calls := o.calls + [Write(o.current.value, data)]))
    case Some(FileEof(true)) =>
      if o.current.None? then Err(UnexpectedMarker)
      else Ok(o.(current := None, calls := o.calls + [Insert(o.current.value)]))
    case Some(ImageEof(true)) =>
      if o.open == {} && idle then Ok(o.(imageEof := true)) else Err(UnexpectedImageEof)
    case _ => Err(Malformed)
  }

  /** `process_small_file_marker`: the metadata file is parsed rather than stored. */
  function ProcessSmall(o: Output, body: Option<Body>, data: Bytes, json: Codec<seq<string>>): Result<Output> {
    match body
    case Some(Filename(name)) => Ok(SelectImgFile(o, name))
    case Some(FileData(_)) =>
      if o.current.None? then Err(UnexpectedMarker)
      else if o.current == Some(METADATA_FILE) then
        var names := json.decode(data);
        if names.None? then Err(DecodeFailed) else Ok(o.(metadata := names))
      else Ok(o.(calls := o.calls + [Write(o.current.value, data)]))
    case Some(FileEof(true)) =>
      if o.current.None? then Err(UnexpectedMarker)
      else if o.current == Some(METADATA_FILE) then Ok(o.(current := None))
      else Ok(o.(current := None, calls := o.calls + [Insert(o.current.value)]))
    case _ => Err(Malformed)
  }

  /** What is refused, and as what: in both passes a marker without a body or with a flag that is not set, and
      data or an end without a file at hand; the end of the image among the small files, and elsewhere while a
      file is kept aside or a marker pending. */
  lemma MarkersRefused(o: Output, data: Bytes, idle: bool, json: Codec<seq<string>>, size: nat, flag: bool)
    ensures Process(o, None, data, idle) == Err(Malformed) == ProcessSmall(o, None, data, json)
    ensures Process(o, Some(FileEof(false)), data, idle) == Err(Malformed) == ProcessSmall(o, Some(FileEof(false)), data, json)
    ensures Process(o, Some(ImageEof(false)), data, idle) == Err(Malformed)
    ensures ProcessSmall(o, Some(ImageEof(flag)), data, json) == Err(Malformed)
    ensures o.current.None? ==>
              && Process(o, Some(FileData(size)), data, idle) == Err(UnexpectedMarker)
              && ProcessSmall(o, Some(FileData(size)), data, json) == Err(UnexpectedMarker)
              && Process(o, Some(FileEof(true)), data, idle) == Err(UnexpectedMarker)
              && ProcessSmall(o, Some(FileEof(true)), data, json) == Err(UnexpectedMarker)
    ensures o.open != {} || !idle ==> Process(o, Some(ImageEof(true)), data, idle) == Err(UnexpectedImageEof)
  {
  }

  /** One step of the pass over the small-file shard (`small`) or over the main shards. */
  function ProcessItem(small: bool, json: Codec<seq<string>>, o: Output, it: Item): Result<Output> {
    if small then ProcessSmall(o, it.marker.body, it.payload, json)
    else Process(o, it.marker.body, it.payload, true)
  }

  function ProcessAll(small: bool, json: Codec<seq<string>>, o: Output, items: seq<Item>): Result<Output> {
    if items == [] then Ok(o)
    else
      var before :- ProcessAll(small, json, o, items[..|items| - 1]);
      ProcessItem(small, json, before, items[|items| - 1])
  }

  lemma ProcessSnoc(small: bool, json: Codec<seq<string>>, o: Output, items: seq<Item>, it: Item)
    ensures var before := ProcessAll(small, json, o, items);
            ProcessAll(small, json, o, items + [it]) ==
              if before.Ok? then ProcessItem(small, json, before.value, it) else before
  {
    assert (items + [it])[..|items|] == items;
  }

  lemma {:induction false} PrefixProcesses(small: bool, json: Codec<seq<string>>, o: Output, items: seq<Item>, k: nat)
    requires k <= |items| && ProcessAll(small, json, o, items).Ok?
    ensures ProcessAll(small, json, o, items[..k]).Ok?
  {
    if k < |items| {
      PrefixProcesses(small, json, o, items[..|items| - 1], k);
      assert items[..|items| - 1][..k] == items[..k];
    } else {
      assert items[..k] == items;
    }
  }

  lemma ErrorStays(small: bool, json: Codec<seq<string>>, o: Output, part: seq<Item>, items: seq<Item>)
    requires part <= items && ProcessAll(small, json, o, part).Err?
    ensures ProcessAll(small, json, o, items).Err?
  {
    assert items[..|part|] == part;
    if ProcessAll(small, json, o, items).Ok? {
      PrefixProcesses(small, json, o, items, |part|);
      assert false;
    }
  }

  // ---- what a store holds after a sequence of calls ----

  /** The bytes written to `name` since it was last created. */
  function FileBytes(calls: seq<Call>, name: string): Bytes {
    if calls == [] then []
    else
      var before := FileBytes(calls[..|calls| - 1], name);
      match calls[|calls| - 1]
      case Create(n) => if n == name then [] else before
      case Write(n, data) => if n == name then before + data else before
      case Insert(_) => before
  }

  /** A store may see `call` after `before`: a file is created once, before anything else happens to
      it, and nothing happens to it once it is inserted. */
  predicate Allowed(before: seq<Call>, call: Call) {
    match call
    case Create(n) => forall c <- before :: c.name != n
    case _ => Create(call.name) in before && Insert(call.name) !in before
  }

  predicate Ordered(calls: seq<Call>) {
    calls == [] || (Ordered(calls[..|calls| - 1]) && Allowed(calls[..|calls| - 1], calls[|calls| - 1]))
  }

  /** The files of a store in which each inserted name keeps the bytes written to it. */
  function StoreOf(calls: seq<Call>): map<string, Bytes> {
    map call <- calls | call.Insert? :: call.name := FileBytes(calls, call.name)
  }

  lemma {:induction false} OrderedOnce(calls: seq<Call>, name: string)
    requires Ordered(calls)
    ensures multiset(calls)[Create(name)] <= 1 && multiset(calls)[Insert(name)] <= 1
  {
    if calls == [] {
    } else {
      var before := calls[..|calls| - 1];
      OrderedOnce(before, name);
      assert calls == before + [calls[|calls| - 1]];
    }
  }

  lemma {:induction false} AllowedAt(calls: seq<Call>, k: nat)
    requires Ordered(calls) && k < |calls|
    ensures Allowed(calls[..k], calls[k])
  {
    if k == |calls| - 1 {
    } else {
      AllowedAt(calls[..|calls| - 1], k);
      assert calls[..|calls| - 1][..k] == calls[..k];
    }
  }

  lemma OrderedSnoc(calls: seq<Call>, call: Call)
    requires Ordered(calls) && Allowed(calls, call)
    ensures Ordered(calls + [call])
  {
    assert (calls + [call])[..|calls|] == calls;
  }

  lemma {:induction false} OrderedConcat(a: seq<Call>, b: seq<Call>)
    requires Ordered(a) && Ordered(b)
    requires forall x <- a, y <- b :: x.name != y.name
    ensures Ordered(a + b)
  {
    if b == [] {
      assert a + b == a;
    } else {
      var before, last := b[..|b| - 1], b[|b| - 1];
      assert a + b == a + before + [last];
      OrderedConcat(a, before);
      assert Allowed(a + before, last);
      OrderedSnoc(a + before, last);
    }
  }

  lemma {:induction false} FileBytesConcat(a: seq<Call>, b: seq<Call>, name: string)
    ensures FileBytes(a + b, name) == (if Create(name) in b then [] else FileBytes(a, name)) + FileBytes(b, name)
  {
    if b == [] {
      assert a + b == a;
    } else {
      var before, last := b[..|b| - 1], b[|b| - 1];
      assert (a + b)[..|a + b| - 1] == a + before && (a + b)[|a + b| - 1] == last;
      assert b == before + [last];
      FileBytesConcat(a, before, name);
    }
  }

  lemma {:induction false} FileBytesOfOthers(calls: seq<Call>, name: string)
    requires forall c <- calls :: c.name != name
    ensures FileBytes(calls, name) == []
  {
    if calls == [] {
    } else {
      FileBytesOfOthers(calls[..|calls| - 1], name);
    }
  }

  /** The first `n` items can be processed one after the other, and the image is not at EOF before any. */
  ghost predicate Unended(json: Codec<seq<string>>, o: Output, items: seq<Item>, n: nat)
    requires n <= |items|
  {
    forall k | 0 <= k < n ::
      var before := ProcessAll(false, json, o, items[..k]);
      before.Ok? && !before.value.imageEof
  }

  /** Once an image-EOF marker has been processed the flag stays set. */
  lemma {:induction false} ImageEofStays(json: Codec<seq<string>>, o: Output, items: seq<Item>, k: nat)
    requires k <= |items| && ProcessAll(false, json, o, items).Ok?
    requires ProcessAll(false, json, o, items[..k]).Ok? && ProcessAll(false, json, o, items[..k]).value.imageEof
    ensures ProcessAll(false, json, o, items).value.imageEof
  {
    if k < |items| {
      var before := items[..|items| - 1];
      assert before[..k] == items[..k];
      ImageEofStays(json, o, before, k);
    } else {
      assert items[..k] == items;
    }
  }

  // ---- what a store may be asked ----

  /** The files created and not inserted yet. */
  function OpenAfter(calls: seq<Call>): set<string> {
    if calls == [] then {}
    else
      var before := OpenAfter(calls[..|calls| - 1]);
      match calls[|calls| - 1]
      case Create(n) => before + {n}
      case Write(_, _) => before
      case Insert(n) => before - {n}
  }

  /** A file is created when it is not open, written and inserted when it is. A name may be used again. */
  predicate LegalNext(before: seq<Call>, call: Call) {
    call.Create? <==> call.name !in OpenAfter(before)
  }

  predicate Legal(calls: seq<Call>) {
    calls == [] || (Legal(calls[..|calls| - 1]) && LegalNext(calls[..|calls| - 1], calls[|calls| - 1]))
  }

  lemma {:induction false} LegalAt(calls: seq<Call>, k: nat)
    requires Legal(calls) && k < |calls|
    ensures LegalNext(calls[..k], calls[k])
  {
    if k == |calls| - 1 {
    } else {
      LegalAt(calls[..|calls| - 1], k);
      assert calls[..|calls| - 1][..k] == calls[..k];
    }
  }

  lemma LegalSnoc(calls: seq<Call>, call: Call)
    requires Legal(calls) && LegalNext(calls, call)
    ensures Legal(calls + [call])
    ensures OpenAfter(calls + [call]) ==
              if call.Create? then OpenAfter(calls) + {call.name}
              else if call.Insert? then OpenAfter(calls) - {call.name} else OpenAfter(calls)
  {
    assert (calls + [call])[..|calls|] == calls;
  }

  /** What follows may be asked as if nothing had come before, when it does not concern what was left open. */
  lemma {:induction false} LegalConcat(a: seq<Call>, b: seq<Call>)
    requires Legal(a) && Legal(b) && forall c <- b :: c.name !in OpenAfter(a)
    ensures Legal(a + b) && OpenAfter(a + b) == OpenAfter(a) + OpenAfter(b)
  {
    if b == [] {
      assert a + b == a;
    } else {
      var before, last := b[..|b| - 1], b[|b| - 1];
      assert a + b == a + before + [last];
      LegalConcat(a, before);
      LegalSnoc(a + before, last);
    }
  }
}
