/** src/image_store/fs_overlay.rs: files with a destination of their own, in front of another store. */
module Overlay {
  import opened Wire
  import opened Reassembly

  datatype File = Overlayed | Underlying

  // ---- where the calls go ----

  function Creations(calls: seq<Call>, name: string): nat {
    multiset(calls)[Call.Create(name)]
  }

  /** An overlay takes the first file created under its name. */
  predicate ToOverlay(before: seq<Call>, call: Call, overlays: set<string>) {
    call.name in overlays && Creations(before, call.name) == if call.Create? then 0 else 1
  }

  /** The calls that the underlying store should see. */
  function Others(calls: seq<Call>, overlays: set<string>): seq<Call> {
    if calls == [] then []
    else
      var before, call := calls[..|calls| - 1], calls[|calls| - 1];
      if ToOverlay(before, call, overlays) then Others(before, overlays) else Others(before, overlays) + [call]
  }

  /** The bytes that an overlay should get. */
  function OverlayBytes(calls: seq<Call>, overlays: set<string>, name: string): Bytes {
    if calls == [] then []
    else
      var before, call := calls[..|calls| - 1], calls[|calls| - 1];
      if call.Write? && call.name == name && ToOverlay(before, call, overlays) then
        OverlayBytes(before, overlays, name) + call.data
      else
        OverlayBytes(before, overlays, name)
  }

  /** Where the store stands after `calls`. A file keeps the destination it was created with. */
  ghost predicate Routed(calls: seq<Call>, overlays: set<string>, left: set<string>, files: map<string, File>,
                         outputs: map<string, Bytes>, underlying: seq<Call>)
  {
    var passedOn := underlying == Others(calls, overlays);
    var notCreated := left == set n | n in overlays && Creations(calls, n) == 0;
    var written := outputs.Keys == overlays && forall n <- overlays :: outputs[n] == OverlayBytes(calls, overlays, n);
    var open := files.Keys == OpenAfter(calls)
                && forall n <- files :: files[n] == Overlayed <==> n in overlays && Creations(calls, n) == 1;
    passedOn && notCreated && written && open
  }

  lemma Snoc(calls: seq<Call>, call: Call)
    ensures (calls + [call])[..|calls|] == calls
    ensures forall n :: Creations(calls + [call], n) == Creations(calls, n) + if call == Call.Create(n) then 1 else 0
  {
  }

  class Store {
    /** The overlays not created yet. */
    var overlayedFiles: set<string>

    /** The files created and not inserted yet, with their destination. */
    var files: map<string, File>

    /** What has been written to each overlay, and the calls passed on to the underlying store. */
    var outputs: map<string, Bytes>
    var underlying: seq<Call>

    ghost const overlays: set<string>

    ghost predicate At(calls: seq<Call>)
      reads this
    {
      Routed(calls, overlays, overlayedFiles, files, outputs, underlying)
    }

    constructor (overlays: set<string>)
      ensures this.overlays == overlays && At([])
    {
      this.overlays := overlays;
      overlayedFiles, files, underlying := overlays, map[], [];
      outputs := map n <- overlays :: [];
    }

    method Create(filename: string, ghost calls: seq<Call>)
      requires At(calls) && LegalNext(calls, Call.Create(filename))
      modifies this
      ensures At(calls + [Call.Create(filename)])
    {
      Snoc(calls, Call.Create(filename));
      if filename in overlayedFiles {
        overlayedFiles := overlayedFiles - {filename};
        files := files[filename := Overlayed];
      } else {
        files := files[filename := Underlying];
        underlying := underlying + [Call.Create(filename)];
      }
    }

    method Write(filename: string, data: Bytes, ghost calls: seq<Call>)
      requires At(calls) && LegalNext(calls, Call.Write(filename, data))
      modifies this
      ensures At(calls + [Call.Write(filename, data)])
    {
      Snoc(calls, Call.Write(filename, data));
      match files[filename] {
        case Overlayed =>
          outputs := outputs[filename := outputs[filename] + data];
        case Underlying =>
          underlying := underlying + [Call.Write(filename, data)];
      }
    }

    method Insert(filename: string, ghost calls: seq<Call>)
      requires At(calls) && LegalNext(calls, Call.Insert(filename))
      modifies this
      ensures At(calls + [Call.Insert(filename)])
    {
      Snoc(calls, Call.Insert(filename));
      match files[filename] {
        case Overlayed =>
        case Underlying =>
          underlying := underlying + [Call.Insert(filename)];
      }
      files := files - {filename};
    }

    /** The calls of a whole extraction. */
    method Perform(calls: seq<Call>)
      requires At([]) && Legal(calls)
      modifies this
      ensures At(calls)
    {
      for k := 0 to |calls|
        invariant At(calls[..k])
      {
        assert calls[..k + 1] == calls[..k] + [calls[k]];
        LegalAt(calls, k);
        match calls[k] {
          case Create(name) => Create(name, calls[..k]);
          case Write(name, data) => Write(name, data, calls[..k]);
          case Insert(name) => Insert(name, calls[..k]);
        }
      }
      assert calls[..|calls|] == calls;
    }
  }

  /** Of the files created under the name of an overlay the underlying store misses the first, and of all
      others none. */
  lemma {:induction false} OthersCreations(calls: seq<Call>, overlays: set<string>, name: string)
    ensures Creations(Others(calls, overlays), name) ==
            if name in overlays && Creations(calls, name) > 0 then Creations(calls, name) - 1 else Creations(calls, name)
  {
    if calls == [] {
    } else {
      var before, call := calls[..|calls| - 1], calls[|calls| - 1];
      assert calls == before + [call];
      OthersCreations(before, overlays, name);
      CreationsSnoc(before, call, name);
      CreationsSnoc(Others(before, overlays), call, name);
    }
  }

  lemma CreationsSnoc(calls: seq<Call>, call: Call, name: string)
    ensures Creations(calls + [call], name) == Creations(calls, name) + if call == Call.Create(name) then 1 else 0
  {
  }

  // ---- files created once ----

  /** The calls of an extraction of distinct files are legal, and each goes by its name alone. */
  lemma {:induction false} OrderedIsLegal(calls: seq<Call>, overlays: set<string>)
    requires Ordered(calls)
    ensures Legal(calls)
    ensures forall n :: n in OpenAfter(calls) <==> Call.Create(n) in calls && Call.Insert(n) !in calls
    ensures calls != [] ==> var call := calls[|calls| - 1];
              ToOverlay(calls[..|calls| - 1], call, overlays) <==> call.name in overlays
  {
    if calls == [] {
    } else {
      var before, call := calls[..|calls| - 1], calls[|calls| - 1];
      OrderedIsLegal(before, overlays);
      OrderedOnce(before, call.name);
      assert calls == before + [call];
    }
  }

  /** An overlay gets its file, all of it. */
  lemma {:induction false} OverlayGetsFile(calls: seq<Call>, overlays: set<string>, name: string)
    requires Ordered(calls) && name in overlays
    ensures OverlayBytes(calls, overlays, name) == FileBytes(calls, name)
  {
    if calls == [] {
    } else {
      var before, call := calls[..|calls| - 1], calls[|calls| - 1];
      OverlayGetsFile(before, overlays, name);
      OrderedIsLegal(calls, overlays);
      if call == Call.Create(name) {
        FileBytesOfOthers(before, name);
      }
    }
  }

  /** An overlay takes its file away from the underlying store and leaves all others to it, unchanged:
      both destinations still see each of their files created once, written, and inserted once. */
  lemma {:induction false} OthersKeepOrder(calls: seq<Call>, overlays: set<string>)
    requires Ordered(calls)
    ensures Ordered(Others(calls, overlays))
    ensures forall c :: c in Others(calls, overlays) <==> c in calls && c.name !in overlays
  {
    if calls == [] {
    } else {
      var before, call := calls[..|calls| - 1], calls[|calls| - 1];
      OthersKeepOrder(before, overlays);
      OrderedIsLegal(calls, overlays);
      assert calls == before + [call];
      if call.name !in overlays {
        OrderedSnoc(Others(before, overlays), call);
      }
    }
  }

  lemma {:induction false} OthersKeepBytes(calls: seq<Call>, overlays: set<string>, name: string)
    requires name !in overlays
    ensures FileBytes(Others(calls, overlays), name) == FileBytes(calls, name)
  {
    if calls == [] {
    } else {
      var before, call := calls[..|calls| - 1], calls[|calls| - 1];
      OthersKeepBytes(before, overlays, name);
      if !ToOverlay(before, call, overlays) {
        Snoc(Others(before, overlays), call);
      }
    }
  }
}
