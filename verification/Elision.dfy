/** Leaving out repeated file names (src/capture.rs:271-285) changes nothing, exactly as long as no
    name is used again right after its file ended. */
module Elision {
  import opened Wrappers
  import opened Sequences
  import opened Image
  import opened Reassembly
  import opened Schedule

  /** What a serializer issues that writes the file name before every drain. */
  function NaiveLogs(ds: seq<Drain>, s: Setup): Logs
    requires s.chunk > 0
  {
    if ds == [] then NO_LOGS
    else DrainLogs(NaiveLogs(ds[..|ds| - 1], s).(current := None), ds[|ds| - 1], s)
  }

  lemma {:induction false} NaiveProcesses(ds: seq<Drain>, s: Setup, small: bool, o0: Output) returns (o: Output)
    requires s.chunk > 0 && Unreserved(ds) && Idle(o0)
    ensures ProcessAll(small, s.json, o0, NaiveLogs(ds, s).Of(small)) == Ok(o)
    ensures Agrees(ds, s, small, o0, o)
  {
    if ds == [] {
      o := o0;
      AgreesAtStart(s, small, o0);
    } else {
      var before, d := ds[..|ds| - 1], ds[|ds| - 1];
      assert ds == before + [d];
      var b := NaiveProcesses(before, s, small, o0);
      o := NaiveStep(before, d, s, small, NaiveLogs(before, s), o0, b);
    }
  }

  lemma NaiveStep(ds: seq<Drain>, d: Drain, s: Setup, small: bool, l: Logs, o0: Output, o: Output)
    returns (o': Output)
    requires s.chunk > 0 && d.name != METADATA_FILE && Agrees(ds, s, small, o0, o)
    requires ProcessAll(small, s.json, o0, l.Of(small)) == Ok(o)
    ensures ProcessAll(small, s.json, o0, DrainLogs(l.(current := None), d, s).Of(small)) == Ok(o')
    ensures Agrees(ds + [d], s, small, o0, o')
  {
    o' := DrainProcesses(ds, d, s, small, l.(current := None), o0, o);
  }

  /** The elided streams mean the same as the naive ones: the same calls, the same files left open. */
  lemma ElisionKeepsMeaning(ds: seq<Drain>, s: Setup, small: bool, o0: Output)
    requires s.chunk > 0 && Unreserved(ds) && NoImmediateReuse(ds) && Idle(o0)
    ensures var elided := ProcessAll(small, s.json, o0, CaptureLogs(ds, s).Of(small));
            var naive := ProcessAll(small, s.json, o0, NaiveLogs(ds, s).Of(small));
            && elided.Ok? && naive.Ok?
            && elided.value.calls == naive.value.calls && elided.value.Held() == naive.value.Held()
  {
    var o := StreamProcesses(ds, s, small, o0);
    var o' := NaiveProcesses(ds, s, small, o0);
  }

  // ---- when a name is reused ----

  /** The marker that follows an elided name, when no file is at hand, is refused. */
  lemma ElidedMarkerRefused(l: Logs, d: Drain, s: Setup, o0: Output, o: Output)
    requires s.chunk > 0 && l.current == Some(d.name) && o.current == None
    requires ProcessAll(s.isSmall(d.name), s.json, o0, l.Of(s.isSmall(d.name))) == Ok(o)
    ensures ProcessAll(s.isSmall(d.name), s.json, o0, DrainLogs(l, d, s).Of(s.isSmall(d.name))).Err?
  {
    var small := s.isSmall(d.name);
    if d.AtEof() {
      EmitProcesses(l.(metadata := l.metadata + [d.name]), small, s.json, o0, o, FileEof(true), []);
    } else {
      var pieces := Pieces(d.data, s.chunk);
      EmitProcesses(l, small, s.json, o0, o, FileData(|pieces[0]|), pieces[0]);
      var first := l.Emit(small, FileData(|pieces[0]|), pieces[0]);
      EmitPiecesGrow(first, small, small, pieces[1..]);
      ErrorStays(small, s.json, o0, first.Of(small), DrainLogs(l, d, s).Of(small));
    }
  }

  /** The first drain of a second file of the same name, right after the first file ended. */
  lemma FirstReuseRefused(ds: seq<Drain>, d: Drain, s: Setup, o0: Output)
    requires s.chunk > 0 && Unreserved(ds) && NoReuseIn(ds, s, s.isSmall(d.name)) && Idle(o0)
    requires ds != [] && ds[|ds| - 1].AtEof() && ds[|ds| - 1].name == d.name
    ensures ProcessAll(s.isSmall(d.name), s.json, o0, CaptureLogs(ds + [d], s).Of(s.isSmall(d.name))).Err?
  {
    var o := StreamProcesses(ds, s, s.isSmall(d.name), o0);
    CaptureKeepsTrack(ds, s);
    SplitLast(ds, d);
    ElidedMarkerRefused(CaptureLogs(ds, s), d, s, o0, o);
  }

  lemma ReuseRefused(ds: seq<Drain>, s: Setup, o0: Output, i: nat)
    requires s.chunk > 0 && Unreserved(ds) && Idle(o0)
    requires 0 < i < |ds| && ds[i - 1].AtEof() && ds[i].name == ds[i - 1].name
    requires NoReuseIn(ds[..i], s, s.isSmall(ds[i].name))
    ensures ProcessAll(s.isSmall(ds[i].name), s.json, o0, CaptureLogs(ds, s).Of(s.isSmall(ds[i].name))).Err?
  {
    var small := s.isSmall(ds[i].name);
    FirstReuseRefused(ds[..i], ds[i], s, o0);
    TakeNext(ds, i);
    LogsGrow(ds, s, small, i + 1);
    ErrorStays(small, s.json, o0, CaptureLogs(ds[..i + 1], s).Of(small), CaptureLogs(ds, s).Of(small));
  }

  /** Exactly when elision is sound, stream by stream. The code has no guard against a second file of the
      same name, so the claim that a captured image can be extracted holds under this condition and no
      weaker one. */
  lemma ExtractableExactlyWithoutImmediateReuse(ds: seq<Drain>, s: Setup, small: bool, o0: Output)
    requires s.chunk > 0 && Unreserved(ds) && Idle(o0)
    ensures ProcessAll(small, s.json, o0, CaptureLogs(ds, s).Of(small)).Ok? <==> NoReuseIn(ds, s, small)
  {
    if NoReuseIn(ds, s, small) {
      var o := StreamProcesses(ds, s, small, o0);
    } else {
      var i := FirstReuse(ds, s, small);
      ReuseRefused(ds, s, o0, i);
    }
  }

  lemma {:induction false} FirstReuse(ds: seq<Drain>, s: Setup, small: bool) returns (i: nat)
    requires !NoReuseIn(ds, s, small)
    ensures 0 < i < |ds| && ds[i - 1].AtEof() && ds[i].name == ds[i - 1].name && s.isSmall(ds[i].name) == small
    ensures NoReuseIn(ds[..i], s, small)
  {
    var before := ds[..|ds| - 1];
    if NoReuseIn(before, s, small) {
      i := |ds| - 1;
    } else {
      i := FirstReuse(before, s, small);
      assert before[..i] == ds[..i];
    }
  }

  /** Two files of the same name, one after the other: the second is refused at its first marker,
      be they small or large. */
  lemma ReuseExample(s: Setup)
    requires s.chunk > 0
    ensures var ds, small := [Drain("a", [1]), Drain("a", []), Drain("a", [2]), Drain("a", [])], s.isSmall("a");
            ProcessAll(small, s.json, START, CaptureLogs(ds, s).Of(small)).Err?
  {
    var ds := [Drain("a", [1]), Drain("a", []), Drain("a", [2]), Drain("a", [])];
    assert ds[..2] == [Drain("a", [1]), Drain("a", [])];
    ReuseRefused(ds, s, START, 2);
  }
}
