/** From the pipes of the checkpointed application to the pipes of the restored one. */
module EndToEnd {
  import opened Wrappers
  import opened Sequences
  import opened Wire
  import opened Image
  import opened Reassembly
  import opened Schedule
  import opened Delivery
  import Capture
  import Patcher
  import RoundTrip
  import Serve
  import ServeImage

  /** Capture, extraction and serving of an image. When the serving loop is left for good, each file
      that was answered Ready has been sent exactly as it was captured, but for the ports that were to be
      moved in the files image; until then, every pipe has received a first part of that. All requests that
      the loop has come to are answered, each in its turn, and those for small files with the file. */
  method CaptureThenServe(
      codec: Codec<Marker>, isSmall: string -> bool, json: Codec<seq<string>>, capacity: nat, pageSize: nat,
      fds: seq<int>, ds: seq<Drain>, limit: nat, entries: Codec<Patcher.FileEntry>, pairs: seq<(nat, nat)>,
      polls: seq<Serve.Poll>)
    returns (r: Result<Serve.Exit>, rounds: nat, server: Serve.Server?)
    requires |fds| >= 2 && pageSize > 0 && codec.Lawful() && entries.Lawful()
    requires json.Lawful() && json.SelfDelimiting() && isSmall(METADATA_FILE) && Complete(ds)
    ensures var s := Capture.SetupOf(isSmall, json, capacity, pageSize);
            && r.Ok? == (Capture.MarkersFit(codec, FinishLogs(CaptureLogs(ds, s), json)) && RoundTrip.MetadataFits(ds, json))
            && (r.Ok? ==>
                  && server != null && server.fileList == EofOrder(ds)
                  && server.sem.startVal == limit && 0 <= server.sem.count <= limit
                  && ServeImage.Served(ds, s, entries, pairs, polls, rounds, r.value, server.replies, server.pipes)
                  && Serve.AnsweredOnce(server.replies, server.pipes.Keys)
                  && ServedSoFar(ds, s, entries, pairs, server))
            && (r == Ok(Serve.Done) ==> ServedInFull(ds, s, entries, pairs, server))
  {
    server := null;
    ghost var s := Capture.SetupOf(isSmall, json, capacity, pageSize);
    DistinctNoReuse(ds);
    var restored := RoundTrip.CaptureThenExtract(codec, isSmall, json, capacity, pageSize, fds, ds);
    if restored.Err? {
      return Err(restored.error), 0, null;
    }
    var exit;
    exit, rounds, server := ServeImage.ServeCaptured(
      ds, s, isSmall, restored.value.calls, restored.value.metadata, limit, entries, pairs, polls);
    r := Ok(exit);
  }

  ghost predicate ServedSoFar(ds: seq<Drain>, s: Setup, c: Codec<Patcher.FileEntry>, pairs: seq<(nat, nat)>,
                              server: Serve.Server)
    reads server
  {
    forall n <- server.pipes ::
      n in Files(ds) && ServeImage.Partial(ds, s, c, pairs, n, Flatten(server.pipes[n].written))
  }

  ghost predicate ServedInFull(ds: seq<Drain>, s: Setup, c: Codec<Patcher.FileEntry>, pairs: seq<(nat, nat)>,
                               server: Serve.Server)
    reads server
  {
    forall n <- server.pipes ::
      server.pipes[n].ended && ServeImage.Whole(ds, s, c, pairs, n, Flatten(server.pipes[n].written))
  }
}
