# Checkpoint image streamer: a verified model

The streamer takes the image files of a checkpointed application from pipes, cuts them into chunks, and
spreads the chunks over several output pipes, the shards. Later it reads the shards, puts the files
together again and hands them to the application being restored, while it is still reading. This project
models that pipeline in Dafny and proves that it loses, repeats and reorders nothing, whatever the
interleaving.

Check it with `dafny verify dfyconfig.toml`.

## What is modelled

The path of an image, one module a component:

| module | component |
|---|---|
| `Wire` | the length-prefixed messages of `src/util.rs` |
| `Image`, `MarkerCodec` | the markers of `proto/image.proto`, and their protocol-buffer encoding |
| `Capture` | the serializer of `src/capture.rs`, its shards and the balancing of their load |
| `Schedule`, `Elision`, `Delivery` | what the markers of a capture mean: two streams, file names left out, bytes delivered |
| `Reassembly`, `Extract` | the deserializer of `src/extract.rs` over shards that become readable in any order |
| `RoundTrip` | a capture followed by its extraction |
| `Migration`, `Connected` | capture and extraction at work at the same time, on pipes of bounded size |
| `Semaphores`, `FsParallel`, `Flow`, `Serve`, `ServeImage` | the two threads of `serve`, with the memory they share |
| `EndToEnd` | from the pipes of the checkpointed application to those of the restored one |
| `Wrappers`, `Sequences` | results, and facts about sequences, for all the others |
| `Patcher`, `Glob`, `MemFile`, `Overlay`, `Classifier` | moving TCP ports, name patterns, files in memory, overlays, small and large files |

The objects that the source updates in place are classes: `Capture.ImageSerializer`,
`Extract.ImageDeserializer`, `FsParallel.FileSender`, `Semaphores.Semaphore`, `Serve.Server`,
`MemFile.File`, `MemFile.FileReader`, `Overlay.Store`. What the environment decides is left open: the order
in which image files are drained and how much each drain finds (`ds`), what uploaders read and when
(`ConsumersRun`, also inside a blocking write), which shards `poll()` reports (`Poll`), how far the extract
thread has come (`ExtractRuns`), what clients ask for (`polls`). A proof holds for every choice.

The main results:

- **Round trip** (`RoundTrip.CaptureThenExtract`). For every drain schedule in which all files end and none
  is named as the metadata, any number of shards from two up, any routing and any readiness order,
  extraction succeeds if and only if every marker fits the message limit, the metadata fits its size field,
  and no name is reused right after its file ended. Then the store has seen exactly the calls it should:
  distinct files are stored with exactly their bytes, the metadata lists them in EOF order, and each shard
  has as many bytes read as were written.
- **One reference for both ends.** `Schedule.RefCalls` says, without markers, numbers or shards, which calls a
  store should see; `Schedule.StreamProcesses` shows that the markers capture issues mean those calls.
- **Extraction refines a fold** (`Extract.ImageDeserializer.DrainAll`, `Extract.ExtractShards`). Whatever the
  order in which shards are read, extraction succeeds if and only if the markers can be processed in the
  order in which they were issued, and with the same result. The loop ends only when every shard is at its
  end and nothing is pending (`Extract.NoStall`).
- **Connected pipes** (`Migration.RunMigration`). When capture writes into bounded pipes from which extraction
  reads at the same time, in any order and by any amounts, everything is written and read if and only if what
  goes to each main shard fits its pipe. Otherwise both ends end up blocked for ever. An image is sure to get
  through, however it is routed, if and only if one pipe holds all that goes to the main shards
  (`Connected.EveryRouteFitsIffOnePipeDoes`), and large files with more bytes than all main pipes hold never
  do (`Connected.LargeFilesBlock`).
- **Load balancing** (`Capture.ImageSerializer.WriteMainChunk`). A chunk goes to the shard of greatest
  estimate, refreshed when no estimate suffices. With markers of at most a page, a write that blocks found
  no main shard with room. Estimates stay in fixed bounds over every run.
- **Serving** (`Serve.Server.ServeImg`, `ServeImage.ServeCaptured`, `EndToEnd.CaptureThenServe`). In every
  reachable state the semaphore and the memory given out make up the limit. Every request that the loop has
  come to is answered in its turn; a file is answered Ready once, a small one always, and then it is sent to
  its end; any pipe has received a first part of its chunks in order, and all of them when the loop is left.
  When the loop is left, and why, is stated exactly (`Serve.Leaves`, `Serve.NoTimeoutAfterStop`).
- **The port patch** is parse, transform, print, and succeeds if and only if it should.

## What the code does that one might not expect

Each of these was found while proving a property that turned out to need a condition. The condition, or the
exact behaviour, is proved.

- A file drained right after a file of the same name has ended is written without its name, and
  extraction refuses the image: `Elision.ExtractableExactlyWithoutImmediateReuse`,
  `Elision.ReuseExample`. Nothing in the serializer guards against it.
- A file captured under the name `metadata.json` is taken for the metadata and never stored
  (`Delivery.AllStoredIffUnreserved`), without an error when it can be parsed (`Delivery.ReservedExample`).
- The size of the metadata goes through a 32-bit field without a check. Every marker tells the size of its
  payload if and only if the metadata is below 4 GiB (`RoundTrip.FinishSized`), and extraction refuses the
  image otherwise (`RoundTrip.CutRefused`); `RoundTrip.ManyFilesExample` is such an image.
- Extraction reads the small-file shard to its end before any other, and capture ends that shard last. The
  comment in `src/extract.rs:254-268` means to avoid deadlock when the shards of the two are connected
  directly. The loop it belongs to does (`Migration.System.Progress`), but it is entered only when capture is
  done, and before that a main shard that does not fit its pipe blocks both: `Migration.RunMigration`, with
  the input `Connected.PagesExample`.
- A chunk of a large file that is larger than the memory limit waits for ever: `Serve.Server.OversizedWaits`.
- Comments in `src/util.rs:157-158` say that `*` and `?` match any characters. They do not match a line
  feed: `Glob.WildcardsMatchAnythingIffOneLine`.
- Ports are looked up by the low 16 bits of a 32-bit field (`src/image_patcher.rs:94`). The exact condition
  under which the right entries are moved is `Patcher.MovesTheRightEntriesIffFirstPortsFit`;
  `Patcher.WidePortExample` is an input for which they are not.
- A patched entry that outgrows the message limit, because its port takes more bytes, makes `pb_write`
  panic: this is the `EntriesFit` conjunct of `Patcher.Patchable`.
- A second `stop-listener` request removes a poller entry that is no longer there:
  `Serve.Server.HandleStop`.
- A small file in memory that finds less data than announced reports success all the same:
  `MemFile.File.WriteAllFromPipe`.
- The size that `pb_read_next` reports adds the length of a buffer already emptied, which makes it right:
  `Wire.ReadsBackOne`.

## Model

| member | source | states |
|---|---|---|
| Wire.LeRoundTrip | src/util.rs:66-86 | a number that fits its bytes reads back from its little-endian form |
| Wire.U32RoundTrip | src/util.rs:66-86 | the little-endian size prefix reads back as the number written |
| Wire.LeBytes | src/util.rs:86 | the four bytes of a number, one by one, the least significant first |
| Wire.LeInverse | src/util.rs:66 | any bytes are the little-endian form of the number read from them |
| Wire.ReadBytesNext | src/util.rs:48-57 | exactly the bytes asked for; EOF only when there is nothing at all and something was asked for; an error exactly on a short read |
| Wire.PbReadNext | src/util.rs:62-73 | the reported size is exactly what has been consumed; EOF exactly at the end of the stream |
| Wire.PbReadNextMeans | src/util.rs:62-73 | every outcome from the bytes themselves: the size is the sum of the first four, least significant first; it panics from 10240 on, is cut short, does not decode, or gives the message and leaves what follows it |
| Wire.PbWrite | src/util.rs:82-92 | succeeds exactly when the text has less than 10240 bytes; what is written is the length of the text in four bytes, the least significant first, and the text |
| Wire.ReadsBackOne | src/util.rs:62-92 | whatever follows it, a written message is read back with its exact size, and the reader stands where it ends |
| Wire.ReadsAsItGrows | src/util.rs:44-73 | what is read from a stream that grows, by a reader that waits for its bytes, is what is read from the whole of it |
| Wire.CutFrameFails | src/util.rs:44-73 | a proper part of a message is an error, never a message and never EOF |
| Wire.WholeIsGreatest | src/util.rs:59-73 | the messages counted as whole are all of those that end within the cut |
| Wire.ReadsBackPart | src/util.rs:59-73 | reading any first part of a written stream gives its whole messages in order with their sizes, then EOF on a message boundary and an error elsewhere |
| Wire.ReadsBackAll | src/util.rs:59-92 | reading everything back gives what was written, with equal sizes, then EOF |
| Wire.SizesCoverStream | src/util.rs:62-73 | on any stream whatsoever, a reader that ends at EOF has reported exactly its length |
| MarkerCodec.VarintRoundTrip | proto/image.proto:19-31 | the base-128 encoding of any number reads back, whatever follows |
| MarkerCodec.VarintLength | proto/image.proto:19-31 | a number below 128 to the power k takes at most k bytes |
| MarkerCodec.MarkerRoundTrip | proto/image.proto:19-31 | every marker decodes to itself, also with the default sequence number 0 left out |
| MarkerCodec.MarkerFormatLawful | proto/image.proto:19-31 | the concrete encoding is one that the round trip may be used with |
| MarkerCodec.MarkerSize | src/capture.rs:149-151 | apart from the text of a file name a marker takes at most 17 bytes, so that only names decide whether a page is enough for it |
| MarkerCodec.WireFormat | proto/image.proto:19-31 | the bytes of a marker of each kind: fields 1 to 5, all of them varints but for the name, which is preceded by its length |
| Classifier.MetadataIsSmall | src/util.rs:119-142 | the metadata file counts as small, as both ends rely on |
| Classifier.PagesAreLarge | src/util.rs:119-142 | the memory pages of a process count as large, whatever their number |
| Classifier.NumberedAreLarge | src/util.rs:128-130 | read-write layers, pages and ghost files with a number are large, whatever the number |
| Classifier.TcpStreams | src/util.rs:131 | the streams of TCP connections are large, unless their name has a line feed, which the pattern does not match |
| Classifier.GpuStateIsLarge | src/util.rs:132-138 | for each of the seven families of GPU state: large if and only if the name does not speak of a size |
| Classifier.NoctxCallsAreSmall | src/util.rs:126 | calls without a context are small |
| Classifier.NamedFilesAreSmall | src/util.rs:122-124 | the files named one by one are small, and so are those of CRIU that fall to the last branch |
| Capture.ChunkSize | src/capture.rs:211-217 | a chunk has at least a page, and with its marker takes a quarter of the pipe or two pages, whichever is more |
| Schedule.FirstPiece | src/capture.rs:297-302 | one turn of the loop takes the first of the pieces into which the data is cut |
| Schedule.PiecesSizes | src/capture.rs:297-302 | no chunk is empty or above the maximum |
| Schedule.PiecesAreFull | src/capture.rs:297-302 | only the last chunk of a drain may be shorter than the maximum |
| Schedule.PiecesFlatten | src/capture.rs:297-302 | the pieces joined are the data |
| Capture.ImageSerializer.constructor | src/capture.rs:154-167 | all counters at zero, nothing issued, the invariant established |
| Capture.ImageSerializer.GenMarker | src/capture.rs:199-209 | the next number of the stream asked for; the other counter stays |
| Capture.ImageSerializer.Peek | src/capture.rs:121-125 | the main shard of greatest estimate, and of those with the same estimate the one with the greatest descriptor |
| Capture.ImageSerializer.RefreshAllShardRemainingSpace | src/capture.rs:186-197 | every main shard is measured at some moment while the uploaders go on reading; the small-file shard is not touched |
| Capture.ImageSerializer.PickShard | src/capture.rs:230-241 | the estimates are refreshed exactly when none suffices, and the maximum is taken afterwards |
| Capture.ImageSerializer.PutChunk | src/capture.rs:242-250 | marker and data go to the one shard picked; failure exactly when the marker is too large |
| Capture.CandidateEstimates | src/capture.rs:229-241 | the shard picked never has a negative estimate, and no estimate leaves its bounds |
| Capture.ShardAfterWrite | src/capture.rs:242-253 | one shard across a write: what it carries, its byte count, its bounds and its estimate as a lower bound of the free space |
| Capture.MainChunkWritten | src/capture.rs:228-256 | a write placed by estimate preserves the invariant of all shards: contents, byte counts, estimates within minus a chunk and the capacity, estimates below the free space |
| Capture.BlocksOnlyWithoutRoom | src/capture.rs:229-241 | the scheduling guarantee: a chunk that does not fit the free space of the pipe picked was placed after a refresh in which no main shard had enough room |
| Capture.MainChunkOutcome | src/capture.rs:228-256 | the invariant, the choice of the shard and the guarantee of one write together |
| Capture.ImageSerializer.WriteMainChunk | src/capture.rs:228-256 | appends one item to the log and its bytes to the shard picked; the greatest estimate was picked and pays the estimated cost; with markers of at most a page, the chunk fits the free space of that pipe, and cannot block, unless no main shard had enough room |
| Capture.SmallChunkWritten | src/capture.rs:257-266 | a write to the small-file shard preserves the invariant whatever becomes of its estimate |
| Capture.ImageSerializer.WriteSmallChunk | src/capture.rs:257-266 | appends one item to the small-file log and its shard |
| Capture.ImageSerializer.WriteChunk | src/capture.rs:219-269 | the item carries the next number of its stream; failure exactly when its marker is too large |
| Capture.ImageSerializer.MaybeWriteFilenameMarker | src/capture.rs:271-285 | issues the name unless it is that of the last file drained, in either stream |
| Capture.ImageSerializer.DrainImgFile | src/capture.rs:287-311 | issues exactly the markers of one drain; fails exactly when one of them is too large; tells whether there is more to come |
| Capture.ImageSerializer.WriteMetadataToSmallShard | src/capture.rs:169-184 | the metadata file, its bytes written directly and counted, its size through 32 bits |
| Capture.ImageSerializer.WriteImageEof | src/capture.rs:313-319 | the metadata, then one end-of-image marker on the main shards |
| Capture.CaptureImage | src/capture.rs:362-418 | for every drain schedule, exactly the markers of the schedule are issued with all invariants kept; it fails exactly when one of them is too large |
| Image.SentAppend | src/capture.rs:219-269 | one more item changes the stream of the shard it goes to, and no other |
| Image.SentFromNext | src/extract.rs:103-113 | what is left of a shard starts with the next item that went to it |
| Reassembly.SelectImgFile | src/extract.rs:168-187 | the named file is at hand, the one at hand before is kept; a file is created exactly when it is not held already |
| Reassembly.OrderedOnce | src/extract.rs:168-187 | a store that sees calls in a legal order sees each file created at most once and inserted at most once |
| Reassembly.MarkersRefused | src/extract.rs:189-214 | the markers that are never accepted, in either pass: those without a body, with a flag that is false, with no file at hand, the end of an image in the small-file shard, or an end with a file open or a marker pending |
| Schedule.CaptureKeepsTrack | src/capture.rs:271-305 | the current name is that of the last file drained, and the metadata is in EOF order |
| Schedule.OwnDrainProcesses | src/capture.rs:287-311 | the markers of one drain have the effect of that drain on a deserializer, with or without the name |
| Schedule.OtherDrainProcesses | src/capture.rs:287-311 | a drain leaves the other stream as it was |
| Schedule.ElidedNameIsCurrent | src/capture.rs:275-276 | when a name is left out, the deserializer that follows that stream has that very file at hand |
| Schedule.StreamProcesses | src/capture.rs:271-311 | processing either stream of elided markers makes exactly the reference calls: every chunk and every EOF goes to the file it came from |
| Elision.NaiveProcesses | src/capture.rs:271-285 | so does a serializer that writes the name before every drain |
| Elision.ElisionKeepsMeaning | src/capture.rs:271-285 | the elided and the naive stream make the same calls and leave the same files open |
| Elision.ElidedMarkerRefused | src/extract.rs:196-205 | a marker whose name was left out, with no file at hand, is refused |
| Elision.ReuseRefused | src/capture.rs:275-276 | a name used again right after its file ended, for the first time in its stream, makes that stream unprocessable whatever follows |
| Elision.ExtractableExactlyWithoutImmediateReuse | src/capture.rs:271-285 | a stream can be processed if and only if no name of its files is used again right after its EOF |
| Elision.ReuseExample | src/capture.rs:271-285 | two files named alike, one after the other, small or large: an input that is refused |
| Delivery.DrainDelivers | src/extract.rs:196-206 | one drain adds exactly its bytes to its file, created if it was new, inserted at EOF |
| Delivery.OtherDrainDelivers | src/extract.rs:168-206 | and leaves all other files alone |
| Delivery.RefCallsDeliver | src/extract.rs:168-206 | over a whole stream, a file is created if drained, inserted if it ended, and holds the concatenation of its drains |
| Delivery.RefCallsOrdered | src/extract.rs:168-206 | each file is created once, before its writes, and inserted once, after them, however files interleave |
| Delivery.RefCallsLegal | src/extract.rs:168-206 | also where names are used again, a file is created only when it is not open, written and inserted only when it is, and what is left open is what is still being drained |
| Delivery.ImageLegal | src/extract.rs:168-206 | the same of all calls of an image: only the metadata file is left open |
| Delivery.ImageDeliversOne | src/extract.rs:168-206 | over the whole image, the calls on one name: created and inserted if captured, with exactly its bytes |
| Delivery.ImageDelivers | src/extract.rs:168-206 | the store after all calls is exactly the map from names to captured contents |
| Delivery.SmallStreamProcesses | src/extract.rs:309-343 | the small-file stream is processed to its end: the small files, and the metadata in EOF order |
| Delivery.MainStreamProcesses | src/extract.rs:189-214 | the main stream is processed to its end, where the end of the image comes once, last, and unguarded |
| Delivery.MetadataNeverInserted | src/extract.rs:321-338 | no run over the small-file shard inserts a file under the reserved name |
| Delivery.AllStoredIffUnreserved | src/extract.rs:321-338 | the small-file shard is processed with all small files reaching the store if and only if none has the reserved name |
| Delivery.ReservedExample | src/extract.rs:321-338 | a file of that name holding an empty list: accepted, and lost |
| Delivery.SmallStreamExactly | src/extract.rs:309-343 | the small-file stream of a finished capture has its known result if no name in it is reused at once, and is refused otherwise |
| Delivery.MainStreamExactly | src/extract.rs:189-214 | and so has the main stream |
| Extract.ProcessesAsItGrows | src/extract.rs:196-200 | a marker whose payload has arrived is processed as with all of its shard at hand |
| Extract.AlignedRead | src/extract.rs:238-252 | a shard that is not pending is at a marker boundary: reading it gives its next marker or its end, never an error, and never data after the end of an image that can be processed |
| Extract.PendingIsLater | src/extract.rs:216-223 | a pending marker has a number not processed yet |
| Extract.DueMarkerFolds | src/extract.rs:189-214 | the marker due, in whatever order shards were read, is the one the fold processes next, and its payload is the next in its shard |
| Extract.EndComesAlone | src/extract.rs:160-166 | the end of an image that can be processed comes when no other marker is pending |
| Extract.DueMarkerAccepted | src/extract.rs:189-214 | a marker is accepted only as the fold accepts it, and no guard fires in an image that can be processed |
| Extract.AlignedProcess | src/extract.rs:225-232 | processing the marker due moves its shard past its payload and leaves every shard where it belongs |
| Extract.NextIsWithinReach | src/extract.rs:216-232 | the shard of the next number is neither at its end nor stuck behind another marker |
| Extract.NoStall | src/extract.rs:254-307 | with nothing to read and nothing due, the whole image has been processed and nothing is pending |
| Extract.Places.Located | src/extract.rs:104-113 | a main shard is in exactly one of the places, and nothing else is in any |
| Extract.Places.Split | src/extract.rs:291-303 | dividing the waiting shards by readiness keeps each in one place |
| Extract.Places.PutPending | src/extract.rs:244-248 | a shard set aside with its marker is in no other place |
| Extract.AllInShards | src/extract.rs:140-158 | at the start every main shard waits in `shards` |
| Extract.ImageDeserializer.constructor | src/extract.rs:140-158 | every main shard waits in `shards`; nothing processed |
| Extract.ImageDeserializer.SelectImgFile | src/extract.rs:168-187 | refines the reference on the output state |
| Extract.ImageDeserializer.MarkImageEof | src/extract.rs:160-166 | succeeds exactly when no file is open and no marker pending |
| Extract.ImageDeserializer.ProcessMarker | src/extract.rs:189-214 | the effect of a marker on the output, the bytes it takes from its shard and their count, or its exact error |
| Extract.ImageDeserializer.GetNextInOrderMarker | src/extract.rs:216-223 | the marker whose number is due, if it is pending; on a captured image, none only if it is not |
| Extract.ImageDeserializer.ProcessPendingMarkers | src/extract.rs:225-232 | processes until none is due; every shard stays in one place and is counted; no error on a captured image |
| Extract.ImageDeserializer.ReadMarker | src/extract.rs:238-248 | a marker, set aside with its shard, or the end of the shard; data after the end of the image is an error |
| Extract.ImageDeserializer.DrainShard | src/extract.rs:238-252 | something is read or a shard is retired, and the invariants of alignment and place are kept |
| Extract.ImageDeserializer.SplitReadable | src/extract.rs:291-303 | exactly the shards that `poll()` reported become readable, the others stay, and there is at least one of the first kind |
| Extract.ImageDeserializer.GetNextReadableShard | src/extract.rs:254-307 | None only when there is no shard left to read; else one shard leaves the lists, a readable one if there is any |
| Extract.ImageDeserializer.DrainAll | src/extract.rs:368-374 | ends on any input; success means every main shard read to its end and every byte counted; on shards that carry an image it succeeds if and only if the markers can be processed in issue order, the last one alone ending the image, with their output; without a shard it fails |
| Extract.SmallRead | src/extract.rs:346-358 | the small-file shard gives its items one by one, with the numbers expected, each processed as the fold does |
| Extract.ImageDeserializer.ProcessSmallFileMarker | src/extract.rs:309-343 | the effect of a marker of the small-file shard, the metadata included, or its exact error |
| Extract.ImageDeserializer.DrainSmallFileShard | src/extract.rs:346-365 | the shard is read to its end and the metadata handed out; it is accepted if and only if its items can be processed and one of them was the metadata, and refused for a bad item whatever follows it |
| Extract.ExtractShards | src/extract.rs:577-601 | both passes succeed if and only if both streams can be processed, the metadata in the first and the end of the image in the second, with their output; on any input, success means every byte of the main shards counted |
| Migration.Line.First | src/extract.rs:103-113 | the next load that goes to a shard |
| Migration.Writer.WriteMeans | src/capture.rs:242-250 | a partial write adds its bytes to the shard it goes to and no other |
| Migration.FirstPass.StepKeeps | src/extract.rs:346-358 | while the small-file shard is read, the others are filled and not emptied |
| Migration.FirstPass.EndsOnlyIfFits | src/extract.rs:645-648 | the pass is blocked only when some main shard does not fit its pipe with the loads up to the one at hand, and ends only when all do |
| Migration.FirstPass.BlockedForEver | src/extract.rs:645-648 | once blocked, neither end can go on |
| Migration.RunFirstPass | src/extract.rs:645-648 | for every interleaving, extraction gets past the small-file shard if and only if each main shard fits its pipe, and is blocked otherwise |
| Migration.System.StepKeeps | src/extract.rs:225-307 | every step of either end keeps each shard where it should be and its pipe within its capacity |
| Migration.System.NextIsThere | src/extract.rs:254-265 | the shard of the next load, once written, has something to read or is at work on it |
| Migration.System.WriterGoes | src/extract.rs:254-265 | of the loop of `drain_all` taken by itself: when nothing can be read, the pipe that is written to is not full |
| Migration.System.Progress | src/extract.rs:254-307 | of the loop of `drain_all` taken by itself, with a writer still at work or not: one of the two can always go on, also when a single shard is read that is not ready |
| Migration.System.DoneIsComplete | src/extract.rs:266-272 | when there is no shard left to read, everything has been written and read |
| Migration.StepBringsNearer | src/extract.rs:225-307 | no run goes on for ever |
| Migration.RunMainPass | src/extract.rs:368-374 | the loop ends from wherever it stands, with everything read, in whatever order shards become readable |
| Migration.MainLoadsMean | src/extract.rs:645-648 | what the main pass finds is what went to the main shards |
| Migration.FirstPassLeads | src/extract.rs:645-648 | when the first pass has ended capture is done, and the main pass starts from its full pipes |
| Migration.RunMigration | src/extract.rs:645-649 | both passes one after the other, for every interleaving with capture: everything is read if and only if each main shard fits its pipe, and both ends are blocked otherwise |
| Migration.SharesMakeTotal | src/capture.rs:239-253 | what goes to the main shards adds up, however it is routed |
| Migration.TotalDecides | src/capture.rs:239-253 | whatever the routing, more than all main pipes hold does not fit, and what one holds does |
| Connected.PlanFillsStreams | src/capture.rs:219-269 | the loads of both kinds of shards, in the order in which they are written, make up the streams |
| Connected.CapturedLine | src/capture.rs:362-418 | what a serializer has written is such a sequence of loads, with the streams of its shards |
| Connected.SmallStreamBytes | src/capture.rs:257-266 | the small-file shard has the bytes of all small items |
| Connected.StreamsAddUp | src/capture.rs:228-256 | however they were routed, the main shards together have the bytes of all main items |
| Connected.MigrateCapture | src/extract.rs:645-649 | the image of a serializer gets through connected pipes if and only if each of its main streams fits its pipe |
| Connected.NoRouteFits | src/capture.rs:239-253 | an image with more than all main pipes hold does not get through, whatever the routing |
| Connected.EveryRouteFitsIffOnePipeDoes | src/capture.rs:239-253 | an image gets through for every routing if and only if one pipe holds all that goes to the main shards |
| Connected.CapturedPayload | src/capture.rs:287-311 | the main shards get exactly the bytes of the large files as payload |
| Connected.LargeFilesBlock | src/extract.rs:645-649 | large files with more bytes than all main pipes hold never get through, whatever the routing and the small files in between |
| Connected.PagesExample | src/extract.rs:645-649 | such an image: the memory pages of one process |
| RoundTrip.CaptureSized | src/capture.rs:297-302 | every chunk is as long as its marker says |
| RoundTrip.FinishSized | src/capture.rs:173-179 | every marker of a finished capture tells the size of its payload if and only if the metadata is below 4 GiB |
| RoundTrip.ManyFilesExample | src/capture.rs:173-179 | distinct, complete and unreserved files whose metadata does not fit |
| RoundTrip.CutStream | src/capture.rs:173-179 | metadata that does not fit its size field: the shard is, byte by byte, items up to a shorter metadata file and something else after it |
| RoundTrip.CutRefused | src/extract.rs:321-326 | an image with such metadata cannot be processed |
| RoundTrip.CaptureCarries | src/capture.rs:362-418 | the shards of a finished capture carry its image, for whatever routing and metadata |
| RoundTrip.ExtractableExactly | src/extract.rs:577-601 | the image can be processed if and only if the metadata fits and no name is reused at once, with every call made |
| RoundTrip.ExtractPipes | src/extract.rs:577-609 | extraction of the streams of a finished capture succeeds under exactly that condition |
| RoundTrip.ExtractStreams | src/extract.rs:577-609 | the same for what a serializer has written; bytes read equal bytes written, shard by shard, and add up to those of the markers and the data of each pass |
| RoundTrip.CaptureThenExtract | src/capture.rs:287-319 | the round trip over every schedule, shard count, routing and readiness order; it succeeds if and only if every marker fits, the metadata fits and no name is reused at once, with legal calls, and with the files restored if they are distinct; all bytes of both streams are read |
| Semaphores.Semaphore.AcquirePass | src/semaphore.rs:19-25 | taken exactly when there is enough |
| Semaphores.Semaphore.Release | src/semaphore.rs:27-31 | given back, clamped to the initial count |
| FsParallel.FileSender.Create | src/image_store/fs_parallel.rs:41-55 | which `unwrap` fails when; the small-file sender closes at the first large file |
| FsParallel.FileSender.Insert | src/image_store/fs_parallel.rs:57-77 | the end of the file goes to the channel of its kind; which `unwrap` or `assert` fails when |
| FsParallel.FileSender.WriteAllFromPipe | src/image_store/fs_parallel.rs:100-124 | the data goes to the channel of its kind in pieces of at most 10 MiB, and each piece of a large file has exactly its size acquired before it |
| FsParallel.ChunkSizes | src/image_store/fs_parallel.rs:100-124 | each message but the last of a write has exactly 10485760 bytes, and the last no more |
| FsParallel.PerformedSnoc | src/image_store/fs_parallel.rs:41-77 | one more call is accepted if and only if it keeps small files before large ones |
| FsParallel.FileSender.Perform | src/image_store/fs_parallel.rs:38-78 | over any legal sequence of calls, no `unwrap` and no `assert` fails if and only if no small file is created or inserted after the first large one |
| FsParallel.FileMessages | src/image_store/fs_parallel.rs:57-121 | a file inserted is sent in full: its bytes in order, then its end, nothing after it |
| Flow.State.Receive | src/extract.rs:464-478 | receiving a message loses and reorders nothing |
| Flow.State.WriteChunk | src/extract.rs:407-412 | nor does writing a chunk to the client |
| Flow.State.NothingAfterEnd | src/extract.rs:402-406 | when the end of a file is reached nothing of it is left anywhere, so breaking out drops nothing |
| Flow.State.Ended | src/extract.rs:483-492 | a pipe that has ended has received its whole file, and nothing of it is anywhere else |
| Flow.State.Prefix | src/extract.rs:392-416 | at any time a pipe has received the first messages of its file, in order |
| Flow.State.Replace | src/extract.rs:438-443 | putting other contents in place of a stored file changes that file and no other |
| Flow.StoreCostPush | src/extract.rs:469-473 | a received chunk of a large file goes on counting against the limit while it is stored, and one of a small file never does |
| Serve.Server.constructor | src/extract.rs:429-461 | nothing served, nothing taken, the small files in their channel |
| Serve.Server.ExtractStep | src/image_store/fs_parallel.rs:105-120 | a chunk of a large file is sent only with its memory acquired, which happens exactly when there is enough; memory is conserved and nothing is lost |
| Serve.Server.OversizedWaits | src/semaphore.rs:19-25 | a chunk larger than the limit is never let through |
| Serve.Server.FittingGoes | src/semaphore.rs:19-25 | once all memory has been given back, exactly the chunks within the limit are let through |
| Serve.Server.ReadSmallFiles | src/extract.rs:431-436 | all small files end up in the store, at no cost in memory, while the extract thread goes on to the large ones |
| Serve.Server.PatchFilesImg | src/extract.rs:438-443 | the files image is replaced by its patched form and no other file changes; it fails exactly when there is such a file and it cannot be patched |
| Serve.Server.ReceiveAll | src/extract.rs:465-478 | everything that was in the channel is in the store afterwards; disconnected only when the extract thread has sent everything |
| Serve.Server.SendChunk | src/extract.rs:407-412 | the pipe gets the chunk, and its memory is given back in full if the file is large: the clamp of the semaphore has no effect |
| Serve.Server.SendEnd | src/extract.rs:402-406 | the pipe is complete and nothing of the file is left in the store |
| Serve.Server.SendOverChunks | src/extract.rs:392-416 | all chunks at hand are sent; true exactly when the file has ended; no other pipe changes |
| Serve.Server.SendToOpenPipes | src/extract.rs:480-488 | every open pipe gets what has arrived for it, and exactly the ended ones are listed |
| Serve.StillOpenMeans | src/extract.rs:490-493 | the pipes kept are exactly those that have not ended, each once |
| Serve.RemoveNext | src/extract.rs:490-493 | removing the last position first leaves the earlier positions valid |
| Serve.Server.RemoveFinished | src/extract.rs:490-493 | exactly the pipes that have ended are removed, in place, and the order of the others is kept |
| Serve.Server.FlushOpenPipes | src/extract.rs:480-493 | when a request is handled, no open pipe has anything in the store; files not asked for stay there |
| Serve.Server.SentNotStored | src/extract.rs:529-562 | no file answered Ready has anything in the store when a request is handled, ended or not |
| Serve.Server.SmallIsThere | src/extract.rs:431-436 | once the loop has begun, a small file is in the store, or in its pipe from the first byte to its end |
| Serve.Server.AllClosed | src/extract.rs:480-493 | when nothing is left in the channel or to be sent, no pipe is open: every file answered Ready has ended |
| Serve.Server.Prepare | src/extract.rs:464-493 | before each poll: what is in the channel is received and sent on to its pipe; no pipe is open any more if everything has been sent |
| Serve.Server.HandleFileRequest | src/extract.rs:527-563 | Ready exactly when some of the file is stored, all of which is sent; else NotReady; or an error exactly on a second request for a file already sent |
| Serve.Server.HandleStop | src/extract.rs:510-519 | leaves the loop if no pipe is open; a second request to stop fails |
| Serve.Server.HandleOtherRequest | src/extract.rs:510-530 | the list of the names selected, or DoesNotExist, or the stop |
| Serve.Server.HandleRequest | src/extract.rs:509-568 | one request, from its name alone: `stop-listener` stops; the empty name and names with `*` get the list of the names selected; a name that is not in the image DoesNotExist; a file answered Ready before, an error; any other Ready or NotReady, and Ready if some of it has arrived |
| Serve.AskedSnoc | src/extract.rs:507-530 | a further poll adds the name asked for, unless it asks for nothing or to stop |
| Serve.AnsweredNext | src/extract.rs:507-568 | when one more request is handled the replies are again the answers to the requests, in their order |
| Serve.Server.Respond | src/extract.rs:495-571 | a request is handled; on a time-out the loop ends exactly when it has been asked to stop and no pipe is open; a connection and a hang-up change nothing |
| Serve.Server.ServeRound | src/extract.rs:464-571 | what every poll makes of the loop: the same exits, exactly; a first request for a file of which anything has arrived, if only in the channel, is answered Ready, a small file always; a time-out ends a loop that has been asked to stop when the extract thread has sent everything; all invariants kept |
| Serve.Server.RoundOutcome | src/extract.rs:495-571 | the replies of one more round, and why the loop is left in it if it is |
| Serve.Server.ServeRounds | src/extract.rs:464-572 | over any sequence of events: every request that the loop has come to is answered in its turn, by the list of the names it selects or with the status of the file it names; the loop goes on to the last event, or is left by a time-out or a request to stop after one to stop, with no pipe open, or fails on a second request to stop or for a file; when everything has been sent, the first time-out after a request to stop ends it |
| Serve.Server.PipesServed | src/extract.rs:392-416 | between rounds every pipe holds a first part of its file, and all of it when no pipe is open |
| Serve.Server.ServeImg | src/extract.rs:419-575 | a whole run for arbitrary clients and thread interleavings: it fails at once exactly when ports cannot be moved; memory conserved; all requests reached answered as above; small files always Ready and sent to their end; every file sent in order, in full when the loop is left |
| ServeImage.ImageSmallFirst | src/extract.rs:645-649 | extraction of a captured image creates and inserts all small files before any large one |
| ServeImage.ImageMessagesOf | src/image_store/fs_parallel.rs:41-121 | the messages of a file are its captured bytes, once, and its end; there are none for other names |
| ServeImage.ServedPart | src/extract.rs:392-416 | the bytes in a pipe are a prefix of the file, and the file when the pipe has ended |
| ServeImage.UnpatchableMeans | src/extract.rs:438-443 | ports cannot be moved exactly when a small files image was captured whose entries do not allow it |
| ServeImage.AllEnd | src/capture.rs:304-305 | a captured file is among the names that are served |
| ServeImage.AskedAt | src/extract.rs:507-530 | the request of a round has the place of its reply |
| ServeImage.SmallIsServed | src/extract.rs:527-545 | a captured small file asked for in a round that the loop has been through: that request is answered Ready, and the pipe has ended with the whole file |
| ServeImage.ServeCaptured | src/extract.rs:615-652 | a run of `serve` on a captured image: memory bounded by the limit, every request that the loop has come to answered in its turn and those for small files with the file, every pipe a part of its captured file, the whole file when the loop is left |
| EndToEnd.CaptureThenServe | src/extract.rs:615-652 | from captured pipes to served pipes, for distinct files: a run starts if and only if every marker and the metadata fit; the requests are answered in their order, from the list of the files captured; a small file asked for is answered Ready and sent whole; each file answered Ready is sent exactly as captured, but for the ports moved; how the loop is left |
| Patcher.ReadCriuImgHeader | src/image_patcher.rs:38-51 | success leaves exactly what follows the eight header bytes |
| Patcher.HeaderRoundTrip | src/image_patcher.rs:38-58 | a written header is accepted |
| Patcher.HeaderBytes | src/image_patcher.rs:32-33 | the eight bytes of the header |
| Patcher.HeaderExactly | src/image_patcher.rs:38-51 | a file is accepted if and only if it starts with these eight bytes |
| Patcher.CollectLast | src/image_patcher.rs:64 | the first port of a pair is moved to the second; of several pairs for one port the last counts |
| Patcher.CollectOnly | src/image_patcher.rs:64 | no port is moved that is not the first of a pair |
| Patcher.PatchMeans | src/image_patcher.rs:90-100 | field by field: same number and order of entries; the first listener on each port asked for has the port it is moved to and keeps its protocol, its state and everything else; all other entries stay as they are; swaps do not chain |
| Patcher.LeftOver | src/image_patcher.rs:94-102 | the remaps left over are exactly those on whose port nothing listens |
| Patcher.PatchLoop | src/image_patcher.rs:90-100 | the loop prints exactly the patched entries; it fails exactly when the file is malformed or a patched entry is too large |
| Patcher.PatchTcpListenRemaps | src/image_patcher.rs:60-115 | succeeds if and only if the file is readable, every entry fits and something listens on every port asked for; the output decodes to the patched entries |
| Patcher.PatchImg | src/image_patcher.rs:117-144 | the same for a file in chunks, joined and made one chunk and an end again |
| Patcher.MovesTheRightEntriesIffFirstPortsFit | src/image_patcher.rs:94-95 | for all requests the entries moved are those listening on exactly the ports named, if and only if no port wider than 16 bits comes first among those with the same low half |
| Patcher.WidePortExample | src/image_patcher.rs:94-95 | an input for which another entry is moved instead |
| Glob.Compile | src/util.rs:152-169 | the loop emits the translation of each character in order, between anchors; a backslash is there only before one of the twelve operators |
| Glob.BodyIsWellEscaped | src/util.rs:155-167 | for every pattern, no backslash in the text comes before anything but an operator, so that none makes a class of a letter |
| Glob.BodyParses | src/util.rs:155-167 | read by the syntax of regular expressions, which has its own list of operators, the emitted text is, for every pattern, exactly the intended tokens |
| Glob.TokensMatch | src/util.rs:171-176 | the tokens match exactly the strings that the pattern stands for |
| Glob.CompiledMatches | src/util.rs:150-172 | compilation preserves meaning |
| Glob.FilterFiles | src/util.rs:144-183 | in the original order, exactly the names that the pattern selects; all of them for an empty pattern |
| Glob.WildcardsMatchAnythingIffOneLine | src/util.rs:157-158 | for all patterns the wildcards stand for any characters if and only if the name has no line feed |
| MemFile.CopiedMeans | src/image_store/mem.rs:125-149 | what it means that n bytes were copied: the file has grown by exactly the next n bytes of the reader, which stands right after them |
| MemFile.File.ReserveChunk | src/image_store/mem.rs:105-123 | the contents stay; the file stays small exactly while the announced size fits a page; a large file gets room |
| MemFile.File.CopyFromReader | src/image_store/mem.rs:125-149 | appends a part of the reader and reports it; progress is made; when it fails and when a short read goes unnoticed |
| MemFile.File.WriteAllFromPipe | src/image_store/mem.rs:177-186 | terminates; appends exactly the next bytes; succeeds if and only if there are enough of them or the file stays small |
| MemFile.File.Reader | src/image_store/mem.rs:168-174 | a reader of exactly the contents |
| MemFile.FileReader.Read | src/image_store/mem.rs:192-204 | reads from the front; with room in the buffer, nothing exactly at the end |
| MemFile.FileReader.ReadToEnd | src/image_store/mem.rs:192-204 | with buffers of any non-zero sizes, exactly the contents come out |
| Overlay.Store.Create | src/image_store/fs_overlay.rs:44-49 | the first creation of an overlayed name takes the overlay; every other, of that name too, goes to the underlying store |
| Overlay.Store.Write | src/image_store/fs_overlay.rs:64-71 | the bytes go where the file was created |
| Overlay.Store.Insert | src/image_store/fs_overlay.rs:51-56 | only files of the underlying store are inserted into it |
| Overlay.Store.Perform | src/image_store/fs_overlay.rs:41-71 | over any legal sequence of calls, names used again included, every overlay gets all bytes of the first file of its name and the underlying store every other call |
| Overlay.OrderedIsLegal | src/image_store/fs_overlay.rs:41-71 | the calls of an extraction of distinct files are legal, and each goes by its name alone |
| Overlay.OverlayGetsFile | src/image_store/fs_overlay.rs:64-71 | then an overlay gets its file, all of it |
| Overlay.OthersKeepOrder | src/image_store/fs_overlay.rs:41-71 | what the underlying store sees is again each file created once, written, inserted once, and nothing of the overlayed names |
| Overlay.OthersCreations | src/image_store/fs_overlay.rs:44-49 | of the creations of a name the underlying store sees all but those that take the overlay |
| Overlay.OthersKeepBytes | src/image_store/fs_overlay.rs:64-71 | the bytes of the other files are unchanged |

## Left out

- Kernel and descriptor plumbing: `splice`, `vmsplice`, `fcntl`, epoll, the poller, sockets, descriptor passing. A pipe is a sequence of bytes whose other end is read at any time.
- The occupancy of pipes in page slots: it is counted in bytes, as `fionread` does. The guarantee about blocking writes is about that count.
- The command line, progress messages, statistics of time, logging, and the checkpoint-start notification.
- The insides of the JSON library, of string encodings and of the protocol-buffer library for file entries: they are parameters that decode what they encode. For markers the encoding is modelled, its 32-bit and 64-bit limits excepted.
- The regular-expression library, but for the subset that patterns compile to; its limit on the size of a compiled expression, above which `filter_files` returns nothing.
- Overflow of 32-bit and 64-bit counters and sizes other than the metadata size: numbers are unbounded.
- Errors of reads and writes themselves: a client pipe closed early, a channel whose receiver is gone, a failing `ioctl`.
- Liveness of `serve_img`: a file is answered only if its client asks. All states that a thread waiting in `acquire` can be in are covered.
- The contents of connected pipes: `Migration` has their sizes and the places of the shards. Capture is done before the main pass begins, so that the main streams are then complete; for streams that come over a network, `Wire.ReadsAsItGrows` and `Extract.ProcessesAsItGrows` say why the classes of `Extract` may take them as complete. `Serve` takes the complete sequence of its store's calls, at every pace.
- The routing that the serializer picks on connected pipes: `Connected` is about every routing.
- The capacity of a connected pipe as capture knows it: `src/extract.rs:89` may set it lower afterwards, to 512 KiB, and then `remaining_space` is no lower bound of the free space. The estimates are proved for a capacity that stays.
- `current_file_size`, and what the small-file shard's `remaining_space` means: nothing reads them.
- Overlays in `serve`: their routing is proved on its own, in `Overlay`.
- `src/image_store/fs.rs` and the map of `mem::Store`: one call to the file system, one to the map.
- References to shards and files: a shard is a position in the sequence of shards, a file is known by its name, so that two handles to one file cannot be told apart.
- Events that the poller reports for an entry removed in the same batch.
- Serve.Server.ExtractRuns: the steps of the extract thread between two steps of the serving thread are any number of them, at the places where the serving thread can observe the channel or the semaphore.
- RoundTrip.CaptureThenExtract: all files are drained to their EOF, as the loop of `capture` sees to, and none is named as the metadata file, for which see `Delivery.AllStoredIffUnreserved`. Of the JSON of a list it is used that no proper part of it is JSON of a list.
- FsParallel.FileSender.WriteAllFromPipe: what is acquired and when is stated here, the waiting for it in `Serve.Server.ExtractStep`, where the other thread can interleave.
