/** src/image_patcher.rs: moving the TCP ports that a checkpointed application listens on. */
module Patcher {
  import opened Wrappers
  import opened Sequences
  import opened Wire
  import FsParallel

  const IMG_COMMON_MAGIC := 0x54564319
  const FILES_MAGIC := 0x56303138
  const TCP_LISTEN := 10
  const IPPROTO_TCP := 6

  /** What a file entry holds that matters here; `other` stands for everything else in the message. */
  datatype Inet = Inet(proto: nat, state: nat, srcPort: nat, other: Bytes)

  datatype FileEntry = FileEntry(isk: Option<Inet>, other: Bytes) {
    predicate Listens() {
      isk.Some? && isk.value.proto == IPPROTO_TCP && isk.value.state == TCP_LISTEN
    }

    /** The port as it is looked up: the low 16 bits of a 32-bit field. */
    function Port(): nat
      requires Listens()
    {
      isk.value.srcPort % 0x1_0000
    }

    function WithPort(port: nat): FileEntry
      requires Listens()
    {
      this.(isk := Some(isk.value.(srcPort := port)))
    }
  }

  type Remaps = map<nat, nat>

  /** Collecting pairs into a map: the last pair for a port wins. */
  function Collect(pairs: seq<(nat, nat)>): Remaps {
    if pairs == [] then map[]
    else Collect(pairs[..|pairs| - 1])[pairs[|pairs| - 1].0 := pairs[|pairs| - 1].1]
  }

  /** The last pair that names a port first says where it is moved to. */
  lemma {:induction false} CollectLast(pairs: seq<(nat, nat)>, k: nat)
    requires k < |pairs| && forall j | k < j < |pairs| :: pairs[j].0 != pairs[k].0
    ensures pairs[k].0 in Collect(pairs) && Collect(pairs)[pairs[k].0] == pairs[k].1
  {
    if k == |pairs| - 1 {
    } else {
      CollectLast(pairs[..|pairs| - 1], k);
    }
  }

  /** Only ports that come first in some pair are moved. */
  lemma {:induction false} CollectOnly(pairs: seq<(nat, nat)>, p: nat) returns (k: nat)
    requires p in Collect(pairs)
    ensures k < |pairs| && pairs[k].0 == p
  {
    if pairs[|pairs| - 1].0 == p {
      k := |pairs| - 1;
    } else {
      k := CollectOnly(pairs[..|pairs| - 1], p);
    }
  }

  // ---- the header ----

  function WriteCriuImgHeader(magic: nat): Bytes
    requires magic < 0x1_0000_0000
  {
    PutLe(IMG_COMMON_MAGIC, 4) + PutLe(magic, 4)
  }

  /** What follows the header. */
  function ReadCriuImgHeader(src: Bytes, magic: nat): (r: Result<Bytes>)
    requires magic < 0x1_0000_0000
    ensures r.Ok? ==> |src| >= 8 && r.value == src[8..]
  {
    match ReadBytesNext(src, 8)
    case Eof => Err(BadHeader)
    case Broken(e) => Err(e)
    case Got(header, rest) =>
      if GetLe(header[..4]) == IMG_COMMON_MAGIC && GetLe(header[4..]) == magic then Ok(rest)
      else Err(BadHeader)
  }

  /** The files image starts with the common magic number and its own, little-endian. */
  lemma HeaderBytes()
    ensures WriteCriuImgHeader(FILES_MAGIC) == [0x19, 0x43, 0x56, 0x54, 0x38, 0x31, 0x30, 0x56]
  {
    LeBytes(IMG_COMMON_MAGIC);
    LeBytes(FILES_MAGIC);
  }

  /** Nothing but these eight bytes is accepted. */
  lemma HeaderExactly(src: Bytes)
    ensures ReadCriuImgHeader(src, FILES_MAGIC).Ok? <==>
              |src| >= 8 && src[..8] == [0x19, 0x43, 0x56, 0x54, 0x38, 0x31, 0x30, 0x56]
  {
    HeaderBytes();
    if |src| >= 8 {
      var header := src[..8];
      LeInverse(header[..4]);
      LeInverse(header[4..]);
      assert header == header[..4] + header[4..];
      if header == WriteCriuImgHeader(FILES_MAGIC) {
        HeaderRoundTrip(FILES_MAGIC, src[8..]);
        assert src == header + src[8..];
      }
    }
  }

  lemma HeaderRoundTrip(magic: nat, rest: Bytes)
    requires magic < 0x1_0000_0000
    ensures ReadCriuImgHeader(WriteCriuImgHeader(magic) + rest, magic) == Ok(rest)
  {
    var src := WriteCriuImgHeader(magic) + rest;
    assert src[..8] == WriteCriuImgHeader(magic) && src[8..] == rest;
    assert src[..8][..4] == PutLe(IMG_COMMON_MAGIC, 4) && src[..8][4..] == PutLe(magic, 4);
    U32RoundTrip(IMG_COMMON_MAGIC);
    U32RoundTrip(magic);
  }

  // ---- the transformation ----

  /** One entry: the remaps lose the port once they have been used. */
  function PatchEntry(e: FileEntry, remaps: Remaps): (FileEntry, Remaps) {
    if e.Listens() && e.Port() in remaps then (e.WithPort(remaps[e.Port()]), remaps - {e.Port()}) else (e, remaps)
  }

  function PatchEntries(es: seq<FileEntry>, remaps: Remaps): (seq<FileEntry>, Remaps) {
    if es == [] then ([], remaps)
    else
      var (before, left) := PatchEntries(es[..|es| - 1], remaps);
      var (e, left') := PatchEntry(es[|es| - 1], left);
      (before + [e], left')
  }

  predicate ListensOn(es: seq<FileEntry>, port: nat) {
    exists e <- es :: e.Listens() && e.Port() == port
  }

  /** What should happen to entry `i`, said without the loop: it is moved when it is the first to listen
      on a port to be moved. */
  predicate Moved(es: seq<FileEntry>, i: nat, remaps: Remaps)
    requires i < |es|
  {
    es[i].Listens() && es[i].Port() in remaps && !ListensOn(es[..i], es[i].Port())
  }

  /** The remaps left over are those on whose port nothing listens. */
  function Unused(es: seq<FileEntry>, remaps: Remaps): Remaps {
    map p | p in remaps && !ListensOn(es, p) :: remaps[p]
  }

  lemma {:induction false} LeftOver(es: seq<FileEntry>, remaps: Remaps)
    ensures PatchEntries(es, remaps).1 == Unused(es, remaps)
  {
    if es == [] {
      assert Unused(es, remaps) == remaps;
    } else {
      var front, e := es[..|es| - 1], es[|es| - 1];
      LeftOver(front, remaps);
      assert es == front + [e];
      forall p ensures ListensOn(es, p) <==> ListensOn(front, p) || (e.Listens() && e.Port() == p) {
        ListensOnSnoc(front, e, p);
      }
      assert PatchEntries(es, remaps).1 == PatchEntry(e, Unused(front, remaps)).1;
    }
  }

  /** A TCP socket (protocol 6) in the state of listening (10). */
  predicate IsListener(e: FileEntry) {
    e.isk.Some? && e.isk.value.proto == 6 && e.isk.value.state == 10
  }

  /** The port that entry `i` should have: it changes when the entry is the first to listen on the low 16 bits
      of its port, and these are to be moved. */
  function PortAfter(es: seq<FileEntry>, i: nat, remaps: Remaps): nat
    requires i < |es| && es[i].isk.Some?
  {
    var port := es[i].isk.value.srcPort;
    var first := IsListener(es[i]) && forall j | 0 <= j < i && IsListener(es[j]) ::
                   es[j].isk.value.srcPort % 0x1_0000 != port % 0x1_0000;
    if first && port % 0x1_0000 in remaps then remaps[port % 0x1_0000] else port
  }

  /** `r` is `es` with the ports moved: as many entries in the same order, with the same contents but for the
      ports. */
  ghost predicate IsPatched(es: seq<FileEntry>, remaps: Remaps, r: seq<FileEntry>) {
    && |r| == |es|
    && forall i | 0 <= i < |es| ::
         && r[i].other == es[i].other && (r[i].isk.Some? <==> es[i].isk.Some?)
         && (es[i].isk.Some? ==>
               && r[i].isk.value.proto == es[i].isk.value.proto && r[i].isk.value.state == es[i].isk.value.state
               && r[i].isk.value.other == es[i].isk.value.other
               && r[i].isk.value.srcPort == PortAfter(es, i, remaps))
  }

  /** Only the first listener on each port to be moved changes, and only its port, to the port asked for:
      ports that are swapped do not chain. */
  lemma {:induction false} PatchMeans(es: seq<FileEntry>, remaps: Remaps)
    ensures IsPatched(es, remaps, PatchEntries(es, remaps).0)
  {
    if es == [] {
    } else {
      var n := |es| - 1;
      var front, e := es[..n], es[n];
      PatchMeans(front, remaps);
      LeftOver(front, remaps);
      var r := PatchEntries(es, remaps).0;
      forall i | 0 <= i < n && es[i].isk.Some? ensures PortAfter(es, i, remaps) == PortAfter(front, i, remaps) {
        assert forall j | 0 <= j < i :: front[j] == es[j];
      }
      if e.isk.Some? {
        FirstMeans(es, n);
      }
    }
  }

  lemma FirstMeans(es: seq<FileEntry>, i: nat)
    requires i < |es|
    ensures es[i].Listens() <==> IsListener(es[i])
    ensures es[i].Listens() ==>
              es[i].Port() == es[i].isk.value.srcPort % 0x1_0000
              && (ListensOn(es[..i], es[i].Port()) <==>
                    !forall j | 0 <= j < i && IsListener(es[j]) ::
                        es[j].isk.value.srcPort % 0x1_0000 != es[i].isk.value.srcPort % 0x1_0000)
  {
    if es[i].Listens() {
      forall j | 0 <= j < i && IsListener(es[j])
        ensures es[j].isk.value.srcPort % 0x1_0000 == es[i].Port() ==> ListensOn(es[..i], es[i].Port())
      {
        assert es[..i][j] == es[j] && es[j] in es[..i];
      }
    }
  }

  lemma ListensOnSnoc(es: seq<FileEntry>, e: FileEntry, p: nat)
    ensures ListensOn(es + [e], p) <==> ListensOn(es, p) || (e.Listens() && e.Port() == p)
  {
    assert forall x <- es :: x in es + [e];
    assert e in es + [e];
  }

  // ---- the whole file ----

  ghost predicate EntriesFit(c: Codec<FileEntry>, es: seq<FileEntry>) {
    forall e <- es :: c.Fits(e)
  }

  function Entries(read: seq<(FileEntry, nat)>): seq<FileEntry> {
    seq(|read|, i requires 0 <= i < |read| => read[i].0)
  }

  lemma {:induction false} PatchGrows(a: seq<FileEntry>, b: seq<FileEntry>, remaps: Remaps)
    ensures PatchEntries(a, remaps).0 <= PatchEntries(a + b, remaps).0
  {
    if b == [] {
      assert a + b == a;
    } else {
      PatchGrows(a, b[..|b| - 1], remaps);
      assert (a + b)[..|a + b| - 1] == a + b[..|b| - 1];
    }
  }

  lemma PatchSnoc(es: seq<FileEntry>, e: FileEntry, remaps: Remaps)
    ensures var (out, left) := PatchEntries(es, remaps);
            var (patched, left') := PatchEntry(e, left);
            PatchEntries(es + [e], remaps) == (out + [patched], left')
  {
    assert (es + [e])[..|es|] == es;
  }

  lemma {:induction false} WriteSnoc(c: Codec<FileEntry>, es: seq<FileEntry>, e: FileEntry)
    requires EntriesFit(c, es) && c.Fits(e)
    ensures EntriesFit(c, es + [e]) && WriteAll(c, es + [e]) == WriteAll(c, es) + Frame(c, e)
  {
    if es == [] {
      assert ([e])[1..] == [];
    } else {
      WriteSnoc(c, es[1..], e);
      assert (es + [e])[1..] == es[1..] + [e];
    }
  }

  /** The entries `done` have been read and written; `cursor` is what is left to read, `left` what is
      left to be moved. */
  ghost predicate Halfway(c: Codec<FileEntry>, src: Bytes, cursor: Bytes, remaps: Remaps, done: seq<FileEntry>,
                          left: Remaps, newData: Bytes)
  {
    var (out, remaining) := PatchEntries(done, remaps);
    && remaining == left && EntriesFit(c, out) && newData == WriteAll(c, out)
    && Entries(ReadAll(c, src).0) == done + Entries(ReadAll(c, cursor).0)
    && ReadAll(c, src).1 == ReadAll(c, cursor).1
  }

  lemma HalfwayNext(c: Codec<FileEntry>, src: Bytes, cursor: Bytes, remaps: Remaps, done: seq<FileEntry>,
                    left: Remaps, newData: Bytes)
    requires Halfway(c, src, cursor, remaps, done, left, newData) && PbReadNext(c, cursor).Got?
    ensures var Got((entry, _), rest) := PbReadNext(c, cursor);
            var (patched, left') := PatchEntry(entry, left);
            if c.Fits(patched) then
              Halfway(c, src, rest, remaps, done + [entry], left', newData + Frame(c, patched))
            else
              !EntriesFit(c, PatchEntries(Entries(ReadAll(c, src).0), remaps).0)
  {
    var Got((entry, size), rest) := PbReadNext(c, cursor);
    var (patched, left') := PatchEntry(entry, left);
    var out, later := PatchEntries(done, remaps).0, Entries(ReadAll(c, rest).0);
    ReadCons(c, cursor);
    Associate(done, [entry], later);
    PatchSnoc(done, entry, remaps);
    if c.Fits(patched) {
      WriteSnoc(c, out, patched);
    } else {
      PatchGrows(done + [entry], later, remaps);
      assert PatchEntries(done + [entry] + later, remaps).0[|out|] == patched;
    }
  }

  lemma ReadCons(c: Codec<FileEntry>, src: Bytes)
    requires PbReadNext(c, src).Got?
    ensures var Got((entry, _), rest) := PbReadNext(c, src);
            && Entries(ReadAll(c, src).0) == [entry] + Entries(ReadAll(c, rest).0)
            && ReadAll(c, src).1 == ReadAll(c, rest).1
  {
    var Got(v, rest) := PbReadNext(c, src);
    var (more, end) := ReadAll(c, rest);
    assert ReadAll(c, src) == ([v] + more, end);
    EntriesCons(v, more);
  }

  lemma EntriesCons(v: (FileEntry, nat), more: seq<(FileEntry, nat)>)
    ensures Entries([v] + more) == [v.0] + Entries(more)
  {
  }

  lemma HalfwayEnd(c: Codec<FileEntry>, src: Bytes, cursor: Bytes, remaps: Remaps, done: seq<FileEntry>,
                   left: Remaps, newData: Bytes)
    requires Halfway(c, src, cursor, remaps, done, left, newData) && PbReadNext(c, cursor).Eof?
    ensures Entries(ReadAll(c, src).0) == done && ReadAll(c, src).1 == AtEof
  {
    assert done + [] == done;
  }

  /** The loop over the entries of `src`. `remaps` is what is to be moved. */
  method PatchLoop(c: Codec<FileEntry>, src: Bytes, remaps: Remaps) returns (r: Result<(Bytes, Remaps)>)
    ensures var (read, end) := ReadAll(c, src);
            var (es, left) := PatchEntries(Entries(read), remaps);
            && (r.Ok? <==> end == AtEof && EntriesFit(c, es))
            && (r.Ok? ==> r.value == (WriteAll(c, es), left))
  {
    var cursor, left, newData := src, remaps, [];
    ghost var done: seq<FileEntry> := [];
    assert [] + Entries(ReadAll(c, src).0) == Entries(ReadAll(c, src).0);
    while true
      invariant Halfway(c, src, cursor, remaps, done, left, newData)
      decreases |cursor|
    {
      match PbReadNext(c, cursor) {
        case Broken(e) =>
          return Err(e);
        case Eof =>
          HalfwayEnd(c, src, cursor, remaps, done, left, newData);
          return Ok((newData, left));
        case Got((entry, _), rest) =>
          HalfwayNext(c, src, cursor, remaps, done, left, newData);
          var (patched, left') := PatchEntry(entry, left);
          var frame := PbWrite(c, patched);
          if frame.Err? {
            return Err(frame.error);
          }
          newData := newData + frame.value;
          left, cursor := left', rest;
          done := done + [entry];
      }
    }
  }

  /** Success means that the file is well formed, that something listens on each port to be moved, and
      that no entry outgrows the message limit. The new contents decode to the patched entries. On failure
      nothing is returned, and the caller's data stays as it was. */
  method PatchTcpListenRemaps(c: Codec<FileEntry>, data: Bytes, pairs: seq<(nat, nat)>) returns (r: Result<Bytes>)
    requires c.Lawful()
    ensures r.Ok? <==> Patchable(c, data, pairs)
    ensures r.Ok? ==> PatchOf(c, data, r.value, pairs)
  {
    var remaps := Collect(pairs);
    var body :- ReadCriuImgHeader(data, FILES_MAGIC);
    var result :- PatchLoop(c, body, remaps);
    var (entries, left) := result;
    ghost var es := EntriesOf(c, data);
    LeftOver(es, remaps);
    if left != map[] {
      UnusedNonEmpty(es, remaps);
      return Err(UnmatchedRemaps);
    }
    assert forall p <- remaps :: !ListensOn(es, p) ==> p in Unused(es, remaps);
    Rereads(c, PatchEntries(es, remaps).0);
    PatchMeans(es, remaps);
    r := Ok(WriteCriuImgHeader(FILES_MAGIC) + entries);
  }

  lemma UnusedNonEmpty(es: seq<FileEntry>, remaps: Remaps)
    requires Unused(es, remaps) != map[]
    ensures exists p <- remaps :: !ListensOn(es, p)
  {
    var p :| p in Unused(es, remaps);
  }

  /** The data has the header of a files image, and its entries can be read to the end. */
  ghost predicate Readable(c: Codec<FileEntry>, data: Bytes) {
    var body := ReadCriuImgHeader(data, FILES_MAGIC);
    body.Ok? && ReadAll(c, body.value).1 == AtEof
  }

  ghost function EntriesOf(c: Codec<FileEntry>, data: Bytes): seq<FileEntry> {
    var body := ReadCriuImgHeader(data, FILES_MAGIC);
    if body.Ok? then Entries(ReadAll(c, body.value).0) else []
  }

  lemma Rereads(c: Codec<FileEntry>, es: seq<FileEntry>)
    requires c.Lawful() && EntriesFit(c, es)
    ensures var data := WriteCriuImgHeader(FILES_MAGIC) + WriteAll(c, es);
            Readable(c, data) && EntriesOf(c, data) == es
  {
    HeaderRoundTrip(FILES_MAGIC, WriteAll(c, es));
    ReadsBackAll(c, es);
    assert Entries(Sized(c, es)) == es;
  }

  // ---- the file as the store holds it ----

  /** The ports can be moved in a file that holds `data`. */
  ghost predicate Patchable(c: Codec<FileEntry>, data: Bytes, pairs: seq<(nat, nat)>) {
    var es := EntriesOf(c, data);
    && Readable(c, data) && EntriesFit(c, PatchEntries(es, Collect(pairs)).0)
    && forall p <- Collect(pairs) :: ListensOn(es, p)
  }

  /** `after` is a file that holds the entries of `before`, patched. */
  ghost predicate PatchOf(c: Codec<FileEntry>, before: Bytes, after: Bytes, pairs: seq<(nat, nat)>) {
    Readable(c, after) && IsPatched(EntriesOf(c, before), Collect(pairs), EntriesOf(c, after))
  }

  /** The bytes before the first end of file. */
  function Prefix(contents: seq<FsParallel.FileContent>): Bytes {
    if contents == [] || contents[0] == FsParallel.FileEnd then []
    else contents[0].data + Prefix(contents[1..])
  }

  /** Joins the chunks of a file, patches it, and makes one chunk of it again. */
  method PatchImg(c: Codec<FileEntry>, contents: seq<FsParallel.FileContent>, pairs: seq<(nat, nat)>)
    returns (r: Result<seq<FsParallel.FileContent>>)
    requires c.Lawful()
    ensures r.Ok? <==> Patchable(c, Prefix(contents), pairs)
    ensures r.Ok? ==> |r.value| == 2 && FsParallel.WholeFile(r.value) && PatchOf(c, Prefix(contents), FsParallel.Data(r.value), pairs)
  {
    var data: Bytes, left := [], contents;
    while left != [] && left[0] != FsParallel.FileEnd
      invariant data + Prefix(left) == Prefix(contents)
      decreases |left|
    {
      data := data + left[0].data;
      left := left[1..];
    }
    assert data + [] == data;
    var newData :- PatchTcpListenRemaps(c, data, pairs);
    r := Ok([FsParallel.Chunk(newData), FsParallel.FileEnd]);
    OneChunk(newData);
  }

  lemma {:induction false} PrefixOfWhole(contents: seq<FsParallel.FileContent>)
    requires FsParallel.WholeFile(contents)
    ensures Prefix(contents) == FsParallel.Data(contents)
  {
    if |contents| == 1 {
      assert contents[1..] == [];
    } else {
      assert contents[0] == contents[..|contents| - 1][0];
      assert contents[1..][..|contents| - 2] == contents[..|contents| - 1][1..];
      PrefixOfWhole(contents[1..]);
    }
  }

  lemma OneChunk(data: Bytes)
    ensures var cs := [FsParallel.Chunk(data), FsParallel.FileEnd];
            FsParallel.WholeFile(cs) && FsParallel.Data(cs) == data
  {
    var cs := [FsParallel.Chunk(data), FsParallel.FileEnd];
    assert cs[..1] == [FsParallel.Chunk(data)] && cs[1..] == [FsParallel.FileEnd] && cs[1..][1..] == [];
    assert FsParallel.Data([FsParallel.FileEnd]) == [];
  }

  // ---- ports wider than 16 bits ----

  /** Source ports are 32-bit fields, looked up by their low half. What is asked for is to move the first
      to listen on exactly the port named. */
  predicate ShouldMove(es: seq<FileEntry>, i: nat, remaps: Remaps)
    requires i < |es|
  {
    && es[i].Listens() && es[i].isk.value.srcPort in remaps
    && forall j | 0 <= j < i :: es[j].Listens() ==> es[j].isk.value.srcPort != es[i].isk.value.srcPort
  }

  /** Of the entries that listen on ports with the same low half, the first has a port of 16 bits. */
  predicate FirstPortsFit(es: seq<FileEntry>) {
    forall i | 0 <= i < |es| && es[i].Listens() && !ListensOn(es[..i], es[i].Port()) ::
      es[i].isk.value.srcPort < 0x1_0000
  }

  lemma {:induction false} FirstListener(es: seq<FileEntry>, port: nat) returns (i: nat)
    requires ListensOn(es, port)
    ensures i < |es| && es[i].Listens() && es[i].Port() == port && !ListensOn(es[..i], port)
  {
    var front, e := es[..|es| - 1], es[|es| - 1];
    if ListensOn(front, port) {
      i := FirstListener(front, port);
      assert front[..i] == es[..i];
    } else {
      i := |es| - 1;
      assert es == front + [e];
      ListensOnSnoc(front, e, port);
    }
  }

  /** The first to listen on a low half and the first to listen on a port are the same entry. */
  lemma FirstIsFirst(es: seq<FileEntry>, i: nat)
    requires FirstPortsFit(es) && i < |es| && es[i].Listens() && es[i].isk.value.srcPort < 0x1_0000
    ensures !ListensOn(es[..i], es[i].Port()) <==>
            forall j | 0 <= j < i :: es[j].Listens() ==> es[j].isk.value.srcPort != es[i].isk.value.srcPort
  {
    var port := es[i].isk.value.srcPort;
    assert es[i].Port() == port;
    if ListensOn(es[..i], port) {
      var j := FirstListener(es[..i], port);
      assert es[..i][j] == es[j] && es[..i][..j] == es[..j];
      assert es[j].isk.value.srcPort == port;
    } else {
      forall j | 0 <= j < i && es[j].Listens() ensures es[j].isk.value.srcPort != port {
        assert es[..i][j] == es[j] && es[j] in es[..i];
      }
    }
  }

  lemma MovesWhatItShould(es: seq<FileEntry>, remaps: Remaps, i: nat)
    requires FirstPortsFit(es) && i < |es| && forall p <- remaps :: p < 0x1_0000
    ensures Moved(es, i, remaps) <==> ShouldMove(es, i, remaps)
  {
    if es[i].Listens() && es[i].isk.value.srcPort < 0x1_0000 {
      FirstIsFirst(es, i);
    }
  }

  /** The right entries are moved, whatever is asked for, exactly when no wide port comes first. */
  lemma MovesTheRightEntriesIffFirstPortsFit(es: seq<FileEntry>)
    ensures FirstPortsFit(es) <==>
            forall remaps: Remaps, i: nat | i < |es| && forall p <- remaps :: p < 0x1_0000 ::
              Moved(es, i, remaps) <==> ShouldMove(es, i, remaps)
  {
    if FirstPortsFit(es) {
      forall remaps: Remaps, i: nat | i < |es| && forall p <- remaps :: p < 0x1_0000
        ensures Moved(es, i, remaps) <==> ShouldMove(es, i, remaps)
      {
        MovesWhatItShould(es, remaps, i);
      }
    } else {
      var i :| 0 <= i < |es| && es[i].Listens() && !ListensOn(es[..i], es[i].Port())
               && es[i].isk.value.srcPort >= 0x1_0000;
      var remaps: Remaps := map[es[i].Port() := 0];
      assert Moved(es, i, remaps) && !ShouldMove(es, i, remaps);
    }
  }

  /** A wide port that is moved in the place of the port asked for. */
  lemma WidePortExample(rest: Bytes)
    ensures var wide := FileEntry(Some(Inet(IPPROTO_TCP, TCP_LISTEN, 0x1_0000 + 80, rest)), rest);
            var plain := FileEntry(Some(Inet(IPPROTO_TCP, TCP_LISTEN, 80, rest)), rest);
            PatchEntries([wide, plain], map[80 := 8080]).0
              == [FileEntry(Some(Inet(IPPROTO_TCP, TCP_LISTEN, 8080, rest)), rest), plain]
  {
    var wide := FileEntry(Some(Inet(IPPROTO_TCP, TCP_LISTEN, 0x1_0000 + 80, rest)), rest);
    var plain := FileEntry(Some(Inet(IPPROTO_TCP, TCP_LISTEN, 80, rest)), rest);
    var remaps: Remaps := map[80 := 8080];
    assert [wide, plain][..1] == [wide] && [wide][..0] == [];
    assert wide.Listens() && wide.Port() == 80 && PatchEntry(wide, remaps) == (wide.WithPort(8080), remaps - {80});
    assert PatchEntries([], remaps) == ([], remaps);
    assert PatchEntries([wide], remaps) == ([] + [wide.WithPort(8080)], remaps - {80});
    assert [] + [wide.WithPort(8080)] == [wide.WithPort(8080)];
    assert 80 !in remaps - {80};
  }
}
