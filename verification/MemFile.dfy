/** src/image_store/mem.rs: files kept in memory, in one piece while they are small and in large chunks
    afterwards. */
module MemFile {
  import opened Wrappers
  import opened Sequences
  import opened Wire

  /** A chunk of a large file is a buffer of the capacity `MAX_LARGE_CHUNK_SIZE`. */
  datatype Repr = Small(chunk: Bytes) | Large(chunks: seq<Bytes>)

  const MAX_LARGE_CHUNK_SIZE := 10 * 1024 * 1024

  function Min(a: nat, b: nat): nat {
    if a <= b then a else b
  }

  lemma TopUp(chunks: seq<Bytes>, data: Bytes)
    requires chunks != []
    ensures var last := |chunks| - 1;
            Flatten(chunks[last := chunks[last] + data]) == Flatten(chunks) + data
  {
    var last := |chunks| - 1;
    var front := chunks[..last];
    assert chunks == front + [chunks[last]];
    assert chunks[last := chunks[last] + data] == front + [chunks[last] + data];
    FlattenSnoc(front, chunks[last]);
    FlattenSnoc(front, chunks[last] + data);
    Associate(Flatten(front), chunks[last], data);
  }

  /** `n` bytes have gone from the front of a reader to the end of a file. */
  ghost predicate Copied(before: Bytes, after: Bytes, src: Bytes, rest: Bytes, n: nat) {
    n <= |src| && |after| == |before| + n && after + rest == before + src
  }

  lemma CopiedMeans(before: Bytes, after: Bytes, src: Bytes, rest: Bytes, n: nat)
    requires Copied(before, after, src, rest, n)
    ensures after == before + src[..n] && rest == src[n..]
  {
    assert after == (after + rest)[..|after|] == (before + src)[..|before| + n];
    assert rest == (after + rest)[|after|..] == (before + src)[|before| + n..];
  }

  lemma CopyFirst(before: Bytes, src: Bytes, n: nat)
    requires n <= |src|
    ensures Copied(before, before + src[..n], src, src[n..], n)
  {
    assert src == src[..n] + src[n..];
    Associate(before, src[..n], src[n..]);
  }

  class File {
    const maxSmall: nat
    var repr: Repr

    ghost function Contents(): Bytes
      reads this
    {
      match repr
      case Small(chunk) => chunk
      case Large(chunks) => Flatten(chunks)
    }

    /** A small file takes at most a page; every chunk of a large file is full, but for the last. */
    ghost predicate Valid()
      reads this
    {
      && 0 < maxSmall < MAX_LARGE_CHUNK_SIZE
      && match repr
         case Small(chunk) => |chunk| <= maxSmall
         case Large(chunks) =>
           && chunks != [] && |chunks[|chunks| - 1]| <= MAX_LARGE_CHUNK_SIZE
           && forall i | 0 <= i < |chunks| - 1 :: |chunks[i]| == MAX_LARGE_CHUNK_SIZE
    }

    /** Whether `size` more bytes leave the file small. */
    predicate StaysSmall(size: nat)
      reads this
    {
      repr.Small? && |repr.chunk| + size <= maxSmall
    }

    constructor NewSmall(pageSize: nat)
      requires 0 < pageSize < MAX_LARGE_CHUNK_SIZE
      ensures Valid() && Contents() == [] && maxSmall == pageSize && repr == Small([])
    {
      maxSmall := pageSize;
      repr := Small([]);
    }

    /** Makes room for some of the next `sizeHint` bytes. */
    method ReserveChunk(sizeHint: nat)
      requires Valid()
      modifies this
      ensures Valid() && Contents() == old(Contents())
      ensures repr.Small? <==> old(StaysSmall(sizeHint))
      ensures repr.Small? ==> repr == old(repr)
      ensures repr.Large? ==> |repr.chunks[|repr.chunks| - 1]| < MAX_LARGE_CHUNK_SIZE
    {
      match repr {
        case Small(chunk) =>
          if |chunk| + sizeHint > maxSmall {
            FlattenSnoc([], chunk);
            assert [] + [chunk] == [chunk];
            repr := Large([chunk]);
          }
        case Large(chunks) =>
          if |chunks[|chunks| - 1]| >= MAX_LARGE_CHUNK_SIZE {
            FlattenSnoc(chunks, []);
            repr := Large(chunks + [[]]);
          }
      }
    }

    /** Appends some of the next `size` bytes of the reader `src`, and returns how many with what is left
        of the reader. A large file that finds less than it asks for reports an error; a small one does
        not notice, and reports `size` bytes all the same. */
    method CopyFromReader(src: Bytes, size: nat) returns (r: Result<nat>, rest: Bytes)
      requires Valid()
      modifies this
      ensures r.Ok? ==> Valid()
      ensures old(StaysSmall(size)) ==> repr.Small? && r == Ok(size)
      ensures r.Ok? ==> r.value <= size && (size > 0 ==> r.value > 0)
      ensures r.Ok? ==> Copied(old(Contents()), Contents(), src, rest, Min(r.value, |src|))
      ensures r.Ok? && !old(StaysSmall(size)) ==> r.value <= |src| && repr.Large?
      ensures r.Err? ==> !old(StaysSmall(size)) && |src| < size
    {
      ReserveChunk(size);
      match repr {
        case Small(chunk) =>
          var n := Min(size, |src|);
          CopyFirst(chunk, src, n);
          repr := Small(chunk + src[..n]);
          return Ok(size), src[n..];
        case Large(chunks) =>
          var last := |chunks| - 1;
          var toRead := Min(size, MAX_LARGE_CHUNK_SIZE - |chunks[last]|);
          if toRead > |src| {
            // `read_exact` fails half way; the file is not used any further
            return Err(UnexpectedEof), [];
          }
          TopUp(chunks, src[..toRead]);
          CopyFirst(Flatten(chunks), src, toRead);
          repr := Large(chunks[last := chunks[last] + src[..toRead]]);
          return Ok(toRead), src[toRead..];
      }
    }

    /** All of the next `size` bytes. It succeeds exactly when there are that many, or when the file stays
        small: then a short read goes unnoticed. */
    method WriteAllFromPipe(src: Bytes, size: nat) returns (r: Result<()>, rest: Bytes)
      requires Valid()
      modifies this
      ensures r.Ok? <==> size <= |src| || old(StaysSmall(size))
      ensures r.Ok? ==> Valid() && Copied(old(Contents()), Contents(), src, rest, Min(size, |src|))
      ensures r.Ok? ==> (repr.Small? <==> old(StaysSmall(size)) || (size == 0 && old(repr.Small?)))
      ensures r.Ok? && repr.Large? ==> forall i | 0 <= i < |repr.chunks| - 1 :: |repr.chunks[i]| == 10485760
    {
      var left := size;
      rest := src;
      while left > 0
        invariant Valid() && 0 <= left <= size
        invariant left > 0 ==> StaysSmall(left) == old(StaysSmall(size))
        invariant PartWritten(old(StaysSmall(size)), old(repr.Small?), size, left, |src|)
        invariant Copied(old(Contents()), Contents(), src, rest, Min(size - left, |src|))
        decreases left
      {
        var written;
        written, rest := CopyFromReader(rest, left);
        if written.Err? {
          return Err(written.error), rest;
        }
        left := left - written.value;
      }
      r := Ok(());
    }

    /** All but `left` of `size` bytes have been written. A file that can stay small gets them all at once. */
    ghost predicate PartWritten(stays: bool, wasSmall: bool, size: nat, left: nat, available: nat)
      reads this
    {
      if left == size then repr.Small? == wasSmall
      else if stays then left == 0 && repr.Small?
      else left < size && repr.Large? && size - left <= available
    }

    method Reader() returns (r: FileReader)
      requires Valid()
      ensures fresh(r) && r.Valid() && r.Remaining() == Contents()
    {
      match repr {
        case Small(chunk) =>
          r := new FileReader([chunk]);
          FlattenSnoc([], chunk);
          assert [] + [chunk] == [chunk];
        case Large(chunks) =>
          r := new FileReader(chunks);
      }
    }
  }

  /** Reads a file front to back. Only the last chunk may be empty. */
  class FileReader {
    var chunks: seq<Bytes>

    ghost function Remaining(): Bytes
      reads this
    {
      Flatten(chunks)
    }

    ghost predicate Valid()
      reads this
    {
      forall i | 0 <= i < |chunks| - 1 :: chunks[i] != []
    }

    constructor (chunks: seq<Bytes>)
      requires forall i | 0 <= i < |chunks| - 1 :: chunks[i] != []
      ensures Valid() && this.chunks == chunks
    {
      this.chunks := chunks;
    }

    /** One read into a buffer of `size` bytes. With room in the buffer, nothing is read only at the end. */
    method Read(size: nat) returns (data: Bytes)
      requires Valid()
      modifies this
      ensures Valid() && |data| <= size && data + Remaining() == old(Remaining())
      ensures size > 0 ==> (data == [] <==> old(Remaining()) == [])
    {
      if chunks == [] {
        return [];
      }
      var n := Min(size, |chunks[0]|);
      data := chunks[0][..n];
      assert chunks[0] == data + chunks[0][n..];
      if |chunks| > 1 {
        assert chunks[0] != [];
      } else {
        assert chunks[1..] == [];
      }
      if n == |chunks[0]| {
        assert chunks[0][n..] == [];
        chunks := chunks[1..];
      } else {
        chunks := [chunks[0][n..]] + chunks[1..];
        assert chunks[1..] == old(chunks)[1..];
      }
    }

    /** Reads until nothing comes, with buffers of any sizes: the result is the content. */
    method ReadToEnd(bufferSize: nat -> nat) returns (all: Bytes)
      requires Valid() && forall k :: bufferSize(k) > 0
      modifies this
      ensures all == old(Remaining()) && Remaining() == []
    {
      all := [];
      var k := 0;
      var data := Read(bufferSize(k));
      while data != []
        invariant Valid() && all + data + Remaining() == old(Remaining())
        invariant data == [] ==> Remaining() == []
        decreases |Remaining()| + |data|
      {
        all, k := all + data, k + 1;
        ghost var before := Remaining();
        data := Read(bufferSize(k));
        assert all + (data + Remaining()) == all + data + Remaining();
      }
      assert all + [] + [] == all;
    }
  }
}
