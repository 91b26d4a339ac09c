/** The length-prefixed message stream of src/util.rs. */
module Wire {
  import opened Wrappers

  type Byte = b: int | 0 <= b < 256
  type Bytes = seq<Byte>

  /** Messages of this size or more make both ends panic. */
  const MESSAGE_LIMIT := 10 * 1024

  /** A message encoding. The protobuf library is a parameter: all that is used of it is `Lawful`. */
  datatype Codec<!M(!new)> = Codec(encode: M -> Bytes, decode: Bytes -> Option<M>) {

    ghost predicate Lawful() {
      forall m :: decode(encode(m)) == Some(m)
    }

    /** The text of a message tells where it ends: no proper part of it is a text. */
    ghost predicate SelfDelimiting() {
      forall m, n: nat | n < |encode(m)| :: decode(encode(m)[..n]) == None
    }

    predicate Fits(m: M) {
      |encode(m)| < MESSAGE_LIMIT
    }
  }

  /** The `width` low bytes of a number, least significant first. */
  function PutLe(n: nat, width: nat): (s: Bytes)
    ensures |s| == width
  {
    if width == 0 then [] else [n % 256] + PutLe(n / 256, width - 1)
  }

  function GetLe(s: Bytes): nat {
    if s == [] then 0 else s[0] + 256 * GetLe(s[1..])
  }

  function Power256(k: nat): nat {
    if k == 0 then 1 else 256 * Power256(k - 1)
  }

  lemma {:induction false} LeRoundTrip(n: nat, width: nat)
    requires n < Power256(width)
    ensures GetLe(PutLe(n, width)) == n
  {
    if width == 0 {
    } else {
      LeRoundTrip(n / 256, width - 1);
      assert PutLe(n, width)[1..] == PutLe(n / 256, width - 1);
    }
  }

  /** The byte order: the first byte counts ones, the last 2 to the power 24. */
  lemma LeBytes(n: nat)
    ensures PutLe(n, 4) == [n % 256, n / 0x100 % 256, n / 0x1_0000 % 256, n / 0x100_0000 % 256]
    ensures n < 0x1_0000_0000 ==> FourBytes(PutLe(n, 4)) == n
  {
    var a := n / 256;
    var b := a / 256;
    assert b == n / 0x1_0000 && b / 256 == n / 0x100_0000;
    assert PutLe(b / 256, 1) == [b / 256 % 256] + PutLe(b / 256 / 256, 0);
    assert PutLe(b, 2) == [b % 256] + PutLe(b / 256, 1);
    assert PutLe(a, 3) == [a % 256] + PutLe(b, 2);
  }

  /** Four bytes, the first of which counts ones. */
  function FourBytes(s: Bytes): nat
    requires |s| >= 4
  {
    s[0] as nat + 0x100 * (s[1] as nat) + 0x1_0000 * (s[2] as nat) + 0x100_0000 * (s[3] as nat)
  }

  lemma GetLeMeans(s: Bytes)
    requires |s| >= 4
    ensures GetLe(s[..4]) == FourBytes(s)
  {
    var p := s[..4];
    assert p[1..][1..] == p[2..] && p[2..][1..] == p[3..] && p[3..][1..] == [];
    assert GetLe(p[3..]) == p[3] as nat;
    assert GetLe(p[2..]) == p[2] as nat + 256 * GetLe(p[3..]);
    assert GetLe(p[1..]) == p[1] as nat + 256 * GetLe(p[2..]);
  }

  /** No two numbers are written alike. */
  lemma {:induction false} LeInverse(s: Bytes)
    ensures PutLe(GetLe(s), |s|) == s
  {
    if s == [] {
    } else {
      LeInverse(s[1..]);
      assert GetLe(s) % 256 == s[0] && GetLe(s) / 256 == GetLe(s[1..]);
    }
  }

  lemma U32RoundTrip(n: nat)
    requires n < 0x1_0000_0000
    ensures GetLe(PutLe(n, 4)) == n
  {
    assert Power256(4) == 0x1_0000_0000;
    LeRoundTrip(n, 4);
  }

  /** What one read from a stream gives: the end of the stream, a value and what is left, or an error. */
  datatype Next<+T> = Eof | Got(value: T, rest: Bytes) | Broken(error: Error)

  function ReadBytesNext(src: Bytes, len: nat): (r: Next<Bytes>)
    ensures r.Got? ==> |r.value| == len && src == r.value + r.rest
    ensures r.Eof? <==> src == [] && len > 0
    ensures r.Broken? <==> 0 < |src| < len
  {
    var buf := src[..if len <= |src| then len else |src|];
    if |buf| == 0 then
      if len == 0 then Got(buf, src) else Eof
    else if |buf| == len then
      Got(buf, src[len..])
    else
      Broken(UnexpectedEof)
  }

  /** The reported size is the four bytes of the prefix plus the body: `get_u32_le` empties `size_buf`. */
  function PbReadNext<M(!new)>(c: Codec<M>, src: Bytes): (r: Next<(M, nat)>)
    ensures r.Got? ==> 4 <= r.value.1 <= |src| && r.rest == src[r.value.1..]
    ensures r.Eof? <==> src == []
  {
    match ReadBytesNext(src, 4)
    case Eof => Eof
    case Broken(e) => Broken(e)
    case Got(prefix, body) =>
      var size := GetLe(prefix);
      if size >= MESSAGE_LIMIT then
        Broken(Panicked)
      else
        match ReadBytesNext(body, size)
        case Eof => Broken(UnexpectedEof)
        case Broken(e) => Broken(e)
        case Got(buf, rest) =>
          match c.decode(buf)
          case None => Broken(DecodeFailed)
          case Some(m) => Got((m, 4 + |buf|), rest)
  }

  /** Exactly when a message is read, and which: the four bytes, the first counting ones, tell the length of
      its text, which must be below 10 KiB, all there, and decodable. */
  lemma PbReadNextMeans<M(!new)>(c: Codec<M>, src: Bytes)
    ensures var r := PbReadNext(c, src);
            if |src| < 4 then !r.Got?
            else
              var size := src[0] as int + 0x100 * (src[1] as int) + 0x1_0000 * (src[2] as int) + 0x100_0000 * (src[3] as int);
              if size >= 10240 then r == Broken(Panicked)
              else if |src| < 4 + size then r == Broken(UnexpectedEof)
              else if c.decode(src[4..4 + size]).None? then r == Broken(DecodeFailed)
              else r == Got((c.decode(src[4..4 + size]).value, 4 + size), src[4 + size..])
  {
    if |src| >= 4 {
      GetLeMeans(src);
      var size := GetLe(src[..4]);
      if |src| >= 4 + size {
        assert src[4..][..size] == src[4..4 + size] && src[4..][size..] == src[4 + size..];
      }
    }
  }

  function Frame<M(!new)>(c: Codec<M>, m: M): (r: Bytes)
    requires c.Fits(m)
    ensures |r| == 4 + |c.encode(m)|
  {
    PutLe(|c.encode(m)|, 4) + c.encode(m)
  }

  /** `pb_write`: the bytes appended to the destination, the length of the text before the text, or the panic
      on an oversized message. */
  function PbWrite<M(!new)>(c: Codec<M>, m: M): (r: Result<Bytes>)
    ensures r.Ok? <==> |c.encode(m)| < 10240
    ensures r.Ok? ==> |r.value| >= 4 && r.value[4..] == c.encode(m)
    ensures r.Ok? ==> var b := r.value;
              |c.encode(m)| == b[0] as int + 0x100 * (b[1] as int) + 0x1_0000 * (b[2] as int) + 0x100_0000 * (b[3] as int)
  {
    if c.Fits(m) then
      LeBytes(|c.encode(m)|);
      Ok(Frame(c, m))
    else Err(Panicked)
  }

  /** Reading where a message was written gives that message, its size, and exactly what follows it. */
  lemma ReadsBackOne<M(!new)>(c: Codec<M>, m: M, rest: Bytes)
    requires c.Lawful() && c.Fits(m)
    ensures PbReadNext(c, Frame(c, m) + rest) == Got((m, |Frame(c, m)|), rest)
  {
    var body := c.encode(m);
    var src := Frame(c, m) + rest;
    assert src == PutLe(|body|, 4) + (body + rest);
    assert src[..4] == PutLe(|body|, 4) && src[4..] == body + rest;
    U32RoundTrip(|body|);
    assert (body + rest)[..|body|] == body && (body + rest)[|body|..] == rest;
  }

  /** A message that can be read from what has arrived so far is the one that is read in the end: a reader that
      waits for its bytes sees the same on a stream that grows as on the whole of it. */
  lemma ReadsAsItGrows<M(!new)>(c: Codec<M>, part: Bytes, more: Bytes)
    requires PbReadNext(c, part).Got?
    ensures PbReadNext(c, part + more) == Got(PbReadNext(c, part).value, PbReadNext(c, part).rest + more)
  {
    BytesAsItGrows(part, more, 4);
    var Got(prefix, body) := ReadBytesNext(part, 4);
    BytesAsItGrows(body, more, GetLe(prefix));
  }

  lemma BytesAsItGrows(part: Bytes, more: Bytes, len: nat)
    requires ReadBytesNext(part, len).Got?
    ensures ReadBytesNext(part + more, len) == Got(ReadBytesNext(part, len).value, ReadBytesNext(part, len).rest + more)
  {
    assert (part + more)[..len] == part[..len] && (part + more)[len..] == part[len..] + more;
  }

  /** A proper part of a frame is never read as a message. */
  lemma CutFrameFails<M(!new)>(c: Codec<M>, m: M, cut: nat)
    requires c.Fits(m) && 0 < cut < |Frame(c, m)|
    ensures PbReadNext(c, Frame(c, m)[..cut]) == Broken(UnexpectedEof)
  {
    var src := Frame(c, m)[..cut];
    if cut >= 4 {
      assert src[..4] == PutLe(|c.encode(m)|, 4);
      U32RoundTrip(|c.encode(m)|);
    }
  }

  // ---- whole streams ----

  /** How a reader that iterates over a stream stops. */
  datatype Ending = AtEof | AtError(error: Error)

  function WriteAll<M(!new)>(c: Codec<M>, ms: seq<M>): Bytes
    requires forall m <- ms :: c.Fits(m)
  {
    if ms == [] then [] else Frame(c, ms[0]) + WriteAll(c, ms[1..])
  }

  function ReadAll<M(!new)>(c: Codec<M>, src: Bytes): (r: (seq<(M, nat)>, Ending))
    decreases |src|
  {
    match PbReadNext(c, src)
    case Eof => ([], AtEof)
    case Broken(e) => ([], AtError(e))
    case Got(v, rest) =>
      var (more, end) := ReadAll(c, rest);
      ([v] + more, end)
  }

  lemma ReadAllCons<M(!new)>(c: Codec<M>, m: M, rest: Bytes)
    requires c.Lawful() && c.Fits(m)
    ensures ReadAll(c, Frame(c, m) + rest) == ([(m, |Frame(c, m)|)] + ReadAll(c, rest).0, ReadAll(c, rest).1)
  {
    ReadsBackOne(c, m, rest);
  }

  function Sized<M(!new)>(c: Codec<M>, ms: seq<M>): (r: seq<(M, nat)>)
    requires forall m <- ms :: c.Fits(m)
  {
    seq(|ms|, i requires 0 <= i < |ms| => (ms[i], |Frame(c, ms[i])|))
  }

  /** How many whole messages lie in the first `cut` bytes of the written stream. */
  function Whole<M(!new)>(c: Codec<M>, ms: seq<M>, cut: nat): (k: nat)
    requires forall m <- ms :: c.Fits(m)
    ensures k <= |ms|
  {
    if ms == [] || cut < |Frame(c, ms[0])| then 0 else 1 + Whole(c, ms[1..], cut - |Frame(c, ms[0])|)
  }

  lemma WritePrefix<M(!new)>(c: Codec<M>, ms: seq<M>, j: nat)
    requires (forall m <- ms :: c.Fits(m)) && 0 < j <= |ms|
    ensures WriteAll(c, ms[..j]) == Frame(c, ms[0]) + WriteAll(c, ms[1..][..j - 1])
    ensures Sized(c, ms[..j]) == [(ms[0], |Frame(c, ms[0])|)] + Sized(c, ms[1..][..j - 1])
  {
    assert ms[..j][1..] == ms[1..][..j - 1];
  }

  /** `Whole` counts: its messages end at or before the cut, and the next one ends after it. */
  lemma {:induction false} WholeIsGreatest<M(!new)>(c: Codec<M>, ms: seq<M>, cut: nat)
    requires forall m <- ms :: c.Fits(m)
    ensures var k := Whole(c, ms, cut);
            |WriteAll(c, ms[..k])| <= cut && (k < |ms| ==> cut < |WriteAll(c, ms[..k + 1])|)
  {
    if ms != [] && cut >= |Frame(c, ms[0])| {
      var k := Whole(c, ms[1..], cut - |Frame(c, ms[0])|);
      WholeIsGreatest(c, ms[1..], cut - |Frame(c, ms[0])|);
      WritePrefix(c, ms, k + 1);
      if k + 1 < |ms| {
        WritePrefix(c, ms, k + 2);
      }
    } else if ms != [] {
      WritePrefix(c, ms, 1);
    }
  }

  /** How a read of a first part of a written stream goes. */
  ghost predicate ReadsPart<M(!new)>(c: Codec<M>, ms: seq<M>, part: Bytes)
    requires forall m <- ms :: c.Fits(m)
  {
    var k := Whole(c, ms, |part|);
    ReadAll(c, part) == (Sized(c, ms[..k]), if |part| == |WriteAll(c, ms[..k])| then AtEof else AtError(UnexpectedEof))
  }

  lemma PartOfFirst<M(!new)>(c: Codec<M>, ms: seq<M>, part: Bytes)
    requires c.Lawful() && (forall m <- ms :: c.Fits(m)) && part <= WriteAll(c, ms)
    requires ms == [] || |part| < |Frame(c, ms[0])|
    ensures ReadsPart(c, ms, part)
  {
    assert ms[..0] == [] && Sized(c, ms[..0]) == [];
    if part != [] {
      assert part == Frame(c, ms[0])[..|part|];
      CutFrameFails(c, ms[0], |part|);
    }
  }

  lemma PartAfterFirst<M(!new)>(c: Codec<M>, ms: seq<M>, rest: Bytes)
    requires c.Lawful() && (forall m <- ms :: c.Fits(m)) && ms != [] && ReadsPart(c, ms[1..], rest)
    ensures ReadsPart(c, ms, Frame(c, ms[0]) + rest)
  {
    ReadAllCons(c, ms[0], rest);
    WritePrefix(c, ms, Whole(c, ms[1..], |rest|) + 1);
  }

  /** Reading any first part of a written stream: the messages wholly inside it come back in order with
      their sizes; the reader then stops at EOF when the part ends on a message boundary, and with an
      error otherwise. It never returns a wrong message. */
  lemma {:induction false} ReadsBackPart<M(!new)>(c: Codec<M>, ms: seq<M>, part: Bytes)
    requires c.Lawful() && (forall m <- ms :: c.Fits(m)) && part <= WriteAll(c, ms)
    ensures ReadsPart(c, ms, part)
  {
    if ms == [] || |part| < |Frame(c, ms[0])| {
      PartOfFirst(c, ms, part);
    } else {
      var rest := part[|Frame(c, ms[0])|..];
      assert part == Frame(c, ms[0]) + rest && rest <= WriteAll(c, ms[1..]);
      ReadsBackPart(c, ms[1..], rest);
      PartAfterFirst(c, ms, rest);
    }
  }

  lemma {:induction false} WholeOfAll<M(!new)>(c: Codec<M>, ms: seq<M>)
    requires forall m <- ms :: c.Fits(m)
    ensures Whole(c, ms, |WriteAll(c, ms)|) == |ms|
  {
    if ms == [] {
    } else {
      WholeOfAll(c, ms[1..]);
    }
  }

  /** The whole stream reads back as what was written, and then ends. */
  lemma ReadsBackAll<M(!new)>(c: Codec<M>, ms: seq<M>)
    requires c.Lawful() && forall m <- ms :: c.Fits(m)
    ensures ReadAll(c, WriteAll(c, ms)) == (Sized(c, ms), AtEof)
  {
    ReadsBackPart(c, ms, WriteAll(c, ms));
    WholeOfAll(c, ms);
    assert ms[..|ms|] == ms;
  }

  function TotalSize<M>(read: seq<(M, nat)>): nat {
    if read == [] then 0 else read[0].1 + TotalSize(read[1..])
  }

  /** On any stream at all, written by this program or not, a reader that ends at EOF has reported
      exactly the bytes of the stream. */
  lemma {:induction false} SizesCoverStream<M(!new)>(c: Codec<M>, src: Bytes)
    ensures var (read, end) := ReadAll(c, src);
            TotalSize(read) <= |src| && (end == AtEof ==> TotalSize(read) == |src|)
    decreases |src|
  {
    var next := PbReadNext(c, src);
    if !next.Got? {
    } else {
      SizesCoverStream(c, next.rest);
      var (more, end) := ReadAll(c, next.rest);
      assert ([next.value] + more)[1..] == more;
    }
  }
}
