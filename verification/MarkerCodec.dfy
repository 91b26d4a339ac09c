/** The protocol-buffer form of the markers of proto/image.proto. The encoding of strings is a parameter. */
module MarkerCodec {
  import opened Wrappers
  import opened Wire
  import opened Image

  // ---- varints ----

  function Varint(n: nat): Bytes {
    if n < 128 then [n] else [n % 128 + 128] + Varint(n / 128)
  }

  function GetVarint(src: Bytes): (r: Option<(nat, Bytes)>)
    ensures r.Some? ==> |r.value.1| < |src|
  {
    if src == [] then None
    else if src[0] < 128 then Some((src[0], src[1..]))
    else
      var more := GetVarint(src[1..]);
      if more.None? then None else Some((src[0] - 128 + 128 * more.value.0, more.value.1))
  }

  lemma {:induction false} VarintRoundTrip(n: nat, rest: Bytes)
    ensures GetVarint(Varint(n) + rest) == Some((n, rest))
  {
    var src := Varint(n) + rest;
    if n < 128 {
      assert src[1..] == rest;
    } else {
      VarintRoundTrip(n / 128, rest);
      assert src[1..] == Varint(n / 128) + rest;
    }
  }

  /** 7 bits a byte. */
  lemma {:induction false} VarintLength(n: nat, k: nat)
    requires k > 0 && n < Power128(k)
    ensures 0 < |Varint(n)| <= k
  {
    if n < 128 {
    } else {
      VarintLength(n / 128, k - 1);
    }
  }

  function Power128(k: nat): nat {
    if k == 0 then 1 else 128 * Power128(k - 1)
  }

  // ---- markers ----

  /** The key of a field: its number, and its wire type in the low three bits. */
  function Key(field: nat, wireType: nat): Byte
    requires 0 < field < 16 && wireType < 8
  {
    field * 8 + wireType
  }

  function EncodeBody(text: Codec<string>, body: Body): Bytes {
    match body
    case Filename(name) => [Key(2, 2)] + Varint(|text.encode(name)|) + text.encode(name)
    case FileData(size) => [Key(3, 0)] + Varint(size)
    case FileEof(flag) => [Key(4, 0), if flag then 1 else 0]
    case ImageEof(flag) => [Key(5, 0), if flag then 1 else 0]
  }

  /** A zero sequence number is left out, as every default value is. */
  function Encode(text: Codec<string>, m: Marker): Bytes {
    (if m.seqno == 0 then [] else [Key(1, 0)] + Varint(m.seqno))
    + if m.body.None? then [] else EncodeBody(text, m.body.value)
  }

  /** Skips the value of a field of which nothing is known. */
  function SkipField(wireType: nat, src: Bytes): (r: Option<Bytes>)
    ensures r.Some? ==> |r.value| <= |src|
  {
    match wireType
    case 0 => var v := GetVarint(src); if v.None? then None else Some(v.value.1)
    case 1 => if |src| < 8 then None else Some(src[8..])
    case 2 =>
      var v := GetVarint(src);
      if v.None? || v.value.0 > |v.value.1| then None else Some(v.value.1[v.value.0..])
    case 5 => if |src| < 4 then None else Some(src[4..])
    case _ => None
  }

  /** One field, merged into `m`: of the fields of the body the last one wins. */
  function DecodeField(text: Codec<string>, key: nat, src: Bytes, m: Marker): (r: Option<(Marker, Bytes)>)
    ensures r.Some? ==> |r.value.1| <= |src|
  {
    var v := GetVarint(src);
    if key == Key(2, 2) then
      if v.None? || v.value.0 > |v.value.1| then None
      else
        var name := text.decode(v.value.1[..v.value.0]);
        if name.None? then None else Some((m.(body := Some(Filename(name.value))), v.value.1[v.value.0..]))
    else if key == Key(1, 0) || key == Key(3, 0) || key == Key(4, 0) || key == Key(5, 0) then
      if v.None? then None
      else
        var (n, rest) := v.value;
        Some((if key == Key(1, 0) then m.(seqno := n)
              else if key == Key(3, 0) then m.(body := Some(FileData(n)))
              else if key == Key(4, 0) then m.(body := Some(FileEof(n != 0)))
              else m.(body := Some(ImageEof(n != 0))), rest))
    else
      var rest := SkipField(key % 8, src);
      if rest.None? then None else Some((m, rest.value))
  }

  function DecodeFields(text: Codec<string>, src: Bytes, m: Marker): Option<Marker>
    decreases |src|
  {
    if src == [] then Some(m)
    else
      var key := GetVarint(src);
      if key.None? then None
      else
        var next := DecodeField(text, key.value.0, key.value.1, m);
        if next.None? then None else DecodeFields(text, next.value.1, next.value.0)
  }

  function MarkerFormat(text: Codec<string>): Codec<Marker> {
    Codec(m => Encode(text, m), src => DecodeFields(text, src, Marker(0, None)))
  }

  lemma KeyDecodes(key: Byte, rest: Bytes)
    requires key < 128
    ensures GetVarint([key] + rest) == Some((key as nat, rest))
  {
    assert ([key] + rest)[1..] == rest;
  }

  lemma BodyDecodes(text: Codec<string>, body: Body, seqno: nat)
    requires text.Lawful()
    ensures DecodeFields(text, EncodeBody(text, body), Marker(seqno, None)) == Some(Marker(seqno, Some(body)))
  {
    var src := EncodeBody(text, body);
    match body {
      case Filename(name) =>
        var bytes := text.encode(name);
        assert src == [Key(2, 2)] + (Varint(|bytes|) + bytes);
        KeyDecodes(Key(2, 2), Varint(|bytes|) + bytes);
        VarintRoundTrip(|bytes|, bytes);
        assert bytes[..|bytes|] == bytes && bytes[|bytes|..] == [];
      case FileData(size) =>
        KeyDecodes(Key(3, 0), Varint(size));
        VarintRoundTrip(size, []);
        assert Varint(size) + [] == Varint(size);
      case FileEof(flag) =>
        var bit: Byte := if flag then 1 else 0;
        assert src == [Key(4, 0)] + [bit] && [bit][1..] == [];
        KeyDecodes(Key(4, 0), [bit]);
      case ImageEof(flag) =>
        var bit: Byte := if flag then 1 else 0;
        assert src == [Key(5, 0)] + [bit] && [bit][1..] == [];
        KeyDecodes(Key(5, 0), [bit]);
    }
  }

  lemma SeqnoDecodes(text: Codec<string>, seqno: nat, tail: Bytes)
    ensures DecodeFields(text, [Key(1, 0)] + Varint(seqno) + tail, Marker(0, None))
         == DecodeFields(text, tail, Marker(seqno, None))
  {
    var rest := Varint(seqno) + tail;
    assert [Key(1, 0)] + Varint(seqno) + tail == [Key(1, 0)] + rest;
    KeyDecodes(Key(1, 0), rest);
    VarintRoundTrip(seqno, tail);
    assert DecodeField(text, Key(1, 0), rest, Marker(0, None)) == Some((Marker(seqno, None), tail));
  }

  lemma MarkerRoundTrip(text: Codec<string>, m: Marker)
    requires text.Lawful()
    ensures DecodeFields(text, Encode(text, m), Marker(0, None)) == Some(m)
  {
    var tail := if m.body.None? then [] else EncodeBody(text, m.body.value);
    assert DecodeFields(text, tail, Marker(m.seqno, None)) == Some(m) by {
      if m.body.Some? {
        BodyDecodes(text, m.body.value, m.seqno);
      }
    }
    if m.seqno == 0 {
      assert Encode(text, m) == tail;
    } else {
      SeqnoDecodes(text, m.seqno, tail);
    }
  }

  /** Field by field: the numbers of proto/image.proto, with wire type 0 for numbers and flags and 2 for text. */
  lemma WireFormat(text: Codec<string>, n: nat, name: string)
    requires n < 128 && |text.encode(name)| < 128
    ensures n > 0 ==> Encode(text, Marker(n, None)) == [0x08, n]
    ensures Encode(text, Marker(0, Some(Filename(name)))) == [0x12, |text.encode(name)|] + text.encode(name)
    ensures Encode(text, Marker(0, Some(FileData(n)))) == [0x18, n]
    ensures Encode(text, Marker(0, Some(FileEof(true)))) == [0x20, 1]
    ensures Encode(text, Marker(0, Some(FileEof(false)))) == [0x20, 0]
    ensures Encode(text, Marker(0, Some(ImageEof(true)))) == [0x28, 1]
    ensures Varint(300) == [0xAC, 0x02]
  {
    assert 300 % 128 + 128 == 0xAC && 300 / 128 == 2;
  }

  /** Every marker survives the trip: this is a codec that capture and extraction can share. */
  lemma MarkerFormatLawful(text: Codec<string>)
    requires text.Lawful()
    ensures MarkerFormat(text).Lawful()
  {
    var c := MarkerFormat(text);
    forall m: Marker ensures c.decode(c.encode(m)) == Some(m) {
      MarkerRoundTrip(text, m);
      assert c.encode(m) == Encode(text, m);
    }
  }

  /** With 64-bit sequence numbers and 32-bit sizes, a marker takes at most 17 bytes, the text of a file
      name excepted: only the names decide whether every marker fits a page. */
  lemma MarkerSize(text: Codec<string>, m: Marker)
    requires m.seqno < 0x1_0000_0000_0000_0000
    requires m.body.Some? && m.body.value.FileData? ==> m.body.value.size < 0x1_0000_0000
    requires m.body.Some? && m.body.value.Filename? ==> |text.encode(m.body.value.name)| < 0x1_0000_0000
    ensures |Encode(text, m)| <= 17 +
              if m.body.Some? && m.body.value.Filename? then |text.encode(m.body.value.name)| else 0
  {
    assert Power128(5) == 0x8_0000_0000;
    assert Power128(10) == 0x8_0000_0000 * 0x8_0000_0000 by {
      PowerSum(5, 5);
    }
    VarintLength(m.seqno, 10);
    match m.body {
      case Some(Filename(name)) => VarintLength(|text.encode(name)|, 5);
      case Some(FileData(size)) => VarintLength(size, 5);
      case _ =>
    }
  }

  lemma {:induction false} PowerSum(a: nat, b: nat)
    ensures Power128(a + b) == Power128(a) * Power128(b)
  {
    if a == 0 {
    } else {
      PowerSum(a - 1, b);
    }
  }
}
