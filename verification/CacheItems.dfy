/** Cached responses and their on-disk form: two big-endian 64-bit lengths around the encoded
    metadata and the data. The JSON codec of the metadata is a parameter. */
module CacheItems {
  import opened Text

  newtype byte = x: int | 0 <= x < 0x100

  datatype Metadata = Metadata(headers: map<string, seq<string>>, contentType: string, contentTotalLength: int)

  /** `metadata` is None for the nil pointer. */
  datatype CacheItem = CacheItem(metadata: Option<Metadata>, data: seq<byte>)

  datatype MetadataCodec = MetadataCodec(encode: Metadata -> seq<byte>, decode: seq<byte> -> Option<Metadata>) {
    /** Decoding gives this metadata back, and its encoding is not empty (JSON writes at least "{}"). */
    predicate Inverts(m: Metadata) {
      decode(encode(m)) == Some(m) && encode(m) != []
    }
  }

  /** The codec gives the metadata of this item back. */
  predicate Keeps(codec: MetadataCodec, item: CacheItem) {
    item.metadata.Some? ==> codec.Inverts(item.metadata.value)
  }

  function IndexOf(ms: seq<Metadata>, m: Metadata): (i: nat)
    requires m in ms
    ensures i < |ms| && ms[i] == m
  {
    if ms[0] == m then 0 else 1 + IndexOf(ms[1..], m)
  }

  /** Whatever metadata are to be stored, some codec keeps all of them. */
  lemma SomeCodecKeeps(ms: seq<Metadata>)
    ensures exists codec: MetadataCodec :: forall m | m in ms :: codec.Inverts(m) && |codec.encode(m)| <= |ms|
  {
    var encode := (m: Metadata) => if m in ms then seq(IndexOf(ms, m) + 1, _ => 0 as byte) else [];
    var decode := (s: seq<byte>) => if 0 < |s| <= |ms| then Some(ms[|s| - 1]) else None;
    var codec := MetadataCodec(encode, decode);
    assert forall m | m in ms :: codec.Inverts(m) && |codec.encode(m)| <= |ms|;
  }

  // ---- Big-endian integers ----

  const TWO_64 := 0x1_0000_0000_0000_0000

  function Power256(k: nat): (p: nat)
    ensures p > 0
  {
    if k == 0 then 1 else 256 * Power256(k - 1)
  }

  function BigEndian(n: nat, width: nat): (s: seq<byte>)
    ensures |s| == width
  {
    if width == 0 then [] else BigEndian(n / 256, width - 1) + [(n % 256) as byte]
  }

  function Unsigned(s: seq<byte>): nat {
    if s == [] then 0 else 256 * Unsigned(s[..|s| - 1]) + s[|s| - 1] as nat
  }

  lemma {:induction false} UnsignedOfBigEndian(n: nat, width: nat)
    requires n < Power256(width)
    ensures Unsigned(BigEndian(n, width)) == n
  {
    if width > 0 {
      UnsignedOfBigEndian(n / 256, width - 1);
      var s := BigEndian(n, width);
      assert s[..|s| - 1] == BigEndian(n / 256, width - 1);
    }
  }

  function EncodeInt64(n: int): (s: seq<byte>)
    requires InInt64(n)
    ensures |s| == 8
  {
    BigEndian(if n < 0 then n + TWO_64 else n, 8)
  }

  function DecodeInt64(s: seq<byte>): int
    requires |s| == 8
  {
    var u := Unsigned(s);
    if u > MAX_INT64 then u - TWO_64 else u
  }

  lemma Int64RoundTrip(n: int)
    requires InInt64(n)
    ensures DecodeInt64(EncodeInt64(n)) == n
  {
    assert Power256(8) == TWO_64 by { Power256Of8(); }
    UnsignedOfBigEndian(if n < 0 then n + TWO_64 else n, 8);
  }

  /** The first byte counts most. */
  lemma BytesInOrder(s: seq<byte>)
    requires |s| == 8
    ensures Unsigned(s) ==
              0x100_0000_0000_0000 * s[0] as nat + 0x1_0000_0000_0000 * s[1] as nat + 0x100_0000_0000 * s[2] as nat
              + 0x1_0000_0000 * s[3] as nat + 0x100_0000 * s[4] as nat + 0x1_0000 * s[5] as nat
              + 0x100 * s[6] as nat + s[7] as nat
  {
    hide Unsigned;
    FirstByte(s[..1]);
    forall i | 0 <= i < 8 ensures Unsigned(s[..i + 1]) == 256 * Unsigned(s[..i]) + s[i] as nat {
      OneMoreByte(s[..i], s[i]);
      assert s[..i] + [s[i]] == s[..i + 1];
    }
    assert s[..8] == s;
    assert s[..0] == [];
  }

  lemma FirstByte(s: seq<byte>)
    ensures Unsigned([]) == 0
  {
  }

  lemma OneMoreByte(s: seq<byte>, b: byte)
    ensures Unsigned(s + [b]) == 256 * Unsigned(s) + b as nat
  {
    assert (s + [b])[..|s|] == s;
  }

  lemma {:induction false} BigEndianOfUnsigned(s: seq<byte>)
    ensures BigEndian(Unsigned(s), |s|) == s && Unsigned(s) < Power256(|s|)
  {
    if s != [] { BigEndianOfUnsigned(s[..|s| - 1]); }
  }

  /** Every eight bytes are the form of one 64-bit integer. */
  lemma Int64Bytes(s: seq<byte>)
    requires |s| == 8
    ensures InInt64(DecodeInt64(s)) && EncodeInt64(DecodeInt64(s)) == s
  {
    hide Unsigned, BigEndian;
    BigEndianOfUnsigned(s);
    assert Power256(8) == TWO_64 by { Power256Of8(); }
  }

  lemma Power256Of8()
    ensures Power256(8) == TWO_64
  {
    assert Power256(4) == 0x1_0000_0000;
  }

  // ---- Streams ----

  /** An io.Reader over a fixed input. */
  class ByteReader {
    const input: seq<byte>
    var pos: nat

    constructor (input: seq<byte>)
      ensures this.input == input && pos == 0
    {
      this.input := input;
      pos := 0;
    }

    ghost predicate Valid()
      reads this
    {
      pos <= |input|
    }

    /** The bytes not yet read. */
    function Rest(): seq<byte>
      requires Valid()
      reads this
    {
      input[pos..]
    }

    /** `io.ReadFull` into a buffer of n bytes. */
    method ReadFull(n: nat) returns (buf: seq<byte>, ok: bool)
      requires Valid()
      modifies this
      ensures Valid()
      ensures ok <==> n <= |old(Rest())|
      ensures buf == if ok then old(Rest())[..n] else old(Rest())
      ensures Rest() == old(Rest())[|buf|..]
    {
      var end := if n <= |input| - pos then pos + n else |input|;
      buf := input[pos..end];
      ok := |buf| == n;
      pos := end;
    }
  }

  /** An io.Writer that accepts `room` more bytes and then fails. */
  class ByteWriter {
    var output: seq<byte>
    var room: nat

    constructor (room: nat)
      ensures output == [] && this.room == room
    {
      output := [];
      this.room := room;
    }

    method Write(bytes: seq<byte>) returns (n: nat, ok: bool)
      modifies this
      ensures ok <==> |bytes| <= old(room)
      ensures n == (if ok then |bytes| else old(room))
      ensures output == old(output) + bytes[..n] && room == old(room) - n
    {
      n := if |bytes| <= room then |bytes| else room;
      ok := n == |bytes|;
      output := output + bytes[..n];
      room := room - n;
    }
  }

  // ---- WriteTo and ReadFrom ----

  /** The complete on-disk form of an item with metadata. */
  function Encoded(codec: MetadataCodec, item: CacheItem): seq<byte>
    requires item.metadata.Some? && |codec.encode(item.metadata.value)| <= MAX_INT64 && |item.data| <= MAX_INT64
  {
    var metadata := codec.encode(item.metadata.value);
    EncodeInt64(|metadata|) + metadata + EncodeInt64(|item.data|) + item.data
  }

  ghost predicate Storable(codec: MetadataCodec, item: CacheItem) {
    |item.data| <= MAX_INT64 && (item.metadata.Some? ==> |codec.encode(item.metadata.value)| <= MAX_INT64)
  }

  /** Writes the block of `all` that starts at k, after the first k bytes of `all`. */
  method WriteBlock(w: ByteWriter, block: seq<byte>, ghost start: seq<byte>, ghost all: seq<byte>, ghost k: nat)
    returns (n: nat, ok: bool)
    requires k + |block| <= |all| && all[k..k + |block|] == block && w.output == start + all[..k]
    modifies w
    ensures n <= |block| && w.output == start + all[..k + n] && w.room == old(w.room) - n
    ensures ok <==> |block| <= old(w.room)
    ensures ok ==> n == |block|
    ensures !ok ==> w.room == 0
  {
    n, ok := w.Write(block);
    assert all[..k + n] == all[..k] + block[..n];
  }

  lemma EncodedBlocks(codec: MetadataCodec, item: CacheItem)
    requires item.metadata.Some? && Storable(codec, item)
    ensures var metadata, all := codec.encode(item.metadata.value), Encoded(codec, item);
            && |all| == 16 + |metadata| + |item.data|
            && all[0..8] == EncodeInt64(|metadata|) && all[8..8 + |metadata|] == metadata
            && all[8 + |metadata|..16 + |metadata|] == EncodeInt64(|item.data|)
            && all[16 + |metadata|..] == item.data
  {
    hide EncodeInt64;
  }

  /** Writes the item; a failing writer keeps a strict prefix of the encoding. */
  method WriteTo(codec: MetadataCodec, item: CacheItem, w: ByteWriter) returns (written: nat, ok: bool)
    requires Storable(codec, item)
    modifies w
    ensures item.metadata.None? ==> !ok && written == 0 && w.output == old(w.output)
    ensures item.metadata.Some? ==>
              var all := Encoded(codec, item);
              && (ok <==> |all| <= old(w.room))
              && (ok ==> w.output == old(w.output) + all && written == |all|)
              && (!ok ==> w.output == old(w.output) + all[..old(w.room)] && written <= old(w.room))
  {
    if item.metadata.None? {
      return 0, false;
    }
    hide EncodeInt64, Encoded;
    var metadata := codec.encode(item.metadata.value);
    ghost var start, all := w.output, Encoded(codec, item);
    EncodedBlocks(codec, item);
    var n;
    n, ok := WriteBlock(w, EncodeInt64(|metadata|), start, all, 0);
    written := 0;
    if !ok { return; }
    written := 8;
    n, ok := WriteBlock(w, metadata, start, all, 8);
    written := written + n;
    if !ok { return; }
    n, ok := WriteBlock(w, EncodeInt64(|item.data|), start, all, 8 + |metadata|);
    if !ok { return; }
    written := written + 8;
    n, ok := WriteBlock(w, item.data, start, all, 16 + |metadata|);
    written := written + n;
    assert all[..|all|] == all;
  }

  /** Outcome of ReadFrom: the item if it was accepted, the reported byte count and the
      number of bytes taken from the stream. */
  datatype ReadOutcome = ReadOutcome(item: Option<CacheItem>, read: nat, taken: nat)

  /** A length field and that many bytes: `positive` forbids the length 0. */
  function TakeBlock(s: seq<byte>, positive: bool): (r: (Option<seq<byte>>, nat, nat))
    ensures r.0.Some? ==> r.1 == r.2 == 8 + |r.0.value| <= |s|
    ensures r.2 <= |s|
  {
    if |s| < 8 then (None, 0, |s|)
    else
      var n := DecodeInt64(s[..8]);
      if n < 0 || (positive && n == 0) then (None, 8, 8)
      else if 8 + n > |s| then (None, |s|, |s|)
      else (Some(s[8..8 + n]), 8 + n, 8 + n)
  }

  function Decoded(codec: MetadataCodec, s: seq<byte>): ReadOutcome {
    var (metadata, read, taken) := TakeBlock(s, true);
    if metadata.None? then ReadOutcome(None, read, taken)
    else
      var m := codec.decode(metadata.value);
      if m.None? then ReadOutcome(None, read, taken)
      else
        var (data, read', taken') := TakeBlock(s[taken..], false);
        ReadOutcome(if data.None? then None else Some(CacheItem(m, data.value)), read + read', taken + taken')
  }

  method ReadBlock(r: ByteReader, positive: bool) returns (block: Option<seq<byte>>, read: nat)
    requires r.Valid()
    modifies r
    ensures r.Valid()
    ensures var (block', read', taken') := TakeBlock(old(r.Rest()), positive);
            block == block' && read == read' && r.Rest() == old(r.Rest())[taken'..]
  {
    ghost var s := r.Rest();
    var length, ok := r.ReadFull(8);
    if !ok {
      return None, 0;
    }
    read := 8;
    var n := DecodeInt64(length);
    if n < 0 || (positive && n == 0) {
      return None, read;
    }
    var buf;
    buf, ok := r.ReadFull(n);
    read := read + |buf|;
    assert s[8..][..|buf|] == s[8..8 + |buf|] && s[8..][|buf|..] == s[8 + |buf|..];
    block := if ok then Some(buf) else None;
  }

  method ReadFrom(codec: MetadataCodec, r: ByteReader) returns (item: Option<CacheItem>, read: nat)
    requires r.Valid()
    modifies r
    ensures r.Valid()
    ensures var out := Decoded(codec, old(r.Rest()));
            item == out.item && read == out.read && out.taken <= |old(r.Rest())|
            && r.Rest() == old(r.Rest())[out.taken..]
  {
    ghost var s := r.Rest();
    var metadata;
    metadata, read := ReadBlock(r, true);
    if metadata.None? {
      return None, read;
    }
    var m := codec.decode(metadata.value);
    if m.None? {
      return None, read;
    }
    var data, n := ReadBlock(r, false);
    read := read + n;
    item := if data.None? then None else Some(CacheItem(m, data.value));
  }

  /** A well-formed block followed by anything is taken whole. */
  lemma TakeWholeBlock(block: seq<byte>, rest: seq<byte>, positive: bool)
    requires |block| <= MAX_INT64 && (positive ==> block != [])
    ensures TakeBlock(EncodeInt64(|block|) + block + rest, positive)
            == (Some(block), 8 + |block|, 8 + |block|)
  {
    Int64RoundTrip(|block|);
    var s := EncodeInt64(|block|) + block + rest;
    assert s[..8] == EncodeInt64(|block|) && s[8..8 + |block|] == block;
  }

  /** A block cut anywhere is refused. */
  lemma TakeCutBlock(block: seq<byte>, cut: nat, positive: bool)
    requires |block| <= MAX_INT64 && (positive ==> block != []) && cut < 8 + |block|
    ensures TakeBlock((EncodeInt64(|block|) + block)[..cut], positive).0.None?
  {
    if cut >= 8 {
      Int64RoundTrip(|block|);
      assert (EncodeInt64(|block|) + block)[..cut][..8] == EncodeInt64(|block|);
    }
  }

  /** Reading what was written gives the item back, reports its size and leaves what follows. */
  lemma RoundTrip(codec: MetadataCodec, item: CacheItem, rest: seq<byte>)
    requires item.metadata.Some? && Storable(codec, item) && Keeps(codec, item)
    ensures var n := |Encoded(codec, item)|;
            Decoded(codec, Encoded(codec, item) + rest) == ReadOutcome(Some(item), n, n)
  {
    hide EncodeInt64, TakeBlock;
    var metadata := codec.encode(item.metadata.value);
    var tail := EncodeInt64(|item.data|) + item.data + rest;
    var s := Encoded(codec, item) + rest;
    assert s == EncodeInt64(|metadata|) + metadata + tail;
    TakeWholeBlock(metadata, tail, true);
    assert s[8 + |metadata|..] == tail;
    TakeWholeBlock(item.data, rest, false);
  }

  /** Every strict prefix of a written item is refused, so an interrupted write is never read back. */
  lemma StrictPrefixRejected(codec: MetadataCodec, item: CacheItem, cut: nat)
    requires item.metadata.Some? && Storable(codec, item) && Keeps(codec, item)
    requires cut < |Encoded(codec, item)|
    ensures Decoded(codec, Encoded(codec, item)[..cut]).item.None?
  {
    hide EncodeInt64, TakeBlock;
    var metadata := codec.encode(item.metadata.value);
    var head := EncodeInt64(|metadata|) + metadata;
    var tail := EncodeInt64(|item.data|) + item.data;
    assert Encoded(codec, item) == head + tail;
    var s := Encoded(codec, item)[..cut];
    if cut < |head| {
      assert s == head[..cut];
      TakeCutBlock(metadata, cut, true);
    } else {
      var k := cut - |head|;
      assert s == head + tail[..k];
      TakeWholeBlock(metadata, tail[..k], true);
      assert s[8 + |metadata|..] == tail[..k];
      TakeCutBlock(item.data, k, false);
    }
  }

  /** A block is taken if and only if the text begins with its length and the block. */
  lemma TakeBlockIff(s: seq<byte>, block: seq<byte>, positive: bool)
    ensures TakeBlock(s, positive).0 == Some(block) <==>
              |block| <= MAX_INT64 && (positive ==> block != []) && EncodeInt64(|block|) + block <= s
  {
    hide EncodeInt64, DecodeInt64;
    if TakeBlock(s, positive).0 == Some(block) {
      Int64Bytes(s[..8]);
      assert s == s[..8] + block + s[8 + |block|..];
    } else if |block| <= MAX_INT64 && (positive ==> block != []) && EncodeInt64(|block|) + block <= s {
      hide TakeBlock;
      var n := |EncodeInt64(|block|) + block|;
      assert s == EncodeInt64(|block|) + block + s[n..];
      TakeWholeBlock(block, s[n..], positive);
    }
  }

  /** The text begins with this metadata text and these data, each behind its length. */
  predicate Begins(s: seq<byte>, metadata: seq<byte>, data: seq<byte>) {
    && 0 < |metadata| <= MAX_INT64 && |data| <= MAX_INT64
    && EncodeInt64(|metadata|) + metadata + (EncodeInt64(|data|) + data) <= s
  }

  /** Exactly which texts are read as an item, and as which: those that begin with a metadata text that
      is not empty and that the codec reads, and the data. */
  lemma DecodedIff(codec: MetadataCodec, s: seq<byte>, item: CacheItem)
    ensures Decoded(codec, s).item == Some(item) <==>
              item.metadata.Some?
              && exists metadata :: codec.decode(metadata) == item.metadata && Begins(s, metadata, item.data)
  {
    hide EncodeInt64, TakeBlock;
    if Decoded(codec, s).item == Some(item) {
      var metadata := TakeBlock(s, true).0.value;
      TakeBlockIff(s, metadata, true);
      var n := 8 + |metadata|;
      TakeBlockIff(s[n..], item.data, false);
      assert s[..n] == EncodeInt64(|metadata|) + metadata;
      assert s == s[..n] + s[n..];
      assert Begins(s, metadata, item.data);
    }
    if item.metadata.Some? {
      if metadata :| codec.decode(metadata) == item.metadata && Begins(s, metadata, item.data) {
        var n := 8 + |metadata|;
        assert s[..n] == EncodeInt64(|metadata|) + metadata;
        assert s[n..][..8 + |item.data|] == EncodeInt64(|item.data|) + item.data;
        TakeBlockIff(s, metadata, true);
        TakeBlockIff(s[n..], item.data, false);
      }
    }
  }
}
