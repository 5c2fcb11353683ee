/** The ISFP frame format (internal/protocol). */
module FrameCodec {
  import opened Bytes

  const MAGIC: nat := 0x5057
  const VERSION: nat := 1
  const HEADER_SIZE: nat := 20
  const MAX_FRAME_LEN: nat := 0x10_0000
  const MAX_DECOMPRESSED_LEN: nat := 0x100_0000

  const TYPE_DATA: Byte := 1
  const TYPE_HEARTBEAT: Byte := 2
  const TYPE_DATA_ZSTD: Byte := 4

  datatype Header = Header(magic: nat, version: Byte, typ: Byte, seqNo: nat, length: nat, crc: nat)

  datatype Error =
    TooShort | BadMagic | BadVersion | TooLarge | LengthMismatch | BadCrc | Unsupported | NotEmpty | Corrupt

  datatype Result<+T> = Ok(value: T) | Err(error: Error)

  datatype Frame = Frame(version: Byte, typ: Byte, seqNo: nat, crc: nat, payload: seq<Byte>)

  /** The fields fit their widths of 2, 8, 4 and 4 bytes. */
  predicate Fits(h: Header) {
    h.magic < 0x1_0000 && h.seqNo < 0x1_0000_0000_0000_0000 && h.length < 0x1_0000_0000 && h.crc < 0x1_0000_0000
  }

  function HeaderBytes(h: Header): (b: seq<Byte>)
    ensures |b| == HEADER_SIZE
  {
    ToBE(h.magic, 2) + [h.version, h.typ] + ToBE(h.seqNo, 8) + ToBE(h.length, 4) + ToBE(h.crc, 4)
  }

  function RawHeader(b: seq<Byte>): Header
    requires |b| >= HEADER_SIZE
  {
    Header(FromBE(b[0..2]), b[2], b[3], FromBE(b[4..12]), FromBE(b[12..16]), FromBE(b[16..20]))
  }

  function ParseHeader(b: seq<Byte>): Result<Header> {
    if |b| < HEADER_SIZE then Err(TooShort)
    else
      var h := RawHeader(b);
      if h.magic != MAGIC then Err(BadMagic)
      else if h.version != VERSION then Err(BadVersion)
      else if HEADER_SIZE + h.length > MAX_FRAME_LEN then Err(TooLarge)
      else Ok(h)
  }

  function Decode(b: seq<Byte>, crc32: seq<Byte> -> nat): Result<Frame> {
    var p := ParseHeader(b);
    if p.Err? then Err(p.error)
    else if |b| != HEADER_SIZE + p.value.length then Err(LengthMismatch)
    else if crc32(b[HEADER_SIZE..]) != p.value.crc then Err(BadCrc)
    else Ok(Frame(p.value.version, p.value.typ, p.value.seqNo, p.value.crc, b[HEADER_SIZE..]))
  }

  function RawBytes(typ: Byte, seqNo: nat, payload: seq<Byte>, crc: nat): seq<Byte> {
    HeaderBytes(Header(MAGIC, VERSION, typ, seqNo, |payload|, crc)) + payload
  }

  /** Writes the header into the first 20 bytes of a buffer. */
  method PutHeader(dst: array<Byte>, h: Header)
    requires dst.Length >= HEADER_SIZE
    modifies dst
    ensures dst[..HEADER_SIZE] == HeaderBytes(h)
    ensures dst[HEADER_SIZE..] == old(dst[HEADER_SIZE..])
  {
    var b := HeaderBytes(h);
    for i := 0 to HEADER_SIZE
      invariant dst[..i] == b[..i]
      invariant dst[HEADER_SIZE..] == old(dst[HEADER_SIZE..])
    {
      dst[i] := b[i];
    }
  }

  method EncodeRaw(typ: Byte, seqNo: nat, payload: seq<Byte>, crc: nat) returns (out: array<Byte>)
    ensures fresh(out) && out[..] == RawBytes(typ, seqNo, payload, crc)
  {
    out := new Byte[HEADER_SIZE + |payload|];
    PutHeader(out, Header(MAGIC, VERSION, typ, seqNo, |payload|, crc));
    for i := 0 to |payload|
      invariant out[..HEADER_SIZE] == HeaderBytes(Header(MAGIC, VERSION, typ, seqNo, |payload|, crc))
      invariant out[HEADER_SIZE..HEADER_SIZE + i] == payload[..i]
    {
      out[HEADER_SIZE + i] := payload[i];
    }
    assert out[..] == out[..HEADER_SIZE] + out[HEADER_SIZE..HEADER_SIZE + |payload|];
  }

  // ---------------------------------------------------------------- round trips

  lemma RawHeaderOfBytes(h: Header, rest: seq<Byte>)
    requires Fits(h)
    ensures RawHeader(HeaderBytes(h) + rest) == h
  {
    var b := HeaderBytes(h) + rest;
    Widths();
    FromToBE(h.magic, 2);
    FromToBE(h.seqNo, 8);
    FromToBE(h.length, 4);
    FromToBE(h.crc, 4);
    assert b[0..2] == ToBE(h.magic, 2);
    assert b[4..12] == ToBE(h.seqNo, 8);
    assert b[12..16] == ToBE(h.length, 4);
    assert b[16..20] == ToBE(h.crc, 4);
  }

  lemma BytesOfRawHeader(b: seq<Byte>)
    requires |b| >= HEADER_SIZE
    ensures Fits(RawHeader(b)) && HeaderBytes(RawHeader(b)) == b[..HEADER_SIZE]
  {
    Widths();
    ToFromBE(b[0..2]);
    ToFromBE(b[4..12]);
    ToFromBE(b[12..16]);
    ToFromBE(b[16..20]);
    assert b[..HEADER_SIZE] == b[0..2] + [b[2], b[3]] + b[4..12] + b[12..16] + b[16..20];
  }

  /** Decode accepts exactly the encodings of in-range frames with a matching checksum, and returns
      the frame that was encoded. */
  lemma DecodeIff(b: seq<Byte>, crc32: seq<Byte> -> nat, f: Frame)
    ensures Decode(b, crc32) == Ok(f)
            <==> && f.version == VERSION && f.seqNo < 0x1_0000_0000_0000_0000 && f.crc < 0x1_0000_0000
                 && HEADER_SIZE + |f.payload| <= MAX_FRAME_LEN && f.crc == crc32(f.payload)
                 && b == RawBytes(f.typ, f.seqNo, f.payload, f.crc)
  {
    if Decode(b, crc32) == Ok(f) {
      BytesOfRawHeader(b);
      assert b == b[..HEADER_SIZE] + b[HEADER_SIZE..];
    }
    if f.seqNo < 0x1_0000_0000_0000_0000 && f.crc < 0x1_0000_0000 && HEADER_SIZE + |f.payload| <= MAX_FRAME_LEN
       && b == RawBytes(f.typ, f.seqNo, f.payload, f.crc)
    {
      RawHeaderOfBytes(Header(MAGIC, VERSION, f.typ, f.seqNo, |f.payload|, f.crc), f.payload);
      assert b[HEADER_SIZE..] == f.payload;
    }
  }

  /** The bytes of a frame on the wire: P, W, version, type, then seq, payload length and checksum, each most
      significant byte first, then the payload. */
  lemma WireLayout(typ: Byte, seqNo: nat, payload: seq<Byte>, crc: nat)
    requires seqNo < 0x1_0000_0000_0000_0000 && |payload| < 0x1_0000_0000 && crc < 0x1_0000_0000
    ensures var b := RawBytes(typ, seqNo, payload, crc);
            && |b| == HEADER_SIZE + |payload| && b[0] == 0x50 && b[1] == 0x57 && b[2] == 1 && b[3] == typ
            && FromBE(b[4..12]) == seqNo && FromBE(b[12..16]) == |payload| && FromBE(b[16..20]) == crc
            && b[20..] == payload
  {
    var h := Header(MAGIC, VERSION, typ, seqNo, |payload|, crc);
    RawHeaderOfBytes(h, payload);
    assert ToBE(MAGIC, 2) == ToBE(MAGIC / 256, 1) + [MAGIC % 256] && ToBE(MAGIC / 256, 1) == ToBE(0, 0) + [0x50];
  }

  // ---------------------------------------------------------------- sequence stamping

  /** The WAL overwrites the seq field of an encoded frame in place. */
  function Stamped(b: seq<Byte>, seqNo: nat): (r: seq<Byte>)
    requires |b| >= HEADER_SIZE
    ensures |r| == |b|
  {
    b[..4] + ToBE(seqNo, 8) + b[12..]
  }

  lemma HeaderOfStamped(b: seq<Byte>, seqNo: nat)
    requires |b| >= HEADER_SIZE && seqNo < 0x1_0000_0000_0000_0000
    ensures RawHeader(Stamped(b, seqNo)) == RawHeader(b).(seqNo := seqNo)
  {
    Widths();
    FromToBE(seqNo, 8);
    var s := Stamped(b, seqNo);
    assert s[0..2] == b[0..2];
    assert s[4..12] == ToBE(seqNo, 8);
    assert s[12..16] == b[12..16];
    assert s[16..20] == b[16..20];
  }

  /** Stamping changes the seq of the decoded frame and nothing else: the checksum still matches. */
  lemma DecodeStamped(b: seq<Byte>, crc32: seq<Byte> -> nat, seqNo: nat)
    requires |b| >= HEADER_SIZE && seqNo < 0x1_0000_0000_0000_0000
    ensures Decode(b, crc32).Ok? <==> Decode(Stamped(b, seqNo), crc32).Ok?
    ensures Decode(b, crc32).Ok? ==>
              Decode(Stamped(b, seqNo), crc32).value == Decode(b, crc32).value.(seqNo := seqNo)
  {
    HeaderOfStamped(b, seqNo);
    assert Stamped(b, seqNo)[HEADER_SIZE..] == b[HEADER_SIZE..];
  }

  // ---------------------------------------------------------------- compression

  /** One compression algorithm: what gzip and zstd promise. */
  datatype Codec = Codec(compress: seq<Byte> -> seq<Byte>, decompress: seq<Byte> -> Result<seq<Byte>>)

  ghost predicate Inverse(c: Codec) {
    forall p: seq<Byte> :: c.decompress(c.compress(p)) == Ok(p)
  }

  function CodecFor(typ: Byte, gzip: Codec, zstd: Codec): Result<Codec> {
    if typ == TYPE_DATA then Ok(gzip) else if typ == TYPE_DATA_ZSTD then Ok(zstd) else Err(Unsupported)
  }

  function Encode(typ: Byte, seqNo: nat, payload: seq<Byte>, gzip: Codec, zstd: Codec, crc32: seq<Byte> -> nat)
    : Result<seq<Byte>>
  {
    if typ == TYPE_HEARTBEAT then
      if payload != [] then Err(NotEmpty) else Ok(RawBytes(typ, seqNo, [], 0))
    else if |payload| > MAX_DECOMPRESSED_LEN then Err(TooLarge)
    else
      var c := CodecFor(typ, gzip, zstd);
      if c.Err? then Err(c.error)
      else
        var z := c.value.compress(payload);
        if HEADER_SIZE + |z| > MAX_FRAME_LEN then Err(TooLarge) else Ok(RawBytes(typ, seqNo, z, crc32(z)))
  }

  function Decompress(f: Frame, gzip: Codec, zstd: Codec): Result<seq<Byte>> {
    var c := CodecFor(f.typ, gzip, zstd);
    if c.Err? then Err(c.error)
    else
      var out := c.value.decompress(f.payload);
      if out.Ok? && |out.value| > MAX_DECOMPRESSED_LEN then Err(TooLarge) else out
  }

  /** Whatever Encode produces for a data frame, the receiver decodes and decompresses to the same
      text, also after the WAL stamped another seq into it. */
  lemma EncodeDecode(
    typ: Byte, seqNo: nat, payload: seq<Byte>, gzip: Codec, zstd: Codec, crc32: seq<Byte> -> nat, stamp: nat)
    requires Inverse(gzip) && Inverse(zstd) && forall p: seq<Byte> :: crc32(p) < 0x1_0000_0000
    requires seqNo < 0x1_0000_0000_0000_0000 && stamp < 0x1_0000_0000_0000_0000 && typ != TYPE_HEARTBEAT
    requires Encode(typ, seqNo, payload, gzip, zstd, crc32).Ok?
    ensures var b := Encode(typ, seqNo, payload, gzip, zstd, crc32).value;
            && |b| >= HEADER_SIZE && Decode(Stamped(b, stamp), crc32).Ok?
            && Decode(Stamped(b, stamp), crc32).value.seqNo == stamp
            && Decode(Stamped(b, stamp), crc32).value.typ == typ
            && Decompress(Decode(Stamped(b, stamp), crc32).value, gzip, zstd) == Ok(payload)
  {
    var z := CodecFor(typ, gzip, zstd).value.compress(payload);
    var b := Encode(typ, seqNo, payload, gzip, zstd, crc32).value;
    DecodeIff(b, crc32, Frame(VERSION, typ, seqNo, crc32(z), z));
    DecodeStamped(b, crc32, stamp);
  }

  /** Type 1 is gzip, type 4 is zstd, type 2 is a heartbeat without payload, and there are no others; the
      checksum is that of the compressed payload. Frames are refused only for their size. */
  lemma EncodedWith(
    typ: Byte, seqNo: nat, payload: seq<Byte>, gzip: Codec, zstd: Codec, crc32: seq<Byte> -> nat)
    ensures var z := if typ == 1 then gzip.compress(payload) else if typ == 4 then zstd.compress(payload) else [];
            var r := Encode(typ, seqNo, payload, gzip, zstd, crc32);
            && (r.Ok? <==> if typ == 2 then payload == []
                           else (typ == 1 || typ == 4) && |payload| <= 0x100_0000 && 20 + |z| <= 0x10_0000)
            && (r.Ok? ==> r.value == RawBytes(typ, seqNo, z, if typ == 2 then 0 else crc32(z)))
  {
  }

  lemma DecompressedWith(f: Frame, gzip: Codec, zstd: Codec)
    ensures var r, out := Decompress(f, gzip, zstd), (if f.typ == 1 then gzip else zstd).decompress(f.payload);
            && (r.Ok? <==> (f.typ == 1 || f.typ == 4) && out.Ok? && |out.value| <= 0x100_0000)
            && (r.Ok? ==> r == out)
  {
  }
}
