/**
 The binary record envelope: what an envelope looks like on the wire, and what a decoder must
 answer for every buffer.

 magic 0xB0, flags, tag count, tags, payload length, stored payload, CRC32C; integers little-endian.
 */
module EnvelopeFormat {
  import opened Bytes
  import Crc32c
  import Utf8

  const BINARY_MAGIC: byte := 0xB0
  const JSON_MAGIC: byte := 0x7B
  const ZSTD_MAX_DECOMPRESSED_SIZE: nat := 64 * 1024 * 1024
  const DEFAULT_ZSTD_LEVEL: int := 3

  datatype RecordEnvelope = RecordEnvelope(shareable: bool, tags: seq<Utf8.Text>, payload: bytes)

  datatype EnvelopeError =
    | Json
    | Truncated(expected: nat, got: nat)
    | InvalidMagic(magic: byte)
    | CrcMismatch(stored: u32, computed: u32)
    | ReservedFlagsSet(flags: byte)
    | ZstdDecompress
    | TagNotUtf8(index: nat)

  /** The zstd and JSON libraries: any functions, until `Lawful` is asked of them. */
  datatype Libraries = Libraries(
    compress: (bytes, int) -> Option<bytes>,
    decompress: (bytes, nat) -> Option<bytes>,
    toJson: RecordEnvelope -> bytes,
    fromJson: bytes -> Option<RecordEnvelope>
  )

  /** A compressed frame gives its original back, and gives nothing when the original exceeds the cap. */
  ghost predicate LawfulZstd(libs: Libraries) {
    forall p: bytes, level: int, cap: nat | libs.compress(p, level).Some? ::
      libs.decompress(libs.compress(p, level).value, cap) == if |p| <= cap then Some(p) else None
  }

  ghost predicate LawfulJson(libs: Libraries) {
    forall e: RecordEnvelope ::
      var s := libs.toJson(e); s != [] && s[0] == JSON_MAGIC && libs.fromJson(s) == Some(e)
  }

  // ---- layout -----------------------------------------------------------------------------

  /** An envelope as stored: tags are plain bytes here, and the payload may be a zstd frame. */
  datatype Wire = Wire(shareable: bool, zstd: bool, tags: seq<bytes>, stored: bytes)

  function Flags(w: Wire): byte {
    (if w.shareable then 1 else 0) + (if w.zstd then 2 else 0)
  }

  function TagBytes(tags: seq<bytes>): bytes {
    if tags == [] then [] else LE16(AsU16(|tags[0]|)) + tags[0] + TagBytes(tags[1..])
  }

  lemma NoTags()
    ensures TagBytes([]) == []
  {
  }

  lemma {:induction false} TagBytesAppend(a: seq<bytes>, b: seq<bytes>)
    ensures TagBytes(a + b) == TagBytes(a) + TagBytes(b)
  {
    if a == [] {
      assert a + b == b;
    } else {
      assert (a + b)[1..] == a[1..] + b;
      TagBytesAppend(a[1..], b);
    }
  }

  /** Everything the checksum covers: from the magic byte to the end of the stored payload. */
  function Body(w: Wire): bytes {
    [BINARY_MAGIC, Flags(w)] + LE16(AsU16(|w.tags|)) + TagBytes(w.tags)
    + LE32(AsU32(|w.stored|)) + w.stored
  }

  function Encode(w: Wire): bytes {
    Body(w) + LE32(Crc32c.Checksum(Body(w)))
  }

  predicate BoundedTags(tags: seq<bytes>) {
    forall i :: 0 <= i < |tags| ==> |tags[i]| <= 0xFFFF
  }

  /** No length is cut by the encoder's `as u16` and `as u32` casts. */
  predicate BoundedWire(w: Wire) {
    |w.tags| <= 0xFFFF && BoundedTags(w.tags) && |w.stored| < 0x1_0000_0000
  }

  predicate Bounded(e: RecordEnvelope) {
    |e.tags| <= 0xFFFF && BoundedTags(e.tags) && |e.payload| < 0x1_0000_0000
  }

  function Plain(e: RecordEnvelope): Wire { Wire(e.shareable, false, e.tags, e.payload) }

  /** The stored form the encoder picks: a failing compressor degrades to the plain payload. */
  function Pack(libs: Libraries, e: RecordEnvelope, level: Option<int>): Wire {
    if level.Some? && libs.compress(e.payload, level.value).Some?
    then Wire(e.shareable, true, e.tags, libs.compress(e.payload, level.value).value)
    else Plain(e)
  }

  function EncodeBinary(e: RecordEnvelope): bytes { Encode(Plain(e)) }

  function EncodeBinaryZstd(libs: Libraries, e: RecordEnvelope, level: int): bytes {
    Encode(Pack(libs, e, Some(level)))
  }

  function EncodeBinarySmallest(libs: Libraries, e: RecordEnvelope): bytes {
    var plain, compressed := EncodeBinary(e), EncodeBinaryZstd(libs, e, DEFAULT_ZSTD_LEVEL);
    if |compressed| < |plain| then compressed else plain
  }

  // ---- decoding ---------------------------------------------------------------------------

  function U16At(buf: bytes, pos: nat): (n: nat)
    requires pos + 2 <= |buf|
    ensures n <= 0xFFFF
  {
    U16(buf[pos..pos + 2])
  }

  function U32At(buf: bytes, pos: nat): u32
    requires pos + 4 <= |buf|
  {
    U32(buf[pos..pos + 4])
  }

  function ReadTags(buf: bytes, pos: nat, i: nat, count: nat, acc: seq<Utf8.Text>)
    : (r: Result<(seq<Utf8.Text>, nat), EnvelopeError>)
    requires pos <= |buf| && i <= count
    ensures r.Ok? ==> pos <= r.value.1 <= |buf|
    decreases count - i
  {
    if i == count then Ok((acc, pos))
    else if pos + 2 > |buf| then Err(Truncated(pos + 2, |buf|))
    else
      var start := pos + 2;
      var end := start + U16At(buf, pos);
      if end > |buf| then Err(Truncated(end, |buf|))
      else if !Utf8.Valid(buf[start..end]) then Err(TagNotUtf8(i))
      else ReadTags(buf, end, i + 1, count, acc + [buf[start..end]])
  }

  /** The trailer starts at `end`; the checksum covers everything before it. */
  function CheckCrc(buf: bytes, end: nat, w: Wire): (r: Result<Wire, EnvelopeError>)
    requires end <= |buf|
    ensures r.Ok? ==> r.value == w
  {
    if end + 4 > |buf| then Err(Truncated(end + 4, |buf|))
    else if U32At(buf, end) != Crc32c.Checksum(buf[..end])
    then Err(CrcMismatch(U32At(buf, end), Crc32c.Checksum(buf[..end])))
    else Ok(w)
  }

  function ReadPayload(buf: bytes, pos: nat, flags: byte, tags: seq<Utf8.Text>): (r: Result<Wire, EnvelopeError>)
    requires pos <= |buf|
    ensures r.Ok? ==> r.value.tags == tags
  {
    if pos + 4 > |buf| then Err(Truncated(pos + 4, |buf|))
    else
      var start := pos + 4;
      var end := start + U32At(buf, pos);
      if end > |buf| then Err(Truncated(end, |buf|))
      else CheckCrc(buf, end, Wire(flags % 2 == 1, flags / 2 % 2 == 1, tags, buf[start..end]))
  }

  function DecodeWire(buf: bytes): (r: Result<Wire, EnvelopeError>)
    ensures r.Ok? ==> forall i :: 0 <= i < |r.value.tags| ==> Utf8.Valid(r.value.tags[i])
  {
    if |buf| < 1 then Err(Truncated(1, |buf|))
    else if buf[0] != BINARY_MAGIC then Err(InvalidMagic(buf[0]))
    else if |buf| < 2 then Err(Truncated(2, |buf|))
    else if buf[1] / 4 != 0 then Err(ReservedFlagsSet(buf[1]))
    else if |buf| < 4 then Err(Truncated(4, |buf|))
    else
      match ReadTags(buf, 4, 0, U16At(buf, 2), [])
      case Err(e) => Err(e)
      case Ok((tags, pos)) => ReadPayload(buf, pos, buf[1], tags)
  }

  function Unpack(libs: Libraries, w: Wire): Result<RecordEnvelope, EnvelopeError>
    requires forall i :: 0 <= i < |w.tags| ==> Utf8.Valid(w.tags[i])
  {
    if !w.zstd then Ok(RecordEnvelope(w.shareable, w.tags, w.stored))
    else
      match libs.decompress(w.stored, ZSTD_MAX_DECOMPRESSED_SIZE)
      case None => Err(ZstdDecompress)
      case Some(p) => Ok(RecordEnvelope(w.shareable, w.tags, p))
  }

  function DecodeBinary(libs: Libraries, buf: bytes): Result<RecordEnvelope, EnvelopeError> {
    match DecodeWire(buf)
    case Err(e) => Err(e)
    case Ok(w) => Unpack(libs, w)
  }

  /** Auto-detection by the first byte. */
  function Decode(libs: Libraries, buf: bytes): Result<RecordEnvelope, EnvelopeError> {
    if buf == [] then Err(Truncated(1, 0))
    else if buf[0] == JSON_MAGIC then
      match libs.fromJson(buf)
      case None => Err(Json)
      case Some(e) => Ok(e)
    else if buf[0] == BINARY_MAGIC then DecodeBinary(libs, buf)
    else Err(InvalidMagic(buf[0]))
  }
}
