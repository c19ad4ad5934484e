/** The encoder and the cursor decoder, proved to compute what the format says. */
module EnvelopeCodec {
  import opened Bytes
  import opened EnvelopeFormat
  import Crc32c
  import Utf8

  lemma TagBytesPrefix(tags: seq<bytes>, i: nat)
    requires i < |tags|
    ensures TagBytes(tags[..i + 1]) == TagBytes(tags[..i]) + LE16(AsU16(|tags[i]|)) + tags[i]
  {
    assert tags[..i + 1] == tags[..i] + [tags[i]];
    TagBytesAppend(tags[..i], [tags[i]]);
    assert TagBytes([tags[i]]) == LE16(AsU16(|tags[i]|)) + tags[i] + TagBytes([]);
  }

  method AppendTags(buf: bytes, tags: seq<Utf8.Text>) returns (r: bytes)
    ensures r == buf + TagBytes(tags)
  {
    hide LE16, TagBytes;
    NoTags();
    r := buf;
    for i := 0 to |tags|
      invariant r == buf + TagBytes(tags[..i])
    {
      TagBytesPrefix(tags, i);
      r := r + LE16(AsU16(|tags[i]|));
      r := r + tags[i];
    }
    assert tags[..|tags|] == tags;
  }

  method TagBytesTotal(tags: seq<Utf8.Text>) returns (n: nat)
    ensures n == |TagBytes(tags)|
  {
    hide LE16, TagBytes;
    NoTags();
    n := 0;
    for i := 0 to |tags|
      invariant n == |TagBytes(tags[..i])|
    {
      TagBytesPrefix(tags, i);
      n := n + 2 + |tags[i]|;
    }
    assert tags[..|tags|] == tags;
  }

  /** The encoder behind all binary forms; `total` is the length it computes beforehand. */
  method EncodeBinaryInner(libs: Libraries, e: RecordEnvelope, zstdLevel: Option<int>) returns (buf: bytes, total: nat)
    ensures buf == Encode(Pack(libs, e, zstdLevel))
    ensures |buf| == total
  {
    hide LE16, LE32, Crc32c.Checksum, TagBytes;
    var payload, zstdFlag: byte := e.payload, 0;
    if zstdLevel.Some? {
      var compressed := libs.compress(e.payload, zstdLevel.value);
      if compressed.Some? {
        payload, zstdFlag := compressed.value, 2;
      }
    }
    ghost var w := Pack(libs, e, zstdLevel);
    assert w.stored == payload && w.tags == e.tags;

    var tagBytesTotal := TagBytesTotal(e.tags);
    total := 1 + 1 + 2 + tagBytesTotal + 4 + |payload| + 4;

    buf := [BINARY_MAGIC];
    buf := buf + [(if e.shareable then 1 else 0) + zstdFlag];
    buf := buf + LE16(AsU16(|e.tags|));
    buf := AppendTags(buf, e.tags);
    buf := buf + LE32(AsU32(|payload|));
    buf := buf + payload;
    assert buf == Body(w);
    var crc := Crc32c.Checksum(buf);
    buf := buf + LE32(crc);
  }

  method EncodeSmallest(libs: Libraries, e: RecordEnvelope) returns (buf: bytes)
    ensures buf == EncodeBinarySmallest(libs, e)
  {
    var plain, _ := EncodeBinaryInner(libs, e, None);
    var compressed, _ := EncodeBinaryInner(libs, e, Some(DEFAULT_ZSTD_LEVEL));
    if |compressed| < |plain| {
      buf := compressed;
    } else {
      buf := plain;
    }
  }

  /** Forward-only reader; a failed read reports how many bytes it needed and leaves the position. */
  class Cursor {
    const buf: bytes
    var pos: nat

    ghost predicate Valid()
      reads this
    {
      pos <= |buf|
    }

    constructor (buf: bytes)
      ensures Valid() && this.buf == buf && pos == 0
    {
      this.buf := buf;
      pos := 0;
    }

    method ReadBytes(n: nat) returns (r: Result<bytes, EnvelopeError>)
      requires Valid()
      modifies this
      ensures Valid()
      ensures old(pos) + n > |buf| ==> r == Err(Truncated(old(pos) + n, |buf|)) && pos == old(pos)
      ensures old(pos) + n <= |buf| ==> pos == old(pos) + n && r == Ok(buf[old(pos)..pos])
    {
      if pos + n > |buf| {
        return Err(Truncated(pos + n, |buf|));
      }
      r := Ok(buf[pos..pos + n]);
      pos := pos + n;
    }

    method ReadU8() returns (r: Result<byte, EnvelopeError>)
      requires Valid()
      modifies this
      ensures Valid()
      ensures old(pos) + 1 > |buf| ==> r == Err(Truncated(old(pos) + 1, |buf|)) && pos == old(pos)
      ensures old(pos) + 1 <= |buf| ==> r == Ok(buf[old(pos)]) && pos == old(pos) + 1
    {
      if pos + 1 > |buf| {
        return Err(Truncated(pos + 1, |buf|));
      }
      r := Ok(buf[pos]);
      pos := pos + 1;
    }

    method ReadU16() returns (r: Result<nat, EnvelopeError>)
      requires Valid()
      modifies this
      ensures Valid()
      ensures old(pos) + 2 > |buf| ==> r == Err(Truncated(old(pos) + 2, |buf|)) && pos == old(pos)
      ensures old(pos) + 2 <= |buf| ==> r == Ok(U16At(buf, old(pos))) && pos == old(pos) + 2
    {
      if pos + 2 > |buf| {
        return Err(Truncated(pos + 2, |buf|));
      }
      r := Ok(U16(buf[pos..pos + 2]));
      pos := pos + 2;
    }

    method ReadU32() returns (r: Result<u32, EnvelopeError>)
      requires Valid()
      modifies this
      ensures Valid()
      ensures old(pos) + 4 > |buf| ==> r == Err(Truncated(old(pos) + 4, |buf|)) && pos == old(pos)
      ensures old(pos) + 4 <= |buf| ==> r == Ok(U32At(buf, old(pos))) && pos == old(pos) + 4
    {
      if pos + 4 > |buf| {
        return Err(Truncated(pos + 4, |buf|));
      }
      r := Ok(U32(buf[pos..pos + 4]));
      pos := pos + 4;
    }
  }

  method DecodeTags(cur: Cursor, tagCount: nat) returns (r: Result<seq<Utf8.Text>, EnvelopeError>)
    requires cur.Valid()
    modifies cur
    ensures cur.Valid()
    ensures match ReadTags(cur.buf, old(cur.pos), 0, tagCount, [])
            case Err(e) => r == Err(e)
            case Ok((tags, end)) => r == Ok(tags) && cur.pos == end
  {
    hide U16At, Utf8.Valid;
    var tags: seq<Utf8.Text> := [];
    for i := 0 to tagCount
      invariant cur.Valid() && |tags| == i
      invariant ReadTags(cur.buf, old(cur.pos), 0, tagCount, []) == ReadTags(cur.buf, cur.pos, i, tagCount, tags)
    {
      var len := cur.ReadU16();
      if len.Err? {
        return Err(len.error);
      }
      var text := cur.ReadBytes(len.value);
      if text.Err? {
        return Err(text.error);
      }
      if !Utf8.Valid(text.value) {
        return Err(TagNotUtf8(i));
      }
      tags := tags + [text.value];
    }
    r := Ok(tags);
  }

  method VerifyCrc(cur: Cursor, w: Wire) returns (r: Result<Wire, EnvelopeError>)
    requires cur.Valid()
    modifies cur
    ensures r == CheckCrc(cur.buf, old(cur.pos), w)
  {
    var bodyEnd := cur.pos;
    var storedCrc := cur.ReadU32();
    if storedCrc.Err? {
      return Err(storedCrc.error);
    }
    var computedCrc := Crc32c.Checksum(cur.buf[..bodyEnd]);
    if storedCrc.value != computedCrc {
      return Err(CrcMismatch(storedCrc.value, computedCrc));
    }
    return Ok(w);
  }

  method DecodePayload(cur: Cursor, flags: byte, tags: seq<Utf8.Text>) returns (r: Result<Wire, EnvelopeError>)
    requires cur.Valid()
    modifies cur
    ensures r == ReadPayload(cur.buf, old(cur.pos), flags, tags)
  {
    var payloadLen := cur.ReadU32();
    if payloadLen.Err? {
      return Err(payloadLen.error);
    }
    var stored := cur.ReadBytes(payloadLen.value);
    if stored.Err? {
      return Err(stored.error);
    }
    r := VerifyCrc(cur, Wire(flags % 2 == 1, flags / 2 % 2 == 1, tags, stored.value));
  }

  method DecodeEnvelope(libs: Libraries, buf: bytes) returns (r: Result<RecordEnvelope, EnvelopeError>)
    ensures r == DecodeBinary(libs, buf)
  {
    var cur := new Cursor(buf);
    var magic := cur.ReadU8();
    if magic.Err? {
      return Err(magic.error);
    }
    if magic.value != BINARY_MAGIC {
      return Err(InvalidMagic(magic.value));
    }
    var flags := cur.ReadU8();
    if flags.Err? {
      return Err(flags.error);
    }
    if flags.value / 4 != 0 {
      return Err(ReservedFlagsSet(flags.value));
    }
    var tagCount := cur.ReadU16();
    if tagCount.Err? {
      return Err(tagCount.error);
    }
    var tags := DecodeTags(cur, tagCount.value);
    if tags.Err? {
      return Err(tags.error);
    }
    var w := DecodePayload(cur, flags.value, tags.value);
    if w.Err? {
      return Err(w.error);
    }
    assert DecodeWire(buf) == w;
    var wire := w.value;
    if wire.zstd {
      var p := libs.decompress(wire.stored, ZSTD_MAX_DECOMPRESSED_SIZE);
      if p.None? {
        return Err(ZstdDecompress);
      }
      return Ok(RecordEnvelope(wire.shareable, tags.value, p.value));
    }
    return Ok(RecordEnvelope(wire.shareable, tags.value, wire.stored));
  }
}
