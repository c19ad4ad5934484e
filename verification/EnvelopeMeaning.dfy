/**
 What the bytes mean, said without the encoder or the decoder: where every field of a record
 stands, which buffers are envelopes, and how the others are refused.
 */
module EnvelopeMeaning {
  import opened Bytes
  import opened EnvelopeFormat
  import opened EnvelopeLaws
  import opened EnvelopeTheorems
  import Crc32c
  import CrcVectors
  import Utf8

  // ---- layout -----------------------------------------------------------------------------

  /** Two bytes of length and the text, for each tag. */
  function TagsLength(tags: seq<bytes>): nat {
    if tags == [] then 0 else 2 + |tags[0]| + TagsLength(tags[1..])
  }

  lemma {:induction false} TagsLengthIs(tags: seq<bytes>)
    ensures |TagBytes(tags)| == TagsLength(tags)
  {
    if tags != [] {
      TagsLengthIs(tags[1..]);
    }
  }

  /** A little-endian number of two or four bytes. */
  predicate Short(b: bytes, at: nat, n: nat) {
    at + 2 <= |b| && n == Quad(b[at], b[at + 1], 0, 0)
  }

  predicate Long(b: bytes, at: nat, n: nat) {
    at + 4 <= |b| && n == Quad(b[at], b[at + 1], b[at + 2], b[at + 3])
  }

  predicate Stretch(b: bytes, at: nat, part: bytes) { at + |part| <= |b| && b[at..at + |part|] == part }

  /** The fields of a record, each at its place. */
  predicate LaidOut(b: bytes, w: Wire) {
    var length := 4 + TagsLength(w.tags);
    && |b| == length + 4 + |w.stored| + 4
    && b[0] == 0xB0
    && b[1] == (if w.shareable then 1 else 0) + (if w.zstd then 2 else 0)
    && Short(b, 2, |w.tags|)
    && (forall j :: 0 <= j < |w.tags| ==>
          var at := 4 + TagsLength(w.tags[..j]);
          Short(b, at, |w.tags[j]|) && Stretch(b, at + 2, w.tags[j]))
    && Long(b, length, |w.stored|)
    && Stretch(b, length + 4, w.stored)
    && Long(b, |b| - 4, Crc32c.Checksum(b[..|b| - 4]))
  }

  lemma ShortPiece(b: bytes, at: nat, n: nat)
    requires n <= 0xFFFF && At(b, at, LE16(n))
    ensures Short(b, at, n)
  {
    hide LE16, U16;
    U16Piece(b, at, n);
    TwoBytes(b[at..at + 2]);
  }

  lemma LongPiece(b: bytes, at: nat, n: u32)
    requires At(b, at, LE32(n))
    ensures Long(b, at, n)
  {
    hide LE32, U32;
    U32Piece(b, at, n);
    FourBytes(b[at..at + 4]);
  }

  lemma TagLaidOut(b: bytes, tags: seq<bytes>, j: nat)
    requires At(b, 4, TagBytes(tags)) && j < |tags| && |tags[j]| <= 0xFFFF
    ensures var at := 4 + TagsLength(tags[..j]);
            Short(b, at, |tags[j]|) && Stretch(b, at + 2, tags[j])
  {
    hide LE16, TagBytes, TagsLength, Short;
    TagSplit(b, tags, j);
    TagsLengthIs(tags[..j]);
    ShortPiece(b, TextAt(tags, j) - 2, |tags[j]|);
  }

  /** A stored record lies in its bytes field by field, integers little-endian, the checksum last. */
  lemma RecordLaidOut(w: Wire)
    requires BoundedWire(w)
    ensures LaidOut(Encode(w), w)
  {
    hide Crc32c.Checksum, LE16, LE32, TagBytes, At, Head, Encode, Body, TagsLength, Short, Long, Stretch;
    var b := Encode(w);
    EncodePieces(b, w);
    BodyPieces(b, w);
    HeadPiece(b, w);
    EncodedLength(w);
    TagsLengthIs(w.tags);
    ShortPiece(b, 2, |w.tags|);
    LongPiece(b, LengthAt(w), |w.stored|);
    LongPiece(b, |Body(w)|, Crc32c.Checksum(Body(w)));
    PieceFits(b, 0, Body(w));
    StoredLaidOut(b, w);
    forall j | 0 <= j < |w.tags|
      ensures var at := 4 + TagsLength(w.tags[..j]); Short(b, at, |w.tags[j]|) && Stretch(b, at + 2, w.tags[j])
    {
      TagLaidOut(b, w.tags, j);
    }
  }

  lemma StoredLaidOut(b: bytes, w: Wire)
    requires At(b, LengthAt(w) + 4, w.stored)
    ensures Stretch(b, 4 + TagsLength(w.tags) + 4, w.stored)
  {
    TagsLengthIs(w.tags);
  }

  /** A whole record, byte by byte: shareable, without tags, its payload `hi`. */
  lemma KnownRecord()
    ensures EncodeBinary(RecordEnvelope(true, [], [0x68, 0x69])) ==
            [0xB0, 0x01, 0x00, 0x00, 0x02, 0x00, 0x00, 0x00, 0x68, 0x69] + [0x01, 0x4F, 0xBE, 0x21]
  {
    hide Crc32c.Checksum, LE16, LE32;
    var w := Plain(RecordEnvelope(true, [], [0x68, 0x69]));
    SmallNumbers();
    assert Body(w) == CrcVectors.RECORD;
    CrcVectors.KnownRecordChecksum();
  }

  lemma SmallNumbers()
    ensures LE16(0) == [0, 0] && LE32(2) == [2, 0, 0, 0] && LE32(0x21BE_4F01) == [0x01, 0x4F, 0xBE, 0x21]
  {
    hide LE16, LE32, U16, U32;
    FourBytes([2, 0, 0, 0]);
    FourBytes([0x01, 0x4F, 0xBE, 0x21]);
    TwoBytes([0, 0]);
    U16Inverse([0, 0]);
    U32Inverse([2, 0, 0, 0]);
    U32Inverse([0x01, 0x4F, 0xBE, 0x21]);
  }

  // ---- decoding ---------------------------------------------------------------------------

  /** The record `w` holds the envelope `e`, its payload perhaps compressed. */
  predicate Carries(libs: Libraries, w: Wire, e: RecordEnvelope) {
    && BoundedWire(w) && w.shareable == e.shareable && w.tags == e.tags
    && if w.zstd then libs.decompress(w.stored, 0x400_0000) == Some(e.payload) else w.stored == e.payload
  }

  /** What `decode` accepts: JSON text, or a whole binary record and anything after it. */
  lemma DecodeExplained(libs: Libraries, buf: bytes, e: RecordEnvelope)
    ensures Decode(libs, buf) == Ok(e) <==>
            && buf != []
            && (|| (buf[0] == 0x7B && libs.fromJson(buf) == Some(e))
                || (buf[0] == 0xB0 && exists w :: Carries(libs, w, e) && Encode(w) <= buf))
  {
    hide Encode, DecodeWire, AllValid, BoundedWire;
    TagsAreValid(e);
    if buf != [] && buf[0] == 0xB0 {
      if Decode(libs, buf) == Ok(e) {
        CanonicalWire(buf, DecodeWire(buf).value);
      }
      if w :| Carries(libs, w, e) && Encode(w) <= buf {
        CanonicalWire(buf, w);
      }
    }
  }

  /** How everything else is refused, one case for each way to go wrong before the tags. */
  lemma DecodeRefuses(libs: Libraries, buf: bytes)
    ensures buf == [] ==> Decode(libs, buf) == Err(Truncated(1, 0))
    ensures buf != [] && buf[0] != 0x7B && buf[0] != 0xB0 ==> Decode(libs, buf) == Err(InvalidMagic(buf[0]))
    ensures buf != [] && buf[0] != 0xB0 ==> DecodeBinary(libs, buf) == Err(InvalidMagic(buf[0]))
    ensures buf != [] && buf[0] == 0x7B && libs.fromJson(buf).None? ==> Decode(libs, buf) == Err(Json)
    ensures |buf| >= 2 && buf[0] == 0xB0 && buf[1] >= 4 ==> Decode(libs, buf) == Err(ReservedFlagsSet(buf[1]))
  {
  }

  /** A whole record is refused only for its payload: when that does not decompress within 64 MiB. */
  lemma PayloadRefused(libs: Libraries, w: Wire, buf: bytes)
    requires BoundedWire(w) && AllValid(w.tags) && Encode(w) <= buf
    ensures Decode(libs, buf).Err? <==> w.zstd && libs.decompress(w.stored, 0x400_0000).None?
    ensures Decode(libs, buf).Err? ==> Decode(libs, buf) == Err(ZstdDecompress)
  {
    hide Encode, DecodeWire;
    CanonicalWire(buf, w);
    WrittenHead(buf, w);
  }
}
