/** What the format promises: canonical form, truncation, corruption, compression. */
module EnvelopeLaws {
  import opened Bytes
  import opened EnvelopeFormat
  import Crc32c
  import Utf8

  predicate AllValid(tags: seq<bytes>) {
    forall t :: t in tags ==> Utf8.Valid(t)
  }

  /** The index of the first tag that is not UTF-8, or `|tags|`. */
  function FirstInvalid(tags: seq<bytes>): (k: nat)
    ensures k <= |tags|
    ensures k < |tags| ==> !Utf8.Valid(tags[k])
    ensures k == |tags| <==> AllValid(tags)
  {
    if tags == [] || !Utf8.Valid(tags[0]) then 0 else
      assert forall t :: t in tags <==> t == tags[0] || t in tags[1..];
      1 + FirstInvalid(tags[1..])
  }

  // ---- pieces of a buffer -----------------------------------------------------------------

  predicate At(buf: bytes, pos: nat, piece: bytes) {
    pos + |piece| <= |buf| && buf[pos..pos + |piece|] == piece
  }

  lemma AtConcat(buf: bytes, pos: nat, a: bytes, b: bytes)
    ensures At(buf, pos, a + b) <==> At(buf, pos, a) && At(buf, pos + |a|, b)
  {
    if pos + |a| + |b| <= |buf| {
      var whole := buf[pos..pos + |a + b|];
      assert whole[..|a|] == buf[pos..pos + |a|];
      assert whole[|a|..] == buf[pos + |a|..pos + |a| + |b|];
      assert (a + b)[..|a|] == a && (a + b)[|a|..] == b;
    }
  }

  lemma Piece(buf: bytes, pos: nat, end: nat)
    requires pos <= end <= |buf|
    ensures At(buf, pos, buf[pos..end])
    ensures forall p: bytes :: At(buf, pos, p) && |p| == end - pos ==> buf[pos..end] == p
  {
  }

  lemma PieceFits(buf: bytes, pos: nat, p: bytes)
    requires At(buf, pos, p)
    ensures pos + |p| <= |buf| && buf[pos..pos + |p|] == p
  {
  }

  lemma U16Piece(buf: bytes, pos: nat, n: nat)
    requires n <= 0xFFFF
    ensures At(buf, pos, LE16(n)) <==> pos + 2 <= |buf| && U16At(buf, pos) == n
  {
    hide LE16, U16;
    LE16Inverse(n);
    if pos + 2 <= |buf| {
      U16Inverse(buf[pos..pos + 2]);
    }
  }

  lemma U32Piece(buf: bytes, pos: nat, n: u32)
    ensures At(buf, pos, LE32(n)) <==> pos + 4 <= |buf| && U32At(buf, pos) == n
  {
    hide LE32, U32;
    LE32Inverse(n);
    if pos + 4 <= |buf| {
      U32Inverse(buf[pos..pos + 4]);
    }
  }

  lemma TagPieces(buf: bytes, pos: nat, tags: seq<bytes>)
    requires tags != [] && |tags[0]| <= 0xFFFF
    ensures |TagBytes(tags)| == 2 + |tags[0]| + |TagBytes(tags[1..])|
    ensures At(buf, pos, TagBytes(tags)) <==>
            && At(buf, pos, LE16(|tags[0]|)) && At(buf, pos + 2, tags[0])
            && At(buf, pos + 2 + |tags[0]|, TagBytes(tags[1..]))
  {
    hide LE16, At;
    AtConcat(buf, pos, LE16(|tags[0]|) + tags[0], TagBytes(tags[1..]));
    AtConcat(buf, pos, LE16(|tags[0]|), tags[0]);
  }

  function Head(w: Wire): bytes { [BINARY_MAGIC, Flags(w)] }

  lemma HeadPiece(buf: bytes, w: Wire)
    ensures At(buf, 0, Head(w)) <==> |buf| >= 2 && buf[0] == BINARY_MAGIC && buf[1] == Flags(w)
    ensures Flags(w) / 4 == 0 && (Flags(w) % 2 == 1 <==> w.shareable) && (Flags(w) / 2 % 2 == 1 <==> w.zstd)
  {
    if |buf| >= 2 {
      assert buf[0..2] == [buf[0], buf[1]];
    }
  }

  /** Where the payload length stands. */
  function LengthAt(w: Wire): nat { 4 + |TagBytes(w.tags)| }

  lemma BodyPieces(buf: bytes, w: Wire)
    requires BoundedWire(w)
    ensures |Body(w)| == LengthAt(w) + 4 + |w.stored|
    ensures At(buf, 0, Body(w)) <==>
            && At(buf, 0, Head(w)) && At(buf, 2, LE16(|w.tags|)) && At(buf, 4, TagBytes(w.tags))
            && At(buf, LengthAt(w), LE32(|w.stored|)) && At(buf, LengthAt(w) + 4, w.stored)
  {
    hide Crc32c.Checksum, LE16, LE32, TagBytes, At;
    var b2 := Head(w) + LE16(|w.tags|);
    var b3 := b2 + TagBytes(w.tags);
    var b4 := b3 + LE32(|w.stored|);
    AtConcat(buf, 0, b4, w.stored);
    AtConcat(buf, 0, b3, LE32(|w.stored|));
    AtConcat(buf, 0, b2, TagBytes(w.tags));
    AtConcat(buf, 0, Head(w), LE16(|w.tags|));
  }

  lemma EncodePieces(buf: bytes, w: Wire)
    ensures Encode(w) <= buf <==>
            At(buf, 0, Body(w)) && At(buf, |Body(w)|, LE32(Crc32c.Checksum(Body(w))))
  {
    hide Crc32c.Checksum;
    AtConcat(buf, 0, Body(w), LE32(Crc32c.Checksum(Body(w))));
  }

  // ---- reading what was written -----------------------------------------------------------

  /** Reading a written tag list gives the list back, or stops at the first tag that is not UTF-8. */
  lemma {:induction false} ReadTagsWritten(buf: bytes, pos: nat, i: nat, tags: seq<bytes>, acc: seq<Utf8.Text>)
    requires pos <= |buf| && At(buf, pos, TagBytes(tags)) && BoundedTags(tags)
    ensures ReadTags(buf, pos, i, i + |tags|, acc) ==
            if AllValid(tags) then Ok((acc + tags, pos + |TagBytes(tags)|)) else Err(TagNotUtf8(i + FirstInvalid(tags)))
    decreases |tags|
  {
    hide LE16, At, TagBytes, U16At, Utf8.Valid;
    if tags == [] {
      NoTags();
      assert acc + [] == acc;
    } else {
      var t, more := tags[0], tags[1..];
      TagPieces(buf, pos, tags);
      U16Piece(buf, pos, |t|);
      PieceFits(buf, pos + 2, t);
      if Utf8.Valid(t) {
        ReadTagsWritten(buf, pos + 2 + |t|, i + 1, more, acc + [t]);
        assert forall x :: x in tags <==> x == t || x in more;
        if AllValid(tags) {
          assert (acc + [t]) + more == acc + tags;
        }
      }
    }
  }

  /** The decoder's answer on any body, whatever its tags hold and whatever follows it. */
  function Answer(buf: bytes, w: Wire): Result<Wire, EnvelopeError>
    requires At(buf, 0, Body(w))
  {
    if !AllValid(w.tags) then Err(TagNotUtf8(FirstInvalid(w.tags)))
    else CheckCrc(buf, |Body(w)|, w)
  }

  lemma DecodeBody(buf: bytes, w: Wire)
    requires BoundedWire(w) && At(buf, 0, Body(w))
    ensures DecodeWire(buf) == Answer(buf, w)
  {
    hide Crc32c.Checksum, At, LE16, LE32, TagBytes, U16At, U32At, CheckCrc, ReadTags, Body, Head, Flags, AllValid;
    BodyPieces(buf, w);
    HeadPiece(buf, w);
    U16Piece(buf, 2, |w.tags|);
    PieceFits(buf, 4, TagBytes(w.tags));
    ReadTagsWritten(buf, 4, 0, w.tags, []);
    U32Piece(buf, LengthAt(w), |w.stored|);
    PieceFits(buf, LengthAt(w) + 4, w.stored);
    if AllValid(w.tags) {
      assert [] + w.tags == w.tags;
      assert ReadTags(buf, 4, 0, U16At(buf, 2), []) == Ok((w.tags, LengthAt(w)));
    }
  }

  // ---- writing what was read --------------------------------------------------------------

  /** Whatever the tag reader accepts is the written form of what it returns. */
  lemma {:induction false} ReadTagsOnlyWritten(buf: bytes, pos: nat, i: nat, count: nat, acc: seq<Utf8.Text>)
    returns (tags: seq<Utf8.Text>)
    requires pos <= |buf| && i <= count
    requires ReadTags(buf, pos, i, count, acc).Ok?
    ensures ReadTags(buf, pos, i, count, acc) == Ok((acc + tags, pos + |TagBytes(tags)|))
    ensures |tags| == count - i && BoundedTags(tags) && At(buf, pos, TagBytes(tags))
    decreases count - i
  {
    hide LE16, TagBytes, U16At, Utf8.Valid, At;
    if i == count {
      tags := [];
      assert acc + tags == acc;
      NoTags();
      Piece(buf, pos, pos);
    } else {
      var n := U16At(buf, pos);
      var t: Utf8.Text := buf[pos + 2..pos + 2 + n];
      var more := ReadTagsOnlyWritten(buf, pos + 2 + n, i + 1, count, acc + [t]);
      tags := [t] + more;
      assert (acc + [t]) + more == acc + tags;
      U16Piece(buf, pos, n);
      Piece(buf, pos + 2, pos + 2 + n);
      TagPieces(buf, pos, tags);
    }
  }

  lemma DecodedIsWritten(buf: bytes, w: Wire)
    requires DecodeWire(buf) == Ok(w)
    ensures BoundedWire(w) && Encode(w) <= buf
  {
    hide Crc32c.Checksum, At, LE16, LE32, TagBytes, U16At, U32At, ReadTags, Body, Head, Flags, AllValid, Encode;
    var count := U16At(buf, 2);
    var tags := ReadTagsOnlyWritten(buf, 4, 0, count, []);
    assert [] + tags == tags;
    var n := U32At(buf, LengthAt(w));
    var end := LengthAt(w) + 4 + n;
    HeadPiece(buf, w);
    FlagsOf(buf[1], w);
    U16Piece(buf, 2, count);
    U32Piece(buf, LengthAt(w), n);
    Piece(buf, LengthAt(w) + 4, end);
    BodyPieces(buf, w);
    PieceFits(buf, 0, Body(w));
    U32Piece(buf, end, Crc32c.Checksum(Body(w)));
    EncodePieces(buf, w);
  }

  lemma FlagsOf(flags: byte, w: Wire)
    requires flags / 4 == 0 && w.shareable == (flags % 2 == 1) && w.zstd == (flags / 2 % 2 == 1)
    ensures Flags(w) == flags
  {
  }

  /** Canonical form of stored records: decoding succeeds exactly on encodings with a tail. */
  lemma CanonicalWire(buf: bytes, w: Wire)
    ensures DecodeWire(buf) == Ok(w) <==> BoundedWire(w) && AllValid(w.tags) && Encode(w) <= buf
  {
    hide Crc32c.Checksum;
    if DecodeWire(buf) == Ok(w) {
      DecodedIsWritten(buf, w);
    }
    if BoundedWire(w) && AllValid(w.tags) && Encode(w) <= buf {
      EncodePieces(buf, w);
      U32Piece(buf, |Body(w)|, Crc32c.Checksum(Body(w)));
      DecodeBody(buf, w);
    }
  }
}
