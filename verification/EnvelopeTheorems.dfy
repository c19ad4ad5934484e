/** The envelope's guarantees, for every envelope and every buffer. */
module EnvelopeTheorems {
  import opened Bytes
  import opened EnvelopeFormat
  import opened EnvelopeLaws
  import Crc32c
  import Utf8

  predicate ZstdFlag(buf: bytes) { |buf| >= 2 && buf[1] / 2 % 2 == 1 }

  lemma WrittenHead(buf: bytes, w: Wire)
    requires BoundedWire(w) && Encode(w) <= buf
    ensures |buf| >= 2 && buf[0] == BINARY_MAGIC && buf[1] == Flags(w) && ZstdFlag(buf) == w.zstd
  {
    EncodePieces(buf, w);
    BodyPieces(buf, w);
    HeadPiece(buf, w);
  }

  lemma TagsAreValid(e: RecordEnvelope)
    ensures AllValid(e.tags)
  {
  }

  /** Decoding an unflagged buffer gives `e` exactly when the buffer is `e`'s encoding and a tail. */
  lemma CanonicalForm(libs: Libraries, buf: bytes, e: RecordEnvelope)
    ensures DecodeBinary(libs, buf) == Ok(e) && !ZstdFlag(buf) <==> Bounded(e) && EncodeBinary(e) <= buf
  {
    hide Encode, DecodeWire, AllValid;
    TagsAreValid(e);
    CanonicalWire(buf, Plain(e));
    if DecodeWire(buf).Ok? {
      CanonicalWire(buf, DecodeWire(buf).value);
      WrittenHead(buf, DecodeWire(buf).value);
    }
  }

  lemma PlainHead(e: RecordEnvelope)
    ensures EncodeBinary(e) != [] && EncodeBinary(e)[0] == BINARY_MAGIC && !ZstdFlag(EncodeBinary(e))
  {
    hide Crc32c.Checksum, LE16, LE32, TagBytes;
    assert EncodeBinary(e)[1] == Flags(Plain(e));
  }

  /** The plain form round-trips through auto-detection exactly on the envelopes no cast cuts. */
  lemma RoundTrip(libs: Libraries, e: RecordEnvelope)
    ensures Decode(libs, EncodeBinary(e)) == Ok(e) <==> Bounded(e)
  {
    hide EncodeBinary, DecodeBinary;
    PlainHead(e);
    CanonicalForm(libs, EncodeBinary(e), e);
  }

  /** The casts do cut: an envelope of 65536 empty tags does not come back. */
  lemma CastCutsTags(libs: Libraries, payload: bytes)
    ensures var e := RecordEnvelope(true, seq(0x1_0000, _ => []), payload);
            Decode(libs, EncodeBinary(e)) != Ok(e)
  {
    RoundTrip(libs, RecordEnvelope(true, seq(0x1_0000, _ => []), payload));
  }

  /** No bounded envelope's encoding begins another's. */
  lemma PrefixFree(libs: Libraries, e: RecordEnvelope, f: RecordEnvelope)
    requires Bounded(e) && Bounded(f) && EncodeBinary(e) <= EncodeBinary(f)
    ensures e == f
  {
    hide EncodeBinary, DecodeBinary;
    CanonicalForm(libs, EncodeBinary(f), e);
    CanonicalForm(libs, EncodeBinary(f), f);
  }

  lemma JsonRoundTrip(libs: Libraries, e: RecordEnvelope)
    requires LawfulJson(libs)
    ensures Decode(libs, libs.toJson(e)) == Ok(e)
    ensures DecodeBinary(libs, libs.toJson(e)) == Err(InvalidMagic(JSON_MAGIC))
  {
    assert libs.fromJson(libs.toJson(e)) == Some(e);
  }

  // ---- truncation -------------------------------------------------------------------------

  lemma SameU16(buf: bytes, m: nat, pos: nat)
    requires pos + 2 <= m <= |buf|
    ensures U16At(buf[..m], pos) == U16At(buf, pos)
  {
    assert buf[..m][pos..pos + 2] == buf[pos..pos + 2];
  }

  lemma SameU32(buf: bytes, m: nat, pos: nat)
    requires pos + 4 <= m <= |buf|
    ensures U32At(buf[..m], pos) == U32At(buf, pos)
  {
    assert buf[..m][pos..pos + 4] == buf[pos..pos + 4];
  }

  predicate CutShort<T>(r: Result<T, EnvelopeError>, m: nat, end: nat) {
    r == Err(Truncated(end, m))
  }

  /** Where the field ends that a cut of the tag list at `m` falls into: a length, or a text. */
  function TagFieldEnd(tags: seq<bytes>, pos: nat, m: nat): (end: nat)
    requires pos <= m < pos + |TagBytes(tags)|
    ensures m < end <= pos + |TagBytes(tags)|
  {
    if m < pos + 2 then pos + 2
    else if m < pos + 2 + |tags[0]| then pos + 2 + |tags[0]|
    else TagFieldEnd(tags[1..], pos + 2 + |tags[0]|, m)
  }

  /** The end of the field that a cut of a record at `m` falls into. */
  function FieldEnd(w: Wire, m: nat): (end: nat)
    requires m < |Encode(w)|
    ensures m < end <= |Encode(w)|
  {
    EncodedLength(w);
    if m < 1 then 1
    else if m < 2 then 2
    else if m < 4 then 4
    else if m < LengthAt(w) then TagFieldEnd(w.tags, 4, m)
    else if m < LengthAt(w) + 4 then LengthAt(w) + 4
    else if m < LengthAt(w) + 4 + |w.stored| then LengthAt(w) + 4 + |w.stored|
    else |Encode(w)|
  }

  /** A cut inside the tag list is reported as such; a cut after it changes nothing. */
  lemma {:induction false} TagsCut(buf: bytes, pos: nat, i: nat, tags: seq<bytes>, acc: seq<Utf8.Text>, m: nat)
    requires pos <= m <= |buf| && At(buf, pos, TagBytes(tags)) && BoundedTags(tags) && AllValid(tags)
    ensures var r := ReadTags(buf[..m], pos, i, i + |tags|, acc);
            if m < pos + |TagBytes(tags)| then CutShort(r, m, TagFieldEnd(tags, pos, m))
            else r == Ok((acc + tags, pos + |TagBytes(tags)|))
    decreases |tags|
  {
    hide U16At, Utf8.Valid, LE16, At;
    if tags == [] {
      assert acc + tags == acc;
    } else if pos + 2 <= m {
      var t, next := tags[0], pos + 2 + |tags[0]|;
      assert t in tags;
      TagPieces(buf, pos, tags);
      U16Piece(buf, pos, |t|);
      PieceFits(buf, pos + 2, t);
      SameU16(buf, m, pos);
      if next <= m {
        assert buf[..m][pos + 2..next] == t;
        TagsCut(buf, next, i + 1, tags[1..], acc + [t], m);
        assert acc + [t] + tags[1..] == acc + tags;
      }
    } else {
      TagPieces(buf, pos, tags);
    }
  }

  lemma WireCut(buf: bytes, w: Wire, m: nat)
    requires BoundedWire(w) && AllValid(w.tags) && Encode(w) <= buf && m < |Encode(w)|
    ensures CutShort(DecodeWire(buf[..m]), m, FieldEnd(w, m))
  {
    hide U16At, U32At, ReadTags, Crc32c.Checksum, TagBytes, LE16, LE32, Encode, Body, At, AllValid, Head, Flags;
    var cut := buf[..m];
    EncodedLength(w);
    EncodePieces(buf, w);
    BodyPieces(buf, w);
    HeadPiece(buf, w);
    if m >= 4 {
      SameU16(buf, m, 2);
      U16Piece(buf, 2, |w.tags|);
      TagsCut(buf, 4, 0, w.tags, [], m);
      assert [] + w.tags == w.tags;
      if m >= LengthAt(w) + 4 {
        SameU32(buf, m, LengthAt(w));
        U32Piece(buf, LengthAt(w), |w.stored|);
      }
    }
  }

  /**
   Every strict prefix of every stored record is reported as truncated, and as nothing else: with
   its own length, and with the end of the field it was cut in.
   */
  lemma Truncation(libs: Libraries, w: Wire, m: nat)
    requires BoundedWire(w) && AllValid(w.tags) && m < |Encode(w)|
    ensures CutShort(Decode(libs, Encode(w)[..m]), m, FieldEnd(w, m))
  {
    hide DecodeWire, Encode, AllValid;
    WireCut(Encode(w), w, m);
    WrittenHead(Encode(w), w);
  }

  /** Claiming a longer payload than is there is always reported as truncated. */
  lemma LengthEnlarged(libs: Libraries, w: Wire, buf: bytes, n: u32)
    requires BoundedWire(w) && AllValid(w.tags) && |w.stored| < n
    requires |buf| == |Encode(w)| && At(buf, LengthAt(w), LE32(n))
    requires LengthAt(w) <= |buf| && buf[..LengthAt(w)] == Encode(w)[..LengthAt(w)]
    ensures CutShort(DecodeBinary(libs, buf), |buf|, LengthAt(w) + n + if n <= |w.stored| + 4 then 8 else 4)
  {
    hide Crc32c.Checksum, LE16, LE32, TagBytes, U16At, U32At, ReadTags, Flags, AllValid, At, Encode, Body;
    EncodePieces(Encode(w), w);
    BodyPieces(Encode(w), w);
    PieceFits(Encode(w), |Body(w)|, LE32(Crc32c.Checksum(Body(w))));
    EncodedLength(w);
    SamePiece(Encode(w), buf, LengthAt(w), 0, Head(w));
    SamePiece(Encode(w), buf, LengthAt(w), 2, LE16(|w.tags|));
    SamePiece(Encode(w), buf, LengthAt(w), 4, TagBytes(w.tags));
    HeadPiece(buf, w);
    U16Piece(buf, 2, |w.tags|);
    ReadTagsWritten(buf, 4, 0, w.tags, []);
    U32Piece(buf, LengthAt(w), n);
    assert [] + w.tags == w.tags;
  }

  lemma EncodedLength(w: Wire)
    ensures |Body(w)| == LengthAt(w) + 4 + |w.stored|
    ensures |Encode(w)| == |Body(w)| + 4 == 12 + |TagBytes(w.tags)| + |w.stored|
  {
    hide TagBytes, Crc32c.Checksum;
  }

  lemma SamePiece(a: bytes, b: bytes, m: nat, pos: nat, piece: bytes)
    requires m <= |a| && m <= |b| && a[..m] == b[..m] && pos + |piece| <= m && At(a, pos, piece)
    ensures At(b, pos, piece)
  {
    assert a[pos..pos + |piece|] == a[..m][pos..pos + |piece|];
    assert b[pos..pos + |piece|] == b[..m][pos..pos + |piece|];
  }

  // ---- corruption -------------------------------------------------------------------------

  /** `b` differs from `a`, but only inside `[from, from + k)`. */
  predicate Burst(a: bytes, b: bytes, from: nat, k: nat) {
    && |a| == |b| && a != b && k <= 4 && from + k <= |a|
    && a[..from] == b[..from] && a[from + k..] == b[from + k..]
  }

  lemma BurstChangesChecksum(a: bytes, b: bytes, from: nat, k: nat)
    requires Burst(a, b, from, k)
    ensures Crc32c.Checksum(a) != Crc32c.Checksum(b)
  {
    hide Crc32c.Checksum;
    var u, v := a[from..from + k], b[from..from + k];
    assert a == a[..from] + u + a[from + k..];
    assert b == b[..from] + v + b[from + k..];
    if Crc32c.Checksum(a) == Crc32c.Checksum(b) {
      Crc32c.BurstDetected(a[..from], u, v, a[from + k..]);
    }
  }

  /** A burst in the body of a record leaves the stored checksum, and no other can match it. */
  lemma BurstInBody(w: Wire, w': Wire, buf: bytes, from: nat, k: nat)
    requires BoundedWire(w') && |Body(w')| == |Body(w)| && At(buf, 0, Body(w'))
    requires Burst(Encode(w), buf, from, k) && from + k <= |Body(w)|
    ensures DecodeWire(buf) ==
            if AllValid(w'.tags) then Err(CrcMismatch(Crc32c.Checksum(Body(w)), Crc32c.Checksum(Body(w'))))
            else Err(TagNotUtf8(FirstInvalid(w'.tags)))
  {
    hide Crc32c.Checksum, LE32, Body, AllValid, U32At, DecodeWire;
    var a, n := Encode(w), |Body(w)|;
    assert buf[0..n] == Body(w');
    assert a[..n] == Body(w);
    assert a[n..] == a[from + k..][n - from - k..] == buf[from + k..][n - from - k..] == buf[n..];
    assert a[..n][..from] == buf[..n][..from] by {
      assert a[..n][..from] == a[..from] && buf[..n][..from] == buf[..from];
    }
    assert a[..n][from + k..] == buf[..n][from + k..] by {
      assert a[..n][from + k..] == a[from + k..][..n - from - k];
      assert buf[..n][from + k..] == buf[from + k..][..n - from - k];
    }
    assert a == a[..n] + a[n..] && buf == buf[..n] + buf[n..];
    BurstChangesChecksum(a[..n], buf[..n], from, k);
    U32Piece(a, n, Crc32c.Checksum(Body(w)));
    U32Piece(buf, n, Crc32c.Checksum(Body(w)));
    assert buf[n..n + 4] == buf[n..][..4] && a[n..n + 4] == a[n..][..4];
    DecodeBody(buf, w');
  }

  /** Up to four consecutive payload bytes changed: always reported as a checksum mismatch. */
  lemma PayloadBurst(libs: Libraries, w: Wire, buf: bytes, from: nat, k: nat)
    requires BoundedWire(w) && AllValid(w.tags)
    requires Burst(Encode(w), buf, from, k) && LengthAt(w) + 4 <= from && from + k <= |Body(w)|
    ensures DecodeBinary(libs, buf) ==
            Err(CrcMismatch(Crc32c.Checksum(Body(w)), Crc32c.Checksum(buf[..|Body(w)|])))
  {
    hide Crc32c.Checksum, LE16, LE32, TagBytes, Head, AllValid, DecodeWire, At, Burst, Encode, Body, FirstInvalid;
    EncodedLength(w);
    var n, start := |Body(w)|, LengthAt(w) + 4;
    BurstWithin(Encode(w), buf, from, k, start, n);
    var w' := w.(stored := buf[start..n]);
    EncodePieces(Encode(w), w);
    BodyPieces(Encode(w), w);
    HeadIsTwo(w);
    SamePiece(Encode(w), buf, start, 0, Head(w));
    SamePiece(Encode(w), buf, start, 2, LE16(|w.tags|));
    SamePiece(Encode(w), buf, start, 4, TagBytes(w.tags));
    SamePiece(Encode(w), buf, start, LengthAt(w), LE32(|w.stored|));
    Piece(buf, start, n);
    assert Head(w') == Head(w) by { assert Flags(w') == Flags(w); SameHead(w, w'); }
    BodyPieces(buf, w');
    EncodedLength(w');
    PieceFits(buf, 0, Body(w'));
    BurstInBody(w, w', buf, from, k);
  }

  lemma HeadIsTwo(w: Wire)
    ensures |Head(w)| == 2
  {
  }

  lemma SameHead(w: Wire, w': Wire)
    requires Flags(w) == Flags(w')
    ensures Head(w) == Head(w')
  {
  }

  /** Where the text of tag `j` starts. */
  function TextAt(tags: seq<bytes>, j: nat): nat
    requires j < |tags|
  {
    4 + |TagBytes(tags[..j])| + 2
  }

  lemma TagSplit(buf: bytes, tags: seq<bytes>, j: nat)
    requires j < |tags| && |tags[j]| <= 0xFFFF
    ensures TextAt(tags, j) + |tags[j]| + |TagBytes(tags[j + 1..])| == 4 + |TagBytes(tags)|
    ensures At(buf, 4, TagBytes(tags)) <==>
            && At(buf, 4, TagBytes(tags[..j])) && At(buf, TextAt(tags, j) - 2, LE16(|tags[j]|))
            && At(buf, TextAt(tags, j), tags[j]) && At(buf, TextAt(tags, j) + |tags[j]|, TagBytes(tags[j + 1..]))
  {
    hide At, LE16, TagBytes;
    assert tags == tags[..j] + tags[j..];
    assert tags[j..][0] == tags[j] && tags[j..][1..] == tags[j + 1..];
    TagBytesAppend(tags[..j], tags[j..]);
    AtConcat(buf, 4, TagBytes(tags[..j]), TagBytes(tags[j..]));
    TagPieces(buf, 4 + |TagBytes(tags[..j])|, tags[j..]);
  }

  lemma SameSuffixPiece(a: bytes, b: bytes, m: nat, pos: nat, piece: bytes)
    requires |a| == |b| && m <= |a| && a[m..] == b[m..] && m <= pos && At(a, pos, piece)
    ensures At(b, pos, piece)
  {
    forall q | pos <= q < pos + |piece|
      ensures a[q] == b[q]
    {
      assert a[m..][q - m] == b[m..][q - m];
    }
  }

  /** One tag's text replaced by as many bytes: the rest of the body stands where it stood. */
  lemma TagReplaced(w: Wire, buf: bytes, j: nat, t: bytes)
    requires BoundedWire(w) && j < |w.tags| && |t| == |w.tags[j]|
    requires |buf| == |Encode(w)| && TextAt(w.tags, j) + |t| <= |buf|
    requires buf[..TextAt(w.tags, j)] == Encode(w)[..TextAt(w.tags, j)]
    requires At(buf, TextAt(w.tags, j), t)
    requires buf[TextAt(w.tags, j) + |t|..] == Encode(w)[TextAt(w.tags, j) + |t|..]
    ensures var w' := w.(tags := w.tags[j := t]);
            BoundedWire(w') && |Body(w')| == |Body(w)| && At(buf, 0, Body(w'))
  {
    hide Crc32c.Checksum, LE16, LE32, TagBytes, At, Head, Encode, Body;
    var tags' := w.tags[j := t];
    var w' := w.(tags := tags');
    var text := TextAt(w.tags, j);
    var end := text + |t|;
    EncodePieces(Encode(w), w);
    BodyPieces(Encode(w), w);
    TagSplit(Encode(w), w.tags, j);
    HeadIsTwo(w);
    SamePiece(Encode(w), buf, text, 0, Head(w));
    SamePiece(Encode(w), buf, text, 2, LE16(|w.tags|));
    SamePiece(Encode(w), buf, text, 4, TagBytes(w.tags[..j]));
    SamePiece(Encode(w), buf, text, text - 2, LE16(|t|));
    SameSuffixPiece(Encode(w), buf, end, end, TagBytes(w.tags[j + 1..]));
    SameSuffixPiece(Encode(w), buf, end, LengthAt(w), LE32(|w.stored|));
    SameSuffixPiece(Encode(w), buf, end, LengthAt(w) + 4, w.stored);
    assert tags'[..j] == w.tags[..j] && tags'[j + 1..] == w.tags[j + 1..];
    TagSplit(buf, tags', j);
    assert Flags(w') == Flags(w);
    SameHead(w, w');
    BodyPieces(buf, w');
  }

  lemma BurstWithin(a: bytes, b: bytes, from: nat, k: nat, start: nat, end: nat)
    requires Burst(a, b, from, k) && start <= from && from + k <= end && (end <= |a| || end <= |b|)
    ensures |a| == |b| && a[..start] == b[..start] && a[end..] == b[end..]
  {
    assert a[..start] == a[..from][..start] && b[..start] == b[..from][..start];
    assert a[end..] == a[from + k..][end - from - k..];
    assert b[end..] == b[from + k..][end - from - k..];
  }

  /** Up to four consecutive bytes of one tag's text changed: not UTF-8 any more, or a mismatch. */
  lemma TagBurst(libs: Libraries, w: Wire, buf: bytes, j: nat, from: nat, k: nat)
    requires BoundedWire(w) && AllValid(w.tags) && j < |w.tags|
    requires Burst(Encode(w), buf, from, k)
    requires TextAt(w.tags, j) <= from && from + k <= TextAt(w.tags, j) + |w.tags[j]| <= |buf|
    ensures DecodeBinary(libs, buf) ==
            if Utf8.Valid(buf[TextAt(w.tags, j)..TextAt(w.tags, j) + |w.tags[j]|])
            then Err(CrcMismatch(Crc32c.Checksum(Body(w)), Crc32c.Checksum(buf[..|Body(w)|])))
            else Err(TagNotUtf8(j))
  {
    hide Crc32c.Checksum, LE16, LE32, TagBytes, At, Head, Encode, Body, DecodeWire, Utf8.Valid,
      AllValid, FirstInvalid, Burst;
    var text, end := TextAt(w.tags, j), TextAt(w.tags, j) + |w.tags[j]|;
    var t := buf[text..end];
    var w' := w.(tags := w.tags[j := t]);
    BurstWithin(Encode(w), buf, from, k, text, end);
    Piece(buf, text, end);
    TagReplaced(w, buf, j, t);
    EncodedLength(w);
    TagSplit(buf, w.tags, j);
    PieceFits(buf, 0, Body(w'));
    BurstInBody(w, w', buf, from, k);
    OnlyInvalid(w.tags, j, t);
  }

  lemma {:induction false} OnlyInvalid(tags: seq<bytes>, j: nat, t: bytes)
    requires AllValid(tags) && j < |tags|
    ensures AllValid(tags[j := t]) <==> Utf8.Valid(t)
    ensures !Utf8.Valid(t) ==> FirstInvalid(tags[j := t]) == j
  {
    hide Utf8.Valid;
    var after := tags[j := t];
    assert after[j] == t;
    if Utf8.Valid(t) {
      forall x | x in after
        ensures Utf8.Valid(x)
      {
        var i :| 0 <= i < |after| && after[i] == x;
        assert i != j ==> x in tags;
      }
    } else {
      forall i | 0 <= i < j
        ensures Utf8.Valid(after[i])
      {
        assert after[i] == tags[i] && tags[i] in tags;
      }
      FirstInvalidIs(after, j);
      assert t in after;
    }
  }

  lemma {:induction false} FirstInvalidIs(tags: seq<bytes>, j: nat)
    requires j < |tags| && !Utf8.Valid(tags[j])
    requires forall i :: 0 <= i < j ==> Utf8.Valid(tags[i])
    ensures FirstInvalid(tags) == j
  {
    hide Utf8.Valid;
    if j > 0 {
      assert Utf8.Valid(tags[0]);
      FirstInvalidIs(tags[1..], j - 1);
    }
  }

  /** A changed flags byte never goes through: `shareable` cannot be turned on by corruption. */
  lemma FlagsCorrupted(libs: Libraries, w: Wire, flags: byte)
    requires BoundedWire(w) && AllValid(w.tags) && flags != Flags(w) && 4 <= |Encode(w)|
    ensures DecodeBinary(libs, Encode(w)[1 := flags]) ==
            if flags / 4 != 0 then Err(ReservedFlagsSet(flags))
            else Err(CrcMismatch(Crc32c.Checksum(Body(w)), Crc32c.Checksum(Body(w)[1 := flags])))
  {
    hide Crc32c.Checksum, LE16, LE32, TagBytes, At, Encode, Body, AllValid;
    var buf := Encode(w)[1 := flags];
    EncodedLength(w);
    WrittenHead(Encode(w), w);
    if flags / 4 == 0 {
      hide DecodeWire;
      var w' := w.(shareable := flags % 2 == 1, zstd := flags / 2 % 2 == 1);
      FlagsOf(flags, w');
      EncodePieces(Encode(w), w);
      BodyPieces(Encode(w), w);
      assert Encode(w)[2..] == buf[2..];
      SameSuffixPiece(Encode(w), buf, 2, 2, LE16(|w.tags|));
      SameSuffixPiece(Encode(w), buf, 2, 4, TagBytes(w.tags));
      SameSuffixPiece(Encode(w), buf, 2, LengthAt(w), LE32(|w.stored|));
      SameSuffixPiece(Encode(w), buf, 2, LengthAt(w) + 4, w.stored);
      HeadPiece(buf, w');
      BodyPieces(buf, w');
      PieceFits(buf, 0, Body(w'));
      PieceFits(Encode(w), 0, Body(w));
      assert Body(w') == Body(w)[1 := flags];
      assert buf[1] != Encode(w)[1];
      assert Burst(Encode(w), buf, 1, 1);
      BurstInBody(w, w', buf, 1, 1);
    }
  }

  /** A changed trailer is a mismatch. */
  lemma TrailerCorrupted(libs: Libraries, w: Wire, crc: u32)
    requires BoundedWire(w) && AllValid(w.tags) && crc != Crc32c.Checksum(Body(w))
    ensures DecodeBinary(libs, Body(w) + LE32(crc)) == Err(CrcMismatch(crc, Crc32c.Checksum(Body(w))))
  {
    hide Crc32c.Checksum, LE32, Body, AllValid, DecodeWire, U32At;
    var buf := Body(w) + LE32(crc);
    assert buf[0..|Body(w)|] == Body(w) && buf[|Body(w)|..|Body(w)| + 4] == LE32(crc);
    U32Piece(buf, |Body(w)|, crc);
    DecodeBody(buf, w);
  }

  // ---- compression ------------------------------------------------------------------------

  lemma DecodeWritten(libs: Libraries, w: Wire)
    requires BoundedWire(w) && AllValid(w.tags)
    ensures Decode(libs, Encode(w)) == Unpack(libs, w)
  {
    hide Encode, DecodeWire, Unpack;
    CanonicalWire(Encode(w), w);
    WrittenHead(Encode(w), w);
  }

  /** A compressed record decodes to its envelope exactly when the payload is within the 64 MiB cap. */
  lemma ZstdRoundTrip(libs: Libraries, e: RecordEnvelope, level: int)
    requires LawfulZstd(libs) && BoundedWire(Pack(libs, e, Some(level)))
    ensures Decode(libs, EncodeBinaryZstd(libs, e, level)) == Ok(e) <==>
            libs.compress(e.payload, level).None? || |e.payload| <= 0x400_0000
  {
    hide Encode, Decode;
    TagsAreValid(e);
    DecodeWritten(libs, Pack(libs, e, Some(level)));
  }

  /** The smaller of the two stored payloads decides the length; the rest is the same in both. */
  lemma SmallestLength(libs: Libraries, e: RecordEnvelope)
    ensures var stored := |Pack(libs, e, Some(3)).stored|;
            |EncodeBinarySmallest(libs, e)| ==
            12 + |TagBytes(e.tags)| + if stored < |e.payload| then stored else |e.payload|
  {
    hide Encode, TagBytes;
    EncodedLength(Plain(e));
    EncodedLength(Pack(libs, e, Some(DEFAULT_ZSTD_LEVEL)));
  }

  /**
   The documented "safe default" decodes back exactly when the payload is within the decoder's
   64 MiB cap or compressing it does not pay: above the cap, a compressible payload is written in a
   form the decoder refuses.
   */
  lemma SmallestRoundTrip(libs: Libraries, e: RecordEnvelope)
    requires LawfulZstd(libs) && Bounded(e)
    ensures Decode(libs, EncodeBinarySmallest(libs, e)) == Ok(e) <==>
            || |e.payload| <= 0x400_0000
            || |EncodeBinary(e)| <= |EncodeBinaryZstd(libs, e, 3)|
  {
    hide Encode, Decode, TagBytes;
    TagsAreValid(e);
    var w := Pack(libs, e, Some(DEFAULT_ZSTD_LEVEL));
    EncodedLength(Plain(e));
    EncodedLength(w);
    DecodeWritten(libs, Plain(e));
    if |Encode(w)| < |Encode(Plain(e))| {
      DecodeWritten(libs, w);
    }
  }

  function Zeros(n: nat): (r: bytes)
    ensures |r| == n && forall i :: 0 <= i < n ==> r[i] == 0
  {
    seq(n, _ => 0)
  }

  function CompressZeros(p: bytes): Option<bytes> {
    if |p| < 0x1_0000_0000 && p == Zeros(|p|) then Some(LE32(|p|)) else None
  }

  function DecompressZeros(c: bytes, cap: nat): Option<bytes> {
    if |c| == 4 && U32At(c, 0) <= cap then Some(Zeros(U32At(c, 0))) else None
  }

  /** A lawful compressor and a bounded envelope that the smallest form loses. */
  lemma SmallestLosesLargePayload() returns (libs: Libraries, e: RecordEnvelope)
    ensures LawfulZstd(libs) && Bounded(e)
    ensures Decode(libs, EncodeBinarySmallest(libs, e)) == Err(ZstdDecompress)
  {
    hide Encode, Decode, TagBytes, LE32, U32At, Zeros;
    libs := Libraries((p, _) => CompressZeros(p), DecompressZeros, _ => [], _ => None);
    forall p: bytes, level: int, cap: nat | libs.compress(p, level).Some?
      ensures libs.decompress(libs.compress(p, level).value, cap) == if |p| <= cap then Some(p) else None
    {
      var c := LE32(|p|);
      U32Piece(c, 0, |p|);
      assert c[0..4] == c;
      assert At(c, 0, c);
    }
    e := RecordEnvelope(true, [], Zeros(ZSTD_MAX_DECOMPRESSED_SIZE + 1));
    TagsAreValid(e);
    var w := Pack(libs, e, Some(DEFAULT_ZSTD_LEVEL));
    EncodedLength(Plain(e));
    EncodedLength(w);
    DecodeWritten(libs, w);
    assert libs.compress(e.payload, DEFAULT_ZSTD_LEVEL).Some?;
    assert libs.decompress(w.stored, ZSTD_MAX_DECOMPRESSED_SIZE) == None;
  }
}
