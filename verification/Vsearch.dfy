/** Request arguments and the VSEARCH reply: vectors, envelope keys, and `(id, score)` pairs. */
module Vsearch {
  import opened Bytes
  import opened Resp3
  import Decimal

  /** `hansa:rec:` */
  const KEY_PREFIX: bytes := [104, 97, 110, 115, 97, 58, 114, 101, 99, 58]

  function KeyFor(id: u64): bytes { KEY_PREFIX + Decimal.Print(id) }

  lemma KeysDiffer(a: u64, b: u64)
    ensures KeyFor(a) == KeyFor(b) ==> a == b
  {
    if KeyFor(a) == KeyFor(b) {
      assert KeyFor(a)[|KEY_PREFIX|..] == Decimal.Print(a) && KeyFor(b)[|KEY_PREFIX|..] == Decimal.Print(b);
      Decimal.PrintInjective(a, b);
    }
  }

  /** Vector components are 32-bit patterns here. */
  function VectorBytes(v: seq<u32>): (r: bytes)
    ensures |r| == 4 * |v|
  {
    if v == [] then [] else LE32(v[0]) + VectorBytes(v[1..])
  }

  lemma {:induction false} VectorBytesSnoc(v: seq<u32>, x: u32)
    ensures VectorBytes(v + [x]) == VectorBytes(v) + LE32(x)
  {
    hide LE32;
    if v == [] {
      assert VectorBytes([x]) == LE32(x) + VectorBytes([]);
    } else {
      assert (v + [x])[1..] == v[1..] + [x];
      VectorBytesSnoc(v[1..], x);
    }
  }

  method EncodeVector(v: seq<u32>) returns (out: bytes)
    ensures out == VectorBytes(v)
  {
    hide LE32;
    out := [];
    for i := 0 to |v|
      invariant out == VectorBytes(v[..i])
    {
      VectorBytesSnoc(v[..i], v[i]);
      assert v[..i + 1] == v[..i] + [v[i]];
      out := out + LE32(v[i]);
    }
    assert v[..|v|] == v;
  }

  lemma {:induction false} VectorBytesInjective(v: seq<u32>, w: seq<u32>)
    requires VectorBytes(v) == VectorBytes(w)
    ensures v == w
  {
    if v != [] {
      assert VectorBytes(v)[..4] == LE32(v[0]) && VectorBytes(v)[4..] == VectorBytes(v[1..]);
      assert VectorBytes(w)[..4] == LE32(w[0]) && VectorBytes(w)[4..] == VectorBytes(w[1..]);
      LE32Inverse(v[0]);
      LE32Inverse(w[0]);
      VectorBytesInjective(v[1..], w[1..]);
    }
  }

  /** Floating-point conversions, on bit patterns: `f64 as f32`, and `str::parse::<f32>`. */
  datatype Floats = Floats(narrow: u64 -> u32, parse: bytes -> Option<u32>)

  datatype Candidate = Candidate(id: u64, score: u32)

  function ParseId(frame: Frame): Result<u64, NetError> {
    match frame
    case Bulk(b) =>
      var n := Decimal.Parse(b, U64_LIMIT);
      if n.Some? then Ok(n.value) else Err(Protocol)
    case Integer(i) => Ok(i % U64_LIMIT)
    case _ => Err(Protocol)
  }

  function ParseScore(fl: Floats, frame: Frame): Result<u32, NetError> {
    match frame
    case Double(bits) => Ok(fl.narrow(bits))
    case Bulk(b) =>
      var x := fl.parse(b);
      if x.Some? then Ok(x.value) else Err(Protocol)
    case _ => Err(Protocol)
  }

  function ParsePairs(fl: Floats, items: seq<Frame>, acc: seq<Candidate>): Result<seq<Candidate>, NetError>
    requires |items| % 2 == 0
    decreases |items|
  {
    if items == [] then Ok(acc) else
      match ParseId(items[0])
      case Err(e) => Err(e)
      case Ok(id) =>
        match ParseScore(fl, items[1])
        case Err(e) => Err(e)
        case Ok(score) => ParsePairs(fl, items[2..], acc + [Candidate(id, score)])
  }

  function ParseReply(fl: Floats, reply: Frame): Result<seq<Candidate>, NetError> {
    match reply
    case Array(items) => if |items| % 2 != 0 then Err(Protocol) else ParsePairs(fl, items, [])
    case _ => Err(Protocol)
  }

  method ParseVsearch(fl: Floats, reply: Frame) returns (r: Result<seq<Candidate>, NetError>)
    ensures r == ParseReply(fl, reply)
  {
    hide ParseId, ParseScore;
    if !reply.Array? {
      return Err(Protocol);
    }
    var items := reply.items;
    if |items| % 2 != 0 {
      return Err(Protocol);
    }
    var candidates: seq<Candidate> := [];
    while items != []
      invariant |items| % 2 == 0
      invariant ParsePairs(fl, items, candidates) == ParseReply(fl, reply)
      decreases |items|
    {
      var id := ParseId(items[0]);
      if id.Err? {
        return Err(id.error);
      }
      var score := ParseScore(fl, items[1]);
      if score.Err? {
        return Err(score.error);
      }
      candidates := candidates + [Candidate(id.value, score.value)];
      items := items[2..];
    }
    return Ok(candidates);
  }

  /** A score as a server may send it: a double, or text. */
  datatype Score = Binary(bits: u64) | InText(text: bytes)

  /** One pair: the id as decimal text or as a signed 64-bit integer, then the score. */
  datatype Pair = Pair(id: u64, asInteger: bool, score: Score)

  function PrintId(p: Pair): Frame {
    if !p.asInteger then Bulk(Decimal.Print(p.id))
    else if p.id < 0x8000_0000_0000_0000 then Integer(p.id) else Integer(p.id - U64_LIMIT)
  }

  function PrintScore(score: Score): Frame {
    match score case Binary(bits) => Double(bits) case InText(text) => Bulk(text)
  }

  function PrintPairs(pairs: seq<Pair>): (r: seq<Frame>)
    ensures |r| == 2 * |pairs|
  {
    if pairs == [] then [] else [PrintId(pairs[0]), PrintScore(pairs[0].score)] + PrintPairs(pairs[1..])
  }

  function Meant(fl: Floats, score: Score): Option<u32> {
    match score case Binary(bits) => Some(fl.narrow(bits)) case InText(text) => fl.parse(text)
  }

  /** Every score sent as text is a number. */
  predicate Readable(fl: Floats, pairs: seq<Pair>) {
    forall i :: 0 <= i < |pairs| ==> Meant(fl, pairs[i].score).Some?
  }

  function Candidates(fl: Floats, pairs: seq<Pair>): (r: seq<Candidate>)
    requires Readable(fl, pairs)
    ensures |r| == |pairs|
    ensures forall i :: 0 <= i < |r| ==> r[i] == Candidate(pairs[i].id, Meant(fl, pairs[i].score).value)
  {
    seq(|pairs|, i requires 0 <= i < |pairs| => Candidate(pairs[i].id, Meant(fl, pairs[i].score).value))
  }

  lemma ParsePrintedId(p: Pair)
    ensures ParseId(PrintId(p)) == Ok(p.id)
  {
    Decimal.ParsePrinted(p.id, U64_LIMIT);
  }

  lemma ParsePrintedScore(fl: Floats, score: Score)
    ensures ParseScore(fl, PrintScore(score)) ==
            if Meant(fl, score).Some? then Ok(Meant(fl, score).value) else Err(Protocol)
  {
  }

  lemma {:induction false} PairsRestored(fl: Floats, pairs: seq<Pair>, acc: seq<Candidate>)
    ensures ParsePairs(fl, PrintPairs(pairs), acc) ==
            if Readable(fl, pairs) then Ok(acc + Candidates(fl, pairs)) else Err(Protocol)
    decreases |pairs|
  {
    hide ParseId, ParseScore, PrintId, PrintScore, Meant;
    if pairs == [] {
      assert acc + Candidates(fl, pairs) == acc;
    } else {
      var items := PrintPairs(pairs);
      ParsePrintedId(pairs[0]);
      ParsePrintedScore(fl, pairs[0].score);
      assert items[2..] == PrintPairs(pairs[1..]);
      assert Readable(fl, pairs) <==> Meant(fl, pairs[0].score).Some? && Readable(fl, pairs[1..]) by {
        assert forall i :: 1 <= i < |pairs| ==> pairs[i] == pairs[1..][i - 1];
      }
      if Meant(fl, pairs[0].score).Some? {
        var c := Candidate(pairs[0].id, Meant(fl, pairs[0].score).value);
        PairsRestored(fl, pairs[1..], acc + [c]);
        if Readable(fl, pairs) {
          assert acc + [c] + Candidates(fl, pairs[1..]) == acc + Candidates(fl, pairs);
        }
      }
    }
  }

  /**
   Parsing inverts printing: every id and score comes back, in order, whichever form each was sent
   in, unless a score sent as text is no number; then the whole reply is refused.
   */
  lemma ReplyRestored(fl: Floats, pairs: seq<Pair>)
    ensures ParseReply(fl, Array(PrintPairs(pairs))) ==
            if Readable(fl, pairs) then Ok(Candidates(fl, pairs)) else Err(Protocol)
  {
    PairsRestored(fl, pairs, []);
    if Readable(fl, pairs) {
      assert [] + Candidates(fl, pairs) == Candidates(fl, pairs);
    }
  }

  // ---- what a reply means -----------------------------------------------------------------

  /** `s` is digits for `id`, perhaps after a plus sign, or a 64-bit integer of the same bits. */
  ghost predicate MeansId(frame: Frame, id: u64) {
    match frame
    case Bulk(b) =>
      exists digits: Text :: digits != [] && Decimal.AllDigits(digits) && (b == digits || b == [43] + digits)
                             && Decimal.Value(digits) == id
    case Integer(i) => (i - id) % 0x1_0000_0000_0000_0000 == 0
    case _ => false
  }

  predicate MeansScore(fl: Floats, frame: Frame, score: u32) {
    match frame
    case Double(bits) => fl.narrow(bits) == score
    case Bulk(b) => fl.parse(b) == Some(score)
    case _ => false
  }

  /** The candidates an array of alternating ids and scores stands for, in order. */
  ghost predicate Means(fl: Floats, items: seq<Frame>, cs: seq<Candidate>) {
    && |items| == 2 * |cs|
    && forall i :: 0 <= i < |cs| ==> MeansId(items[2 * i], cs[i].id) && MeansScore(fl, items[2 * i + 1], cs[i].score)
  }

  lemma IdMeans(frame: Frame, id: u64)
    ensures ParseId(frame) == Ok(id) <==> MeansId(frame, id)
    ensures ParseId(frame).Err? ==> ParseId(frame) == Err(Protocol)
  {
    match frame {
      case Bulk(b) => Decimal.ParsesExactly(b, U64_LIMIT, id);
      case _ =>
    }
  }

  lemma ScoreMeans(fl: Floats, frame: Frame, score: u32)
    ensures ParseScore(fl, frame) == Ok(score) <==> MeansScore(fl, frame, score)
    ensures ParseScore(fl, frame).Err? ==> ParseScore(fl, frame) == Err(Protocol)
  {
  }

  lemma MeansTail(fl: Floats, items: seq<Frame>, cs: seq<Candidate>)
    requires |items| >= 2 && cs != []
    ensures Means(fl, items, cs) <==>
            MeansId(items[0], cs[0].id) && MeansScore(fl, items[1], cs[0].score) && Means(fl, items[2..], cs[1..])
  {
    hide MeansId, MeansScore;
    if Means(fl, items, cs) {
      forall i | 0 <= i < |cs[1..]|
        ensures MeansId(items[2..][2 * i], cs[1..][i].id) && MeansScore(fl, items[2..][2 * i + 1], cs[1..][i].score)
      {
        assert items[2..][2 * i] == items[2 * (i + 1)] && cs[1..][i] == cs[i + 1];
      }
      assert items[2 * 0] == items[0];
    }
    if MeansId(items[0], cs[0].id) && MeansScore(fl, items[1], cs[0].score) && Means(fl, items[2..], cs[1..]) {
      forall i | 0 <= i < |cs|
        ensures MeansId(items[2 * i], cs[i].id) && MeansScore(fl, items[2 * i + 1], cs[i].score)
      {
        if i > 0 {
          assert items[2..][2 * (i - 1)] == items[2 * i] && cs[1..][i - 1] == cs[i];
          assert items[2..][2 * (i - 1) + 1] == items[2 * i + 1];
        }
      }
    }
  }

  lemma {:induction false} PairsMean(fl: Floats, items: seq<Frame>, acc: seq<Candidate>, cs: seq<Candidate>)
    requires |items| % 2 == 0
    ensures ParsePairs(fl, items, acc) == Ok(acc + cs) <==> Means(fl, items, cs)
    ensures ParsePairs(fl, items, acc).Ok? ==> acc <= ParsePairs(fl, items, acc).value
    ensures ParsePairs(fl, items, acc).Err? ==> ParsePairs(fl, items, acc) == Err(Protocol)
    decreases |items|
  {
    hide ParseId, ParseScore, MeansId, MeansScore, Means;
    if items == [] {
      assert Means(fl, items, cs) <==> cs == [] by { NothingMeans(fl, cs); }
      assert acc + cs == acc <==> cs == [];
    } else {
      PairMeans(fl, items, acc, cs);
    }
  }

  lemma NothingMeans(fl: Floats, cs: seq<Candidate>)
    ensures Means(fl, [], cs) <==> cs == []
  {
  }

  lemma {:induction false} PairMeans(fl: Floats, items: seq<Frame>, acc: seq<Candidate>, cs: seq<Candidate>)
    requires |items| % 2 == 0 && items != []
    ensures ParsePairs(fl, items, acc) == Ok(acc + cs) <==> Means(fl, items, cs)
    ensures ParsePairs(fl, items, acc).Ok? ==> acc <= ParsePairs(fl, items, acc).value
    ensures ParsePairs(fl, items, acc).Err? ==> ParsePairs(fl, items, acc) == Err(Protocol)
    decreases |items|, 0
  {
    hide ParseId, ParseScore, MeansId, MeansScore, Means;
    var id, score := ParseId(items[0]), ParseScore(fl, items[1]);
    IdMeans(items[0], 0);
    ScoreMeans(fl, items[1], 0);
    if cs == [] {
      assert !Means(fl, items, cs) by { EmptyMeansNothing(fl, items); }
    } else {
      MeansTail(fl, items, cs);
      IdMeans(items[0], cs[0].id);
      ScoreMeans(fl, items[1], cs[0].score);
    }
    if id.Ok? && score.Ok? {
      var c := Candidate(id.value, score.value);
      PairsMean(fl, items[2..], acc + [c], if cs == [] then [] else cs[1..]);
      if cs != [] {
        if cs[0] == c {
          assert acc + [c] + cs[1..] == acc + cs;
        } else {
          assert ParsePairs(fl, items, acc).Ok? ==> ParsePairs(fl, items, acc).value[|acc|] == c;
          assert (acc + cs)[|acc|] == cs[0];
        }
      }
    }
  }

  lemma EmptyMeansNothing(fl: Floats, items: seq<Frame>)
    ensures Means(fl, items, []) <==> items == []
  {
  }

  /**
   A reply is parsed to candidates exactly when it is an array of as many ids and scores standing
   for them in order; every other reply is a protocol error.
   */
  lemma ReplyMeans(fl: Floats, reply: Frame, cs: seq<Candidate>)
    ensures ParseReply(fl, reply) == Ok(cs) <==> reply.Array? && Means(fl, reply.items, cs)
    ensures ParseReply(fl, reply).Err? ==> ParseReply(fl, reply) == Err(Protocol)
  {
    hide MeansId, MeansScore, ParsePairs;
    if reply.Array? && |reply.items| % 2 == 0 {
      PairsMean(fl, reply.items, [], cs);
      assert [] + cs == cs;
    }
  }

  // ---- vectors and keys, byte by byte -----------------------------------------------------

  /** Four bytes a component, in order, the least significant first. */
  predicate Carries(b: bytes, v: seq<u32>) {
    && |b| == 4 * |v|
    && forall i :: 0 <= i < |v| ==>
         v[i] == Quad(b[4 * i], b[4 * i + 1], b[4 * i + 2], b[4 * i + 3])
  }

  lemma LE32Bytes(n: u32)
    ensures var b := LE32(n); n == Quad(b[0], b[1], b[2], b[3])
  {
    LE32Inverse(n);
    FourBytes(LE32(n));
  }

  lemma {:induction false} VectorCarried(v: seq<u32>)
    ensures Carries(VectorBytes(v), v)
  {
    hide LE32;
    if v != [] {
      var b := VectorBytes(v);
      VectorCarried(v[1..]);
      LE32Bytes(v[0]);
      forall i | 0 <= i < |v|
        ensures v[i] == Quad(b[4 * i], b[4 * i + 1], b[4 * i + 2], b[4 * i + 3])
      {
        if i > 0 {
          var rest := VectorBytes(v[1..]);
          assert v[1..][i - 1] == v[i];
          assert b[4 * i] == rest[4 * (i - 1)] && b[4 * i + 1] == rest[4 * (i - 1) + 1];
          assert b[4 * i + 2] == rest[4 * (i - 1) + 2] && b[4 * i + 3] == rest[4 * (i - 1) + 3];
        }
      }
    }
  }

  /** A key is `hansa:rec:` and the id in digits. */
  lemma KeyText(id: u64)
    ensures var key := KeyFor(id);
            && |key| > 10 && key[..10] == [104, 97, 110, 115, 97, 58, 114, 101, 99, 58]
            && Decimal.Canonical(key[10..]) && Decimal.Value(key[10..]) == id
  {
    Decimal.PrintIsCanonical(id);
    assert KeyFor(id)[10..] == Decimal.Print(id);
  }
}
