/** From MGET rows to hits: the post-filter loop of `query_filtered` and its oversampling. */
module Assembly {
  import opened Bytes
  import opened Resp3
  import opened EnvelopeFormat
  import opened Vsearch
  import Utf8

  datatype Hit = Hit(id: u64, similarity: u32, payload: bytes)

  datatype QueryError = DimMismatch(expected: u32, got: u32) | IoError | IndexCorrupted

  /** The caller's filter, on a record's id, shareable flag and tags. */
  type Filter = (u64, bool, seq<Utf8.Text>) -> bool

  /** What one row amounts to. */
  datatype Verdict = Skip | Bad | Good(hit: Hit)

  function JudgeRecord(accept: Filter, c: Candidate, e: RecordEnvelope): Verdict {
    if accept(c.id, e.shareable, e.tags) then Good(Hit(c.id, c.score, e.payload)) else Skip
  }

  function Judge(libs: Libraries, accept: Filter, c: Candidate, row: Frame): Verdict {
    match row
    case Null => Skip
    case Bulk(b) =>
      (match Decode(libs, b)
       case Err(_) => Bad
       case Ok(e) => JudgeRecord(accept, c, e))
    case _ => Bad
  }

  /** Rows pair with candidates by position; what one list has in excess is ignored. */
  function Verdicts(libs: Libraries, accept: Filter, cs: seq<Candidate>, rows: seq<Frame>): (r: seq<Verdict>)
    ensures |r| == if |cs| <= |rows| then |cs| else |rows|
    ensures forall i :: 0 <= i < |r| ==> r[i] == Judge(libs, accept, cs[i], rows[i])
  {
    seq(if |cs| <= |rows| then |cs| else |rows|,
        i requires 0 <= i < |cs| && i < |rows| => Judge(libs, accept, cs[i], rows[i]))
  }

  function One(v: Verdict): seq<Hit> { if v.Good? then [v.hit] else [] }

  function Hits(vs: seq<Verdict>): (r: seq<Hit>)
    ensures |r| <= |vs|
  {
    if vs == [] then [] else One(vs[0]) + Hits(vs[1..])
  }

  function FirstBad(vs: seq<Verdict>): (k: nat)
    ensures k <= |vs|
    ensures k < |vs| ==> vs[k].Bad?
    ensures forall i :: 0 <= i < k ==> !vs[i].Bad?
  {
    if vs == [] || vs[0].Bad? then 0 else 1 + FirstBad(vs[1..])
  }

  function Take(hits: seq<Hit>, k: nat): seq<Hit> { if |hits| <= k then hits else hits[..k] }

  /** The length is looked at only after a push, so asking for none is asking for one. */
  function Wanted(topK: u32): nat { if topK == 0 then 1 else topK }

  /** The first `k` accepted rows, unless a bad row comes before the `k`th of them. */
  function FirstHits(vs: seq<Verdict>, k: nat): Result<seq<Hit>, QueryError> {
    var sound := Hits(vs[..FirstBad(vs)]);
    if FirstBad(vs) < |vs| && |sound| < k then Err(IndexCorrupted) else Ok(Take(sound, k))
  }

  lemma {:induction false} HitsAppend(a: seq<Verdict>, b: seq<Verdict>)
    ensures Hits(a + b) == Hits(a) + Hits(b)
  {
    if a == [] {
      assert a + b == b;
    } else {
      hide One;
      assert (a + b)[1..] == a[1..] + b;
      HitsAppend(a[1..], b);
      assert One(a[0]) + (Hits(a[1..]) + Hits(b)) == (One(a[0]) + Hits(a[1..])) + Hits(b);
    }
  }

  lemma HitsStep(vs: seq<Verdict>, i: nat)
    requires i < |vs|
    ensures Hits(vs[..i + 1]) == Hits(vs[..i]) + One(vs[i])
  {
    assert vs[..i + 1] == vs[..i] + [vs[i]];
    HitsAppend(vs[..i], [vs[i]]);
    assert Hits([vs[i]]) == One(vs[i]) + Hits([vs[i]][1..]);
  }

  lemma HitsPrefix(vs: seq<Verdict>, i: nat, j: nat)
    requires i <= j <= |vs|
    ensures Hits(vs[..i]) <= Hits(vs[..j])
  {
    assert vs[..j] == vs[..i] + vs[i..j];
    HitsAppend(vs[..i], vs[i..j]);
  }

  method Assemble(libs: Libraries, accept: Filter, cs: seq<Candidate>, rows: seq<Frame>, topK: u32)
    returns (r: Result<seq<Hit>, QueryError>)
    ensures r == FirstHits(Verdicts(libs, accept, cs, rows), Wanted(topK))
  {
    hide Hits, Decode;
    ghost var vs := Verdicts(libs, accept, cs, rows);
    var out: seq<Hit> := [];
    NoHits(vs);
    var i := 0;
    while i < |cs| && i < |rows|
      invariant i <= |vs| && out == Hits(vs[..i]) && |out| < Wanted(topK)
      invariant forall j :: 0 <= j < i ==> !vs[j].Bad?
    {
      assert vs[i] == Judge(libs, accept, cs[i], rows[i]);
      HitsStep(vs, i);
      match rows[i] {
        case Null =>
        case Bulk(b) =>
          var e := Decode(libs, b);
          if e.Err? {
            return Err(IndexCorrupted);
          }
          if accept(cs[i].id, e.value.shareable, e.value.tags) {
            out := out + [Hit(cs[i].id, cs[i].score, e.value.payload)];
            if AsU32(|out|) >= topK {
              StopsInTime(vs, i + 1, Wanted(topK));
              return Ok(out);
            }
          }
        case _ =>
          return Err(IndexCorrupted);
      }
      i := i + 1;
    }
    assert vs[..i] == vs;
    return Ok(out);
  }

  lemma StopsInTime(vs: seq<Verdict>, i: nat, k: nat)
    requires i <= |vs| && (forall j :: 0 <= j < i ==> !vs[j].Bad?) && |Hits(vs[..i])| == k
    ensures FirstHits(vs, k) == Ok(Hits(vs[..i]))
  {
    hide Hits;
    assert i <= FirstBad(vs);
    HitsPrefix(vs, i, FirstBad(vs));
    assert Take(Hits(vs[..FirstBad(vs)]), k) == Hits(vs[..i]);
  }

  lemma NoHits(vs: seq<Verdict>)
    ensures Hits(vs[..0]) == []
  {
  }

  // ---- what the loop's result means -------------------------------------------------------

  /** An error exactly when some bad row has fewer than `k` accepted rows before it. */
  lemma ErrorExactlyOnEarlyBadRow(vs: seq<Verdict>, k: nat)
    ensures FirstHits(vs, k).Err? <==> exists i :: 0 <= i < |vs| && vs[i].Bad? && |Hits(vs[..i])| < k
  {
    hide Hits;
    var b := FirstBad(vs);
    if i :| 0 <= i < |vs| && vs[i].Bad? && |Hits(vs[..i])| < k {
      assert b <= i;
      HitsPrefix(vs, b, i);
    }
  }

  // ---- the same, said of the rows themselves -----------------------------------------------

  /** Neither missing nor an envelope that decodes. */
  predicate RowBad(libs: Libraries, row: Frame) {
    !row.Null? && !(row.Bulk? && Decode(libs, row.b).Ok?)
  }

  predicate RowAccepted(libs: Libraries, accept: Filter, c: Candidate, row: Frame) {
    && row.Bulk? && Decode(libs, row.b).Ok?
    && var e := Decode(libs, row.b).value; accept(c.id, e.shareable, e.tags)
  }

  function Shorter(cs: seq<Candidate>, rows: seq<Frame>): nat { if |cs| <= |rows| then |cs| else |rows| }

  /** How many of the first `i` rows are accepted. */
  function AcceptedIn(libs: Libraries, accept: Filter, cs: seq<Candidate>, rows: seq<Frame>, i: nat): nat
    requires i <= Shorter(cs, rows)
  {
    if i == 0 then 0
    else AcceptedIn(libs, accept, cs, rows, i - 1) + if RowAccepted(libs, accept, cs[i - 1], rows[i - 1]) then 1 else 0
  }

  lemma RowVerdict(libs: Libraries, accept: Filter, c: Candidate, row: Frame)
    ensures var v := Judge(libs, accept, c, row);
            && (v.Bad? <==> RowBad(libs, row))
            && (v.Good? <==> RowAccepted(libs, accept, c, row))
            && (RowAccepted(libs, accept, c, row) ==>
                  v.hit == Hit(c.id, c.score, Decode(libs, row.b).value.payload))
  {
    hide Decode;
  }

  lemma {:induction false} AcceptedAreHits(libs: Libraries, accept: Filter, cs: seq<Candidate>, rows: seq<Frame>,
                                           i: nat)
    requires i <= Shorter(cs, rows)
    ensures AcceptedIn(libs, accept, cs, rows, i) == |Hits(Verdicts(libs, accept, cs, rows)[..i])|
    decreases i
  {
    hide Hits, Judge, RowAccepted;
    var vs := Verdicts(libs, accept, cs, rows);
    if i == 0 {
      NoHits(vs);
    } else {
      AcceptedAreHits(libs, accept, cs, rows, i - 1);
      HitsStep(vs, i - 1);
      RowVerdict(libs, accept, cs[i - 1], rows[i - 1]);
    }
  }

  /** The accepted rows, each at its rank, as long as the rank is below `k`. */
  predicate AreHits(libs: Libraries, accept: Filter, cs: seq<Candidate>, rows: seq<Frame>, k: nat, hits: seq<Hit>) {
    var all := AcceptedIn(libs, accept, cs, rows, Shorter(cs, rows));
    && |hits| == (if all <= k then all else k)
    && forall p :: 0 <= p < Shorter(cs, rows) && RowAccepted(libs, accept, cs[p], rows[p]) ==>
         var rank := AcceptedIn(libs, accept, cs, rows, p);
         rank < k ==>
           rank < |hits| && hits[rank] == Hit(cs[p].id, cs[p].score, Decode(libs, rows[p].b).value.payload)
  }

  /** A row that is neither missing nor an envelope comes before the `k`th accepted one. */
  ghost predicate BadRowFirst(libs: Libraries, accept: Filter, cs: seq<Candidate>, rows: seq<Frame>, k: nat) {
    exists i :: 0 <= i < Shorter(cs, rows) && RowBad(libs, rows[i]) && AcceptedIn(libs, accept, cs, rows, i) < k
  }

  /** The query fails exactly when a bad row comes too early; otherwise its hits are the accepted rows. */
  lemma RowsExplained(libs: Libraries, accept: Filter, cs: seq<Candidate>, rows: seq<Frame>, k: nat)
    ensures match FirstHits(Verdicts(libs, accept, cs, rows), k)
            case Err(e) => e == IndexCorrupted && BadRowFirst(libs, accept, cs, rows, k)
            case Ok(hits) => !BadRowFirst(libs, accept, cs, rows, k) && AreHits(libs, accept, cs, rows, k, hits)
  {
    hide Hits, Judge, RowBad, FirstBad, FirstHits, Decode, AcceptedIn;
    var n, vs := Shorter(cs, rows), Verdicts(libs, accept, cs, rows);
    forall i | 0 <= i <= n
      ensures AcceptedIn(libs, accept, cs, rows, i) == |Hits(vs[..i])|
    {
      AcceptedAreHits(libs, accept, cs, rows, i);
    }
    forall i | 0 <= i < n
      ensures vs[i].Bad? <==> RowBad(libs, rows[i])
      ensures vs[i].Good? <==> RowAccepted(libs, accept, cs[i], rows[i])
      ensures RowAccepted(libs, accept, cs[i], rows[i]) ==>
                vs[i].hit == Hit(cs[i].id, cs[i].score, Decode(libs, rows[i].b).value.payload)
    {
      RowVerdict(libs, accept, cs[i], rows[i]);
    }
    assert vs[..n] == vs;
    ErrorExactlyOnEarlyBadRow(vs, k);
    RanksAreHits(vs, k);
    ErrorIsCorruption(vs, k);
  }

  lemma ErrorIsCorruption(vs: seq<Verdict>, k: nat)
    ensures FirstHits(vs, k).Err? ==> FirstHits(vs, k) == Err(IndexCorrupted)
  {
    hide Hits, FirstBad;
  }

  /** Hits stand at the rank of their verdict among the good ones. */
  lemma RanksAreHits(vs: seq<Verdict>, k: nat)
    ensures match FirstHits(vs, k)
            case Err(_) => true
            case Ok(hits) =>
              && |hits| == (if |Hits(vs)| <= k then |Hits(vs)| else k)
              && forall p :: 0 <= p < |vs| && vs[p].Good? && |Hits(vs[..p])| < k ==>
                   |Hits(vs[..p])| < |hits| && hits[|Hits(vs[..p])|] == vs[p].hit
  {
    hide Hits;
    var b := FirstBad(vs);
    assert vs[..|vs|] == vs;
    HitsPrefix(vs, b, |vs|);
    forall p | 0 <= p < |vs| && vs[p].Good? && FirstHits(vs, k).Ok? && |Hits(vs[..p])| < k
      ensures p < b && |Hits(vs[..p])| < |Hits(vs[..b])| && Hits(vs[..b])[|Hits(vs[..p])|] == vs[p].hit
    {
      if b <= p {
        HitsPrefix(vs, b, p);
      }
      HitsStep(vs, p);
      HitsPrefix(vs, p + 1, b);
    }
  }

  /** Without bad rows the answer is the first `k` of all accepted rows, fewer only if there are fewer. */
  lemma AllRowsSound(vs: seq<Verdict>, k: nat)
    requires forall i :: 0 <= i < |vs| ==> !vs[i].Bad?
    ensures FirstHits(vs, k) == Ok(Take(Hits(vs), k))
  {
    assert FirstBad(vs) == |vs|;
    assert vs[..|vs|] == vs;
  }

  /** Which candidate each hit came from: strictly increasing positions. */
  function Origins(vs: seq<Verdict>, from: nat): (r: seq<nat>)
    requires from <= |vs|
    ensures |r| == |Hits(vs[from..])|
    ensures forall a :: 0 <= a < |r| ==> from <= r[a] < |vs| && vs[r[a]] == Good(Hits(vs[from..])[a])
    ensures forall a, b :: 0 <= a < b < |r| ==> r[a] < r[b]
    decreases |vs| - from
  {
    if from == |vs| then [] else
      assert vs[from..][1..] == vs[from + 1..];
      (if vs[from].Good? then [from] else []) + Origins(vs, from + 1)
  }

  /** Any order the server's scores are in, the hits' similarities are in too. */
  lemma OrderKept(libs: Libraries, accept: Filter, cs: seq<Candidate>, rows: seq<Frame>, k: nat,
                  before: (u32, u32) -> bool)
    requires forall i, j :: 0 <= i < j < |cs| ==> before(cs[i].score, cs[j].score)
    ensures match FirstHits(Verdicts(libs, accept, cs, rows), k)
            case Ok(hits) => forall a, b :: 0 <= a < b < |hits| ==> before(hits[a].similarity, hits[b].similarity)
            case Err(_) => true
  {
    hide Decode;
    var vs := Verdicts(libs, accept, cs, rows);
    var sound := vs[..FirstBad(vs)];
    var origin := Origins(sound, 0);
    assert sound[0..] == sound;
    forall a, b | 0 <= a < b < |Hits(sound)|
      ensures before(Hits(sound)[a].similarity, Hits(sound)[b].similarity)
    {
      assert origin[a] < origin[b];
      assert sound[origin[a]] == vs[origin[a]] == Judge(libs, accept, cs[origin[a]], rows[origin[a]]);
      assert sound[origin[b]] == vs[origin[b]] == Judge(libs, accept, cs[origin[b]], rows[origin[b]]);
    }
  }

  /** Asking for no hits brings the first hit all the same, if one comes before any bad row. */
  lemma ZeroMeansOne(vs: seq<Verdict>)
    ensures var sound := Hits(vs[..FirstBad(vs)]);
            FirstHits(vs, Wanted(0)) == if sound != [] then Ok([sound[0]])
                                        else if FirstBad(vs) < |vs| then Err(IndexCorrupted) else Ok([])
  {
    hide Hits, FirstBad;
    var sound := Hits(vs[..FirstBad(vs)]);
    assert sound != [] ==> Take(sound, 1) == [sound[0]];
  }

  /** No more hits than asked for. */
  predicate WithinTopK(vs: seq<Verdict>, topK: u32) {
    FirstHits(vs, Wanted(topK)).Ok? ==> |FirstHits(vs, Wanted(topK)).value| <= topK
  }

  /** For a given reply the limit is kept exactly when one is asked for or nothing comes before a bad row. */
  lemma LimitPerReply(vs: seq<Verdict>, topK: u32)
    ensures WithinTopK(vs, topK) <==> 1 <= topK || Hits(vs[..FirstBad(vs)]) == []
  {
    hide Hits, FirstBad;
    if topK == 0 {
      ZeroMeansOne(vs);
    }
  }

  /** Over all replies, the limit is kept exactly for `top_k` of at least one. */
  lemma LimitExactlyAboveZero(topK: u32)
    ensures (forall vs :: WithinTopK(vs, topK)) <==> 1 <= topK
  {
    hide WithinTopK;
    forall vs: seq<Verdict>
      ensures 1 <= topK ==> WithinTopK(vs, topK)
    {
      LimitPerReply(vs, topK);
    }
    var one := [Good(Hit(0, 0, []))];
    LimitPerReply(one, topK);
    assert one[..1] == one;
  }

  // ---- oversampling -----------------------------------------------------------------------

  const OVERSAMPLE: nat := 4
  const MIN_CANDIDATES: u32 := 64

  function SaturatingMul(a: u32, b: nat): u32 {
    if a * b < 0x1_0000_0000 then a * b else 0xFFFF_FFFF
  }

  function Oversample(topK: u32): u32 {
    var n := SaturatingMul(topK, OVERSAMPLE);
    if n < MIN_CANDIDATES then MIN_CANDIDATES else n
  }

  /** A full, sound reply of which at least a quarter is accepted. */
  ghost predicate QuarterAccepted(vs: seq<Verdict>, topK: u32) {
    && |vs| == Oversample(topK) && (forall i :: 0 <= i < |vs| ==> !vs[i].Bad?)
    && |vs| <= 4 * |Hits(vs)|
  }

  ghost predicate GivesTopK(vs: seq<Verdict>, topK: u32) {
    FirstHits(vs, Wanted(topK)).Ok? && |FirstHits(vs, Wanted(topK)).value| == topK
  }

  lemma {:induction false} HitsOfRepeated(m: nat, h: Hit, n: nat)
    ensures |Hits(seq(m, _ => Good(h)) + seq(n, _ => Skip))| == m
    decreases m, n
  {
    var vs := seq(m, _ => Good(h)) + seq(n, _ => Skip);
    if m > 0 {
      assert vs[1..] == seq(m - 1, _ => Good(h)) + seq(n, _ => Skip);
      HitsOfRepeated(m - 1, h, n);
    } else if n > 0 {
      assert vs[1..] == seq(0, _ => Good(h)) + seq(n - 1, _ => Skip);
      HitsOfRepeated(0, h, n - 1);
    }
  }

  /**
   Oversampling by four serves every quarter-selective filter exactly for `top_k` from 1 to 2^30:
   below, one hit too many comes back; above, the saturated multiplication asks for too few.
   */
  lemma OversamplingRange(topK: u32)
    ensures (forall vs :: QuarterAccepted(vs, topK) ==> GivesTopK(vs, topK)) <==> 1 <= topK <= 0x4000_0000
  {
    hide Hits, FirstHits;
    if 1 <= topK <= 0x4000_0000 {
      forall vs | QuarterAccepted(vs, topK)
        ensures GivesTopK(vs, topK)
      {
        AllRowsSound(vs, topK);
      }
    } else {
      var h := Hit(0, 0, []);
      var m: nat := if topK == 0 then 64 else 0x4000_0000;
      var n: nat := Oversample(topK) - m;
      var vs := seq(m, _ => Good(h)) + seq(n, _ => Skip);
      HitsOfRepeated(m, h, n);
      AllRowsSound(vs, Wanted(topK));
      assert QuarterAccepted(vs, topK);
      assert !GivesTopK(vs, topK);
    }
  }
}
