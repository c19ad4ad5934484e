/**
 The byte-level store refines two plain maps, from id to record and from index and id to vector:
 whatever sequence of inserts ran, and wherever each of them stopped, a query ranks the last vectors
 and answers as filter-then-take over the last records, as long as no insert follows half a request
 on the same connection.
 */
module Refinement {
  import opened Bytes
  import opened Resp3
  import opened EnvelopeFormat
  import opened Vsearch
  import opened Assembly
  import opened Store
  import Decimal
  import EnvelopeTheorems

  type Records = map<u64, RecordEnvelope>

  /** Vectors by index and id. */
  type Vectors = map<(bytes, u64), seq<u32>>

  datatype Maps = Maps(records: Records, vectors: Vectors)

  /** One insert of a history: on a new connection or on the one before, and how its two requests go. */
  datatype Turn = Turn(op: Insert, anew: bool, first: Moment, second: Moment)

  // ---- the plain maps ---------------------------------------------------------------------

  /** The plain maps after one insert, and what the writer is told. */
  datatype Effect = Effect(plain: Maps, result: Result<(), NetError>)

  /** The components of a vector, four bytes each. */
  function Components(b: bytes): (v: seq<u32>)
    requires |b| % 4 == 0
    ensures Carries(b, v)
  {
    seq(|b| / 4, i requires 0 <= i < |b| / 4 => Quad(b[4 * i], b[4 * i + 1], b[4 * i + 2], b[4 * i + 3]))
  }

  function Note(libs: Libraries, plain: Maps, d: Deed): Maps {
    match d
    case Indexes(index, name, vector) =>
      (match Decimal.Parse(name, U64_LIMIT)
       case Some(id) =>
         if |vector| % 4 == 0 then plain.(vectors := plain.vectors[(index, id) := Components(vector)]) else plain
       case None => plain)
    case Stores(id, value) =>
      (match Decode(libs, value)
       case Ok(e) => plain.(records := plain.records[id := e])
       case Err(_) => plain)
    case Removes(id) => plain.(records := plain.records - {id})
  }

  function Noted(libs: Libraries, plain: Maps, deeds: seq<Deed>): Maps
    decreases |deeds|
  {
    if deeds == [] then plain else Noted(libs, Note(libs, plain, deeds[0]), deeds[1..])
  }

  /** The error a failed round trip is reported with; none when some value is read. */
  function FailureOf(fault: Fault): Option<NetError> {
    match fault
    case Lost(error) => Some(error)
    case ReplyLost(error) => Some(error)
    case Torn => Some(Io)
    case Refused(Error(message)) => Some(Remote(message))
    case Swapped(Error(message)) => Some(Remote(message))
    case _ => None
  }

  /**
   An insert stores its vector exactly when VSET was executed, and its record exactly when VSET was
   also answered without an error and SET was executed.  Its first error is what the writer is told.
   */
  function EffectOf(libs: Libraries, plain: Maps, cfg: WriterConfig, turn: Turn): Effect {
    if |turn.op.embedding| % 0x1_0000_0000 != cfg.dim then Effect(plain, Err(Protocol))
    else
      var found := Noted(libs, plain, turn.first.before);
      var indexed :=
        if Executed(turn.first.fault)
        then found.(vectors := found.vectors[(cfg.index, turn.op.id) := turn.op.embedding]) else found;
      match FailureOf(turn.first.fault)
      case Some(error) => Effect(indexed, Err(error))
      case None =>
        var found2 := Noted(libs, indexed, turn.second.before);
        Effect(if Executed(turn.second.fault)
               then found2.(records := found2.records[turn.op.id := turn.op.record]) else found2,
               match FailureOf(turn.second.fault)
               case Some(error) => Err(error)
               case None => Ok(()))
  }

  function Remember(libs: Libraries, plain: Maps, cfg: WriterConfig, turns: seq<Turn>): Maps
    decreases |turns|
  {
    if turns == [] then plain else Remember(libs, EffectOf(libs, plain, cfg, turns[0]).plain, cfg, turns[1..])
  }

  function PlainHits(recs: Records, accept: Filter, cs: seq<Candidate>): seq<Hit> {
    if cs == [] then []
    else
      var c := cs[0];
      (if c.id in recs && accept(c.id, recs[c.id].shareable, recs[c.id].tags)
       then [Hit(c.id, c.score, recs[c.id].payload)] else [])
      + PlainHits(recs, accept, cs[1..])
  }

  // ---- the bytes --------------------------------------------------------------------------

  function Start(w: World, turn: Turn): World { if turn.anew then w.(torn := false) else w }

  function TakeTurn(search: Search, cfg: WriterConfig, w: World, turn: Turn): Written {
    InsertOne(search, cfg, Start(w, turn), turn.first, turn.second, turn.op)
  }

  function InsertAll(search: Search, cfg: WriterConfig, w: World, turns: seq<Turn>): World
    decreases |turns|
  {
    if turns == [] then w else InsertAll(search, cfg, TakeTurn(search, cfg, w, turns[0]).world, turns[1..])
  }

  /** Exactly the records' keys are present, each holding some form of its record. */
  ghost predicate RecordsStand(libs: Libraries, kv: map<bytes, bytes>, recs: Records) {
    forall id: u64 ::
      && (KeyFor(id) in kv <==> id in recs)
      && (id in recs ==> Decode(libs, kv[KeyFor(id)]) == Ok(recs[id]))
  }

  /** The name of a vector is its id in digits. */
  predicate Names(name: bytes, id: u64) {
    Decimal.Canonical(name) && Decimal.Parse(name, 0x1_0000_0000_0000_0000) == Some(id)
  }

  ghost predicate VectorKnown(k: (bytes, bytes), vector: bytes, plain: Vectors) {
    exists id: u64 :: Names(k.1, id) && (k.0, id) in plain && Carries(vector, plain[(k.0, id)])
  }

  ghost predicate VectorThere(p: (bytes, u64), vectors: map<(bytes, bytes), bytes>) {
    exists name :: Names(name, p.1) && (p.0, name) in vectors
  }

  /** Exactly the plain vectors are there, each under its index and id, each carrying its components. */
  ghost predicate VectorsStand(vectors: map<(bytes, bytes), bytes>, plain: Vectors) {
    && (forall k :: k in vectors ==> VectorKnown(k, vectors[k], plain))
    && (forall p :: p in plain ==> VectorThere(p, vectors))
  }

  /** The bytes of the server represent the plain maps. */
  ghost predicate Represents(libs: Libraries, server: Server, plain: Maps) {
    RecordsStand(libs, server.kv, plain.records) && VectorsStand(server.vectors, plain.vectors)
  }

  predicate SoundDeed(libs: Libraries, d: Deed) {
    match d
    case Indexes(_, name, vector) =>
      Decimal.Canonical(name) && Decimal.Parse(name, U64_LIMIT).Some? && |vector| % 4 == 0
    case Stores(_, value) => Decode(libs, value).Ok?
    case Removes(_) => true
  }

  /** Other clients store nothing but envelopes, and index nothing but vectors under ids. */
  predicate Sound(libs: Libraries, deeds: seq<Deed>) {
    forall i :: 0 <= i < |deeds| ==> SoundDeed(libs, deeds[i])
  }

  predicate SoundTurn(libs: Libraries, turn: Turn) {
    Bounded(turn.op.record) && Sound(libs, turn.first.before) && Sound(libs, turn.second.before)
  }

  predicate SoundTurns(libs: Libraries, turns: seq<Turn>) {
    forall i :: 0 <= i < |turns| ==> SoundTurn(libs, turns[i])
  }

  /** Any of the four forms a client may write is as good as any other. */
  lemma EveryFormIsSound(libs: Libraries, id: u64, e: RecordEnvelope, level: int, plain: Maps)
    requires LawfulJson(libs) && LawfulZstd(libs)
    requires Bounded(e) && BoundedWire(Pack(libs, e, Some(level))) && |e.payload| <= 0x400_0000
    ensures forall form :: form in [libs.toJson(e), EncodeBinary(e), EncodeBinaryZstd(libs, e, level),
                                    EncodeBinarySmallest(libs, e)] ==>
              && SoundDeed(libs, Stores(id, form))
              && Note(libs, plain, Stores(id, form)) == plain.(records := plain.records[id := e])
  {
    hide Decode, LawfulJson, LawfulZstd, Bounded, BoundedWire, EncodeBinary, EncodeBinaryZstd, EncodeBinarySmallest;
    EnvelopeTheorems.JsonRoundTrip(libs, e);
    EnvelopeTheorems.RoundTrip(libs, e);
    EnvelopeTheorems.ZstdRoundTrip(libs, e, level);
    EnvelopeTheorems.SmallestRoundTrip(libs, e);
  }

  lemma SetRefines(libs: Libraries, kv: map<bytes, bytes>, recs: Records, id: u64, value: bytes, record: RecordEnvelope)
    requires RecordsStand(libs, kv, recs) && Decode(libs, value) == Ok(record)
    ensures RecordsStand(libs, kv[KeyFor(id) := value], recs[id := record])
  {
    hide KeyFor, Decode;
    forall other: u64
      ensures KeyFor(other) == KeyFor(id) ==> other == id
    {
      KeysDiffer(other, id);
    }
  }

  lemma DelRefines(libs: Libraries, kv: map<bytes, bytes>, recs: Records, id: u64)
    requires RecordsStand(libs, kv, recs)
    ensures RecordsStand(libs, kv - {KeyFor(id)}, recs - {id})
  {
    hide KeyFor, Decode;
    forall other: u64
      ensures KeyFor(other) == KeyFor(id) ==> other == id
    {
      KeysDiffer(other, id);
    }
  }

  /** An id has one name. */
  lemma NamesDiffer(a: bytes, b: bytes, id: u64)
    requires Names(a, id) && Names(b, id)
    ensures a == b
  {
    CanonicalParses(a, id);
    CanonicalParses(b, id);
  }

  lemma CanonicalParses(name: bytes, id: u64)
    requires Names(name, id)
    ensures name == Decimal.Print(id)
  {
    assert Decimal.IsDigit(name[0]);
    Decimal.CanonicalIsPrint(name);
  }

  lemma KnownStays(k: (bytes, bytes), b: bytes, plain: Vectors, index: bytes, name: bytes, id: u64, v: seq<u32>)
    requires VectorKnown(k, b, plain) && Names(name, id) && k != (index, name)
    ensures VectorKnown(k, b, plain[(index, id) := v])
  {
    hide Names, Carries;
    var i: u64 :| Names(k.1, i) && (k.0, i) in plain && Carries(b, plain[(k.0, i)]);
    if i == id {
      NamesDiffer(name, k.1, id);
    }
    assert plain[(index, id) := v][(k.0, i)] == plain[(k.0, i)];
  }

  lemma ThereStays(p: (bytes, u64), vectors: map<(bytes, bytes), bytes>, key: (bytes, bytes), b: bytes)
    requires VectorThere(p, vectors)
    ensures VectorThere(p, vectors[key := b])
  {
    hide Names;
    var name :| Names(name, p.1) && (p.0, name) in vectors;
    assert (p.0, name) in vectors[key := b];
  }

  lemma JustStored(vectors: map<(bytes, bytes), bytes>, plain: Vectors, index: bytes, name: bytes, id: u64,
                   vector: bytes, v: seq<u32>)
    requires Names(name, id) && Carries(vector, v)
    ensures VectorKnown((index, name), vector, plain[(index, id) := v])
    ensures VectorThere((index, id), vectors[(index, name) := vector])
  {
    hide Names, Carries;
    assert plain[(index, id) := v][(index, id)] == v;
    assert (index, name) in vectors[(index, name) := vector];
  }

  lemma VSetRefines(vectors: map<(bytes, bytes), bytes>, plain: Vectors, index: bytes, name: bytes, id: u64,
                    vector: bytes, v: seq<u32>)
    requires VectorsStand(vectors, plain) && Names(name, id) && Carries(vector, v)
    ensures VectorsStand(vectors[(index, name) := vector], plain[(index, id) := v])
  {
    hide VectorKnown, VectorThere, Names, Carries;
    var vectors', plain' := vectors[(index, name) := vector], plain[(index, id) := v];
    JustStored(vectors, plain, index, name, id, vector, v);
    forall k | k in vectors'
      ensures VectorKnown(k, vectors'[k], plain')
    {
      if k != (index, name) {
        KnownStays(k, vectors[k], plain, index, name, id, v);
      }
    }
    forall p | p in plain'
      ensures VectorThere(p, vectors')
    {
      if p != (index, id) {
        ThereStays(p, vectors, (index, name), vector);
      }
    }
  }

  lemma PrintNames(id: u64)
    ensures Names(Decimal.Print(id), id)
  {
    Decimal.PrintIsCanonical(id);
    Decimal.ParsePrinted(id, U64_LIMIT);
  }

  lemma DeedRefines(libs: Libraries, server: Server, plain: Maps, d: Deed)
    requires Represents(libs, server, plain) && SoundDeed(libs, d)
    ensures Represents(libs, Changed(server, CommandOf(d)), Note(libs, plain, d))
  {
    hide KeyFor, Decode, RecordsStand, VectorsStand, Components, Carries, Decimal.Parse, Decimal.Canonical;
    match d {
      case Indexes(index, name, vector) =>
        VSetRefines(server.vectors, plain.vectors, index, name, Decimal.Parse(name, U64_LIMIT).value,
                    vector, Components(vector));
      case Stores(id, value) =>
        SetRefines(libs, server.kv, plain.records, id, value, Decode(libs, value).value);
      case Removes(id) =>
        DelRefines(libs, server.kv, plain.records, id);
    }
  }

  lemma {:induction false} MeanwhileRefines(libs: Libraries, server: Server, plain: Maps, deeds: seq<Deed>)
    requires Represents(libs, server, plain) && Sound(libs, deeds)
    ensures Represents(libs, Meanwhile(server, deeds), Noted(libs, plain, deeds))
    decreases |deeds|
  {
    hide Represents, SoundDeed, CommandOf, Note, Changed;
    if deeds != [] {
      DeedRefines(libs, server, plain, deeds[0]);
      MeanwhileRefines(libs, Changed(server, CommandOf(deeds[0])), Note(libs, plain, deeds[0]), deeds[1..]);
    }
  }

  /** Half a request is left on the connection after an insert. */
  predicate TornAfter(dim: u32, torn: bool, turn: Turn) {
    if torn && !turn.anew then true
    else
      && AsU32(|turn.op.embedding|) == dim
      && (turn.first.fault.Torn? || (FailureOf(turn.first.fault).None? && turn.second.fault.Torn?))
  }

  /** The insert sends nothing after half a request. */
  predicate Clean(dim: u32, torn: bool, turn: Turn) {
    torn && !turn.anew ==> AsU32(|turn.op.embedding|) != dim
  }

  /** Half a request is left exactly as `TornAfter` says, and whoever leaves it is told of an I/O error. */
  lemma TornTracked(search: Search, cfg: WriterConfig, w: World, turn: Turn)
    ensures var took := TakeTurn(search, cfg, w, turn);
            && took.world.torn == TornAfter(cfg.dim, w.torn, turn)
            && (took.world.torn && !Start(w, turn).torn ==> took.result == Err(Io))
  {
    hide Meanwhile, ExecuteAll, VectorBytes, KeyFor, EncodeBinary;
  }

  lemma VSetExecuted(libs: Libraries, server: Server, plain: Maps, cfg: WriterConfig, op: Insert)
    requires Represents(libs, server, plain)
    ensures Represents(libs, Changed(server, VSetFor(cfg, op)),
                       plain.(vectors := plain.vectors[(cfg.index, op.id) := op.embedding]))
  {
    hide RecordsStand, VectorsStand, Names, Carries, VectorBytes, Decimal.Print;
    PrintNames(op.id);
    VectorCarried(op.embedding);
    VSetRefines(server.vectors, plain.vectors, cfg.index, Decimal.Print(op.id), op.id,
                VectorBytes(op.embedding), op.embedding);
  }

  lemma SetExecuted(libs: Libraries, server: Server, plain: Maps, op: Insert)
    requires Represents(libs, server, plain) && Bounded(op.record)
    ensures Represents(libs, Changed(server, SetFor(op)), plain.(records := plain.records[op.id := op.record]))
  {
    hide RecordsStand, VectorsStand, KeyFor, EncodeBinary, Decode, Bounded;
    EnvelopeTheorems.RoundTrip(libs, op.record);
    SetRefines(libs, server.kv, plain.records, op.id, EncodeBinary(op.record), op.record);
  }

  /** Wherever an insert stops, and whatever others write meanwhile, the bytes represent the plain maps. */
  lemma InsertRefines(libs: Libraries, search: Search, cfg: WriterConfig, w: World, turn: Turn, plain: Maps)
    requires Represents(libs, w.server, plain) && SoundTurn(libs, turn) && Clean(cfg.dim, w.torn, turn)
    ensures var took := TakeTurn(search, cfg, w, turn);
            var effect := EffectOf(libs, plain, cfg, turn);
            Represents(libs, took.world.server, effect.plain) && took.result == effect.result
  {
    hide KeyFor, EncodeBinary, Bounded, Represents, Sound, Meanwhile, Noted, VectorBytes, Decimal.Print, VSetFor;
    if AsU32(|turn.op.embedding|) == cfg.dim {
      var found, plain1 := Meanwhile(w.server, turn.first.before), Noted(libs, plain, turn.first.before);
      MeanwhileRefines(libs, w.server, plain, turn.first.before);
      VSetExecuted(libs, found, plain1, cfg, turn.op);
      WritesAreAcknowledged(search, found, cfg, turn.op);
      var server1 := Trip(search, Start(w, turn), turn.first, VSetFor(cfg, turn.op)).1.server;
      var plain2 := if Executed(turn.first.fault)
        then plain1.(vectors := plain1.vectors[(cfg.index, turn.op.id) := turn.op.embedding]) else plain1;
      MeanwhileRefines(libs, server1, plain2, turn.second.before);
      var found2 := Meanwhile(server1, turn.second.before);
      SetExecuted(libs, found2, Noted(libs, plain2, turn.second.before), turn.op);
      WritesAreAcknowledged(search, found2, cfg, turn.op);
    }
  }

  lemma WritesAreAcknowledged(search: Search, server: Server, cfg: WriterConfig, op: Insert)
    ensures Reply(search, server, VSetFor(cfg, op)) == OK && Reply(search, server, SetFor(op)) == OK
  {
  }

  /** No insert of the history sends anything after half a request. */
  predicate AllClean(dim: u32, torn: bool, turns: seq<Turn>)
    decreases |turns|
  {
    turns == [] || (Clean(dim, torn, turns[0]) && AllClean(dim, TornAfter(dim, torn, turns[0]), turns[1..]))
  }

  lemma {:induction false} InsertsRefine(libs: Libraries, search: Search, cfg: WriterConfig, w: World,
                                         turns: seq<Turn>, plain: Maps)
    requires Represents(libs, w.server, plain) && SoundTurns(libs, turns) && AllClean(cfg.dim, w.torn, turns)
    ensures Represents(libs, InsertAll(search, cfg, w, turns).server, Remember(libs, plain, cfg, turns))
    decreases |turns|
  {
    hide Represents, SoundTurn, Clean, TornAfter, TakeTurn, EffectOf;
    if turns != [] {
      InsertRefines(libs, search, cfg, w, turns[0], plain);
      TornTracked(search, cfg, w, turns[0]);
      InsertsRefine(libs, search, cfg, TakeTurn(search, cfg, w, turns[0]).world, turns[1..],
                    EffectOf(libs, plain, cfg, turns[0]).plain);
    }
  }

  /** A row of a represented store is judged as its record is; a missing one is skipped. */
  lemma RowJudged(libs: Libraries, accept: Filter, kv: map<bytes, bytes>, recs: Records, c: Candidate)
    requires RecordsStand(libs, kv, recs)
    ensures Judge(libs, accept, c, Row(kv, KeyFor(c.id))) ==
            if c.id in recs then JudgeRecord(accept, c, recs[c.id]) else Skip
  {
    hide KeyFor, Decode;
  }

  lemma {:induction false} HitsOfRows(libs: Libraries, accept: Filter, kv: map<bytes, bytes>, recs: Records,
                                      cs: seq<Candidate>)
    requires RecordsStand(libs, kv, recs)
    ensures var vs := Verdicts(libs, accept, cs, Rows(kv, Keys(cs)));
            && (forall i :: 0 <= i < |vs| ==> !vs[i].Bad?)
            && Hits(vs) == PlainHits(recs, accept, cs)
  {
    hide KeyFor, RecordsStand, Judge, Row;
    var vs := Verdicts(libs, accept, cs, Rows(kv, Keys(cs)));
    forall i | 0 <= i < |vs|
      ensures !vs[i].Bad?
    {
      RowJudged(libs, accept, kv, recs, cs[i]);
    }
    if cs != [] {
      RowJudged(libs, accept, kv, recs, cs[0]);
      HitsOfRows(libs, accept, kv, recs, cs[1..]);
      assert vs[1..] == Verdicts(libs, accept, cs[1..], Rows(kv, Keys(cs[1..])));
    }
  }

  /** Whatever happens, no other value is read in the reply's place. */
  predicate NoForeignValue(m: Moment) { m.fault.Delivered? || FailureOf(m.fault).Some? }

  function Reported(error: NetError): QueryError { if error == Io then IoError else IndexCorrupted }

  /**
   What a query owes: the error of the first round trip that fails, or else the candidates the
   server names at VSEARCH, over the records there are at MGET.
   */
  function Owed(rd: Reader, recs: Records, first: Fault, second: Fault, q: Query, pairs: seq<Pair>)
    : Result<seq<Hit>, QueryError>
  {
    if FailureOf(first).Some? then Err(Reported(FailureOf(first).value))
    else if !Readable(rd.floats, pairs) then Err(IndexCorrupted)
    else if pairs == [] then Ok([])
    else if FailureOf(second).Some? then Err(Reported(FailureOf(second).value))
    else Ok(Take(PlainHits(recs, q.accept, Candidates(rd.floats, pairs)), if q.topK == 0 then 1 else q.topK))
  }

  /** A query over a represented store is filter-then-take over the plain map, even while others write. */
  lemma QueryRefines(search: Search, rd: Reader, server: Server, first: Moment, second: Moment, plain: Maps,
                     q: Query, pairs: seq<Pair>)
    requires Represents(rd.libs, server, plain) && AsU32(|q.embedding|) == rd.dim
    requires Sound(rd.libs, first.before) && Sound(rd.libs, second.before)
    requires NoForeignValue(first) && NoForeignValue(second)
    requires search(Meanwhile(server, first.before).vectors, SearchFor(rd, q)) == Array(PrintPairs(pairs))
    ensures var plain1 := Noted(rd.libs, plain, first.before);
            var plain2 := Noted(rd.libs, plain1, second.before);
            && VectorsStand(Meanwhile(server, first.before).vectors, plain1.vectors)
            && Answer(search, rd, World(server, false), first, second, q) ==
               Owed(rd, plain2.records, first.fault, second.fault, q, pairs)
  {
    hide RecordsStand, VectorsStand, Sound, PrintPairs, ParseReply, Candidates, Hits, Verdicts, FirstHits, Rows, Keys,
      PlainHits, Meanwhile, Noted, Readable, Decode;
    ReplyRestored(rd.floats, pairs);
    MeanwhileRefines(rd.libs, server, plain, first.before);
    var server1, plain1 := Meanwhile(server, first.before), Noted(rd.libs, plain, first.before);
    MeanwhileRefines(rd.libs, server1, plain1, second.before);
    var kv, recs := Meanwhile(server1, second.before).kv, Noted(rd.libs, plain1, second.before).records;
    if first.fault.Delivered? && Readable(rd.floats, pairs) {
      var cs := Candidates(rd.floats, pairs);
      assert cs == [] <==> pairs == [];
      var vs := Verdicts(rd.libs, q.accept, cs, Rows(kv, Keys(cs)));
      if cs == [] {
        NothingFromNothing(rd.libs, q.accept, Wanted(q.topK));
      } else {
        HitsOfRows(rd.libs, q.accept, kv, recs, cs);
        AllRowsSound(vs, Wanted(q.topK));
      }
    }
  }

  lemma NothingFromNothing(libs: Libraries, accept: Filter, k: nat)
    ensures FirstHits(Verdicts(libs, accept, [], []), k) == Ok([])
  {
  }

  const EMPTY: World := World(Server(map[], map[]), false)

  lemma EmptyRepresents(libs: Libraries)
    ensures Represents(libs, EMPTY.server, Maps(map[], map[]))
  {
  }

  /**
   End to end: from an empty store, after any inserts under any faults, with other clients writing
   between any two requests, a query ranks the vectors whose VSET was executed last before its
   VSEARCH, answers from the records whose SET was executed last before its MGET, and skips
   candidates that never got one.  `AllClean` is what `TornWriter` shows to be needed, and
   `TornWriter.CarefulIsClean` how a caller obtains it.
   */
  lemma EndToEnd(search: Search, cfg: WriterConfig, turns: seq<Turn>,
                 rd: Reader, first: Moment, second: Moment, q: Query, pairs: seq<Pair>)
    requires SoundTurns(rd.libs, turns) && AllClean(cfg.dim, false, turns)
    requires Sound(rd.libs, first.before) && Sound(rd.libs, second.before)
    requires NoForeignValue(first) && NoForeignValue(second) && AsU32(|q.embedding|) == rd.dim
    requires var server := InsertAll(search, cfg, EMPTY, turns).server;
             search(Meanwhile(server, first.before).vectors, SearchFor(rd, q)) == Array(PrintPairs(pairs))
    ensures var server := InsertAll(search, cfg, EMPTY, turns).server;
            var plain := Noted(rd.libs, Remember(rd.libs, Maps(map[], map[]), cfg, turns), first.before);
            var plain' := Noted(rd.libs, plain, second.before);
            && VectorsStand(Meanwhile(server, first.before).vectors, plain.vectors)
            && Answer(search, rd, World(server, false), first, second, q) ==
               Owed(rd, plain'.records, first.fault, second.fault, q, pairs)
  {
    hide InsertAll, Remember, Answer, Owed, PrintPairs, SearchFor, SoundTurns, Sound, AllClean, Meanwhile, Noted,
      Represents, VectorsStand;
    EmptyRepresents(rd.libs);
    InsertsRefine(rd.libs, search, cfg, EMPTY, turns, Maps(map[], map[]));
    QueryRefines(search, rd, InsertAll(search, cfg, EMPTY, turns).server, first, second,
                 Remember(rd.libs, Maps(map[], map[]), cfg, turns), q, pairs);
  }

  /**
   Oversampling end to end: a server that returns as many pairs as the count in the request asks
   for, of which a quarter have an accepted record, is enough for exactly `topK` hits.
   */
  lemma AskedAndAnswered(search: Search, rd: Reader, server: Server, plain: Maps, q: Query, pairs: seq<Pair>)
    requires Represents(rd.libs, server, plain) && AsU32(|q.embedding|) == rd.dim
    requires 1 <= q.topK <= 0x4000_0000 && Readable(rd.floats, pairs)
    requires search(server.vectors, SearchFor(rd, q)) == Array(PrintPairs(pairs))
    requires Decimal.Parse(SearchFor(rd, q).count, 0x1_0000_0000) == Some(|pairs|)
    requires |pairs| <= 4 * |PlainHits(plain.records, q.accept, Candidates(rd.floats, pairs))|
    ensures var r := Answer(search, rd, World(server, false), UNEVENTFUL, UNEVENTFUL, q);
            r.Ok? && |r.value| == q.topK
  {
    hide Represents, PrintPairs, PlainHits, Candidates, Decimal.Parse, Readable;
    SearchAsks(rd, q);
    NothingMeanwhile(rd.libs, server, plain);
    QueryRefines(search, rd, server, UNEVENTFUL, UNEVENTFUL, plain, q, pairs);
  }

  lemma NothingMeanwhile(libs: Libraries, server: Server, plain: Maps)
    ensures Meanwhile(server, []) == server && Noted(libs, plain, []) == plain && Sound(libs, [])
  {
  }
}
