/**
 What half a request does to a writer that goes on using its connection, and when a history of
 inserts is safe from it.
 */
module TornWriter {
  import opened Bytes
  import opened Resp3
  import opened EnvelopeFormat
  import opened Vsearch
  import opened Assembly
  import opened Store
  import opened Refinement
  import EnvelopeLaws
  import EnvelopeTheorems
  import Crc32c
  import Decimal
  import Framing

  // ---- what a caller can do ---------------------------------------------------------------

  /** After an I/O error the next insert goes over a new connection. */
  predicate Careful(search: Search, cfg: WriterConfig, w: World, turns: seq<Turn>, failed: bool)
    decreases |turns|
  {
    turns == [] ||
    var took := TakeTurn(search, cfg, w, turns[0]);
    (failed ==> turns[0].anew) && Careful(search, cfg, took.world, turns[1..], took.result == Err(Io))
  }

  /** A writer that is given up after an I/O error never sends anything after half a request. */
  lemma {:induction false} CarefulIsClean(search: Search, cfg: WriterConfig, w: World, turns: seq<Turn>, failed: bool)
    requires Careful(search, cfg, w, turns, failed) && (w.torn ==> failed)
    ensures AllClean(cfg.dim, w.torn, turns)
    decreases |turns|
  {
    hide TakeTurn, TornAfter;
    if turns != [] {
      var took := TakeTurn(search, cfg, w, turns[0]);
      TornTracked(search, cfg, w, turns[0]);
      CarefulIsClean(search, cfg, took.world, turns[1..], took.result == Err(Io));
    }
  }

  // ---- the exact condition ----------------------------------------------------------------

  /** The bytes represent the plain maps before and after every insert. */
  ghost predicate StaysTrue(libs: Libraries, search: Search, cfg: WriterConfig, w: World, turns: seq<Turn>,
                            plain: Maps)
    decreases |turns|
  {
    && Represents(libs, w.server, plain)
    && (turns != [] ==>
          StaysTrue(libs, search, cfg, TakeTurn(search, cfg, w, turns[0]).world, turns[1..],
                    EffectOf(libs, plain, cfg, turns[0]).plain))
  }

  /** The same inserts with the same faults; only what the server makes of garbled bytes may differ. */
  predicate SameButMisread(a: Turn, b: Turn) {
    && a.op == b.op && a.anew == b.anew
    && a.first.before == b.first.before && a.first.fault == b.first.fault
    && a.second.before == b.second.before && a.second.fault == b.second.fault
  }

  predicate AllSameButMisread(a: seq<Turn>, b: seq<Turn>) {
    |a| == |b| && forall i :: 0 <= i < |a| ==> SameButMisread(a[i], b[i])
  }

  lemma {:induction false} CleanStaysTrue(libs: Libraries, search: Search, cfg: WriterConfig, w: World,
                                          turns: seq<Turn>, plain: Maps)
    requires Represents(libs, w.server, plain) && SoundTurns(libs, turns) && AllClean(cfg.dim, w.torn, turns)
    ensures StaysTrue(libs, search, cfg, w, turns, plain)
    decreases |turns|
  {
    hide Represents, SoundTurn, Clean, TornAfter, TakeTurn, EffectOf;
    if turns != [] {
      InsertRefines(libs, search, cfg, w, turns[0], plain);
      TornTracked(search, cfg, w, turns[0]);
      CleanStaysTrue(libs, search, cfg, TakeTurn(search, cfg, w, turns[0]).world, turns[1..],
                     EffectOf(libs, plain, cfg, turns[0]).plain);
    }
  }

  lemma {:induction false} SameIsAsClean(libs: Libraries, dim: u32, torn: bool, a: seq<Turn>, b: seq<Turn>)
    requires AllSameButMisread(a, b)
    ensures AllClean(dim, torn, a) == AllClean(dim, torn, b) && SoundTurns(libs, a) == SoundTurns(libs, b)
    decreases |a|
  {
    hide Bounded, Sound;
    assert forall i :: 0 <= i < |a| ==> SoundTurn(libs, a[i]) == SoundTurn(libs, b[i]);
    if a != [] {
      SameIsAsClean(libs, dim, TornAfter(dim, torn, a[0]), a[1..], b[1..]);
    }
  }

  /** The garbled bytes are taken for a SET of an empty value. */
  function Spoil(turn: Turn): Turn {
    turn.(first := turn.first.(misread := Misreading([Set(KeyFor(turn.op.id), [])], Err(Io))))
  }

  /** The first insert sent after half a request goes as badly as it can. */
  function Spoilt(dim: u32, torn: bool, turns: seq<Turn>): (r: seq<Turn>)
    ensures AllSameButMisread(turns, r)
    decreases |turns|
  {
    if turns == [] then []
    else if !Clean(dim, torn, turns[0]) then [Spoil(turns[0])] + turns[1..]
    else [turns[0]] + Spoilt(dim, TornAfter(dim, torn, turns[0]), turns[1..])
  }

  lemma EmptyIsNoRecord(libs: Libraries, server: Server, id: u64, plain: Maps)
    requires KeyFor(id) in server.kv && server.kv[KeyFor(id)] == []
    ensures !Represents(libs, server, plain)
  {
    hide VectorsStand;
    assert Decode(libs, []).Err?;
  }

  lemma SpoilBreaks(libs: Libraries, search: Search, cfg: WriterConfig, w: World, turn: Turn, plain: Maps)
    requires !Clean(cfg.dim, w.torn, turn)
    ensures !Represents(libs, TakeTurn(search, cfg, w, Spoil(turn)).world.server, plain)
  {
    hide KeyFor, Represents, Meanwhile;
    var bad := Set(KeyFor(turn.op.id), []);
    var found := Meanwhile(w.server, turn.first.before);
    assert ExecuteAll(found, [bad]) == ExecuteAll(Changed(found, bad), [bad][1..]);
    EmptyIsNoRecord(libs, Changed(found, bad), turn.op.id, plain);
  }

  lemma {:induction false} SpoiltBreaks(libs: Libraries, search: Search, cfg: WriterConfig, w: World,
                                        turns: seq<Turn>, plain: Maps)
    requires !AllClean(cfg.dim, w.torn, turns)
    ensures !StaysTrue(libs, search, cfg, w, Spoilt(cfg.dim, w.torn, turns), plain)
    decreases |turns|
  {
    hide Represents, Clean, TornAfter, TakeTurn, EffectOf, Spoil;
    var spoilt := Spoilt(cfg.dim, w.torn, turns);
    if Clean(cfg.dim, w.torn, turns[0]) {
      TornTracked(search, cfg, w, turns[0]);
      assert spoilt[1..] == Spoilt(cfg.dim, TornAfter(cfg.dim, w.torn, turns[0]), turns[1..]);
      SpoiltBreaks(libs, search, cfg, TakeTurn(search, cfg, w, turns[0]).world, turns[1..],
                   EffectOf(libs, plain, cfg, turns[0]).plain);
    } else {
      SpoilBreaks(libs, search, cfg, w, turns[0], EffectOf(libs, plain, cfg, spoilt[0]).plain);
    }
  }

  /**
   The bytes represent the plain maps all along, whatever the server makes of garbled requests, if
   and only if no insert is sent after half a request on the same connection.
   */
  lemma SafeExactlyWhenClean(libs: Libraries, search: Search, cfg: WriterConfig, w: World, turns: seq<Turn>,
                             plain: Maps)
    requires Represents(libs, w.server, plain) && SoundTurns(libs, turns)
    ensures (forall others :: AllSameButMisread(turns, others) ==> StaysTrue(libs, search, cfg, w, others, plain))
            <==> AllClean(cfg.dim, w.torn, turns)
  {
    hide Represents, SoundTurns, AllClean, StaysTrue, AllSameButMisread;
    if AllClean(cfg.dim, w.torn, turns) {
      forall others | AllSameButMisread(turns, others)
        ensures StaysTrue(libs, search, cfg, w, others, plain)
      {
        SameIsAsClean(libs, cfg.dim, w.torn, turns, others);
        CleanStaysTrue(libs, search, cfg, w, others, plain);
      }
    } else {
      SpoiltBreaks(libs, search, cfg, w, turns, plain);
    }
  }

  // ---- it does happen ---------------------------------------------------------------------

  /** A stored record whose last two bytes turn into others is refused. */
  lemma TailDamaged(libs: Libraries, e: RecordEnvelope, tail: bytes)
    requires Bounded(e) && |tail| == 2
    ensures var value := EncodeBinary(e);
            2 <= |value| && (value[|value| - 2..] != tail ==> Decode(libs, value[..|value| - 2] + tail).Err?)
  {
    hide Crc32c.Checksum, Body, DecodeBinary, EnvelopeLaws.AllValid, LE32, U32;
    var w := Plain(e);
    var body, crc := Body(w), LE32(Crc32c.Checksum(Body(w)));
    var value := EncodeBinary(e);
    assert value == body + crc;
    var end := crc[..2] + tail;
    assert value[..|value| - 2] + tail == body + end;
    if value[|value| - 2..] != tail {
      U32Inverse(end);
      assert end != crc by {
        assert end[2..] == tail && crc[2..] == value[|value| - 2..];
      }
      EnvelopeTheorems.TagsAreValid(e);
      EnvelopeTheorems.TrailerCorrupted(libs, w, U32(end));
      EnvelopeTheorems.PlainHead(e);
      EnvelopeTheorems.EncodedLength(w);
      assert (body + end)[0] == value[0];
    }
  }

  /**
   The writer's SET stops four bytes short, and the insert after it goes out on the same connection.
   Its VSET is handed the reply to the damaged SET, and nothing comes of its own SET.
   */
  function TwoInserts(op: Insert, next: Insert): seq<Turn> {
    var damaged := Set(KeyFor(op.id), Framing.Damaged(EncodeBinary(op.record)));
    [Turn(op, true, UNEVENTFUL, UNEVENTFUL.(fault := Torn)),
     Turn(next, false, UNEVENTFUL.(misread := Misreading([damaged], Ok(OK))), UNEVENTFUL)]
  }

  /**
   What the server executes in `TwoInserts` is just what the bytes say: the half SET and the VSET
   after it begin with a whole SET of the damaged value, and can be read in no other way.
   */
  lemma DamageIsOnTheWire(cfg: WriterConfig, op: Insert, next: Insert)
    requires 2 <= |EncodeBinary(op.record)|
    ensures var key, value := KeyFor(op.id), EncodeBinary(op.record);
            var stream := Framing.TornSet(key, value) + Framing.RequestText(CommandParts(VSetFor(cfg, next)));
            var stored := CommandParts(Set(key, Framing.Damaged(value)));
            && Framing.TornSet(key, value) < Framing.RequestText(CommandParts(SetFor(op)))
            && Framing.RequestText(stored) <= stream
            && forall read, rest :: stream == Framing.RequestText(read) + rest ==> read == stored
  {
    hide EncodeBinary, KeyFor, Framing.RequestText, Framing.TornSet, VectorBytes, Decimal.Print;
    assert SET == Framing.SET;
    Framing.TornSetCompleted(KeyFor(op.id), EncodeBinary(op.record), CommandParts(VSetFor(cfg, next)));
    Framing.TornIsPart(KeyFor(op.id), EncodeBinary(op.record));
  }

  function AfterTwo(search: Search, cfg: WriterConfig, op: Insert, next: Insert): World {
    InsertAll(search, cfg, EMPTY, TwoInserts(op, next))
  }

  lemma TornTurn(search: Search, cfg: WriterConfig, op: Insert, next: Insert)
    requires AsU32(|op.embedding|) == cfg.dim
    ensures var took := TakeTurn(search, cfg, EMPTY, TwoInserts(op, next)[0]);
            took.result == Err(Io) && took.world.torn
  {
    hide EncodeBinary, KeyFor, VectorBytes, Framing.Damaged;
  }

  lemma MisreadTurn(search: Search, cfg: WriterConfig, w: World, op: Insert, next: Insert)
    requires w.torn && AsU32(|next.embedding|) == cfg.dim
    ensures var kv := TakeTurn(search, cfg, w, TwoInserts(op, next)[1]).world.server.kv;
            KeyFor(op.id) in kv && kv[KeyFor(op.id)] == Framing.Damaged(EncodeBinary(op.record))
  {
    hide EncodeBinary, KeyFor, VectorBytes, Framing.Damaged;
    var damaged := TwoInserts(op, next)[1].first.misread.executes[0];
    assert [damaged][1..] == [];
    assert ExecuteAll(w.server, [damaged]) == ExecuteAll(Changed(w.server, damaged), []);
  }

  lemma DamageIsStored(search: Search, cfg: WriterConfig, op: Insert, next: Insert)
    requires AsU32(|op.embedding|) == AsU32(|next.embedding|) == cfg.dim
    ensures var kv := AfterTwo(search, cfg, op, next).server.kv;
            KeyFor(op.id) in kv && kv[KeyFor(op.id)] == Framing.Damaged(EncodeBinary(op.record))
    ensures !AllClean(cfg.dim, false, TwoInserts(op, next))
  {
    hide TakeTurn, EncodeBinary, KeyFor, Framing.Damaged, Meanwhile;
    var turns := TwoInserts(op, next);
    var start := EMPTY;
    var w := TakeTurn(search, cfg, start, turns[0]).world;
    TornTurn(search, cfg, op, next);
    MisreadTurn(search, cfg, w, op, next);
    assert turns[1..][0] == turns[1] && turns[1..][1..] == [];
    var w' := TakeTurn(search, cfg, w, turns[1]).world;
    assert InsertAll(search, cfg, w, turns[1..]) == InsertAll(search, cfg, w', []);
  }

  /** An undecodable row before every other makes the whole query fail. */
  lemma BadRowAnswered(search: Search, rd: Reader, server: Server, q: Query, pairs: seq<Pair>)
    requires AsU32(|q.embedding|) == rd.dim && Readable(rd.floats, pairs) && pairs != []
    requires KeyFor(pairs[0].id) in server.kv && Decode(rd.libs, server.kv[KeyFor(pairs[0].id)]).Err?
    requires search(server.vectors, SearchFor(rd, q)) == Array(PrintPairs(pairs))
    ensures Answer(search, rd, World(server, false), UNEVENTFUL, UNEVENTFUL, q) == Err(IndexCorrupted)
  {
    hide PrintPairs, ParseReply, Hits, KeyFor, Decode, Readable, Decimal.Print, VectorBytes;
    ReplyRestored(rd.floats, pairs);
    var cs := Candidates(rd.floats, pairs);
    var rows := Rows(server.kv, Keys(cs));
    var vs := Verdicts(rd.libs, q.accept, cs, rows);
    assert Meanwhile(server, []) == server;
    assert rows[0] == Bulk(server.kv[KeyFor(pairs[0].id)]);
    assert vs[0] == Judge(rd.libs, q.accept, cs[0], rows[0]) == Bad;
    NoHits(vs);
    assert FirstBad(vs) == 0;
  }

  /**
   A bounded record, a writer used again after an I/O error, and a query that goes without a fault:
   it is answered `IndexCorrupted`, for every record whose encoding does not happen to end in `*4`.
   */
  lemma ReusedWriterCorrupts(search: Search, cfg: WriterConfig, op: Insert, next: Insert, rd: Reader, q: Query,
                             pairs: seq<Pair>)
    requires Bounded(op.record) && AsU32(|op.embedding|) == AsU32(|next.embedding|) == cfg.dim
    requires EncodeBinary(op.record)[|EncodeBinary(op.record)| - 2..] != Framing.STAR_FOUR
    requires AsU32(|q.embedding|) == rd.dim && Readable(rd.floats, pairs) && pairs != [] && pairs[0].id == op.id
    requires search(AfterTwo(search, cfg, op, next).server.vectors, SearchFor(rd, q)) == Array(PrintPairs(pairs))
    ensures !AllClean(cfg.dim, false, TwoInserts(op, next))
    ensures Answer(search, rd, World(AfterTwo(search, cfg, op, next).server, false), UNEVENTFUL, UNEVENTFUL, q)
            == Err(IndexCorrupted)
  {
    hide AfterTwo, Answer, EncodeBinary, KeyFor, Decode, PrintPairs, SearchFor, AllClean, TwoInserts;
    DamageIsStored(search, cfg, op, next);
    TailDamaged(rd.libs, op.record, Framing.STAR_FOUR);
    BadRowAnswered(search, rd, AfterTwo(search, cfg, op, next).server, q, pairs);
  }
}
