/**
 The byte-level store behind the protocol, and the two clients of it: the writer's VSET then SET,
 and the reader's VSEARCH then MGET.  Other clients write between any two round trips, and any
 round trip may go wrong.  A request written by half stays on its connection: from then on the
 server may make anything of what follows on it.
 */
module Store {
  import opened Bytes
  import opened Resp3
  import opened EnvelopeFormat
  import opened Vsearch
  import opened Assembly
  import EnvelopeCodec
  import Decimal

  datatype Command =
    | VSearch(index: bytes, count: bytes, effort: bytes, vector: bytes)
    | MGet(keys: seq<bytes>)
    | VSet(index: bytes, id: bytes, vector: bytes)
    | Set(key: bytes, value: bytes)
    | Del(key: bytes)

  /** A command as the parts of its request, its name first. */
  function CommandParts(cmd: Command): seq<bytes> {
    match cmd
    case VSearch(index, count, effort, vector) => [VSEARCH, index, count, effort, vector]
    case MGet(keys) => [MGET] + keys
    case VSet(index, id, vector) => [VSET, index, id, vector]
    case Set(key, value) => [SET, key, value]
    case Del(key) => [DEL, key]
  }

  const VSEARCH: bytes := [83, 75, 69, 71, 46, 86, 83, 69, 65, 82, 67, 72]
  const VSET: bytes := [83, 75, 69, 71, 46, 86, 83, 69, 84]
  const MGET: bytes := [77, 71, 69, 84]
  const SET: bytes := [83, 69, 84]
  const DEL: bytes := [68, 69, 76]

  datatype Server = Server(kv: map<bytes, bytes>, vectors: map<(bytes, bytes), bytes>)

  /** How the server ranks candidates is its own business. */
  type Search = (map<(bytes, bytes), bytes>, Command) -> Frame

  function Row(kv: map<bytes, bytes>, key: bytes): Frame { if key in kv then Bulk(kv[key]) else Null }

  function Rows(kv: map<bytes, bytes>, keys: seq<bytes>): (r: seq<Frame>)
    ensures |r| == |keys| && forall i :: 0 <= i < |r| ==> r[i] == Row(kv, keys[i])
  {
    seq(|keys|, i requires 0 <= i < |keys| => Row(kv, keys[i]))
  }

  const OK: Frame := Simple([79, 75])

  function Changed(server: Server, cmd: Command): Server {
    match cmd
    case VSearch(_, _, _, _) | MGet(_) => server
    case VSet(index, id, vector) => server.(vectors := server.vectors[(index, id) := vector])
    case Set(key, value) => server.(kv := server.kv[key := value])
    case Del(key) => server.(kv := server.kv - {key})
  }

  function ExecuteAll(server: Server, cmds: seq<Command>): Server
    decreases |cmds|
  {
    if cmds == [] then server else ExecuteAll(Changed(server, cmds[0]), cmds[1..])
  }

  function Reply(search: Search, server: Server, cmd: Command): Frame {
    match cmd
    case VSearch(_, _, _, _) => search(server.vectors, cmd)
    case MGet(keys) => Array(Rows(server.kv, keys))
    case VSet(_, _, _) | Set(_, _) | Del(_) => OK
  }

  /** A write by another client, in whatever form it stores its envelopes. */
  datatype Deed =
    | Indexes(index: bytes, name: bytes, vector: bytes)
    | Stores(id: u64, value: bytes)
    | Removes(id: u64)

  function CommandOf(d: Deed): Command {
    match d
    case Indexes(index, name, vector) => VSet(index, name, vector)
    case Stores(id, value) => Set(KeyFor(id), value)
    case Removes(id) => Del(KeyFor(id))
  }

  function Meanwhile(server: Server, deeds: seq<Deed>): Server
    decreases |deeds|
  {
    if deeds == [] then server else Meanwhile(Changed(server, CommandOf(deeds[0])), deeds[1..])
  }

  /** What can befall a request: it is executed or not, and another answer than its own may be read. */
  datatype Fault =
    | Delivered
    | Lost(error: NetError)         // not executed, no reply
    | ReplyLost(error: NetError)    // executed, no reply that can be read
    | Refused(reply: Frame)         // not executed, this reply
    | Swapped(reply: Frame)         // executed, this reply
    | Torn                          // only its first bytes were written

  /** What the server makes of bytes that follow half a request, and what the client gets to see. */
  datatype Misreading = Misreading(executes: seq<Command>, result: Result<Frame, NetError>)

  /** One round trip: what others wrote before it, how it goes, and how it is misread after half a request. */
  datatype Moment = Moment(before: seq<Deed>, fault: Fault, misread: Misreading)

  const UNEVENTFUL: Moment := Moment([], Delivered, Misreading([], Err(Io)))

  function Executed(fault: Fault): bool { fault.Delivered? || fault.ReplyLost? || fault.Swapped? }

  /** A connection's view: the server, and whether half a request stands on the connection. */
  datatype World = World(server: Server, torn: bool)

  function Seen(search: Search, found: Server, fault: Fault, cmd: Command): Result<Frame, NetError> {
    match fault
    case Delivered => CallResult(Ok(Reply(search, found, cmd)))
    case Lost(error) => Err(error)
    case ReplyLost(error) => Err(error)
    case Refused(other) => CallResult(Ok(other))
    case Swapped(other) => CallResult(Ok(other))
    case Torn => Err(Io)
  }

  function Trip(search: Search, w: World, m: Moment, cmd: Command): (Result<Frame, NetError>, World) {
    var found := Meanwhile(w.server, m.before);
    if w.torn then (m.misread.result, World(ExecuteAll(found, m.misread.executes), true))
    else (Seen(search, found, m.fault, cmd),
          World(if Executed(m.fault) then Changed(found, cmd) else found, m.fault.Torn?))
  }

  /** The script of a session: its coming round trips, uneventful once it runs out. */
  function MomentAt(script: seq<Moment>, n: nat): Moment { if n < |script| then script[n] else UNEVENTFUL }

  function Dropped(script: seq<Moment>, n: nat): seq<Moment> { if n <= |script| then script[n..] else [] }

  /** The server after what others wrote before the first `n` round trips. */
  function FoundAfter(server: Server, script: seq<Moment>, n: nat): Server {
    if n == 0 then server else Meanwhile(FoundAfter(server, script, n - 1), MomentAt(script, n - 1).before)
  }

  class Session {
    const search: Search
    var server: Server
    var torn: bool
    var script: seq<Moment>

    constructor (search: Search, server: Server, script: seq<Moment>)
      ensures this.search == search && Sight() == World(server, false) && this.script == script
    {
      this.search, this.server, this.torn, this.script := search, server, false, script;
    }

    function Sight(): World
      reads this
    {
      World(server, torn)
    }

    method Call(cmd: Command) returns (r: Result<Frame, NetError>)
      modifies this
      ensures (r, Sight()) == Trip(search, old(Sight()), MomentAt(old(script), 0), cmd)
      ensures script == Dropped(old(script), 1)
    {
      var m := MomentAt(script, 0);
      script := Dropped(script, 1);
      server := Meanwhile(server, m.before);
      if torn {
        server := ExecuteAll(server, m.misread.executes);
        return m.misread.result;
      }
      match m.fault {
        case Lost(error) =>
          return Err(error);
        case Refused(other) =>
          return CallResult(Ok(other));
        case Torn =>
          torn := true;
          return Err(Io);
        case _ =>
      }
      var reply := Reply(search, server, cmd);
      server := Changed(server, cmd);
      match m.fault {
        case ReplyLost(error) =>
          return Err(error);
        case Swapped(other) =>
          return CallResult(Ok(other));
        case _ =>
          return CallResult(Ok(reply));
      }
    }
  }

  // ---- writing ----------------------------------------------------------------------------

  datatype WriterConfig = WriterConfig(index: bytes, dim: u32)

  datatype Insert = Insert(id: u64, embedding: seq<u32>, record: RecordEnvelope)

  function VSetFor(cfg: WriterConfig, op: Insert): Command {
    VSet(cfg.index, Decimal.Print(op.id), VectorBytes(op.embedding))
  }

  function SetFor(op: Insert): Command { Set(KeyFor(op.id), EncodeBinary(op.record)) }

  datatype Written = Written(result: Result<(), NetError>, world: World, trips: nat)

  function Discard(r: Result<Frame, NetError>): Result<(), NetError> {
    match r case Ok(_) => Ok(()) case Err(e) => Err(e)
  }

  function InsertOne(search: Search, cfg: WriterConfig, w: World, first: Moment, second: Moment, op: Insert): Written {
    if AsU32(|op.embedding|) != cfg.dim then Written(Err(Protocol), w, 0)
    else
      var (r1, w1) := Trip(search, w, first, VSetFor(cfg, op));
      if r1.Err? then Written(Discard(r1), w1, 1)
      else
        var (r2, w2) := Trip(search, w1, second, SetFor(op));
        Written(Discard(r2), w2, 2)
  }

  class Resp3Writer {
    const cfg: WriterConfig
    const session: Session

    constructor (cfg: WriterConfig, session: Session)
      ensures this.cfg == cfg && this.session == session
    {
      this.cfg, this.session := cfg, session;
    }

    method InsertRecord(libs: Libraries, op: Insert) returns (r: Result<(), NetError>)
      modifies session
      ensures var script := old(session.script);
              var first, second := MomentAt(script, 0), MomentAt(script, 1);
              var w := InsertOne(session.search, cfg, old(session.Sight()), first, second, op);
              r == w.result && session.Sight() == w.world && session.script == Dropped(script, w.trips)
    {
      if AsU32(|op.embedding|) != cfg.dim {
        return Err(Protocol);
      }
      var vector := EncodeVector(op.embedding);
      var reply := session.Call(VSet(cfg.index, Decimal.Print(op.id), vector));
      if reply.Err? {
        return Err(reply.error);
      }
      var value, _ := EnvelopeCodec.EncodeBinaryInner(libs, op.record, None);
      reply := session.Call(Set(KeyFor(op.id), value));
      if reply.Err? {
        return Err(reply.error);
      }
      return Ok(());
    }
  }

  // ---- reading ----------------------------------------------------------------------------

  /** What a reader is built from: the libraries, its index and dimension, and the search effort. */
  datatype Reader = Reader(libs: Libraries, floats: Floats, index: bytes, dim: u32)

  const DEFAULT_L_SEARCH: nat := 100

  datatype Query = Query(embedding: seq<u32>, topK: u32, accept: Filter)

  function NetToQuery(e: NetError): QueryError { if e.Io? then IoError else IndexCorrupted }

  function SearchFor(rd: Reader, q: Query): Command {
    VSearch(rd.index, Decimal.Print(Oversample(q.topK)), Decimal.Print(DEFAULT_L_SEARCH), VectorBytes(q.embedding))
  }

  function Keys(cs: seq<Candidate>): (r: seq<bytes>)
    ensures |r| == |cs| && forall i :: 0 <= i < |r| ==> r[i] == KeyFor(cs[i].id)
  {
    seq(|cs|, i requires 0 <= i < |cs| => KeyFor(cs[i].id))
  }

  /** The rows behind the candidates, or what went wrong fetching them. */
  function Fetch(search: Search, w: World, m: Moment, cs: seq<Candidate>): Result<seq<Frame>, QueryError> {
    if cs == [] then Ok([]) else
      match Trip(search, w, m, MGet(Keys(cs))).0
      case Err(e) => Err(NetToQuery(e))
      case Ok(Array(rows)) => Ok(rows)
      case Ok(_) => Err(IndexCorrupted)
  }

  function Answer(search: Search, rd: Reader, w: World, first: Moment, second: Moment, q: Query)
    : Result<seq<Hit>, QueryError>
  {
    if AsU32(|q.embedding|) != rd.dim then Err(DimMismatch(rd.dim, AsU32(|q.embedding|)))
    else
      var (r1, w1) := Trip(search, w, first, SearchFor(rd, q));
      match r1
      case Err(e) => Err(NetToQuery(e))
      case Ok(reply) =>
        match ParseReply(rd.floats, reply)
        case Err(e) => Err(NetToQuery(e))
        case Ok(cs) =>
          match Fetch(search, w1, second, cs)
          case Err(e) => Err(e)
          case Ok(rows) => FirstHits(Verdicts(rd.libs, q.accept, cs, rows), Wanted(q.topK))
  }

  /** At most two round trips were made, and neither changed anything. */
  ghost predicate OnlyOthersWrote(server: Server, script: seq<Moment>, server': Server, script': seq<Moment>) {
    exists n: nat :: n <= 2 && server' == FoundAfter(server, script, n) && script' == Dropped(script, n)
  }

  /** What a query asks for: its index, the oversampled count, the search effort and its vector, in that order. */
  lemma SearchAsks(rd: Reader, q: Query)
    ensures var cmd := SearchFor(rd, q);
            && cmd.VSearch? && cmd.index == rd.index
            && Decimal.Canonical(cmd.count) && Decimal.Canonical(cmd.effort)
            && Decimal.Parse(cmd.count, 0x1_0000_0000) ==
               Some(if q.topK <= 16 then 64 else if q.topK < 0x4000_0000 then 4 * q.topK else 0xFFFF_FFFF)
            && Decimal.Parse(cmd.effort, 0x1_0000_0000) == Some(100)
            && Carries(cmd.vector, q.embedding)
            && CommandParts(cmd) == [VSEARCH, cmd.index, cmd.count, cmd.effort, cmd.vector]
  {
    hide Decimal.Print, Decimal.Parse, VectorBytes, Carries;
    Decimal.PrintIsCanonical(Oversample(q.topK));
    Decimal.PrintIsCanonical(DEFAULT_L_SEARCH);
    Decimal.ParsePrinted(Oversample(q.topK), 0x1_0000_0000);
    Decimal.ParsePrinted(DEFAULT_L_SEARCH, 0x1_0000_0000);
    VectorCarried(q.embedding);
  }

  /** How a query fails before any row is looked at. */
  lemma AnswerFails(search: Search, rd: Reader, w: World, first: Moment, second: Moment, q: Query)
    ensures |q.embedding| % 0x1_0000_0000 != rd.dim ==>
              Answer(search, rd, w, first, second, q) == Err(DimMismatch(rd.dim, |q.embedding| % 0x1_0000_0000))
    ensures |q.embedding| % 0x1_0000_0000 == rd.dim ==>
              var r1 := Trip(search, w, first, SearchFor(rd, q)).0;
              var r := Answer(search, rd, w, first, second, q);
              && (r1 == Err(Io) ==> r == Err(IoError))
              && (r1.Err? && r1.error != Io ==> r == Err(IndexCorrupted))
              && (r1.Ok? && ParseReply(rd.floats, r1.value).Err? ==> r == Err(IndexCorrupted))
              && (r1.Ok? && ParseReply(rd.floats, r1.value) == Ok([]) ==> r == Ok([]))
    ensures |q.embedding| % 0x1_0000_0000 == rd.dim ==>
              var (r1, w1) := Trip(search, w, first, SearchFor(rd, q));
              r1.Ok? && ParseReply(rd.floats, r1.value).Ok? && ParseReply(rd.floats, r1.value).value != [] ==>
                var r2 := Trip(search, w1, second, MGet(Keys(ParseReply(rd.floats, r1.value).value))).0;
                var r := Answer(search, rd, w, first, second, q);
                && (r2 == Err(Io) ==> r == Err(IoError))
                && (r2.Err? && r2.error != Io ==> r == Err(IndexCorrupted))
                && (r2.Ok? && !r2.value.Array? ==> r == Err(IndexCorrupted))
  {
    hide Trip, ParseReply, SearchFor, Judge;
    if r1 :| r1 == Trip(search, w, first, SearchFor(rd, q)).0 && r1.Ok? && ParseReply(rd.floats, r1.value).Err? {
      ReplyMeans(rd.floats, r1.value, []);
    }
  }

  class Resp3Tenant {
    const rd: Reader
    const session: Session

    constructor (rd: Reader, session: Session)
      ensures this.rd == rd && this.session == session
    {
      this.rd, this.session := rd, session;
    }

    /** The closure run on the connection: both round trips, nothing of the filtering. */
    method SearchAndFetch(q: Query) returns (r: Result<(seq<Candidate>, seq<Frame>), NetError>)
      modifies session
      ensures !old(session.torn) ==>
                OnlyOthersWrote(old(session.server), old(session.script), session.server, session.script)
      ensures var script := old(session.script);
              var (r1, w1) := Trip(session.search, old(session.Sight()), MomentAt(script, 0), SearchFor(rd, q));
              match r1
              case Err(e) => r == Err(e)
              case Ok(reply) =>
                match ParseReply(rd.floats, reply)
                case Err(e) => r == Err(e)
                case Ok(cs) =>
                  match Fetch(session.search, w1, MomentAt(script, 1), cs)
                  case Err(e) => r.Err? && NetToQuery(r.error) == e
                  case Ok(rows) => r == Ok((cs, rows))
    {
      hide ParseReply, Decimal.Print, VectorBytes, KeyFor, Meanwhile, ExecuteAll;
      ghost var server, script, clean := session.server, session.script, !session.torn;
      var vector := EncodeVector(q.embedding);
      var count, effort := Decimal.Print(Oversample(q.topK)), Decimal.Print(DEFAULT_L_SEARCH);
      var reply := session.Call(VSearch(rd.index, count, effort, vector));
      assert FoundAfter(server, script, 1) == Meanwhile(FoundAfter(server, script, 0), MomentAt(script, 0).before);
      assert clean ==> session.server == FoundAfter(server, script, 1) && session.script == Dropped(script, 1);
      if reply.Err? {
        return Err(reply.error);
      }
      var parsed := ParseVsearch(rd.floats, reply.value);
      if parsed.Err? {
        return Err(parsed.error);
      }
      var cs := parsed.value;
      if cs == [] {
        return Ok((cs, []));
      }
      assert clean ==> !session.torn;
      reply := session.Call(MGet(Keys(cs)));
      assert clean ==> session.server == FoundAfter(server, script, 2) && session.script == Dropped(script, 2);
      if reply.Err? {
        return Err(reply.error);
      }
      if !reply.value.Array? {
        return Err(Protocol);
      }
      return Ok((cs, reply.value.items));
    }

    method QueryFiltered(q: Query) returns (r: Result<seq<Hit>, QueryError>)
      modifies session
      ensures var script := old(session.script);
              r == Answer(session.search, rd, old(session.Sight()), MomentAt(script, 0), MomentAt(script, 1), q)
      ensures |q.embedding| % 0x1_0000_0000 != rd.dim ==>
                && r == Err(DimMismatch(rd.dim, |q.embedding| % 0x1_0000_0000))
                && session.Sight() == old(session.Sight()) && session.script == old(session.script)
      ensures !old(session.torn) ==>
                OnlyOthersWrote(old(session.server), old(session.script), session.server, session.script)
    {
      hide ParseReply, Trip, Fetch, Verdicts, FirstHits, Meanwhile;
      ghost var server, script := session.server, session.script;
      assert server == FoundAfter(server, script, 0) && script == Dropped(script, 0);
      if AsU32(|q.embedding|) != rd.dim {
        return Err(DimMismatch(rd.dim, AsU32(|q.embedding|)));
      }
      var found := SearchAndFetch(q);
      if found.Err? {
        return Err(NetToQuery(found.error));
      }
      var (cs, rows) := found.value;
      r := Assemble(rd.libs, q.accept, cs, rows, q.topK);
    }
  }
}
