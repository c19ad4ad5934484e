/**
 The other connection source: one connection behind a lock, kept whatever its calls return.

 A pooled connection is thrown away after an error.  This one is not, so a reply that comes after
 its caller has given up stays on the socket, and a later call reads it as its own.
 */
module OwnedSource {
  import opened Bytes
  import opened Resp3
  import opened Connection
  import PoolMachine

  type Line = PoolMachine.Line

  datatype Codec = Codec(parse: Parser, encode: Frame -> bytes)

  /** One call, and what the socket does meanwhile: bytes taken, bytes delivered, and then silence or the end. */
  datatype Attempt = Attempt(cmd: bytes, args: seq<bytes>, accepted: nat, arrived: seq<bytes>, closes: bool)

  function Ending(a: Attempt): NetError { if a.closes then Protocol else Io }

  function RequestBytes(codec: Codec, a: Attempt): bytes { codec.encode(Request(a.cmd, a.args)) }

  predicate Whole(codec: Codec, a: Attempt) { |RequestBytes(codec, a)| <= a.accepted }

  /** The write failed midway.  The caller sees the same error as for `Unsent`. */
  predicate Torn(codec: Codec, a: Attempt) { 0 < a.accepted < |RequestBytes(codec, a)| }

  /** The write failed before its first byte. */
  predicate Unsent(codec: Codec, a: Attempt) { !Whole(codec, a) && !Torn(codec, a) }

  /** The caller was given a reply: a value, or the server's own error. */
  predicate Replied(r: Result<Frame, NetError>) { r.Ok? || r.error.Remote? }

  /** What the connection holds between calls: unparsed bytes, and bytes not yet read. */
  datatype Link = Link(buffer: bytes, chunks: seq<bytes>)

  function Call(codec: Codec, link: Link, a: Attempt): (Result<Frame, NetError>, Link) {
    var chunks := link.chunks + a.arrived;
    if Whole(codec, a) then
      var got := Receive(codec.parse, link.buffer, chunks, Ending(a));
      (CallResult(got.reply), Link(got.buffer, got.chunks))
    else (Err(Io), Link(link.buffer, chunks))
  }

  function Outcomes(codec: Codec, link: Link, attempts: seq<Attempt>): (r: seq<Result<Frame, NetError>>)
    ensures |r| == |attempts|
    decreases |attempts|
  {
    if attempts == [] then [] else
      var (outcome, link') := Call(codec, link, attempts[0]);
      [outcome] + Outcomes(codec, link', attempts[1..])
  }

  function LinkAfter(codec: Codec, link: Link, attempts: seq<Attempt>): Link
    decreases |attempts|
  {
    if attempts == [] then link else LinkAfter(codec, Call(codec, link, attempts[0]).1, attempts[1..])
  }

  class Source {
    const conn: Resp3Connection

    constructor (conn: Resp3Connection)
      ensures this.conn == conn
    {
      this.conn := conn;
    }

    function Held(): Link
      reads conn
    {
      Link(conn.buffer, conn.wire.chunks)
    }

    /** A closure's calls, up to the first error; the connection stays, with whatever is left on it. */
    method WithConn(attempts: seq<Attempt>) returns (outcomes: seq<Result<Frame, NetError>>)
      modifies conn
      ensures |outcomes| <= |attempts|
      ensures var codec := Codec(conn.parse, conn.encode);
              && outcomes == Outcomes(codec, old(Held()), attempts[..|outcomes|])
              && Held() == LinkAfter(codec, old(Held()), attempts[..|outcomes|])
      ensures forall i :: 0 <= i < |outcomes| - 1 ==> outcomes[i].Ok?
      ensures |outcomes| < |attempts| ==> outcomes != [] && outcomes[|outcomes| - 1].Err?
    {
      ghost var codec := Codec(conn.parse, conn.encode);
      outcomes := [];
      var failed := false;
      while |outcomes| < |attempts| && !failed
        invariant |outcomes| <= |attempts|
        invariant outcomes == Outcomes(codec, old(Held()), attempts[..|outcomes|])
        invariant Held() == LinkAfter(codec, old(Held()), attempts[..|outcomes|])
        invariant forall i :: 0 <= i < |outcomes| - 1 ==> outcomes[i].Ok?
        invariant failed <==> outcomes != [] && outcomes[|outcomes| - 1].Err?
        decreases |attempts| - |outcomes|
      {
        var a := attempts[|outcomes|];
        CallsSnoc(codec, old(Held()), attempts[..|outcomes|], a);
        assert attempts[..|outcomes| + 1] == attempts[..|outcomes|] + [a];
        conn.wire := Wire(conn.wire.chunks + a.arrived, Ending(a));
        var outcome := conn.Call(a.cmd, a.args, a.accepted);
        outcomes := outcomes + [outcome];
        failed := outcome.Err?;
      }
    }
  }

  lemma {:induction false} CallsSnoc(codec: Codec, link: Link, attempts: seq<Attempt>, a: Attempt)
    ensures var (outcome, link') := Call(codec, LinkAfter(codec, link, attempts), a);
            && Outcomes(codec, link, attempts + [a]) == Outcomes(codec, link, attempts) + [outcome]
            && LinkAfter(codec, link, attempts + [a]) == link'
    decreases |attempts|
  {
    hide Call;
    if attempts == [] {
      assert attempts + [a] == [a];
      assert Outcomes(codec, Call(codec, link, a).1, [a][1..]) == [];
    } else {
      assert (attempts + [a])[1..] == attempts[1..] + [a];
      CallsSnoc(codec, Call(codec, link, attempts[0]).1, attempts[1..], a);
    }
  }

  // ---- counting requests and replies ------------------------------------------------------

  /** The bookkeeping of `PoolMachine`, read off real calls. */
  function NextLine(codec: Codec, line: Line, a: Attempt, r: Result<Frame, NetError>): Line {
    PoolMachine.Line(line.sent + (if Whole(codec, a) then 1 else 0),
                     line.read + (if Replied(r) then 1 else 0),
                     line.torn || Torn(codec, a))
  }

  function LineAfter(codec: Codec, line: Line, link: Link, attempts: seq<Attempt>): Line
    decreases |attempts|
  {
    if attempts == [] then line else
      var (r, link') := Call(codec, link, attempts[0]);
      LineAfter(codec, NextLine(codec, line, attempts[0], r), link', attempts[1..])
  }

  /**
   An honest server, seen from the socket: up to the end of each call it has delivered at most the
   replies to the requests written by then, in order.  After half a request it may do anything.
   */
  predicate Served(codec: Codec, replies: seq<Frame>, sent: nat, delivered: bytes, attempts: seq<Attempt>)
    decreases |attempts|
  {
    attempts == [] || Torn(codec, attempts[0]) ||
    var a := attempts[0];
    var sent' := sent + if Whole(codec, a) then 1 else 0;
    var delivered' := delivered + Flatten(a.arrived);
    && NonEmptyReads(a.arrived) && sent' <= |replies|
    && delivered' <= EncodeAll(codec.encode, replies[..sent'])
    && Served(codec, replies, sent', delivered', attempts[1..])
  }

  ghost predicate Lawful(codec: Codec, replies: seq<Frame>) {
    Stable(codec.parse) && ReadsBack(codec.parse, codec.encode, replies)
  }

  /** Everything delivered is the replies read, then what is still held, and is owed to requests written. */
  ghost predicate Tracks(codec: Codec, replies: seq<Frame>, line: Line, link: Link, delivered: bytes) {
    && !line.torn && line.read <= line.sent <= |replies| && NonEmptyReads(link.chunks)
    && delivered == EncodeAll(codec.encode, replies[..line.read]) + (link.buffer + Flatten(link.chunks))
    && delivered <= EncodeAll(codec.encode, replies[..line.sent])
  }

  lemma HeldIsOwed(codec: Codec, replies: seq<Frame>, line: Line, link: Link, delivered: bytes)
    requires Tracks(codec, replies, line, link, delivered)
    ensures link.buffer + Flatten(link.chunks) <= EncodeAll(codec.encode, replies[line.read..line.sent])
  {
    assert replies[..line.sent] == replies[..line.read] + replies[line.read..line.sent];
    EncodeAllAppend(codec.encode, replies[..line.read], replies[line.read..line.sent]);
    PrefixCancels(EncodeAll(codec.encode, replies[..line.read]), link.buffer + Flatten(link.chunks),
                  EncodeAll(codec.encode, replies[line.read..line.sent]));
  }

  lemma PrefixCancels(a: bytes, b: bytes, c: bytes)
    requires a + b <= a + c
    ensures b <= c
  {
    assert b == (a + b)[|a|..] == (a + c)[|a|..|a + b|] == c[..|b|];
  }

  /** More bytes arrive, and perhaps another request has gone out. */
  lemma Arrival(codec: Codec, replies: seq<Frame>, line: Line, link: Link, delivered: bytes, arrived: seq<bytes>,
                sent: nat)
    requires Tracks(codec, replies, line, link, delivered)
    requires NonEmptyReads(arrived) && line.sent <= sent <= |replies|
    requires delivered + Flatten(arrived) <= EncodeAll(codec.encode, replies[..sent])
    ensures Tracks(codec, replies, line.(sent := sent), Link(link.buffer, link.chunks + arrived),
                   delivered + Flatten(arrived))
  {
    hide EncodeAll, Flatten, NonEmptyReads;
    FlattenAppend(link.chunks, arrived);
    NonEmptyAppend(link.chunks, arrived);
    var before, held, more := EncodeAll(codec.encode, replies[..line.read]), Flatten(link.chunks), Flatten(arrived);
    assert before + (link.buffer + held) + more == before + (link.buffer + (held + more));
  }

  lemma NonEmptyAppend(a: seq<bytes>, b: seq<bytes>)
    requires NonEmptyReads(a) && NonEmptyReads(b)
    ensures NonEmptyReads(a + b)
  {
  }

  /** A frame is read if the next one is there in full, and it is that one. */
  lemma Reading(codec: Codec, replies: seq<Frame>, line: Line, link: Link, delivered: bytes, ending: NetError)
    requires Lawful(codec, replies) && Tracks(codec, replies, line, link, delivered) && line.read < line.sent
    ensures var got := Receive(codec.parse, link.buffer, link.chunks, ending);
            && got.reply == (if got.reply.Ok? then Ok(replies[line.read]) else Err(ending))
            && Tracks(codec, replies, line.(read := line.read + if got.reply.Ok? then 1 else 0),
                      Link(got.buffer, got.chunks), delivered)
  {
    hide EncodeAll, Flatten, NonEmptyReads, Stable, ReadsBack, Receive;
    var owed := replies[line.read..line.sent];
    var stream := link.buffer + Flatten(link.chunks);
    HeldIsOwed(codec, replies, line, link, delivered);
    ChunkingIrrelevant(codec.parse, link.buffer, link.chunks, ending);
    ReadsBackPart(codec, replies, line.read, line.sent);
    PartOfReply(codec.parse, codec.encode, owed, stream);
    if codec.encode(replies[line.read]) <= stream {
      OneMoreRead(codec, replies, line.read, stream);
    }
  }

  lemma ReadsBackPart(codec: Codec, replies: seq<Frame>, i: nat, j: nat)
    requires i <= j <= |replies| && ReadsBack(codec.parse, codec.encode, replies)
    ensures ReadsBack(codec.parse, codec.encode, replies[i..j])
  {
  }

  lemma OneMoreRead(codec: Codec, replies: seq<Frame>, read: nat, stream: bytes)
    requires read < |replies| && codec.encode(replies[read]) <= stream
    ensures EncodeAll(codec.encode, replies[..read]) + stream ==
            EncodeAll(codec.encode, replies[..read + 1]) + stream[|codec.encode(replies[read])|..]
  {
    var first := codec.encode(replies[read]);
    EncodeAllAppend(codec.encode, replies[..read], [replies[read]]);
    assert replies[..read + 1] == replies[..read] + [replies[read]];
    assert EncodeAll(codec.encode, [replies[read]]) == first + EncodeAll(codec.encode, []);
    assert stream == first + stream[|first|..];
  }

  /** One call keeps the count true, and the reply it is given is the next in line. */
  lemma CallTracked(codec: Codec, replies: seq<Frame>, line: Line, link: Link, delivered: bytes, a: Attempt)
    requires Lawful(codec, replies) && Tracks(codec, replies, line, link, delivered)
    requires !Torn(codec, a) && Served(codec, replies, line.sent, delivered, [a])
    ensures var (r, link') := Call(codec, link, a);
            && Tracks(codec, replies, NextLine(codec, line, a, r), link', delivered + Flatten(a.arrived))
            && (Replied(r) ==> line.read < |replies| && r == CallResult(Ok(replies[line.read])))
  {
    hide Lawful, Receive;
    var sent := line.sent + if Whole(codec, a) then 1 else 0;
    Arrival(codec, replies, line, link, delivered, a.arrived, sent);
    if Whole(codec, a) {
      Reading(codec, replies, line.(sent := sent), Link(link.buffer, link.chunks + a.arrived),
              delivered + Flatten(a.arrived), Ending(a));
    }
  }

  lemma ServedNext(codec: Codec, replies: seq<Frame>, sent: nat, delivered: bytes, attempts: seq<Attempt>)
    requires attempts != [] && !Torn(codec, attempts[0]) && Served(codec, replies, sent, delivered, attempts)
    ensures var a := attempts[0];
            && Served(codec, replies, sent, delivered, [a])
            && Served(codec, replies, sent + (if Whole(codec, a) then 1 else 0),
                      delivered + Flatten(a.arrived), attempts[1..])
  {
    var a := attempts[0];
    assert [a][1..] == [];
    assert Served(codec, replies, sent + (if Whole(codec, a) then 1 else 0), delivered + Flatten(a.arrived), []);
  }

  lemma {:induction false} TornStays(codec: Codec, line: Line, link: Link, attempts: seq<Attempt>)
    requires line.torn
    ensures LineAfter(codec, line, link, attempts).torn
    decreases |attempts|
  {
    hide Call;
    if attempts != [] {
      var (r, link') := Call(codec, link, attempts[0]);
      TornStays(codec, NextLine(codec, line, attempts[0], r), link', attempts[1..]);
    }
  }

  /** After any history without half a request, the next reply handed out is the next in line. */
  lemma {:induction false} NextInLine(codec: Codec, replies: seq<Frame>, line: Line, link: Link, delivered: bytes,
                                      attempts: seq<Attempt>, a: Attempt)
    requires Lawful(codec, replies) && Tracks(codec, replies, line, link, delivered)
    requires Served(codec, replies, line.sent, delivered, attempts + [a])
    ensures var line' := LineAfter(codec, line, link, attempts);
            var r := Call(codec, LinkAfter(codec, link, attempts), a).0;
            !line'.torn && Replied(r) ==> line'.read < |replies| && r == CallResult(Ok(replies[line'.read]))
    decreases |attempts|
  {
    hide Lawful, Tracks, Call, Served;
    assert (attempts + [a])[0] == if attempts == [] then a else attempts[0];
    if Torn(codec, (attempts + [a])[0]) {
      if attempts == [] {
        NothingFromTorn(codec, LinkAfter(codec, link, attempts), a);
      } else {
        var (r, link') := Call(codec, link, attempts[0]);
        TornStays(codec, NextLine(codec, line, attempts[0], r), link', attempts[1..]);
      }
    } else {
      ServedNext(codec, replies, line.sent, delivered, attempts + [a]);
      CallTracked(codec, replies, line, link, delivered, (attempts + [a])[0]);
      if attempts != [] {
        var (r, link') := Call(codec, link, attempts[0]);
        assert (attempts + [a])[1..] == attempts[1..] + [a];
        NextInLine(codec, replies, NextLine(codec, line, attempts[0], r), link',
                   delivered + Flatten(attempts[0].arrived), attempts[1..], a);
      }
    }
  }

  lemma NothingFromTorn(codec: Codec, link: Link, a: Attempt)
    requires !Whole(codec, a)
    ensures !Replied(Call(codec, link, a).0)
  {
  }

  /** A socket just greeted: one request, one reply, nothing left over. */
  const GREETED: Line := PoolMachine.Line(1, 1, false)
  const NOTHING: Link := Link([], [])

  predicate ServedFromGreeting(codec: Codec, replies: seq<Frame>, attempts: seq<Attempt>) {
    replies != [] && Served(codec, replies, 1, EncodeAll(codec.encode, replies[..1]), attempts)
  }

  /** Every earlier call that was given no reply had written nothing. */
  predicate NothingOutstanding(codec: Codec, link: Link, attempts: seq<Attempt>) {
    forall k :: 0 <= k < |attempts| && !Replied(Outcomes(codec, link, attempts)[k]) ==> Unsent(codec, attempts[k])
  }

  lemma {:induction false} ResidueStays(codec: Codec, line: Line, link: Link, attempts: seq<Attempt>)
    requires line.read <= line.sent
    ensures var after := LineAfter(codec, line, link, attempts);
            && after.read <= after.sent
            && (after.read == after.sent && !after.torn <==>
                  line.read == line.sent && !line.torn && NothingOutstanding(codec, link, attempts))
    decreases |attempts|
  {
    hide Call, RequestBytes;
    if attempts != [] {
      var (r, link') := Call(codec, link, attempts[0]);
      var rest := attempts[1..];
      OutstandingSplit(codec, link, attempts);
      if !Whole(codec, attempts[0]) {
        NothingFromTorn(codec, link, attempts[0]);
      }
      ResidueStays(codec, NextLine(codec, line, attempts[0], r), link', rest);
    }
  }

  lemma OutstandingSplit(codec: Codec, link: Link, attempts: seq<Attempt>)
    requires attempts != []
    ensures var (r, link') := Call(codec, link, attempts[0]);
            NothingOutstanding(codec, link, attempts) <==>
            (Replied(r) || Unsent(codec, attempts[0])) && NothingOutstanding(codec, link', attempts[1..])
  {
    hide Call, Unsent;
    var (r, link') := Call(codec, link, attempts[0]);
    var all, rest := Outcomes(codec, link, attempts), Outcomes(codec, link', attempts[1..]);
    assert all == [r] + rest;
    if NothingOutstanding(codec, link, attempts) {
      forall k | 0 <= k < |attempts[1..]| && !Replied(rest[k])
        ensures Unsent(codec, attempts[1..][k])
      {
        assert all[k + 1] == rest[k];
      }
      assert all[0] == r;
    }
  }

  /**
   On a connection kept across errors, a reply handed out answers the call it is handed to if and
   only if every earlier failure, other than the server's own errors, had written nothing at all.
   Unless a request was torn, it answers number `line.read`, while the call's own number is `line.sent`;
   after half a request nothing can be said of it.
   */
  lemma OwnReplyExactlyWithoutResidue(codec: Codec, replies: seq<Frame>, attempts: seq<Attempt>, a: Attempt)
    requires Lawful(codec, replies) && ServedFromGreeting(codec, replies, attempts + [a])
    requires Replied(Call(codec, LinkAfter(codec, NOTHING, attempts), a).0)
    ensures var line := LineAfter(codec, GREETED, NOTHING, attempts);
            var r := Call(codec, LinkAfter(codec, NOTHING, attempts), a).0;
            && (line.read == line.sent && !line.torn <==> NothingOutstanding(codec, NOTHING, attempts))
            && (!line.torn ==> line.read < |replies| && r == CallResult(Ok(replies[line.read])))
  {
    hide Call, Outcomes, Lawful, NothingOutstanding;
    assert NOTHING.buffer + Flatten(NOTHING.chunks) == [];
    NextInLine(codec, replies, GREETED, NOTHING, EncodeAll(codec.encode, replies[..1]), attempts, a);
    ResidueStays(codec, GREETED, NOTHING, attempts);
  }

  /** What a caller can check: if every earlier call was given a reply, the next one's is its own. */
  lemma RepliesSoFarMeanOwnReply(codec: Codec, replies: seq<Frame>, attempts: seq<Attempt>, a: Attempt)
    requires Lawful(codec, replies) && ServedFromGreeting(codec, replies, attempts + [a])
    requires forall r :: r in Outcomes(codec, NOTHING, attempts) ==> Replied(r)
    ensures var r := Call(codec, LinkAfter(codec, NOTHING, attempts), a).0;
            Replied(r) ==> |attempts| + 1 < |replies| && r == CallResult(Ok(replies[|attempts| + 1]))
  {
    hide Call, Lawful, Served;
    if Replied(Call(codec, LinkAfter(codec, NOTHING, attempts), a).0) {
      OwnReplyExactlyWithoutResidue(codec, replies, attempts, a);
      AllReplied(codec, GREETED, NOTHING, attempts);
    }
  }

  lemma {:induction false} AllReplied(codec: Codec, line: Line, link: Link, attempts: seq<Attempt>)
    requires forall r :: r in Outcomes(codec, link, attempts) ==> Replied(r)
    ensures LineAfter(codec, line, link, attempts) ==
            line.(read := line.read + |attempts|, sent := line.sent + |attempts|)
    decreases |attempts|
  {
    hide Call, RequestBytes;
    if attempts != [] {
      var (r, link') := Call(codec, link, attempts[0]);
      assert Outcomes(codec, link, attempts)[0] == r;
      assert forall x :: x in Outcomes(codec, link', attempts[1..]) ==> x in Outcomes(codec, link, attempts);
      if !Whole(codec, attempts[0]) {
        NothingFromTorn(codec, link, attempts[0]);
      }
      AllReplied(codec, NextLine(codec, line, attempts[0], r), link', attempts[1..]);
    }
  }

  /** One timeout is enough: if its reply comes late, the next call is handed it, and its own stays behind. */
  lemma TimeoutShiftsReplies(codec: Codec, replies: seq<Frame>, first: Attempt, second: Attempt)
    requires Lawful(codec, replies) && |replies| == 3
    requires Whole(codec, first) && first.arrived == [] && !first.closes
    requires Whole(codec, second) && NonEmptyReads(second.arrived)
    requires Flatten(second.arrived) == codec.encode(replies[1]) + codec.encode(replies[2])
    ensures Outcomes(codec, NOTHING, [first, second]) == [Err(Io), CallResult(Ok(replies[1]))]
    ensures var link := LinkAfter(codec, NOTHING, [first, second]);
            link.buffer + Flatten(link.chunks) == codec.encode(replies[2])
  {
    var early, late := replies[1..], Flatten(second.arrived);
    assert codec.encode(replies[1]) == codec.encode(early[0]) && early[1..] == [replies[2]];
    assert EncodeAll(codec.encode, [replies[2]]) == codec.encode(replies[2]) + EncodeAll(codec.encode, []);
    assert EncodeAll(codec.encode, early) == late;
    PartOfReply(codec.parse, codec.encode, early, []);
    PartOfReply(codec.parse, codec.encode, early, late);
    assert Call(codec, NOTHING, first) == (Err(Io), NOTHING);
    assert [] + second.arrived == second.arrived && [] + late == late;
    ChunkingIrrelevant(codec.parse, [], second.arrived, Ending(second));
    assert [first, second][1..] == [second];
    assert Outcomes(codec, NOTHING, [second]) == [Call(codec, NOTHING, second).0];
    assert LinkAfter(codec, NOTHING, [second]) == Call(codec, NOTHING, second).1;
  }

  /** The smallest codec: an integer a byte. */
  function ByteCodec(): Codec {
    Codec((b: bytes) => if b == [] then Incomplete else Parsed(Integer(b[0]), 1),
          (f: Frame) => if f.Integer? then [f.i % 256] else [])
  }

  lemma ByteCodecLawful()
    ensures Lawful(ByteCodec(), [Integer(0), Integer(1), Integer(2)])
  {
    var parse, encode := ByteCodec().parse, ByteCodec().encode;
    forall f: Frame, more: bytes | f in [Integer(0), Integer(1), Integer(2)]
      ensures parse(encode(f) + more) == Parsed(f, |encode(f)|)
    {
      assert (encode(f) + more)[0] == encode(f)[0];
    }
  }

  lemma ServedTwice(first: Attempt, second: Attempt)
    requires first.arrived == [] && second.arrived == [[1, 2]]
    ensures ServedFromGreeting(ByteCodec(), [Integer(0), Integer(1), Integer(2)], [first, second])
  {
    var codec, replies := ByteCodec(), [Integer(0), Integer(1), Integer(2)];
    hide Call, Receive, Stable, ReadsBack;
    assert Whole(codec, first) && Whole(codec, second);
    assert EncodeAll(codec.encode, [Integer(2)]) == [2] + EncodeAll(codec.encode, [Integer(2)][1..]);
    assert replies[1..] == [Integer(1), Integer(2)] && [Integer(1), Integer(2)][1..] == [Integer(2)];
    assert EncodeAll(codec.encode, replies) == [0, 1, 2];
    assert replies[..3] == replies;
    assert EncodeAll(codec.encode, replies[..1]) == [0] + EncodeAll(codec.encode, replies[..1][1..]);
    assert EncodeAll(codec.encode, replies[..2]) == [0] + EncodeAll(codec.encode, replies[..2][1..]);
    assert Flatten(second.arrived) == [1, 2] + Flatten(second.arrived[1..]);
    assert Served(codec, replies, 3, [0, 1, 2], [second][1..]);
    assert [0] + Flatten(second.arrived) == [0, 1, 2];
    assert Served(codec, replies, 2, [0], [second]);
    assert [first, second][1..] == [second];
    assert [0] + Flatten(first.arrived) == [0];
    assert EncodeAll(codec.encode, replies[..1]) == [0];
  }

  /** It does happen: a call returns normally, with a value meant for another. */
  lemma WrongReply()
    ensures exists codec, replies: seq<Frame>, first, second ::
              && Lawful(codec, replies) && ServedFromGreeting(codec, replies, [first, second])
              && |replies| == 3 && replies[1] != replies[2]
              && Outcomes(codec, NOTHING, [first, second]) == [Err(Io), Ok(replies[1])]
  {
    hide Lawful, ServedFromGreeting, Outcomes, LinkAfter;
    var codec, replies := ByteCodec(), [Integer(0), Integer(1), Integer(2)];
    var first := Attempt([], [], 0, [], false);
    var second := first.(arrived := [[1, 2]]);
    ByteCodecLawful();
    ServedTwice(first, second);
    assert Flatten(second.arrived) == [1, 2] + Flatten(second.arrived[1..]);
    TimeoutShiftsReplies(codec, replies, first, second);
  }
}
