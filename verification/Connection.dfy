/**
 One socket: sending requests and receiving replies, whatever way the network cuts the bytes.

 Frame encoding and incremental parsing are library functions; all that is asked of the parser is
 that bytes arriving later do not change an answer already given.
 */
module Connection {
  import opened Bytes
  import opened Resp3
  import Framing

  datatype Parse = Parsed(frame: Frame, size: nat) | Incomplete | Malformed

  type Parser = bytes -> Parse

  ghost predicate Stable(parse: Parser) {
    forall b: bytes, more: bytes ::
      match parse(b)
      case Parsed(_, size) => 0 < size <= |b| && parse(b + more) == parse(b)
      case Malformed => parse(b + more).Malformed?
      case Incomplete => true
  }

  /** What the socket answers once its data has run out; an empty chunk is the end of file. */
  datatype Wire = Wire(chunks: seq<bytes>, ending: NetError)

  function Flatten(chunks: seq<bytes>): bytes {
    if chunks == [] then [] else chunks[0] + Flatten(chunks[1..])
  }

  predicate NonEmptyReads(chunks: seq<bytes>) { forall c :: c in chunks ==> c != [] }

  datatype Received = Received(reply: Result<Frame, NetError>, buffer: bytes, chunks: seq<bytes>)

  /** Parse what is buffered; when that is not enough, read once more. */
  function Receive(parse: Parser, buffer: bytes, chunks: seq<bytes>, ending: NetError): Received
    decreases |chunks|
  {
    match parse(buffer)
    case Parsed(frame, size) =>
      Received(Ok(frame), if size <= |buffer| then buffer[size..] else [], chunks)
    case Malformed => Received(Err(Protocol), buffer, chunks)
    case Incomplete =>
      if chunks == [] then Received(Err(ending), buffer, [])
      else if chunks[0] == [] then Received(Err(Protocol), buffer, chunks[1..])
      else Receive(parse, buffer + chunks[0], chunks[1..], ending)
  }

  function ReceiveMany(parse: Parser, buffer: bytes, chunks: seq<bytes>, ending: NetError, n: nat)
    : seq<Result<Frame, NetError>>
    decreases n
  {
    if n == 0 then [] else
      var r := Receive(parse, buffer, chunks, ending);
      [r.reply] + ReceiveMany(parse, r.buffer, r.chunks, ending, n - 1)
  }

  // ---- the whole stream at once -----------------------------------------------------------

  function Head(parse: Parser, stream: bytes, ending: NetError): Result<Frame, NetError> {
    match parse(stream)
    case Parsed(frame, _) => Ok(frame)
    case Malformed => Err(Protocol)
    case Incomplete => Err(ending)
  }

  function Rest(parse: Parser, stream: bytes): bytes {
    match parse(stream)
    case Parsed(_, size) => if size <= |stream| then stream[size..] else []
    case _ => stream
  }

  function ParseMany(parse: Parser, stream: bytes, ending: NetError, n: nat): seq<Result<Frame, NetError>>
    decreases n
  {
    if n == 0 then [] else
      [Head(parse, stream, ending)] + ParseMany(parse, Rest(parse, stream), ending, n - 1)
  }

  /** One receive answers as if all the bytes had been there, and leaves what is then left. */
  lemma {:induction false} ChunkingIrrelevant(parse: Parser, buffer: bytes, chunks: seq<bytes>, ending: NetError)
    requires Stable(parse) && NonEmptyReads(chunks)
    ensures var r := Receive(parse, buffer, chunks, ending);
            var stream := buffer + Flatten(chunks);
            && r.reply == Head(parse, stream, ending)
            && r.buffer + Flatten(r.chunks) == Rest(parse, stream)
            && NonEmptyReads(r.chunks)
    decreases |chunks|
  {
    var tail := Flatten(chunks);
    match parse(buffer)
    case Parsed(frame, size) =>
      assert parse(buffer + tail) == parse(buffer);
      assert (buffer + tail)[size..] == buffer[size..] + tail;
    case Malformed =>
      assert parse(buffer + tail).Malformed?;
    case Incomplete =>
      if chunks == [] {
        assert buffer + tail == buffer;
      } else {
        assert forall c :: c in chunks[1..] ==> c in chunks;
        assert chunks[0] in chunks;
        ChunkingIrrelevant(parse, buffer + chunks[0], chunks[1..], ending);
        assert buffer + tail == buffer + chunks[0] + Flatten(chunks[1..]);
      }
  }

  /** Receiving again and again yields the frames of the whole stream, however it was cut. */
  lemma {:induction false} ReceivesWholeStream(parse: Parser, buffer: bytes, chunks: seq<bytes>, ending: NetError,
                                               n: nat)
    requires Stable(parse) && NonEmptyReads(chunks)
    ensures ReceiveMany(parse, buffer, chunks, ending, n) == ParseMany(parse, buffer + Flatten(chunks), ending, n)
    decreases n
  {
    if n > 0 {
      ChunkingIrrelevant(parse, buffer, chunks, ending);
      var r := Receive(parse, buffer, chunks, ending);
      ReceivesWholeStream(parse, r.buffer, r.chunks, ending, n - 1);
    }
  }

  lemma {:induction false} EndOfFileCuts(parse: Parser, buffer: bytes, chunks: seq<bytes>, ending: NetError, k: nat)
    requires k < |chunks| && chunks[k] == [] && NonEmptyReads(chunks[..k])
    ensures Receive(parse, buffer, chunks, ending).reply == Receive(parse, buffer, chunks[..k], Protocol).reply
    decreases k
  {
    if k > 0 && parse(buffer).Incomplete? {
      assert chunks[..k][0] in chunks[..k];
      assert chunks[..k][1..] == chunks[1..][..k - 1];
      assert forall c :: c in chunks[..k][1..] ==> c in chunks[..k];
      EndOfFileCuts(parse, buffer + chunks[0], chunks[1..], ending, k - 1);
    }
  }

  /**
   The stream ends: what came before the end is answered as if it had been there at once.  When
   that is not a whole frame the answer is a protocol error, whatever is claimed to follow.
   */
  lemma EndOfFile(parse: Parser, buffer: bytes, chunks: seq<bytes>, ending: NetError, k: nat)
    requires Stable(parse) && k < |chunks| && chunks[k] == [] && NonEmptyReads(chunks[..k])
    ensures var got := Receive(parse, buffer, chunks, ending).reply;
            match parse(buffer + Flatten(chunks[..k]))
            case Parsed(frame, _) => got == Ok(frame)
            case _ => got == Err(Protocol)
  {
    EndOfFileCuts(parse, buffer, chunks, ending, k);
    ChunkingIrrelevant(parse, buffer, chunks[..k], Protocol);
  }

  /** Each of these replies, as the server wrote it, is read back whatever follows it. */
  ghost predicate ReadsBack(parse: Parser, encode: Frame -> bytes, replies: seq<Frame>) {
    forall f: Frame, more: bytes :: f in replies ==> parse(encode(f) + more) == Parsed(f, |encode(f)|)
  }

  function EncodeAll(encode: Frame -> bytes, replies: seq<Frame>): bytes {
    if replies == [] then [] else encode(replies[0]) + EncodeAll(encode, replies[1..])
  }

  /** The server's replies come out in the order they were written, one a receive. */
  lemma {:induction false} RepliesInOrder(parse: Parser, encode: Frame -> bytes, replies: seq<Frame>,
                                          buffer: bytes, chunks: seq<bytes>, ending: NetError)
    requires Stable(parse) && ReadsBack(parse, encode, replies) && NonEmptyReads(chunks)
    requires buffer + Flatten(chunks) == EncodeAll(encode, replies)
    ensures ReceiveMany(parse, buffer, chunks, ending, |replies|) ==
            seq(|replies|, i requires 0 <= i < |replies| => Ok(replies[i]))
    decreases |replies|
  {
    if replies != [] {
      ChunkingIrrelevant(parse, buffer, chunks, ending);
      var r := Receive(parse, buffer, chunks, ending);
      assert replies[0] in replies;
      assert parse(encode(replies[0]) + EncodeAll(encode, replies[1..])) == Parsed(replies[0], |encode(replies[0])|);
      RepliesInOrder(parse, encode, replies[1..], r.buffer, r.chunks, ending);
    }
  }

  lemma {:induction false} EncodeAllAppend(encode: Frame -> bytes, a: seq<Frame>, b: seq<Frame>)
    ensures EncodeAll(encode, a + b) == EncodeAll(encode, a) + EncodeAll(encode, b)
  {
    if a == [] {
      assert a + b == b;
    } else {
      assert (a + b)[1..] == a[1..] + b;
      EncodeAllAppend(encode, a[1..], b);
    }
  }

  lemma {:induction false} FlattenAppend(a: seq<bytes>, b: seq<bytes>)
    ensures Flatten(a + b) == Flatten(a) + Flatten(b)
  {
    if a == [] {
      assert a + b == b;
    } else {
      assert (a + b)[1..] == a[1..] + b;
      FlattenAppend(a[1..], b);
    }
  }

  /** While only part of a reply is there, the parser asks for more; it never makes something else of it. */
  lemma PartOfReply(parse: Parser, encode: Frame -> bytes, replies: seq<Frame>, stream: bytes)
    requires Stable(parse) && ReadsBack(parse, encode, replies)
    requires replies != [] && stream <= EncodeAll(encode, replies)
    ensures var whole := encode(replies[0]);
            if whole <= stream then parse(stream) == Parsed(replies[0], |whole|) else parse(stream).Incomplete?
  {
    var whole := encode(replies[0]);
    assert replies[0] in replies;
    if |whole| <= |stream| {
      assert stream[..|whole|] == EncodeAll(encode, replies)[..|whole|] == whole;
      assert stream == whole + stream[|whole|..];
    } else {
      assert whole == EncodeAll(encode, replies)[..|whole|];
      assert stream + whole[|stream|..] == whole;
      assert parse(whole + []) == Parsed(replies[0], |whole|);
      assert whole + [] == whole;
    }
  }

  class Resp3Connection {
    const parse: Parser
    const encode: Frame -> bytes
    var buffer: bytes
    var wire: Wire
    var written: bytes

    constructor (parse: Parser, encode: Frame -> bytes, wire: Wire)
      ensures this.parse == parse && this.encode == encode && this.wire == wire
      ensures buffer == [] && written == []
    {
      this.parse, this.encode, this.wire := parse, encode, wire;
      buffer, written := [], [];
    }

    /** `accepted` is how many bytes the socket takes before it fails, or at least all of them. */
    method Send(frame: Frame, accepted: nat) returns (r: Result<(), NetError>)
      modifies this`written
      ensures r == if |encode(frame)| <= accepted then Ok(()) else Err(Io)
      ensures written == old(written) + if |encode(frame)| <= accepted then encode(frame) else encode(frame)[..accepted]
    {
      var bytes := encode(frame);
      if |bytes| <= accepted {
        written := written + bytes;
        r := Ok(());
      } else {
        written := written + bytes[..accepted];
        r := Err(Io);
      }
    }

    method Recv() returns (r: Result<Frame, NetError>)
      modifies this`buffer, this`wire
      ensures Received(r, buffer, wire.chunks) == Receive(parse, old(buffer), old(wire.chunks), old(wire.ending))
      ensures wire.ending == old(wire.ending)
    {
      while true
        invariant wire.ending == old(wire.ending)
        invariant Receive(parse, old(buffer), old(wire.chunks), old(wire.ending))
               == Receive(parse, buffer, wire.chunks, wire.ending)
        decreases |wire.chunks|
      {
        match parse(buffer) {
          case Parsed(frame, size) =>
            buffer := if size <= |buffer| then buffer[size..] else [];
            return Ok(frame);
          case Malformed =>
            return Err(Protocol);
          case Incomplete =>
        }
        if wire.chunks == [] {
          return Err(wire.ending);
        }
        var chunk := wire.chunks[0];
        wire := wire.(chunks := wire.chunks[1..]);
        if |chunk| == 0 {
          return Err(Protocol);
        }
        buffer := buffer + chunk;
      }
    }

    /** One request, one reply; an error frame is read like any other, then reported as an error. */
    method Call(cmd: bytes, args: seq<bytes>, accepted: nat) returns (r: Result<Frame, NetError>)
      modifies this
      ensures var request := encode(Request(cmd, args));
              var got := Receive(parse, old(buffer), old(wire.chunks), old(wire.ending));
              if |request| <= accepted then
                && written == old(written) + request
                && r == (if got.reply.Ok? && got.reply.value.Error?
                         then Err(Remote(got.reply.value.message)) else got.reply)
                && buffer == got.buffer && wire == Wire(got.chunks, old(wire.ending))
              else
                && written == old(written) + request[..accepted]
                && r == Err(Io) && buffer == old(buffer) && wire == old(wire)
    {
      var parts := [Bulk(cmd)];
      for i := 0 to |args|
        invariant parts == [Bulk(cmd)] + Bulks(args[..i])
        invariant buffer == old(buffer) && wire == old(wire) && written == old(written)
      {
        BulksSnoc(args[..i], args[i]);
        assert args[..i + 1] == args[..i] + [args[i]];
        parts := parts + [Bulk(args[i])];
      }
      assert args[..|args|] == args;
      assert Array(parts) == Request(cmd, args);
      var sent := Send(Array(parts), accepted);
      if sent.Err? {
        return Err(sent.error);
      }
      var reply := Recv();
      if reply.Ok? && reply.value.Error? {
        return Err(Remote(reply.value.message));
      }
      return reply;
    }

    /** The handshake: anything but a map or an array of metadata is a refusal. */
    method Hello(version: bytes, auth: Option<(bytes, bytes)>, accepted: nat) returns (r: Result<(), NetError>)
      modifies this
      ensures var request := encode(HelloRequest(version, auth));
              var got := Receive(parse, old(buffer), old(wire.chunks), old(wire.ending));
              if |request| <= accepted then
                && written == old(written) + request
                && (r.Ok? <==> got.reply.Ok? && (got.reply.value.Map? || got.reply.value.Array?))
                && (got.reply.Ok? && got.reply.value.Error? ==> r == Err(Auth(got.reply.value.message)))
                && (got.reply.Ok? && r.Err? && !got.reply.value.Error? ==> r == Err(Protocol))
                && (got.reply.Err? ==> r == Err(got.reply.error))
                && buffer == got.buffer && wire == Wire(got.chunks, old(wire.ending))
              else
                && written == old(written) + request[..accepted]
                && r == Err(Io) && buffer == old(buffer) && wire == old(wire)
    {
      var args := [Bulk(HELLO), Bulk(version)];
      if auth.Some? {
        args := args + [Bulk(AUTH)];
        args := args + [Bulk(auth.value.0)];
        args := args + [Bulk(auth.value.1)];
      }
      assert Array(args) == HelloRequest(version, auth);
      var sent := Send(Array(args), accepted);
      if sent.Err? {
        return Err(sent.error);
      }
      var reply := Recv();
      if reply.Err? {
        return Err(reply.error);
      }
      match reply.value {
        case Map(_) => return Ok(());
        case Array(_) => return Ok(());
        case Error(message) => return Err(Auth(message));
        case _ => return Err(Protocol);
      }
    }
  }

  const HELLO: bytes := [0x48, 0x45, 0x4C, 0x4C, 0x4F]
  const AUTH: bytes := [0x41, 0x55, 0x54, 0x48]

  function HelloRequest(version: bytes, auth: Option<(bytes, bytes)>): Frame {
    Array([Bulk(HELLO), Bulk(version)]
          + match auth
            case None => []
            case Some((user, pass)) => [Bulk(AUTH), Bulk(user), Bulk(pass)])
  }

  function Bulks(args: seq<bytes>): (r: seq<Frame>)
    ensures |r| == |args| && forall i :: 0 <= i < |args| ==> r[i] == Bulk(args[i])
  {
    if args == [] then [] else [Bulk(args[0])] + Bulks(args[1..])
  }

  function Request(cmd: bytes, args: seq<bytes>): Frame { Array([Bulk(cmd)] + Bulks(args)) }

  /** The command first, then the arguments in their order. */
  lemma RequestParts(cmd: bytes, args: seq<bytes>)
    ensures var request := Request(cmd, args);
            && request.Array? && |request.items| == 1 + |args| && request.items[0] == Bulk(cmd)
            && forall i :: 0 <= i < |args| ==> request.items[i + 1] == Bulk(args[i])
  {
    hide Bulks;
    var items := [Bulk(cmd)] + Bulks(args);
    assert Request(cmd, args) == Array(items);
    assert forall i :: 0 <= i < |args| ==> items[i + 1] == Bulks(args)[i];
  }

  /** `HELLO <version>`, and with credentials `AUTH <user> <password>` after it. */
  lemma HelloParts(version: bytes, user: bytes, pass: bytes)
    ensures HelloRequest(version, None) == Request([0x48, 0x45, 0x4C, 0x4C, 0x4F], [version])
    ensures HelloRequest(version, Some((user, pass))) ==
            Request([0x48, 0x45, 0x4C, 0x4C, 0x4F], [version, [0x41, 0x55, 0x54, 0x48], user, pass])
  {
    assert Bulks([version, AUTH, user, pass]) == [Bulk(version), Bulk(AUTH), Bulk(user), Bulk(pass)];
  }

  /** The library writes an array of bulk strings in the framing of `Framing`. */
  ghost predicate FramesRequests(encode: Frame -> bytes) {
    forall args: seq<bytes> :: encode(Array(Bulks(args))) == Framing.RequestText(args)
  }

  /** On the wire a call is its command and arguments, each behind its length. */
  lemma RequestOnTheWire(encode: Frame -> bytes, cmd: bytes, args: seq<bytes>)
    requires FramesRequests(encode)
    ensures encode(Request(cmd, args)) == Framing.RequestText([cmd] + args)
  {
    assert ([cmd] + args)[1..] == args;
    assert Bulks([cmd] + args) == [Bulk(cmd)] + Bulks(args);
  }

  lemma BulksSnoc(args: seq<bytes>, a: bytes)
    ensures Bulks(args + [a]) == Bulks(args) + [Bulk(a)]
  {
    if args != [] {
      assert (args + [a])[1..] == args[1..] + [a];
    }
  }
}
