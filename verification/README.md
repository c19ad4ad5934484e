# Verified model of the RESP3 transport

This project models three connected parts of the RESP3 path of `skeg-rigging-net`, and proves what they promise.

**The connection pool.** `Pool.dfy` holds the shared state (the idle queue and `in_use`) as a class whose methods are the critical sections of the mutex, proved against functions on plain values. `PoolMachine.dfy` runs the same functions under every interleaving of any number of tasks: the lock is free during a TCP connect, connects and handshakes fail, calls time out or are half written, guards are dropped or discarded, the condition variable wakes one waiter or wakes spuriously, and the clock only moves forward. `PoolSafety.dfy` proves the inductive invariants, `PoolTheorems.dfy` states what holds in every reachable state, and `PoolLiveness.dfy` bounds every run. What the class methods ask of their callers (a queue ordered by return time, a positive `in_use`) is what `PoolTheorems` proves of every reachable state.

**The record envelope.** `EnvelopeFormat.dfy` says what the bytes are and what a decoder must answer; `EnvelopeCodec.dfy` is the encoder and the cursor decoder as loops over a buffer; `EnvelopeMeaning.dfy` states the layout and the accepted buffers without either of them; `EnvelopeLaws.dfy` and `EnvelopeTheorems.dfy` prove canonical form, round trips, truncation, corruption and the compressed forms. The checksum is the concrete CRC32C of section 12.1 of RFC 3720 (`Crc32c.dfy`), as a serial shift register over message bits, proved equal to the standard's polynomial division (`CrcDivision.dfy`) and to give the published answers (`CrcVectors.dfy`). Tags are byte strings held to section 4 of RFC 3629 (`Utf8.dfy`).

**The write and query path.** `Store.dfy` is the byte-level key-value store with its two clients: VSET then SET, and VSEARCH then MGET, each round trip subject to faults and to what other clients write meanwhile. `Vsearch.dfy` and `Assembly.dfy` are the reply parser, the oversampling and the post-filter loop. `Refinement.dfy` proves that all of it behaves as two plain maps, of records by id and of vectors by index and id, and `TornWriter.dfy` says exactly when half-written requests endanger that, with `Framing.dfy` for the bytes of requests. `Connection.dfy` covers one socket's bytes, `OwnedSource.dfy` the source that keeps its single connection, `Location.dfy` the address grammar, and `VindexInfo.dfy` the index listing.

## Where the code and its documentation part

Each of these is the code's behaviour, with the exact condition under which it is what the documentation says.

- `crates/skeg-rigging-net-resp3/src/pool.rs:88` describes `in_use` as borrowed plus idle, and line 197 agrees. The code and its tests make it borrowed plus connecting (`PoolTheorems.ExactAccounting`). The cap on the total holds all the same (`PoolTheorems.SocketCap`).
- A pool configured with `max_total` 0 parks its first caller for ever; every other pool never strands anyone (`PoolLiveness.StrandsExactlyWithoutRoom`).
- `encode_binary_smallest` is called a safe default. Above 64 MiB a payload that compresses well is written in a form that `decode` refuses (`EnvelopeTheorems.SmallestRoundTrip`, with a witness in `EnvelopeTheorems.SmallestLosesLargePayload`).
- The `as u16` and `as u32` casts cut silently: the plain form round-trips exactly on bounded envelopes (`EnvelopeTheorems.RoundTrip`).
- The module comment of `crates/skeg-rigging-net/src/envelope.rs` (lines 44-47) says the zstd bit is rejected on read. The code decompresses; the model follows the code.
- A query for zero hits can return one (`Assembly.ZeroMeansOne`). The limit holds for every reply exactly when `top_k` is at least 1 (`Assembly.LimitExactlyAboveZero`), and for a given reply also when nothing is accepted before the first bad row (`Assembly.LimitPerReply`).
- Oversampling by four is enough for a quarter-selective filter for `top_k` from 1 to 2^30 and for no other value (`Assembly.OversamplingRange`).
- A tenant that owns its connection keeps it after an error. A call that wrote its request and got no reply makes later calls read replies to earlier requests (`OwnedSource.OwnReplyExactlyWithoutResidue`, `OwnedSource.TimeoutShiftsReplies`, with a witness in `OwnedSource.WrongReply`). An I/O error does not tell the caller whether anything was written; what it can rely on is that as long as every call returned a value or a remote error, each reply is its own (`OwnedSource.RepliesSoFarMeanOwnReply`). Pooled tenants are not affected (`PoolTheorems.EveryReplyAnswersItsRequest`).
- A writer keeps its connection after an I/O error, and one that goes on using it can damage a stored record: a SET cut short takes its missing bytes from the next request (`TornWriter.ReusedWriterCorrupts`). The store is safe exactly when nothing is inserted after half a request on the same connection (`TornWriter.SafeExactlyWhenClean`), for which it is enough to replace the writer after every I/O error (`TornWriter.CarefulIsClean`).

## Assumptions

- The zstd, JSON and RESP3 libraries are function values. Theorems that need something of them say so in a `requires`: a frame decompresses to its original and to nothing above the cap (`LawfulZstd`), JSON round-trips and starts with a brace (`LawfulJson`), later bytes do not change a parse (`Stable`), the replies actually sent are read back (`ReadsBack`). `SmallestLosesLargePayload` exhibits libraries that satisfy the first.
- The server answers each request on a socket once and in order. `PoolMachine` counts requests and replies per socket; `OwnedSource.NextInLine` derives from the bytes that the count tells which request a reply answers.
- Requests are framed as RESP arrays of bulk strings, each with its length in decimal (`Framing.dfy`). A server may make anything of bytes that follow half a request; half a request that nothing follows is not executed.
- `usize` is 64 bits wide, so adding a `u32` to a buffer position does not overflow. Floating-point values are opaque bit patterns.

## Model

| member | source | states |
|---|---|---|
| Pool.PoolState.Evict | crates/skeg-rigging-net-resp3/src/pool.rs:134-141 | the eviction loop, which re-reads the clock for each entry, removes and closes exactly the entries stale at its last reading |
| Pool.PoolState.TryAcquire | crates/skeg-rigging-net-resp3/src/pool.rs:132-183 | one locked pass of the acquire loop: new queue, new count, and whether it lends, reserves or waits |
| Pool.PooledConnection.Drop | crates/skeg-rigging-net-resp3/src/pool.rs:232-245 | dropping a guard gives its place back, tells one waiter, puts its live connection at the end of the queue if and only if that holds fewer than `max_idle`, and closes it otherwise |
| Pool.PooledConnection.Discard | crates/skeg-rigging-net-resp3/src/pool.rs:226-229 | a discarded connection is closed and never queued; its place is given back and one waiter told |
| Pool.FreshIsSuffix | crates/skeg-rigging-net-resp3/src/pool.rs:135-141 | in a queue ordered by return time, stopping at the first fresh entry leaves exactly the fresh ones |
| Pool.LendsOldestFresh | crates/skeg-rigging-net-resp3/src/pool.rs:142-148 | the connection lent is the oldest one that was fresh, and all that stay are fresh |
| PoolSafety.AccountingKept | crates/skeg-rigging-net-resp3/src/pool.rs:142-175 | every step keeps the count exact, the total within the cap, the queue within its bound, and no wake-up lost |
| PoolSafety.ExclusiveKept | crates/skeg-rigging-net-resp3/src/pool.rs:142-175 | every step keeps each open socket in one queue slot or one task's hands, never two |
| PoolSafety.MatchedKept | crates/skeg-rigging-net-resp3/src/tenant.rs:72-90 | every step keeps idle connections free of unread replies and every exchange matched |
| PoolTheorems.SocketCap | crates/skeg-rigging-net-resp3/src/pool.rs:49-52 | in every run the open sockets never exceed borrowed plus idle, which never exceed `max_total` |
| PoolTheorems.WaitsExactlyAtCap | crates/skeg-rigging-net-resp3/src/pool.rs:197-202 | the next acquire would wait if and only if `in_use` equals `max_total` |
| PoolTheorems.ExactAccounting | crates/skeg-rigging-net-resp3/src/pool.rs:142-175 | `in_use` is the number of live guards and connects under way, so no decrement underflows, and the queue respects `max_idle` |
| PoolTheorems.NoSharing | crates/skeg-rigging-net-resp3/src/pool.rs:30-33 | no connection is in two guards, two slots, or a guard and a slot |
| PoolTheorems.EvictsExactlyStale | crates/skeg-rigging-net-resp3/src/pool.rs:134-148 | at every acquire of every run the entries closed are exactly the stale ones: every fresh one stays queued but the oldest, which is lent whenever there is one |
| PoolTheorems.ReturnKeepsConnection | crates/skeg-rigging-net-resp3/src/pool.rs:232-245 | in every run, a connection handed back is queued last and stays open if and only if fewer than `max_idle` are queued, else closed; one place is given back and nothing else moves |
| PoolTheorems.FailureKeepsQueue | crates/skeg-rigging-net-resp3/src/pool.rs:162-173 | a failed connect and a discarded guard give back one place, wake at most one waiter and leave the queue as it is |
| PoolTheorems.FailedIsNeverReused | crates/skeg-rigging-net-resp3/src/tenant.rs:81-89 | in every run, a pooled connection on which anything failed is never queued or held by another task again, and is closed once its task lets go |
| PoolTheorems.NoLostWakeUp | crates/skeg-rigging-net-resp3/src/pool.rs:177-182 | while a task is parked, the free places do not outnumber the woken tasks |
| PoolTheorems.EveryReplyAnswersItsRequest | crates/skeg-rigging-net-resp3/src/tenant.rs:81-89 | in every history of pooled calls, errors and timeouts, each reply read answers the request of the call that read it |
| PoolTheorems.IdleIsSettled | crates/skeg-rigging-net-resp3/src/tenant.rs:150-162 | an idle connection has no unread reply and no half-written request |
| PoolLiveness.RankDrops | crates/skeg-rigging-net-resp3/src/pool.rs:132-183 | every step other than an arrival or a spurious wake-up strictly decreases a measure |
| PoolLiveness.RunsAreShort | crates/skeg-rigging-net-resp3/src/pool.rs:132-183 | `n` tasks of at most `c` calls make at most `n * (13 + 4c)` such steps under any schedule |
| PoolLiveness.StopsOnlyWhenAllDone | crates/skeg-rigging-net-resp3/src/pool.rs:124-184 | with `max_total` at least 1, a run that cannot continue has served every task |
| PoolLiveness.StrandsExactlyWithoutRoom | crates/skeg-rigging-net-resp3/src/pool.rs:149-182 | some run strands a task if and only if `max_total` is 0 |
| OwnedSource.Source.WithConn | crates/skeg-rigging-net-resp3/src/tenant.rs:77-80 | on an owned connection a closure's calls run on the same socket up to the first error, and the connection stays with whatever bytes are left on it |
| OwnedSource.OwnReplyExactlyWithoutResidue | crates/skeg-rigging-net-resp3/src/tenant.rs:77-80 | after any history of calls, whatever bytes arrive when, request and reply counts match and no request is torn if and only if every earlier call left without a reply had written nothing; then the next reply handed out is the call's own. Without a torn request it answers the request its place in line says; after a torn one nothing is proved of it |
| OwnedSource.NextInLine | crates/skeg-rigging-net-resp3/src/connection.rs:82-112 | from an honest server's bytes, however cut, the n-th reply read on a socket answers the n-th request written to it |
| OwnedSource.RepliesSoFarMeanOwnReply | crates/skeg-rigging-net-resp3/src/connection.rs:100-112 | what a caller can check: when every earlier call returned a value or a remote error, the next reply is the call's own |
| OwnedSource.WrongReply | crates/skeg-rigging-net-resp3/src/tenant.rs:77-80 | a codec, a server and two calls for which the second call returns successfully with a value that is not its own |
| OwnedSource.TimeoutShiftsReplies | crates/skeg-rigging-net-resp3/src/tenant.rs:77-80 | for every codec and every cut: after one timeout whose reply comes late, the next call returns that reply, and its own stays behind on the socket |
| Connection.Resp3Connection.Recv | crates/skeg-rigging-net-resp3/src/connection.rs:82-97 | the receive loop parses, reads and feeds until a frame, a parse error, end of file or a timeout |
| Connection.Resp3Connection.Call | crates/skeg-rigging-net-resp3/src/connection.rs:100-112 | one request written, one frame read; an error frame is consumed and reported as a remote error |
| Connection.Resp3Connection.Hello | crates/skeg-rigging-net-resp3/src/connection.rs:54-70 | the handshake succeeds exactly on a map or array reply; an error frame is an authentication failure |
| Connection.RequestOnTheWire | crates/skeg-rigging-net-resp3/src/connection.rs:100-107 | a call is framed as its command first and its arguments in order, each behind its length |
| Connection.HelloParts | crates/skeg-rigging-net-resp3/src/connection.rs:54-63 | the handshake sends `HELLO`, the version, and with credentials `AUTH`, user and password in that order |
| Connection.ChunkingIrrelevant | crates/skeg-rigging-net-resp3/src/connection.rs:82-97 | one receive answers as if the whole stream had been there, however the reads cut it |
| Connection.ReceivesWholeStream | crates/skeg-rigging-net-resp3/src/connection.rs:82-97 | any number of receives return what parsing the whole stream returns |
| Connection.EndOfFile | crates/skeg-rigging-net-resp3/src/connection.rs:91-94 | at the end of file a whole frame that came before is returned, and anything less is a protocol error, never a frame |
| Connection.RepliesInOrder | crates/skeg-rigging-net-resp3/src/connection.rs:82-97 | replies that the parser reads back, written in order, are received in order, one a receive |
| Framing.RequestsUnambiguous | crates/skeg-rigging-net-resp3/src/connection.rs:73-78 | a stream of framed requests can be cut into its first request and the rest in one way only |
| EnvelopeCodec.EncodeBinaryInner | crates/skeg-rigging-net/src/envelope.rs:189-227 | the encoder writes the format's bytes, plain or compressed, and exactly as many as it computed beforehand |
| EnvelopeCodec.EncodeSmallest | crates/skeg-rigging-net/src/envelope.rs:179-187 | picks the compressed form only when strictly shorter |
| EnvelopeCodec.DecodeTags | crates/skeg-rigging-net/src/envelope.rs:261-271 | reads the tags or reports the first short read or non-UTF-8 tag by index |
| Utf8.ValidExactly | crates/skeg-rigging-net/src/envelope.rs:265-270 | the tags accepted are exactly the shortest-form encodings of sequences of Unicode scalar values |
| EnvelopeCodec.DecodeEnvelope | crates/skeg-rigging-net/src/envelope.rs:248-301 | the cursor decoder gives the format's answer on every buffer, error cases in the code's order |
| EnvelopeLaws.CanonicalWire | crates/skeg-rigging-net/src/envelope.rs:248-287 | a stored record is read back exactly from its own encoding followed by anything |
| EnvelopeMeaning.RecordLaidOut | crates/skeg-rigging-net/src/envelope.rs:204-227 | every field of every bounded record stands at its place, integers little-endian, the flag bits, lengths and checksum as documented |
| EnvelopeMeaning.KnownRecord | crates/skeg-rigging-net/src/envelope.rs:189-227 | one record written out byte by byte, its checksum included |
| EnvelopeMeaning.DecodeExplained | crates/skeg-rigging-net/src/envelope.rs:233-243 | `decode` gives an envelope if and only if the buffer is JSON for it, or begins with the bytes of a bounded record that carries it |
| EnvelopeMeaning.DecodeRefuses | crates/skeg-rigging-net/src/envelope.rs:233-259 | the errors for empty buffers, unknown first bytes, malformed JSON and reserved flags |
| EnvelopeMeaning.PayloadRefused | crates/skeg-rigging-net/src/envelope.rs:289-294 | a whole record is refused only when its payload does not decompress within 64 MiB |
| EnvelopeTheorems.CanonicalForm | crates/skeg-rigging-net/src/envelope.rs:207-226 | an unflagged buffer decodes to `e` if and only if `e` is bounded and the buffer starts with `e`'s encoding |
| EnvelopeTheorems.RoundTrip | crates/skeg-rigging-net/src/envelope.rs:233-243 | auto-detected decoding of the plain form gives the envelope back exactly when no length is cut by a cast |
| EnvelopeTheorems.CastCutsTags | crates/skeg-rigging-net/src/envelope.rs:204-211 | an envelope of 65536 empty tags does not decode back |
| EnvelopeTheorems.PrefixFree | crates/skeg-rigging-net/src/envelope.rs:153-155 | no bounded envelope's encoding is a prefix of another's |
| EnvelopeTheorems.Truncation | crates/skeg-rigging-net/src/envelope.rs:325-333 | every strict prefix of every stored record, plain or compressed, is reported as truncated with its own length and the end of the field it was cut in, and as nothing else |
| EnvelopeTheorems.LengthEnlarged | crates/skeg-rigging-net/src/envelope.rs:273-280 | enlarging only the payload length is always reported as truncated, with the exact length needed |
| Crc32c.RunInjective | crates/skeg-rigging-net/src/envelope.rs:281 | for a fixed message the register after it determines the register before it |
| CrcDivision.ChecksumIsRemainder | crates/skeg-rigging-net/src/envelope.rs:224 | for every message the checksum is the complemented remainder of a long division by 0x11EDC6F41, as the standard prescribes |
| CrcVectors.KnownDigits | crates/skeg-rigging-net/src/envelope.rs:224 | the digits 1 to 9 have the checksum 0xE3069283 |
| CrcVectors.KnownZeros | crates/skeg-rigging-net/src/envelope.rs:224 | thirty-two zero bytes have the checksum 0x8A9136AA |
| Crc32c.BitBurstDetected | crates/skeg-rigging-net/src/envelope.rs:224-225 | equal registers rule out any difference confined to 32 consecutive bits, at any bit offset |
| Crc32c.BurstDetected | crates/skeg-rigging-net/src/envelope.rs:224-225 | equal checksums rule out any difference confined to four bytes |
| EnvelopeTheorems.PayloadBurst | crates/skeg-rigging-net/src/envelope.rs:276-287 | changing up to four consecutive payload bytes always yields a checksum mismatch with the stored and computed values |
| EnvelopeTheorems.TagBurst | crates/skeg-rigging-net/src/envelope.rs:263-287 | changing up to four consecutive bytes of one tag's text yields that tag's UTF-8 error, or else a checksum mismatch |
| EnvelopeTheorems.FlagsCorrupted | crates/skeg-rigging-net/src/envelope.rs:254-259 | no other flags byte is accepted, so corruption cannot make a record shareable |
| EnvelopeTheorems.TrailerCorrupted | crates/skeg-rigging-net/src/envelope.rs:280-287 | any other trailer yields a checksum mismatch |
| EnvelopeTheorems.ZstdRoundTrip | crates/skeg-rigging-net/src/envelope.rs:172-174 | the compressed form decodes back exactly when compression failed or the payload is within 64 MiB |
| EnvelopeTheorems.SmallestLength | crates/skeg-rigging-net/src/envelope.rs:179-187 | the smallest form's length is the common overhead plus the smaller stored payload |
| EnvelopeTheorems.SmallestRoundTrip | crates/skeg-rigging-net/src/envelope.rs:176-187 | the smallest form of a bounded envelope decodes back if and only if the payload is within 64 MiB or compressing it does not pay |
| EnvelopeTheorems.SmallestLosesLargePayload | crates/skeg-rigging-net/src/envelope.rs:289-294 | a lawful compressor and a bounded envelope whose smallest form is refused |
| Vsearch.KeysDiffer | crates/skeg-rigging-net/src/envelope.rs:371-376 | different record ids have different envelope keys |
| Vsearch.KeyText | crates/skeg-rigging-net/src/envelope.rs:371-376 | a key is `hansa:rec:` and the id in digits without leading zeros |
| Vsearch.EncodeVector | crates/skeg-rigging-net-resp3/src/connection.rs:121-127 | four little-endian bytes a component, in order |
| Vsearch.VectorCarried | crates/skeg-rigging-net-resp3/src/connection.rs:121-127 | component `i` stands in bytes `4i` to `4i+3`, the lowest first |
| Vsearch.VectorBytesInjective | crates/skeg-rigging-net-resp3/src/connection.rs:121-127 | the bytes determine the vector |
| Vsearch.ParseVsearch | crates/skeg-rigging-net-resp3/src/tenant.rs:348-391 | the pair loop returns the candidates in order or the first malformed id or score as an error |
| Vsearch.ReplyRestored | crates/skeg-rigging-net-resp3/src/tenant.rs:348-391 | ids in decimal or as signed integers, and scores as doubles or text, all come back in order; the reply is refused exactly when a textual score is no number |
| Vsearch.ReplyMeans | crates/skeg-rigging-net-resp3/src/tenant.rs:348-391 | a reply gives candidates if and only if it is an array of ids (digits, one plus allowed, below 2^64, or integers) and scores that stand for them in order; any other is a protocol error |
| Decimal.ParsePrinted | crates/skeg-rigging-net-resp3/src/tenant.rs:367-370 | parsing a printed number gives it back below the limit and fails at or above it |
| Decimal.ParsesExactly | crates/skeg-rigging-net-resp3/src/tenant.rs:357-362 | a text parses to a number if and only if it is its digits, after one plus sign at most, below the limit |
| Assembly.Assemble | crates/skeg-rigging-net-resp3/src/tenant.rs:304-340 | the loop with early exit returns the first accepted rows, or the error a bad row causes |
| Assembly.ErrorExactlyOnEarlyBadRow | crates/skeg-rigging-net-resp3/src/tenant.rs:307-317 | an error if and only if a non-bulk or undecodable row has fewer than `top_k` accepted rows before it |
| Assembly.RowsExplained | crates/skeg-rigging-net-resp3/src/tenant.rs:304-340 | in terms of the rows: failure exactly when a row neither missing nor decodable comes before the `top_k`-th accepted one; otherwise each accepted row, at its rank, is a hit with its candidate's id and score and its record's payload |
| Assembly.AllRowsSound | crates/skeg-rigging-net-resp3/src/tenant.rs:324-338 | without bad rows the hits are the first `top_k` accepted ones, fewer only if there are fewer |
| Assembly.OrderKept | crates/skeg-rigging-net-resp3/src/tenant.rs:304-340 | whatever pairwise order the candidates' scores are in, the hits' similarities are in |
| Assembly.ZeroMeansOne | crates/skeg-rigging-net-resp3/src/tenant.rs:336-338 | for `top_k` 0 the answer is the first accepted row before any bad one, else the bad row's error, else nothing |
| Assembly.LimitPerReply | crates/skeg-rigging-net-resp3/src/tenant.rs:336-338 | a reply brings at most `top_k` hits if and only if `top_k` is at least 1 or no row is accepted before the first bad one |
| Assembly.LimitExactlyAboveZero | crates/skeg-rigging-net-resp3/src/tenant.rs:336-338 | no reply brings more than `top_k` hits if and only if `top_k` is at least 1 |
| Assembly.OversamplingRange | crates/skeg-rigging-net-resp3/src/tenant.rs:26-31 | full replies of which a quarter is accepted give exactly `top_k` hits if and only if `top_k` is from 1 to 2^30 |
| Store.Resp3Writer.InsertRecord | crates/skeg-rigging-net-resp3/src/writer.rs:72-118 | dimension check, VSET, then SET of the binary envelope, stopping at the first error; what the two commands store is `Refinement.InsertRefines` |
| Store.Resp3Tenant.SearchAndFetch | crates/skeg-rigging-net-resp3/src/tenant.rs:271-302 | VSEARCH then MGET of the candidates' keys, no MGET without candidates; between and before them only other clients change the store |
| Store.SearchAsks | crates/skeg-rigging-net-resp3/src/tenant.rs:263-281 | the request names the reader's index, then `max(4 * top_k, 64)` (saturated) in digits, then the effort 100, then the query's components in four bytes each |
| Store.Resp3Tenant.QueryFiltered | crates/skeg-rigging-net-resp3/src/tenant.rs:250-341 | the whole query against a byte store that others keep writing to, every error path included |
| Store.AnswerFails | crates/skeg-rigging-net-resp3/src/tenant.rs:255-302 | a dimension mismatch, an I/O error, any other network error, a reply that does not parse and an MGET reply that is no array each give their own error |
| Refinement.InsertRefines | crates/skeg-rigging-net-resp3/src/writer.rs:72-118 | wherever an insert stops, and whatever others write between its two requests, records and vectors still represent the two plain maps: the vector stored under its index and id exactly when VSET was executed, the record exactly when SET was; the writer is told the first error. Excepted is an insert sent after half a request on the same connection |
| Refinement.HitsOfRows | crates/skeg-rigging-net-resp3/src/tenant.rs:287-299 | MGET rows pair with their candidates, missing envelopes are skipped, and no row is bad |
| Refinement.QueryRefines | crates/skeg-rigging-net-resp3/src/tenant.rs:267-340 | while others write, a query ranks the vectors at VSEARCH and gives the error of the first of its round trips that fails, or `IndexCorrupted` exactly when a textual score is no number, or else filter-then-take of the candidates over the plain records at MGET; only a foreign value read as its reply is excluded |
| Refinement.EndToEnd | crates/skeg-rigging-net-resp3/src/writer.rs:70-118 | after any inserts, none of them sent after half a request on the same connection, under any other faults and with other clients writing any form between any two requests, a query ranks the vectors stored last and returns the ids, scores and payloads of the records stored last, or its own failing round trip's error |
| Refinement.AskedAndAnswered | crates/skeg-rigging-net-resp3/src/tenant.rs:263-340 | a server that returns as many pairs as the request's count asks for, a quarter of them with accepted records, yields exactly `top_k` hits for `top_k` from 1 to 2^30 |
| Refinement.EveryFormIsSound | crates/skeg-rigging-net/src/envelope.rs:13-27 | records written by others as JSON, plain, compressed or smallest binary count the same in the refinement |
| TornWriter.SafeExactlyWhenClean | crates/skeg-rigging-net-resp3/src/writer.rs:72-118 | the bytes represent the plain map all along, whatever a server makes of garbled requests, if and only if no insert is sent after half a request on the same connection |
| TornWriter.CarefulIsClean | crates/skeg-rigging-net-resp3/src/writer.rs:72-118 | what a caller can do: when the writer is replaced after every I/O error, no insert is sent after half a request |
| TornWriter.DamageIsOnTheWire | crates/skeg-rigging-net-resp3/src/connection.rs:73-78 | the bytes of the half SET and the VSET after it begin with a whole SET of a damaged value and can be read in no other way |
| TornWriter.ReusedWriterCorrupts | crates/skeg-rigging-net-resp3/src/writer.rs:86-117 | a writer whose SET stopped four bytes short inserts again on its connection; a later fault-free query fails with `IndexCorrupted`, for every bounded record whose encoding does not end in `*4` |
| Location.Unambiguous | crates/skeg-rigging-net/src/location.rs:51-78 | a string parses to a `resp3://` location if and only if it is that location printed and the location is printable |
| Location.OtherSchemes | crates/skeg-rigging-net/src/location.rs:52-91 | exactly which strings are paths, HTTP locations or unknown schemes |
| Location.RefusedAddresses | crates/skeg-rigging-net/src/location.rs:57-78 | a `resp3://` address is refused for credentials without a colon, and otherwise for a missing endpoint |
| VindexInfo.ResolveIndex | crates/skeg-rigging-net-resp3/src/tenant.rs:187-229 | the nested loops return the first matching row's dimension and count, or the code's error |
| VindexInfo.RowsResolve | crates/skeg-rigging-net-resp3/src/tenant.rs:200-229 | printed rows, as text or bytes and among any others, resolve to the first row of the requested name: an error without a dimension below 2^32, and zero without a count below 2^64 |
| VindexInfo.LastWordDecides | crates/skeg-rigging-net-resp3/src/tenant.rs:206-219 | of several words for one field the last decides, divided at its first equals sign, even when its number does not parse |

## Left out

- Sockets, real durations, TCP options and thread creation: they appear as steps that may succeed, fail, stop midway or never answer.
- Mutex poisoning, panics inside closures, and callers that use `acquire` and `conn_mut` directly with unmatched sends.
- A thread that acquires a second connection while holding a guard of the same pool: each task acquires once, so such a self-made deadlock is outside the termination result.
- PoolMachine: `acquire` as one blocking call is not a method, because its wait hands control to other tasks; its passes through the loop are separate steps of the machine.
- ZstdRoundTrip: says nothing about envelopes whose tags or stored payload exceed the length fields.
- Length-field corruption other than an enlarged payload length: a shrunken or shifted layout is checked by the checksum only with high probability.
- The `skeg-rigging-net-http` crate: file serving and HTTP routing.
- The bodies of the RESP3, zstd and JSON libraries, which are not part of this model; floating-point arithmetic.
- Error message texts, trait boilerplate, `iter_vectors` (always empty), constructors that only store fields, index creation and dropping in the writer.
