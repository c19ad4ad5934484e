/** RESP3 frames and the client's errors, as far as the transport looks into them. */
module Resp3 {
  import opened Bytes

  /** Code points; byte strings are texts whose code points are below 256. */
  type Text = seq<nat>

  datatype Frame =
    | Simple(text: Text)
    | Error(message: Text)
    | Integer(i: int)
    | Double(bits: u64)
    | Bulk(b: bytes)
    | Null
    | Array(items: seq<Frame>)
    | Map(pairs: seq<(Frame, Frame)>)
    | Other

  datatype NetError = Io | Protocol | Auth(message: Text) | Remote(message: Text)

  /** What `call` makes of a received frame. */
  function CallResult(reply: Result<Frame, NetError>): Result<Frame, NetError> {
    match reply
    case Ok(Error(message)) => Err(Remote(message))
    case _ => reply
  }
}
