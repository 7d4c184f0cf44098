/**
 * A scripted stand-in for the frame reader and the writer the handshake runs over.
 * The reader yields the frames of `inbox` in order and reports the end of the
 * stream once they are used up; the writer accepts `writable` more requests and
 * fails after that. Every accepted request is appended to `sent`.
 */
module Transport {
  import opened Rpc

  /** What one `FrameReader::receive_message` call yields: `Ok(Some(m))`, `Ok(None)` or `Err(e)`. */
  datatype Incoming = Frame(message: RpcResponse) | EndOfStream | ReadError(cause: string)

  /** The observable state of a reader/writer pair. */
  datatype Wire = Wire(inbox: seq<Incoming>, sent: seq<RpcRequest>, writable: nat)

  /** Writing one request: accepted and logged while the writer has room, refused otherwise. */
  function Send(w: Wire, rq: RpcRequest): (bool, Wire)
  {
    if w.writable > 0 then (true, w.(sent := w.sent + [rq], writable := w.writable - 1))
    else (false, w)
  }

  /** Reading one frame: the next scripted frame, or the end of the stream when none is left. */
  function Receive(w: Wire): (Incoming, Wire)
  {
    if w.inbox == [] then (EndOfStream, w) else (w.inbox[0], w.(inbox := w.inbox[1..]))
  }

  /** A reader/writer pair owned by one handshake; its fields change as frames move. */
  class Connection {
    var inbox: seq<Incoming>
    var sent: seq<RpcRequest>
    var writable: nat

    function State(): Wire
      reads this
    {
      Wire(inbox, sent, writable)
    }

    constructor (inbox: seq<Incoming>, writable: nat)
      ensures State() == Wire(inbox, [], writable)
    {
      this.inbox := inbox;
      this.sent := [];
      this.writable := writable;
    }

    /** `connection::send_message`: true when the request was written. */
    method SendMessage(rq: RpcRequest) returns (ok: bool)
      modifies this
      ensures (ok, State()) == Send(old(State()), rq)
    {
      ok := writable > 0;
      if ok {
        sent := sent + [rq];
        writable := writable - 1;
      }
    }

    /** `FrameReader::receive_message`: the next frame, end of stream, or a read error. */
    method ReceiveMessage() returns (m: Incoming)
      modifies this
      ensures (m, State()) == Receive(old(State()))
    {
      if inbox == [] {
        m := EndOfStream;
      } else {
        m := inbox[0];
        inbox := inbox[1..];
      }
    }
  }
}
