/**
 * `process` (src/server/app.rs, and the identical copy in src/app.rs): one
 * client connection. The request is read into an 8193-byte vector, the
 * backend is dialled, the request is forwarded, and the reply is read into
 * the same vector, from offset 0, and sent back unless it is empty.
 */
module Proxy {
  import opened Wrappers
  import opened Framing

  /** The initial length of the vector of `process`. */
  const INITIAL_BUFFER: nat := 8193

  /**
   * `process`, with the client's and the backend's reads as scripts and the
   * outcome of `TcpStream::connect` as `connected`. `forwarded` is what is
   * written to the backend and `reply` what is written back to the client;
   * `None` means that write does not happen.
   */
  method Process(client: seq<ReadOutcome>, connected: bool, backend: seq<ReadOutcome>)
      returns (forwarded: Option<seq<u8>>, reply: Option<seq<u8>>)
    requires Fits(client, INITIAL_BUFFER, 0)
    requires Fits(backend, |ReadLoop(client, Zeros(INITIAL_BUFFER), 0).buf|, 0)
    ensures var request := ReadLoop(client, Zeros(INITIAL_BUFFER), 0);
            && (forwarded.Some? <==> connected)
            && (connected && request.failed ==> forwarded == Some([]))
            && (connected && !request.failed ==> forwarded == Some(Delivered(client[..request.calls])))
    ensures var request := ReadLoop(client, Zeros(INITIAL_BUFFER), 0);
            var response := ReadLoop(backend, request.buf, 0);
            && (reply.Some? <==> connected && 0 < response.total)
            && (reply.Some? ==> reply == Some(Delivered(backend[..response.calls])))
  {
    var buf := new ByteVec(INITIAL_BUFFER);
    ghost var request := ReadLoop(client, buf.data[..], 0);
    var total := ReadInLoop(client, buf);
    ReadLoopShape(client, Zeros(INITIAL_BUFFER), 0);
    ReadLoopDelivers(client, Zeros(INITIAL_BUFFER), 0);
    if !connected {
      // "failed to open socket 2"
      return None, None;
    }
    assert Zeros(INITIAL_BUFFER)[..0] + Delivered(client[..request.calls]) == Delivered(client[..request.calls]);
    forwarded := Some(buf.data[..total]);
    ghost var response := ReadLoop(backend, buf.data[..], 0);
    var total2 := ReadInLoop(backend, buf);
    ReadLoopShape(backend, request.buf, 0);
    ReadLoopDelivers(backend, request.buf, 0);
    assert request.buf[..0] + Delivered(backend[..response.calls]) == Delivered(backend[..response.calls]);
    if total2 == 0 {
      return forwarded, None;
    }
    reply := Some(buf.data[..total2]);
  }
}
