/** Worked cases of `read_in_loop`, among them the one of its doc comment. */
module FramingExamples {
  import opened Framing

  /**
   * The doc comment's case: an 8000-byte vector and 8001 bytes sent as 8000
   * then 1. The first read fills the vector, which doubles to 16000; the
   * second leaves room, and the count is 8001.
   */
  lemma DocExample(first: seq<u8>, second: seq<u8>)
    requires |first| == 8000 && |second| == 1
    ensures Fits([Received(first), Received(second)], 8000, 0)
    ensures var r := ReadLoop([Received(first), Received(second)], Zeros(8000), 0);
            r.total == 8001 && |r.buf| == 16000 && r.buf[..8001] == first + second && r.doublings == 1
  {
    var outs := [Received(first), Received(second)];
    assert outs[1..] == [Received(second)];
    assert outs[1..][1..] == [];
    var next := Zeros(8000)[..0] + first + Zeros(8000)[8000..] + Zeros(8000);
    assert next[..8000] + second + next[8001..] == first + second + next[8001..];
  }

  /** A request of exactly 8193 bytes fills the initial vector: one more read, of 0 bytes, ends it. */
  lemma ExactFill(request: seq<u8>)
    requires |request| == 8193
    ensures Fits([Received(request)], 8193, 0)
    ensures var r := ReadLoop([Received(request)], Zeros(8193), 0);
            r.total == 8193 && |r.buf| == 16386 && r.buf[..8193] == request && r.calls == 1
  {
    var outs := [Received(request)];
    assert outs[1..] == [];
    assert (Zeros(8193)[..0] + request + Zeros(8193)[8193..] + Zeros(8193))[..8193] == request;
  }

  /** A peer that closes at once: the count is 0 and the vector is untouched. */
  lemma ClosedAtOnce(len: nat)
    ensures Fits([Received([])], len, 0)
    ensures ReadLoop([Received([])], Zeros(len), 0) == Framed(0, Zeros(len), 1, 0, false)
  {
  }

  /** An error after a full read discards what was read: the count is 0, but the vector stays doubled. */
  lemma FailureAfterFullRead(first: seq<u8>)
    requires 0 < |first|
    ensures Fits([Received(first), Failed], |first|, 0)
    ensures var r := ReadLoop([Received(first), Failed], Zeros(|first|), 0);
            r.total == 0 && r.failed && |r.buf| == 2 * |first|
  {
    var outs := [Received(first), Failed];
    assert outs[1..] == [Failed];
  }
}
