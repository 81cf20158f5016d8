/**
 * `read_in_loop` (src/server/app.rs, and the identical copy in src/app.rs):
 * the grow-until-short-read framing loop. The socket is a script of read
 * outcomes; the `Vec<u8>` is a growable byte vector whose storage is replaced
 * by a larger one when it doubles.
 */
module Framing {

  /** An unsigned byte. */
  newtype u8 = x: int | 0 <= x < 0x100

  /** One call of `read`: the bytes it delivered (none once the peer has closed), or an I/O error. */
  datatype ReadOutcome = Received(bytes: seq<u8>) | Failed

  /** `n` zero bytes. */
  function Zeros(n: nat): (z: seq<u8>)
    ensures |z| == n && forall i :: 0 <= i < n ==> z[i] == 0
  {
    seq(n, _ => 0)
  }

  function Pow2(k: nat): (p: nat)
    ensures p >= 1
  {
    if k == 0 then 1 else 2 * Pow2(k - 1)
  }

  /** The length `len` reaches after `k` doublings. */
  function Doubled(len: nat, k: nat): (d: nat)
    ensures d >= len
    decreases k
  {
    if k == 0 then len else Doubled(2 * len, k - 1)
  }

  /** After `k` doublings the length is `len * 2^k`. */
  lemma {:induction false} DoubledIsPow2(len: nat, k: nat)
    ensures Doubled(len, k) == len * Pow2(k)
    decreases k
  {
    if k > 0 {
      DoubledIsPow2(2 * len, k - 1);
      assert 2 * len * Pow2(k - 1) == len * (2 * Pow2(k - 1));
    }
  }

  /** The bytes a run of reads delivered, in order; a failed read delivers none. */
  function Delivered(outs: seq<ReadOutcome>): seq<u8> {
    if outs == [] then []
    else (match outs[0] case Received(d) => d case Failed => []) + Delivered(outs[1..])
  }

  /**
   * The script honours the contract of `read`: each read the loop reaches
   * delivers no more bytes than the unfilled tail `buf[m..]` holds, for the
   * buffer length `len` the loop has grown to by then.
   */
  predicate Fits(outs: seq<ReadOutcome>, len: nat, m: nat)
    decreases |outs|
  {
    outs == [] || match outs[0]
      case Failed => true
      case Received(d) => m + |d| <= len && (|d| == 0 || m + |d| < len || Fits(outs[1..], 2 * len, m + |d|))
  }

  /**
   * What the loop leaves behind: the count it returns, the buffer, the number
   * of reads it made, how often it doubled the buffer, and whether the last
   * read failed.
   */
  datatype Framed = Framed(total: nat, buf: seq<u8>, calls: nat, doublings: nat, failed: bool)

  /**
   * The loop from `m` bytes already in `buf`: a read of 0 bytes stops with
   * `m`; a read of `n` with `n < len - m` stops with `m + n`; a read that
   * fills the tail exactly doubles the buffer (zero-filled) and goes on from
   * `m + n`; a failed read stops with 0. A script that runs out stands for a
   * peer that has closed, whose next read delivers 0 bytes.
   */
  function ReadLoop(outs: seq<ReadOutcome>, buf: seq<u8>, m: nat): (r: Framed)
    requires m <= |buf| && Fits(outs, |buf|, m)
    ensures r.calls <= |outs| && r.total <= |r.buf|
    decreases |outs|
  {
    if outs == [] then Framed(m, buf, 0, 0, false)
    else match outs[0]
      case Failed => Framed(0, buf, 1, 0, true)
      case Received(d) =>
        var n := |d|;
        var written := buf[..m] + d + buf[m + n..];
        if n == 0 then Framed(m, buf, 1, 0, false)
        else if n < |buf| - m then Framed(m + n, written, 1, 0, false)
        else
          var rest := ReadLoop(outs[1..], written + Zeros(|buf|), m + n);
          rest.(calls := rest.calls + 1, doublings := rest.doublings + 1)
  }

  /**
   * What the loop leaves behind, `r`: it makes at most one read per outcome
   * and doubles at most once per read, the buffer has the doubled length, the
   * first `m` bytes are kept, a failure is exactly a last read that failed
   * and returns 0, and otherwise the count never falls below `m`.
   */
  ghost predicate Shaped(outs: seq<ReadOutcome>, buf: seq<u8>, m: nat, r: Framed)
    requires m <= |buf|
  {
    && r.calls <= |outs| && r.doublings <= r.calls
    && |r.buf| == Doubled(|buf|, r.doublings)
    && r.total <= |r.buf| && m <= |r.buf| && r.buf[..m] == buf[..m]
    && (r.failed <==> 0 < r.calls && outs[r.calls - 1] == Failed)
    && (r.failed ==> r.total == 0)
    && (!r.failed ==> m <= r.total)
  }

  /** The loop always leaves a `Shaped` result. */
  lemma {:induction false} ReadLoopShape(outs: seq<ReadOutcome>, buf: seq<u8>, m: nat)
    requires m <= |buf| && Fits(outs, |buf|, m)
    ensures Shaped(outs, buf, m, ReadLoop(outs, buf, m))
    decreases |outs|
  {
    if outs != [] && outs[0].Received? && 0 < |outs[0].bytes| && |buf| - m <= |outs[0].bytes| {
      var next := buf[..m] + outs[0].bytes + Zeros(|buf|);
      ReadLoopFull(outs, buf, m);
      ReadLoopShape(outs[1..], next, |buf|);
      ShapeBump(outs, buf, m, outs[0].bytes, next, ReadLoop(outs[1..], next, |buf|));
    } else {
      ShapeStops(outs, buf, m);
    }
  }

  /** A loop that stops at its first read (or makes none) leaves a `Shaped` result. */
  lemma ShapeStops(outs: seq<ReadOutcome>, buf: seq<u8>, m: nat)
    requires m <= |buf| && Fits(outs, |buf|, m)
    requires !(outs != [] && outs[0].Received? && 0 < |outs[0].bytes| && |buf| - m <= |outs[0].bytes|)
    ensures Shaped(outs, buf, m, ReadLoop(outs, buf, m))
  {
    if outs != [] && outs[0].Received? {
      var d := outs[0].bytes;
      assert (buf[..m] + d + buf[m + |d|..])[..m] == buf[..m];
    }
  }

  /** A read of `d` that fills the tail keeps the shape of what the rest of the loop, `rest`, leaves. */
  lemma ShapeBump(outs: seq<ReadOutcome>, buf: seq<u8>, m: nat, d: seq<u8>, next: seq<u8>, rest: Framed)
    requires m <= |buf| && outs != [] && outs[0] == Received(d) && m + |d| == |buf|
    requires next == buf[..m] + d + Zeros(|buf|)
    requires Shaped(outs[1..], next, |buf|, rest)
    ensures Shaped(outs, buf, m, rest.(calls := rest.calls + 1, doublings := rest.doublings + 1))
  {
    assert next[..m] == buf[..m];
    assert rest.buf[..m] == rest.buf[..|buf|][..m];
    if 0 < rest.calls {
      assert outs[1..][rest.calls - 1] == outs[rest.calls];
    }
  }

  /** The first read of a prefix, and the reads after it. */
  lemma DeliveredCons(outs: seq<ReadOutcome>, k: nat)
    requires 0 < k <= |outs| && outs[0].Received?
    ensures Delivered(outs[..k]) == outs[0].bytes + Delivered(outs[1..][..k - 1])
  {
    assert outs[..k][1..] == outs[1..][..k - 1];
  }

  /** A read that fills the tail exactly: the loop goes on from the doubled buffer. */
  lemma ReadLoopFull(outs: seq<ReadOutcome>, buf: seq<u8>, m: nat)
    requires m <= |buf| && Fits(outs, |buf|, m)
    requires outs != [] && outs[0].Received? && 0 < |outs[0].bytes| && m + |outs[0].bytes| == |buf|
    ensures Fits(outs[1..], 2 * |buf|, |buf|)
    ensures var r := ReadLoop(outs, buf, m);
            var rest := ReadLoop(outs[1..], buf[..m] + outs[0].bytes + Zeros(|buf|), |buf|);
            r == rest.(calls := rest.calls + 1, doublings := rest.doublings + 1)
  {
    var d := outs[0].bytes;
    var n := |d|;
    assert buf[m + n..] == [];
    var written := buf[..m] + d + buf[m + n..];
    assert written == buf[..m] + d;
    var rest := ReadLoop(outs[1..], written + Zeros(|buf|), m + n);
    assert ReadLoop(outs, buf, m) == rest.(calls := rest.calls + 1, doublings := rest.doublings + 1);
  }

  /** A read that leaves room (or brings nothing) ends the loop with the bytes written. */
  lemma ReadLoopShort(outs: seq<ReadOutcome>, buf: seq<u8>, m: nat, filled: seq<u8>)
    requires m <= |buf| && outs != [] && outs[0].Received?
    requires |outs[0].bytes| == 0 || |outs[0].bytes| < |buf| - m
    requires filled == buf[..m] + outs[0].bytes + buf[m + |outs[0].bytes|..]
    ensures ReadLoop(outs, buf, m).total == m + |outs[0].bytes|
    ensures ReadLoop(outs, buf, m).buf == filled
  {
  }

  /**
   * The framing contract: unless a read failed, the bytes the loop counts are
   * exactly the bytes already there followed by every byte the reads
   * delivered, in order.
   */
  lemma {:induction false} ReadLoopDelivers(outs: seq<ReadOutcome>, buf: seq<u8>, m: nat)
    requires m <= |buf| && Fits(outs, |buf|, m)
    ensures var r := ReadLoop(outs, buf, m);
            !r.failed ==> r.total == m + |Delivered(outs[..r.calls])| && r.buf[..r.total] == buf[..m] + Delivered(outs[..r.calls])
    decreases |outs|
  {
    if outs == [] {
      assert outs[..0] == [];
    } else if outs[0].Received? {
      var d := outs[0].bytes;
      if |d| == 0 || |d| < |buf| - m {
        DeliversShort(outs, buf, m);
      } else {
        var next := buf[..m] + d + Zeros(|buf|);
        ReadLoopFull(outs, buf, m);
        ReadLoopDelivers(outs[1..], next, |buf|);
        assert next[..|buf|] == buf[..m] + d;
        DeliversBump(outs, buf[..m], d, ReadLoop(outs[1..], next, |buf|));
      }
    }
  }

  /** A read that leaves room (or brings nothing) delivers its bytes after the first `m`. */
  lemma DeliversShort(outs: seq<ReadOutcome>, buf: seq<u8>, m: nat)
    requires m <= |buf| && Fits(outs, |buf|, m)
    requires outs != [] && outs[0].Received? && (|outs[0].bytes| == 0 || |outs[0].bytes| < |buf| - m)
    ensures var r := ReadLoop(outs, buf, m);
            !r.failed && r.total == m + |Delivered(outs[..r.calls])| && r.buf[..r.total] == buf[..m] + Delivered(outs[..r.calls])
  {
    var d := outs[0].bytes;
    var filled := buf[..m] + d + buf[m + |d|..];
    ReadLoopShort(outs, buf, m, filled);
    DeliveredCons(outs, 1);
    assert Delivered(outs[..1]) == d;
    assert filled[..m + |d|] == buf[..m] + d;
  }

  /**
   * A read of `d` that fills the tail: if the rest of the loop, `rest`, counts
   * `prefix + d` and then what the later reads delivered, the whole loop counts
   * `prefix` and then what every read delivered.
   */
  lemma DeliversBump(outs: seq<ReadOutcome>, prefix: seq<u8>, d: seq<u8>, rest: Framed)
    requires outs != [] && outs[0] == Received(d) && rest.calls < |outs|
    requires !rest.failed ==> && rest.total == |prefix| + |d| + |Delivered(outs[1..][..rest.calls])|
                              && rest.total <= |rest.buf|
                              && rest.buf[..rest.total] == prefix + d + Delivered(outs[1..][..rest.calls])
    ensures var r := rest.(calls := rest.calls + 1, doublings := rest.doublings + 1);
            !r.failed ==> r.total == |prefix| + |Delivered(outs[..r.calls])| && r.buf[..r.total] == prefix + Delivered(outs[..r.calls])
  {
    if !rest.failed {
      DeliveredCons(outs, rest.calls + 1);
      assert prefix + d + Delivered(outs[1..][..rest.calls]) == prefix + (d + Delivered(outs[1..][..rest.calls]));
    }
  }

  /** If the buffer's tail is zero to begin with and no read fails, the part past the counted bytes is zero at the end. */
  lemma {:induction false} ReadLoopZeroTail(outs: seq<ReadOutcome>, buf: seq<u8>, m: nat)
    requires m <= |buf| && Fits(outs, |buf|, m)
    requires forall k :: m <= k < |buf| ==> buf[k] == 0
    ensures var r := ReadLoop(outs, buf, m);
            !r.failed ==> forall k :: r.total <= k < |r.buf| ==> r.buf[k] == 0
    decreases |outs|
  {
    if outs != [] && outs[0].Received? {
      var d := outs[0].bytes;
      var n := |d|;
      if 0 < n && n >= |buf| - m {
        ReadLoopFull(outs, buf, m);
        ReadLoopZeroTail(outs[1..], buf[..m] + d + Zeros(|buf|), m + n);
      }
    }
  }

  /** The vector `buf` of `read_in_loop`; `Resize` replaces its storage as `Vec::resize` may. */
  class ByteVec {
    var data: array<u8>

    /** `vec![0u8; len]`. */
    constructor (len: nat)
      ensures fresh(data) && data[..] == Zeros(len)
    {
      data := new u8[len](_ => 0);
    }

    /** `resize(newLen, 0u8)` for a larger length: the old bytes, then zeros. */
    method Resize(newLen: nat)
      requires data.Length <= newLen
      modifies this
      ensures fresh(data) && data[..] == old(data[..]) + Zeros(newLen - old(data.Length))
    {
      var grown := new u8[newLen](_ => 0);
      forall k | 0 <= k < data.Length {
        grown[k] := data[k];
      }
      data := grown;
    }

    /** A read delivering `bytes` into `buf[m..]`. */
    method Fill(m: nat, bytes: seq<u8>)
      requires m + |bytes| <= data.Length
      modifies data
      ensures data[..] == old(data[..m]) + bytes + old(data[m + |bytes|..])
    {
      forall k | 0 <= k < |bytes| {
        data[m + k] := bytes[k];
      }
    }
  }

  /**
   * One pass of the loop body: the read writes `bytes` into `buf[m..]`, and a
   * read that fills the tail exactly doubles the vector. `grown` says whether
   * the loop goes on.
   */
  method ReadStep(buf: ByteVec, m: nat, bytes: seq<u8>) returns (grown: bool)
    requires m + |bytes| <= buf.data.Length
    modifies buf, buf.data
    ensures grown <==> 0 < |bytes| && m + |bytes| == old(buf.data.Length)
    ensures grown ==> fresh(buf.data) && buf.data[..] == old(buf.data[..m]) + bytes + Zeros(old(buf.data.Length))
    ensures !grown ==> buf.data == old(buf.data) && buf.data[..] == old(buf.data[..m]) + bytes + old(buf.data[m + |bytes|..])
  {
    ghost var before := buf.data[..];
    buf.Fill(m, bytes);
    var n := |bytes|;
    if n == 0 || n < buf.data.Length - m {
      return false;
    }
    assert buf.data[..] == before[..m] + bytes;
    buf.Resize(buf.data.Length * 2);
    return true;
  }

  /**
   * One turn of the loop of `read_in_loop` on the reads still to come: an
   * error or a read that leaves room ends the loop (`done`) with the count
   * `ReadLoop` gives; a read that fills the tail hands the loop on to the
   * remaining reads, from the new count, with the same outcome.
   */
  method ReadPass(outs: seq<ReadOutcome>, buf: ByteVec, m: nat) returns (done: bool, count: nat)
    requires outs != [] && m <= buf.data.Length && Fits(outs, buf.data.Length, m)
    modifies buf, buf.data
    ensures buf.data == old(buf.data) || fresh(buf.data)
    ensures var r := ReadLoop(outs, old(buf.data[..]), m);
            done ==> count == r.total && buf.data[..] == r.buf
    ensures var r := ReadLoop(outs, old(buf.data[..]), m);
            !done ==> && count <= buf.data.Length && Fits(outs[1..], buf.data.Length, count)
                      && ReadLoop(outs[1..], buf.data[..], count).total == r.total
                      && ReadLoop(outs[1..], buf.data[..], count).buf == r.buf
  {
    match outs[0] {
      case Failed =>
        return true, 0;
      case Received(d) =>
        ghost var before := buf.data[..];
        var grown := ReadStep(buf, m, d);
        if !grown {
          ReadLoopShort(outs, before, m, buf.data[..]);
          return true, m + |d|;
        }
        ReadLoopFull(outs, before, m);
        return false, m + |d|;
    }
  }

  /**
   * `read_in_loop`: starts at `m = 0` and follows `ReadLoop`; the vector ends
   * as `ReadLoop` leaves it, and the count it returns is `ReadLoop`'s.
   */
  method ReadInLoop(outs: seq<ReadOutcome>, buf: ByteVec) returns (total: nat)
    requires Fits(outs, buf.data.Length, 0)
    modifies buf, buf.data
    ensures buf.data == old(buf.data) || fresh(buf.data)
    ensures total == ReadLoop(outs, old(buf.data[..]), 0).total
    ensures buf.data[..] == ReadLoop(outs, old(buf.data[..]), 0).buf
  {
    ghost var goal := ReadLoop(outs, buf.data[..], 0);
    var m: nat := 0;
    var i: nat := 0;
    while true
      invariant 0 <= i <= |outs| && m <= buf.data.Length
      invariant buf.data == old(buf.data) || fresh(buf.data)
      invariant Fits(outs[i..], buf.data.Length, m)
      invariant var r := ReadLoop(outs[i..], buf.data[..], m); (r.total, r.buf) == (goal.total, goal.buf)
      decreases |outs| - i
    {
      if i == |outs| {
        // the peer has closed: the next read delivers 0 bytes
        return m;
      }
      var done, count := ReadPass(outs[i..], buf, m);
      if done {
        return count;
      }
      assert outs[i..][1..] == outs[i + 1..];
      m, i := count, i + 1;
    }
  }
}
