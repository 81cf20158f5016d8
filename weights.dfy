/**
 * The per-server slot of src/weight.rs: a server address, a fixed weight and
 * a request counter that `next_request` advances or resets.
 */
module Weights {
  import opened Wrappers
  import opened Addresses

  /** The observable state of one `Weight`: its address, its weight and its counter. */
  datatype Slot = Slot(address: SocketAddress, weight: nat, counter: nat)

  /** The counter never passes the weight. */
  predicate Bounded(s: Slot) {
    s.counter <= s.weight
  }

  /**
   * `next_request` on a slot state: the address it hands out (`None` once the
   * weight is used up) and the state it leaves behind.
   */
  function Request(s: Slot): (r: (Option<SocketAddress>, Slot))
    ensures r.1.address == s.address && r.1.weight == s.weight
    ensures r.0.Some? ==> r.0.value == s.address
    ensures Bounded(s) ==> Bounded(r.1)
  {
    if s.counter == s.weight then (None, s.(counter := 0))
    else (Some(s.address), s.(counter := s.counter + 1))
  }

  /** `k` calls of `next_request` in a row: what each returned, and the final state. */
  function Requests(s: Slot, k: nat): (r: (seq<Option<SocketAddress>>, Slot))
    ensures |r.0| == k
    ensures r.1.address == s.address && r.1.weight == s.weight
    decreases k
  {
    if k == 0 then ([], s)
    else
      var first := Request(s);
      var rest := Requests(first.1, k - 1);
      ([first.0] + rest.0, rest.1)
  }

  /** `n` copies of `x`. */
  function Repeat<T>(x: T, n: nat): (r: seq<T>)
    ensures |r| == n && forall i :: 0 <= i < n ==> r[i] == x
  {
    if n == 0 then [] else [x] + Repeat(x, n - 1)
  }

  /** `a` calls followed by `b` calls are `a + b` calls. */
  lemma {:induction false} RequestsConcat(s: Slot, a: nat, b: nat)
    ensures Requests(s, a + b).0 == Requests(s, a).0 + Requests(Requests(s, a).1, b).0
    ensures Requests(s, a + b).1 == Requests(Requests(s, a).1, b).1
    decreases a
  {
    if a > 0 {
      var first := Request(s);
      RequestsConcat(first.1, a - 1, b);
      assert a + b - 1 == (a - 1) + b;
      assert [first.0] + Requests(first.1, a - 1).0 + Requests(Requests(first.1, a - 1).1, b).0
          == [first.0] + (Requests(first.1, a - 1).0 + Requests(Requests(first.1, a - 1).1, b).0);
    }
  }

  /** From counter `c`, the next `weight - c` calls all hand out the address, leaving the counter at the weight. */
  lemma {:induction false} Burst(s: Slot)
    requires Bounded(s)
    ensures Requests(s, s.weight - s.counter) == (Repeat(Some(s.address), s.weight - s.counter), s.(counter := s.weight))
    decreases s.weight - s.counter
  {
    if s.counter < s.weight {
      Burst(Request(s).1);
    }
  }

  /**
   * From counter 0 a slot hands out its address `weight` times, then reports
   * exhaustion once and is back at counter 0: the period is `weight + 1`.
   */
  lemma Period(s: Slot)
    requires s.counter == 0
    ensures Requests(s, s.weight + 1) == (Repeat(Some(s.address), s.weight) + [None], s)
  {
    Burst(s);
    RequestsConcat(s, s.weight, 1);
    var full := s.(counter := s.weight);
    assert full.(counter := 0) == s;
    assert Request(full).0 == None && Request(full).1 == s;
    assert Requests(full, 1).0 == [None] && Requests(full, 1).1 == s;
    assert Requests(s, s.weight).1 == full;
  }

  /** A slot of weight 0 always reports exhaustion and never leaves counter 0. */
  lemma {:induction false} ZeroWeight(s: Slot, k: nat)
    requires s.weight == 0 && s.counter == 0
    ensures Requests(s, k) == (Repeat(None, k), s)
  {
    if k > 0 {
      ZeroWeight(s, k - 1);
    }
  }

  /** `Weight`: the address and weight are fixed; only the counter changes. */
  class Weight {
    const socketAddress: SocketAddress
    const weight: nat
    var requestCounter: nat

    /** `Weight::new`: the address and weight as given, the counter at 0. */
    constructor (socketAddress: SocketAddress, weight: nat)
      ensures View() == Slot(socketAddress, weight, 0)
    {
      this.socketAddress := socketAddress;
      this.weight := weight;
      requestCounter := 0;
    }

    function View(): Slot
      reads this
    {
      Slot(socketAddress, weight, requestCounter)
    }

    /**
     * `next_request`: at the weight, reset the counter and report exhaustion;
     * otherwise count one more request and hand out the address.
     */
    method NextRequest() returns (r: Option<SocketAddress>)
      modifies this
      ensures r.None? <==> old(requestCounter) == weight
      ensures requestCounter == if r.None? then 0 else old(requestCounter) + 1
      ensures (r, View()) == Request(old(View()))
    {
      if requestCounter == weight {
        requestCounter := 0;
        return None;
      }
      requestCounter := requestCounter + 1;
      r := Some(socketAddress);
    }
  }
}
